# HEIF image I/O handler for Qt — verified model

This project models the decision and state logic of a Qt image-format plugin
for HEIF/HEIC files, in two generations:

* the current handler `QHeifHandler` with its plugin `QHeifPlugin`, which
  reads image sequences and writes single images;
* the older read-only `heifimageplugin::IOHandler` with its `Plugin`.

The libheif codec and Qt's device and image classes are not modelled. Whatever
the handlers get from them is a parameter: the bytes `peek(12)` and `readAll()`
return, libheif's reading of a buffer, its decoding of an item, the encoder's
output, and the byte count a device reports for a write. A libheif call that
throws `heif::Error` is `None`.

Modules:

* `Primitives`: bytes, the C++ `int` as `int32`, and the four-character codes
  of the ISO-BMFF file type box (ISO/IEC 14496-12, section 4.3) and HEIF brands
  (ISO/IEC 23008-12).
* `LibHeif`: item ids, the three answers the handler reads from a decode
  context, a decoded image's interleaved plane, and device identities.
* `QHeifFormat`: header sniffing. The function maps 12 bytes to the five-value
  `Format`. It also has the label `canRead` records, and the inverse of that
  labelling.
* `QHeif`: the handler. `ReadState` is a class whose file bytes, context and id
  list are `const` and whose `currentIndex` is its only mutable field. The
  `QHeifHandler` class holds `device`, `readState` (nullable) and `quality`.
  Its invariant `Valid()` says that a state exists only with a device, that
  the id list has the declared length, that it contains the primary id, and
  that the index points into the list. Loading is specified by `LoadPlan`.
  The checks `read` makes are `DecodeChecked`, and those `write` makes are
  `WriteGuard`.
* `RowCopy`: the write path's in-place row copy into the libheif plane. Its
  specification is `CopiedRows`, and three lemmas say what it means: copied
  bytes, untouched row padding, untouched tail.
* `ContextWriter`: the writer that forwards encoded bytes to the device. It
  reports OK exactly when the device reports the whole request written.
* `QHeifPlugin`, `Plugin`: the two `capabilities` decisions.
* `IOHandler`: the older handler, with its own brand check (`mifi`, as
  written, not `mif1`), its context-only state and its `height * stride` copy.

Points where the code behaves in a way a reader may not expect:

* `read` rejects a size that fails `QSize::isValid()`. That test is
  `width >= 0 && height >= 0`, so a zero width or height passes. It is not
  "both positive".
* `option()` returns an empty value for every option, Quality included.
* `imageCount()` returns the count libheif declared, not the length of the id
  list. `QHeifHandler.ImageCount` proves the two are equal from the check made
  at load time.
* The older `read` copies `height * stride` bytes without checking the plane or
  the stride. `IOHandler.CopyPlane` models this as written. Some inputs give no
  result. A negative size makes `new uint8_t[n]` throw
  `std::bad_array_new_length`. That exception escapes `read`, which catches
  only `heif::Error`, and the model's outcome is `BadArrayNewLength`. The
  behaviour is undefined, `Undefined(why)`, in three cases: an overflowing
  `int` product, a null plane with a non-zero size, and a plane that is too
  short. A null plane with size 0 is a defined, empty copy.

## Model

| member | source | states |
|---|---|---|
| `Primitives.FourCCSpelling` | src/qheifhandler.cpp:103-116 | the byte constants spell "ftyp", "mif1", "msf1", "heic", "heix", "hevc" and "hevx", the literals of the current handler |
| `Primitives.LegacyFourCCSpelling` | src/iohandler.cpp:64-66 | the byte constants spell "ftyp", "heic", "heix" and "mifi", the literals of the older handler |
| `QHeifFormat.CanReadFrom` | src/qheifhandler.cpp:89-120 | a recognised header has exactly 12 bytes and "ftyp" at offset 4, and its brand is one of the six in the table |
| `QHeifFormat.BrandTable` | src/qheifhandler.cpp:108-119 | an ftyp header is classified as format f exactly when its brand is one of f's brands: mif1→Heif, msf1→HeifSequence, heic/heix→Heic, hevc/hevx→HeicSequence |
| `QHeifFormat.UnknownBrand` | src/qheifhandler.cpp:117-119 | any other brand gives None |
| `QHeifFormat.BoxSizeIgnored` | src/qheifhandler.cpp:99-101 | headers that differ only in the first four bytes are classified alike |
| `QHeifFormat.RecognisedIsFtypHeader` | src/qheifhandler.cpp:95-106 | every recognised header is an ftyp header built from its own box size and brand |
| `QHeifFormat.FormatLabel` | src/qheifhandler.cpp:132-151 | there is no label for None and a label for each of the other four formats |
| `QHeifFormat.CanRead` | src/qheifhandler.cpp:122-152 | canRead succeeds exactly with a device and a recognised header, and the label it records names the sniffed format |
| `QHeifFormat.LabelRoundTrip` | src/qheifhandler.cpp:132-151 | reading a recorded label back gives the format it was recorded for |
| `QHeifFormat.LabelOnlyForLabels` | src/qheifhandler.cpp:132-151 | only heif, heifs, heic and heics name a format, and each names the format whose label it is |
| `QHeif.IndexOf` | src/qheifhandler.cpp:218-226 | the primary id's position is in the list, holds the id, and no earlier entry holds it (std::find) |
| `QHeif.LoadPlan` | src/qheifhandler.cpp:199-226 | a load succeeds exactly for non-empty data, a parsed context, a count that is non-negative and equal to the list length, and a primary id in the list; then the start index is the primary's first position |
| `QHeif.LoadPlanFailures` | src/qheifhandler.cpp:202-215 | empty data, a parse failure and a count mismatch are each reported for exactly their own cause, in the code's order |
| `QHeif.LoadedIndexFits` | src/qheifhandler.cpp:212-226 | a loaded list has at most INT_MAX entries, so the start index fits the C++ int |
| `QHeif.DecodeChecked` | src/qheifhandler.cpp:253-287 | decoding yields a bitmap exactly when decode returned, the size is valid, the plane is non-null and the stride is positive; the bitmap is over the decoded plane itself |
| `QHeif.AcceptedQuality` | src/qheifhandler.cpp:437-454 | stores a quality only for the Quality option, only for a value that converts to an int, and only within [0, 100] |
| `QHeif.SupportsOption` | src/qheifhandler.cpp:456-459 | an option is supported exactly when it is Quality |
| `QHeif.SupportedIffSettable` | src/qheifhandler.cpp:456-459 | supportsOption holds exactly for the options some value can set |
| `QHeif.QualityBoundaries` | src/qheifhandler.cpp:444-446 | 0 and 100 are accepted as given; -1, 101 and a non-number are ignored |
| `QHeif.QueryOption` | src/qheifhandler.cpp:431-435 | option() answers every query with an empty value |
| `QHeif.WriteGuard` | src/qheifhandler.cpp:343-401 | write passes its guards exactly with a device, a non-null source, a valid converted size, a created non-null plane, a positive destination stride, non-null source data, and 0 < srcStride <= destStride |
| `QHeif.GuardedCopyFits` | src/qheifhandler.cpp:382-408 | once the guards pass, every source row fits inside a destination row, so the copy stays within both buffers |
| `QHeif.ReadState.constructor` | src/qheifhandler_p.h:87-98 | a read state keeps the file bytes, context and id list it was built from, and starts at the given index |
| `QHeif.QHeifHandler.constructor` | src/qheifhandler.cpp:56-61 | a new handler has no device, no read state and quality 50 |
| `QHeif.QHeifHandler.UpdateDevice` | src/qheifhandler.cpp:69-83 | it stores the current device and drops the read state exactly when that device differs from the stored one |
| `QHeif.QHeifHandler.LoadContext` | src/qheifhandler.cpp:186-232 | with no device there is no state; on the same loaded device it is a no-op; otherwise a fresh state exists exactly when `LoadPlan` succeeds, holding the data read, the parsed context and the primary's index |
| `QHeif.QHeifHandler.Read` | src/qheifhandler.cpp:234-296 | with a null destination it fails and changes nothing; otherwise it loads, then yields `DecodeChecked` of the decoded current item, and fails without state when none was loaded; no failure alters the index |
| `QHeif.QHeifHandler.CurrentImageNumber` | src/qheifhandler.cpp:298-305 | -1 without a state, otherwise the current index, which lies inside the list |
| `QHeif.QHeifHandler.ImageCount` | src/qheifhandler.cpp:307-314 | 0 without a state, otherwise the declared count, which equals the list's length |
| `QHeif.QHeifHandler.JumpToImage` | src/qheifhandler.cpp:316-328 | succeeds exactly with a state and an index into its list, sets the index only then, and keeps the invariant |
| `QHeif.QHeifHandler.JumpToNextImage` | src/qheifhandler.cpp:330-337 | succeeds exactly when a next item exists; it moves the index by one, and on failure (including at the last item) leaves it unchanged; currentIndex + 1 does not overflow |
| `QHeif.QHeifHandler.SetOption` | src/qheifhandler.cpp:437-454 | quality becomes the accepted value, else stays; quality stays within [0, 100] |
| `QHeif.QHeifHandler.Write` | src/qheifhandler.cpp:339-429 | after updating the device, a failed guard fails with plane and device untouched; otherwise the plane becomes `CopiedRows` of the source, the encoder gets that plane and the handler's quality, the device gets one write of the encoded bytes, and success means an exact write |
| `QHeif.TwoItemSequence` | src/qheifhandler.cpp:186-337 | for two items with the second one primary: the first read decodes item 2, after which currentImageNumber is 1 and imageCount is 2; jumpToNextImage fails there and jumpToImage(0) succeeds; a read on the same device with no new data then decodes item 1 |
| `RowCopy.CopiedRowsAt` | src/qheifhandler.cpp:403-408 | byte k < srcStride of copied row y equals the source's byte y*srcStride + k |
| `RowCopy.CopiedRowsPadding` | src/qheifhandler.cpp:403-408 | bytes srcStride..destStride of each copied row keep their old value |
| `RowCopy.CopiedRowsBeyond` | src/qheifhandler.cpp:403-408 | bytes after the last copied row keep their old value |
| `RowCopy.CopyRow` | src/qheifhandler.cpp:405-407 | one std::copy: the source's len bytes from srcOff land in the plane from destOff, and every other plane byte keeps its value; the write loop calls it with the offsets of row y and len = srcStride |
| `RowCopy.CopyRows` | src/qheifhandler.cpp:403-408 | the row-by-row copy turns the plane into `CopiedRows` of its old content |
| `ContextWriter.ToInt64` | src/contextwriter.cpp:34 | the size cast to int64 is the size itself below 2^63 and congruent to it modulo 2^64 |
| `ContextWriter.WriteResult` | src/contextwriter.cpp:30-42 | the result is always kOkError or kWriteError |
| `ContextWriter.WriteResultExact` | src/contextwriter.cpp:9-19 | OK (heif_error_Ok) exactly when the reported count equals the size; short, long or -1 give kWriteError (Encoding_error / Cannot_write_output_data) |
| `ContextWriter.ContextWriter.constructor` | src/contextwriter.cpp:25-28 | the writer keeps the device it was given |
| `ContextWriter.ContextWriter.Write` | src/contextwriter.cpp:30-42 | exactly one device write of the data per call, no retry, result `WriteResult` of the reported count |
| `QHeifPlugin.Capabilities` | src/main.cpp:46-75 | never CanReadIncremental; nothing for a non-empty unknown format; without a device CanRead and CanWrite for a known format and nothing otherwise |
| `QHeifPlugin.DeviceCapabilities` | src/main.cpp:63-74 | with a device, CanRead exactly when it is readable and the handler's canRead would succeed, CanWrite exactly when it is writable |
| `QHeifPlugin.FormatNamesAreLabels` | src/main.cpp:48-49 | the format names accepted are exactly the labels the handler records |
| `Plugin.Capabilities` | src/plugin.cpp:22-45 | at most CanRead, never CanWrite; nothing for an unknown non-empty format; CanRead without a device exactly for heic and heif, with a device exactly when readable and the older canReadFrom holds |
| `Plugin.CompareWithCurrent` | src/plugin.cpp:28-39 | the older plugin accepts a subset of the names and offers reading without a device only when the current one does |
| `IOHandler.CanReadFrom` | src/iohandler.cpp:42-67 | true exactly for 12 bytes with "ftyp" at offset 4 and brand heic, heix or "mifi" |
| `IOHandler.CanRead` | src/iohandler.cpp:69-78 | true exactly with a device and a recognised header, always recording "heic" |
| `IOHandler.CompareWithCurrent` | src/iohandler.cpp:58-66 | both generations accept heic and heix alike; "mifi" is accepted only by the older one, while mif1, msf1, hevc and hevx are accepted only by the current one |
| `IOHandler.CopyPlane` | src/iohandler.cpp:157-166 | a defined copy has 0 <= height*stride <= INT_MAX bytes, which are the plane's prefix of that length; `std::bad_array_new_length` escapes exactly for a negative in-range size; a null plane is undefined only for a non-zero size |
| `IOHandler.CopyAgreesWhenChecked` | src/iohandler.cpp:157-166 | where the current handler's checks pass and the plane holds height*stride bytes, the older copy is defined and equals the prefix |
| `IOHandler.UnguardedExamples` | src/iohandler.cpp:152-166 | a null plane of non-zero size is undefined; a negative stride makes `std::bad_array_new_length` escape; a 32768 x 32768 image with 131072-byte rows overflows the `int` size and is undefined |
| `IOHandler.IOHandler.constructor` | src/iohandler.cpp:24-31 | a new handler has neither device nor context |
| `IOHandler.IOHandler.UpdateDeviceAssertion` | src/iohandler.cpp:86-90 | the assertion holds exactly when device() is non-null or no context exists |
| `IOHandler.IOHandler.StoredDeviceAssertion` | src/iohandler.cpp:84-98 | the assertion stated on the stored device always holds |
| `IOHandler.IOHandler.UpdateDevice` | src/iohandler.cpp:84-98 | it stores the current device and drops the context exactly when that device differs |
| `IOHandler.IOHandler.LoadContext` | src/iohandler.cpp:100-121 | no-op with a context on the same device, no context without a device, else the context is what parsing the non-empty data gave (none for empty data) |
| `IOHandler.IOHandler.Read` | src/iohandler.cpp:123-184 | fails on a null destination without change; otherwise loads, and without context or on a decode error fails, else yields `CopyPlane` of the decoded primary image |
| `IOHandler.IOHandler.SetOption` | src/iohandler.cpp:196-201 | changes nothing |
| `IOHandler.SupportsOption` | src/iohandler.cpp:203-207 | no option is supported |
| `IOHandler.QueryOption` | src/iohandler.cpp:190-194 | every query answers an empty value |
| `IOHandler.DetachAfterLoad` | src/iohandler.cpp:84-98 | after a load on one device, detaching the device makes the assertion of updateDevice false |

## Left out

- libheif is not modelled. That covers reading from memory (with or without copy), image handles, decoding, creating images and planes, the encoder and encode_image, and Context::write. Its answers are parameters. A thrown heif::Error is `None`, which the handler's `catch` turns into a failure.
- Qt is not modelled either: QIODevice peek, readAll and write, QImage::convertToFormat, and QVariant::toInt. Their results are parameters: header bytes, file bytes, the converted image, a reported byte count, and `Option<int32>`.
- Zero-copy ownership transfer is not modelled. `read` hands the decoded image to the QImage together with a deleter that frees it once. The model's bitmap simply carries the decoded plane's bytes.
- Logging (logging.h, log.h, trace.h), the make_unique shim in util.h, and plugin registration (`create`, Q_PLUGIN_METADATA) have no behaviour to model.
- `IOHandler.IOHandler.UpdateDevice`: what a failed `HEIFIMAGEPLUGIN_ASSERT(_context == nullptr)` does (src/iohandler.cpp:89) is left out, because assertion.h is not part of this model. The asserted condition is modelled on its own by `IOHandler.IOHandler.UpdateDeviceAssertion`, and `IOHandler.DetachAfterLoad` shows a state where it fails.
- `IOHandler.IOHandler.Read`: the `if (!dataCopy)` branch is never taken, because `new` throws instead of returning null, so the model has no such branch.
- `QHeif.QHeifHandler.Write`: libheif is taken to call the writer once with the whole file, and to turn the writer's error into heif::Error. Calls split into several chunks, and byte accounting across calls, are not modelled.
- `RowCopy.CopyRows`: the offsets `y * srcStride` and `y * destStride` are computed as unbounded integers. A C++ `int` overflow there is not modelled.
- `QHeif.QHeifHandler.Write`: two requires state what libheif and Qt guarantee. The libheif plane holds height rows of destStride bytes, and the QImage buffer holds height rows of bytesPerLine bytes.
- There is no `Size` option. `option()` answers every query with an empty value, and `supportsOption` accepts only Quality.

## Findings

| source | as written | input that shows it | evidently intended | confidence | as-written member | corrected member |
|---|---|---|---|---|---|---|
| src/iohandler.cpp:86-90 | updateDevice asserts that a null device() comes with no context, and checks this before the context is reset | load a file on device A, then give the handler a null device and call read | assert on the stored device, as the current handler does at src/qheifhandler.cpp:71-72, which holds in every state | not executed; low, because it needs HEIFIMAGEPLUGIN_ASSERT to be active, and assertion.h is not part of this model | `IOHandler.DetachAfterLoad` | `IOHandler.IOHandler.StoredDeviceAssertion` |
