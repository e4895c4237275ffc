/**
 * QHeifHandler: the current image I/O handler. Reading loads the whole file once
 * per device into a ReadState (file bytes, decode context, item list, current
 * index); writing copies an RGBA bitmap into a libheif plane, encodes it and
 * streams it to the device through a ContextWriter.
 */
module QHeif {
  import opened Primitives
  import opened Wrappers
  import opened LibHeif
  import opened QHeifFormat
  import RowCopy
  import CW = ContextWriter

  /** kDefaultQuality. */
  const DEFAULT_QUALITY: int32 := 50

  /** QImageIOHandler::ImageOption. */
  datatype ImageOption =
    | Size | ClipRect | Description | ScaledClipRect | ScaledSize | CompressionRatio | Gamma
    | Quality | Name | SubType | IncrementalReading | Endianness | Animation | BackgroundColor
    | ImageFormat | SupportedSubTypes | OptimizedWrite | ProgressiveScanWrite
    | ImageTransformation | TransformedByDefault

  // ---------------------------------------------------------------------------
  // Loading

  /** std::find over the id list: the position of the first occurrence. */
  function IndexOf(ids: seq<ItemId>, id: ItemId): (i: nat)
    requires id in ids
    ensures i < |ids| && ids[i] == id
    ensures forall j :: 0 <= j < i ==> ids[j] != id
  {
    if ids[0] == id then 0 else 1 + IndexOf(ids[1..], id)
  }

  /** Why loadContext leaves the read state absent. */
  datatype LoadError = EmptyData | ParseFailed | CountMismatch | PrimaryNotFound

  /**
   * The decision loadContext makes once it has read the file: fail, or start at
   * the given index. `context` is what libheif made of the bytes (`None`: it threw).
   */
  function LoadPlan(fileData: seq<byte>, context: Option<Context>): (r: Result<nat, LoadError>)
    ensures r.Success? <==>
      && fileData != []
      && context.Some?
      && 0 <= context.value.topLevelCount as int == |context.value.topLevelIds|
      && context.value.primaryId in context.value.topLevelIds
    ensures r.Success? ==>
      var ids := context.value.topLevelIds;
      && r.value < |ids|
      && ids[r.value] == context.value.primaryId
      && forall j :: 0 <= j < r.value ==> ids[j] != context.value.primaryId
  {
    if fileData == [] then Failure(EmptyData)
    else if context.None? then Failure(ParseFailed)
    else
      var ctx := context.value;
      if ctx.topLevelCount < 0 || ctx.topLevelCount as int != |ctx.topLevelIds| then Failure(CountMismatch)
      else if ctx.primaryId !in ctx.topLevelIds then Failure(PrimaryNotFound)
      else Success(IndexOf(ctx.topLevelIds, ctx.primaryId))
  }

  /** Each failure of the load is reported for exactly its own cause, checked in this order. */
  lemma LoadPlanFailures(fileData: seq<byte>, context: Option<Context>)
    ensures LoadPlan(fileData, context) == Failure(EmptyData) <==> fileData == []
    ensures LoadPlan(fileData, context) == Failure(ParseFailed) <==> fileData != [] && context.None?
    ensures LoadPlan(fileData, context) == Failure(CountMismatch) <==>
      fileData != [] && context.Some? &&
      (context.value.topLevelCount < 0 || context.value.topLevelCount as int != |context.value.topLevelIds|)
  {
  }

  /** A loaded list has at most INT_MAX entries, so every index fits the C++ int. */
  lemma LoadedIndexFits(fileData: seq<byte>, context: Option<Context>)
    requires LoadPlan(fileData, context).Success?
    ensures |context.value.topLevelIds| <= INT32_MAX
    ensures LoadPlan(fileData, context).value < INT32_MAX
  {
  }

  // ---------------------------------------------------------------------------
  // Decoding checks of read

  /**
   * What read makes of the decoded current item. `None` in: decode threw, an
   * invalid QSize (negative width or height), a null plane, a stride <= 0.
   * Otherwise the bitmap is built over the decoded plane itself, not a copy.
   */
  function DecodeChecked(decoded: Option<DecodedImage>): (bitmap: Option<Bitmap>)
    ensures bitmap.Some? <==>
      && decoded.Some?
      && decoded.value.width >= 0 && decoded.value.height >= 0
      && decoded.value.plane.Some?
      && decoded.value.stride > 0
    ensures bitmap.Some? ==>
      var d := decoded.value;
      bitmap.value == Bitmap(d.width, d.height, d.stride, d.plane.value)
  {
    if decoded.None? then Option.None
    else
      var d := decoded.value;
      if !(d.width >= 0 && d.height >= 0) then Option.None
      else if d.plane.None? then Option.None
      else if d.stride <= 0 then Option.None
      else Some(Bitmap(d.width, d.height, d.stride, d.plane.value))
  }

  // ---------------------------------------------------------------------------
  // Options

  /**
   * The quality setOption would store: only for Quality, only when the QVariant
   * converts to an int (`value` is toInt's result, `None` when `ok` is false),
   * and only within [0, 100].
   */
  function AcceptedQuality(opt: ImageOption, value: Option<int32>): (q: Option<int32>)
    ensures q.Some? ==> opt == Quality && value == q && 0 <= q.value <= 100
    ensures opt == Quality && value.Some? && 0 <= value.value <= 100 ==> q == value
  {
    if opt == Quality && value.Some? && 0 <= value.value <= 100 then value else Option.None
  }

  /** supportsOption. */
  function SupportsOption(opt: ImageOption): (supported: bool)
    ensures supported <==> opt == Quality
  {
    opt == Quality
  }

  /** An option is supported exactly when some value can set it. */
  lemma SupportedIffSettable(opt: ImageOption)
    ensures SupportsOption(opt) <==> exists v :: AcceptedQuality(opt, v).Some?
  {
    if SupportsOption(opt) {
      assert AcceptedQuality(opt, Some(DEFAULT_QUALITY)).Some?;
    }
  }

  /** The boundary values: 0 and 100 are taken as they are; -1, 101 and a non-number are ignored. */
  lemma QualityBoundaries()
    ensures AcceptedQuality(Quality, Some(0)) == Some(0)
    ensures AcceptedQuality(Quality, Some(100)) == Some(100)
    ensures AcceptedQuality(Quality, Some(-1)).None?
    ensures AcceptedQuality(Quality, Some(101)).None?
    ensures AcceptedQuality(Quality, Option.None).None?
  {
  }

  /** option: this handler answers every query with an empty QVariant. */
  function QueryOption(opt: ImageOption): (value: Option<int32>)
    ensures value.None?
  {
    Option.None
  }

  // ---------------------------------------------------------------------------
  // Write guards

  /** A QImage after convertToFormat(Format_RGBA8888): size, bytesPerLine, constBits (`None`: null). */
  datatype HostImage = HostImage(width: int32, height: int32, bytesPerLine: int32, bits: Option<seq<byte>>) {
    /** QSize::isValid. */
    predicate SizeValid() {
      width >= 0 && height >= 0
    }

    /** What Qt guarantees of a bitmap's buffer: height rows of bytesPerLine bytes. */
    predicate Holds() {
      bits.Some? && height >= 0 && bytesPerLine > 0 ==> height as int * bytesPerLine as int <= |bits.value|
    }
  }

  /** Why write gives up, in the order it checks. */
  datatype WriteFailure =
    | NoDevice | NullSource | ConversionFailed | PlaneNotCreated | NullPlane
    | BadDestinationStride | NullSourceData | BadSourceStride | SourceRowTooLong

  /**
   * The checks write makes before copying. `converted` is convertToFormat's
   * result (`None`: null image), `planeCreated` whether create and add_plane
   * returned, `planeNull` and `destStride` what get_plane returned.
   */
  function WriteGuard(device: Option<DeviceId>, source: bool, converted: Option<HostImage>,
                      planeCreated: bool, planeNull: bool, destStride: int32): (failure: Option<WriteFailure>)
    ensures failure.None? <==>
      && device.Some? && source && converted.Some? && converted.value.SizeValid()
      && planeCreated && !planeNull && destStride > 0
      && converted.value.bits.Some?
      && 0 < converted.value.bytesPerLine <= destStride
  {
    if device.None? then Some(NoDevice)
    else if !source then Some(NullSource)
    else if converted.None? || !converted.value.SizeValid() then Some(ConversionFailed)
    else if !planeCreated then Some(PlaneNotCreated)
    else if planeNull then Some(NullPlane)
    else if destStride <= 0 then Some(BadDestinationStride)
    else if converted.value.bits.None? then Some(NullSourceData)
    else if converted.value.bytesPerLine <= 0 then Some(BadSourceStride)
    else if converted.value.bytesPerLine > destStride then Some(SourceRowTooLong)
    else Option.None
  }

  /** Once the guards pass, every row of the source fits in a row of the plane. */
  lemma GuardedCopyFits(device: Option<DeviceId>, converted: Option<HostImage>, destLength: nat, destStride: int32)
    requires WriteGuard(device, true, converted, true, false, destStride).None?
    requires converted.value.Holds()
    requires converted.value.height as int * destStride as int <= destLength
    ensures RowCopy.Fits(converted.value.bits.value, converted.value.bytesPerLine as nat,
                         destLength, destStride as nat, converted.value.height as nat)
  {
    var c := converted.value;
    RowCopy.RowStartIsProduct(c.height as nat, c.bytesPerLine as nat);
    RowCopy.RowStartIsProduct(c.height as nat, destStride as nat);
  }

  /** What the encoder is given: the plane after the copy and the handler's quality. */
  datatype EncodeInput = EncodeInput(width: int32, height: int32, stride: int32, pixels: seq<byte>, quality: int32)

  // ---------------------------------------------------------------------------
  // State

  /** QHeifHandler::ReadState: everything but currentIndex is fixed at construction. */
  class ReadState {
    const fileData: seq<byte>
    const context: Context
    const idList: seq<ItemId>
    var currentIndex: int32

    constructor (data: seq<byte>, ctx: Context, ids: seq<ItemId>, index: int32)
      ensures fileData == data && context == ctx && idList == ids && currentIndex == index
    {
      fileData, context, idList, currentIndex := data, ctx, ids, index;
    }

    /**
     * The bytes libheif may borrow live in the same object as the context, the
     * list is the context's own, its length is the declared count, and the
     * current index points into it.
     */
    ghost predicate Valid()
      reads this
    {
      && fileData != []
      && idList == context.topLevelIds
      && context.topLevelCount as int == |idList|
      && context.primaryId in idList
      && 0 <= currentIndex as int < |idList|
    }
  }

  class QHeifHandler {
    var device: Option<DeviceId>
    var readState: ReadState?
    var quality: int32

    ghost predicate Valid()
      reads this, readState
    {
      && (device.None? ==> readState == null)
      && (readState != null ==> readState.Valid())
      && 0 <= quality <= 100
    }

    constructor ()
      ensures Valid()
      ensures device == Option.None && readState == null && quality == DEFAULT_QUALITY
    {
      device, readState, quality := Option.None, null, DEFAULT_QUALITY;
    }

    /** updateDevice: a different device (`current` is QImageIOHandler::device()) drops the read state. */
    method UpdateDevice(current: Option<DeviceId>)
      requires Valid()
      modifies this
      ensures Valid()
      ensures device == current && quality == old(quality)
      ensures readState == if current == old(device) then old(readState) else null
    {
      if current != device {
        device := current;
        readState := null;
      }
    }

    /**
     * The state loadContext leaves: nothing without a device, the same state
     * when the device is unchanged and already loaded (no re-read), otherwise
     * a fresh state exactly when LoadPlan succeeds on what readAll returned.
     */
    twostate predicate LoadedFrom(current: Option<DeviceId>, fileData: seq<byte>, parse: seq<byte> -> Option<Context>)
      reads this, readState
    {
      && device == current && quality == old(quality)
      && (current.None? ==> readState == null)
      && (current.Some? && current == old(device) && old(readState) != null ==> readState == old(readState))
      && (current.Some? && (current != old(device) || old(readState) == null) ==>
            var plan := LoadPlan(fileData, parse(fileData));
            && (readState != null <==> plan.Success?)
            && (readState != null ==>
                  && fresh(readState)
                  && readState.fileData == fileData
                  && readState.context == parse(fileData).value
                  && readState.currentIndex as int == plan.value))
    }

    /** loadContext. `parse` is libheif's reading of a buffer (`None`: it threw). */
    method LoadContext(current: Option<DeviceId>, fileData: seq<byte>, parse: seq<byte> -> Option<Context>)
      requires Valid()
      modifies this
      ensures Valid()
      ensures LoadedFrom(current, fileData, parse)
    {
      UpdateDevice(current);
      if current.None? {
        return;
      }
      if readState != null {
        return;
      }
      if |fileData| == 0 {
        return;
      }
      var context := parse(fileData);
      if context.None? {
        return;
      }
      var idList := context.value.topLevelIds;
      var numImages := context.value.topLevelCount;
      if numImages < 0 || numImages as int != |idList| {
        return;
      }
      var id := context.value.primaryId;
      if id !in idList {
        return;
      }
      var index := IndexOf(idList, id);
      readState := new ReadState(fileData, context.value, idList, index as int32);
    }

    /** The item read decodes: the one at the current index. */
    ghost function CurrentItem(): ItemId
      reads this, readState
      requires Valid() && readState != null
    {
      readState.idList[readState.currentIndex]
    }

    /**
     * read, up to building the QImage: `Some(bitmap)` when it returns true with
     * the bitmap stored in *destImage. `decode` is libheif's decoding of an item
     * (`None`: it threw). A failure after loading keeps the state that loading left.
     */
    method Read(current: Option<DeviceId>, hasDestination: bool, fileData: seq<byte>,
                parse: seq<byte> -> Option<Context>, decode: ItemId -> Option<DecodedImage>)
      returns (image: Option<Bitmap>)
      requires Valid()
      modifies this
      ensures Valid()
      ensures !hasDestination ==> image.None? && unchanged(this)
      ensures hasDestination ==> LoadedFrom(current, fileData, parse)
      ensures image == if hasDestination && readState != null then DecodeChecked(decode(CurrentItem())) else Option.None
      ensures old(readState) != null ==> old(readState).currentIndex == old(readState.currentIndex)
    {
      if !hasDestination {
        return Option.None;
      }
      LoadContext(current, fileData, parse);
      if readState == null {
        return Option.None;
      }
      var id := readState.idList[readState.currentIndex];
      var srcImage := decode(id);
      if srcImage.None? {
        return Option.None;
      }
      var d := srcImage.value;
      if !(d.width >= 0 && d.height >= 0) {
        return Option.None;
      }
      if d.plane.None? {
        return Option.None;
      }
      if d.stride <= 0 {
        return Option.None;
      }
      return Some(Bitmap(d.width, d.height, d.stride, d.plane.value));
    }

    /** currentImageNumber. */
    function CurrentImageNumber(): (n: int32)
      reads this, readState
      requires Valid()
      ensures readState == null ==> n == -1
      ensures readState != null ==> 0 <= n as int < |readState.idList| && n == readState.currentIndex
    {
      if readState == null then -1 else readState.currentIndex
    }

    /** imageCount: the count libheif declared, which the load proved to be the list's length. */
    function ImageCount(): (n: int32)
      reads this, readState
      requires Valid()
      ensures readState == null ==> n == 0
      ensures readState != null ==> n as int == |readState.idList| > 0
    {
      if readState == null then 0 else readState.context.topLevelCount
    }

    /** jumpToImage: succeeds exactly for a loaded state and an index into its list. */
    method JumpToImage(index: int32) returns (ok: bool)
      requires Valid()
      modifies readState
      ensures Valid()
      ensures ok <==> readState != null && 0 <= index as int < |readState.idList|
      ensures readState != null ==> readState.currentIndex == if ok then index else old(readState.currentIndex)
    {
      if readState == null {
        return false;
      }
      if index < 0 || index as int >= |readState.idList| {
        return false;
      }
      readState.currentIndex := index;
      return true;
    }

    /** jumpToNextImage: jumpToImage(currentIndex + 1), so it fails at the last item. */
    method JumpToNextImage() returns (ok: bool)
      requires Valid()
      modifies readState
      ensures Valid()
      ensures ok <==> readState != null && old(readState.currentIndex) as int + 1 < |readState.idList|
      ensures readState != null ==>
        readState.currentIndex as int == old(readState.currentIndex) as int + (if ok then 1 else 0)
    {
      if readState == null {
        return false;
      }
      // The list has at most INT_MAX entries, so currentIndex + 1 does not overflow.
      ok := JumpToImage(readState.currentIndex + 1);
    }

    /** setOption. */
    method SetOption(opt: ImageOption, value: Option<int32>)
      requires Valid()
      modifies this`quality
      ensures Valid()
      ensures quality == AcceptedQuality(opt, value).GetOr(old(quality))
    {
      match opt {
        case Quality =>
          if value.Some? && value.value >= 0 && value.value <= 100 {
            quality := value.value;
          }
        case _ =>
      }
    }

    /**
     * write. `source` says whether the QImage given is non-null, `converted` is
     * its RGBA8888 conversion, `planeCreated`, `dest` and `destStride` are what
     * creating the libheif image and get_plane produced, `encode` is the encoder
     * (`None`: it threw), `sink` the device's write side and `reported` the byte
     * count it reports. Success needs every guard, the encoding and an exact write.
     */
    method Write(current: Option<DeviceId>, source: bool, converted: Option<HostImage>,
                 planeCreated: bool, dest: array?<byte>, destStride: int32,
                 encode: EncodeInput -> Option<seq<byte>>, sink: CW.OutputDevice, reported: int)
      returns (ok: bool)
      requires Valid()
      requires converted.Some? ==> converted.value.Holds()
      requires converted.Some? && converted.value.height >= 0 && dest != null && destStride > 0 ==>
        converted.value.height as int * destStride as int <= dest.Length
      modifies this, dest, sink
      ensures Valid()
      ensures device == current && quality == old(quality)
      ensures readState == if current == old(device) then old(readState) else null
      ensures WriteGuard(current, source, converted, planeCreated, dest == null, destStride).Some? ==>
        !ok && (dest != null ==> unchanged(dest)) && unchanged(sink)
      ensures WriteGuard(current, source, converted, planeCreated, dest == null, destStride).None? ==>
        var src := converted.value;
        RowCopy.Fits(src.bits.value, src.bytesPerLine as nat, dest.Length, destStride as nat, src.height as nat)
      ensures WriteGuard(current, source, converted, planeCreated, dest == null, destStride).None? ==>
        var src := converted.value;
        var copied := RowCopy.CopiedRows(old(dest[..]), src.bits.value, src.bytesPerLine as nat, destStride as nat, src.height as nat);
        var encoded := encode(EncodeInput(src.width, src.height, destStride, copied, quality));
        && dest[..] == copied
        && (encoded.None? ==> !ok && unchanged(sink))
        && (encoded.Some? ==>
              && sink.requests == old(sink.requests) + [encoded.value]
              && (ok <==> CW.WriteResult(|encoded.value|, reported) == CW.OK_ERROR))
    {
      UpdateDevice(current);
      if current.None? {
        return false;
      }
      if !source {
        return false;
      }
      if converted.None? || !converted.value.SizeValid() {
        return false;
      }
      if !planeCreated {
        return false;
      }
      if dest == null {
        return false;
      }
      if destStride <= 0 {
        return false;
      }
      var src := converted.value;
      if src.bits.None? {
        return false;
      }
      if src.bytesPerLine <= 0 {
        return false;
      } else if src.bytesPerLine > destStride {
        return false;
      }
      GuardedCopyFits(current, converted, dest.Length, destStride);
      RowCopy.CopyRows(src.bits.value, src.bytesPerLine as nat, dest, destStride as nat, src.height as nat);
      var encoded := encode(EncodeInput(src.width, src.height, destStride, dest[..], quality));
      if encoded.None? {
        return false;
      }
      var writer := new CW.ContextWriter(sink);
      var e := writer.Write(encoded.value, reported);
      // Context::write throws heif::Error for any result but heif_error_Ok.
      if e.code != CW.Ok {
        return false;
      }
      return true;
    }
  }

  /**
   * A client: a heic file with two top-level items whose primary item is the
   * second one, read twice on the same device around a jump to the first item.
   */
  method TwoItemSequence()
    returns (first: Option<Bitmap>, index: int32, count: int32, nextOk: bool, jumpOk: bool, second: Option<Bitmap>)
    ensures first == Some(Bitmap(2, 1, 8, [2, 2, 2, 2, 2, 2, 2, 2]))
    ensures index == 1 && count == 2
    ensures !nextOk && jumpOk
    ensures second == Some(Bitmap(1, 1, 4, [1, 1, 1, 1]))
  {
    var header := FtypHeader([0, 0, 0, 24], HEIC);
    assert header[8..12] == HEIC;
    assert CanRead(Some(DeviceId(1)), header) == Some("heic");
    var h := new QHeifHandler();
    var ctx := Context(2, [10, 20], 20);
    var parse := (data: seq<byte>) => Some(ctx);
    var decode := (id: ItemId) =>
      if id == 10 then Some(DecodedImage(1, 1, 4, Some([1, 1, 1, 1])))
      else Some(DecodedImage(2, 1, 8, Some([2, 2, 2, 2, 2, 2, 2, 2])));
    var dev := Some(DeviceId(1));
    first := h.Read(dev, true, [0, 1], parse, decode);
    index, count := h.CurrentImageNumber(), h.ImageCount();
    nextOk := h.JumpToNextImage();
    assert h.CurrentImageNumber() == 1;
    jumpOk := h.JumpToImage(0);
    assert h.CurrentImageNumber() == 0;
    second := h.Read(dev, true, [], parse, decode);
  }
}
