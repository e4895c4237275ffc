/**
 * heifimageplugin::IOHandler: the older, read-only handler. It recognises
 * fewer brands, keeps only a decode context, always decodes the primary image
 * and copies its plane into a new buffer of height * stride bytes.
 */
module IOHandler {
  import opened Primitives
  import opened Wrappers
  import opened LibHeif
  import QHeifFormat
  import QHeif

  /** canReadFrom: exactly 12 bytes, an ftyp box, and brand heic, heix or the literal "mifi". */
  function CanReadFrom(header: seq<byte>): (readable: bool)
    ensures readable <==>
      |header| == 12 && header[4..8] == FTYP && header[8..12] in {HEIC, HEIX, MIFI}
  {
    if |header| != 12 then false
    else
      var w1 := header[4..8];
      var w2 := header[8..12];
      w1 == FTYP && (w2 == HEIC || w2 == HEIX || w2 == MIFI)
  }

  /** canRead: with a device whose header is recognised it records "heic", whatever the brand. */
  function CanRead(device: Option<DeviceId>, header: seq<byte>): (name: Option<string>)
    ensures name.Some? <==> device.Some? && CanReadFrom(header)
    ensures name.Some? ==> name.value == "heic"
  {
    if device.Some? && CanReadFrom(header) then Some("heic") else Option.None
  }

  /**
   * The two generations agree on heic and heix, and on nothing else: the older
   * one takes "mifi", which the current one rejects, and rejects mif1, msf1,
   * hevc and hevx.
   */
  lemma CompareWithCurrent(header: seq<byte>)
    ensures CanReadFrom(header) && header[8..12] != MIFI ==> QHeifFormat.CanReadFrom(header) == QHeifFormat.Heic
    ensures CanReadFrom(header) && header[8..12] == MIFI ==> QHeifFormat.CanReadFrom(header) == QHeifFormat.Format.None
    ensures QHeifFormat.CanReadFrom(header) == QHeifFormat.Heic ==> CanReadFrom(header)
    ensures QHeifFormat.CanReadFrom(header) in {QHeifFormat.Heif, QHeifFormat.HeifSequence, QHeifFormat.HeicSequence} ==>
      !CanReadFrom(header)
  {
  }

  /** Why the copy in read has undefined behaviour. */
  datatype Unguarded =
    | SizeOverflow   // height * stride overflows int
    | NullPlane      // std::copy of a non-zero size from a null plane
    | PlaneTooShort  // std::copy past the end of the plane

  /**
   * The outcome of read: false; true with a bitmap; std::bad_array_new_length,
   * which new uint8_t[n] throws for n < 0 and which escapes read, since read
   * catches only heif::Error; or undefined behaviour.
   */
  datatype ReadOutcome = Failed | Loaded(bitmap: Bitmap) | BadArrayNewLength | Undefined(why: Unguarded)

  /**
   * The copy of read: a new buffer of dataSize = height * stride bytes, filled
   * from the plane, with nothing checked beforehand.
   */
  function CopyPlane(d: DecodedImage): (r: ReadOutcome)
    ensures r.Failed? == false
    ensures r.BadArrayNewLength? <==> INT32_MIN <= d.height as int * d.stride as int < 0
    ensures r.Undefined? && r.why == NullPlane ==> d.plane.None? && d.height as int * d.stride as int != 0
    ensures r.Loaded? ==>
      var size := d.height as int * d.stride as int;
      && 0 <= size <= INT32_MAX
      && (size > 0 ==> d.plane.Some? && |d.plane.value| >= size)
      && |r.bitmap.pixels| == size
      && (d.plane.Some? ==> r.bitmap.pixels == d.plane.value[..size])
      && r.bitmap.width == d.width && r.bitmap.height == d.height && r.bitmap.stride == d.stride
  {
    var dataSize := d.height as int * d.stride as int;
    if dataSize < INT32_MIN || dataSize > INT32_MAX then Undefined(SizeOverflow)
    else if dataSize < 0 then BadArrayNewLength
    else if d.plane.None? then
      if dataSize == 0 then Loaded(Bitmap(d.width, d.height, d.stride, [])) else Undefined(NullPlane)
    else if |d.plane.value| < dataSize then Undefined(PlaneTooShort)
    else Loaded(Bitmap(d.width, d.height, d.stride, d.plane.value[..dataSize]))
  }

  /**
   * Where the current handler's checks pass on a plane of height rows, the
   * older copy is defined and yields the bitmap over the same rows.
   */
  lemma CopyAgreesWhenChecked(d: DecodedImage)
    requires d.width >= 0 && d.height >= 0 && d.plane.Some? && d.stride > 0
    requires d.height as int * d.stride as int <= |d.plane.value|
    requires d.height as int * d.stride as int <= INT32_MAX
    ensures CopyPlane(d) == Loaded(Bitmap(d.width, d.height, d.stride, d.plane.value[..d.height as int * d.stride as int]))
  {
    MulLeftMono(0, d.height as nat, d.stride as nat);
  }

  /** Inputs the current handler rejects and the older one copies from anyway. */
  lemma UnguardedExamples()
    ensures CopyPlane(DecodedImage(1, 1, 4, Option.None)) == Undefined(NullPlane)
    ensures CopyPlane(DecodedImage(1, 2, -4, Some([]))) == BadArrayNewLength
    ensures CopyPlane(DecodedImage(32768, 32768, 0x2_0000, Some([]))) == Undefined(SizeOverflow)
  {
  }

  class IOHandler {
    var device: Option<DeviceId>
    var context: Option<Context>

    /** A context only ever lives alongside the device it was read from. */
    ghost predicate Valid()
      reads this
    {
      device.None? ==> context.None?
    }

    constructor ()
      ensures Valid()
      ensures device == Option.None && context == Option.None
    {
      device, context := Option.None, Option.None;
    }

    /**
     * The assertion updateDevice makes before it resets the context: a null
     * device() must come with no context.
     */
    function UpdateDeviceAssertion(current: Option<DeviceId>): (holds: bool)
      reads this
      ensures holds <==> current.Some? || context.None?
    {
      current.None? ==> context.None?
    }

    /**
     * The same assertion stated on the stored device, as the current handler
     * states it: it holds in every state the handler can be in.
     */
    function StoredDeviceAssertion(): (holds: bool)
      reads this
      requires Valid()
      ensures holds
    {
      device.Some? || context.None?
    }

    /** updateDevice: a different device drops the context. */
    method UpdateDevice(current: Option<DeviceId>)
      requires Valid()
      modifies this
      ensures Valid()
      ensures device == current
      ensures context == if current == old(device) then old(context) else Option.None
    {
      if current != device {
        device := current;
        context := Option.None;
      }
    }

    /** loadContext: nothing to do with a context or without a device; no context for empty data. */
    method LoadContext(current: Option<DeviceId>, fileData: seq<byte>, parse: seq<byte> -> Option<Context>)
      requires Valid()
      modifies this
      ensures Valid()
      ensures device == current
      ensures current == old(device) && old(context).Some? ==> context == old(context)
      ensures current.None? ==> context.None?
      ensures current.Some? && (current != old(device) || old(context).None?) ==>
        context == if fileData == [] then Option.None else parse(fileData)
    {
      UpdateDevice(current);
      if context.Some? || current.None? {
        return;
      }
      if |fileData| == 0 {
        return;
      }
      var ctx := parse(fileData);
      if ctx.None? {
        return;
      }
      context := ctx;
    }

    /**
     * read: always the primary image. `decode` is libheif's decoding (`None`:
     * it threw heif::Error, which read catches).
     */
    method Read(current: Option<DeviceId>, hasDestination: bool, fileData: seq<byte>,
                parse: seq<byte> -> Option<Context>, decode: ItemId -> Option<DecodedImage>)
      returns (outcome: ReadOutcome)
      requires Valid()
      modifies this
      ensures Valid()
      ensures !hasDestination ==> outcome == Failed && unchanged(this)
      ensures hasDestination ==> device == current
      ensures hasDestination && current == old(device) && old(context).Some? ==> context == old(context)
      ensures hasDestination && current.Some? && (current != old(device) || old(context).None?) ==>
        context == if fileData == [] then Option.None else parse(fileData)
      ensures outcome == if !hasDestination || context.None? then Failed
                         else if decode(context.value.primaryId).None? then Failed
                         else CopyPlane(decode(context.value.primaryId).value)
    {
      if !hasDestination {
        return Failed;
      }
      LoadContext(current, fileData, parse);
      if context.None? {
        return Failed;
      }
      var himage := decode(context.value.primaryId);
      if himage.None? {
        return Failed;
      }
      outcome := CopyPlane(himage.value);
    }

    /** setOption: ignores every option and value. */
    method SetOption(opt: QHeif.ImageOption, value: Option<int32>)
      ensures unchanged(this)
    {
    }
  }

  /** supportsOption: nothing is supported. */
  function SupportsOption(opt: QHeif.ImageOption): (supported: bool)
    ensures !supported
  {
    false
  }

  /** option: always an empty QVariant. */
  function QueryOption(opt: QHeif.ImageOption): (value: Option<int32>)
    ensures value.None?
  {
    Option.None
  }

  /**
   * Load a file on one device, then detach the device: the assertion of
   * updateDevice is false, although nothing is wrong with the handler's state.
   */
  method DetachAfterLoad() returns (holds: bool)
    ensures !holds
  {
    var h := new IOHandler();
    var d := DeviceId(1);
    var ctx := Context(1, [1], 1);
    h.LoadContext(Some(d), [0], (data: seq<byte>) => Some(ctx));
    assert h.context == Some(ctx);
    holds := h.UpdateDeviceAssertion(Option.None);
  }
}
