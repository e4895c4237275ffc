/** QHeifPlugin::capabilities: what the current plugin offers for a device and a format name. */
module QHeifPlugin {
  import opened Primitives
  import opened Wrappers
  import opened LibHeif
  import QHeifFormat

  /** QImageIOPlugin::Capability. */
  datatype Capability = CanRead | CanWrite | CanReadIncremental

  /** What capabilities asks of a QIODevice: isReadable, isWritable and the bytes peek(12) returns. */
  datatype DeviceInfo = DeviceInfo(id: DeviceId, readable: bool, writable: bool, header: seq<byte>)

  /** The format names the plugin answers for. */
  predicate FormatOK(format: string) {
    format == "heic" || format == "heics" || format == "heif" || format == "heifs"
  }

  function Capabilities(device: Option<DeviceInfo>, format: string): (caps: set<Capability>)
    ensures CanReadIncremental !in caps
    ensures !FormatOK(format) && format != "" ==> caps == {}
    ensures device.None? ==> caps == if FormatOK(format) then {CanRead, CanWrite} else {}
  {
    var formatOK := FormatOK(format);
    if !formatOK && format != "" then {}
    else if device.None? then (if formatOK then {CanRead, CanWrite} else {})
    else
      var dev := device.value;
      var readCaps: set<Capability> :=
        if dev.readable && QHeifFormat.CanReadFrom(dev.header) != QHeifFormat.Format.None then {CanRead} else {};
      var writeCaps: set<Capability> := if dev.writable then {CanWrite} else {};
      readCaps + writeCaps
  }

  /**
   * With a device and an acceptable format name, reading is offered exactly
   * when the device is readable and the handler's canRead (on that device)
   * would say yes; writing exactly when it is writable, whatever it holds.
   */
  lemma DeviceCapabilities(dev: DeviceInfo, format: string)
    requires FormatOK(format) || format == ""
    ensures CanRead in Capabilities(Some(dev), format) <==>
      dev.readable && QHeifFormat.CanRead(Some(dev.id), dev.header).Some?
    ensures CanWrite in Capabilities(Some(dev), format) <==> dev.writable
  {
  }

  /** The names the plugin accepts are exactly the labels the handler's canRead records. */
  lemma FormatNamesAreLabels(format: string)
    ensures FormatOK(format) <==> exists f :: QHeifFormat.FormatLabel(f) == Some(format)
  {
    if FormatOK(format) {
      var f := QHeifFormat.LabelFormat(format);
      assert QHeifFormat.FormatLabel(f) == Some(format);
    }
  }
}
