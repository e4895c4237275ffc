/** heifimageplugin::Plugin::capabilities: the older, read-only plugin. */
module Plugin {
  import opened Wrappers
  import IOHandler
  import QHeifPlugin

  /** The format names the older plugin answers for. */
  predicate FormatOK(format: string) {
    format == "heic" || format == "heif"
  }

  function Capabilities(device: Option<QHeifPlugin.DeviceInfo>, format: string): (caps: set<QHeifPlugin.Capability>)
    ensures caps <= {QHeifPlugin.CanRead}
    ensures !FormatOK(format) && format != "" ==> caps == {}
    ensures device.None? ==> (caps == {QHeifPlugin.CanRead} <==> FormatOK(format))
    ensures device.Some? && (FormatOK(format) || format == "") ==>
      (caps == {QHeifPlugin.CanRead} <==> device.value.readable && IOHandler.CanReadFrom(device.value.header))
  {
    var formatOK := FormatOK(format);
    if !formatOK && format != "" then {}
    else if device.None? then (if formatOK then {QHeifPlugin.CanRead} else {})
    else if device.value.readable && IOHandler.CanReadFrom(device.value.header) then {QHeifPlugin.CanRead}
    else {}
  }

  /**
   * Against the current plugin: it accepts fewer names, and where it offers
   * reading without a device, so does the current one.
   */
  lemma CompareWithCurrent(format: string)
    ensures FormatOK(format) ==> QHeifPlugin.FormatOK(format)
    ensures QHeifPlugin.CanRead in Capabilities(Option.None, format) ==>
      QHeifPlugin.CanRead in QHeifPlugin.Capabilities(Option.None, format)
    ensures QHeifPlugin.CanWrite !in Capabilities(Option.None, format)
  {
  }
}
