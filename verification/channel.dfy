/** The device as the probes see it: an abstraction of the ddmlib IDevice
    handle, reduced to the answers it gives. */
module Channel {
  import opened Results

  /** What `getSystemProperty(key).get()` delivers: a value, null, or an
      exception from the asynchronous query. */
  datatype LiveReply = LiveValue(value: string) | LiveNull | LiveFailure

  /** An attached device.
      - properties: the cached `getProperty` table; a missing key reads as null;
      - liveSerial: the outcome of the live `ro.serialno` system-property query;
      - serialNumber: `getSerialNumber()`, which may be null;
      - outputs: the captured output of every shell command the device answers;
        a command missing from the map is one whose `executeShellCommand` threw. */
  datatype Device = Device(
    properties: map<string, string>,
    liveSerial: LiveReply,
    serialNumber: Option<string>,
    outputs: map<string, string>)

  /** IDevice.getProperty(key) */
  function GetProperty(d: Device, key: string): (r: Option<string>)
    ensures r.Some? <==> key in d.properties
  {
    if key in d.properties then Some(d.properties[key]) else None
  }

  /** AdbUtil.shell(cmd, device): the captured output, or None where the
      channel threw (wrapped by the source into a RuntimeException). */
  function Shell(d: Device, cmd: string): (r: Option<string>)
    ensures r.Some? <==> cmd in d.outputs
  {
    if cmd in d.outputs then Some(d.outputs[cmd]) else None
  }
}
