/** The probes of AdbUtil: each sends one fixed shell command (or reads
    device properties) and turns the textual reply into a typed result. */
module AdbUtil {
  import opened Results
  import opened JavaText
  import opened JavaInt
  import opened StringUtil
  import opened Channel
  import IpPattern

  // ---------------------------------------------------------------------
  // Device identifier

  const ImeiKey: string := "ro.ytx.imei"
  const SerialKey: string := "ro.serialno"

  /** One source of the identifier fallback chain, as the caller sees it. */
  datatype Attempt = Found(value: string) | Null | Thrown

  function FromNullable(v: Option<string>): Attempt {
    if v.Some? then Found(v.value) else Null
  }

  function FromLive(q: LiveReply): Attempt {
    match q
    case LiveValue(v) => Found(v)
    case LiveNull => Null
    case LiveFailure => Thrown
  }

  /** The fallback policy in its own terms: sources are tried left to right
      and the first one that does not give null decides, with a value or with
      the failure it raised. */
  function FirstNonNull(attempts: seq<Attempt>): (r: Probe<string>)
    ensures !r.FormatError?
    ensures r.Absent? <==> forall i :: 0 <= i < |attempts| ==> attempts[i].Null?
    ensures r.Value? ==> exists i ::
      (0 <= i < |attempts| && attempts[i] == Found(r.value) && forall j :: 0 <= j < i ==> attempts[j].Null?)
    ensures r.ExecutionError? ==> exists i ::
      (0 <= i < |attempts| && attempts[i].Thrown? && forall j :: 0 <= j < i ==> attempts[j].Null?)
    decreases |attempts|
  {
    if |attempts| == 0 then Absent
    else
      match attempts[0]
      case Found(v) => Value(v)
      case Thrown => ExecutionError
      case Null => FirstNonNull(attempts[1..])
  }

  /** The sources getDeviceId consults, in order. */
  function DeviceIdAttempts(d: Device): seq<Attempt> {
    [ FromNullable(GetProperty(d, ImeiKey)),
      FromNullable(GetProperty(d, SerialKey)),
      FromLive(d.liveSerial),
      FromNullable(d.serialNumber) ]
  }

  /** AdbUtil.getDeviceId */
  function GetDeviceId(device: Option<Device>): (r: Probe<string>)
    ensures device.None? ==> r == Absent
    ensures !r.FormatError?
  {
    if device.None? then Absent
    else
      var d := device.value;
      var imei := GetProperty(d, ImeiKey);
      if imei.Some? then Value(imei.value)
      else
        var serial := GetProperty(d, SerialKey);
        if serial.Some? then Value(serial.value)
        else
          match d.liveSerial
          case LiveFailure => ExecutionError
          case LiveValue(v) => Value(v)
          case LiveNull =>
            if d.serialNumber.Some? then Value(d.serialNumber.value) else Absent
  }

  /** The nested conditionals of getDeviceId are the fallback chain over its
      four sources. */
  lemma DeviceIdFollowsChain(d: Device)
    ensures GetDeviceId(Some(d)) == FirstNonNull(DeviceIdAttempts(d))
  {
    var a := DeviceIdAttempts(d);
    assert a[1..] == [a[1], a[2], a[3]];
    assert a[1..][1..] == [a[2], a[3]];
    assert a[1..][1..][1..] == [a[3]];
    assert a[1..][1..][1..][1..] == [];
  }

  /** A failing live query surfaces as an error: the hardware serial is never
      reached in that case. */
  lemma DeviceIdLiveFailureSurfaces(d: Device)
    requires ImeiKey !in d.properties && SerialKey !in d.properties
    requires d.liveSerial == LiveFailure
    ensures GetDeviceId(Some(d)) == ExecutionError
  {
  }

  /** Once a source gives something other than null, later sources are not
      consulted: chains that agree up to that source agree on the result. */
  lemma {:induction false} FirstNonNullIgnoresLater(a: seq<Attempt>, b: seq<Attempt>, i: nat)
    requires i < |a| && i < |b| && a[..i + 1] == b[..i + 1]
    requires !a[i].Null?
    ensures FirstNonNull(a) == FirstNonNull(b)
    decreases i
  {
    assert a[0] == a[..i + 1][0] == b[..i + 1][0] == b[0];
    if i > 0 && a[0].Null? {
      assert a[1..][..i] == a[1..i + 1] == b[1..i + 1] == b[1..][..i];
      FirstNonNullIgnoresLater(a[1..], b[1..], i - 1);
    }
  }

  /** Devices whose identifier sources agree up to the first one that is not
      null resolve to the same identifier, whatever their later sources say. */
  lemma DeviceIdIgnoresLaterSources(d: Device, e: Device, i: nat)
    requires i < 4
    requires DeviceIdAttempts(d)[..i + 1] == DeviceIdAttempts(e)[..i + 1]
    requires !DeviceIdAttempts(d)[i].Null?
    ensures GetDeviceId(Some(d)) == GetDeviceId(Some(e))
  {
    FirstNonNullIgnoresLater(DeviceIdAttempts(d), DeviceIdAttempts(e), i);
    DeviceIdFollowsChain(d);
    DeviceIdFollowsChain(e);
  }

  // ---------------------------------------------------------------------
  // ps variant

  const ReleaseKey: string := "ro.build.version.release"
  const PsLegacy: string := "ps"
  const PsAll: string := "ps -A"

  /** The major Android version: the trimmed release text before its first
      '.', or all of it when there is none, read by Integer.parseInt. */
  function MajorVersion(release: string): (r: Option<int>)
    ensures r.Some? ==> IsInt32(r.value)
    ensures var m := MajorPart(Trim(release));
      |m| > 0 && IsDigits(m) && DigitsValue(m) <= MaxInt ==> r == Some(DigitsValue(m))
  {
    ParseInt(MajorPart(Trim(release)))
  }

  /** The text before the first '.', or all of it when there is none. */
  function MajorPart(version: string): (m: string)
    ensures '.' !in m
    ensures |m| <= |version| && m == version[..|m|]
    ensures |m| < |version| ==> version[|m|] == '.'
  {
    var index := IndexOf(version, '.');
    if index > -1 then version[..index] else version
  }

  /** A release written as `<n>` has major version n. */
  lemma MajorVersionOfBareRelease(n: nat)
    requires n <= MaxInt
    ensures MajorVersion(NatToString(n)) == Some(n)
  {
    var digits := NatToString(n);
    TrimPadded("", digits, "");
    assert "" + digits + "" == digits;
    assert '.' !in digits;
    ParseIntToString(n);
  }

  /** A release written as `<n>.<rest>` has major version n, whatever the rest. */
  lemma MajorVersionOfDottedRelease(n: nat, rest: string)
    requires n <= MaxInt
    ensures MajorVersion(NatToString(n) + "." + rest) == Some(n)
  {
    var digits := NatToString(n);
    var s := digits + "." + rest;
    var k := |digits|;
    assert s[k] == '.';
    TrimKeepsPrefix(s, k);
    var t := Trim(s);
    assert t[..k + 1] == s[..k + 1];
    assert t[..k] == digits;
    assert MajorPart(t) == digits by {
      assert '.' !in t[..k];
      IndexOfAt(t, '.', k);
    }
    ParseIntToString(n);
  }

  /** The ps command variant for a release property value. */
  function PsCommandFor(release: Option<string>): (r: string)
    ensures r == PsAll || r == PsLegacy
    ensures r == PsAll <==>
      release.Some? && MajorVersion(release.value).Some? && MajorVersion(release.value).value >= 8
  {
    if release.None? then PsLegacy
    else
      match MajorVersion(release.value)
      case None => PsLegacy
      case Some(v) => if v >= 8 then PsAll else PsLegacy
  }

  /** AdbUtil.getPsCommand */
  function GetPsCommand(d: Device): (r: string)
    ensures r == PsAll || r == PsLegacy
    ensures r == PsAll <==>
      (&& ReleaseKey in d.properties
       && MajorVersion(d.properties[ReleaseKey]).Some?
       && MajorVersion(d.properties[ReleaseKey]).value >= 8)
  {
    PsCommandFor(GetProperty(d, ReleaseKey))
  }

  /** Devices from major version 8 on get the `-A` flag, earlier ones do not. */
  lemma PsCommandByMajorVersion(n: nat, rest: string)
    requires n <= MaxInt
    ensures PsCommandFor(Some(NatToString(n) + "." + rest)) == (if n >= 8 then PsAll else PsLegacy)
    ensures PsCommandFor(Some(NatToString(n))) == (if n >= 8 then PsAll else PsLegacy)
  {
    MajorVersionOfBareRelease(n);
    MajorVersionOfDottedRelease(n, rest);
  }

  // ---------------------------------------------------------------------
  // Physical screen size

  const WmSizeCommand: string := "wm size"

  /** java.awt.Dimension */
  datatype Dimension = Dimension(width: int, height: int)

  /** The parsing half of getPhysicalSize: every malformed reply is absence,
      never an error. */
  function ParsePhysicalSize(output: string): (r: Probe<Dimension>)
    ensures r.Value? || r.Absent?
    ensures IsEmpty(output) || ':' !in output ==> r.Absent?
    ensures r.Value? ==> IsInt32(r.value.width) && IsInt32(r.value.height)
    ensures r.Value? ==> r.value.width != -1 && r.value.height != -1
  {
    if IsEmpty(output) then Absent
    else
      var index := IndexOf(output, ':');
      if index == -1 then Absent
      else ParseSizePair(Trim(output[index + 1..]))
  }

  /** The trimmed text after the colon, read as `<width>x<height>`; either
      side that getIntValue cannot read (its fallback is -1) means absence. */
  function ParseSizePair(ret: string): (r: Probe<Dimension>)
    ensures r.Value? || r.Absent?
    ensures 'x' !in ret ==> r.Absent?
    ensures r.Value? ==> IsInt32(r.value.width) && IsInt32(r.value.height)
    ensures r.Value? ==> r.value.width != -1 && r.value.height != -1
    ensures r.Value? ==> 'x' in ret && var k := IndexOf(ret, 'x');
      ParseInt(ret[..k]) == Some(r.value.width) && ParseInt(ret[k + 1..]) == Some(r.value.height)
    ensures 'x' in ret ==> var k := IndexOf(ret, 'x');
      (&& ParseInt(ret[..k]).Some? && ParseInt(ret[..k]).value != -1
       && ParseInt(ret[k + 1..]).Some? && ParseInt(ret[k + 1..]).value != -1) ==> r.Value?
  {
    var x := IndexOf(ret, 'x');
    if x == -1 then Absent
    else
      var width := GetIntValue(ret[..x], -1);
      var height := GetIntValue(ret[x + 1..], -1);
      if width == -1 || height == -1 then Absent
      else Value(Dimension(width, height))
  }

  /** `<w>x<h>` in decimal reads back as (w, h). */
  lemma SizePairRoundTrip(w: nat, h: nat)
    requires w <= MaxInt && h <= MaxInt
    ensures ParseSizePair(NatToString(w) + "x" + NatToString(h)) == Value(Dimension(w, h))
  {
    var ws, hs := NatToString(w), NatToString(h);
    assert 'x' !in ws;
    IndexOfSplit(ws, 'x', hs);
    ParseIntToString(w);
    ParseIntToString(h);
  }

  /** Everything after the first colon decides the size. */
  lemma PhysicalSizeAfterColon(heading: string, after: string)
    requires ':' !in heading
    ensures ParsePhysicalSize(heading + ":" + after) == ParseSizePair(Trim(after))
  {
    var out := heading + ":" + after;
    assert out[..|heading|] == heading;
    assert out[|heading|] == ':';
    IndexOfAt(out, ':', |heading|);
    assert out[|heading| + 1..] == after;
  }

  /** Reading back what `wm size` prints: a heading, a colon, and `<w>x<h>`
      with any blank padding yield exactly (w, h). */
  lemma PhysicalSizeRoundTrip(heading: string, lead: string, w: nat, h: nat, trail: string)
    requires ':' !in heading
    requires AllBlank(lead) && AllBlank(trail)
    requires w <= MaxInt && h <= MaxInt
    ensures var pair := NatToString(w) + "x" + NatToString(h);
      ParsePhysicalSize(heading + ":" + (lead + pair + trail)) == Value(Dimension(w, h))
  {
    var ws, hs := NatToString(w), NatToString(h);
    var pair := ws + "x" + hs;
    assert pair[0] == ws[0] && pair[|pair| - 1] == hs[|hs| - 1];
    TrimPadded(lead, pair, trail);
    PhysicalSizeAfterColon(heading, lead + pair + trail);
    SizePairRoundTrip(w, h);
  }

  /** A reply whose trimmed text after the colon has no 'x' is absent,
      whatever blank padding surrounds it. */
  lemma PhysicalSizeWithoutPair(heading: string, lead: string, core: string, trail: string)
    requires ':' !in heading
    requires AllBlank(lead) && AllBlank(trail)
    requires |core| > 0 ==> !IsBlank(core[0]) && !IsBlank(core[|core| - 1])
    requires 'x' !in core
    ensures ParsePhysicalSize(heading + ":" + (lead + core + trail)) == Absent
  {
    PhysicalSizeAfterColon(heading, lead + core + trail);
    TrimPadded(lead, core, trail);
  }

  /** AdbUtil.getPhysicalSize */
  function GetPhysicalSize(d: Device): (r: Probe<Dimension>)
    ensures r.ExecutionError? <==> WmSizeCommand !in d.outputs
    ensures WmSizeCommand in d.outputs ==> r == ParsePhysicalSize(d.outputs[WmSizeCommand])
  {
    match Shell(d, WmSizeCommand)
    case None => ExecutionError
    case Some(output) => ParsePhysicalSize(output)
  }

  // ---------------------------------------------------------------------
  // Installed package path

  const PathPrefix: string := "pm path "

  /** The command getPackagePath issues: the package name after a fixed
      prefix, so the name can be read back from the command. */
  function PackagePathCommand(packageName: string): (cmd: string)
    ensures |cmd| == |PathPrefix| + |packageName|
    ensures cmd[..|PathPrefix|] == PathPrefix && cmd[|PathPrefix|..] == packageName
  {
    PathPrefix + packageName
  }

  /** The message of the RuntimeException both package probes throw on a
      reply they do not understand. */
  const IllegalFormat: string := "The illegal package path format: "

  /** The parsing half of getPackagePath. */
  function ParsePackagePath(output: string): (r: Probe<string>)
    ensures !r.ExecutionError?
    ensures r.Absent? <==> IsEmpty(output)
    ensures r.FormatError? <==> !IsEmpty(output) && ':' !in Trim(output)
    ensures r.FormatError? ==> r.message == IllegalFormat + Trim(output)
    ensures r.Value? ==> var t := Trim(output); var k := |t| - |r.value| - 1;
      && 0 <= k
      && t[k] == ':'
      && ':' !in t[..k]
      && t[k + 1..] == r.value
  {
    if IsEmpty(output) then Absent
    else
      var ret := Trim(output);
      var index := IndexOf(ret, ':');
      if index == -1 then FormatError(IllegalFormat + ret)
      else Value(ret[index + 1..])
  }

  /** Reading back what `pm path` prints: a scheme, a colon and a path, with
      any blank padding, yield exactly the path. */
  lemma PackagePathRoundTrip(lead: string, scheme: string, path: string, trail: string)
    requires ':' !in scheme
    requires AllBlank(lead) && AllBlank(trail)
    requires |scheme| > 0 ==> !IsBlank(scheme[0])
    requires |path| > 0 ==> !IsBlank(path[|path| - 1])
    ensures ParsePackagePath(lead + scheme + ":" + path + trail) == Value(path)
  {
    var core := scheme + [':'] + path;
    assert lead + scheme + ":" + path + trail == lead + core + trail;
    TrimPadded(lead, core, trail);
    IndexOfSplit(scheme, ':', path);
  }

  /** A reply whose trimmed text has no colon is rejected with that text in
      the message, whatever blank padding surrounds it. */
  lemma PackagePathWithoutColonRejected(lead: string, core: string, trail: string)
    requires AllBlank(lead) && AllBlank(trail)
    requires |core| > 0 && !IsBlank(core[0]) && !IsBlank(core[|core| - 1])
    requires ':' !in core
    ensures ParsePackagePath(lead + core + trail) == FormatError(IllegalFormat + core)
  {
    TrimPadded(lead, core, trail);
  }

  /** AdbUtil.getPackagePath */
  function GetPackagePath(packageName: string, d: Device): (r: Probe<string>)
    ensures r.ExecutionError? <==> PackagePathCommand(packageName) !in d.outputs
    ensures PackagePathCommand(packageName) in d.outputs ==>
      r == ParsePackagePath(d.outputs[PackagePathCommand(packageName)])
  {
    match Shell(d, PackagePathCommand(packageName))
    case None => ExecutionError
    case Some(output) => ParsePackagePath(output)
  }

  // ---------------------------------------------------------------------
  // Installed package version code

  const DumpsysPrefix: string := "dumpsys package "
  const GrepSuffix: string := "|grep versionCode"

  /** The command getPackageVersionCode issues: the package name between a
      fixed prefix and a fixed filter, so it can be read back. */
  function VersionCodeCommand(packageName: string): (cmd: string)
    ensures |cmd| == |DumpsysPrefix| + |packageName| + |GrepSuffix|
    ensures cmd[..|DumpsysPrefix|] == DumpsysPrefix
    ensures cmd[|DumpsysPrefix|..|DumpsysPrefix| + |packageName|] == packageName
    ensures cmd[|DumpsysPrefix| + |packageName|..] == GrepSuffix
  {
    var cmd := DumpsysPrefix + packageName + GrepSuffix;
    assert cmd[..|DumpsysPrefix|] == DumpsysPrefix;
    cmd
  }

  /** The scan after '=': the first index at or after `from` whose character
      is not a digit, or -1 when digits run to the end of `s`. */
  function DigitRunEnd(s: string, from: nat): (e: int)
    requires from <= |s|
    ensures e == -1 || from <= e < |s|
    ensures e == -1 <==> forall k :: from <= k < |s| ==> IsDigit(s[k])
    ensures e >= 0 ==> !IsDigit(s[e]) && forall k :: from <= k < e ==> IsDigit(s[k])
    decreases |s| - from
  {
    if from == |s| then -1
    else if !IsDigit(s[from]) then from
    else DigitRunEnd(s, from + 1)
  }

  /** Where the scan stops when digits from `from` are followed by a
      non-digit at `stop`. */
  lemma DigitRunEndAt(s: string, from: nat, stop: nat)
    requires from <= stop < |s| && !IsDigit(s[stop])
    requires forall k :: from <= k < stop ==> IsDigit(s[k])
    ensures DigitRunEnd(s, from) == stop
  {
  }

  /** The scan fails when digits run to the end of the text. */
  lemma DigitRunEndAtEnd(pre: string, digits: string)
    requires IsDigits(digits)
    ensures DigitRunEnd(pre + digits, |pre|) == -1
  {
    var s := pre + digits;
    assert forall k :: |pre| <= k < |s| ==> s[k] == digits[k - |pre|];
  }

  /** The parsing half of getPackageVersionCode: -1 for an absent package,
      otherwise a non-negative code or an error. */
  function ParseVersionCode(output: string): (r: Probe<int>)
    ensures r.Value? || r.FormatError?
    ensures r == Value(-1) <==> IsEmpty(output)
    ensures r.Value? && !IsEmpty(output) ==> 0 <= r.value <= MaxInt
    ensures r.FormatError? ==> r.message == IllegalFormat + Trim(output)
    ensures !IsEmpty(output) && '=' !in Trim(output) ==> r.FormatError?
    ensures !IsEmpty(output) ==>
      (r.Value? <==>
        var t := Trim(output); var i := IndexOf(t, '=');
        && 0 <= i
        && var e := DigitRunEnd(t, i + 1);
        i + 1 < e && IsDigits(t[i + 1..e]) && DigitsValue(t[i + 1..e]) <= MaxInt)
    ensures r.Value? && !IsEmpty(output) ==>
      var t := Trim(output); var i := IndexOf(t, '=');
      && 0 <= i
      && var e := DigitRunEnd(t, i + 1);
      i + 1 < e && IsDigits(t[i + 1..e]) && r.value == DigitsValue(t[i + 1..e])
  {
    if IsEmpty(output) then Value(-1)
    else ParseVersionLine(Trim(output))
  }

  /** The trimmed reply: the digits right after the first '=', which must be
      followed by a non-digit, read by getIntValue with fallback -1. */
  function ParseVersionLine(ret: string): (r: Probe<int>)
    ensures r.Value? || r.FormatError?
    ensures r.Value? ==> 0 <= r.value <= MaxInt
    ensures r.FormatError? ==> r.message == IllegalFormat + ret
    ensures '=' !in ret ==> r.FormatError?
    ensures r.Value? <==>
      var i := IndexOf(ret, '=');
      && 0 <= i
      && var e := DigitRunEnd(ret, i + 1);
      i + 1 < e && IsDigits(ret[i + 1..e]) && DigitsValue(ret[i + 1..e]) <= MaxInt
    ensures r.Value? ==>
      var i := IndexOf(ret, '=');
      && 0 <= i
      && var e := DigitRunEnd(ret, i + 1);
      i + 1 < e && IsDigits(ret[i + 1..e]) && r.value == DigitsValue(ret[i + 1..e])
  {
    var index := IndexOf(ret, '=');
    if index == -1 then FormatError(IllegalFormat + ret)
    else
      var endIndex := DigitRunEnd(ret, index + 1);
      if endIndex == -1 then FormatError(IllegalFormat + ret)
      else
        var code := GetIntValue(ret[index + 1..endIndex], -1);
        if code == -1 then FormatError(IllegalFormat + ret) else Value(code)
  }

  /** A trimmed `<key>=<n><sep><rest>` line, with a non-digit separator,
      reads back as n. */
  lemma VersionLineRoundTrip(key: string, n: nat, sep: char, rest: string)
    requires '=' !in key
    requires !IsDigit(sep)
    requires n <= MaxInt
    ensures ParseVersionLine(key + "=" + NatToString(n) + [sep] + rest) == Value(n)
  {
    var digits := NatToString(n);
    var line := key + "=" + digits + [sep] + rest;
    var from := |key| + 1;
    var stop := from + |digits|;
    assert line[..|key|] == key;
    assert line[|key|] == '=';
    IndexOfAt(line, '=', |key|);
    assert line[stop] == sep;
    assert forall k :: from <= k < stop ==> line[k] == digits[k - from];
    DigitRunEndAt(line, from, stop);
    assert line[from..stop] == digits;
    ParseIntToString(n);
  }

  /** Reading back a `versionCode=<n>` line: the digits must be followed by a
      non-digit inside the trimmed text, and then they yield exactly n. */
  lemma VersionCodeRoundTrip(lead: string, key: string, n: nat, sep: char, rest: string, trail: string)
    requires '=' !in key
    requires AllBlank(lead) && AllBlank(trail)
    requires |key| > 0 ==> !IsBlank(key[0])
    requires !IsDigit(sep)
    requires if |rest| > 0 then !IsBlank(rest[|rest| - 1]) else !IsBlank(sep)
    requires n <= MaxInt
    ensures ParseVersionCode(lead + (key + "=" + NatToString(n) + [sep] + rest) + trail) == Value(n)
  {
    var line := key + "=" + NatToString(n) + [sep] + rest;
    assert line[0] == if |key| > 0 then key[0] else '=';
    assert line[|line| - 1] == if |rest| > 0 then rest[|rest| - 1] else sep;
    TrimPadded(lead, line, trail);
    VersionLineRoundTrip(key, n, sep, rest);
  }

  /** The scan only succeeds on a non-digit after the run: a reply whose
      trimmed text ends in the digit run, even an empty one, is a format
      error. */
  lemma VersionCodeAtEndRejected(lead: string, key: string, digits: string, trail: string)
    requires '=' !in key
    requires AllBlank(lead) && AllBlank(trail)
    requires |key| > 0 ==> !IsBlank(key[0])
    requires IsDigits(digits)
    ensures ParseVersionCode(lead + key + "=" + digits + trail).FormatError?
  {
    var core := key + ['='] + digits;
    assert lead + key + "=" + digits + trail == lead + core + trail;
    assert core[|core| - 1] == if |digits| > 0 then digits[|digits| - 1] else '=';
    TrimPadded(lead, core, trail);
    IndexOfSplit(key, '=', digits);
    DigitRunEndAtEnd(key + ['='], digits);
  }

  /** An empty digit run is a format error too. */
  lemma VersionLineEmptyRunRejected(key: string, tail: string)
    requires '=' !in key
    requires |tail| > 0 && !IsDigit(tail[0])
    ensures ParseVersionLine(key + "=" + tail).FormatError?
  {
    var line := key + "=" + tail;
    assert line[..|key|] == key;
    assert line[|key|] == '=';
    IndexOfAt(line, '=', |key|);
    assert line[|key| + 1] == tail[0];
    DigitRunEndAt(line, |key| + 1, |key| + 1);
  }

  /** AdbUtil.getPackageVersionCode */
  function GetPackageVersionCode(packageName: string, d: Device): (r: Probe<int>)
    ensures r.ExecutionError? <==> VersionCodeCommand(packageName) !in d.outputs
    ensures VersionCodeCommand(packageName) in d.outputs ==>
      r == ParseVersionCode(d.outputs[VersionCodeCommand(packageName)])
  {
    match Shell(d, VersionCodeCommand(packageName))
    case None => ExecutionError
    case Some(output) => ParseVersionCode(output)
  }

  // ---------------------------------------------------------------------
  // Process kill

  const KillPrefix: string := "kill -9 "

  /** The command killProcess issues: none for a negative pid. */
  function KillCommand(pid: Int32): (r: Option<string>)
    ensures r.None? <==> pid < 0
    ensures r.Some? ==> |KillPrefix| < |r.value| && r.value[..|KillPrefix|] == KillPrefix
    ensures r.Some? ==> ParseInt(r.value[|KillPrefix|..]) == Some(pid as int)
    ensures r.Some? ==> var t := r.value[|KillPrefix|..];
      IsDigits(t) && DigitsValue(t) == pid as int && (|t| > 1 ==> t[0] != '0')
  {
    if pid < 0 then None
    else
      var cmd := KillPrefix + IntToString(pid);
      ParseIntToString(pid);
      assert cmd[|KillPrefix|..] == IntToString(pid);
      Some(cmd)
  }

  /** AdbUtil.killProcess: its only observable outcome is whether the channel
      threw. */
  function KillProcess(pid: Int32, d: Device): (r: Probe<()>)
    ensures r == Value(()) || r == ExecutionError
    ensures r == ExecutionError <==> KillCommand(pid).Some? && KillCommand(pid).value !in d.outputs
  {
    match KillCommand(pid)
    case None => Value(())
    case Some(cmd) => if Shell(d, cmd).None? then ExecutionError else Value(())
  }

  // ---------------------------------------------------------------------
  // Wireless classification

  const WirelessSuffix: string := ":5555"

  /** AdbUtil.isWirelessDevice: wireless exactly when the serial is present
      and is some host followed by the adb-over-TCP port suffix. */
  function IsWirelessDevice(d: Device): (b: bool)
    ensures b <==> exists host: string :: d.serialNumber == Some(host + WirelessSuffix)
  {
    d.serialNumber.Some? && EndsWith(d.serialNumber.value, WirelessSuffix)
  }

  // ---------------------------------------------------------------------
  // Device IP address

  const IfconfigCommand: string := "ifconfig wlan0"

  /** The parsing half of getDeviceIp: group 1 of the first match of
      `inet addr:(.*?) `, and absence when there is none. */
  function ParseDeviceIp(output: string): (r: Probe<string>)
    ensures r.Value? || r.Absent?
    ensures IsEmpty(output) ==> r.Absent?
    ensures !IsEmpty(output) ==> (r.Absent? <==> forall p: nat, e: nat :: !IpPattern.MatchAt(output, p, e))
    ensures r.Value? ==> ' ' !in r.value
    ensures r.Value? ==> forall k :: 0 <= k < |r.value| ==> !IpPattern.IsLineTerminator(r.value[k])
    ensures r.Value? ==> exists p: nat, e: nat ::
      && IpPattern.MatchAt(output, p, e)
      && (forall q: nat, e': nat :: q < p ==> !IpPattern.MatchAt(output, q, e'))
      && (forall e': nat :: e' < e ==> !IpPattern.MatchAt(output, p, e'))
      && r.value == output[p + |IpPattern.Marker|..e]
  {
    if IsEmpty(output) then Absent
    else
      match IpPattern.Find(output)
      case Some(m) => Value(IpPattern.Group(output, m))
      case None => Absent
  }

  /** AdbUtil.getDeviceIp */
  function GetDeviceIp(d: Device): (r: Probe<string>)
    ensures r.ExecutionError? <==> IfconfigCommand !in d.outputs
    ensures IfconfigCommand in d.outputs ==> r == ParseDeviceIp(d.outputs[IfconfigCommand])
  {
    match Shell(d, IfconfigCommand)
    case None => ExecutionError
    case Some(output) => ParseDeviceIp(output)
  }

  /** Reading back an `ifconfig` reply: the address after the first marker,
      up to the next space, is what the probe returns. */
  /** The group cannot run past the end of a line: a marker whose line
      holds no space is passed over, and the address after the next marker
      is reported. */
  lemma DeviceIpSkipsBrokenLine(line: string, t: char, ip: string, after: string)
    requires ' ' !in line && IpPattern.Marker[0] !in line
    requires IpPattern.IsLineTerminator(t)
    requires ' ' !in ip
    requires forall k :: 0 <= k < |ip| ==> !IpPattern.IsLineTerminator(ip[k])
    ensures ParseDeviceIp(IpPattern.Marker + line + [t] + IpPattern.Marker + ip + " " + after) == Value(ip)
  {
    var before := IpPattern.Marker + line + [t];
    var s := before + IpPattern.Marker + ip + " " + after;
    var p := |before|;
    var e := p + |IpPattern.Marker| + |ip|;
    assert s == IpPattern.Marker + line + [t] + (IpPattern.Marker + ip + " " + after);
    IpPattern.NoMatchOnBrokenLine(line, t, IpPattern.Marker + ip + " " + after);
    assert s[p..p + |IpPattern.Marker|] == IpPattern.Marker;
    assert s[p + |IpPattern.Marker|..e] == ip;
    assert IpPattern.MatchAt(s, p, e);
    IpPattern.FindLeftmostMatch(s, p, e);
  }

  lemma DeviceIpRoundTrip(before: string, ip: string, after: string)
    requires forall q: nat :: q < |before| ==> !IpPattern.MarkerAt(before + IpPattern.Marker, q)
    requires ' ' !in ip
    requires forall k :: 0 <= k < |ip| ==> !IpPattern.IsLineTerminator(ip[k])
    ensures ParseDeviceIp(before + IpPattern.Marker + ip + " " + after) == Value(ip)
  {
    var s := before + IpPattern.Marker + ip + " " + after;
    var from := |before| + |IpPattern.Marker|;
    IpPattern.FindFirstMarker(before, ip, after);
    var m := IpPattern.Match(|before|, from + |ip|);
    assert IpPattern.Find(s) == Some(m);
    assert s[from..from + |ip|] == ip;
    assert IpPattern.Group(s, m) == ip;
  }
}
