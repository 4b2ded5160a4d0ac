/** Concrete replies and what each probe makes of them. */
module ProbeExamples {
  import opened Results
  import opened JavaText
  import opened JavaInt
  import opened Channel
  import opened AdbUtil
  import IpPattern

  lemma ReleaseSevenPointOne()
    ensures MajorVersion("7.1.2") == Some(7)
    ensures PsCommandFor(Some("7.1.2")) == "ps"
  {
    assert NatToString(7) == "7";
    MajorVersionOfDottedRelease(7, "1.2");
    assert "7" + "." + "1.2" == "7.1.2";
  }

  lemma ReleaseSeven()
    ensures MajorVersion("7") == Some(7)
    ensures PsCommandFor(Some("7")) == "ps"
  {
    assert NatToString(7) == "7";
    MajorVersionOfBareRelease(7);
  }

  lemma ReleaseEight()
    ensures MajorVersion("8") == Some(8)
    ensures PsCommandFor(Some("8")) == "ps -A"
  {
    assert NatToString(8) == "8";
    MajorVersionOfBareRelease(8);
  }

  lemma ReleaseTen()
    ensures MajorVersion("10.0") == Some(10)
    ensures PsCommandFor(Some("10.0")) == "ps -A"
  {
    assert NatToString(10) == "10";
    MajorVersionOfDottedRelease(10, "0");
    assert "10" + "." + "0" == "10.0";
  }

  lemma ReleaseUnreadable()
    ensures PsCommandFor(Some("Q")) == "ps"
    ensures PsCommandFor(None) == "ps"
  {
    TrimPadded("", "Q", "");
    assert "" + "Q" + "" == "Q";
  }

  lemma PhysicalSizeExample()
    ensures ParsePhysicalSize("Physical size: 720x1280") == Value(Dimension(720, 1280))
  {
    var out := "Physical size: 720x1280";
    assert NatToString(720) == "720";
    assert NatToString(1280) == "1280";
    assert "Physical size" + ":" + (" " + ("720" + "x" + "1280") + "") == out;
    PhysicalSizeRoundTrip("Physical size", " ", 720, 1280, "");
  }

  lemma PhysicalSizeWithoutX()
    ensures ParsePhysicalSize("size" + ":" + " 720") == Absent
  {
    PhysicalSizeWithoutPair("size", " ", "720", "");
    assert " " + "720" + "" == " 720";
  }

  lemma PhysicalSizeWithoutColon()
    ensures ParsePhysicalSize("bogus") == Absent
  {
  }

  lemma NegativePair()
    ensures ParseSizePair("-5x10") == Value(Dimension(-5, 10))
  {
    var pair := "-5x10";
    assert "-5" + ['x'] + "10" == pair;
    IndexOfSplit("-5", 'x', "10");
    ParseIntToString(-5);
    assert IntToString(-5) == "-5";
    ParseIntToString(10);
    assert IntToString(10) == "10";
  }

  /** getIntValue's fallback is only -1, so a negative width other than -1
      is returned as it is. */
  lemma NegativeWidthAdmitted()
    ensures ParsePhysicalSize("size: -5x10") == Value(Dimension(-5, 10))
  {
    var out := "size: -5x10";
    assert "size" + [':'] + " -5x10" == out;
    IndexOfSplit("size", ':', " -5x10");
    TrimPadded(" ", "-5x10", "");
    assert " " + "-5x10" + "" == " -5x10";
    NegativePair();
  }

  lemma PackagePathEmpty()
    ensures ParsePackagePath("") == Absent
  {
  }

  lemma PackagePathExample()
    ensures ParsePackagePath("package:/data/app/foo.apk") == Value("/data/app/foo.apk")
  {
    var out := "package:/data/app/foo.apk";
    assert "" + "package" + ":" + "/data/app/foo.apk" + "" == out;
    PackagePathRoundTrip("", "package", "/data/app/foo.apk", "");
  }

  lemma PackagePathWithoutColon()
    ensures ParsePackagePath("bogus") == FormatError(IllegalFormat + "bogus")
  {
    var out := "bogus";
    assert out[0] == 'b' && out[|out| - 1] == 's';
    assert forall k :: 0 <= k < |out| ==> out[k] != ':';
    PackagePathWithoutColonRejected("", out, "");
    assert "" + out + "" == out;
  }

  lemma VersionCodeEmpty()
    ensures ParseVersionCode("") == Value(-1)
  {
  }

  lemma VersionCodeExample()
    ensures ParseVersionCode("versionCode=42 minSdk=1") == Value(42)
  {
    var out := "versionCode=42 minSdk=1";
    assert NatToString(42) == "42";
    assert "" + ("versionCode" + "=" + "42" + [' '] + "minSdk=1") + "" == out;
    VersionCodeRoundTrip("", "versionCode", 42, ' ', "minSdk=1", "");
  }

  lemma VersionCodeAtEnd()
    ensures ParseVersionCode("versionCode=42").FormatError?
  {
    var out := "versionCode=42";
    assert "" + "versionCode" + "=" + "42" + "" == out;
    VersionCodeAtEndRejected("", "versionCode", "42", "");
  }

  lemma VersionCodeNoDigits()
    ensures ParseVersionCode("versionCode=").FormatError?
  {
    var out := "versionCode=";
    assert "" + "versionCode" + "=" + "" + "" == out;
    VersionCodeAtEndRejected("", "versionCode", "", "");
  }

  lemma VersionCodeNotADigit()
    ensures ParseVersionCode("versionCode=x").FormatError?
  {
    TrimPadded("", "versionCode=x", "");
    assert "" + "versionCode=x" + "" == "versionCode=x";
    VersionLineEmptyRunRejected("versionCode", "x");
    assert "versionCode" + "=" + "x" == "versionCode=x";
  }

  lemma WirelessExamples()
    ensures IsWirelessDevice(Device(map[], LiveNull, Some("192.168.1.5:5555"), map[]))
    ensures !IsWirelessDevice(Device(map[], LiveNull, Some("ABCD1234"), map[]))
    ensures !IsWirelessDevice(Device(map[], LiveNull, None, map[]))
  {
    assert "192.168.1.5:5555"[11..] == ":5555";
    assert "ABCD1234"[|"ABCD1234"| - 5..] != ":5555";
  }

  lemma DeviceIpExample()
    ensures ParseDeviceIp("wlan0 inet addr:192.168.1.5 Bcast") == Value("192.168.1.5")
  {
    var out := "wlan0 inet addr:192.168.1.5 Bcast";
    var upToMarker := "wlan0 " + IpPattern.Marker;
    assert upToMarker == "wlan0 inet addr:";
    var upToIp := upToMarker + "192.168.1.5";
    assert upToIp == "wlan0 inet addr:192.168.1.5";
    assert upToIp + " " + "Bcast" == out;
    assert IpPattern.Marker[0] == 'i';
    IpPattern.NoMarkerInside("wlan0 ");
    DeviceIpRoundTrip("wlan0 ", "192.168.1.5", "Bcast");
  }

  lemma DeviceIpBrokenLineExample()
    ensures ParseDeviceIp("inet addr:\ninet addr:1.2 x") == Value("1.2")
  {
    var s := IpPattern.Marker + "" + ['\n'] + IpPattern.Marker + "1.2" + " " + "x";
    assert IpPattern.Marker + "" == "inet addr:";
    assert IpPattern.Marker + "" + ['\n'] == "inet addr:\n";
    assert IpPattern.Marker + "" + ['\n'] + IpPattern.Marker == "inet addr:\ninet addr:";
    assert s == "inet addr:\ninet addr:1.2 x";
    DeviceIpSkipsBrokenLine("", '\n', "1.2", "x");
  }

  lemma DeviceIpWithoutMarker()
    ensures ParseDeviceIp("wlan0 down") == Absent
  {
  }

  /** Java's parseInt admits a leading zero, an explicit plus and a
      negative zero. */
  lemma ParseIntExamples()
    ensures ParseInt("08") == Some(8)
    ensures ParseInt("+8") == Some(8)
    ensures ParseInt("-0") == Some(0)
    ensures ParseInt("-") == None
  {
    assert "08"[..1] == "0";
    assert DigitsValue("08") == 8;
  }

  lemma DeviceIdExamples()
    ensures GetDeviceId(None) == Absent
    ensures GetDeviceId(Some(Device(map[], LiveFailure, Some("ABCD1234"), map[]))) == ExecutionError
    ensures GetDeviceId(Some(Device(map[], LiveNull, Some("ABCD1234"), map[]))) == Value("ABCD1234")
    ensures GetDeviceId(Some(Device(map[SerialKey := "S1"], LiveFailure, Some("ABCD1234"), map[])))
      == Value("S1")
  {
  }

  lemma KillCommandExamples()
    ensures KillCommand(1234) == Some("kill -9 1234")
    ensures KillCommand(-1) == None
  {
    assert NatToString(1234) == "1234";
    assert IntToString(1234) == "1234";
    assert KillPrefix + "1234" == "kill -9 1234";
  }
}
