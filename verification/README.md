# AdbUtil probes in Dafny

This project models the device probes of `AdbUtil`, the helper class the
screen-projection server uses to talk to an Android device over adb. Each
probe sends one fixed shell command, or reads device properties, and then
interprets the textual reply:

- the device identifier: a fallback chain over two cached properties, a live
  property query and the hardware serial;
- the `ps` variant: `ps -A` from Android 8 on, `ps` before that;
- the physical screen size, parsed from `wm size`;
- the installed path of a package, parsed from `pm path`;
- the version code of a package, parsed from `dumpsys package … |grep versionCode`;
- the `kill -9` command for a process;
- the wireless classification, based on the `:5555` serial suffix;
- the Wi-Fi address, extracted from `ifconfig wlan0` with the pattern `inet addr:(.*?) `.

The device is an immutable record (`Channel.Device`) with these parts:

- the cached property table;
- the outcome of the live `ro.serialno` query;
- the nullable hardware serial;
- a map from shell command to captured output.

A command that is missing from that map is one whose execution threw.

Every probe is a total function that returns a `Results.Probe`. The four
outcomes are:

- `Value`;
- `Absent`, where the Java returns null;
- `FormatError(message)`, where it throws a `RuntimeException` over an unreadable reply;
- `ExecutionError`, where the shell or the live query throws.

`getPackageVersionCode` returns the int -1 for an absent package, and the
model keeps that as `Value(-1)`.

The four probes that run a shell command and read its reply
(`GetPhysicalSize`, `GetPackagePath`, `GetPackageVersionCode`, `GetDeviceIp`)
are each split into a command part and a parsing part (`ParsePhysicalSize`,
`ParsePackagePath`, `ParseVersionCode`, `ParseDeviceIp`). The other probes
have no reply to parse, so they are single functions:

- `GetDeviceId` reads properties;
- `GetPsCommand` reads a property;
- `IsWirelessDevice` reads the serial;
- `KillProcess` only issues `KillCommand`.

The Java library behaviour the probes rely on is modelled explicitly:

- `String.trim` (`JavaText.Trim`) strips characters up to U+0020.
- `String.indexOf` (`JavaText.IndexOf`) finds the first occurrence, or returns -1.
- `Integer.parseInt` (`JavaInt.ParseInt`) accepts an optional sign, then ASCII
  digits, and requires the 32-bit range. Overflow is a parse failure, just as
  `NumberFormatException` is.
- `Integer.toString` is `JavaInt.IntToString`.
- `Matcher.find`/`group(1)` for the one pattern involved is in `IpPattern`.
  The match is leftmost, the group is reluctant, and `.` excludes the five
  Java line terminators.

`StringUtil.isEmpty` and `StringUtil.getIntValue` are not part of this model.
Their assumed behaviour is stated in `StringUtil`:

- `isEmpty` means length 0. Captured output is never null.
- `getIntValue(s, d)` is `Integer.parseInt(s)`, or `d` where that throws.

Two behaviours of the code are easy to overlook, and the model keeps both:

- `getPhysicalSize` rejects a side only when it reads as -1, the fallback of
  `getIntValue`. So `size: -5x10` yields (-5, 10). See
  `ProbeExamples.NegativeWidthAdmitted`.
- In `getPackageVersionCode`, the digit scan needs a non-digit after the
  digits inside the trimmed reply. So `versionCode=42` on its own is a format
  error. See `AdbUtil.VersionCodeAtEndRejected`.

All paths below are relative to the repository root. `AdbUtil.java` stands for
`main/src/main/java/com/cxplan/projection/core/adb/AdbUtil.java`.

## Model

| member | source | states |
|---|---|---|
| AdbUtil.FirstNonNull | main/src/main/java/com/cxplan/projection/core/adb/AdbUtil.java:28-39 | the fallback chain never gives a format error; the result is absent exactly when every source is null; a value or an error comes from the first source that is not null, and every earlier source is null |
| AdbUtil.GetDeviceId | main/src/main/java/com/cxplan/projection/core/adb/AdbUtil.java:23-40 | a null device gives absence; no format error is ever produced |
| AdbUtil.DeviceIdFollowsChain | main/src/main/java/com/cxplan/projection/core/adb/AdbUtil.java:23-40 | for a present device, the nested null checks behave like the first-non-null policy over imei, cached serial, live serial and hardware serial, in that order |
| AdbUtil.DeviceIdLiveFailureSurfaces | main/src/main/java/com/cxplan/projection/core/adb/AdbUtil.java:31-36 | when both cached properties are null and the live query fails, the result is an execution error and the hardware serial is not used |
| AdbUtil.FirstNonNullIgnoresLater | main/src/main/java/com/cxplan/projection/core/adb/AdbUtil.java:28-39 | chains that agree up to and including their first non-null source give the same result, whatever follows |
| AdbUtil.DeviceIdIgnoresLaterSources | main/src/main/java/com/cxplan/projection/core/adb/AdbUtil.java:28-39 | once a source gives something other than null, later sources are not consulted: devices that agree up to that source get the same identifier |
| AdbUtil.MajorVersion | main/src/main/java/com/cxplan/projection/core/adb/AdbUtil.java:53-64 | the major version, when it parses, is a 32-bit int; when the trimmed text before the first '.' is a run of ASCII digits whose value fits in an int, the major version is that value |
| AdbUtil.MajorPart | main/src/main/java/com/cxplan/projection/core/adb/AdbUtil.java:56-61 | the major part is the prefix before the first '.', or the whole text when there is no '.'; it contains no '.', and the character after it is '.' |
| AdbUtil.MajorVersionOfBareRelease | main/src/main/java/com/cxplan/projection/core/adb/AdbUtil.java:53-64 | a release written as the decimal numeral of n has major version n |
| AdbUtil.MajorVersionOfDottedRelease | main/src/main/java/com/cxplan/projection/core/adb/AdbUtil.java:53-64 | a release written as `<n>.<anything>` has major version n |
| AdbUtil.PsCommandFor | main/src/main/java/com/cxplan/projection/core/adb/AdbUtil.java:49-74 | the command is always `ps` or `ps -A`, and it is `ps -A` exactly when the release is present, its major version parses, and that version is at least 8 |
| AdbUtil.GetPsCommand | main/src/main/java/com/cxplan/projection/core/adb/AdbUtil.java:48-75 | `ps -A` exactly when the device's release property is present and its major version is at least 8; `ps` in every other case |
| AdbUtil.PsCommandByMajorVersion | main/src/main/java/com/cxplan/projection/core/adb/AdbUtil.java:48-75 | for the releases `<n>` and `<n>.<rest>`, the `-A` flag appears exactly when n >= 8 |
| AdbUtil.ParsePhysicalSize | main/src/main/java/com/cxplan/projection/core/adb/AdbUtil.java:81-104 | a malformed reply is always absence and never an error; an empty reply, or one without ':', is absent; a returned size has int-ranged sides, neither of which is -1 |
| AdbUtil.ParseSizePair | main/src/main/java/com/cxplan/projection/core/adb/AdbUtil.java:91-104 | without 'x' the result is absent; a returned width and height are exactly what parseInt reads before and after the first 'x'; when both sides parse to values other than -1, a size is returned |
| AdbUtil.SizePairRoundTrip | main/src/main/java/com/cxplan/projection/core/adb/AdbUtil.java:91-104 | the decimal text `<w>x<h>` reads back as (w, h) for every int-ranged w, h >= 0 |
| AdbUtil.PhysicalSizeAfterColon | main/src/main/java/com/cxplan/projection/core/adb/AdbUtil.java:85-90 | when the heading has no colon, only the trimmed text after the first colon decides the size |
| AdbUtil.PhysicalSizeRoundTrip | main/src/main/java/com/cxplan/projection/core/adb/AdbUtil.java:77-105 | `<heading>:<blanks><w>x<h><blanks>` reads back as exactly (w, h) |
| AdbUtil.PhysicalSizeWithoutPair | main/src/main/java/com/cxplan/projection/core/adb/AdbUtil.java:90-95 | when the trimmed text after the first colon has no 'x', the reply is absent, whatever blank padding surrounds it |
| AdbUtil.GetPhysicalSize | main/src/main/java/com/cxplan/projection/core/adb/AdbUtil.java:78-80 | the probe fails with an execution error exactly when `wm size` cannot be executed; otherwise it is the parse of that command's output |
| AdbUtil.ParsePackagePath | main/src/main/java/com/cxplan/projection/core/adb/AdbUtil.java:116-125 | absent exactly for empty output; a format error exactly when the trimmed output has no ':', with the illegal-format message and the trimmed text; otherwise the suffix of the trimmed output after its first ':' |
| AdbUtil.PackagePathRoundTrip | main/src/main/java/com/cxplan/projection/core/adb/AdbUtil.java:113-126 | `<blanks><scheme>:<path><blanks>` yields exactly the path, as in `package:/data/app/foo.apk` |
| AdbUtil.PackagePathWithoutColonRejected | main/src/main/java/com/cxplan/projection/core/adb/AdbUtil.java:119-123 | a reply whose trimmed text has no ':' is a format error whose message is the illegal-format text followed by exactly that trimmed text |
| AdbUtil.PackagePathCommand | main/src/main/java/com/cxplan/projection/core/adb/AdbUtil.java:114 | the command is the fixed `pm path ` prefix followed by exactly the package name, so the name can be read back and distinct packages get distinct commands |
| AdbUtil.GetPackagePath | main/src/main/java/com/cxplan/projection/core/adb/AdbUtil.java:113-115 | issues `pm path <name>`; an execution error exactly when that command cannot be executed; otherwise the parse of its output |
| AdbUtil.DigitRunEnd | main/src/main/java/com/cxplan/projection/core/adb/AdbUtil.java:148-155 | -1 exactly when only digits follow the start; otherwise the first non-digit at or after the start |
| AdbUtil.DigitRunEndAt | main/src/main/java/com/cxplan/projection/core/adb/AdbUtil.java:148-155 | the scan stops at the first non-digit after a run of digits |
| AdbUtil.DigitRunEndAtEnd | main/src/main/java/com/cxplan/projection/core/adb/AdbUtil.java:148-158 | digits that run to the end of the text leave the scan without an end index |
| AdbUtil.ParseVersionCode | main/src/main/java/com/cxplan/projection/core/adb/AdbUtil.java:139-166 | never absent and never an execution error; the value -1 exactly for empty output; every error carries the illegal-format message and the trimmed output; no '=' means an error; for non-empty output, the result is a value exactly when, in the trimmed text, a non-empty digit run after the first '=' is ended by a non-digit and fits an int, and that value is the decimal value of the run |
| AdbUtil.ParseVersionLine | main/src/main/java/com/cxplan/projection/core/adb/AdbUtil.java:143-166 | a value exactly when a non-empty digit run after the first '=' is ended by a non-digit and fits an int; the value is the decimal value of that run, leading zeros included, so it lies in [0, 2^31-1]; every other line is an error with the illegal-format message |
| AdbUtil.VersionLineRoundTrip | main/src/main/java/com/cxplan/projection/core/adb/AdbUtil.java:143-166 | `<key>=<n><non-digit><rest>` reads back as exactly n |
| AdbUtil.VersionCodeRoundTrip | main/src/main/java/com/cxplan/projection/core/adb/AdbUtil.java:136-167 | with blank padding around it, a `<key>=<n><non-digit><rest>` reply reads back as exactly n, as in `versionCode=42 minSdk=1` |
| AdbUtil.VersionCodeAtEndRejected | main/src/main/java/com/cxplan/projection/core/adb/AdbUtil.java:148-158 | a trimmed reply that ends in its digit run, including an empty run, is a format error, as in `versionCode=42` |
| AdbUtil.VersionLineEmptyRunRejected | main/src/main/java/com/cxplan/projection/core/adb/AdbUtil.java:161-165 | a non-digit right after the '=' leaves an empty run, which getIntValue turns into -1 and hence a format error |
| AdbUtil.VersionCodeCommand | main/src/main/java/com/cxplan/projection/core/adb/AdbUtil.java:137 | the command is `dumpsys package `, then exactly the package name, then `\|grep versionCode`, so the name can be read back from the command |
| AdbUtil.GetPackageVersionCode | main/src/main/java/com/cxplan/projection/core/adb/AdbUtil.java:136-138 | issues `dumpsys package <name>\|grep versionCode`; an execution error exactly when that command cannot be executed; otherwise the parse of its output |
| AdbUtil.KillCommand | main/src/main/java/com/cxplan/projection/core/adb/AdbUtil.java:223-227 | no command for a negative pid; otherwise the command is `kill -9 ` followed by the canonical decimal numeral of the pid: digits only, no leading zero, with the pid as value, which parseInt reads back as the pid |
| AdbUtil.KillProcess | main/src/main/java/com/cxplan/projection/core/adb/AdbUtil.java:223-229 | the only failure is an execution error, which happens exactly when a command is issued and cannot be executed; a negative pid never fails |
| AdbUtil.IsWirelessDevice | main/src/main/java/com/cxplan/projection/core/adb/AdbUtil.java:251-258 | a device is wireless exactly when its serial is present and is some host followed by `:5555` |
| AdbUtil.ParseDeviceIp | main/src/main/java/com/cxplan/projection/core/adb/AdbUtil.java:270-280 | absent for empty output; for other output, absent exactly when the pattern matches nowhere; a returned address is the text between the marker and the closing space of the match that starts leftmost and, from there, has the shortest group; it has no space and no line terminator |
| AdbUtil.GetDeviceIp | main/src/main/java/com/cxplan/projection/core/adb/AdbUtil.java:267-269 | an execution error exactly when `ifconfig wlan0` cannot be executed; otherwise the parse of its output |
| AdbUtil.DeviceIpSkipsBrokenLine | main/src/main/java/com/cxplan/projection/core/adb/AdbUtil.java:260-276 | the group cannot cross a line end: a marker whose line holds no space and no 'i' before the line terminator is passed over, and the address after the next marker is returned |
| AdbUtil.DeviceIpRoundTrip | main/src/main/java/com/cxplan/projection/core/adb/AdbUtil.java:260-281 | after text in which `inet addr:` does not occur, the marker, an address free of spaces and line terminators, and a space yield exactly that address |
| IpPattern.MatchedText | main/src/main/java/com/cxplan/projection/core/adb/AdbUtil.java:260 | a match of `inet addr:(.*?) ` from p with group 1 ending at e covers exactly the marker, the group and one closing space |
| IpPattern.LazyEnd | main/src/main/java/com/cxplan/projection/core/adb/AdbUtil.java:260 | the reluctant group can only stop at the first space or line terminator after the marker |
| IpPattern.NoMatchWhenGroupBlocked | main/src/main/java/com/cxplan/projection/core/adb/AdbUtil.java:260 | if a line terminator or the end of text comes before any space, there is no match from that position |
| IpPattern.LazyMatch | main/src/main/java/com/cxplan/projection/core/adb/AdbUtil.java:260 | if a space comes first, the match from that position ends there, and no shorter match exists |
| IpPattern.FindFrom | main/src/main/java/com/cxplan/projection/core/adb/AdbUtil.java:274-275 | nothing is found only when no match starts at or after the position; otherwise the found match is a match, no match starts earlier, and its group is the shortest |
| IpPattern.Find | main/src/main/java/com/cxplan/projection/core/adb/AdbUtil.java:274-275 | find() fails exactly when the pattern matches nowhere; otherwise the match is leftmost and has the shortest group |
| IpPattern.ShortestGroupHasNoSpace | main/src/main/java/com/cxplan/projection/core/adb/AdbUtil.java:260 | the shortest group of a match contains no space |
| IpPattern.Group | main/src/main/java/com/cxplan/projection/core/adb/AdbUtil.java:276 | group(1) of the found match is the text between the marker and the closing space: the matched text is the marker, the group and that space; it contains no space and no line terminator |
| IpPattern.FindLeftmostMatch | main/src/main/java/com/cxplan/projection/core/adb/AdbUtil.java:274-275 | a match that starts before every other and whose group holds no space is exactly the match find() reports |
| IpPattern.NoMatchOnBrokenLine | main/src/main/java/com/cxplan/projection/core/adb/AdbUtil.java:260 | after a marker whose line ends before any space or 'i', no match starts at the marker or anywhere up to that line end |
| IpPattern.NoMarkerInside | main/src/main/java/com/cxplan/projection/core/adb/AdbUtil.java:260 | a prefix without the letter 'i' cannot hold the start of `inet addr:` |
| IpPattern.FindFirstMarker | main/src/main/java/com/cxplan/projection/core/adb/AdbUtil.java:260-276 | the first `inet addr:` followed by a space-free address and a space is the match find() reports, and group 1 ends at that space |
| JavaText.IndexOfFrom | main/src/main/java/com/cxplan/projection/core/adb/AdbUtil.java:56 | the first occurrence at or after the start, or -1 exactly when there is none |
| JavaText.IndexOf | main/src/main/java/com/cxplan/projection/core/adb/AdbUtil.java:56 | -1 exactly when the character is absent; otherwise the index of its first occurrence |
| JavaText.IndexOfAt | main/src/main/java/com/cxplan/projection/core/adb/AdbUtil.java:85 | indexOf reports i whenever i is the first occurrence |
| JavaText.IndexOfSplit | main/src/main/java/com/cxplan/projection/core/adb/AdbUtil.java:120-125 | in `a + c + b` with no c in a, indexOf finds the c right after a, and slicing around it gives back a and b |
| JavaText.SkipLeading | main/src/main/java/com/cxplan/projection/core/adb/AdbUtil.java:53 | everything skipped is blank, and the character where the skip stops is not |
| JavaText.SkipTrailing | main/src/main/java/com/cxplan/projection/core/adb/AdbUtil.java:53 | everything dropped from the end is blank, and the last character kept is not |
| JavaText.Trim | main/src/main/java/com/cxplan/projection/core/adb/AdbUtil.java:53 | the result is a slice of the input with non-blank ends, and only blank characters were removed on either side |
| JavaText.EndsWith | main/src/main/java/com/cxplan/projection/core/adb/AdbUtil.java:253 | a text ends with a suffix exactly when it is some text followed by that suffix |
| JavaText.TrimPadded | main/src/main/java/com/cxplan/projection/core/adb/AdbUtil.java:119 | trimming blank padding off a text with non-blank ends gives back exactly that text |
| JavaText.TrimKeepsPrefix | main/src/main/java/com/cxplan/projection/core/adb/AdbUtil.java:53 | when the text starts non-blank, trim keeps every character up to any later non-blank one |
| JavaInt.ParseInt | main/src/main/java/com/cxplan/projection/core/adb/AdbUtil.java:64 | the text parses exactly when, after one optional '+' or '-', it is a non-empty run of ASCII digits whose signed value is a 32-bit int; the result is that signed value (so `08`, `+8` and `-0` parse) |
| JavaInt.NatToString | main/src/main/java/com/cxplan/projection/core/adb/AdbUtil.java:227 | a non-empty run of digits with no leading zero whose value is n |
| JavaInt.IntToString | main/src/main/java/com/cxplan/projection/core/adb/AdbUtil.java:227 | the decimal rendering of an int: a leading '-' exactly for negatives, then a non-empty digit run with no leading zero whose value is the magnitude |
| JavaInt.ParseIntToString | main/src/main/java/com/cxplan/projection/core/adb/AdbUtil.java:227 | parseInt reads back every int that toString writes |
| StringUtil.IsEmpty | main/src/main/java/com/cxplan/projection/core/adb/AdbUtil.java:81 | assumed: captured output is empty exactly when it is the empty string; the same test guards lines 116, 139 and 270 |
| StringUtil.GetIntValue | main/src/main/java/com/cxplan/projection/core/adb/AdbUtil.java:97-98 | the parsed value when parseInt succeeds, and the fallback when it throws |
| Channel.GetProperty | main/src/main/java/com/cxplan/projection/core/adb/AdbUtil.java:28 | a property is null exactly when the device has no such key |
| Channel.Shell | main/src/main/java/com/cxplan/projection/core/adb/AdbUtil.java:169-192 | a command yields output exactly when the device can execute it |
| ProbeExamples.ReleaseSevenPointOne | main/src/main/java/com/cxplan/projection/core/adb/AdbUtil.java:48-75 | release `7.1.2` has major version 7 and gets `ps` |
| ProbeExamples.ReleaseSeven | main/src/main/java/com/cxplan/projection/core/adb/AdbUtil.java:48-75 | release `7` gets `ps` |
| ProbeExamples.ReleaseEight | main/src/main/java/com/cxplan/projection/core/adb/AdbUtil.java:48-75 | release `8` gets `ps -A` |
| ProbeExamples.ReleaseTen | main/src/main/java/com/cxplan/projection/core/adb/AdbUtil.java:48-75 | release `10.0` has major version 10 and gets `ps -A` |
| ProbeExamples.ReleaseUnreadable | main/src/main/java/com/cxplan/projection/core/adb/AdbUtil.java:49-68 | an unparsable release and a missing release both get `ps` |
| ProbeExamples.PhysicalSizeExample | main/src/main/java/com/cxplan/projection/core/adb/AdbUtil.java:77-105 | `Physical size: 720x1280` gives (720, 1280) |
| ProbeExamples.PhysicalSizeWithoutX | main/src/main/java/com/cxplan/projection/core/adb/AdbUtil.java:91-95 | a reply without 'x' after the colon is absent |
| ProbeExamples.PhysicalSizeWithoutColon | main/src/main/java/com/cxplan/projection/core/adb/AdbUtil.java:85-89 | a reply without ':' is absent |
| ProbeExamples.NegativePair | main/src/main/java/com/cxplan/projection/core/adb/AdbUtil.java:97-104 | `-5x10` reads as (-5, 10), since only -1 is rejected |
| ProbeExamples.NegativeWidthAdmitted | main/src/main/java/com/cxplan/projection/core/adb/AdbUtil.java:97-104 | `size: -5x10` gives a negative width |
| ProbeExamples.PackagePathEmpty | main/src/main/java/com/cxplan/projection/core/adb/AdbUtil.java:116-118 | empty output means the package is absent |
| ProbeExamples.PackagePathExample | main/src/main/java/com/cxplan/projection/core/adb/AdbUtil.java:119-125 | `package:/data/app/foo.apk` gives `/data/app/foo.apk` |
| ProbeExamples.PackagePathWithoutColon | main/src/main/java/com/cxplan/projection/core/adb/AdbUtil.java:120-123 | a reply without ':' is a format error that carries the reply |
| ProbeExamples.VersionCodeEmpty | main/src/main/java/com/cxplan/projection/core/adb/AdbUtil.java:139-141 | empty output gives -1 |
| ProbeExamples.VersionCodeExample | main/src/main/java/com/cxplan/projection/core/adb/AdbUtil.java:136-167 | `versionCode=42 minSdk=1` gives 42 |
| ProbeExamples.VersionCodeAtEnd | main/src/main/java/com/cxplan/projection/core/adb/AdbUtil.java:148-158 | `versionCode=42` on its own is a format error |
| ProbeExamples.VersionCodeNoDigits | main/src/main/java/com/cxplan/projection/core/adb/AdbUtil.java:148-158 | `versionCode=` is a format error |
| ProbeExamples.VersionCodeNotADigit | main/src/main/java/com/cxplan/projection/core/adb/AdbUtil.java:161-165 | `versionCode=x` is a format error |
| ProbeExamples.WirelessExamples | main/src/main/java/com/cxplan/projection/core/adb/AdbUtil.java:251-258 | `192.168.1.5:5555` is wireless; `ABCD1234` and a null serial are not |
| ProbeExamples.DeviceIpExample | main/src/main/java/com/cxplan/projection/core/adb/AdbUtil.java:267-281 | `wlan0 inet addr:192.168.1.5 Bcast` gives `192.168.1.5` |
| ProbeExamples.DeviceIpBrokenLineExample | main/src/main/java/com/cxplan/projection/core/adb/AdbUtil.java:267-281 | `inet addr:` + newline + `inet addr:1.2 x` gives `1.2` |
| ProbeExamples.DeviceIpWithoutMarker | main/src/main/java/com/cxplan/projection/core/adb/AdbUtil.java:274-280 | a reply without the marker is absent |
| ProbeExamples.ParseIntExamples | main/src/main/java/com/cxplan/projection/core/adb/AdbUtil.java:64 | `08`, `+8` and `-0` parse to 8, 8 and 0; a lone `-` does not parse |
| ProbeExamples.DeviceIdExamples | main/src/main/java/com/cxplan/projection/core/adb/AdbUtil.java:23-40 | a null device is absent; a failing live query beats the hardware serial; a null live reply falls through to it; the cached serial beats a failing live query |
| ProbeExamples.KillCommandExamples | main/src/main/java/com/cxplan/projection/core/adb/AdbUtil.java:223-229 | pid 1234 gives `kill -9 1234`; pid -1 gives no command |

## Left out

- `shell(cmd, timeout, device)` and its 5000 ms default timeout (AdbUtil.java:169-192) are transport. The model keeps only the outcome: the captured output, or a failure.
- `shellBlockingCommand` and `LoggingOutputReceiver` are left out. They are blocking execution on another thread and log streaming, and they have no return value to model.
- `pullFile` is left out. It is a file transfer whose errors only reach the log.
- Every `logger` call is left out. Logging has no effect on results.
- The exception objects are left out. A failing shell command or live query is the single outcome `ExecutionError`, without the wrapped cause or its message.
- `java.awt.Dimension` is the plain pair `AdbUtil.Dimension`.
- The Java regex engine in general is left out. Only the one pattern `inet addr:(.*?) ` is modelled, as a direct matcher.
- `StringUtil` is not part of this model. `isEmpty` and `getIntValue` have the assumed behaviour stated above.
- JavaInt.ParseInt: `Character.isDigit` and `Integer.parseInt` also accept non-ASCII Unicode decimal digits; the model accepts only '0'..'9', which is what adb replies contain.
- The null device is modelled only for `getDeviceId`, the only probe that checks for null. With a null device, `getPsCommand` and `isWirelessDevice` throw a `NullPointerException`; `getPhysicalSize`, `getPackagePath`, `getPackageVersionCode` and `getDeviceIp` throw a `RuntimeException` wrapping it, because `shell` catches the exception and rethrows it (AdbUtil.java:186-189); `killProcess` with a negative pid returns before touching the device, and with any other pid throws that `RuntimeException`.
- A null `packageName` is not modelled. In the Java it becomes the text "null" inside the command; here a package name is always a string.
- AdbUtil.GetDeviceId: its own contract states only the null-device and no-format-error facts; the full chain is stated by `AdbUtil.DeviceIdFollowsChain` together with `AdbUtil.FirstNonNull`.
