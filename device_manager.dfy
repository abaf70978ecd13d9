/** The logic of the `DeviceManager` base class that does not depend on a
    platform: the mapping from the adb bridge's connectivity signal to the lab's
    device state, the rewrite of a report path into a URL and the foreground
    check. The exploration loop of the same class is in module AppiumMonkey. */
module DeviceManager {
  import opened JavaStrings

  // ---------------------------------------------------------------------------
  // Device states

  /** The connectivity signal adb reports for a device. `Null` is a missing
      signal; `Other` is any further constant of adb's enum (bootloader,
      recovery, unauthorized, ...), named by `name`. */
  datatype AdbState = Null | Online | Offline | Disconnected | Other(name: string)

  /** The lab's device state. `Testing` and `Unstable` are set by the task
      registry and the stability monitor, never derived from adb. */
  datatype MobileDeviceState = Offline | Online | Disconnected | Testing | Unstable | Other

  /** `mobileDeviceStateMapping`: total, and never yields a lab-only state. */
  function MobileDeviceStateMapping(adbState: AdbState): (s: MobileDeviceState)
    ensures s != MobileDeviceState.Testing && s != MobileDeviceState.Unstable
    ensures adbState.Online? <==> s == MobileDeviceState.Online
    ensures adbState.Offline? <==> s == MobileDeviceState.Offline
    ensures adbState.Disconnected? <==> s == MobileDeviceState.Disconnected
    ensures adbState.Null? ==> s == MobileDeviceState.Other
  {
    match adbState
    case Null => MobileDeviceState.Other
    case Online => MobileDeviceState.Online
    case Offline => MobileDeviceState.Offline
    case Disconnected => MobileDeviceState.Disconnected
    case Other(_) => MobileDeviceState.Other
  }

  /** The adb signal a lab state stands for, if it stands for one. */
  function AdbOrigin(s: MobileDeviceState): (a: AdbState)
  {
    match s
    case Online => AdbState.Online
    case Offline => AdbState.Offline
    case Disconnected => AdbState.Disconnected
    case _ => AdbState.Null
  }

  /** The mapping is a bijection between the three recognised adb signals and
      the three same-named lab states, and sends everything else to `Other`. */
  lemma MappingRoundTrip(a: AdbState, s: MobileDeviceState)
    ensures MobileDeviceStateMapping(a) != MobileDeviceState.Other ==>
      AdbOrigin(MobileDeviceStateMapping(a)) == a
    ensures s in {MobileDeviceState.Online, MobileDeviceState.Offline, MobileDeviceState.Disconnected} ==>
      MobileDeviceStateMapping(AdbOrigin(s)) == s
    ensures MobileDeviceStateMapping(a) == MobileDeviceState.Other <==>
      a !in {AdbState.Online, AdbState.Offline, AdbState.Disconnected}
  {
  }

  // ---------------------------------------------------------------------------
  // Report path to URL

  /** `getTestBaseRelPathInUrl`: in the report's absolute path, every
      occurrence of the test base directory's absolute path becomes the URL
      mapping, then every platform separator becomes `/`. The separator pass
      rewrites character by character and keeps the length, so on a platform
      whose separator is not `/` the URL holds no separator. */
  function TestBaseRelPathInUrl(reportPath: string, testBaseDir: string, testBaseDirUrlMapping: string, separator: char): (url: string)
    ensures var mapped := ReplaceAll(reportPath, testBaseDir, testBaseDirUrlMapping);
      |url| == |mapped| &&
      forall i :: 0 <= i < |mapped| ==> url[i] == if mapped[i] == separator then '/' else mapped[i]
    ensures separator != '/' ==> separator !in url
  {
    var mapped := ReplaceAll(reportPath, testBaseDir, testBaseDirUrlMapping);
    ReplaceOneCharPointwise(mapped, separator, '/');
    ReplaceAll(mapped, [separator], "/")
  }

  /** The base directory itself becomes the URL mapping, with its separators converted. */
  lemma UrlOfTestBaseDir(testBaseDir: string, testBaseDirUrlMapping: string, separator: char)
    ensures TestBaseRelPathInUrl(testBaseDir, testBaseDir, testBaseDirUrlMapping, separator)
      == ReplaceAll(testBaseDirUrlMapping, [separator], "/")
  {
    ReplaceAllWhole(testBaseDir, testBaseDirUrlMapping);
  }

  /** A report under the base directory, whose remaining path does not repeat
      the base directory's path, is the mapping followed by that remainder,
      both with separators converted. */
  lemma UrlOfReportUnderBase(testBaseDir: string, rest: string, testBaseDirUrlMapping: string, separator: char)
    requires testBaseDir != [] && !Occurs(rest, testBaseDir)
    ensures TestBaseRelPathInUrl(testBaseDir + rest, testBaseDir, testBaseDirUrlMapping, separator)
      == ReplaceAll(testBaseDirUrlMapping, [separator], "/") + ReplaceAll(rest, [separator], "/")
  {
    ReplaceAllLeading(testBaseDir, rest, testBaseDirUrlMapping);
    ReplaceAllAbsent(rest, testBaseDir, testBaseDirUrlMapping);
    ReplaceCharConcat(testBaseDirUrlMapping, rest, separator, "/");
  }

  /** Where the separator is already `/`, only the base directory is rewritten. */
  lemma UrlOnSlashPlatform(reportPath: string, testBaseDir: string, testBaseDirUrlMapping: string)
    ensures TestBaseRelPathInUrl(reportPath, testBaseDir, testBaseDirUrlMapping, '/')
      == ReplaceAll(reportPath, testBaseDir, testBaseDirUrlMapping)
  {
    var mapped := ReplaceAll(reportPath, testBaseDir, testBaseDirUrlMapping);
    ReplaceAllSelf(mapped, "/");
  }

  // ---------------------------------------------------------------------------
  // Foreground check

  /** The application state the automation driver reports for a package. */
  datatype ApplicationState =
    | NotInstalled
    | NotRunning
    | RunningInBackgroundSuspended
    | RunningInBackground
    | RunningInForeground

  /** `isAppRunningForeground`, given the state the driver's query returned. */
  function IsAppRunningForeground(state: ApplicationState): (b: bool)
    ensures b <==> state == RunningInForeground
  {
    match state
    case RunningInForeground => true
    case _ => false
  }
}
