# HydraLab device layer: state mapping, report URLs, the monkey loop and the cross runner

This project models the platform-independent logic of HydraLab's `DeviceManager` base class and the device-selection policy of the single-device `AppiumCrossRunner`. It proves properties of that model in Dafny.

- **Device state mapping.** `mobileDeviceStateMapping` turns adb's connectivity signal into the lab's `MobileDeviceState`.
  - It is total.
  - It maps `ONLINE`, `OFFLINE` and `DISCONNECTED` one-to-one onto the same-named lab states.
  - It sends a `null` signal and every other signal to `OTHER`.
  - It never yields the lab-only states `TESTING` and `UNSTABLE`.
- **Report URL.** `getTestBaseRelPathInUrl` chains two calls of Java's `String.replace`. The first replaces the test base directory's path with its URL mapping. The second replaces the platform separator with `/`.
  - Module `JavaStrings` models `String.replace`: non-overlapping occurrences are replaced from left to right, and an empty target is replaced at every position. Characters are Unicode scalar values rather than UTF-16 code units (see "## Left out").
- **Foreground check.** `isAppRunningForeground` is given the application state that the driver's query returned.
- **Monkey loop.** `runAppiumMonkey` is modelled against a scripted environment. One `Round` record gives the answer of every driver and device call in that round, including the random draw. The loop records what it asks of the driver and the device as a trace of `Action`s.
  - The imperative method `AppiumMonkey.RunAppiumMonkey` and its round body `AppiumMonkey.MonkeyRound` are proved equal to the functional specification `MonkeyTrace`/`PlayRound`.
  - The loop's behaviour is then proved about that specification:
    - the recovery rule;
    - picks stay in range;
    - stale elements are tolerated only around `getText`/`click`;
    - every other driver error is fatal;
    - the loop stops at the first fatal round and quits the driver once;
    - it acquires the driver at most `round` times.
- **Cross runner.** `chooseDevices` admits a task only when exactly one device is connected. `initDeviceTestTask` names the device run `<os.name>-<agent name>-<device name>`.

Modules: `Wrappers` (Option and Result), `JavaStrings`, `DeviceManager`, `AppiumMonkey` and `AppiumCrossRunner`.

## Model

| member | source | states |
|---|---|---|
| DeviceManager.MobileDeviceStateMapping | common/src/main/java/com/microsoft/hydralab/common/management/DeviceManager.java:47-62 | The mapping never yields `Testing` or `Unstable`. Each of `Online`/`Offline`/`Disconnected` comes out exactly when the same-named adb signal goes in, both directions. A null signal gives `Other`. |
| DeviceManager.MappingRoundTrip | common/src/main/java/com/microsoft/hydralab/common/management/DeviceManager.java:47-62 | The mapping is a bijection between the three recognised adb signals and the three same-named lab states. A signal maps to `Other` exactly when it is not one of the three. |
| DeviceManager.TestBaseRelPathInUrl | common/src/main/java/com/microsoft/hydralab/common/management/DeviceManager.java:187-189 | The separator pass keeps the length of the path after the base-directory rewrite. It turns exactly the separator characters into `/` and leaves every other character in place. On a platform whose separator is not `/`, the URL contains no separator character. |
| DeviceManager.UrlOfTestBaseDir | common/src/main/java/com/microsoft/hydralab/common/management/DeviceManager.java:187-189 | The test base directory itself becomes its URL mapping, with separators converted. |
| DeviceManager.UrlOfReportUnderBase | common/src/main/java/com/microsoft/hydralab/common/management/DeviceManager.java:187-189 | A report at `base + rest`, where `rest` does not contain the base path again, becomes `mapping + rest`, each with separators converted. |
| DeviceManager.UrlOnSlashPlatform | common/src/main/java/com/microsoft/hydralab/common/management/DeviceManager.java:187-189 | Where the separator is `/`, only the base-directory rewrite changes the path. |
| JavaStrings.ReplaceAll | common/src/main/java/com/microsoft/hydralab/common/management/DeviceManager.java:188 | `replace` with a replacement as long as the target keeps the length of the receiver. Every occurrence is replaced: see `ReplaceAllFirst`, which applies repeatedly along the string, together with `ReplaceAllAbsent` for the rest after the last occurrence. |
| JavaStrings.ReplaceAllFirst | common/src/main/java/com/microsoft/hydralab/common/management/DeviceManager.java:188 | The first occurrence of a non-empty target is replaced wherever it starts. The characters before it are kept, and the scan resumes right after it. |
| JavaStrings.ReplaceAllSelf | common/src/main/java/com/microsoft/hydralab/common/management/DeviceManager.java:188 | Replacing a target by itself returns the receiver unchanged. This holds for the empty target too. |
| JavaStrings.ReplaceCharAgrees | common/src/main/java/com/microsoft/hydralab/common/management/DeviceManager.java:188 | `replace` with a one-character target equals the independent character-at-a-time definition `ReplaceChar`. |
| JavaStrings.ReplaceAllAbsent | common/src/main/java/com/microsoft/hydralab/common/management/DeviceManager.java:188 | `replace` with a non-empty target that does not occur returns its receiver unchanged. |
| JavaStrings.ReplaceAllLeading | common/src/main/java/com/microsoft/hydralab/common/management/DeviceManager.java:188 | A leading occurrence of the target is replaced, and the scan resumes right after it. |
| JavaStrings.ReplaceAllWhole | common/src/main/java/com/microsoft/hydralab/common/management/DeviceManager.java:188 | A string replaced in itself becomes the replacement. This holds for the empty string too. |
| JavaStrings.ReplaceOneCharPointwise | common/src/main/java/com/microsoft/hydralab/common/management/DeviceManager.java:188 | `replace` of one character by one character keeps the length. At each position it puts the replacement where the target was and keeps every other character. |
| JavaStrings.ReplaceCharPointwise | common/src/main/java/com/microsoft/hydralab/common/management/DeviceManager.java:188 | The same position-by-position statement for the character-at-a-time definition `ReplaceChar` with a one-character replacement. |
| JavaStrings.ReplaceCharConcat | common/src/main/java/com/microsoft/hydralab/common/management/DeviceManager.java:188 | Replacing a single character distributes over concatenation. |
| JavaStrings.ReplaceCharRemoves | common/src/main/java/com/microsoft/hydralab/common/management/DeviceManager.java:188 | After a character is replaced by a string free of it, the character no longer occurs. |
| DeviceManager.IsAppRunningForeground | common/src/main/java/com/microsoft/hydralab/common/management/DeviceManager.java:235-243 | The check is true exactly when the queried state is `RUNNING_IN_FOREGROUND`. |
| AppiumMonkey.MonkeyRound | common/src/main/java/com/microsoft/hydralab/common/management/DeviceManager.java:248-280 | The imperative round body returns exactly the calls and the fatality given by the round specification `PlayRound`. |
| AppiumMonkey.RunAppiumMonkey | common/src/main/java/com/microsoft/hydralab/common/management/DeviceManager.java:245-287 | The imperative loop, including its `catch`, returns exactly the trace `MonkeyTrace` of `round` rounds. That trace stops at the first fatal round, followed by one driver quit. |
| AppiumMonkey.PickActionsAreElementCalls | common/src/main/java/com/microsoft/hydralab/common/management/DeviceManager.java:270-279 | The element-level part of a round calls only `getText` and `click`. |
| AppiumMonkey.PreludeShape | common/src/main/java/com/microsoft/hydralab/common/management/DeviceManager.java:249-269 | Every round starts by acquiring the driver. The calls before the pick are queries and device commands, never `getText` or `click`. |
| AppiumMonkey.RoundAcquiresOnce | common/src/main/java/com/microsoft/hydralab/common/management/DeviceManager.java:249-280 | A round acquires the driver exactly once, as its first call, and never quits it. |
| AppiumMonkey.RecoveryRule | common/src/main/java/com/microsoft/hydralab/common/management/DeviceManager.java:254-269 | The round goes home exactly when no leaf was found, or when a package is named and the answered query says the app is not in the foreground. The query is made only when a package is named and leaves were found. The app is relaunched exactly on recovery with a package. The all-elements query is made exactly on recovery. |
| AppiumMonkey.PickInRange | common/src/main/java/com/microsoft/hydralab/common/management/DeviceManager.java:270-276 | The final candidate list is all elements after a trip home and the leaves otherwise. A round reads element `k` exactly when the calls before the pick succeeded, that list is non-empty, and `k` is the draw modulo its size. It clicks `k` exactly when it read `k` and `getText` returned. A read index is always below the candidate count. |
| AppiumMonkey.FatalHasCause | common/src/main/java/com/microsoft/hydralab/common/management/DeviceManager.java:246-286 | A fatal round made a failing call. Either a call made outside the `getText`/`click` guard did not return, or a call made inside it raised a driver error other than stale or not-interactable. |
| AppiumMonkey.ChurnIsTolerated | common/src/main/java/com/microsoft/hydralab/common/management/DeviceManager.java:273-286 | A round is fatal exactly when it made a failing call; only calls the round actually made are considered. When the calls before the pick succeed, a stale or not-interactable `getText`, or such a `click` after a returned `getText`, leaves the round non-fatal. A stale or not-interactable `getText` means no click. |
| AppiumMonkey.DriverErrorsAreFatal | common/src/main/java/com/microsoft/hydralab/common/management/DeviceManager.java:246-286 | Every failure of a call made outside the guard is fatal. So is any other driver error from `getText` or `click`. |
| AppiumMonkey.SingleRecoveryBeforeActing | common/src/main/java/com/microsoft/hydralab/common/management/DeviceManager.java:254-276 | With no package, no leaves and a non-empty full element list, the round makes exactly one trip home. It then reads and clicks the drawn element. |
| AppiumMonkey.LoopStep | common/src/main/java/com/microsoft/hydralab/common/management/DeviceManager.java:247-286 | One more round of a loop that has not aborted either appends that round's calls, or appends them with a driver quit and aborts. |
| AppiumMonkey.AbortIsFinal | common/src/main/java/com/microsoft/hydralab/common/management/DeviceManager.java:282-286 | Once a driver failure has left the loop, later rounds change nothing. |
| AppiumMonkey.LoopCounts | common/src/main/java/com/microsoft/hydralab/common/management/DeviceManager.java:247-286 | Each started round contributes one driver acquisition. The driver is quit exactly once, as the last action, when the loop aborted, and otherwise never. When nothing failed, every round ran. |
| AppiumMonkey.LoopStopsAtFirstFatal | common/src/main/java/com/microsoft/hydralab/common/management/DeviceManager.java:246-286 | The loop aborts exactly when some round fails. The last round it starts is the first failing one. |
| AppiumMonkey.LoopActionsFromRounds | common/src/main/java/com/microsoft/hydralab/common/management/DeviceManager.java:246-286 | Every traced action other than the quit comes from a round that the loop started. |
| AppiumMonkey.MonkeyBounds | common/src/main/java/com/microsoft/hydralab/common/management/DeviceManager.java:245-287 | With `round <= 0` the trace is empty. Otherwise it holds at most `round` acquisitions and at most one quit. The quit is present exactly when a round among the first `round` failed, and without one all `round` rounds ran. |
| AppiumMonkey.ClicksInRange | common/src/main/java/com/microsoft/hydralab/common/management/DeviceManager.java:270-276 | Every click of a run was made by one of its first `round` rounds, on an index below that round's candidate count. |
| AppiumMonkey.LoopQuitsLast | common/src/main/java/com/microsoft/hydralab/common/management/DeviceManager.java:282-286 | Whenever the loop's trace holds a driver quit, that quit is its last action. |
| AppiumMonkey.MonkeyQuitsLast | common/src/main/java/com/microsoft/hydralab/common/management/DeviceManager.java:245-287 | After `runAppiumMonkey` quits the driver it makes no further call: a quit in the trace is always its last action. |
| AppiumMonkey.FatalSecondRound | common/src/main/java/com/microsoft/hydralab/common/management/DeviceManager.java:245-287 | With any `round >= 2` and a driver failure first in round 2, exactly two driver acquisitions happen and one quit ends the trace. |
| AppiumMonkey.LoopFailsInSecondRound | common/src/main/java/com/microsoft/hydralab/common/management/DeviceManager.java:246-286 | When the second round is the first to fail, two rounds start and the driver is quit once, at the end. |
| AppiumMonkey.FatalSecondRoundOfFive | common/src/main/java/com/microsoft/hydralab/common/management/DeviceManager.java:245-287 | With `round = 5` and a driver failure in round 2, exactly two driver acquisitions happen and one quit ends the trace. |
| AppiumCrossRunner.ChooseDevices | agent/src/main/java/com/microsoft/hydralab/agent/runner/appium/AppiumCrossRunner.java:22-29 | A set is admitted exactly when it is present and holds one device, and it is returned unchanged. A missing set fails with a `NullPointerException`, because `size()` is read first. Any other size fails with "No connected device!". |
| AppiumCrossRunner.ChosenIsSingleDevice | agent/src/main/java/com/microsoft/hydralab/agent/runner/appium/AppiumCrossRunner.java:22-29 | An admitted selection is a singleton of a connected device. |
| AppiumCrossRunner.OneDeviceIsChosen | agent/src/main/java/com/microsoft/hydralab/agent/runner/appium/AppiumCrossRunner.java:22-29 | An example of the `ChooseDevices` contract rather than a separate property: a single connected device is chosen as it is. |
| AppiumCrossRunner.AmbiguityIsRefused | agent/src/main/java/com/microsoft/hydralab/agent/runner/appium/AppiumCrossRunner.java:22-29 | Two distinct connected devices, with any others, are always refused. No arbitrary pick is made. |
| AppiumCrossRunner.NoDeviceIsRefused | agent/src/main/java/com/microsoft/hydralab/agent/runner/appium/AppiumCrossRunner.java:22-29 | An example of the `ChooseDevices` contract rather than a separate property: an empty device set is refused. |
| AppiumCrossRunner.InitDeviceTestTask | agent/src/main/java/com/microsoft/hydralab/agent/runner/appium/AppiumCrossRunner.java:32-37 | The run's device name becomes `<os>-<agent>-<device name>`. Every other field of the record built by the generic runner is kept. |
| AppiumCrossRunner.InitIsIdempotent | agent/src/main/java/com/microsoft/hydralab/agent/runner/appium/AppiumCrossRunner.java:32-37 | A consequence of the `InitDeviceTestTask` contract rather than a separate property: initialising an already-initialised record changes nothing. |
| AppiumCrossRunner.DeviceNameRoundTrip | agent/src/main/java/com/microsoft/hydralab/agent/runner/appium/AppiumCrossRunner.java:34 | When the OS and agent names contain no dash, the device name determines all three of its parts. |
| AppiumCrossRunner.DeviceNamesCanCollide | agent/src/main/java/com/microsoft/hydralab/agent/runner/appium/AppiumCrossRunner.java:34 | A dash inside the OS or agent name lets two different runs get the same device name. |

## Left out

- **The driver and the device are not called.** `getMobileAppiumDriver`, `findElements`, `getIOSDriver(...).queryAppState`, `getText`, `click`, `backToHome`, `IOSUtils.launchApp` and `quitMobileAppiumDriver` are replaced by the scripted `Round` answers and the `Action` trace.
  - `backToHome`, `launchApp` and `quitMobileAppiumDriver` are taken never to throw. In Java an exception from `quitMobileAppiumDriver`, which runs inside the `catch`, would escape `runAppiumMonkey`. The model always returns, with a trace ending in `QuitDriver`.
  - Exceptions that are not `WebDriverException`s propagate out of the Java loop. They are not modelled.
- **`Random.nextInt(count)`** is modelled as a free draw reduced modulo `count`. Every index in `[0, count)` is reachable and none outside it.
- **Logging** is not modelled: `logger.info`, `printStackTrace`, and the state string logged by `isAppRunningForeground`.
- **File paths.** `File.getAbsolutePath()` and `File.separator` are given as strings and a character. Path absolutisation is not modelled.
- **Script length.** RunAppiumMonkey requires a script with at least `round` entries. This is a requirement on the scripted environment, not on the Java caller.
- **Other `DeviceManager` members** are platform-specific or configuration and are not part of this model:
  - `updateScreenshotImageAsyncDelay` (a thread pool and a sleep);
  - `getDeviceLogger`;
  - the abstract platform operations;
  - `runAppiumT2CTest`;
  - `safeSleep`, a `Thread.sleep` whose interruption is only logged;
  - `grantAllTaskNeededPermissions` and `grantAllPackageNeededPermissions`, which return `false` in this base class;
  - `updateAllDeviceInfo`, which is empty in this base class;
  - the `runningTestTask` map, which this class only creates and returns;
  - the getters and setters.
- **`initDeviceTestTask` of the superclass** is not part of this model. Its result is the generic `base` record, and only the device name is replaced.
- **Null names.** The `os.name` property and the agent name are taken to be present. Java would print `null` for a missing one.
- **Null test base.** `getTestBaseRelPathInUrl` takes `testBaseDir` and `testBaseDirUrlMapping` to be set. In Java a null one throws a `NullPointerException` at DeviceManager.java:188. The model does not represent that failure.
- **The adb enum is not part of this model.** Its further constants are represented by `AdbState.Other`.
- **Mapping.** Three adb signals are recognised: `ONLINE`, `OFFLINE` and `DISCONNECTED`.
- **Null device set.** `chooseDevices` reads `size()` before `Assert.notNull`, so a null set fails with a `NullPointerException` rather than with the assertion's message. This is modelled as `NullPointer`. The empty and the ambiguous case report the same message, "No connected device!".
- **`TESTING` and `UNSTABLE`** are set outside `DeviceManager` and `AppiumCrossRunner`. They are not modelled.
- **Characters.** `JavaStrings` works on Unicode scalar values, while Java strings are sequences of UTF-16 code units. The two agree for every non-empty target. With an empty target Java also inserts the replacement between the two halves of a surrogate pair, and the model does not. The paths and the separator here never form an empty target.
