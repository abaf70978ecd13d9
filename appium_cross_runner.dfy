/** The single-device "cross" runner: it admits a test task only when exactly
    one device is connected, and names each device run after the operating
    system, the agent and the device. */
module AppiumCrossRunner {
  import opened Wrappers
  import opened JavaStrings

  /** A device as the runner sees it. */
  datatype DeviceInfo = DeviceInfo(serialNum: string, name: string)

  /** The exceptions `chooseDevices` can throw: the `NullPointerException` of
      `size()` on a missing set, and Spring's `Assert` failure. */
  datatype Failure = NullPointer | IllegalArgument(message: string)

  const NoConnectedDevice: string := "No connected device!"

  /** `chooseDevices` given the agent's active device set (`None` for a `null`
      set): the set itself when it holds exactly one device, a failure
      otherwise. The set's size is read before the null check, so a missing
      set fails with `NullPointer` and the check is never reached. */
  function ChooseDevices(activeDevices: Option<set<DeviceInfo>>): (r: Result<set<DeviceInfo>, Failure>)
    ensures r.Ok? <==> activeDevices.Some? && |activeDevices.value| == 1
    ensures r.Ok? ==> r.value == activeDevices.value
    ensures activeDevices.None? ==> r == Err(NullPointer)
    ensures activeDevices.Some? && |activeDevices.value| != 1 ==> r == Err(IllegalArgument(NoConnectedDevice))
  {
    match activeDevices
    case None => Err(NullPointer)
    case Some(devices) =>
      if |devices| == 1 then Ok(devices) else Err(IllegalArgument(NoConnectedDevice))
  }

  /** Every admitted selection is a single device, the one that was connected. */
  lemma {:induction false} ChosenIsSingleDevice(activeDevices: Option<set<DeviceInfo>>)
    requires ChooseDevices(activeDevices).Ok?
    ensures exists d :: d in activeDevices.value && ChooseDevices(activeDevices).value == {d}
  {
    var devices := activeDevices.value;
    var d :| d in devices;
    assert |devices - {d}| == |devices| - 1;
    assert devices - {d} == {};
    assert devices == {d};
  }

  /** One connected device is chosen as it is. */
  lemma OneDeviceIsChosen(d: DeviceInfo)
    ensures ChooseDevices(Some({d})) == Ok({d})
  {
  }

  /** Two distinct connected devices are never resolved by an arbitrary pick:
      the task is refused, whatever other devices are connected. */
  lemma {:induction false} AmbiguityIsRefused(a: DeviceInfo, b: DeviceInfo, others: set<DeviceInfo>)
    requires a != b
    ensures ChooseDevices(Some({a, b} + others)) == Err(IllegalArgument(NoConnectedDevice))
  {
    var devices := {a, b} + others;
    assert b in devices - {a};
    assert |devices - {a}| >= 1;
    assert |devices| == |devices - {a}| + 1 by {
      assert devices == (devices - {a}) + {a};
    }
  }

  /** No connected device: the task is refused. */
  lemma NoDeviceIsRefused()
    ensures ChooseDevices(Some({})) == Err(IllegalArgument(NoConnectedDevice))
  {
  }

  /** The device run record that `initDeviceTestTask` receives from the
      generic runner; `rest` stands for every field other than the device
      name, which this runner does not touch. */
  datatype DeviceTestTask<Rest> = DeviceTestTask(deviceName: string, rest: Rest)

  /** The device name of a run: `<os.name>-<agent name>-<device name>`. */
  function DeviceName(osName: string, agentName: string, device: DeviceInfo): string
  {
    osName + "-" + agentName + "-" + device.name
  }

  /** `initDeviceTestTask`: the record built by the generic runner, with only
      its device name replaced. */
  function InitDeviceTestTask<Rest(==)>(osName: string, agentName: string, device: DeviceInfo, base: DeviceTestTask<Rest>): (t: DeviceTestTask<Rest>)
    ensures t.deviceName == osName + "-" + agentName + "-" + device.name
    ensures t.rest == base.rest
  {
    base.(deviceName := DeviceName(osName, agentName, device))
  }

  /** Running the initialisation again changes nothing more. */
  lemma InitIsIdempotent<Rest>(osName: string, agentName: string, device: DeviceInfo, base: DeviceTestTask<Rest>)
    ensures var once := InitDeviceTestTask(osName, agentName, device, base);
      InitDeviceTestTask(osName, agentName, device, once) == once
  {
  }

  /** Reads a device name back into the operating system, the agent and the
      device, splitting at the first two dashes. */
  function SplitDeviceName(deviceName: string): Option<(string, string, string)>
  {
    match Cut(deviceName, '-')
    case None => None
    case Some((os, rest)) =>
      match Cut(rest, '-')
      case None => None
      case Some((agent, device)) => Some((os, agent, device))
  }

  /** The device name determines its three parts when the operating system
      and agent names hold no dash. */
  lemma {:induction false} DeviceNameRoundTrip(osName: string, agentName: string, device: DeviceInfo)
    requires '-' !in osName && '-' !in agentName
    ensures SplitDeviceName(DeviceName(osName, agentName, device)) == Some((osName, agentName, device.name))
  {
    var rest := agentName + "-" + device.name;
    assert DeviceName(osName, agentName, device) == osName + ['-'] + rest;
    CutAtFirst(osName, rest, '-');
    assert rest == agentName + ['-'] + device.name;
    CutAtFirst(agentName, device.name, '-');
  }

  /** With a dash inside the agent or operating-system name, two different
      device runs can get the same name. */
  lemma DeviceNamesCanCollide()
    ensures DeviceName("os-a", "b", DeviceInfo("1", "c")) == DeviceName("os", "a-b", DeviceInfo("2", "c"))
  {
  }
}
