/**
 * The gnxi_tester's history of known targets (gnxi_tester/config/history.go).
 *
 * The viper configuration keys `targets.devices` and `targets.last_target`
 * become the two fields of a History object; prepareTarget is a method that
 * either changes both or neither.
 */
module TargetHistory {
  import opened Wrappers

  /** Connection details of a target. */
  datatype Device = Device(address: string, ca: string, caKey: string)

  datatype HistoryError = NoTargetsInHistory | DeviceNotFound

  function Message(e: HistoryError): string {
    match e
    case NoTargetsInHistory => "No targets in history and no target specified"
    case DeviceNotFound => "Device not found"
  }

  /** The device map and last target after prepareTarget, and the error it returns. */
  datatype Update = Update(devices: map<string, Device>, lastTarget: string, err: Option<HistoryError>)

  /** The fields of `device` overwritten by the non-empty arguments. */
  function Merge(device: Device, address: string, ca: string, caKey: string): Device {
    Device(
      if address != "" then address else device.address,
      if ca != "" then ca else device.ca,
      if caKey != "" then caKey else device.caKey)
  }

  /** prepareTarget as a transition from the current devices and last target. */
  function Prepare(devices: map<string, Device>, lastTarget: string,
                   name: string, address: string, ca: string, caKey: string): Update
  {
    if name == "" then
      if |devices| > 0 then Update(devices, lastTarget, None)
      else Update(devices, lastTarget, Some(NoTargetsInHistory))
    else if name !in devices then
      if address == "" || ca == "" || caKey == "" then Update(devices, lastTarget, Some(DeviceNotFound))
      else Update(devices[name := Device(address, ca, caKey)], name, None)
    else Update(devices[name := Merge(devices[name], address, ca, caKey)], name, None)
  }

  class History {
    /** The known targets by name; a nil map in the configuration is the empty map. */
    var devices: map<string, Device>
    var lastTarget: string

    constructor (devices: map<string, Device>, lastTarget: string)
      ensures this.devices == devices && this.lastTarget == lastTarget
    {
      this.devices := devices;
      this.lastTarget := lastTarget;
    }

    /** prepareTarget: creates or updates the entry for `targetName` and makes it the last target. */
    method PrepareTarget(targetName: string, targetAddress: string, ca: string, caKey: string)
      returns (err: Option<HistoryError>)
      modifies this
      ensures var u := Prepare(old(devices), old(lastTarget), targetName, targetAddress, ca, caKey);
        devices == u.devices && lastTarget == u.lastTarget && err == u.err
    {
      if targetName == "" {
        if |devices| > 0 {
          return None;
        }
        return Some(NoTargetsInHistory);
      }
      if targetName !in devices {
        if targetAddress == "" || ca == "" || caKey == "" {
          return Some(DeviceNotFound);
        }
        devices := devices[targetName := Device(targetAddress, ca, caKey)];
      } else {
        var device := devices[targetName];
        if targetAddress != "" {
          device := device.(address := targetAddress);
        }
        if ca != "" {
          device := device.(ca := ca);
        }
        if caKey != "" {
          device := device.(caKey := caKey);
        }
        devices := devices[targetName := device];
      }
      lastTarget := targetName;
      return None;
    }
  }

  /** No name given but a history exists: success, and nothing changes. */
  lemma PrepareKeepsHistory(devices: map<string, Device>, lastTarget: string, address: string, ca: string, caKey: string)
    requires |devices| > 0
    ensures Prepare(devices, lastTarget, "", address, ca, caKey) == Update(devices, lastTarget, None)
  {
  }

  /** No name given and no history: the error, and nothing changes. */
  lemma PrepareRejectsEmptyHistory(lastTarget: string, address: string, ca: string, caKey: string)
    ensures var u := Prepare(map[], lastTarget, "", address, ca, caKey);
      u == Update(map[], lastTarget, Some(NoTargetsInHistory))
      && Message(u.err.value) == "No targets in history and no target specified"
  {
  }

  /** An unknown name with a missing field: "Device not found", and nothing changes. */
  lemma PrepareRejectsIncompleteTarget(devices: map<string, Device>, lastTarget: string,
                                       name: string, address: string, ca: string, caKey: string)
    requires name != "" && name !in devices
    requires address == "" || ca == "" || caKey == ""
    ensures var u := Prepare(devices, lastTarget, name, address, ca, caKey);
      u == Update(devices, lastTarget, Some(DeviceNotFound)) && Message(u.err.value) == "Device not found"
  {
  }

  /** An unknown name with all fields given: exactly that device is added under the name. */
  lemma PrepareAddsTarget(devices: map<string, Device>, lastTarget: string,
                          name: string, address: string, ca: string, caKey: string)
    requires name != "" && name !in devices
    requires address != "" && ca != "" && caKey != ""
    ensures var u := Prepare(devices, lastTarget, name, address, ca, caKey);
      && u.err == None
      && u.devices == devices[name := Device(address, ca, caKey)]
      && u.devices.Keys == devices.Keys + {name}
  {
  }

  /** A known name: each field is replaced only by a non-empty argument; no key is added. */
  lemma PrepareMergesTarget(devices: map<string, Device>, lastTarget: string,
                            name: string, address: string, ca: string, caKey: string)
    requires name != "" && name in devices
    ensures var u := Prepare(devices, lastTarget, name, address, ca, caKey);
      && u.err == None
      && u.devices.Keys == devices.Keys
      && u.devices[name].address == (if address == "" then devices[name].address else address)
      && u.devices[name].ca == (if ca == "" then devices[name].ca else ca)
      && u.devices[name].caKey == (if caKey == "" then devices[name].caKey else caKey)
  {
  }

  /**
   * Frame: an error changes nothing; a success with a name makes it the last
   * target, leaves every other entry alone and adds no key but the name.
   */
  lemma PrepareFrame(devices: map<string, Device>, lastTarget: string,
                     name: string, address: string, ca: string, caKey: string)
    ensures var u := Prepare(devices, lastTarget, name, address, ca, caKey);
      && (u.err.Some? ==> u.devices == devices && u.lastTarget == lastTarget)
      && (u.err.None? && name != "" ==>
            && u.lastTarget == name
            && name in u.devices
            && u.devices.Keys <= devices.Keys + {name}
            && devices.Keys <= u.devices.Keys
            && forall n :: n in devices && n != name ==> u.devices[n] == devices[n])
  {
  }

  /** Applying the same update a second time changes nothing more. */
  lemma {:induction false} PrepareIdempotent(devices: map<string, Device>, lastTarget: string,
                                             name: string, address: string, ca: string, caKey: string)
    ensures var u := Prepare(devices, lastTarget, name, address, ca, caKey);
      Prepare(u.devices, u.lastTarget, name, address, ca, caKey) == u
  {
    var u := Prepare(devices, lastTarget, name, address, ca, caKey);
    if name != "" && u.err.None? {
      assert name in u.devices;
      assert Merge(u.devices[name], address, ca, caKey) == u.devices[name];
      assert u.devices[name := u.devices[name]] == u.devices;
    }
  }
}
