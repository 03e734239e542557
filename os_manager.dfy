/**
 * The version manager the OS service mutates. Its Go source is not part of this
 * model: the class keeps only what gnoi/os/server.go relies on — which versions
 * are installed (the factory version always is), installing a version with its
 * activation-fail message, and choosing the version to run after the next reboot.
 */
module OsManager {
  import opened Wrappers

  datatype ManagerError = NotInstalled(version: string)

  class Manager {
    const factoryVersion: string
    /** Versions added by Install, each with its activation-fail message; the factory version is installed regardless. */
    var installed: map<string, string>
    /** The version that runs after the next reboot. */
    var running: string

    predicate Valid()
      reads this
    {
      IsInstalled(running)
    }

    /** NewManager: only the factory version is installed, and it is the one running. */
    constructor (factoryVersion: string)
      ensures Valid()
      ensures this.factoryVersion == factoryVersion
      ensures installed == map[] && running == factoryVersion
    {
      this.factoryVersion := factoryVersion;
      installed := map[];
      running := factoryVersion;
    }

    function Versions(): set<string>
      reads this
    {
      installed.Keys + {factoryVersion}
    }

    predicate IsInstalled(version: string)
      reads this
    {
      version == factoryVersion || version in installed
    }

    /** Adds `version`, or replaces its metadata; never fails. */
    method Install(version: string, activationFailMessage: string)
      requires Valid()
      modifies this
      ensures Valid() && IsInstalled(version)
      ensures installed == old(installed)[version := activationFailMessage]
      ensures running == old(running)
    {
      installed := installed[version := activationFailMessage];
    }

    /** Selects `version` for the next reboot; fails and changes nothing when it is not installed. */
    method SetRunning(version: string) returns (err: Option<ManagerError>)
      requires Valid()
      modifies this
      ensures Valid()
      ensures err == (if old(IsInstalled(version)) then None else Some(NotInstalled(version)))
      ensures installed == old(installed)
      ensures running == (if err.None? then version else old(running))
    {
      if !IsInstalled(version) {
        return Some(NotInstalled(version));
      }
      running := version;
      return None;
    }
  }
}
