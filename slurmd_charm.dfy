/** The decision logic of the worker charm (charm-slurmd/src/charm.py) over its
    stored state: the status ladder, the choice of the partition name, the
    partition the leader publishes to the controller, and the install,
    config-changed and slurmctld-available handlers. Host operations of the
    slurm manager are effects outside the model; their answers are inputs. */
module SlurmdCharm {
  import opened Ops
  import opened Inventory

  /** The charm options the logic reads; "" stands for an unset option. */
  datatype Config = Config(
    partitionName: string,
    partitionConfig: string,
    partitionState: string,
    nhcConf: string)

  /** The record `_assemble_partition` returns, with its four keys. */
  datatype AssembledPartition = AssembledPartition(
    inventory: seq<Node>,
    partition_name: string,
    partition_state: string,
    partition_config: string)

  const PartitionNamePrefix := "juju-compute-"
  const InstallFailed := "Error installing slurmd"
  const WaitingOnController := "Waiting on slurmctld relation"
  const SlurmdReady := "slurmd available"
  const CannotStart := "Cannot start slurmd"

  /** The status `_check_status` settles on: blocked until slurm is installed,
      waiting until slurmctld is available and the relation joined, active after. */
  function Ladder(installed: bool, slurmctldAvailable: bool, joined: bool): (s: Status)
    ensures s.Active? <==> installed && slurmctldAvailable && joined
    ensures !installed ==> s == Blocked(InstallFailed)
    ensures installed && !(slurmctldAvailable && joined) ==> s == Waiting(WaitingOnController)
    ensures s.Active? ==> s == Active(SlurmdReady)
  {
    if !installed then Blocked(InstallFailed)
    else if !(slurmctldAvailable && joined) then Waiting(WaitingOnController)
    else Active(SlurmdReady)
  }

  /** The stored partition name agrees with the configuration: it is never
      empty, and it is the configured name whenever one is configured. */
  predicate NameSettled(config: Config, name: string)
  {
    name != "" && (config.partitionName != "" ==> name == config.partitionName)
  }

  /** The worker charm's stored state and the effects of its handlers. */
  class Charm {
    var partitionName: string
    var nhcConf: string
    var slurmInstalled: bool
    var slurmctldAvailable: bool
    /** The unit's workload status. */
    var status: Status
    /** The partition last set on the worker application's relation data. */
    var published: Option<AssembledPartition>
    /** Every nhc configuration rendered on the host, oldest first. */
    var renderedNhc: seq<string>

    /** The stored defaults. */
    constructor ()
      ensures partitionName == "" && nhcConf == ""
      ensures !slurmInstalled && !slurmctldAvailable
      ensures status == Unknown && published == None && renderedNhc == []
    {
      partitionName := "";
      nhcConf := "";
      slurmInstalled := false;
      slurmctldAvailable := false;
      status := Unknown;
      published := None;
      renderedNhc := [];
    }

    /** `_check_status`; `joined` is the worker interface's `is_joined`. */
    method CheckStatus(joined: bool) returns (ok: bool)
      modifies this`status
      ensures status == Ladder(slurmInstalled, slurmctldAvailable, joined)
      ensures ok <==> status.Active?
    {
      if !slurmInstalled {
        status := Blocked(InstallFailed);
        return false;
      }
      if !(slurmctldAvailable && joined) {
        status := Waiting(WaitingOnController);
        return false;
      }
      status := Active(SlurmdReady);
      return true;
    }

    /** `set_slurmctld_available`. */
    method SetSlurmctldAvailable(flag: bool)
      modifies this`slurmctldAvailable
      ensures slurmctldAvailable == flag
    {
      slurmctldAvailable := flag;
    }

    /** `_get_set_partition_name`: a configured name wins; with none configured a
        stored name is kept, and an empty one becomes "juju-compute-" + `suffix`
        (`suffix` stands for `random_string()`). */
    method GetSetPartitionName(config: Config, suffix: string)
      modifies this`partitionName
      ensures NameSettled(config, partitionName)
      ensures NameSettled(config, old(partitionName)) ==> partitionName == old(partitionName)
      ensures config.partitionName == "" && old(partitionName) == "" ==>
        partitionName == PartitionNamePrefix + suffix
    {
      var configured := config.partitionName;
      if configured != "" {
        if configured != partitionName {
          partitionName := configured;
        }
      } else if partitionName == "" {
        partitionName := PartitionNamePrefix + suffix;
      }
    }

    /** `_assemble_partition`; `inventory` is the peer interface's
        `get_slurmd_inventory()`. */
    function AssemblePartition(config: Config, inventory: seq<Node>): (p: Option<AssembledPartition>)
      reads this
      ensures p.None? <==> inventory == []
      ensures p.Some? ==> p.value.inventory == inventory && p.value.partition_name == partitionName
      ensures p.Some? ==>
        p.value.partition_state == config.partitionState && p.value.partition_config == config.partitionConfig
    {
      if inventory == [] then None
      else Some(AssembledPartition(inventory, partitionName, config.partitionState, config.partitionConfig))
    }

    /** `_on_set_partition_info_on_app_relation_data`: only the leader writes;
        a leader defers while the relation is not joined or the peer inventory
        is empty, and otherwise publishes the assembled partition. */
    method OnSetPartitionInfo(config: Config, isLeader: bool, joined: bool, inventory: seq<Node>)
      returns (o: Outcome)
      modifies this`published
      ensures o == Deferred <==> isLeader && (!joined || inventory == [])
      ensures isLeader && joined && inventory != [] ==>
        published == AssemblePartition(config, inventory) && published.Some?
      ensures !(isLeader && joined && inventory != []) ==> published == old(published)
    {
      o := Done;
      if isLeader {
        if joined {
          var partition := AssemblePartition(config, inventory);
          if partition.Some? {
            published := partition;
          } else {
            o := Deferred;
          }
        } else {
          o := Deferred;
        }
      }
    }

    /** `_on_config_changed`: the leader settles the partition name and publishes
        the partition; every unit stores and renders a non-empty `nhc-conf` that
        differs from the stored one. */
    method OnConfigChanged(config: Config, isLeader: bool, joined: bool,
                           inventory: seq<Node>, suffix: string)
      returns (o: Outcome)
      modifies this`partitionName, this`published, this`nhcConf, this`renderedNhc
      ensures !isLeader ==> partitionName == old(partitionName) && published == old(published) && o == Done
      ensures isLeader ==> NameSettled(config, partitionName)
      ensures isLeader && NameSettled(config, old(partitionName)) ==> partitionName == old(partitionName)
      ensures isLeader && config.partitionName == "" && old(partitionName) == "" ==>
        partitionName == PartitionNamePrefix + suffix
      ensures isLeader ==> (o == Deferred <==> !joined || inventory == [])
      ensures isLeader && joined && inventory != [] ==>
        published == AssemblePartition(config, inventory) && published.Some?
      ensures isLeader && !(joined && inventory != []) ==> published == old(published)
      ensures nhcConf == if config.nhcConf != "" then config.nhcConf else old(nhcConf)
      ensures renderedNhc == old(renderedNhc) +
        if config.nhcConf != "" && config.nhcConf != old(nhcConf) then [config.nhcConf] else []
    {
      o := Done;
      if isLeader {
        GetSetPartitionName(config, suffix);
        o := OnSetPartitionInfo(config, isLeader, joined, inventory);
      }
      var nhc := config.nhcConf;
      if nhc != "" {
        if nhc != nhcConf {
          nhcConf := nhc;
          renderedNhc := renderedNhc + [nhc];
        }
      }
    }

    /** `_on_install`, given whether the slurm manager's install succeeded:
        success marks slurm installed and lets the leader settle the partition
        name; failure defers. Either way the status ladder runs last. */
    method OnInstall(installed: bool, isLeader: bool, joined: bool, config: Config, suffix: string)
      returns (o: Outcome)
      modifies this`slurmInstalled, this`partitionName, this`status
      ensures o == if installed then Done else Deferred
      ensures slurmInstalled == (installed || old(slurmInstalled))
      ensures installed && isLeader ==> NameSettled(config, partitionName)
      ensures installed && isLeader && NameSettled(config, old(partitionName)) ==>
        partitionName == old(partitionName)
      ensures installed && isLeader && config.partitionName == "" && old(partitionName) == "" ==>
        partitionName == PartitionNamePrefix + suffix
      ensures !(installed && isLeader) ==> partitionName == old(partitionName)
      ensures status == Ladder(slurmInstalled, slurmctldAvailable, joined)
    {
      status := Waiting("Installing slurmd");
      o := Done;
      if installed {
        slurmInstalled := true;
        if isLeader {
          GetSetPartitionName(config, suffix);
        }
      } else {
        status := Blocked(InstallFailed);
        o := Deferred;
      }
      var _ := CheckStatus(joined);
    }

    /** `_on_slurmctld_available`: defers with nothing else done while the
        status ladder is not active; otherwise publishes the partition as
        `_on_set_partition_info_on_app_relation_data` does and ends as
        `_check_slurmd`, given whether slurmd is active after its restarts. */
    method OnSlurmctldAvailable(config: Config, isLeader: bool, joined: bool,
                                inventory: seq<Node>, slurmdActive: bool)
      returns (o: Outcome)
      modifies this`status, this`published
      ensures !Ladder(slurmInstalled, slurmctldAvailable, joined).Active? ==>
        && o == Deferred
        && published == old(published)
        && status == Ladder(slurmInstalled, slurmctldAvailable, joined)
      ensures Ladder(slurmInstalled, slurmctldAvailable, joined).Active? ==>
        && (o == Deferred <==> isLeader && inventory == [])
        && (isLeader && inventory != [] ==> published == AssemblePartition(config, inventory))
        && (!(isLeader && inventory != []) ==> published == old(published))
        && status == if slurmdActive then Active(SlurmdReady) else Blocked(CannotStart)
    {
      var ok := CheckStatus(joined);
      if !ok {
        return Deferred;
      }
      o := OnSetPartitionInfo(config, isLeader, joined, inventory);
      if slurmdActive {
        ok := CheckStatus(joined);
      } else {
        status := Blocked(CannotStart);
      }
    }
  }
}
