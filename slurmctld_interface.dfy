/** The controller's side of the `slurmd` relation
    (charm-slurmctld/src/interface_slurmd.py): the handshake handlers that
    publish the munge key and the controller's coordinates, signal when a
    worker application has published its partition, and revoke the key on
    teardown; and the aggregation of every worker's inventory into partitions. */
module SlurmctldInterface {
  import opened Ops
  import opened Inventory

  /** One `slurmd` relation as the controller sees it: the controller
      application's data bag, the worker application's data bag and the data
      bag of each worker unit, in the order the relation lists its units. */
  datatype RelationState = RelationState(localApp: Bag, remoteApp: Bag, units: seq<Bag>)

  /** What the handlers read from the controller charm. */
  datatype Controller = Controller(
    slurmInstalled: bool,
    slurmdbdInfo: Bag,  // empty until slurmdbd is ready
    mungeKey: string,
    hostname: string,
    port: string)

  /** The notifications the interface emits to the controller charm. */
  datatype Notification = SlurmdAvailable | SlurmdUnavailable

  /** JSON decoding of the two payloads the controller reads, taken as given
      total functions on well-formed payloads. */
  datatype Codec = Codec(partitionInfo: string -> Bag, node: string -> Node)

  /** `relation.data[app]["partition_info"]` raises KeyError for this relation. */
  datatype InfoError = MissingPartitionInfo(relation: nat)

  /** The keys relation-created publishes on the controller's application bag. */
  const ControllerKeys: set<string> := {"munge_key", "slurmctld_host", "slurmctld_port"}

  /** A unit contributes to its partition's inventory when its bag holds a
      non-empty `inventory` value. */
  predicate Reports(unit: Bag)
  {
    Truthy(unit, "inventory")
  }

  /** Positions of the units that report an inventory, in unit order. */
  function Reporting(units: seq<Bag>): (idx: seq<nat>)
    ensures forall k :: 0 <= k < |idx| ==> idx[k] < |units| && Reports(units[idx[k]])
    ensures forall k, l :: 0 <= k < l < |idx| ==> idx[k] < idx[l]
    ensures forall i :: 0 <= i < |units| && Reports(units[i]) ==> i in idx
  {
    if units == [] then []
    else
      var rest := Reporting(units[..|units| - 1]);
      if Reports(units[|units| - 1]) then rest + [|units| - 1] else rest
  }

  /** The inventory list `get_slurmd_info` builds for one relation before
      deduplication: the decoded `inventory` of each reporting unit, in unit order. */
  function ReportedInventory(units: seq<Bag>, decode: string -> Node): (inv: seq<Node>)
    ensures |inv| == |Reporting(units)|
    ensures forall k :: 0 <= k < |inv| ==>
      inv[k] == decode(units[Reporting(units)[k]]["inventory"])
  {
    if units == [] then []
    else
      var last := units[|units| - 1];
      ReportedInventory(units[..|units| - 1], decode)
        + if Reports(last) then [decode(last["inventory"])] else []
  }

  /** The partition `get_slurmd_info` builds for a relation, before deduplication:
      the decoded `partition_info` with its `inventory` key replaced. */
  function RawPartition(rel: RelationState, codec: Codec): Partition
    requires "partition_info" in rel.remoteApp
  {
    Partition(codec.partitionInfo(rel.remoteApp["partition_info"]) - {"inventory"},
              ReportedInventory(rel.units, codec.node))
  }

  /** The `Slurmd` interface object of the controller charm, with the
      relations it sees and the charm's `slurmd_available` flag. */
  class Slurmd {
    /** `model.relations["slurmd"]`, in the model's order. */
    var relations: seq<RelationState>
    /** The charm's flag, set through `set_slurmd_available`. */
    var slurmdAvailable: bool
    /** Every notification emitted so far, oldest first. */
    var emitted: seq<Notification>

    /** The charm's flag tells whether the latest notification was `slurmd_available`. */
    ghost predicate Valid()
      reads this`slurmdAvailable, this`emitted
    {
      slurmdAvailable <==> |emitted| > 0 && emitted[|emitted| - 1] == SlurmdAvailable
    }

    constructor (relations: seq<RelationState>)
      ensures Valid()
      ensures this.relations == relations && !slurmdAvailable && emitted == []
    {
      this.relations := relations;
      slurmdAvailable := false;
      emitted := [];
    }

    /** relation-created on relation `rid`: defers unless slurm is installed and
        slurmdbd has reported in (checked in that order); then publishes the
        munge key, host and port on the controller's application bag. */
    method OnRelationCreated(rid: nat, charm: Controller) returns (o: Outcome)
      requires rid < |relations| && Valid()
      modifies this`relations
      ensures Valid()
      ensures o == Deferred <==> !charm.slurmInstalled || charm.slurmdbdInfo == map[]
      ensures o == Deferred ==> relations == old(relations)
      ensures |relations| == |old(relations)|
      ensures relations == old(relations)[rid := old(relations)[rid].(localApp := relations[rid].localApp)]
      ensures o == Done ==>
        var before, after := old(relations)[rid].localApp, relations[rid].localApp;
        && after.Keys == before.Keys + ControllerKeys
        && after["munge_key"] == charm.mungeKey
        && after["slurmctld_host"] == charm.hostname
        && after["slurmctld_port"] == charm.port
        && forall k :: k in before && k !in ControllerKeys ==> after[k] == before[k]
    {
      if !charm.slurmInstalled {
        return Deferred;
      }
      if charm.slurmdbdInfo == map[] {
        return Deferred;
      }
      var appData := relations[rid].localApp;
      appData := appData["munge_key" := charm.mungeKey];
      appData := appData["slurmctld_host" := charm.hostname];
      appData := appData["slurmctld_port" := charm.port];
      relations := relations[rid := relations[rid].(localApp := appData)];
      return Done;
    }

    /** relation-changed and relation-departed on relation `rid` (one handler):
        once the worker application has published `partition_info`, marks
        slurmd available and emits `slurmd_available`, on every call; otherwise defers. */
    method OnRelationChanged(rid: nat) returns (o: Outcome)
      requires rid < |relations| && Valid()
      modifies this`slurmdAvailable, this`emitted
      ensures Valid()
      ensures o == Done <==> Truthy(relations[rid].remoteApp, "partition_info")
      ensures o == Done ==> slurmdAvailable && emitted == old(emitted) + [SlurmdAvailable]
      ensures o == Deferred ==> slurmdAvailable == old(slurmdAvailable) && emitted == old(emitted)
    {
      if Truthy(relations[rid].remoteApp, "partition_info") {
        slurmdAvailable := true;
        emitted := emitted + [SlurmdAvailable];
        o := Done;
      } else {
        o := Deferred;
      }
    }

    /** relation-broken on relation `rid`: the leader blanks the munge key; every
        unit marks slurmd unavailable and emits `slurmd_unavailable`. */
    method OnRelationBroken(rid: nat, isLeader: bool) returns (o: Outcome)
      requires rid < |relations| && Valid()
      modifies this
      ensures Valid() && o == Done
      ensures !slurmdAvailable && emitted == old(emitted) + [SlurmdUnavailable]
      ensures isLeader ==> relations == old(relations)[rid := old(relations)[rid].(
        localApp := old(relations)[rid].localApp["munge_key" := ""])]
      ensures !isLeader ==> relations == old(relations)
    {
      if isLeader {
        relations := relations[rid := relations[rid].(
          localApp := relations[rid].localApp["munge_key" := ""])];
      }
      slurmdAvailable := false;
      emitted := emitted + [SlurmdUnavailable];
      o := Done;
    }

    /** `_num_relations`. */
    function NumRelations(): nat
      reads this
    {
      |relations|
    }

    /** `is_joined`: some worker application is related. */
    predicate IsJoined()
      reads this
      ensures IsJoined() <==> relations != []
    {
      NumRelations() > 0
    }

    /** `get_slurmd_info`: one partition per relation, in relation order, with
        the reporting units' inventory deduplicated by node name. A relation
        whose worker application has not published `partition_info` makes the
        whole call fail. */
    method GetSlurmdInfo(codec: Codec) returns (r: Result<seq<Partition>, InfoError>)
      ensures r.Failure? <==>
        exists i :: 0 <= i < |relations| && "partition_info" !in relations[i].remoteApp
      ensures r.Failure? ==>
        && r.error.relation < |relations|
        && "partition_info" !in relations[r.error.relation].remoteApp
        && forall i :: 0 <= i < r.error.relation ==> "partition_info" in relations[i].remoteApp
      ensures r.Success? ==>
        && |r.value| == |relations|
        && forall i :: 0 <= i < |relations| ==>
             r.value[i] == UniquePartition(RawPartition(relations[i], codec))
    {
      var rels := relations;
      var partitions := new PartitionList();
      var i := 0;
      while i < |rels|
        invariant 0 <= i <= |rels|
        invariant forall k :: 0 <= k < i ==> "partition_info" in rels[k].remoteApp
        invariant |partitions.items| == i
        invariant forall k :: 0 <= k < i ==> partitions.items[k] == RawPartition(rels[k], codec)
      {
        var rel := rels[i];
        if "partition_info" !in rel.remoteApp {
          return Failure(MissingPartitionInfo(i));
        }
        var info := codec.partitionInfo(rel.remoteApp["partition_info"]);
        var inventory: seq<Node> := [];
        for j := 0 to |rel.units|
          invariant inventory == ReportedInventory(rel.units[..j], codec.node)
        {
          var unit := rel.units[j];
          if Truthy(unit, "inventory") {
            inventory := inventory + [codec.node(unit["inventory"])];
          }
          assert rel.units[..j + 1][..j] == rel.units[..j];
        }
        assert rel.units[..|rel.units|] == rel.units;
        partitions.Append(Partition(info - {"inventory"}, inventory));
        i := i + 1;
      }
      var unique := EnsureUniquePartitions(partitions);
      r := Success(unique.items);
    }
  }
}
