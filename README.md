# Slurm charms: the slurmd relation and the worker's stored state

This project models two parts of the Slurm charms in Dafny and proves what they do.

The first part is the controller's side of the `slurmd` relation (`charm-slurmctld/src/interface_slurmd.py`). It has three jobs:

- A handshake on relation-created. It publishes the munge key, the controller's host and the controller's port on the controller application's relation data, but only once slurm is installed and slurmdbd has reported in.
- Readiness detection. On relation-changed and relation-departed, it signals `slurmd_available` once the worker application has published `partition_info`.
- Revocation on relation-broken. The leader blanks the munge key, and every unit signals `slurmd_unavailable`.

It also aggregates every worker unit's inventory into one partition per relation. Each partition's inventory is then deduplicated by `node_name`, and the last entry for a name wins.

The second part is the decision logic of the worker charm (`charm-slurmd/src/charm.py`), over its stored fields `partition_name`, `nhc_conf`, `slurm_installed` and `slurmctld_available`. It covers the status ladder, the choice of a partition name, the partition the leader publishes, and the install, config-changed and slurmctld-available handlers.

The project has four files:

- `ops.dfy` (module `Ops`): the framework's vocabulary. A relation data scope is a `map<string, string>`. A handler's outcome is `Deferred` or `Done`. It also defines the unit status.
- `inventory.dfy` (module `Inventory`): the node and partition records.
  - The dict comprehension `{node["node_name"]: node for node in inventory}.values()` is modelled as an insertion-ordered association list.
  - `PartitionList` is the Python list that `ensure_unique_partitions` updates in place with `remove` and `append`.
  - Its lemmas state what the deduplication guarantees.
- `slurmctld_interface.dfy` (module `SlurmctldInterface`): the class `Slurmd` holds the `slurmd` relations, the charm's `slurmd_available` flag and the notifications emitted so far. Its methods are the handlers and `get_slurmd_info`.
- `slurmd_charm.dfy` (module `SlurmdCharm`): the class `Charm` holds the worker's stored fields, its status, the partition it last published and the nhc configurations it rendered.

Everything outside the charms becomes a parameter of the methods:

- leadership;
- the controller charm's installed flag, `slurmdbd_info`, munge key, hostname and port;
- the worker interface's `is_joined`;
- the worker peer interface's `get_slurmd_inventory()`;
- whether the slurm manager's install succeeded;
- whether slurmd ends up active;
- the string that `random_string()` returns;
- the JSON decoders, as a `Codec` of two total functions.

## Behaviour worth noting

- The keys relation-created publishes on the controller's application data are `munge_key`, `slurmctld_host` and `slurmctld_port` (charm-slurmctld/src/interface_slurmd.py:74-79).
- relation-created has no leadership check of its own (charm-slurmctld/src/interface_slurmd.py:59-79). The only leader check in the interface guards the blanking of `munge_key` on relation-broken (charm-slurmctld/src/interface_slurmd.py:91-92).
- The port is stored in relation data as a string, like every relation value (charm-slurmctld/src/interface_slurmd.py:79). The controller charm's `port` property is not part of this model.
- The deduplicated inventory keeps the order in which each node name first occurs, because Python dicts keep insertion order, and each name's entry is the last one reported (charm-slurmctld/src/interface_slurmd.py:156-158). `Inventory.UniqueInventorySpec` proves both.
- When a worker application has not published `partition_info`, `relation.data[app]["partition_info"]` raises KeyError and the whole of `get_slurmd_info` fails (charm-slurmctld/src/interface_slurmd.py:117). `Slurmd.GetSlurmdInfo` returns that failure with the first such relation.

## Model

| member | source | states |
|---|---|---|
| `Inventory.UniqueInventorySpec` | charm-slurmctld/src/interface_slurmd.py:156-158 | the deduplicated inventory has pairwise distinct node names, exactly the names of its input, ordered by first occurrence, each entry being the input's last entry with that name, and is no longer than the input |
| `Inventory.DeduplicatesCharacterizes` | charm-slurmctld/src/interface_slurmd.py:156-158 | a list has those four properties if and only if it is what the dict comprehension returns, so the properties are a complete specification of it |
| `Inventory.UniqueInventoryOfUnique` | charm-slurmctld/src/interface_slurmd.py:156-158 | an inventory whose node names are already distinct comes back unchanged |
| `Inventory.UniqueInventoryIdempotent` | charm-slurmctld/src/interface_slurmd.py:156-158 | deduplicating twice gives the same list as deduplicating once |
| `Inventory.UniquePartitionSpec` | charm-slurmctld/src/interface_slurmd.py:151-160 | the copy of a partition keeps every field but `inventory`, and its inventory is a correct deduplication of the original's |
| `Inventory.PartitionList.Remove` | charm-slurmctld/src/interface_slurmd.py:152 | `list.remove` drops exactly the first element equal to its argument; when there is none (ValueError in Python) nothing is removed |
| `Inventory.PartitionList.Append` | charm-slurmctld/src/interface_slurmd.py:161 | `list.append` adds its argument at the tail |
| `Inventory.UniquePartitions` | charm-slurmctld/src/interface_slurmd.py:151-160 | the partitions after the loop: as many as before, partition i being the deduplicated copy of the original partition i |
| `Inventory.EnsureUniquePartitions` | charm-slurmctld/src/interface_slurmd.py:130-163 | returns the very list it was given, updated in place to the deduplicated copies of its partitions in their original order; every `remove` takes the list's head, because the copies made so far sit behind the partitions still to visit |
| `SlurmctldInterface.Reporting` | charm-slurmctld/src/interface_slurmd.py:119-122 | the positions of the units whose `inventory` value is non-empty: all of them, each once, in increasing unit order |
| `SlurmctldInterface.ReportedInventory` | charm-slurmctld/src/interface_slurmd.py:112-124 | the inventory of a relation before deduplication has one entry per reporting unit, in unit order, each the decoded `inventory` of that unit |
| `SlurmctldInterface.Slurmd.GetSlurmdInfo` | charm-slurmctld/src/interface_slurmd.py:106-127 | fails exactly when some relation lacks `partition_info`, and then names the first such relation; otherwise returns one partition per relation, in relation order, each the decoded `partition_info` with its reported inventory deduplicated |
| `SlurmctldInterface.Slurmd.IsJoined` | charm-slurmctld/src/interface_slurmd.py:96-104 | holds exactly when there is at least one `slurmd` relation |
| `SlurmctldInterface.Slurmd.constructor` | charm-slurmctld/src/interface_slurmd.py:36-40 | the interface object over the charm's `slurmd` relations, in the deployment's first state: the controller charm's stored `slurmd_available` flag at false and nothing emitted yet, which satisfies the invariant that the flag is true exactly when the latest notification is `slurmd_available`; the interface object is rebuilt on every hook without resetting the stored flag, which the handlers' contracts carry from one call to the next |
| `SlurmctldInterface.Slurmd.OnRelationCreated` | charm-slurmctld/src/interface_slurmd.py:59-79 | defers, writing nothing, exactly when slurm is not installed or `slurmdbd_info` is empty; otherwise adds exactly `munge_key`, `slurmctld_host` and `slurmctld_port` with the charm's values to the controller's application data of that relation and leaves every other key, relation and flag as it was; keeps the invariant |
| `SlurmctldInterface.Slurmd.OnRelationChanged` | charm-slurmctld/src/interface_slurmd.py:81-87 | for relation-changed and relation-departed alike: when the worker's `partition_info` is non-empty, sets slurmd available and emits `slurmd_available` on every call; otherwise defers with the flag and the notifications unchanged; keeps the invariant |
| `SlurmctldInterface.Slurmd.OnRelationBroken` | charm-slurmctld/src/interface_slurmd.py:89-94 | always sets slurmd unavailable and emits `slurmd_unavailable`; blanks `munge_key` of that relation only on the leader, and otherwise leaves all relation data untouched; keeps the invariant |
| `SlurmdCharm.Ladder` | charm-slurmd/src/charm.py:94-103 | the status is active exactly when slurm is installed, slurmctld is available and the relation is joined; it is blocked on install while slurm is not installed, and waiting otherwise |
| `SlurmdCharm.Charm.constructor` | charm-slurmd/src/charm.py:30-35 | the stored defaults: empty partition name and nhc configuration, neither installed nor slurmctld available |
| `SlurmdCharm.Charm.CheckStatus` | charm-slurmd/src/charm.py:87-103 | sets the status the ladder gives for the stored flags and `is_joined`, and returns true exactly when that status is active |
| `SlurmdCharm.Charm.SetSlurmctldAvailable` | charm-slurmd/src/charm.py:125-127 | stores the given slurmctld availability |
| `SlurmdCharm.Charm.GetSetPartitionName` | charm-slurmd/src/charm.py:284-296 | leaves a non-empty name that is the configured one whenever one is configured; an empty stored name with no configured one becomes "juju-compute-" followed by the random suffix; a name already settled for this configuration is kept, so a second call is a no-op |
| `SlurmdCharm.Charm.AssemblePartition` | charm-slurmd/src/charm.py:267-282 | absent exactly when the peer inventory is empty; otherwise the record of that inventory, the stored partition name and the configured partition state and config |
| `SlurmdCharm.Charm.OnSetPartitionInfo` | charm-slurmd/src/charm.py:248-265 | a non-leader neither writes nor defers; a leader defers without writing when the relation is not joined or the assembled partition is absent, and otherwise publishes the assembled partition |
| `SlurmdCharm.Charm.OnConfigChanged` | charm-slurmd/src/charm.py:148-157 | only the leader settles the partition name and publishes, as above; the stored `nhc_conf` takes a non-empty configured value and it is rendered only when it differs from the stored one, otherwise neither changes |
| `SlurmdCharm.Charm.OnInstall` | charm-slurmd/src/charm.py:66-85 | a successful install sets `slurm_installed` and lets only the leader settle the partition name; a failed one defers and leaves `slurm_installed` and the name as they were; the status ends as the ladder gives |
| `SlurmdCharm.Charm.OnSlurmctldAvailable` | charm-slurmd/src/charm.py:129-146 | while the ladder is not active it defers and publishes nothing; otherwise it publishes as `_on_set_partition_info_on_app_relation_data` does and ends active, or blocked with "Cannot start slurmd" when slurmd is not running |

## Left out

- JSON decoding and encoding are not modelled. The decoders are given total functions, so a malformed payload, including an empty `partition_info` string, is not a failure here. Node records always carry a `node_name`, so the missing-key failure of `node["node_name"]` is not modelled either.
- Payload values are strings. The nesting of JSON values inside a partition or a node record is not kept.
- `relation.units` is a set in the framework. The model fixes one iteration order as a sequence.
- The framework itself is not modelled: event observation, deferral and re-delivery, leader election, stored-state persistence and logging. Leadership is an input and a deferral is a returned `Deferred`.
- The slurm manager's host operations are effects whose results are inputs or are dropped. They are: install, the configless systemd override, daemon reload, restarts, munge key configuration, nhc rendering (kept only as the log `renderedNhc`) and version queries.
- `_check_slurmd`'s retry loop with `sleep` polls a service. Only its final answer is an input to `OnSlurmctldAvailable`, and the intermediate "Starting slurmd" statuses it sets are overwritten in the source anyway.
- Setting the workload version from the `VERSION` file in `_on_install` is file I/O.
- The infiniband, version, node-configured, node-inventory and nhc-config action handlers are thin wrappers over the slurm manager. This includes the base64 decode in `set_infiniband_repo`.
- `random_string` is not deterministic. Its result is the `suffix` input.
- The worker-side `Slurmd` and `SlurmdPeer` interfaces are not part of this model. `is_joined`, `get_slurmd_inventory()` and `set_partition_info_on_app_relation_data` become the `joined` and `inventory` inputs and the `published` field.
- `copy.deepcopy` is not modelled. All partition data are values, so the copies cannot alias.
- `GetSlurmdInfo` returns the contents of the list it builds rather than the list object. That list's identity is invisible to callers in the source.
- `SlurmctldInterface.Slurmd.OnRelationCreated`: the framework lets only the leader write the application's relation data, and on any other unit the assignment raises and the hook fails with nothing written. That permission is not modelled: the handler's own code has no leader check, and the model writes the three keys on every unit.
- `SlurmctldInterface.Slurmd.OnRelationBroken`: in the framework, assigning "" to a relation data key removes the key. The model keeps `munge_key` with the value "" instead.
- `SlurmdCharm.Config`: an option left unset is "" in the model. For `partition-state` and `partition-config`, `self.config.get` gives None, and `_assemble_partition` publishes that None where the model publishes "" (charm-slurmd/src/charm.py:270-281).
- The controller charm's `slurmd_available` flag is kept on the `Slurmd` object rather than in the controller charm's stored state. Its stored default is not part of this model; the constructor starts it at false.
