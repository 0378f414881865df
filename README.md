# DiscoverVMs: traversal and reconciliation

A Dafny model of `discoverVMs.run`, the NetBox script that walks a vCenter inventory and
creates one NetBox VirtualMachine per discovered VM, and one Interface plus one
IPAddress per qualifying IPv4 entry of the VM's guest network adapters.

Layout, one module per file:

- `inventory.dfy` (`Inventory`): the vCenter tree as values (datacenter, cluster, host,
  VM, guest NIC, IP configuration, IP entry) and the VMs in the order the nested loops
  visit them.
- `records.dfy` (`Records`): the NetBox records the script writes, the store's tables
  as values, and the disk-size conversion.
- `text.dfy` (`Text`): decimal rendering of naturals (`f"{n}"`) and the facts needed to
  read a rendering back.
- `netbox.dfy` (`NetBox`): the NetBox database as a class `Store`. It has three
  append-only tables and the set of VM names already used. `save()` appends and
  `objects.get()` reads back.
- `discovery.dfy` (`Discovery`): which adapters and entries produce records, and how
  they are named. `EntryRecords`/`NicRecords` follow the script's loops with its
  running counter. `QualifyingEntries`/`Numbered` are an independent definition:
  filter first, then number. The two are proved equal.
- `reconcile.dfy` (`Reconcile`): the effect of a run on the store, as functions of the
  inventory and the store before the run (`Apply`, `AddVm`, `ReconcileVms`, `RunSpec`),
  with the properties of a run proved about them.
- `discover_vms.dfy` (`DiscoverVms`): the imperative loops. `Run` holds the datacenter
  and cluster loops, `WalkCluster` the host loop, `WalkHost` the VM loop, `CreateNics`
  the adapter loop and `CreateEntries` the IP-entry loop. Each method is proved to leave
  the store exactly as the matching specification function says.

The vCenter connection is an input: `session: Option<seq<Datacenter>>`, where `None`
means `SmartConnectNoSSL` returned nothing. The operator-chosen cluster is a
`ClusterRef` input. Interface and IP records refer to their owner by position in the
owner's table. That position is the identity `objects.get()` hands back.

Interfaces are created per qualifying IPv4 entry, not per adapter: every such entry gets
one interface and one IP. So an adapter with several IPv4 addresses yields several
interfaces with the same MAC address, named NIC1, NIC2, and so on. The model keeps
this behaviour.

## Model

| member | source | states |
|---|---|---|
| `Inventory.AllVmsLength` | scripts/discoverVM.py:73-89 | The loops visit as many VMs as the tree holds, summed host by host. |
| `Inventory.AllVmsIsTheTree` | scripts/discoverVM.py:73-89 | The datacenter/cluster/host/VM loops visit exactly the VMs that sit on some host of some cluster of some datacenter, and as many as the tree holds. |
| `Records.DiskGbBounds` | scripts/discoverVM.py:96 | The recorded disk size is the truncated number of GiB when the fraction is below 0.995, and one more when it is 0.995 or above (it shows as "1.00" at two decimals). |
| `Records.DiskGbExamples` | scripts/discoverVM.py:96 | 3.7 GiB is recorded as 3, so the step is truncation, not rounding. One byte short of 4 GiB prints as "4.00" and is recorded as 4. |
| `NetBox.Store.SaveVm` | scripts/discoverVM.py:90-98 | `VirtualMachine.save()` appends the record exactly when its name is not taken. A taken name leaves every table unchanged. The unique-name set stays equal to the names in the table. |
| `NetBox.Store.FindVm` | scripts/discoverVM.py:99 | `VirtualMachine.objects.get(name=…)` returns the one record with that name. |
| `NetBox.Store.SaveInterface` | scripts/discoverVM.py:114-123 | `Interface.save()` appends the interface of an existing VM. The read-back returns that interface's identity. Nothing else changes. |
| `NetBox.Store.SaveIp` | scripts/discoverVM.py:125-131 | `IPAddress.save()` appends an address linked to an existing interface. Nothing else changes. |
| `Discovery.NicPlan` | scripts/discoverVM.py:105-134 | One adapter's records are its colon-free entries numbered consecutively from `num`, stated through the independent filter-then-number definition. An adapter failing the network guard or either IP-configuration guard contributes none. |
| `Discovery.EntryRecords` | scripts/discoverVM.py:109-134 | The IP-entry loop creates at most one record per entry. |
| `Discovery.NicRecordsNumbered` | scripts/discoverVM.py:103-135 | The running counter `num` gives the same records as filtering first and then numbering NIC{num}, NIC{num+1}, … in discovery order. So there is one record per qualifying IPv4 entry, not one per adapter, and each carries its adapter's MAC address and network label and its entry's address. |
| `Discovery.QualifyingEntriesMembers` | scripts/discoverVM.py:105-110 | An entry produces a record exactly when its adapter has a truthy network, a non-None `ipConfig` and a non-None `ipAddress` list, and its address contains no colon. |
| `Discovery.SkippedNicContributesNothing` | scripts/discoverVM.py:105-106 | Removing an adapter that fails a guard changes no record and no interface number. |
| `Discovery.Ipv6EntryContributesNothing` | scripts/discoverVM.py:110-133 | Removing an entry containing `:` changes no record and does not move the counter. |
| `Discovery.NicRecordsAt` | scripts/discoverVM.py:111-128 | The k-th record of a VM is its k-th qualifying entry, numbered `num + k`. |
| `Discovery.NicRecordsLabels` | scripts/discoverVM.py:113-128 | Interfaces are named NIC{num}, NIC{num+1}, … in order. Each IP description is "vmName - NICn" after its own interface. |
| `Discovery.NicNamesDistinct` | scripts/discoverVM.py:113-133 | The interface names of one VM are pairwise distinct. |
| `Reconcile.Apply` | scripts/discoverVM.py:114-132 | Applying a VM's planned records keeps the VM table and adds exactly one interface and one IP per record. |
| `Reconcile.ApplyExtends` | scripts/discoverVM.py:121-131 | Saving interfaces and IPs only appends. No existing record is changed or removed. |
| `Reconcile.ApplyAt` | scripts/discoverVM.py:114-132 | The k-th record becomes the k-th new interface, owned by the VM, and the k-th new IP, linked to that interface. |
| `Reconcile.ApplyAppend` | scripts/discoverVM.py:109-134 | Applying two plans in a row is applying their concatenation. |
| `Reconcile.AddVm` | scripts/discoverVM.py:90-135 | Saving one VM with its interfaces and IPs only appends to the store. |
| `Reconcile.AddVmShape` | scripts/discoverVM.py:90-133 | One VM adds its record (operator's cluster, status active, CPUs, memory, disk) and then one interface and one IP per qualifying IPv4 entry. The k-th interface is NIC{k+1} with the adapter's MAC and network label. The k-th IP is "addr/prefix", family 4, described "vmName - NIC{k+1}" and linked to the k-th interface. |
| `Reconcile.ReconcileVms` | scripts/discoverVM.py:89-135 | The walk only appends to the store and adds as many IPs as interfaces. |
| `Reconcile.ReconcileVmsAppend` | scripts/discoverVM.py:74-89 | Walking two VM lists one after the other is walking the first, then the second unless the first stopped. |
| `Reconcile.ReconcileCompletesIff` | scripts/discoverVM.py:89-99 | The walk gets through every VM exactly when no two VMs share a name and no name is already taken. |
| `Reconcile.ReconcileCreatesEveryVm` | scripts/discoverVM.py:89-101 | A walk that gets through saves one VM record per VM, in traversal order, and one interface per qualifying entry. |
| `Reconcile.ReconcileStopsAtDuplicate` | scripts/discoverVM.py:98-99 | A taken name stops the walk at that VM. The VMs before it stay saved with their interfaces and IPs, and nothing after it is saved. |
| `Reconcile.ReconcileKeepsStoreSound` | scripts/discoverVM.py:114-132 | The walk keeps names unique and references dangling-free. Each new IP is linked to the interface saved just before it, and its description names that interface's VM and interface. |
| `Reconcile.RunSpec` | scripts/discoverVM.py:54-137 | A run only appends. In a completed run, ipCount equals intCount, and the counters equal the numbers of records added. |
| `Reconcile.RunWithoutConnection` | scripts/discoverVM.py:62-68 | A failed connection reports failure and leaves the store unchanged. |
| `Reconcile.RunCompletesIff` | scripts/discoverVM.py:74-99 | A run completes exactly when the VM names of the whole inventory are pairwise distinct and none is taken in the store. |
| `Reconcile.RunCreatesEveryVm` | scripts/discoverVM.py:74-137 | A completed run reports vmCount = number of VMs in the tree, and ipCount = intCount = number of qualifying IPv4 entries. It saves one VM record per VM, in traversal order, all in the operator's cluster with status active, with no cluster filtering. |
| `Reconcile.RunStopsAtDuplicate` | scripts/discoverVM.py:98-99 | A taken VM name ends the run with a failure naming it. The records saved before it remain, and the script itself rolls nothing back. |
| `Reconcile.RunKeepsStoreSound` | scripts/discoverVM.py:114-132 | Whatever the outcome, the store keeps unique VM names and has no dangling reference. Every IP saved is linked to the interface saved just before it. |
| `Reconcile.SampleQualifying` | scripts/discoverVM.py:105-110 | On a sample adapter with entries 10.0.0.5, fe80::1 and 10.0.1.5, only the two IPv4 entries qualify. |
| `Reconcile.SampleWebAdded` | scripts/discoverVM.py:111-123 | The sample VM's two IPv4 entries on one adapter become interfaces NIC1 and NIC2 with the same MAC address. |
| `Reconcile.SampleRun` | scripts/discoverVM.py:74-137 | One datacenter, one cluster, two hosts: one VM with two IPv4 entries on one adapter, one VM with no adapter. The run reports 2 VMs, 2 IPs and 2 interfaces. |
| `DiscoverVms.CreateEntries` | scripts/discoverVM.py:109-134 | The IP-entry loop leaves the store as `Apply` of `EntryRecords` says. It advances `num`, `intCount` and `ipCount` by the number of IPv4 entries. |
| `DiscoverVms.CreateNic` | scripts/discoverVM.py:104-107 | One adapter: the guards, then the entry loop. The store ends as `Apply` of `NicPlan`, and the counters move by what was added. |
| `DiscoverVms.CreateNics` | scripts/discoverVM.py:103-135 | The adapter loop, with `num` running on across adapters, leaves the store as `Apply` of `NicRecords` from 1. |
| `DiscoverVms.CreateVm` | scripts/discoverVM.py:90-135 | The VM loop body saves the VM, reads it back and walks its adapters, giving `AddVm`. When the name is taken, it reports so and changes nothing. |
| `DiscoverVms.WalkHost` | scripts/discoverVM.py:86-101 | The VM loop of one host ends as `ReconcileVms` of its VMs, and `vmCount` grows by the VMs saved. |
| `DiscoverVms.WalkCluster` | scripts/discoverVM.py:81-89 | The host loop of one cluster ends as `ReconcileVms` of its hosts' VMs. |
| `DiscoverVms.Run` | scripts/discoverVM.py:54-137 | `run`'s outcome and the store it leaves are exactly `RunSpec`. No connection gives failure and no change. A taken name gives an abort with the earlier records kept. Otherwise the three counters are reported. The closing summary line is written exactly when the walk completes, and it is `SummaryLine` of the counters in the order VMs, IPs, interfaces. |
| `DiscoverVms.SummaryLineReadsBack` | scripts/discoverVM.py:137 | The closing line "Created {vmCount} VMs, {ipCount} IPs, and {intCount} interfaces." determines the three counters, each in its own place. |

## Left out

- The vCenter session (`SmartConnectNoSSL`, `atexit.register(Disconnect, si)`, `RetrieveContent`). It is a foreign call and I/O, so it is modelled as the `session` input: `None` when the connection fails, otherwise the inventory it exposes.
- Django ORM internals. `save()` is an append to a table, and `objects.get()` reads back a record by position. `Interface.objects.get(name=nicName, mac_address=nic.macAddress)` is modelled as reading back the interface just saved. That interface always matches the lookup, so `get` never returns another interface. But any second match makes `get` raise: another VM's interface with the same name and MAC, two adapters with no MAC, or a device interface. That exception comes after `newInt.save()` and `intCount+1` and before the IP is saved. The store then keeps an interface without an IP, and the run ends. This abort is not modelled.
- Reconcile.RunKeepsStoreSound: its pairing of every new interface with an IP "whatever the outcome" holds only because the interface-lookup abort above is not modelled. The same goes for `ipCount == intCount` in `Reconcile.RunSpec` and `DiscoverVms.Run`. Under that abort the real store can hold one interface more than IPs.
- A duplicate VM name is modelled as `save()` refusing the record and `run` ending with `DuplicateVm(name)`. The exception type and its message are not modelled. The script itself undoes nothing. Whatever the invoking NetBox framework does around `run`, such as a surrounding database transaction being rolled back when `run` raises, is not modelled.
- `Records.DiskGb`: models `int(float("%.2f" % (committed / 1024**3)))` exactly in integer arithmetic. This is exact while `committed` is below 2^53, where the float division is exact. Larger values, which Python first rounds to a float, are not modelled.
- The `str(...)` conversions of vcpus and disk. These are type conversions for the ORM, so both are kept as numbers.
- Logging (`log_info`, `log_success`, `log_failure`) is advisory output. Only the closing summary line is modelled: `Run` returns it as `summary`, built by `SummaryLine`.
- Dead state is not modelled: the global `vmdata` dict, the unused `nics` dict and the unused counter `i`. None of them affects a record or a counter.
- NetBox script metadata and field declarations, and the unused imports `slugify` and `json`.
- The shape of the vCenter tree. Only datacenters directly under the root folder, and clusters or compute resources directly under each datacenter's host folder, are modelled. A Folder can also appear at either level (`content.rootFolder.childEntity`, `dc.hostFolder.childEntity`). A Folder has no `hostFolder` and no `host`, so the real run then ends with an AttributeError. The VMs saved so far stay, and no summary line is written. `Inventory.AllVmsIsTheTree`, `Reconcile.RunCreatesEveryVm` and `DiscoverVms.Run` speak only of trees without such folders.
- Lower-level transport faults from vCenter during the walk. The script propagates them unhandled, and the model assumes the inventory is read in full.
