/** What one run of the script does to the NetBox store, as functions of the inventory
    and of the store's contents before the run. */
module Reconcile {
  import opened Inventory
  import opened Text
  import opened Records
  import opened Discovery

  function ToInterface(vmId: nat, a: AdapterRecord): InterfaceRecord {
    InterfaceRecord(vmId, a.ifName, a.network, Virtual, a.macAddress)
  }

  /** family '4', the "address/prefix" text, "vmName - NICn", linked to `ifaceId`. */
  function ToIp(ifaceId: nat, a: AdapterRecord): IpRecord {
    IpRecord(4, a.cidr, a.ipDescription, ifaceId)
  }

  /** For each planned record in turn: save the interface of VM `vmId`, read it back,
      then save the IP address linked to it. */
  function Apply(st: StoreState, vmId: nat, plan: seq<AdapterRecord>): (r: StoreState)
    ensures r.vms == st.vms
    ensures |r.interfaces| == |st.interfaces| + |plan|
    ensures |r.ips| == |st.ips| + |plan|
    decreases |plan|
  {
    if plan == [] then st
    else
      var ifaceId := |st.interfaces|;
      Apply(StoreState(st.vms, st.interfaces + [ToInterface(vmId, plan[0])], st.ips + [ToIp(ifaceId, plan[0])]), vmId, plan[1..])
  }

  /** Applying a plan only appends: the records already there are kept as they were. */
  lemma {:induction false} ApplyExtends(st: StoreState, vmId: nat, plan: seq<AdapterRecord>)
    ensures Extends(Apply(st, vmId, plan), st)
    decreases |plan|
  {
    if plan != [] {
      var st' := StoreState(st.vms, st.interfaces + [ToInterface(vmId, plan[0])], st.ips + [ToIp(|st.interfaces|, plan[0])]);
      ApplyExtends(st', vmId, plan[1..]);
    }
  }

  /** The k-th planned record becomes the k-th new interface and the k-th new IP
      address, linked to that interface. */
  lemma {:induction false} ApplyAt(st: StoreState, vmId: nat, plan: seq<AdapterRecord>, k: nat)
    requires k < |plan|
    ensures Apply(st, vmId, plan).interfaces[|st.interfaces| + k] == ToInterface(vmId, plan[k])
    ensures Apply(st, vmId, plan).ips[|st.ips| + k] == ToIp(|st.interfaces| + k, plan[k])
    decreases |plan|
  {
    var st' := StoreState(st.vms, st.interfaces + [ToInterface(vmId, plan[0])], st.ips + [ToIp(|st.interfaces|, plan[0])]);
    if k == 0 {
      ApplyExtends(st', vmId, plan[1..]);
    } else {
      ApplyAt(st', vmId, plan[1..], k - 1);
      assert plan[1..][k - 1] == plan[k];
    }
  }

  lemma ApplyShape(st: StoreState, vmId: nat, plan: seq<AdapterRecord>)
    ensures forall k :: 0 <= k < |plan| ==> Apply(st, vmId, plan).interfaces[|st.interfaces| + k] == ToInterface(vmId, plan[k])
    ensures forall k :: 0 <= k < |plan| ==> Apply(st, vmId, plan).ips[|st.ips| + k] == ToIp(|st.interfaces| + k, plan[k])
  {
    forall k | 0 <= k < |plan| {
      ApplyAt(st, vmId, plan, k);
    }
  }

  lemma {:induction false} ApplyAppend(st: StoreState, vmId: nat, a: seq<AdapterRecord>, b: seq<AdapterRecord>)
    ensures Apply(st, vmId, a + b) == Apply(Apply(st, vmId, a), vmId, b)
    decreases |a|
  {
    if a == [] {
      assert a + b == b;
    } else {
      var st' := StoreState(st.vms, st.interfaces + [ToInterface(vmId, a[0])], st.ips + [ToIp(|st.interfaces|, a[0])]);
      assert (a + b)[0] == a[0] && (a + b)[1..] == a[1..] + b;
      ApplyAppend(st', vmId, a[1..], b);
    }
  }

  /** One step of the adapter loop, on the store: once the current adapter's records
      are applied, what is left to apply is the records of the adapters after it. */
  lemma ApplyNicsStep(before: StoreState, after: StoreState, vmId: nat, vmName: string, nics: seq<GuestNic>,
                      n: nat, num: nat, goal: StoreState)
    requires n < |nics|
    requires Apply(before, vmId, NicRecords(vmName, nics[n..], num)) == goal
    requires after == Apply(before, vmId, NicPlan(vmName, nics[n], num))
    ensures Apply(after, vmId, NicRecords(vmName, nics[n + 1..], num + |NicPlan(vmName, nics[n], num)|)) == goal
  {
    var plan := NicPlan(vmName, nics[n], num);
    NicRecordsStep(vmName, nics, n, num);
    ApplyThen(before, after, vmId, plan, NicRecords(vmName, nics[n + 1..], num + |plan|), goal);
  }

  /** Once the first part of a plan is applied, what is left is the rest of it. */
  lemma ApplyThen(before: StoreState, after: StoreState, vmId: nat, plan: seq<AdapterRecord>, rest: seq<AdapterRecord>, goal: StoreState)
    requires Apply(before, vmId, plan + rest) == goal
    requires after == Apply(before, vmId, plan)
    ensures Apply(after, vmId, rest) == goal
  {
    ApplyAppend(before, vmId, plan, rest);
  }

  /** Save the VirtualMachine record of `vm`, then its interfaces and IP addresses; the
      interface counter starts again at 1. */
  function AddVm(s: StoreState, vm: Vm, cluster: ClusterRef): (r: StoreState)
    ensures Extends(r, s)
  {
    ApplyExtends(StoreState(s.vms + [VmRecordOf(vm, cluster)], s.interfaces, s.ips), |s.vms|, NicRecords(vm.name, vm.nics, 1));
    Apply(StoreState(s.vms + [VmRecordOf(vm, cluster)], s.interfaces, s.ips), |s.vms|, NicRecords(vm.name, vm.nics, 1))
  }

  /** The store after a walk, and the VM name that stopped it, if any. */
  datatype Walk = Walk(store: StoreState, duplicate: Option<string>)

  /** The VMs in traversal order: each one is saved with its interfaces and IP
      addresses, until one whose name is already taken stops the walk. Nothing saved
      before that point is undone. */
  function ReconcileVms(vms: seq<Vm>, cluster: ClusterRef, s: StoreState): (w: Walk)
    ensures Extends(w.store, s)
    ensures |w.store.ips| - |s.ips| == |w.store.interfaces| - |s.interfaces|
    decreases |vms|
  {
    if vms == [] then Walk(s, None)
    else if vms[0].name in Names(s) then Walk(s, Some(vms[0].name))
    else ReconcileVms(vms[1..], cluster, AddVm(s, vms[0], cluster))
  }

  lemma ReconcileVmsStep(vm: Vm, rest: seq<Vm>, cluster: ClusterRef, s: StoreState)
    ensures ReconcileVms([vm] + rest, cluster, s) ==
      if vm.name in Names(s) then Walk(s, Some(vm.name)) else ReconcileVms(rest, cluster, AddVm(s, vm, cluster))
  {
    assert ([vm] + rest)[0] == vm && ([vm] + rest)[1..] == rest;
  }

  /** Walking two lists of VMs one after the other is walking the first, then, unless it
      stopped, the second from where the first left the store. */
  lemma {:induction false} ReconcileVmsAppend(a: seq<Vm>, b: seq<Vm>, cluster: ClusterRef, s: StoreState)
    ensures ReconcileVms(a + b, cluster, s) ==
      var w := ReconcileVms(a, cluster, s);
      if w.duplicate.Some? then w else ReconcileVms(b, cluster, w.store)
    decreases |a|
  {
    if a == [] {
      assert a + b == b;
    } else {
      ReconcileVmsStep(a[0], a[1..] + b, cluster, s);
      assert a + b == [a[0]] + (a[1..] + b);
      if a[0].name !in Names(s) {
        ReconcileVmsAppend(a[1..], b, cluster, AddVm(s, a[0], cluster));
      }
    }
  }

  /** How a run ends: `run` returns -1 when it cannot connect; a taken VM name raises
      out of `run`; otherwise the three counters are reported. */
  datatype RunOutcome = ConnectionFailed | DuplicateVm(name: string) | Completed(vmCount: nat, ipCount: nat, intCount: nat)

  datatype RunResult = RunResult(outcome: RunOutcome, store: StoreState)

  /** One run against the inventory the session sees (None: the connection failed). */
  function RunSpec(session: Option<seq<Datacenter>>, cluster: ClusterRef, s: StoreState): (r: RunResult)
    ensures Extends(r.store, s)
    ensures r.outcome.Completed? ==> r.outcome.ipCount == r.outcome.intCount
    ensures r.outcome.Completed? ==> r.outcome.vmCount + |s.vms| == |r.store.vms| && r.outcome.intCount + |s.interfaces| == |r.store.interfaces|
  {
    match session
    case None => RunResult(ConnectionFailed, s)
    case Some(dcs) =>
      var w := ReconcileVms(AllVms(dcs), cluster, s);
      if w.duplicate.Some? then RunResult(DuplicateVm(w.duplicate.value), w.store)
      else RunResult(Completed(|w.store.vms| - |s.vms|, |w.store.ips| - |s.ips|, |w.store.interfaces| - |s.interfaces|), w.store)
  }

  // ---------------------------------------------------------------------------
  // One VM

  lemma NamesOfAddVm(s: StoreState, vm: Vm, cluster: ClusterRef)
    ensures Names(AddVm(s, vm, cluster)) == Names(s) + {vm.name}
  {
    VmNamesOfAppend(s.vms, VmRecordOf(vm, cluster));
  }

  /** What saving one VM adds: its record, with the operator's cluster and status
      active; then one interface and one IP address per qualifying IPv4 entry, in
      discovery order, named NIC1, NIC2, ... The k-th interface belongs to the new VM and
      carries its adapter's MAC address and network label; the k-th IP address holds the
      entry's "address/prefix", is described "vmName - NICk" and is linked to the k-th
      interface. */
  lemma AddVmShape(s: StoreState, vm: Vm, cluster: ClusterRef)
    ensures AddVm(s, vm, cluster).vms == s.vms + [VmRecord(vm.name, cluster, Active, vm.numCpu, vm.memorySizeMB, DiskGb(vm.committed))]
    ensures |AddVm(s, vm, cluster).interfaces| == |s.interfaces| + |QualifyingEntries(vm.nics)|
    ensures |AddVm(s, vm, cluster).ips| == |s.ips| + |QualifyingEntries(vm.nics)|
    ensures forall k :: 0 <= k < |QualifyingEntries(vm.nics)| ==>
      AddVm(s, vm, cluster).interfaces[|s.interfaces| + k] ==
        InterfaceRecord(|s.vms|, NicName(1 + k), NetworkLabel(QualifyingEntries(vm.nics)[k].nic), Virtual,
                        QualifyingEntries(vm.nics)[k].nic.macAddress)
    ensures forall k :: 0 <= k < |QualifyingEntries(vm.nics)| ==>
      AddVm(s, vm, cluster).ips[|s.ips| + k] ==
        IpRecord(4, Cidr(QualifyingEntries(vm.nics)[k].entry), vm.name + " - " + NicName(1 + k), |s.interfaces| + k)
  {
    NicRecordsNumbered(vm.name, vm.nics, 1);
    forall k | 0 <= k < |QualifyingEntries(vm.nics)| {
      AddVmAt(s, vm, cluster, k);
    }
  }

  /** The k-th interface and IP address saved for `vm`. */
  lemma AddVmAt(s: StoreState, vm: Vm, cluster: ClusterRef, k: nat)
    requires k < |QualifyingEntries(vm.nics)|
    ensures |AddVm(s, vm, cluster).interfaces| == |s.interfaces| + |QualifyingEntries(vm.nics)|
    ensures |AddVm(s, vm, cluster).ips| == |s.ips| + |QualifyingEntries(vm.nics)|
    ensures AddVm(s, vm, cluster).interfaces[|s.interfaces| + k] ==
      InterfaceRecord(|s.vms|, NicName(1 + k), NetworkLabel(QualifyingEntries(vm.nics)[k].nic), Virtual,
                      QualifyingEntries(vm.nics)[k].nic.macAddress)
    ensures AddVm(s, vm, cluster).ips[|s.ips| + k] ==
      IpRecord(4, Cidr(QualifyingEntries(vm.nics)[k].entry), vm.name + " - " + NicName(1 + k), |s.interfaces| + k)
  {
    var plan := NicRecords(vm.name, vm.nics, 1);
    var qs := QualifyingEntries(vm.nics);
    var s1 := StoreState(s.vms + [VmRecordOf(vm, cluster)], s.interfaces, s.ips);
    assert AddVm(s, vm, cluster) == Apply(s1, |s.vms|, plan);
    NicRecordsAt(vm.name, vm.nics, 1, k);
    ApplyAt(s1, |s.vms|, plan, k);
  }

  // ---------------------------------------------------------------------------
  // The whole walk

  predicate DistinctNames(vms: seq<Vm>) {
    forall i, j :: 0 <= i < j < |vms| ==> vms[i].name != vms[j].name
  }

  predicate FreshNames(vms: seq<Vm>, s: StoreState) {
    forall i :: 0 <= i < |vms| ==> vms[i].name !in Names(s)
  }

  /** The VirtualMachine records for a list of VMs, in order. */
  function VmRecords(vms: seq<Vm>, cluster: ClusterRef): seq<VmRecord> {
    seq(|vms|, k requires 0 <= k < |vms| => VmRecordOf(vms[k], cluster))
  }

  /** The number of qualifying IPv4 entries over a list of VMs. */
  function QualifyingCount(vms: seq<Vm>): nat {
    if vms == [] then 0 else |QualifyingEntries(vms[0].nics)| + QualifyingCount(vms[1..])
  }

  lemma FreshAfterAddVm(vms: seq<Vm>, s: StoreState, cluster: ClusterRef)
    requires vms != []
    ensures DistinctNames(vms) && FreshNames(vms, s) <==>
      vms[0].name !in Names(s) && DistinctNames(vms[1..]) && FreshNames(vms[1..], AddVm(s, vms[0], cluster))
  {
    NamesOfAddVm(s, vms[0], cluster);
    var rest := vms[1..];
    if vms[0].name !in Names(s) && DistinctNames(rest) && FreshNames(rest, AddVm(s, vms[0], cluster)) {
      forall i, j | 0 <= i < j < |vms| ensures vms[i].name != vms[j].name {
        assert vms[j] == rest[j - 1];
        if i > 0 {
          assert vms[i] == rest[i - 1];
        }
      }
      forall i | 0 <= i < |vms| ensures vms[i].name !in Names(s) {
        if i > 0 {
          assert vms[i] == rest[i - 1];
        }
      }
    }
    if DistinctNames(vms) && FreshNames(vms, s) {
      forall i, j | 0 <= i < j < |rest| ensures rest[i].name != rest[j].name {
        assert rest[i] == vms[i + 1] && rest[j] == vms[j + 1];
      }
      forall i | 0 <= i < |rest| ensures rest[i].name !in Names(AddVm(s, vms[0], cluster)) {
        assert rest[i] == vms[i + 1];
      }
    }
  }

  /** The walk gets through every VM exactly when no two of them share a name and none
      of their names is already taken in the store. */
  lemma {:induction false} ReconcileCompletesIff(vms: seq<Vm>, cluster: ClusterRef, s: StoreState)
    ensures ReconcileVms(vms, cluster, s).duplicate.None? <==> DistinctNames(vms) && FreshNames(vms, s)
    decreases |vms|
  {
    if vms != [] {
      FreshAfterAddVm(vms, s, cluster);
      if vms[0].name !in Names(s) {
        ReconcileCompletesIff(vms[1..], cluster, AddVm(s, vms[0], cluster));
      } else {
        assert !FreshNames(vms, s);
      }
    }
  }

  /** A walk that gets through saves one VirtualMachine record per VM, in traversal
      order, and one interface per qualifying IPv4 entry. */
  lemma {:induction false} ReconcileCreatesEveryVm(vms: seq<Vm>, cluster: ClusterRef, s: StoreState)
    requires DistinctNames(vms) && FreshNames(vms, s)
    ensures ReconcileVms(vms, cluster, s).duplicate == None
    ensures ReconcileVms(vms, cluster, s).store.vms == s.vms + VmRecords(vms, cluster)
    ensures |ReconcileVms(vms, cluster, s).store.interfaces| == |s.interfaces| + QualifyingCount(vms)
    decreases |vms|
  {
    if vms != [] {
      var s' := AddVm(s, vms[0], cluster);
      FreshAfterAddVm(vms, s, cluster);
      AddVmShape(s, vms[0], cluster);
      ReconcileCreatesEveryVm(vms[1..], cluster, s');
      assert VmRecords(vms, cluster) == [VmRecordOf(vms[0], cluster)] + VmRecords(vms[1..], cluster);
    }
  }

  /** A VM whose name is taken (in the store, or by a VM saved earlier in the walk)
      stops the walk there: the VMs before it stay saved and nothing after it is. */
  lemma {:induction false} ReconcileStopsAtDuplicate(before: seq<Vm>, vm: Vm, after: seq<Vm>, cluster: ClusterRef, s: StoreState)
    requires DistinctNames(before) && FreshNames(before, s)
    requires vm.name in Names(s) || exists i :: 0 <= i < |before| && before[i].name == vm.name
    ensures ReconcileVms(before + [vm] + after, cluster, s) == Walk(ReconcileVms(before, cluster, s).store, Some(vm.name))
    decreases |before|
  {
    if before == [] {
      assert before + [vm] + after == [vm] + after;
    } else {
      var s' := AddVm(s, before[0], cluster);
      var rest := before[1..];
      FreshAfterAddVm(before, s, cluster);
      NamesOfAddVm(s, before[0], cluster);
      assert (before + [vm] + after)[0] == before[0] && (before + [vm] + after)[1..] == rest + [vm] + after;
      if vm.name !in Names(s') {
        var i :| 0 <= i < |before| && before[i].name == vm.name;
        assert i > 0;
        assert rest[i - 1].name == vm.name;
      }
      ReconcileStopsAtDuplicate(rest, vm, after, cluster, s');
    }
  }

  // ---------------------------------------------------------------------------
  // Links between records

  /** IP address `k` is assigned to an existing interface of an existing VM, and its
      description names that VM and that interface. */
  predicate IpLinked(st: StoreState, k: nat)
    requires k < |st.ips|
  {
    var ip := st.ips[k];
    ip.iface < |st.interfaces| && st.interfaces[ip.iface].vm < |st.vms| &&
    ip.description == IpDescription(st.vms[st.interfaces[ip.iface].vm].name, st.interfaces[ip.iface].name)
  }

  /** Since `before`, as many IP addresses as interfaces were added, the j-th new IP
      address being linked to the j-th new interface. */
  predicate PairedSince(st: StoreState, before: StoreState)
    requires Extends(st, before)
  {
    |st.ips| - |before.ips| == |st.interfaces| - |before.interfaces| &&
    forall k :: |before.ips| <= k < |st.ips| ==>
      st.ips[k].iface + |before.ips| == |before.interfaces| + k && IpLinked(st, k)
  }

  lemma IpLinkedKept(st: StoreState, st': StoreState, k: nat)
    requires Extends(st', st) && k < |st.ips| && IpLinked(st, k)
    ensures IpLinked(st', k)
  {
    assert st'.ips[k] == st.ips[k];
    var f := st.ips[k].iface;
    assert st'.interfaces[f] == st.interfaces[f];
    assert st'.vms[st.interfaces[f].vm] == st.vms[st.interfaces[f].vm];
  }

  lemma PairedSinceTrans(s1: StoreState, s2: StoreState, s3: StoreState)
    requires Extends(s2, s1) && Extends(s3, s2) && PairedSince(s2, s1) && PairedSince(s3, s2)
    ensures Extends(s3, s1) && PairedSince(s3, s1)
  {
    forall k | |s1.ips| <= k < |s3.ips|
      ensures s3.ips[k].iface + |s1.ips| == |s1.interfaces| + k && IpLinked(s3, k)
    {
      if k < |s2.ips| {
        assert s3.ips[k] == s2.ips[k];
        IpLinkedKept(s2, s3, k);
      }
    }
  }

  lemma ApplyPairs(st: StoreState, vmId: nat, vmName: string, plan: seq<AdapterRecord>)
    requires vmId < |st.vms| && st.vms[vmId].name == vmName
    requires forall k :: 0 <= k < |plan| ==> plan[k].ipDescription == IpDescription(vmName, plan[k].ifName)
    ensures Extends(Apply(st, vmId, plan), st) && PairedSince(Apply(st, vmId, plan), st)
    ensures WellFormed(st) ==> WellFormed(Apply(st, vmId, plan))
  {
    var r := Apply(st, vmId, plan);
    ApplyShape(st, vmId, plan);
    ApplyExtends(st, vmId, plan);
    forall k | |st.ips| <= k < |r.ips|
      ensures r.ips[k].iface + |st.ips| == |st.interfaces| + k && IpLinked(r, k)
    {
      var j := k - |st.ips|;
      assert r.ips[|st.ips| + j] == ToIp(|st.interfaces| + j, plan[j]);
      assert r.interfaces[|st.interfaces| + j] == ToInterface(vmId, plan[j]);
    }
    if WellFormed(st) {
      forall k | 0 <= k < |r.interfaces| ensures r.interfaces[k].vm < |r.vms| {
        if k >= |st.interfaces| {
          assert r.interfaces[|st.interfaces| + (k - |st.interfaces|)] == ToInterface(vmId, plan[k - |st.interfaces|]);
        } else {
          assert r.interfaces[k] == st.interfaces[k];
        }
      }
      forall k | 0 <= k < |r.ips| ensures r.ips[k].iface < |r.interfaces| {
        if k >= |st.ips| {
          assert r.ips[|st.ips| + (k - |st.ips|)] == ToIp(|st.interfaces| + (k - |st.ips|), plan[k - |st.ips|]);
        } else {
          assert r.ips[k] == st.ips[k];
        }
      }
    }
  }

  lemma AddVmPairs(s: StoreState, vm: Vm, cluster: ClusterRef)
    requires vm.name !in Names(s)
    ensures PairedSince(AddVm(s, vm, cluster), s)
    ensures WellFormed(s) ==> WellFormed(AddVm(s, vm, cluster))
  {
    var s1 := StoreState(s.vms + [VmRecordOf(vm, cluster)], s.interfaces, s.ips);
    NicRecordsLabels(vm.name, vm.nics, 1);
    ApplyPairs(s1, |s.vms|, vm.name, NicRecords(vm.name, vm.nics, 1));
    if WellFormed(s) {
      forall i, j | 0 <= i < j < |s1.vms| ensures s1.vms[i].name != s1.vms[j].name {
        if j == |s.vms| {
          assert s1.vms[i].name == s.vms[i].name;
          assert s.vms[i].name in Names(s);
        }
      }
      assert WellFormed(s1);
    }
  }

  /** A walk keeps the store's guarantees, and pairs each new IP address with the new
      interface created just before it. */
  lemma {:induction false} ReconcileKeepsStoreSound(vms: seq<Vm>, cluster: ClusterRef, s: StoreState)
    ensures PairedSince(ReconcileVms(vms, cluster, s).store, s)
    ensures WellFormed(s) ==> WellFormed(ReconcileVms(vms, cluster, s).store)
    decreases |vms|
  {
    if vms != [] && vms[0].name !in Names(s) {
      var s' := AddVm(s, vms[0], cluster);
      AddVmPairs(s, vms[0], cluster);
      ReconcileKeepsStoreSound(vms[1..], cluster, s');
      PairedSinceTrans(s, s', ReconcileVms(vms[1..], cluster, s').store);
    }
  }

  // ---------------------------------------------------------------------------
  // The run

  /** A failed connection changes nothing and reports failure. */
  lemma RunWithoutConnection(cluster: ClusterRef, s: StoreState)
    ensures RunSpec(None, cluster, s) == RunResult(ConnectionFailed, s)
  {
  }

  /** The run completes exactly when the VM names of the whole inventory are pairwise
      distinct and none is taken in the store. */
  lemma RunCompletesIff(dcs: seq<Datacenter>, cluster: ClusterRef, s: StoreState)
    ensures RunSpec(Some(dcs), cluster, s).outcome.Completed? <==> DistinctNames(AllVms(dcs)) && FreshNames(AllVms(dcs), s)
  {
    ReconcileCompletesIff(AllVms(dcs), cluster, s);
  }

  /** A completed run saved one VirtualMachine record for every VM on every host of
      every cluster of every datacenter, all in the operator's cluster with status
      active, and reports as many VMs as the tree holds, and as many IPs and interfaces
      as it holds qualifying IPv4 entries. */
  lemma RunCreatesEveryVm(dcs: seq<Datacenter>, cluster: ClusterRef, s: StoreState)
    requires DistinctNames(AllVms(dcs)) && FreshNames(AllVms(dcs), s)
    ensures RunSpec(Some(dcs), cluster, s).outcome ==
      Completed(TreeSize(dcs), QualifyingCount(AllVms(dcs)), QualifyingCount(AllVms(dcs)))
    ensures RunSpec(Some(dcs), cluster, s).store.vms == s.vms + VmRecords(AllVms(dcs), cluster)
    ensures forall k :: |s.vms| <= k < |RunSpec(Some(dcs), cluster, s).store.vms| ==>
      RunSpec(Some(dcs), cluster, s).store.vms[k].cluster == cluster && RunSpec(Some(dcs), cluster, s).store.vms[k].status == Active
  {
    ReconcileCreatesEveryVm(AllVms(dcs), cluster, s);
    AllVmsLength(dcs);
  }

  /** A VM name that is already taken stops the run with a failure naming it; every
      record saved before it stays in the store and nothing after it is saved. */
  lemma RunStopsAtDuplicate(dcs: seq<Datacenter>, before: seq<Vm>, vm: Vm, after: seq<Vm>, cluster: ClusterRef, s: StoreState)
    requires AllVms(dcs) == before + [vm] + after
    requires DistinctNames(before) && FreshNames(before, s)
    requires vm.name in Names(s) || exists i :: 0 <= i < |before| && before[i].name == vm.name
    ensures RunSpec(Some(dcs), cluster, s) == RunResult(DuplicateVm(vm.name), ReconcileVms(before, cluster, s).store)
    ensures RunSpec(Some(dcs), cluster, s).store.vms == s.vms + VmRecords(before, cluster)
  {
    ReconcileStopsAtDuplicate(before, vm, after, cluster, s);
    ReconcileCreatesEveryVm(before, cluster, s);
  }

  /** Whatever its outcome, a run keeps the store's guarantees (unique VM names, no
      dangling reference), and each IP address it saves is linked to the interface
      saved just before it and described by that interface's VM and name. */
  lemma RunKeepsStoreSound(session: Option<seq<Datacenter>>, cluster: ClusterRef, s: StoreState)
    ensures PairedSince(RunSpec(session, cluster, s).store, s)
    ensures WellFormed(s) ==> WellFormed(RunSpec(session, cluster, s).store)
  {
    if session.Some? {
      ReconcileKeepsStoreSound(AllVms(session.value), cluster, s);
    }
  }

  // ---------------------------------------------------------------------------
  // A worked inventory

  /** One datacenter, one cluster, two hosts with one VM each: "web" reports two IPv4
      addresses and one IPv6 address on a single adapter, "db" has no adapter. */
  function SampleInventory(): seq<Datacenter> {
    var nic := GuestNic(Some("VM Network"), "00:50:56:aa:bb:cc",
                        Some(IpConfig(Some([IpEntry("10.0.0.5", 24), IpEntry("fe80::1", 64), IpEntry("10.0.1.5", 24)]))));
    [Datacenter([Cluster([Host([Vm("web", 2, 4096, 0, [nic])]), Host([Vm("db", 4, 8192, 0, [])])])])]
  }

  /** The sample VM "web": its IPv6 entry is dropped, its two IPv4 entries qualify. */
  lemma SampleQualifying()
    ensures var web := SampleInventory()[0].clusters[0].hosts[0].vms[0];
      QualifyingEntries(web.nics) ==
        [Qualified(web.nics[0], IpEntry("10.0.0.5", 24)), Qualified(web.nics[0], IpEntry("10.0.1.5", 24))]
  {
    var web := SampleInventory()[0].clusters[0].hosts[0].vms[0];
    var nic := web.nics[0];
    var entries := IpEntries(nic).value;
    assert entries[1].address[4] == ':';
    assert Ipv4Of(nic, entries[2..]) == [Qualified(nic, entries[2])];
    assert Ipv4Of(nic, entries[1..]) == Ipv4Of(nic, entries[2..]);
    assert Ipv4Of(nic, entries) == [Qualified(nic, entries[0])] + Ipv4Of(nic, entries[1..]);
    assert QualifyingEntries(web.nics) == Ipv4Of(nic, entries) + QualifyingEntries([]);
  }

  /** Saving the sample VM "web" adds its record and two interfaces, NIC1 and NIC2, that
      share the adapter's MAC address and network label. */
  lemma SampleWebAdded(s: StoreState, cluster: ClusterRef)
    ensures var s1 := AddVm(s, SampleInventory()[0].clusters[0].hosts[0].vms[0], cluster);
      s1.interfaces == s.interfaces + [InterfaceRecord(|s.vms|, "NIC1", "VM Network", Virtual, "00:50:56:aa:bb:cc"),
                                       InterfaceRecord(|s.vms|, "NIC2", "VM Network", Virtual, "00:50:56:aa:bb:cc")] &&
      |s1.ips| == |s.ips| + 2 && |s1.vms| == |s.vms| + 1
  {
    var web := SampleInventory()[0].clusters[0].hosts[0].vms[0];
    var s1 := AddVm(s, web, cluster);
    var qs := QualifyingEntries(web.nics);
    SampleQualifying();
    AddVmShape(s, web, cluster);
    assert NetworkLabel(qs[0].nic) == "VM Network" && qs[0].nic.macAddress == "00:50:56:aa:bb:cc";
    assert NicName(1) == "NIC1" && NicName(2) == "NIC2";
    AddVmAt(s, web, cluster, 1);
    assert s1.interfaces[|s.interfaces|] == InterfaceRecord(|s.vms|, "NIC1", "VM Network", Virtual, "00:50:56:aa:bb:cc");
    assert s1.interfaces[|s.interfaces| + 1] == InterfaceRecord(|s.vms|, "NIC2", "VM Network", Virtual, "00:50:56:aa:bb:cc");
    assert s1.interfaces == s.interfaces + [s1.interfaces[|s.interfaces|], s1.interfaces[|s.interfaces| + 1]];
  }

  /** On a store that holds neither name, the sample run reports 2 VMs, 2 IPs and 2
      interfaces; both interfaces of "web" carry the adapter's MAC address and are named
      NIC1 and NIC2, and "db" gets none. */
  lemma SampleRun(cluster: ClusterRef, s: StoreState)
    requires "web" !in Names(s) && "db" !in Names(s)
    ensures RunSpec(Some(SampleInventory()), cluster, s).outcome == Completed(2, 2, 2)
    ensures RunSpec(Some(SampleInventory()), cluster, s).store.interfaces ==
      s.interfaces + [InterfaceRecord(|s.vms|, "NIC1", "VM Network", Virtual, "00:50:56:aa:bb:cc"),
                      InterfaceRecord(|s.vms|, "NIC2", "VM Network", Virtual, "00:50:56:aa:bb:cc")]
  {
    var dcs := SampleInventory();
    var web, db := dcs[0].clusters[0].hosts[0].vms[0], dcs[0].clusters[0].hosts[1].vms[0];
    assert AllVms(dcs) == [web, db] by {
      assert HostsVms(dcs[0].clusters[0].hosts) == [web] + ([db] + []);
    }
    var s1 := AddVm(s, web, cluster);
    var s2 := AddVm(s1, db, cluster);
    assert ReconcileVms(AllVms(dcs), cluster, s) == Walk(s2, None) by {
      NamesOfAddVm(s, web, cluster);
      ReconcileVmsStep(web, [db], cluster, s);
      ReconcileVmsStep(db, [], cluster, s1);
    }
    SampleWebAdded(s, cluster);
    assert s2.interfaces == s1.interfaces && s2.ips == s1.ips && |s2.vms| == |s1.vms| + 1 by {
      AddVmShape(s1, db, cluster);
    }
  }
}
