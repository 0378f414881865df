/** The `run` method of the DiscoverVMs NetBox script: walk the vCenter inventory and
    create a VirtualMachine per VM, and an Interface and an IPAddress per qualifying
    IPv4 entry of its guest adapters, counting what it creates. */
module DiscoverVms {
  import opened Inventory
  import opened Text
  import opened Records
  import opened Discovery
  import opened Reconcile
  import opened NetBox

  /** The loop over one adapter's IP entries. `num`, `intCount` and `ipCount` are the
      running counters on entry; the updated ones are returned. */
  method CreateEntries(store: Store, vmId: nat, vmName: string, nic: GuestNic, entries: seq<IpEntry>,
                       num: nat, intCount: nat, ipCount: nat)
    returns (num': nat, intCount': nat, ipCount': nat)
    requires store.Valid() && vmId < |store.vms|
    modifies store
    ensures store.Valid()
    ensures store.State() == Apply(old(store.State()), vmId, EntryRecords(vmName, nic, entries, num))
    ensures num' == num + |EntryRecords(vmName, nic, entries, num)|
    ensures intCount' == intCount + |EntryRecords(vmName, nic, entries, num)|
    ensures ipCount' == ipCount + |EntryRecords(vmName, nic, entries, num)|
  {
    ghost var goal := Apply(store.State(), vmId, EntryRecords(vmName, nic, entries, num));
    ghost var total := |EntryRecords(vmName, nic, entries, num)|;
    num', intCount', ipCount' := num, intCount, ipCount;
    for e := 0 to |entries|
      invariant store.Valid() && store.vms == old(store.vms)
      invariant Apply(store.State(), vmId, EntryRecords(vmName, nic, entries[e..], num')) == goal
      invariant num' + |EntryRecords(vmName, nic, entries[e..], num')| == num + total
      invariant intCount' + num == intCount + num' && ipCount' + num == ipCount + num'
    {
      var ip := entries[e];
      assert entries[e..][0] == ip && entries[e..][1..] == entries[e + 1..];
      if !LooksIpv6(ip) {
        var ipv4c := Cidr(ip);
        var nicDescription := NetworkLabel(nic);
        var nicName := NicName(num');
        var intResult := store.SaveInterface(InterfaceRecord(vmId, nicName, nicDescription, Virtual, nic.macAddress));
        intCount' := intCount' + 1;
        store.SaveIp(IpRecord(4, ipv4c, IpDescription(vmName, nicName), intResult));
        ipCount' := ipCount' + 1;
        num' := num' + 1;
      }
    }
  }

  /** The body of the adapter loop: an adapter without a network, without an IP
      configuration or without an address list is passed over. */
  method CreateNic(store: Store, vmId: nat, vmName: string, nic: GuestNic, num: nat, intCount: nat, ipCount: nat)
    returns (num': nat, intCount': nat, ipCount': nat)
    requires store.Valid() && vmId < |store.vms|
    modifies store
    ensures store.Valid()
    ensures store.State() == Apply(old(store.State()), vmId, NicPlan(vmName, nic, num))
    ensures num' == num + |NicPlan(vmName, nic, num)|
    ensures intCount' + |old(store.interfaces)| == intCount + |store.interfaces|
    ensures ipCount' + |old(store.ips)| == ipCount + |store.ips|
  {
    num', intCount', ipCount' := num, intCount, ipCount;
    if HasNetwork(nic) {
      if nic.ipConfig.Some? && nic.ipConfig.value.ipAddress.Some? {
        var ipconf := nic.ipConfig.value.ipAddress.value;
        num', intCount', ipCount' := CreateEntries(store, vmId, vmName, nic, ipconf, num, intCount, ipCount);
      }
    }
  }

  /** The loop over one VM's guest adapters; `num` runs on across adapters. */
  method CreateNics(store: Store, vmId: nat, vmName: string, nics: seq<GuestNic>,
                    num: nat, intCount: nat, ipCount: nat)
    returns (intCount': nat, ipCount': nat)
    requires store.Valid() && vmId < |store.vms|
    modifies store
    ensures store.Valid()
    ensures store.State() == Apply(old(store.State()), vmId, NicRecords(vmName, nics, num))
    ensures intCount' + |old(store.interfaces)| == intCount + |store.interfaces|
    ensures ipCount' + |old(store.ips)| == ipCount + |store.ips|
  {
    ghost var s1 := store.State();
    ghost var goal := Apply(s1, vmId, NicRecords(vmName, nics, num));
    intCount', ipCount' := intCount, ipCount;
    var num': nat := num;
    assert nics[0..] == nics;
    for n := 0 to |nics|
      invariant store.Valid() && store.vms == s1.vms
      invariant Apply(store.State(), vmId, NicRecords(vmName, nics[n..], num')) == goal
      invariant intCount' + |s1.interfaces| == intCount + |store.interfaces|
      invariant ipCount' + |s1.ips| == ipCount + |store.ips|
    {
      ghost var before, numBefore := store.State(), num';
      num', intCount', ipCount' := CreateNic(store, vmId, vmName, nics[n], num', intCount', ipCount');
      ApplyNicsStep(before, store.State(), vmId, vmName, nics, n, numBefore, goal);
    }
  }

  /** The body of the VM loop: save the VM, read it back, then walk its adapters with
      the interface counter starting at 1. Returns false, having changed nothing, when
      the VM's name is taken. */
  method CreateVm(vm: Vm, cluster: ClusterRef, store: Store, intCount: nat, ipCount: nat)
    returns (created: bool, intCount': nat, ipCount': nat)
    requires store.Valid()
    modifies store
    ensures store.Valid()
    ensures created == (vm.name !in Names(old(store.State())))
    ensures store.State() == if created then AddVm(old(store.State()), vm, cluster) else old(store.State())
    ensures intCount' + |old(store.interfaces)| == intCount + |store.interfaces|
    ensures ipCount' + |old(store.ips)| == ipCount + |store.ips|
  {
    ghost var s0 := store.State();
    intCount', ipCount' := intCount, ipCount;
    created := store.SaveVm(VmRecordOf(vm, cluster));
    if !created {
      return;
    }
    ghost var s1 := StoreState(s0.vms + [VmRecordOf(vm, cluster)], s0.interfaces, s0.ips);
    assert store.State() == s1;
    assert store.vms[|s0.vms|].name == vm.name;
    var vmResult := store.FindVm(vm.name);
    assert vmResult == |s0.vms|;
    intCount', ipCount' := CreateNics(store, vmResult, vm.name, vm.nics, 1, intCount', ipCount');
    assert store.State() == Apply(s1, |s0.vms|, NicRecords(vm.name, vm.nics, 1));
  }

  /** The VM loop over one host. `stopped` names the VM whose name was taken, if one
      was; the counters are threaded through. */
  method WalkHost(host: Host, cluster: ClusterRef, store: Store, vmCount: nat, intCount: nat, ipCount: nat)
    returns (stopped: Option<string>, vmCount': nat, intCount': nat, ipCount': nat)
    requires store.Valid()
    modifies store
    ensures store.Valid()
    ensures Walk(store.State(), stopped) == ReconcileVms(host.vms, cluster, old(store.State()))
    ensures vmCount' + |old(store.vms)| == vmCount + |store.vms|
    ensures intCount' + |old(store.interfaces)| == intCount + |store.interfaces|
    ensures ipCount' + |old(store.ips)| == ipCount + |store.ips|
  {
    ghost var s0 := store.State();
    var vms := host.vms;
    vmCount', intCount', ipCount' := vmCount, intCount, ipCount;
    assert vms[0..] == vms;
    for m := 0 to |vms|
      invariant store.Valid()
      invariant ReconcileVms(vms[m..], cluster, store.State()) == ReconcileVms(vms, cluster, s0)
      invariant vmCount' + |s0.vms| == vmCount + |store.vms|
      invariant intCount' + |s0.interfaces| == intCount + |store.interfaces|
      invariant ipCount' + |s0.ips| == ipCount + |store.ips|
    {
      var vm := vms[m];
      assert vms[m..] == [vm] + vms[m + 1..];
      ReconcileVmsStep(vm, vms[m + 1..], cluster, store.State());
      var created;
      created, intCount', ipCount' := CreateVm(vm, cluster, store, intCount', ipCount');
      if !created {
        return Some(vm.name), vmCount', intCount', ipCount';
      }
      vmCount' := vmCount' + 1;
    }
    stopped := None;
  }

  /** The host loop over one cluster. */
  method WalkCluster(cl: Cluster, cluster: ClusterRef, store: Store, vmCount: nat, intCount: nat, ipCount: nat)
    returns (stopped: Option<string>, vmCount': nat, intCount': nat, ipCount': nat)
    requires store.Valid()
    modifies store
    ensures store.Valid()
    ensures Walk(store.State(), stopped) == ReconcileVms(HostsVms(cl.hosts), cluster, old(store.State()))
    ensures vmCount' + |old(store.vms)| == vmCount + |store.vms|
    ensures intCount' + |old(store.interfaces)| == intCount + |store.interfaces|
    ensures ipCount' + |old(store.ips)| == ipCount + |store.ips|
  {
    ghost var s0 := store.State();
    var hosts := cl.hosts;
    vmCount', intCount', ipCount' := vmCount, intCount, ipCount;
    assert hosts[0..] == hosts;
    for h := 0 to |hosts|
      invariant store.Valid()
      invariant ReconcileVms(HostsVms(hosts[h..]), cluster, store.State()) == ReconcileVms(HostsVms(hosts), cluster, s0)
      invariant vmCount' + |s0.vms| == vmCount + |store.vms|
      invariant intCount' + |s0.interfaces| == intCount + |store.interfaces|
      invariant ipCount' + |s0.ips| == ipCount + |store.ips|
    {
      HostsVmsStep(hosts, h, []);
      assert HostsVms(hosts[h..]) == hosts[h].vms + HostsVms(hosts[h + 1..]);
      ReconcileVmsAppend(hosts[h].vms, HostsVms(hosts[h + 1..]), cluster, store.State());
      stopped, vmCount', intCount', ipCount' := WalkHost(hosts[h], cluster, store, vmCount', intCount', ipCount');
      if stopped.Some? {
        return;
      }
    }
    assert hosts[|hosts|..] == [];
    stopped := None;
  }

  /** `run`: `session` is the inventory behind a successful connection, None when the
      connection fails; `cluster` is the operator-chosen cluster. The datacenter and
      cluster loops are here, the host loop in WalkCluster, the VM loop in WalkHost.
      `summary` is the closing log line, written only once the whole walk is done. */
  method Run(session: Option<seq<Datacenter>>, cluster: ClusterRef, store: Store)
    returns (outcome: RunOutcome, summary: Option<string>)
    requires store.Valid()
    modifies store
    ensures store.Valid()
    ensures RunResult(outcome, store.State()) == RunSpec(session, cluster, old(store.State()))
    ensures outcome.Completed? <==> summary.Some?
    ensures outcome.Completed? ==> summary == Some(SummaryLine(outcome.vmCount, outcome.ipCount, outcome.intCount))
  {
    summary := None;
    if session.None? {
      return ConnectionFailed, summary;
    }
    var children := session.value;
    ghost var s0 := store.State();
    ghost var goal := ReconcileVms(AllVms(children), cluster, s0);
    var vmCount: nat, ipCount: nat, intCount: nat := 0, 0, 0;
    assert children[0..] == children;
    for d := 0 to |children|
      invariant store.Valid()
      invariant ReconcileVms(AllVms(children[d..]), cluster, store.State()) == goal
      invariant vmCount + |s0.vms| == |store.vms| && intCount + |s0.interfaces| == |store.interfaces| && ipCount + |s0.ips| == |store.ips|
    {
      var clusters := children[d].clusters;
      ghost var afterDc := AllVms(children[d + 1..]);
      AllVmsStep(children, d);
      assert clusters[0..] == clusters;
      for c := 0 to |clusters|
        invariant store.Valid()
        invariant ReconcileVms(ClustersVms(clusters[c..]) + afterDc, cluster, store.State()) == goal
        invariant vmCount + |s0.vms| == |store.vms| && intCount + |s0.interfaces| == |store.interfaces| && ipCount + |s0.ips| == |store.ips|
      {
        ClustersVmsStep(clusters, c, afterDc);
        ReconcileVmsAppend(HostsVms(clusters[c].hosts), ClustersVms(clusters[c + 1..]) + afterDc, cluster, store.State());
        var stopped;
        stopped, vmCount, intCount, ipCount := WalkCluster(clusters[c], cluster, store, vmCount, intCount, ipCount);
        if stopped.Some? {
          return DuplicateVm(stopped.value), summary;
        }
      }
      assert ClustersVms(clusters[|clusters|..]) + afterDc == afterDc;
    }
    assert children[|children|..] == [];
    summary := Some(SummaryLine(vmCount, ipCount, intCount));
    return Completed(vmCount, ipCount, intCount), summary;
  }

  /** The closing log line: the counters in the order VMs, IPs, interfaces. */
  function SummaryLine(vmCount: nat, ipCount: nat, intCount: nat): string {
    "Created " + (NatToString(vmCount) + (" VMs, " + (NatToString(ipCount) + (" IPs, and " + (NatToString(intCount) + " interfaces.")))))
  }

  /** The summary line determines the three counters, each in its own place. */
  lemma SummaryLineReadsBack(vmCount: nat, ipCount: nat, intCount: nat, vmCount': nat, ipCount': nat, intCount': nat)
    requires SummaryLine(vmCount, ipCount, intCount) == SummaryLine(vmCount', ipCount', intCount')
    ensures vmCount == vmCount' && ipCount == ipCount' && intCount == intCount'
  {
    ThreeNumbersReadBack("Created ", " VMs, ", " IPs, and ", " interfaces.", vmCount, ipCount, intCount, vmCount', ipCount', intCount');
  }
}
