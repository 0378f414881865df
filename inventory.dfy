/** The vCenter inventory as the script reads it through pyVmomi: datacenters hold
    clusters, clusters hold hosts, hosts hold virtual machines, and each virtual
    machine reports its guest network adapters with their IP configuration. */
module Inventory {

  datatype Option<+T> = None | Some(value: T)

  /** One entry of `nic.ipConfig.ipAddress`: the address text and its prefix length. */
  datatype IpEntry = IpEntry(address: string, prefixLength: nat)

  /** `nic.ipConfig`; its `ipAddress` list may itself be missing. */
  datatype IpConfig = IpConfig(ipAddress: Option<seq<IpEntry>>)

  /** One element of `vm.guest.net`. `network` is the label of the attached network,
      missing when the adapter is not connected. */
  datatype GuestNic = GuestNic(network: Option<string>, macAddress: string, ipConfig: Option<IpConfig>)

  /** The parts of `vm.summary` the script reads, and `vm.guest.net`. */
  datatype Vm = Vm(name: string, numCpu: nat, memorySizeMB: nat, committed: nat, nics: seq<GuestNic>)

  datatype Host = Host(vms: seq<Vm>)

  datatype Cluster = Cluster(hosts: seq<Host>)

  datatype Datacenter = Datacenter(clusters: seq<Cluster>)

  /** The virtual machines of a list of hosts, host by host. */
  function HostsVms(hosts: seq<Host>): seq<Vm> {
    if hosts == [] then [] else hosts[0].vms + HostsVms(hosts[1..])
  }

  /** The virtual machines of a list of clusters, cluster by cluster. */
  function ClustersVms(clusters: seq<Cluster>): seq<Vm> {
    if clusters == [] then [] else HostsVms(clusters[0].hosts) + ClustersVms(clusters[1..])
  }

  /** Every virtual machine of the inventory, in the order the nested loops visit them. */
  function AllVms(dcs: seq<Datacenter>): seq<Vm> {
    if dcs == [] then [] else ClustersVms(dcs[0].clusters) + AllVms(dcs[1..])
  }

  /** `vm` sits on some host of some cluster of some datacenter of `dcs`. */
  ghost predicate InTree(vm: Vm, dcs: seq<Datacenter>) {
    exists d, c, h :: 0 <= d < |dcs| && 0 <= c < |dcs[d].clusters| && 0 <= h < |dcs[d].clusters[c].hosts| &&
      vm in dcs[d].clusters[c].hosts[h].vms
  }

  function HostsSize(hosts: seq<Host>): nat {
    if hosts == [] then 0 else |hosts[0].vms| + HostsSize(hosts[1..])
  }

  function ClustersSize(clusters: seq<Cluster>): nat {
    if clusters == [] then 0 else HostsSize(clusters[0].hosts) + ClustersSize(clusters[1..])
  }

  /** The number of virtual machines in the inventory: the sum, over every host, of its VMs. */
  function TreeSize(dcs: seq<Datacenter>): nat {
    if dcs == [] then 0 else ClustersSize(dcs[0].clusters) + TreeSize(dcs[1..])
  }

  lemma {:induction false} HostsVmsMembers(hosts: seq<Host>, vm: Vm)
    ensures vm in HostsVms(hosts) <==> exists h :: 0 <= h < |hosts| && vm in hosts[h].vms
  {
    if hosts != [] {
      HostsVmsMembers(hosts[1..], vm);
      if vm in HostsVms(hosts[1..]) {
        var h :| 0 <= h < |hosts[1..]| && vm in hosts[1..][h].vms;
        assert vm in hosts[h + 1].vms;
      }
      if exists h :: 0 <= h < |hosts| && vm in hosts[h].vms {
        var h :| 0 <= h < |hosts| && vm in hosts[h].vms;
        if h > 0 {
          assert vm in hosts[1..][h - 1].vms;
        }
      }
    }
  }

  lemma {:induction false} ClustersVmsMembers(clusters: seq<Cluster>, vm: Vm)
    ensures vm in ClustersVms(clusters) <==>
      exists c, h :: 0 <= c < |clusters| && 0 <= h < |clusters[c].hosts| && vm in clusters[c].hosts[h].vms
  {
    if clusters != [] {
      HostsVmsMembers(clusters[0].hosts, vm);
      ClustersVmsMembers(clusters[1..], vm);
      if vm in ClustersVms(clusters[1..]) {
        var c, h :| 0 <= c < |clusters[1..]| && 0 <= h < |clusters[1..][c].hosts| && vm in clusters[1..][c].hosts[h].vms;
        assert vm in clusters[c + 1].hosts[h].vms;
      }
      if exists c, h :: 0 <= c < |clusters| && 0 <= h < |clusters[c].hosts| && vm in clusters[c].hosts[h].vms {
        var c, h :| 0 <= c < |clusters| && 0 <= h < |clusters[c].hosts| && vm in clusters[c].hosts[h].vms;
        if c > 0 {
          assert vm in clusters[1..][c - 1].hosts[h].vms;
        }
      }
    }
  }

  lemma {:induction false} HostsVmsLength(hosts: seq<Host>)
    ensures |HostsVms(hosts)| == HostsSize(hosts)
  {
    if hosts != [] {
      HostsVmsLength(hosts[1..]);
    }
  }

  lemma {:induction false} ClustersVmsLength(clusters: seq<Cluster>)
    ensures |ClustersVms(clusters)| == ClustersSize(clusters)
  {
    if clusters != [] {
      HostsVmsLength(clusters[0].hosts);
      ClustersVmsLength(clusters[1..]);
    }
  }

  /** The traversal visits as many virtual machines as the tree holds. */
  lemma {:induction false} AllVmsLength(dcs: seq<Datacenter>)
    ensures |AllVms(dcs)| == TreeSize(dcs)
  {
    if dcs != [] {
      ClustersVmsLength(dcs[0].clusters);
      AllVmsLength(dcs[1..]);
    }
  }

  /** The traversal visits exactly the virtual machines that sit somewhere in the tree,
      and as many of them as the tree holds. */
  lemma {:induction false} AllVmsIsTheTree(dcs: seq<Datacenter>, vm: Vm)
    ensures vm in AllVms(dcs) <==> InTree(vm, dcs)
    ensures |AllVms(dcs)| == TreeSize(dcs)
  {
    AllVmsLength(dcs);
    if dcs != [] {
      ClustersVmsMembers(dcs[0].clusters, vm);
      AllVmsIsTheTree(dcs[1..], vm);
      if vm in AllVms(dcs[1..]) {
        var d, c, h :| 0 <= d < |dcs[1..]| && 0 <= c < |dcs[1..][d].clusters| &&
          0 <= h < |dcs[1..][d].clusters[c].hosts| && vm in dcs[1..][d].clusters[c].hosts[h].vms;
        assert vm in dcs[d + 1].clusters[c].hosts[h].vms;
      }
      if vm in ClustersVms(dcs[0].clusters) {
        var c, h :| 0 <= c < |dcs[0].clusters| && 0 <= h < |dcs[0].clusters[c].hosts| &&
          vm in dcs[0].clusters[c].hosts[h].vms;
        assert 0 < |dcs|;
      }
      if InTree(vm, dcs) {
        var d, c, h :| 0 <= d < |dcs| && 0 <= c < |dcs[d].clusters| && 0 <= h < |dcs[d].clusters[c].hosts| &&
          vm in dcs[d].clusters[c].hosts[h].vms;
        if d > 0 {
          assert vm in dcs[1..][d - 1].clusters[c].hosts[h].vms;
        }
      }
    }
  }

  // One step of each traversal loop: the VMs still to visit, regrouped around the
  // element the loop takes next.

  lemma AllVmsStep(dcs: seq<Datacenter>, d: nat)
    requires d < |dcs|
    ensures AllVms(dcs[d..]) == ClustersVms(dcs[d].clusters) + AllVms(dcs[d + 1..])
  {
    assert dcs[d..][0] == dcs[d] && dcs[d..][1..] == dcs[d + 1..];
  }

  lemma ClustersVmsStep(clusters: seq<Cluster>, c: nat, tail: seq<Vm>)
    requires c < |clusters|
    ensures ClustersVms(clusters[c..]) + tail == HostsVms(clusters[c].hosts) + (ClustersVms(clusters[c + 1..]) + tail)
  {
    assert clusters[c..][0] == clusters[c] && clusters[c..][1..] == clusters[c + 1..];
  }

  lemma HostsVmsStep(hosts: seq<Host>, h: nat, tail: seq<Vm>)
    requires h < |hosts|
    ensures HostsVms(hosts[h..]) + tail == hosts[h].vms + (HostsVms(hosts[h + 1..]) + tail)
  {
    assert hosts[h..][0] == hosts[h] && hosts[h..][1..] == hosts[h + 1..];
  }
}
