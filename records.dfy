/** The NetBox records the script creates (VirtualMachine, Interface, IPAddress) and
    the part of the NetBox database they live in. A record's identity is its position
    in the table it was appended to. */
module Records {
  import opened Inventory

  /** Primary key of the operator-chosen NetBox cluster (the script's `cluster` field). */
  type ClusterRef = nat

  /** DEVICE_STATUS_ACTIVE, the only status the script writes. */
  datatype Status = Active

  /** IFACE_TYPE_VIRTUAL, the only interface type the script writes. */
  datatype InterfaceType = Virtual

  datatype VmRecord = VmRecord(name: string, cluster: ClusterRef, status: Status, vcpus: nat, memory: nat, disk: nat)

  /** `vm` is the identity of the owning VirtualMachine record. */
  datatype InterfaceRecord = InterfaceRecord(vm: nat, name: string, description: string, kind: InterfaceType, macAddress: string)

  /** `iface` is the identity of the Interface record the address is assigned to. */
  datatype IpRecord = IpRecord(family: nat, address: string, description: string, iface: nat)

  datatype StoreState = StoreState(vms: seq<VmRecord>, interfaces: seq<InterfaceRecord>, ips: seq<IpRecord>)

  /** The names of a table of VirtualMachine records. */
  function VmNames(vms: seq<VmRecord>): set<string> {
    set i | 0 <= i < |vms| :: vms[i].name
  }

  /** The VM names already taken in the store. */
  function Names(st: StoreState): set<string> {
    VmNames(st.vms)
  }

  /** What the NetBox database guarantees of these tables: VM names are unique, and
      every interface and every IP address references a record that exists. */
  predicate WellFormed(st: StoreState) {
    (forall i, j :: 0 <= i < j < |st.vms| ==> st.vms[i].name != st.vms[j].name) &&
    (forall k :: 0 <= k < |st.interfaces| ==> st.interfaces[k].vm < |st.vms|) &&
    (forall k :: 0 <= k < |st.ips| ==> st.ips[k].iface < |st.interfaces|)
  }

  /** The first state extends the second: no record was removed or changed. */
  predicate Extends(st: StoreState, before: StoreState) {
    before.vms <= st.vms && before.interfaces <= st.interfaces && before.ips <= st.ips
  }

  lemma VmNamesOfAppend(vms: seq<VmRecord>, r: VmRecord)
    ensures VmNames(vms + [r]) == VmNames(vms) + {r.name}
  {
    var vms' := vms + [r];
    forall n | n in VmNames(vms') ensures n in VmNames(vms) + {r.name} {
      var i :| 0 <= i < |vms'| && vms'[i].name == n;
      if i < |vms| {
        assert vms[i].name == n;
      }
    }
    forall n | n in VmNames(vms) ensures n in VmNames(vms') {
      var i :| 0 <= i < |vms| && vms[i].name == n;
      assert vms'[i].name == n;
    }
    assert vms'[|vms|].name == r.name;
  }

  const GiB: nat := 1073741824

  /** `int(float("%.2f" % (committed / 1024**3)))`: the size in GiB is first rounded to
      hundredths (half to even, as Python formats the exact binary value) and then
      truncated to a whole number. */
  function DiskGb(committed: nat): nat {
    var hundredths := committed * 100 / GiB;
    var rest := committed * 100 % GiB;
    var rounded := if 2 * rest > GiB || (2 * rest == GiB && hundredths % 2 == 1) then hundredths + 1 else hundredths;
    rounded / 100
  }

  /** The whole-GiB size differs from the truncated exact size by at most one, and only
      when the fraction rounds up to a whole number at two decimals. */
  lemma DiskGbBounds(committed: nat)
    ensures committed / GiB <= DiskGb(committed) <= committed / GiB + 1
    ensures 200 * (committed % GiB) < 199 * GiB ==> DiskGb(committed) == committed / GiB
    ensures 200 * (committed % GiB) >= 199 * GiB ==> DiskGb(committed) == committed / GiB + 1
  {
    var q, r := committed / GiB, committed % GiB;
    assert committed == q * GiB + r;
    assert committed * 100 == (100 * q) * GiB + 100 * r;
    var h := committed * 100 / GiB;
    assert h == 100 * q + (100 * r) / GiB;
    assert (100 * r) / GiB < 100;
    assert h / 100 == q;
    if 200 * r < 199 * GiB {
      assert (100 * r) / GiB <= 99;
      if (100 * r) / GiB == 99 {
        assert committed * 100 % GiB == 100 * r - 99 * GiB;
      }
    } else {
      assert (100 * r) / GiB == 99;
      assert committed * 100 % GiB == 100 * r - 99 * GiB;
    }
  }

  /** 3.7 GiB is recorded as 3 GiB: truncation, not rounding to the nearest unit; but a
      size one byte short of 4 GiB prints as "4.00" and is recorded as 4. */
  lemma DiskGbExamples()
    ensures DiskGb(3972844748) == 3
    ensures DiskGb(4 * GiB - 1) == 4
  {
  }

  /** The VirtualMachine record built for a discovered VM: the operator-chosen cluster,
      status active, and the VM's CPU count, memory and disk size. */
  function VmRecordOf(vm: Vm, cluster: ClusterRef): VmRecord {
    VmRecord(vm.name, cluster, Active, vm.numCpu, vm.memorySizeMB, DiskGb(vm.committed))
  }
}
