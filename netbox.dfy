/** The NetBox database as the script uses it through the Django ORM: `save()` appends
    a record to its table, `objects.get()` reads one back. The VirtualMachine table
    refuses a name it already holds. */
module NetBox {
  import opened Records

  class Store {
    var vms: seq<VmRecord>
    var interfaces: seq<InterfaceRecord>
    var ips: seq<IpRecord>
    /** The unique index on VirtualMachine.name. */
    var names: set<string>

    function State(): StoreState
      reads this
    {
      StoreState(vms, interfaces, ips)
    }

    predicate Valid()
      reads this
    {
      WellFormed(State()) && names == Names(State())
    }

    constructor (initial: StoreState)
      requires WellFormed(initial)
      ensures Valid() && State() == initial
    {
      vms, interfaces, ips := initial.vms, initial.interfaces, initial.ips;
      names := Names(initial);
    }

    /** `VirtualMachine(...).save()`: refused when the name is taken. */
    method SaveVm(r: VmRecord) returns (saved: bool)
      requires Valid()
      modifies this
      ensures Valid()
      ensures saved == (r.name !in old(names))
      ensures vms == (if saved then old(vms) + [r] else old(vms))
      ensures interfaces == old(interfaces) && ips == old(ips)
    {
      saved := r.name !in names;
      if saved {
        VmNamesOfAppend(vms, r);
        forall i | 0 <= i < |vms| ensures vms[i].name != r.name {
          assert vms[i].name in Names(State());
        }
        vms := vms + [r];
        names := names + {r.name};
      }
    }

    /** `VirtualMachine.objects.get(name=name)`: the one record with that name. */
    method FindVm(name: string) returns (id: nat)
      requires Valid() && name in names
      ensures id < |vms| && vms[id].name == name
      ensures forall j :: 0 <= j < |vms| && vms[j].name == name ==> j == id
    {
      id := 0;
      while vms[id].name != name
        invariant id < |vms|
        invariant exists j :: id <= j < |vms| && vms[j].name == name
        decreases |vms| - id
      {
        id := id + 1;
      }
    }

    /** `Interface(...).save()` followed by the read-back of that same interface; the
        owning VM must exist. */
    method SaveInterface(r: InterfaceRecord) returns (id: nat)
      requires Valid() && r.vm < |vms|
      modifies this
      ensures Valid()
      ensures interfaces == old(interfaces) + [r] && id == |old(interfaces)|
      ensures vms == old(vms) && ips == old(ips)
    {
      id := |interfaces|;
      interfaces := interfaces + [r];
    }

    /** `IPAddress(...).save()`; the interface must exist. */
    method SaveIp(r: IpRecord)
      requires Valid() && r.iface < |interfaces|
      modifies this
      ensures Valid()
      ensures ips == old(ips) + [r]
      ensures vms == old(vms) && interfaces == old(interfaces)
    {
      ips := ips + [r];
    }
  }
}
