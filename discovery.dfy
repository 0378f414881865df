/** Which guest adapters and IP entries of one virtual machine produce records, and
    what those records say. EntryRecords and NicRecords follow the script's loops,
    numbering entries with a running counter; QualifyingEntries and Numbered are the
    independent reading "keep the qualifying IPv4 entries, then number them". */
module Discovery {
  import opened Inventory
  import opened Text

  /** `nic.network` as text; a missing network reads as the empty label. */
  function NetworkLabel(nic: GuestNic): string {
    if nic.network.Some? then nic.network.value else ""
  }

  /** Python truthiness of `nic.network`: both None and "" are false. */
  predicate HasNetwork(nic: GuestNic) {
    NetworkLabel(nic) != ""
  }

  /** `nic.ipConfig.ipAddress`, missing when either level is None. */
  function IpEntries(nic: GuestNic): Option<seq<IpEntry>> {
    if nic.ipConfig.None? then None else nic.ipConfig.value.ipAddress
  }

  /** The adapter passes both guards of the adapter loop. */
  predicate Qualifies(nic: GuestNic) {
    HasNetwork(nic) && IpEntries(nic).Some?
  }

  /** The textual IPv6 test: the address contains a colon. */
  predicate LooksIpv6(e: IpEntry) {
    ':' in e.address
  }

  /** f"NIC{num}" */
  function NicName(num: nat): string {
    "NIC" + NatToString(num)
  }

  /** f"{ip.ipAddress}/{ip.prefixLength}" */
  function Cidr(e: IpEntry): string {
    e.address + "/" + NatToString(e.prefixLength)
  }

  /** f"{vmName} - {nicName}" */
  function IpDescription(vmName: string, nicName: string): string {
    vmName + " - " + nicName
  }

  /** Everything one qualifying IPv4 entry contributes: the interface's name, MAC and
      description (the network label), and the address with its description. */
  datatype AdapterRecord = AdapterRecord(ifName: string, macAddress: string, network: string, cidr: string, ipDescription: string)

  /** A qualifying IPv4 entry together with the adapter that reported it. */
  datatype Qualified = Qualified(nic: GuestNic, entry: IpEntry)

  function AdapterRecordFor(vmName: string, num: nat, q: Qualified): AdapterRecord {
    AdapterRecord(NicName(num), q.nic.macAddress, NetworkLabel(q.nic), Cidr(q.entry), IpDescription(vmName, NicName(num)))
  }

  /** The IP-entry loop of one adapter, the counter starting at `num`: entries that look
      like IPv6 are skipped and do not advance the counter. */
  function EntryRecords(vmName: string, nic: GuestNic, entries: seq<IpEntry>, num: nat): (r: seq<AdapterRecord>)
    ensures |r| <= |entries|
  {
    if entries == [] then []
    else if LooksIpv6(entries[0]) then EntryRecords(vmName, nic, entries[1..], num)
    else [AdapterRecordFor(vmName, num, Qualified(nic, entries[0]))] + EntryRecords(vmName, nic, entries[1..], num + 1)
  }

  /** The adapter loop of one VM, the counter starting at `num` (1 for every VM):
      adapters failing a guard contribute nothing. */
  function NicRecords(vmName: string, nics: seq<GuestNic>, num: nat): seq<AdapterRecord>
  {
    if nics == [] then []
    else if Qualifies(nics[0]) then
      var here := EntryRecords(vmName, nics[0], IpEntries(nics[0]).value, num);
      here + NicRecords(vmName, nics[1..], num + |here|)
    else NicRecords(vmName, nics[1..], num)
  }

  /** The records one adapter contributes, numbered from `num`: none unless it passes
      both guards of the adapter loop, and otherwise its IPv4-looking entries numbered
      consecutively. */
  function NicPlan(vmName: string, nic: GuestNic, num: nat): (r: seq<AdapterRecord>)
    ensures r == Numbered(vmName, if Qualifies(nic) then Ipv4Of(nic, IpEntries(nic).value) else [], num)
  {
    if Qualifies(nic) then
      EntryRecordsNumbered(vmName, nic, IpEntries(nic).value, num);
      EntryRecords(vmName, nic, IpEntries(nic).value, num)
    else []
  }

  /** One step of the adapter loop: the records still to come from `nics[n..]`. */
  lemma NicRecordsStep(vmName: string, nics: seq<GuestNic>, n: nat, num: nat)
    requires n < |nics|
    ensures NicRecords(vmName, nics[n..], num) ==
      NicPlan(vmName, nics[n], num) + NicRecords(vmName, nics[n + 1..], num + |NicPlan(vmName, nics[n], num)|)
  {
    assert nics[n..][0] == nics[n] && nics[n..][1..] == nics[n + 1..];
  }

  /** The IPv4-looking entries of one adapter, in order. */
  function Ipv4Of(nic: GuestNic, entries: seq<IpEntry>): seq<Qualified> {
    if entries == [] then []
    else (if LooksIpv6(entries[0]) then [] else [Qualified(nic, entries[0])]) + Ipv4Of(nic, entries[1..])
  }

  /** The qualifying IPv4 entries of a VM's adapters, in discovery order. */
  function QualifyingEntries(nics: seq<GuestNic>): seq<Qualified> {
    if nics == [] then []
    else (if Qualifies(nics[0]) then Ipv4Of(nics[0], IpEntries(nics[0]).value) else []) + QualifyingEntries(nics[1..])
  }

  /** Number the entries consecutively from `num`. */
  function Numbered(vmName: string, qs: seq<Qualified>, num: nat): seq<AdapterRecord> {
    seq(|qs|, k requires 0 <= k < |qs| => AdapterRecordFor(vmName, num + k, qs[k]))
  }

  lemma NumberedAppend(vmName: string, a: seq<Qualified>, b: seq<Qualified>, num: nat)
    ensures Numbered(vmName, a + b, num) == Numbered(vmName, a, num) + Numbered(vmName, b, num + |a|)
  {
  }

  lemma {:induction false} EntryRecordsNumbered(vmName: string, nic: GuestNic, entries: seq<IpEntry>, num: nat)
    ensures EntryRecords(vmName, nic, entries, num) == Numbered(vmName, Ipv4Of(nic, entries), num)
  {
    if entries != [] {
      if LooksIpv6(entries[0]) {
        EntryRecordsNumbered(vmName, nic, entries[1..], num);
      } else {
        assert Ipv4Of(nic, entries) == [Qualified(nic, entries[0])] + Ipv4Of(nic, entries[1..]);
        EntryRecordsNumbered(vmName, nic, entries[1..], num + 1);
        NumberedAppend(vmName, [Qualified(nic, entries[0])], Ipv4Of(nic, entries[1..]), num);
      }
    }
  }

  /** The script's running counter names the records exactly as numbering the
      qualifying IPv4 entries NIC{num}, NIC{num+1}, ... in discovery order would: one
      record per qualifying entry, not per adapter, each carrying its adapter's MAC
      address and network label and its entry's address. */
  lemma {:induction false} NicRecordsNumbered(vmName: string, nics: seq<GuestNic>, num: nat)
    ensures NicRecords(vmName, nics, num) == Numbered(vmName, QualifyingEntries(nics), num)
  {
    if nics != [] {
      if Qualifies(nics[0]) {
        var entries := IpEntries(nics[0]).value;
        var v4 := Ipv4Of(nics[0], entries);
        var here := EntryRecords(vmName, nics[0], entries, num);
        assert NicRecords(vmName, nics, num) == here + NicRecords(vmName, nics[1..], num + |here|);
        assert QualifyingEntries(nics) == v4 + QualifyingEntries(nics[1..]);
        EntryRecordsNumbered(vmName, nics[0], entries, num);
        assert |here| == |v4|;
        NicRecordsNumbered(vmName, nics[1..], num + |v4|);
        NumberedAppend(vmName, v4, QualifyingEntries(nics[1..]), num);
      } else {
        NicRecordsNumbered(vmName, nics[1..], num);
      }
    }
  }

  lemma {:induction false} Ipv4OfMembers(nic: GuestNic, entries: seq<IpEntry>, q: Qualified)
    ensures q in Ipv4Of(nic, entries) <==> q.nic == nic && q.entry in entries && !LooksIpv6(q.entry)
  {
    if entries != [] {
      Ipv4OfMembers(nic, entries[1..], q);
      assert entries == [entries[0]] + entries[1..];
    }
  }

  /** An entry is used exactly when its adapter passes both guards and its address
      contains no colon. */
  lemma {:induction false} QualifyingEntriesMembers(nics: seq<GuestNic>, q: Qualified)
    ensures q in QualifyingEntries(nics) <==>
      q.nic in nics && Qualifies(q.nic) && q.entry in IpEntries(q.nic).value && !LooksIpv6(q.entry)
  {
    if nics != [] {
      QualifyingEntriesMembers(nics[1..], q);
      if Qualifies(nics[0]) {
        Ipv4OfMembers(nics[0], IpEntries(nics[0]).value, q);
      }
      assert nics == [nics[0]] + nics[1..];
    }
  }

  /** An adapter without a network, without an IP configuration or without an address
      list contributes nothing: removing it changes no record and no number. */
  lemma {:induction false} SkippedNicContributesNothing(vmName: string, before: seq<GuestNic>, nic: GuestNic, after: seq<GuestNic>, num: nat)
    requires !Qualifies(nic)
    ensures NicRecords(vmName, before + [nic] + after, num) == NicRecords(vmName, before + after, num)
  {
    if before == [] {
      assert before + [nic] + after == [nic] + after && before + after == after;
      assert ([nic] + after)[1..] == after;
    } else {
      var rest := before[1..];
      assert (before + [nic] + after)[0] == before[0] && (before + [nic] + after)[1..] == rest + [nic] + after;
      assert (before + after)[0] == before[0] && (before + after)[1..] == rest + after;
      if Qualifies(before[0]) {
        var here := EntryRecords(vmName, before[0], IpEntries(before[0]).value, num);
        SkippedNicContributesNothing(vmName, rest, nic, after, num + |here|);
      } else {
        SkippedNicContributesNothing(vmName, rest, nic, after, num);
      }
    }
  }

  /** An entry whose address contains a colon contributes nothing: no record, and the
      counter does not move. */
  lemma {:induction false} Ipv6EntryContributesNothing(vmName: string, nic: GuestNic, before: seq<IpEntry>, e: IpEntry, after: seq<IpEntry>, num: nat)
    requires LooksIpv6(e)
    ensures EntryRecords(vmName, nic, before + [e] + after, num) == EntryRecords(vmName, nic, before + after, num)
  {
    if before == [] {
      assert before + [e] + after == [e] + after && before + after == after;
      assert ([e] + after)[1..] == after;
    } else {
      var rest := before[1..];
      assert (before + [e] + after)[0] == before[0] && (before + [e] + after)[1..] == rest + [e] + after;
      assert (before + after)[0] == before[0] && (before + after)[1..] == rest + after;
      if LooksIpv6(before[0]) {
        Ipv6EntryContributesNothing(vmName, nic, rest, e, after, num);
      } else {
        Ipv6EntryContributesNothing(vmName, nic, rest, e, after, num + 1);
      }
    }
  }

  /** The k-th record of the adapter loop is the k-th qualifying entry, numbered. */
  lemma NicRecordsAt(vmName: string, nics: seq<GuestNic>, num: nat, k: nat)
    requires k < |QualifyingEntries(nics)|
    ensures |NicRecords(vmName, nics, num)| == |QualifyingEntries(nics)|
    ensures NicRecords(vmName, nics, num)[k] == AdapterRecordFor(vmName, num + k, QualifyingEntries(nics)[k])
  {
    NicRecordsNumbered(vmName, nics, num);
  }

  /** The adapter loop names its interfaces NIC<num>, NIC<num+1>, ... in order, and
      describes each IP address as "vmName - NICn" after its interface. */
  lemma NicRecordsLabels(vmName: string, nics: seq<GuestNic>, num: nat)
    ensures forall k :: 0 <= k < |NicRecords(vmName, nics, num)| ==>
      NicRecords(vmName, nics, num)[k].ifName == NicName(num + k)
    ensures forall k :: 0 <= k < |NicRecords(vmName, nics, num)| ==>
      NicRecords(vmName, nics, num)[k].ipDescription == IpDescription(vmName, NicRecords(vmName, nics, num)[k].ifName)
  {
    NicRecordsNumbered(vmName, nics, num);
  }

  /** The interface names of one VM are pairwise distinct. */
  lemma NicNamesDistinct(vmName: string, nics: seq<GuestNic>, num: nat, i: nat, j: nat)
    requires i < j < |NicRecords(vmName, nics, num)|
    ensures NicRecords(vmName, nics, num)[i].ifName != NicRecords(vmName, nics, num)[j].ifName
  {
    var r := NicRecords(vmName, nics, num);
    NicRecordsLabels(vmName, nics, num);
    if r[i].ifName == r[j].ifName {
      assert "NIC" + NatToString(num + i) == "NIC" + NatToString(num + j);
      assert NatToString(num + i) == ("NIC" + NatToString(num + i))[3..];
      assert NatToString(num + j) == ("NIC" + NatToString(num + j))[3..];
      NatToStringInjective(num + i, num + j);
    }
  }
}
