/** What both DetectUnknownHosts loops decide about one scanned host, and what they collect
    over a whole scan: src/Scanner.cs:72-101 and src/Services/Scanner.cs:67-98. */
module Matching {
  import opened Wrappers
  import opened Seqs
  import opened Models

  // ------------------------------------------------------------------ lookups

  /** Position of the first hosts entry with address ip, or |hosts| when there is none. */
  function HostsIndex(hosts: seq<HostsEntry>, ip: string): (k: nat)
    ensures k <= |hosts|
    ensures k < |hosts| ==> hosts[k].ipAddress == ip
    ensures forall j :: 0 <= j < k ==> hosts[j].ipAddress != ip
  {
    if hosts == [] then 0
    else if hosts[0].ipAddress == ip then 0
    else 1 + HostsIndex(hosts[1..], ip)
  }

  /** Some hosts entry has address ip. */
  ghost predicate IpListed(hosts: seq<HostsEntry>, ip: string)
  {
    exists h :: h in hosts && h.ipAddress == ip
  }

  /** hostEntries.Find(x => x.IpAddress == ip): the first entry with that address; null
      (None) exactly when no entry has it. */
  function FindHostsEntry(hosts: seq<HostsEntry>, ip: string): (r: Option<HostsEntry>)
    ensures r.None? <==> !IpListed(hosts, ip)
    ensures r.Some? ==> r.value == hosts[HostsIndex(hosts, ip)] && r.value.ipAddress == ip
  {
    var k := HostsIndex(hosts, ip);
    if k < |hosts| then Some(hosts[k])
    else
      assert forall h :: h in hosts ==> h.ipAddress != ip by {
        forall h | h in hosts ensures h.ipAddress != ip {
          var j :| 0 <= j < |hosts| && hosts[j] == h;
        }
      }
      None
  }

  /** Position of the first reservation for MAC address mac, or |reservations|. */
  function ReservationIndex(reservations: seq<DhcpReservationEntry>, mac: string): (k: nat)
    ensures k <= |reservations|
    ensures k < |reservations| ==> reservations[k].macAddress == mac
    ensures forall j :: 0 <= j < k ==> reservations[j].macAddress != mac
  {
    if reservations == [] then 0
    else if reservations[0].macAddress == mac then 0
    else 1 + ReservationIndex(reservations[1..], mac)
  }

  /** dhcpReservationEntries.Find(x => x.MacAddress == mac): the first reservation for that
      MAC address; None exactly when there is none. */
  function FindReservation(reservations: seq<DhcpReservationEntry>, mac: string): (r: Option<DhcpReservationEntry>)
    ensures r.None? <==> forall d :: d in reservations ==> d.macAddress != mac
    ensures r.Some? ==> r.value == reservations[ReservationIndex(reservations, mac)] && r.value.macAddress == mac
  {
    var k := ReservationIndex(reservations, mac);
    if k < |reservations| then Some(reservations[k])
    else
      assert forall d :: d in reservations ==> d.macAddress != mac by {
        forall d | d in reservations ensures d.macAddress != mac {
          var j :| 0 <= j < |reservations| && reservations[j] == d;
        }
      }
      None
  }

  // ----------------------------------------------------------- one scanned host

  /** Where one scanned host leaves the loop body. */
  datatype Outcome =
    | ListedInHosts                                  // `continue` after the hosts lookup
    | NotChecked                                     // no reservations file: added as unknown
    | NoReservation                                  // no reservation for its MAC: added as unknown
    | ReservationMatches                             // `continue` after the IP comparison
    | IpMismatch(reservation: DhcpReservationEntry)  // pair recorded, and added as unknown

  /** The loop body's decision for e. A null reservation list is None. */
  function Classify(e: ArpScanEntry, hosts: seq<HostsEntry>, reservations: Option<seq<DhcpReservationEntry>>): Outcome
  {
    if FindHostsEntry(hosts, e.ipAddress).Some? then ListedInHosts
    else if reservations.None? then NotChecked
    else
      match FindReservation(reservations.value, e.macAddress)
      case None => NoReservation
      case Some(d) => if d.ipAddress == e.ipAddress then ReservationMatches else IpMismatch(d)
  }

  /** The body runs on to `unknownHosts.Add(arpEntry)`. */
  predicate AddedAsUnknown(o: Outcome)
  {
    o.NotChecked? || o.NoReservation? || o.IpMismatch?
  }

  /** The body gets past the hosts lookup into the reservations branch. */
  predicate ReachesReservations(o: Outcome)
  {
    o.NoReservation? || o.ReservationMatches? || o.IpMismatch?
  }

  // ------------------------------------------------------------ a whole scan

  /** The unknownHosts list after the loop: the scanned hosts the body adds, in scan order. */
  function UnknownHosts(entries: seq<ArpScanEntry>, hosts: seq<HostsEntry>, reservations: Option<seq<DhcpReservationEntry>>): seq<ArpScanEntry>
  {
    if entries == [] then []
    else
      var rest := UnknownHosts(entries[..|entries| - 1], hosts, reservations);
      var e := entries[|entries| - 1];
      if AddedAsUnknown(Classify(e, hosts, reservations)) then rest + [e] else rest
  }

  /** The pair, if any, the body records for e. */
  function MismatchOf(e: ArpScanEntry, hosts: seq<HostsEntry>, reservations: Option<seq<DhcpReservationEntry>>): seq<Mismatch>
  {
    match Classify(e, hosts, reservations)
    case IpMismatch(d) => [Mismatch(e, d)]
    case _ => []
  }

  /** The mismatch list when it is created once before the loop (src/Scanner.cs:73): every
      recorded pair, in scan order. */
  function Mismatches(entries: seq<ArpScanEntry>, hosts: seq<HostsEntry>, reservations: Option<seq<DhcpReservationEntry>>): seq<Mismatch>
  {
    if entries == [] then []
    else
      Mismatches(entries[..|entries| - 1], hosts, reservations)
        + MismatchOf(entries[|entries| - 1], hosts, reservations)
  }

  /** The mismatch list when it starts null and is replaced by a new list each time the body
      reaches the reservations branch (src/Services/Scanner.cs:68, 80): whatever the last such
      iteration recorded. */
  function LastMismatches(entries: seq<ArpScanEntry>, hosts: seq<HostsEntry>, reservations: Option<seq<DhcpReservationEntry>>): (r: Option<seq<Mismatch>>)
    ensures r.Some? ==> |r.value| <= 1
  {
    if entries == [] then None
    else
      var e := entries[|entries| - 1];
      if ReachesReservations(Classify(e, hosts, reservations)) then Some(MismatchOf(e, hosts, reservations))
      else LastMismatches(entries[..|entries| - 1], hosts, reservations)
  }

  // ---------------------------------------------------------------- lemmas

  /** What one more scanned host adds to each list: the step of a loop over the scan. */
  lemma ScanStep(entries: seq<ArpScanEntry>, i: nat, hosts: seq<HostsEntry>, reservations: Option<seq<DhcpReservationEntry>>)
    requires i < |entries|
    ensures var e, o := entries[i], Classify(entries[i], hosts, reservations);
            && UnknownHosts(entries[..i + 1], hosts, reservations)
                 == UnknownHosts(entries[..i], hosts, reservations) + (if AddedAsUnknown(o) then [e] else [])
            && Mismatches(entries[..i + 1], hosts, reservations)
                 == Mismatches(entries[..i], hosts, reservations) + MismatchOf(e, hosts, reservations)
            && LastMismatches(entries[..i + 1], hosts, reservations)
                 == (if ReachesReservations(o) then Some(MismatchOf(e, hosts, reservations))
                     else LastMismatches(entries[..i], hosts, reservations))
            && MismatchOf(e, hosts, reservations) == (if o.IpMismatch? then [Mismatch(e, o.reservation)] else [])
            && (!o.IpMismatch? ==> Mismatches(entries[..i + 1], hosts, reservations) == Mismatches(entries[..i], hosts, reservations))
  {
    var xs := entries[..i + 1];
    assert xs[..|xs| - 1] == entries[..i];
    assert xs[|xs| - 1] == entries[i];
    if !AddedAsUnknown(Classify(entries[i], hosts, reservations)) {
      assert UnknownHosts(entries[..i], hosts, reservations) + [] == UnknownHosts(entries[..i], hosts, reservations);
    }
    if !Classify(entries[i], hosts, reservations).IpMismatch? {
      assert Mismatches(entries[..i], hosts, reservations) + [] == Mismatches(entries[..i], hosts, reservations);
    }
  }

  /** While no scanned host has reached the reservations branch, no pair is recorded. */
  lemma {:induction false} NothingReachedNoMismatches(entries: seq<ArpScanEntry>, hosts: seq<HostsEntry>,
                                                      reservations: Option<seq<DhcpReservationEntry>>)
    requires LastMismatches(entries, hosts, reservations).None?
    ensures Mismatches(entries, hosts, reservations) == []
  {
    if entries != [] {
      NothingReachedNoMismatches(entries[..|entries| - 1], hosts, reservations);
    }
  }

  /** A scanned host is reported unknown exactly when the body adds it. */
  lemma {:induction false} UnknownHostsMember(entries: seq<ArpScanEntry>, hosts: seq<HostsEntry>,
                                              reservations: Option<seq<DhcpReservationEntry>>, x: ArpScanEntry)
    ensures x in UnknownHosts(entries, hosts, reservations) <==>
              x in entries && AddedAsUnknown(Classify(x, hosts, reservations))
  {
    if entries != [] {
      var init := entries[..|entries| - 1];
      UnknownHostsMember(init, hosts, reservations, x);
      assert entries == init + [entries[|entries| - 1]];
    }
  }

  /** A pair is recorded exactly when its host is scanned and the body finds that reservation
      by MAC address with a different IP address. */
  lemma {:induction false} MismatchesMember(entries: seq<ArpScanEntry>, hosts: seq<HostsEntry>,
                                            reservations: Option<seq<DhcpReservationEntry>>, m: Mismatch)
    ensures m in Mismatches(entries, hosts, reservations) <==>
              m.arpEntry in entries && Classify(m.arpEntry, hosts, reservations) == IpMismatch(m.reservation)
  {
    if entries != [] {
      var init := entries[..|entries| - 1];
      MismatchesMember(init, hosts, reservations, m);
      assert entries == init + [entries[|entries| - 1]];
    }
  }

  /** Scanning a then b reports a's hosts, then b's: the order of the scan is kept. */
  lemma {:induction false} UnknownHostsAppend(a: seq<ArpScanEntry>, b: seq<ArpScanEntry>, hosts: seq<HostsEntry>,
                                              reservations: Option<seq<DhcpReservationEntry>>)
    ensures UnknownHosts(a + b, hosts, reservations) == UnknownHosts(a, hosts, reservations) + UnknownHosts(b, hosts, reservations)
    decreases |b|
  {
    if b == [] {
      assert a + b == a;
    } else {
      var b' := b[..|b| - 1];
      assert (a + b)[..|a + b| - 1] == a + b';
      assert (a + b)[|a + b| - 1] == b[|b| - 1];
      UnknownHostsAppend(a, b', hosts, reservations);
    }
  }

  lemma {:induction false} MismatchesAppend(a: seq<ArpScanEntry>, b: seq<ArpScanEntry>, hosts: seq<HostsEntry>,
                                            reservations: Option<seq<DhcpReservationEntry>>)
    ensures Mismatches(a + b, hosts, reservations) == Mismatches(a, hosts, reservations) + Mismatches(b, hosts, reservations)
    decreases |b|
  {
    if b == [] {
      assert a + b == a;
    } else {
      var b' := b[..|b| - 1];
      assert (a + b)[..|a + b| - 1] == a + b';
      assert (a + b)[|a + b| - 1] == b[|b| - 1];
      MismatchesAppend(a, b', hosts, reservations);
    }
  }

  /** unknownHosts is an order-preserving subsequence of the scan: idx gives, strictly
      increasing, the scan position of each reported host. */
  lemma {:induction false} UnknownHostsSubsequence(entries: seq<ArpScanEntry>, hosts: seq<HostsEntry>,
                                                   reservations: Option<seq<DhcpReservationEntry>>) returns (idx: seq<nat>)
    ensures var u := UnknownHosts(entries, hosts, reservations);
            |idx| == |u| &&
            (forall k :: 0 <= k < |idx| ==> idx[k] < |entries| && u[k] == entries[idx[k]]) &&
            (forall k, l :: 0 <= k < l < |idx| ==> idx[k] < idx[l])
  {
    if entries == [] {
      idx := [];
    } else {
      var init := entries[..|entries| - 1];
      idx := UnknownHostsSubsequence(init, hosts, reservations);
      if AddedAsUnknown(Classify(entries[|entries| - 1], hosts, reservations)) {
        idx := idx + [|entries| - 1];
      }
    }
  }

  /** A scanned host whose address is in the hosts file is in neither output. */
  lemma ListedHostIgnored(entries: seq<ArpScanEntry>, hosts: seq<HostsEntry>,
                          reservations: Option<seq<DhcpReservationEntry>>, x: ArpScanEntry)
    requires IpListed(hosts, x.ipAddress)
    ensures x !in UnknownHosts(entries, hosts, reservations)
    ensures forall d :: Mismatch(x, d) !in Mismatches(entries, hosts, reservations)
  {
    UnknownHostsMember(entries, hosts, reservations, x);
    forall d ensures Mismatch(x, d) !in Mismatches(entries, hosts, reservations) {
      MismatchesMember(entries, hosts, reservations, Mismatch(x, d));
    }
  }

  /** A scanned host whose first reservation by MAC address has its IP address too is in
      neither output. */
  lemma ReservedHostIgnored(entries: seq<ArpScanEntry>, hosts: seq<HostsEntry>,
                            reservations: seq<DhcpReservationEntry>, x: ArpScanEntry)
    requires FindReservation(reservations, x.macAddress).Some?
    requires FindReservation(reservations, x.macAddress).value.ipAddress == x.ipAddress
    ensures x !in UnknownHosts(entries, hosts, Some(reservations))
    ensures forall d :: Mismatch(x, d) !in Mismatches(entries, hosts, Some(reservations))
  {
    UnknownHostsMember(entries, hosts, Some(reservations), x);
    forall d ensures Mismatch(x, d) !in Mismatches(entries, hosts, Some(reservations)) {
      MismatchesMember(entries, hosts, Some(reservations), Mismatch(x, d));
    }
  }

  /** A scanned host not in the hosts file whose first reservation by MAC address has another
      IP address is recorded with that reservation, and is also reported unknown. */
  lemma MismatchAlsoUnknown(entries: seq<ArpScanEntry>, hosts: seq<HostsEntry>,
                            reservations: seq<DhcpReservationEntry>, x: ArpScanEntry, d: DhcpReservationEntry)
    requires x in entries && !IpListed(hosts, x.ipAddress)
    requires FindReservation(reservations, x.macAddress) == Some(d) && d.ipAddress != x.ipAddress
    ensures Mismatch(x, d) in Mismatches(entries, hosts, Some(reservations))
    ensures x in UnknownHosts(entries, hosts, Some(reservations))
  {
    UnknownHostsMember(entries, hosts, Some(reservations), x);
    MismatchesMember(entries, hosts, Some(reservations), Mismatch(x, d));
  }

  /** A host whose reservation names another address is reported twice: once as unknown and
      once as a mismatch, although it is known to the reservations file. */
  lemma MismatchedHostReportedTwice()
    ensures var x := ArpScanEntry("192.168.1.51", "AA:BB:CC:DD:EE:FF", "");
            var d := DhcpReservationEntry("AA:BB:CC:DD:EE:FF", "192.168.1.50", "printer");
            && UnknownHosts([x], [], Some([d])) == [x]
            && Mismatches([x], [], Some([d])) == [Mismatch(x, d)]
  {
  }

  /** A hosts entry for 192.168.1.10 and no reservations file: of a scan that sees that host
      and 192.168.1.99, only the second is reported, and nothing is mismatched. */
  lemma ListedPrinterScenario()
    ensures var hosts := [HostsEntry("192.168.1.10", "printer")];
            var seen := ArpScanEntry("192.168.1.10", "AA:BB:CC:DD:EE:FF", "Acme");
            var other := ArpScanEntry("192.168.1.99", "11:22:33:44:55:66", "Unknown Co");
            && UnknownHosts([seen, other], hosts, None) == [other]
            && Mismatches([seen, other], hosts, None) == []
  {
    var hosts := [HostsEntry("192.168.1.10", "printer")];
    var seen := ArpScanEntry("192.168.1.10", "AA:BB:CC:DD:EE:FF", "Acme");
    var other := ArpScanEntry("192.168.1.99", "11:22:33:44:55:66", "Unknown Co");
    assert [seen, other][..1] == [seen];
    assert FindHostsEntry(hosts, seen.ipAddress).Some?;
    assert FindHostsEntry(hosts, other.ipAddress).None? by {
      assert !IpListed(hosts, other.ipAddress);
    }
    assert Classify(seen, hosts, None) == ListedInHosts;
    assert Classify(other, hosts, None) == NotChecked;
    assert UnknownHosts([seen], hosts, None) == [] && Mismatches([seen], hosts, None) == [];
  }

  /** The scanned hosts whose address is in no hosts entry, in scan order. */
  function NotInHosts(entries: seq<ArpScanEntry>, hosts: seq<HostsEntry>): (r: seq<ArpScanEntry>)
    ensures |r| <= |entries|
  {
    Filter(entries, (e: ArpScanEntry) => FindHostsEntry(hosts, e.ipAddress).None?)
  }

  /** Without a reservations file no pair is recorded, the per-iteration list stays null, and
      the unknown hosts are exactly the scanned hosts missing from the hosts file, in order. */
  lemma {:induction false} WithoutReservations(entries: seq<ArpScanEntry>, hosts: seq<HostsEntry>)
    ensures Mismatches(entries, hosts, None) == []
    ensures LastMismatches(entries, hosts, None) == None
    ensures UnknownHosts(entries, hosts, None) == NotInHosts(entries, hosts)
  {
    if entries != [] {
      WithoutReservations(entries[..|entries| - 1], hosts);
    }
  }

  /** The per-iteration list is null exactly when no scanned host reached the reservations
      branch: there is no reservations file, or every scanned address is in the hosts file. */
  lemma {:induction false} LastMismatchesNull(entries: seq<ArpScanEntry>, hosts: seq<HostsEntry>,
                                              reservations: Option<seq<DhcpReservationEntry>>)
    ensures LastMismatches(entries, hosts, reservations).None? <==>
              forall k :: 0 <= k < |entries| ==> !ReachesReservations(Classify(entries[k], hosts, reservations))
    ensures LastMismatches(entries, hosts, reservations).None? <==>
              reservations.None? || forall k :: 0 <= k < |entries| ==> IpListed(hosts, entries[k].ipAddress)
  {
    if entries != [] {
      var init := entries[..|entries| - 1];
      LastMismatchesNull(init, hosts, reservations);
      assert forall k :: 0 <= k < |init| ==> init[k] == entries[k];
    }
  }

  /** The per-iteration list holds what the last scanned host that reached the reservations
      branch recorded: its pair if it was a mismatch, nothing otherwise. */
  lemma {:induction false} LastMismatchesOfLastReaching(entries: seq<ArpScanEntry>, hosts: seq<HostsEntry>,
                                                        reservations: Option<seq<DhcpReservationEntry>>, k: nat)
    requires k < |entries| && ReachesReservations(Classify(entries[k], hosts, reservations))
    requires forall j :: k < j < |entries| ==> !ReachesReservations(Classify(entries[j], hosts, reservations))
    ensures LastMismatches(entries, hosts, reservations) == Some(MismatchOf(entries[k], hosts, reservations))
  {
    if k < |entries| - 1 {
      var init := entries[..|entries| - 1];
      assert forall j :: k < j < |init| ==> init[j] == entries[j];
      LastMismatchesOfLastReaching(init, hosts, reservations, k);
    }
  }

  /** The per-iteration list is a suffix of the accumulated one. */
  lemma {:induction false} LastMismatchesSuffix(entries: seq<ArpScanEntry>, hosts: seq<HostsEntry>,
                                                reservations: Option<seq<DhcpReservationEntry>>)
    ensures var all, r := Mismatches(entries, hosts, reservations), LastMismatches(entries, hosts, reservations);
            r.Some? ==> |r.value| <= |all| && r.value == all[|all| - |r.value|..]
  {
    if entries != [] {
      var init := entries[..|entries| - 1];
      LastMismatchesSuffix(init, hosts, reservations);
      var e := entries[|entries| - 1];
      var all := Mismatches(entries, hosts, reservations);
      if ReachesReservations(Classify(e, hosts, reservations)) {
        var m := MismatchOf(e, hosts, reservations);
        assert all == Mismatches(init, hosts, reservations) + m;
        assert all[|all| - |m|..] == m;
      } else {
        assert MismatchOf(e, hosts, reservations) == [];
      }
    }
  }

  /** Two mismatched hosts: the list made anew in every iteration that reaches the
      reservations branch ends with the second pair only, while the list made once holds
      both. */
  lemma SecondMismatchReplacesFirst()
    ensures var x1, x2 := ArpScanEntry("10.0.0.2", "AA", ""), ArpScanEntry("10.0.0.4", "BB", "");
            var d1, d2 := DhcpReservationEntry("AA", "10.0.0.1", "a"), DhcpReservationEntry("BB", "10.0.0.3", "b");
            && LastMismatches([x1, x2], [], Some([d1, d2])) == Some([Mismatch(x2, d2)])
            && Mismatches([x1, x2], [], Some([d1, d2])) == [Mismatch(x1, d1), Mismatch(x2, d2)]
  {
    var x1, x2 := ArpScanEntry("10.0.0.2", "AA", ""), ArpScanEntry("10.0.0.4", "BB", "");
    var d1, d2 := DhcpReservationEntry("AA", "10.0.0.1", "a"), DhcpReservationEntry("BB", "10.0.0.3", "b");
    assert [x1, x2][..1] == [x1];
    assert MismatchOf(x1, [], Some([d1, d2])) == [Mismatch(x1, d1)];
    assert MismatchOf(x2, [], Some([d1, d2])) == [Mismatch(x2, d2)];
    assert Mismatches([x1], [], Some([d1, d2])) == [Mismatch(x1, d1)];
  }

  // ---------------------------------------------- the reconciliation with a `continue` after a mismatch

  /** The scanned hosts a reconciliation reports as unknown when a mismatch is reported as a
      mismatch only: not in the hosts file, and with no reservation for its MAC address (or no
      reservations file). */
  function ReconciledUnknownHosts(entries: seq<ArpScanEntry>, hosts: seq<HostsEntry>,
                                  reservations: Option<seq<DhcpReservationEntry>>): seq<ArpScanEntry>
  {
    if entries == [] then []
    else
      var rest := ReconciledUnknownHosts(entries[..|entries| - 1], hosts, reservations);
      var e := entries[|entries| - 1];
      var o := Classify(e, hosts, reservations);
      if o.NotChecked? || o.NoReservation? then rest + [e] else rest
  }

  /** A reconciliation pass with a `continue` after recording a mismatch. */
  function Reconcile(entries: seq<ArpScanEntry>, hosts: seq<HostsEntry>,
                     reservations: Option<seq<DhcpReservationEntry>>): DetectUnknownHostsResults
  {
    DetectUnknownHostsResults(ReconciledUnknownHosts(entries, hosts, reservations),
                              Some(Mismatches(entries, hosts, reservations)))
  }

  /** In the corrected reconciliation, a host is reported as unknown or as a mismatch,
      never both, and every unknown host is one the loop as written also reports. */
  lemma ReconcileDisjoint(entries: seq<ArpScanEntry>, hosts: seq<HostsEntry>,
                          reservations: Option<seq<DhcpReservationEntry>>, x: ArpScanEntry)
    ensures var r := Reconcile(entries, hosts, reservations);
            x in r.unknownHosts ==> x in UnknownHosts(entries, hosts, reservations) &&
                                    forall m :: m in r.mismatchedIpAddressDhcpHosts.value ==> m.arpEntry != x
  {
    if x in ReconciledUnknownHosts(entries, hosts, reservations) {
      ReconciledUnknownHostsClass(entries, hosts, reservations, x);
      UnknownHostsMember(entries, hosts, reservations, x);
      forall m | m in Mismatches(entries, hosts, reservations) ensures m.arpEntry != x {
        MismatchesMember(entries, hosts, reservations, m);
      }
    }
  }

  /** The corrected reconciliation reports as unknown exactly the scanned hosts that are
      neither in the hosts file nor covered by a reservation. */
  lemma {:induction false} ReconciledUnknownHostsClass(entries: seq<ArpScanEntry>, hosts: seq<HostsEntry>,
                                                       reservations: Option<seq<DhcpReservationEntry>>, x: ArpScanEntry)
    ensures x in ReconciledUnknownHosts(entries, hosts, reservations) <==>
              x in entries && (Classify(x, hosts, reservations).NotChecked? || Classify(x, hosts, reservations).NoReservation?)
  {
    if entries != [] {
      var init := entries[..|entries| - 1];
      ReconciledUnknownHostsClass(init, hosts, reservations, x);
      assert entries == init + [entries[|entries| - 1]];
    }
  }
}
