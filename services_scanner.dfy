/** Scanner.DetectUnknownHosts of src/Services/Scanner.cs: the same checks and loop as
    src/Scanner.cs without push notifications, returning its findings, with a mismatch list
    that starts null and is replaced by a new list on every iteration that reaches the
    reservations branch. */
module ServicesScanner {
  import opened Wrappers
  import opened Models
  import opened Parser
  import opened Matching

  /** The arguments pass every check of src/Services/Scanner.cs:17-27. */
  predicate ArgumentsAccepted(interfaceName: Option<string>, hostsPath: Option<string>, dhcpReservationsPath: Option<string>,
                              files: FileSystem)
  {
    && !IsNullOrEmpty(interfaceName)
    && !IsNullOrEmpty(hostsPath)
    && FileExists(files, hostsPath.value)
    && (dhcpReservationsPath.Some? ==> FileExists(files, dhcpReservationsPath.value))
  }

  /** The foreach over the scan (src/Services/Scanner.cs:67-98), as written: the mismatch
      list is assigned a new empty list whenever the body reaches the reservations branch. */
  method Reconcile(hostEntries: seq<HostsEntry>, dhcpReservationEntries: Option<seq<DhcpReservationEntry>>,
                   arpScanEntries: seq<ArpScanEntry>)
    returns (results: DetectUnknownHostsResults)
    ensures results.unknownHosts == UnknownHosts(arpScanEntries, hostEntries, dhcpReservationEntries)
    ensures results.mismatchedIpAddressDhcpHosts == LastMismatches(arpScanEntries, hostEntries, dhcpReservationEntries)
    ensures results.mismatchedIpAddressDhcpHosts.Some? ==> |results.mismatchedIpAddressDhcpHosts.value| <= 1
  {
    var unknownHosts: seq<ArpScanEntry> := [];
    var mismatchedIpAddressDhcpHosts: Option<seq<Mismatch>> := None;
    for i := 0 to |arpScanEntries|
      invariant unknownHosts == UnknownHosts(arpScanEntries[..i], hostEntries, dhcpReservationEntries)
      invariant mismatchedIpAddressDhcpHosts == LastMismatches(arpScanEntries[..i], hostEntries, dhcpReservationEntries)
    {
      var arpEntry := arpScanEntries[i];
      ScanStep(arpScanEntries, i, hostEntries, dhcpReservationEntries);
      var matchingHostsEntry := FindHostsEntry(hostEntries, arpEntry.ipAddress);
      if matchingHostsEntry.Some? {
        continue;
      }
      if dhcpReservationEntries.Some? {
        mismatchedIpAddressDhcpHosts := Some([]);
        var matchingDhcpEntry := FindReservation(dhcpReservationEntries.value, arpEntry.macAddress);
        if matchingDhcpEntry.Some? {
          if matchingDhcpEntry.value.ipAddress == arpEntry.ipAddress {
            continue;
          }
          mismatchedIpAddressDhcpHosts := Some(mismatchedIpAddressDhcpHosts.value + [Mismatch(arpEntry, matchingDhcpEntry.value)]);
          assert [] + [Mismatch(arpEntry, matchingDhcpEntry.value)] == [Mismatch(arpEntry, matchingDhcpEntry.value)];
        }
      }
      unknownHosts := unknownHosts + [arpEntry];
    }
    assert arpScanEntries[..|arpScanEntries|] == arpScanEntries;
    return DetectUnknownHostsResults(unknownHosts, mismatchedIpAddressDhcpHosts);
  }

  /** The same loop with the list created once before the loop, as src/Scanner.cs:73 does,
      and only when there is a reservations file, so that it keeps every mismatch of the scan
      and is null exactly when the reservations file is. */
  method ReconcileKeepingMismatches(hostEntries: seq<HostsEntry>, dhcpReservationEntries: Option<seq<DhcpReservationEntry>>,
                                    arpScanEntries: seq<ArpScanEntry>)
    returns (results: DetectUnknownHostsResults)
    ensures results.unknownHosts == UnknownHosts(arpScanEntries, hostEntries, dhcpReservationEntries)
    ensures results.mismatchedIpAddressDhcpHosts ==
              if dhcpReservationEntries.None? then None
              else Some(Mismatches(arpScanEntries, hostEntries, dhcpReservationEntries))
  {
    var unknownHosts: seq<ArpScanEntry> := [];
    var mismatchedIpAddressDhcpHosts: Option<seq<Mismatch>> := None;
    if dhcpReservationEntries.Some? {
      mismatchedIpAddressDhcpHosts := Some([]);
    }
    for i := 0 to |arpScanEntries|
      invariant unknownHosts == UnknownHosts(arpScanEntries[..i], hostEntries, dhcpReservationEntries)
      invariant mismatchedIpAddressDhcpHosts ==
                  if dhcpReservationEntries.None? then None
                  else Some(Mismatches(arpScanEntries[..i], hostEntries, dhcpReservationEntries))
    {
      var arpEntry := arpScanEntries[i];
      ScanStep(arpScanEntries, i, hostEntries, dhcpReservationEntries);
      var matchingHostsEntry := FindHostsEntry(hostEntries, arpEntry.ipAddress);
      if matchingHostsEntry.Some? {
        continue;
      }
      if dhcpReservationEntries.Some? {
        var matchingDhcpEntry := FindReservation(dhcpReservationEntries.value, arpEntry.macAddress);
        if matchingDhcpEntry.Some? {
          if matchingDhcpEntry.value.ipAddress == arpEntry.ipAddress {
            continue;
          }
          mismatchedIpAddressDhcpHosts := Some(mismatchedIpAddressDhcpHosts.value + [Mismatch(arpEntry, matchingDhcpEntry.value)]);
        }
      }
      unknownHosts := unknownHosts + [arpEntry];
    }
    assert arpScanEntries[..|arpScanEntries|] == arpScanEntries;
    return DetectUnknownHostsResults(unknownHosts, mismatchedIpAddressDhcpHosts);
  }

  /** DetectUnknownHosts: the argument checks in source order, the parsing of the two files,
      and the loop. The file contents come from files, the arp-scan result is arpScanEntries;
      a thrown ArgumentException is a Failure. */
  method DetectUnknownHosts(interfaceName: Option<string>, hostsPath: Option<string>, dhcpReservationsPath: Option<string>,
                            files: FileSystem, arpScanEntries: seq<ArpScanEntry>)
    returns (r: Result<DetectUnknownHostsResults, ArgumentError>)
    ensures IsNullOrEmpty(interfaceName) ==> r == Failure(InterfaceNameRequired)
    ensures !IsNullOrEmpty(interfaceName) && IsNullOrEmpty(hostsPath) ==> r == Failure(HostsPathRequired)
    ensures (!IsNullOrEmpty(interfaceName) && !IsNullOrEmpty(hostsPath) && !FileExists(files, hostsPath.value))
              ==> r == Failure(HostsFileNotFound)
    ensures (!IsNullOrEmpty(interfaceName) && !IsNullOrEmpty(hostsPath) && FileExists(files, hostsPath.value)
             && dhcpReservationsPath.Some? && !FileExists(files, dhcpReservationsPath.value))
              ==> r == Failure(DhcpReservationsFileNotFound)
    ensures r.Success? <==> ArgumentsAccepted(interfaceName, hostsPath, dhcpReservationsPath, files)
    ensures r.Success? ==>
              var hostEntries := HostsFileEntries(Some(files[hostsPath.value]));
              var reservations := ReservationsOf(dhcpReservationsPath, files);
              r.value.unknownHosts == UnknownHosts(arpScanEntries, hostEntries, reservations) &&
              r.value.mismatchedIpAddressDhcpHosts == LastMismatches(arpScanEntries, hostEntries, reservations)
  {
    if IsNullOrEmpty(interfaceName) {
      return Failure(InterfaceNameRequired);
    }
    if IsNullOrEmpty(hostsPath) {
      return Failure(HostsPathRequired);
    }
    if !FileExists(files, hostsPath.value) {
      return Failure(HostsFileNotFound);
    }
    if dhcpReservationsPath.Some? && !FileExists(files, dhcpReservationsPath.value) {
      return Failure(DhcpReservationsFileNotFound);
    }

    var hostEntries := ParseHostsFileContent(Some(files[hostsPath.value]));
    var dhcpReservationEntries: Option<seq<DhcpReservationEntry>> := None;
    if !IsNullOrEmpty(dhcpReservationsPath) {
      var parsed := ParseDhcpReservationsFileContent(Some(files[dhcpReservationsPath.value]));
      dhcpReservationEntries := Some(parsed);
    }

    var results := Reconcile(hostEntries, dhcpReservationEntries, arpScanEntries);
    return Success(results);
  }
}
