/** Scanner.DetectUnknownHosts of src/Scanner.cs: argument checks, parsing of the two files,
    and the reconciliation loop with one mismatch list for the whole scan. */
module Scanner {
  import opened Wrappers
  import opened Models
  import opened Parser
  import opened Matching

  /** The two lists the loop builds, which the console report and the notifications use. */
  datatype ScanFindings = ScanFindings(unknownHosts: seq<ArpScanEntry>, mismatchedIpAddressDhcpHosts: seq<Mismatch>)

  /** The arguments pass every check of src/Scanner.cs:19-32. */
  predicate ArgumentsAccepted(interfaceName: Option<string>, hostsPath: Option<string>, dhcpReservationsPath: Option<string>,
                              sendPushNotifications: bool, pushNotificationsApiKey: Option<string>, files: FileSystem)
  {
    && !IsNullOrEmpty(interfaceName)
    && !IsNullOrEmpty(hostsPath)
    && FileExists(files, hostsPath.value)
    && (dhcpReservationsPath.Some? ==> FileExists(files, dhcpReservationsPath.value))
    && !(sendPushNotifications && IsNullOrEmpty(pushNotificationsApiKey))
  }

  /** The foreach over the scan (src/Scanner.cs:72-101): a host in the hosts file is skipped;
      with reservations, a host whose first reservation by MAC address has its IP address is
      skipped, and one whose reservation has another IP address is recorded as a mismatch;
      every host not skipped is added to the unknown hosts. */
  method Reconcile(hostEntries: seq<HostsEntry>, dhcpReservationEntries: Option<seq<DhcpReservationEntry>>,
                   arpScanEntries: seq<ArpScanEntry>)
    returns (unknownHosts: seq<ArpScanEntry>, mismatchedIpAddressDhcpHosts: seq<Mismatch>)
    ensures unknownHosts == UnknownHosts(arpScanEntries, hostEntries, dhcpReservationEntries)
    ensures mismatchedIpAddressDhcpHosts == Mismatches(arpScanEntries, hostEntries, dhcpReservationEntries)
    ensures arpScanEntries == [] ==> unknownHosts == [] && mismatchedIpAddressDhcpHosts == []
  {
    unknownHosts := [];
    mismatchedIpAddressDhcpHosts := [];
    for i := 0 to |arpScanEntries|
      invariant unknownHosts == UnknownHosts(arpScanEntries[..i], hostEntries, dhcpReservationEntries)
      invariant mismatchedIpAddressDhcpHosts == Mismatches(arpScanEntries[..i], hostEntries, dhcpReservationEntries)
    {
      var arpEntry := arpScanEntries[i];
      ScanStep(arpScanEntries, i, hostEntries, dhcpReservationEntries);
      var matchingHostsEntry := FindHostsEntry(hostEntries, arpEntry.ipAddress);
      if matchingHostsEntry.Some? {
        continue;
      }
      if dhcpReservationEntries.Some? {
        var matchingDhcpEntry := FindReservation(dhcpReservationEntries.value, arpEntry.macAddress);
        if matchingDhcpEntry.Some? {
          if matchingDhcpEntry.value.ipAddress == arpEntry.ipAddress {
            continue;
          }
          mismatchedIpAddressDhcpHosts := mismatchedIpAddressDhcpHosts + [Mismatch(arpEntry, matchingDhcpEntry.value)];
        }
      }
      unknownHosts := unknownHosts + [arpEntry];
    }
    assert arpScanEntries[..|arpScanEntries|] == arpScanEntries;
  }

  /** DetectUnknownHosts up to the point where it reports. The file contents come from files,
      the arp-scan result is arpScanEntries; a thrown ArgumentException is a Failure. */
  method DetectUnknownHosts(interfaceName: Option<string>, hostsPath: Option<string>, dhcpReservationsPath: Option<string>,
                            sendPushNotifications: bool, pushNotificationsApiKey: Option<string>,
                            files: FileSystem, arpScanEntries: seq<ArpScanEntry>)
    returns (r: Result<ScanFindings, ArgumentError>)
    ensures IsNullOrEmpty(interfaceName) ==> r == Failure(InterfaceNameRequired)
    ensures !IsNullOrEmpty(interfaceName) && IsNullOrEmpty(hostsPath) ==> r == Failure(HostsPathRequired)
    ensures (!IsNullOrEmpty(interfaceName) && !IsNullOrEmpty(hostsPath) && !FileExists(files, hostsPath.value))
              ==> r == Failure(HostsFileNotFound)
    ensures (!IsNullOrEmpty(interfaceName) && !IsNullOrEmpty(hostsPath) && FileExists(files, hostsPath.value)
             && dhcpReservationsPath.Some? && !FileExists(files, dhcpReservationsPath.value))
              ==> r == Failure(DhcpReservationsFileNotFound)
    ensures (!IsNullOrEmpty(interfaceName) && !IsNullOrEmpty(hostsPath) && FileExists(files, hostsPath.value)
             && (dhcpReservationsPath.Some? ==> FileExists(files, dhcpReservationsPath.value))
             && sendPushNotifications && IsNullOrEmpty(pushNotificationsApiKey))
              ==> r == Failure(PushNotificationsApiKeyRequired)
    ensures r.Success? <==> ArgumentsAccepted(interfaceName, hostsPath, dhcpReservationsPath, sendPushNotifications, pushNotificationsApiKey, files)
    ensures r.Success? ==>
              var hostEntries := HostsFileEntries(Some(files[hostsPath.value]));
              var reservations := ReservationsOf(dhcpReservationsPath, files);
              r.value.unknownHosts == UnknownHosts(arpScanEntries, hostEntries, reservations) &&
              r.value.mismatchedIpAddressDhcpHosts == Mismatches(arpScanEntries, hostEntries, reservations)
  {
    if IsNullOrEmpty(interfaceName) {
      return Failure(InterfaceNameRequired);
    }
    if IsNullOrEmpty(hostsPath) {
      return Failure(HostsPathRequired);
    }
    if !FileExists(files, hostsPath.value) {
      return Failure(HostsFileNotFound);
    }
    if dhcpReservationsPath.Some? && !FileExists(files, dhcpReservationsPath.value) {
      return Failure(DhcpReservationsFileNotFound);
    }
    if sendPushNotifications && IsNullOrEmpty(pushNotificationsApiKey) {
      return Failure(PushNotificationsApiKeyRequired);
    }

    var hostEntries := ParseHostsFileContent(Some(files[hostsPath.value]));
    var dhcpReservationEntries: Option<seq<DhcpReservationEntry>> := None;
    if !IsNullOrEmpty(dhcpReservationsPath) {
      var parsed := ParseDhcpReservationsFileContent(Some(files[dhcpReservationsPath.value]));
      dhcpReservationEntries := Some(parsed);
    }

    var unknownHosts, mismatchedIpAddressDhcpHosts := Reconcile(hostEntries, dhcpReservationEntries, arpScanEntries);
    return Success(ScanFindings(unknownHosts, mismatchedIpAddressDhcpHosts));
  }

}
