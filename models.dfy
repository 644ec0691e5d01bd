/** The records the scanner works on. Field equality is plain string equality. */
module Models {
  import opened Wrappers

  /** One line of the hosts file: its address and its first host name. */
  datatype HostsEntry = HostsEntry(ipAddress: string, hostName: string)

  /** One dnsmasq `dhcp-host=` reservation. */
  datatype DhcpReservationEntry = DhcpReservationEntry(macAddress: string, ipAddress: string, hostName: string)

  /** One host seen by arp-scan. */
  datatype ArpScanEntry = ArpScanEntry(ipAddress: string, macAddress: string, manufacturer: string)

  /** KeyValuePair<ArpScanEntry, DhcpReservationEntry>: a scanned host and the reservation for
      its MAC address, whose IP address differs. */
  datatype Mismatch = Mismatch(arpEntry: ArpScanEntry, reservation: DhcpReservationEntry)

  /** DetectUnknownHostsResults; a null mismatch list is None. */
  datatype DetectUnknownHostsResults =
    DetectUnknownHostsResults(unknownHosts: seq<ArpScanEntry>, mismatchedIpAddressDhcpHosts: Option<seq<Mismatch>>)

  /** The ArgumentExceptions the scanners throw before doing any work. */
  datatype ArgumentError =
    | InterfaceNameRequired
    | HostsPathRequired
    | HostsFileNotFound
    | DhcpReservationsFileNotFound
    | PushNotificationsApiKeyRequired

  /** The file system the scanners read, as a map from path to content. */
  type FileSystem = map<string, string>

  /** File.Exists: the empty path never names a file. */
  predicate FileExists(files: FileSystem, path: string)
  {
    path != [] && path in files
  }
}
