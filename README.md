# network-scanner: the parsers, the host reconciliation and the secret mask, in Dafny

network-scanner runs arp-scan on a network interface. It compares every host it sees with
two registries of known hosts: the hosts file (`/etc/hosts`) and, optionally, a dnsmasq
file of DHCP reservations (`dhcp-host=MAC,IP,name` lines). It reports two things:

- the hosts it cannot place (unknown hosts);
- the hosts whose MAC address has a reservation for another IP address (mismatches).

This project models:

- the two text parsers of `src/Parser.cs`:
  - the hosts-file parser, with its trim, its white-space collapse and its split;
  - the reservations parser, with the regular expression `dhcp-host=([0-9A-F:]+),([0-9.]+),(.*)`, modelled as a leftmost-match function;
- the argument checks and the reconciliation loop of the two versions of
  `Scanner.DetectUnknownHosts`:
  - `src/Scanner.cs` keeps one mismatch list;
  - `src/Services/Scanner.cs` replaces its mismatch list on every iteration that reaches the reservations branch (past the hosts-file `continue` at line 76, with a reservations list present, lines 78-80);
- `MaskString`, which the project keeps twice, once in each `Utilities.cs`.

The modules follow that structure:

| module | file | contents |
|---|---|---|
| `Wrappers` | wrappers.dfy | `Option` (a .NET null is `None`), `Result` (a thrown `ArgumentException` is a `Failure`), `String.IsNullOrEmpty` |
| `Seqs` | seqs.dfy | the "keep what a line gives" fold over a list, and a filter |
| `Text` | text.dfy | `Char.IsWhiteSpace`/`\s`, `Trim`, `Split`, the `\s+` → `" "` replace, and `Words`, the reference meaning of "the white-space-separated tokens" |
| `Models` | models.dfy | the records (`HostsEntry`, `DhcpReservationEntry`, `ArpScanEntry`, the mismatch pair, `DetectUnknownHostsResults`), the argument errors, and the file system as a map |
| `Parser` | parser.dfy | the two parser methods with their loops, the per-line specification functions, the regular-expression matcher and its soundness and completeness |
| `Matching` | matching.dfy | the two `List.Find` lookups, what the loop body decides for one scanned host, what the loop collects over a scan, and the lemmas about it |
| `Scanner` | scanner.dfy | `DetectUnknownHosts` of `src/Scanner.cs` |
| `ServicesScanner` | services_scanner.dfy | `DetectUnknownHosts` of `src/Services/Scanner.cs`, and the same loop with the mismatch list created once |
| `ServicesUtilities`, `Utilities` | services_utilities.dfy, utilities.dfy | the two `MaskString`s |

The parser and scanner methods are imperative, as the source is. Each loop is proved
against a specification function of the method's inputs. The lemmas then state what the
source promises about those functions.

Constants fixed by the model:

- `Environment.NewLine` is `"\n"`.
- The white space of `Trim` and of `\s` is the .NET set: U+0009 to U+000D, U+0085, and the Unicode space, line and paragraph separators.
- `StartsWith("#")` is an ordinal comparison.
- A failed `Regex.Match` has one group, so `Groups.Count != 4` means "no match".

## Model

| member | source | states |
|---|---|---|
| Parser.ParseHostsFileContent | src/Parser.cs:21-64 | Null or empty content gives no entries. Otherwise the loop (trim, skip comments and lines with ':', collapse `\s+` to one space, split on ' ', keep parts 0 and 1 when there are two) yields exactly the entries `HostsFileEntries` assigns: for each '\n'-separated line in order, the first two white-space-separated tokens of that line. |
| Parser.HostsLineEntry | src/Parser.cs:32-58 | The address and the host name of an entry are nonempty and hold no white space. |
| Parser.HostsLineRoundTrip | src/Parser.cs:35-58 | A line `ip + " " + name + aliases` yields exactly `(ip, name)` when ip and name are tokens, the line has no ':' and ip does not start with '#'. The aliases are dropped. |
| Parser.HostsWhiteSpaceLine | src/Parser.cs:46-52 | A line of white space only yields no entry. |
| Parser.HostsSkippedLine | src/Parser.cs:37-43 | A comment line (its trim starts with '#') or an IPv6 line (it holds ':') between two texts adds nothing: the file's entries are those of the text before it followed by those of the text after it. |
| Parser.FileEntriesAppend | src/Parser.cs:28-61 | Joining two texts with a line break concatenates their entries, so entries keep the order of their lines. |
| Parser.FileEntriesOneLine | src/Parser.cs:28-33 | A text without a line break is one line and yields at most that line's entry. |
| Parser.FileEntriesSkipLine | src/Parser.cs:80-94 | A line that yields nothing, between two texts, leaves the entries of both texts unchanged. |
| Parser.FileEntriesFromLines | src/Parser.cs:78-104 | There are at most as many entries as lines, and every entry is what some line yields. |
| Parser.MatchAtSound | src/Parser.cs:13 | When the greedy attempt at position i succeeds, the pattern really matches there. The match holds the literal `dhcp-host=`, a nonempty `[0-9A-F:]` group, ',', a nonempty `[0-9.]` group, ',', and a name group that runs to the next line feed or to the end. |
| Parser.MatchAtComplete | src/Parser.cs:13 | Every real match at i is what the attempt at i reports. With MatchAtSound this is an if-and-only-if. |
| Parser.FirstMatch | src/Parser.cs:91 | The result is the least position from `from` where an attempt succeeds, or None when none does. No attempt succeeds before it. |
| Parser.MatchGroups | src/Parser.cs:91-93 | There are four groups exactly when the pattern matches. Group 0 is the text of the match. |
| Parser.DhcpLineEntry | src/Parser.cs:82-101 | An entry's MAC address is a nonempty run of `0-9A-F:`, its IP address a nonempty run of digits and '.', and its host name holds no line feed. |
| Parser.ParseDhcpReservationsFileContent | src/Parser.cs:71-107 | Null or empty content gives no entries. Otherwise the loop yields exactly `DhcpReservationsFileEntries`: for each line in order, the groups of the leftmost match in its trim, unless the line is empty or a comment. |
| Parser.DhcpLineEntryIffMatch | src/Parser.cs:82-94 | A line yields an entry if and only if it is nonempty, its trim does not start with '#', and the pattern matches its trim somewhere. |
| Parser.DhcpLineEntryLeftmost | src/Parser.cs:91-101 | The groups come from a match that starts earliest in the trimmed line: no match starts before it. |
| Parser.DhcpHostNameIsRestOfLine | src/Parser.cs:96-101 | On one line, the match runs to the end of the trimmed line, so the host name is everything after the second comma of the match. |
| Parser.DhcpLineRoundTrip | src/Parser.cs:13 | A line `dhcp-host=MAC,IP,name` yields exactly (MAC, IP, name) when its groups are of the pattern's classes and the name does not end in white space. |
| Parser.DhcpDocumentedExample | src/Parser.cs:12-13 | The documented line `dhcp-host=98:DE:D0:1F:FA:57,192.168.1.20,hostname` yields MAC `98:DE:D0:1F:FA:57`, IP `192.168.1.20` and name `hostname`. |
| Parser.DhcpCommentLine | src/Parser.cs:87-89 | A comment line in a reservations file adds nothing to the entries of the lines around it. |
| Text.Trim | src/Parser.cs:35 | The result is the text between the leading white space and the trailing white space. It is empty exactly when the line is all white space; otherwise it neither starts nor ends with white space. |
| Text.TrimKeeps | src/Parser.cs:35-43 | A character that is not white space is in the trimmed line if and only if it is in the raw line. So testing ':' on the trim tests the raw line. |
| Text.CollapseWhiteSpace | src/Parser.cs:46 | After the replace, every white-space character is ' ' and no two spaces are adjacent. The result is no longer than the input. |
| Text.Split | src/Parser.cs:28 | Split always yields at least one piece. |
| Text.SplitPieces | src/Parser.cs:28 | No piece holds the separator, and joining the pieces with it gives back the text. |
| Text.SplitJoin | src/Parser.cs:28 | Splitting the join of separator-free pieces gives back the pieces, empty ones included. |
| Text.SplitCollapsedIsWords | src/Parser.cs:35-48 | Trimming, collapsing `\s+` to ' ' and splitting on ' ' yields exactly the white-space-separated tokens of the line, or the single empty piece when the line has none. |
| Text.WordsOfTrim | src/Parser.cs:35 | Trimming does not change the tokens. |
| Text.WordsAreTokens | src/Parser.cs:46-58 | Every token is nonempty and holds no white space. |
| Matching.FindHostsEntry | src/Scanner.cs:77 | The result is None exactly when no hosts entry has the address. Otherwise it is the first entry that has it. |
| Matching.FindReservation | src/Scanner.cs:85 | The result is None exactly when no reservation has the MAC address. Otherwise it is the first reservation in list order that has it. |
| Matching.UnknownHostsMember | src/Scanner.cs:75-101 | A host is reported unknown if and only if it was scanned, is not in the hosts file, and either there is no reservations file, or it has no reservation, or its reservation has another IP. |
| Matching.MismatchesMember | src/Scanner.cs:83-96 | A pair is recorded if and only if its host was scanned, is not in the hosts file, and its first reservation by MAC address is that reservation and has another IP. |
| Matching.UnknownHostsAppend | src/Scanner.cs:75-101 | Scanning a and then b reports a's unknown hosts and then b's. |
| Matching.MismatchesAppend | src/Scanner.cs:75-101 | Scanning a and then b records a's pairs and then b's: one pair per qualifying host, in scan order. |
| Matching.UnknownHostsSubsequence | src/Scanner.cs:75-101 | The unknown hosts are an order-preserving subsequence of the scan, with strictly increasing witness positions. |
| Matching.ListedHostIgnored | src/Scanner.cs:77-81 | A host whose address is in the hosts file is in neither output. |
| Matching.ReservedHostIgnored | src/Scanner.cs:85-92 | A host whose first reservation by MAC address has its IP too is in neither output. |
| Matching.MismatchAlsoUnknown | src/Scanner.cs:95-100 | A host not in the hosts file whose first reservation has another IP is recorded with that reservation, and is also reported unknown. |
| Matching.MismatchedHostReportedTwice | src/Scanner.cs:95-100 | A concrete case: a host at 192.168.1.51 whose MAC is reserved for 192.168.1.50 appears both as a mismatch and as an unknown host. |
| Matching.ListedPrinterScenario | src/Scanner.cs:77-100 | A concrete case: with a hosts entry for 192.168.1.10 and no reservations, a scan of 192.168.1.10 and 192.168.1.99 reports only 192.168.1.99 and no mismatch. |
| Matching.WithoutReservations | src/Scanner.cs:83-100 | Without a reservations file, no pair is recorded and the per-iteration list stays null. The unknown hosts are exactly the scanned hosts whose address is in no hosts entry, in scan order. |
| Matching.LastMismatches | src/Services/Scanner.cs:80-92 | The list, re-created on every iteration that gets past the hosts-file check with a reservations list present, holds at most one pair. |
| Matching.LastMismatchesNull | src/Services/Scanner.cs:68-80 | The returned list is null if and only if no scanned host reached the reservations branch. Equivalently, there is no reservations file or every scanned address is in the hosts file. |
| Matching.LastMismatchesOfLastReaching | src/Services/Scanner.cs:80-92 | The returned list holds what the last host to reach the reservations branch recorded: its pair if it was a mismatch, nothing otherwise. |
| Matching.LastMismatchesSuffix | src/Services/Scanner.cs:80-92 | The per-iteration list is a suffix of the list `src/Scanner.cs` accumulates over the same scan. This relates the two versions. |
| Matching.NothingReachedNoMismatches | src/Services/Scanner.cs:68-80 | Until some host reaches the reservations branch, no pair is recorded. |
| Matching.SecondMismatchReplacesFirst | src/Services/Scanner.cs:80 | A concrete case: with two mismatched hosts, the list re-created on each iteration that reaches the reservations branch ends with the second pair only, while the accumulated list holds both. |
| Matching.ReconcileDisjoint | src/Scanner.cs:95-100 | In the corrected reconciliation, a host reported unknown is never in a recorded pair, and is also unknown in the loop as written. |
| Matching.ReconciledUnknownHostsClass | src/Scanner.cs:83-100 | The corrected reconciliation reports a host as unknown exactly when it was scanned, is not in the hosts file, and has no reservation (or there is no reservations file). |
| Scanner.Reconcile | src/Scanner.cs:72-101 | The loop's two lists are `UnknownHosts` and `Mismatches` of the scan, and an empty scan gives two empty lists. |
| Scanner.DetectUnknownHosts | src/Scanner.cs:17-101 | Each ArgumentException comes in source order: empty interface name; empty hosts path; missing hosts file; missing reservations file; push notifications without an API key. The call succeeds exactly when every check passes. Its findings are then the loop's lists over the parsed hosts file and the parsed reservations, which are null when no reservations path is given. |
| ServicesScanner.Reconcile | src/Services/Scanner.cs:67-104 | The unknown hosts are the same `UnknownHosts` as in `src/Scanner.cs`. The returned mismatch list is `LastMismatches`, with at most one pair. |
| ServicesScanner.ReconcileKeepingMismatches | src/Services/Scanner.cs:67-104 | With the list created once before the loop when there is a reservations file, the list keeps every pair of the scan, in scan order, and is null exactly when there is no reservations file. The unknown hosts are those of the version as written. |
| ServicesScanner.DetectUnknownHosts | src/Services/Scanner.cs:15-104 | The four ArgumentExceptions come in source order, and the call succeeds exactly when every check passes. Its results are then `UnknownHosts` and `LastMismatches` over the parsed files. |
| ServicesUtilities.Repeat | src/Services/Utilities.cs:16 | `new String(c, n)` has length n and every character is c. |
| ServicesUtilities.MaskString | src/Services/Utilities.cs:8-17 | Null and empty input comes back unchanged, and input of 1 to 4 characters becomes `"****"`. Longer input keeps its length and its last four characters, and every other character becomes '*'. |
| ServicesUtilities.MaskStringIdempotent | src/Services/Utilities.cs:10-16 | Masking a masked string changes nothing. |
| ServicesUtilities.MaskStringHidesPrefix | src/Services/Utilities.cs:16 | Two strings longer than four with the same length and the same last four characters are masked alike: the mask shows nothing else. |
| Utilities.MaskString | src/Utilities.cs:7-16 | `maskString`: the same four cases as `MaskString`. |
| Utilities.MaskStringIdempotent | src/Utilities.cs:9-15 | Masking with `maskString` is idempotent. |

## Left out

- File reading: `ParseHostsFile` and `ParseDhcpReservationsFile` (src/Parser.cs:15-19, 65-69) are I/O. The scanners take the file contents from a map from path to text, and `File.Exists` is membership in that map for a nonempty path.
- `ArpScan.Execute` and `Parser.ParseAprScanOutput` are an external process and a parser that is not part of this model. Their result, the scanned hosts, is an input.
- The console reports, push notifications, `Pushover`, the notification history (present only as TODO comments), `Program.cs` and `Utilities.AppVersion` (reflection) are left out. So is the root `Scanner.cs`, whose `Scan` runs the four argument checks of src/Services/Scanner.cs:17-27 (Scanner.cs:16-26) and then throws `NotImplementedException` (Scanner.cs:37).
- The `verbose` console output and the default parameter values (`hostsPath = "/etc/hosts"`) are left out. Callers pass every argument.
- Scanner.DetectUnknownHosts ends where the console report begins. It returns the two lists the report and the push-notification condition use.
- `StartsWith` is culture-sensitive in .NET and the model compares ordinally. The two differ when the trimmed line starts with a character that culture-sensitive comparison ignores, such as U+00AD, U+200B or U+0000, before the '#': `Trim` keeps those characters, .NET then treats the line as a comment, and the model does not. This affects `Parser.HostsLineEntry` (src/Parser.cs:38), which then yields an entry whose address starts with the ignorable character, and `Parser.DhcpLineEntry` (src/Parser.cs:87), which then tries the pattern on the line. They also differ when the '#' is followed by a combining mark, such as U+0301: .NET does not treat such a line as a comment, and the model does.
- ServicesUtilities.MaskString: lengths are counted in Unicode characters (a Dafny `string` is a sequence of scalar values), while .NET `Length` and `Substring` count UTF-16 code units. The model agrees with src/Services/Utilities.cs:10-16 only on text without characters outside the Basic Multilingual Plane: for "😀😀😀" (.NET length 6) the source returns "**😀😀" and the model "****", and a `Substring` that cuts a surrogate pair has no counterpart. The masked Pushover token at src/Program.cs:109 is ASCII.
- Utilities.MaskString: the same character-count difference as `ServicesUtilities.MaskString`, against src/Utilities.cs:9-15.
- `Environment.NewLine` is fixed to `"\n"`. On Windows it is `"\r\n"`, which the model does not cover.
- The comment at src/Scanner.cs:99, "Didn't find a match in either", says the add that follows is for hosts that neither the hosts file nor the reservations file knows, and a mismatched host is known to the reservations file. The code still adds a mismatched host to both lists, and the model follows the code. The reconciliation with a `continue` after a mismatch is modelled separately as `Matching.Reconcile` (see Findings).
- Parser.DhcpLineRoundTrip: stated only for names that do not end in white space, because `Trim` would remove that white space.
- Parser.HostsLineRoundTrip: stated for a single blank between address and name. Longer or other white-space runs are covered by `Text.SplitCollapsedIsWords`.

## Findings

| source | as written | input that shows it | evidently intended | confidence | as-written member | corrected member |
|---|---|---|---|---|---|---|
| src/Scanner.cs:95-100 | After recording a mismatch there is no `continue`, so the host also falls through to `unknownHosts.Add`. The same happens at src/Services/Scanner.cs:92-97. | A reservation of AA:BB:CC:DD:EE:FF for 192.168.1.50, and a scan that sees AA:BB:CC:DD:EE:FF at 192.168.1.51: the host is reported as a mismatch and as unknown. | A host with a reservation whose IP differs is reported as a mismatch only. | not executed | Matching.MismatchedHostReportedTwice | Matching.ReconcileDisjoint |
| src/Services/Scanner.cs:80 | The mismatch list is replaced by a new empty list on every iteration that reaches the reservations branch. Only the last such iteration's pair survives. | Hosts 10.0.0.2 (MAC AA, reserved for 10.0.0.1) and 10.0.0.4 (MAC BB, reserved for 10.0.0.3): only the second pair is returned. | The list is created once before the loop, as in src/Scanner.cs:73 (here only when there is a reservations file, so that null still means no reservations file), and keeps every pair. | not executed | Matching.SecondMismatchReplacesFirst | ServicesScanner.ReconcileKeepingMismatches |
