/** The hosts-file and dnsmasq reservation parsers of src/Parser.cs. The file contents are
    given as text; reading the files is not modelled. */
module Parser {
  import opened Wrappers
  import opened Text
  import opened Seqs
  import opened Models

  /** Environment.NewLine, taken to be the Unix line feed. */
  const NewLine: char := '\n'

  // ---------------------------------------------------------------- hosts file

  /** What a hosts-file line contributes: nothing when it is empty, a comment (its first
      non-white-space character is '#'), an IPv6 line (it holds a ':') or has fewer than two
      whitespace-separated tokens; otherwise its first two tokens, the others being aliases. */
  function HostsLineEntry(rawLine: string): (r: Option<HostsEntry>)
    ensures r.Some? ==> r.value.ipAddress != [] && NoWhiteSpace(r.value.ipAddress)
    ensures r.Some? ==> r.value.hostName != [] && NoWhiteSpace(r.value.hostName)
  {
    var words := Words(rawLine);
    WordsAreTokens(rawLine);
    if rawLine == [] || StartsWith(Trim(rawLine), "#") || ':' in rawLine || |words| < 2 then None
    else Some(HostsEntry(words[0], words[1]))
  }

  /** The entries of a file: null or empty content has none; otherwise each line of the
      content contributes what lineEntry makes of it, in line order. */
  function FileEntries<U>(content: Option<string>, lineEntry: string -> Option<U>): seq<U>
  {
    if IsNullOrEmpty(content) then []
    else FilterMap(Split(content.value, NewLine), lineEntry)
  }

  function HostsFileEntries(hostsFileContent: Option<string>): seq<HostsEntry>
  {
    FileEntries(hostsFileContent, HostsLineEntry)
  }

  /** Parser.ParseHostsFileContent: trims each line, skips comments and IPv6 lines, collapses
      white space runs to one space and splits on it. */
  method ParseHostsFileContent(hostsFileContent: Option<string>) returns (entries: seq<HostsEntry>)
    ensures IsNullOrEmpty(hostsFileContent) ==> entries == []
    ensures entries == HostsFileEntries(hostsFileContent)
  {
    entries := [];
    if IsNullOrEmpty(hostsFileContent) {
      return;
    }
    var lines := Split(hostsFileContent.value, NewLine);
    for i := 0 to |lines|
      invariant entries == FilterMap(lines[..i], HostsLineEntry)
    {
      var rawLine := lines[i];
      assert lines[..i + 1][..i] == lines[..i];
      if rawLine == [] {
        continue;
      }
      var line := Trim(rawLine);
      if StartsWith(line, "#") {
        continue;
      }
      TrimKeeps(rawLine, ':');
      if ':' in line {
        continue;
      }
      line := CollapseWhiteSpace(line);
      var parts := Split(line, ' ');
      SplitCollapsedIsWords(rawLine);
      if |parts| < 2 {
        continue;
      }
      var entry := HostsEntry(parts[0], parts[1]);
      entries := entries + [entry];
    }
    assert lines[..|lines|] == lines;
  }

  /** A line of white space only has no tokens, so it gives no entry. */
  lemma HostsWhiteSpaceLine(rawLine: string)
    requires AllWhiteSpace(rawLine)
    ensures HostsLineEntry(rawLine) == None
  {
    WordsOfWhiteSpace(rawLine);
  }

  /** A line written as an address, one blank, a name and then nothing or further
      white-space-separated aliases gives the address and the name; the aliases are dropped. */
  lemma HostsLineRoundTrip(ip: string, name: string, aliases: string)
    requires ip != [] && NoWhiteSpace(ip) && name != [] && NoWhiteSpace(name)
    requires ip[0] != '#' && ':' !in ip && ':' !in name && ':' !in aliases
    requires aliases == [] || IsWhiteSpace(aliases[0])
    ensures HostsLineEntry(ip + " " + name + aliases) == Some(HostsEntry(ip, name))
  {
    var line := ip + " " + name + aliases;
    HostsLineWords(ip, name, aliases);
    assert line[0] == ip[0];
    TrimStartsAtFirstCharacter(line);
    StartsWithChar(Trim(line), '#');
    assert ':' !in line;
  }

  /** The words of such a line: the address, the name, then the aliases. */
  lemma HostsLineWords(ip: string, name: string, aliases: string)
    requires ip != [] && NoWhiteSpace(ip) && name != [] && NoWhiteSpace(name)
    requires aliases == [] || IsWhiteSpace(aliases[0])
    ensures Words(ip + " " + name + aliases) == [ip, name] + Words(aliases)
    ensures var w := Words(ip + " " + name + aliases); |w| >= 2 && w[0] == ip && w[1] == name
  {
    var tail := name + aliases;
    var after := [' '] + tail;
    assert ip + " " + name + aliases == ip + after;
    assert after[0] == ' ';
    WordsCons(ip, after);
    WordsAfterWhiteSpace(' ', tail);
    WordsCons(name, aliases);
    TwoHeads(Words(ip + after), ip, Words(after), Words(tail), name, Words(aliases));
  }

  // ------------------------------------------------------- reservations file

  /** The literal that starts the pattern dhcp-host=([0-9A-F:]+),([0-9.]+),(.*). */
  const DhcpHostPrefix: string := "dhcp-host="

  /** The text a match covers (its group 0), given the three captured groups. */
  function MatchText(e: DhcpReservationEntry): string
  {
    DhcpHostPrefix + e.macAddress + "," + e.ipAddress + "," + e.hostName
  }

  /** The pattern matches s at position i with groups e: the text of the match appears at i,
      the MAC group is a nonempty run of [0-9A-F:], the IP group a nonempty run of [0-9.],
      and the name group, as the greedy `.*`, runs up to the next line feed or the end. */
  ghost predicate MatchesAt(s: string, i: nat, e: DhcpReservationEntry)
  {
    var w := MatchText(e);
    && i + |w| <= |s| && s[i..i + |w|] == w
    && e.macAddress != [] && AllInClass(e.macAddress, MacAddressChar)
    && e.ipAddress != [] && AllInClass(e.ipAddress, IpAddressChar)
    && AllInClass(e.hostName, NotLineFeed)
    && (i + |w| == |s| || s[i + |w|] == '\n')
  }

  /** The match attempt at position i, as the backtracking engine makes it: the literal,
      then the groups. */
  function MatchAt(s: string, i: nat): Option<DhcpReservationEntry>
    requires i <= |s|
  {
    if StartsWith(s[i..], DhcpHostPrefix) then MatchMacGroup(s[i + |DhcpHostPrefix|..]) else None
  }

  /** ([0-9A-F:]+) then ','. The run cannot end anywhere but before a ',' (which the class
      does not hold), so taking it whole loses no match. */
  function MatchMacGroup(m: string): Option<DhcpReservationEntry>
  {
    var a := Span(m, MacAddressChar);
    if a == 0 || a == |m| || m[a] != ',' then None else MatchIpAndNameGroups(m[..a], m[a + 1..])
  }

  /** ([0-9.]+) then ',' then (.*), the last group running up to a line feed or the end. */
  function MatchIpAndNameGroups(mac: string, n: string): Option<DhcpReservationEntry>
  {
    var b := Span(n, IpAddressChar);
    if b == 0 || b == |n| || n[b] != ',' then None
    else
      var rest := n[b + 1..];
      Some(DhcpReservationEntry(mac, n[..b], rest[..Span(rest, NotLineFeed)]))
  }

  /** Reassociates the pieces of a match followed by the rest of the text. */
  lemma MatchTextThen(e: DhcpReservationEntry, m: string, n: string, rest: string, tail: string)
    requires m == e.macAddress + [','] + n && n == e.ipAddress + [','] + rest && rest == e.hostName + tail
    ensures DhcpHostPrefix + m == MatchText(e) + tail
  {
  }

  /** A match at i, put together from the pieces that follow the literal. */
  lemma MatchFromPieces(s: string, i: nat, e: DhcpReservationEntry, m: string, n: string, rest: string, tail: string)
    requires i + |DhcpHostPrefix| <= |s| && s[i..i + |DhcpHostPrefix|] == DhcpHostPrefix
    requires m == s[i + |DhcpHostPrefix|..]
    requires m == e.macAddress + [','] + n && n == e.ipAddress + [','] + rest && rest == e.hostName + tail
    requires e.macAddress != [] && AllInClass(e.macAddress, MacAddressChar)
    requires e.ipAddress != [] && AllInClass(e.ipAddress, IpAddressChar)
    requires AllInClass(e.hostName, NotLineFeed)
    requires tail == [] || tail[0] == '\n'
    ensures MatchesAt(s, i, e)
  {
    SliceThen(s, i, DhcpHostPrefix, m);
    MatchTextThen(e, m, n, rest, tail);
    SliceThen(s, i, MatchText(e), tail);
  }

  /** What a successful ([0-9.]+),(.*) stage has read: the IP group, the ',', the name group
      and the text after it, which is empty or starts with a line feed. */
  lemma IpAndNameGroupsSound(mac: string, n: string) returns (rest: string, tail: string)
    requires MatchIpAndNameGroups(mac, n).Some?
    ensures var e := MatchIpAndNameGroups(mac, n).value;
            && e.macAddress == mac && n == e.ipAddress + [','] + rest && rest == e.hostName + tail
            && e.ipAddress != [] && AllInClass(e.ipAddress, IpAddressChar)
            && AllInClass(e.hostName, NotLineFeed) && (tail == [] || tail[0] == '\n')
  {
    var b := Span(n, IpAddressChar);
    rest := n[b + 1..];
    JoinAt(n, b);
    var c := Span(rest, NotLineFeed);
    tail := rest[c..];
    SplitAtIndex(rest, c);
    SpanInClass(n, IpAddressChar);
    SpanInClass(rest, NotLineFeed);
  }

  /** What a successful ([0-9A-F:]+), stage has read, followed by what the next stage read. */
  lemma MacGroupSound(m: string) returns (n: string, rest: string, tail: string)
    requires MatchMacGroup(m).Some?
    ensures var e := MatchMacGroup(m).value;
            && m == e.macAddress + [','] + n && n == e.ipAddress + [','] + rest && rest == e.hostName + tail
            && e.macAddress != [] && AllInClass(e.macAddress, MacAddressChar)
            && e.ipAddress != [] && AllInClass(e.ipAddress, IpAddressChar)
            && AllInClass(e.hostName, NotLineFeed) && (tail == [] || tail[0] == '\n')
  {
    var a := Span(m, MacAddressChar);
    n := m[a + 1..];
    JoinAt(m, a);
    SpanInClass(m, MacAddressChar);
    rest, tail := IpAndNameGroupsSound(m[..a], n);
  }

  /** The greedy attempt only reports real matches. */
  lemma MatchAtSound(s: string, i: nat)
    requires i <= |s| && MatchAt(s, i).Some?
    ensures MatchesAt(s, i, MatchAt(s, i).value)
  {
    var p := |DhcpHostPrefix|;
    var m := s[i + p..];
    assert s[i..][..p] == s[i..i + p];
    assert MatchAt(s, i) == MatchMacGroup(m);
    var n, rest, tail := MacGroupSound(m);
    MatchFromPieces(s, i, MatchAt(s, i).value, m, n, rest, tail);
  }

  lemma MacGroupOf(mac: string, n: string)
    requires mac != [] && AllInClass(mac, MacAddressChar)
    ensures MatchMacGroup(mac + [','] + n) == MatchIpAndNameGroups(mac, n)
  {
    SpanBefore(mac, ',', n, MacAddressChar);
    CutAt(mac, ',', n);
  }

  lemma IpAndNameGroupsOf(mac: string, ip: string, rest: string)
    requires ip != [] && AllInClass(ip, IpAddressChar)
    ensures MatchIpAndNameGroups(mac, ip + [','] + rest)
              == Some(DhcpReservationEntry(mac, ip, rest[..Span(rest, NotLineFeed)]))
  {
    SpanBefore(ip, ',', rest, IpAddressChar);
    CutAt(ip, ',', rest);
  }

  /** Every real match at i is the one the greedy attempt reports. */
  lemma MatchAtComplete(s: string, i: nat, e: DhcpReservationEntry)
    requires MatchesAt(s, i, e)
    ensures i <= |s| && MatchAt(s, i) == Some(e)
  {
    var w := MatchText(e);
    var tail := s[i + |w|..];
    SliceThen(s, i, w, tail);
    var rest := e.hostName + tail;
    var n := e.ipAddress + [','] + rest;
    var m := e.macAddress + [','] + n;
    MatchTextThen(e, m, n, rest, tail);
    SliceThen(s, i, DhcpHostPrefix, m);
    MatchAtLiteral(s, i, m);
    MacGroupOf(e.macAddress, n);
    IpAndNameGroupsOf(e.macAddress, e.ipAddress, rest);
    NameGroupOf(e.hostName, tail);
  }

  /** After the literal, the attempt at i goes on with the MAC group on what follows it. */
  lemma MatchAtLiteral(s: string, i: nat, m: string)
    requires i + |DhcpHostPrefix| <= |s| && s[i..i + |DhcpHostPrefix|] == DhcpHostPrefix
    requires m == s[i + |DhcpHostPrefix|..]
    ensures MatchAt(s, i) == MatchMacGroup(m)
  {
    assert s[i..][..|DhcpHostPrefix|] == s[i..i + |DhcpHostPrefix|];
  }

  /** The greedy (.*) takes the name up to the line feed or the end. */
  lemma NameGroupOf(name: string, tail: string)
    requires AllInClass(name, NotLineFeed) && (tail == [] || tail[0] == '\n')
    ensures (name + tail)[..Span(name + tail, NotLineFeed)] == name
  {
    SpanOfRun(name, tail, NotLineFeed);
    assert (name + tail)[..|name|] == name;
  }

  /** A successful Regex.Match: where it starts and its three groups. */
  datatype RegexMatch = RegexMatch(index: nat, groups: DhcpReservationEntry)

  /** Regex.Match on an unanchored pattern: the attempts at from, from + 1, ..., |s|, and the
      first of them that succeeds. */
  function FirstMatch(s: string, from: nat): (r: Option<RegexMatch>)
    requires from <= |s|
    ensures r.Some? ==> from <= r.value.index <= |s| && MatchAt(s, r.value.index) == Some(r.value.groups)
    ensures forall j :: from <= j <= |s| && (r.None? || j < r.value.index) ==> MatchAt(s, j).None?
    decreases |s| - from
  {
    match MatchAt(s, from)
    case Some(e) => Some(RegexMatch(from, e))
    case None => if from == |s| then None else FirstMatch(s, from + 1)
  }

  /** The values of Match.Groups: a failed match has the single empty group 0; a successful
      one has group 0, the text of the match, and the three captured groups. */
  function MatchGroups(line: string): (g: seq<string>)
    ensures |g| == 4 <==> FirstMatch(line, 0).Some?
    ensures |g| == 4 ==> g[0] == MatchText(FirstMatch(line, 0).value.groups)
  {
    match FirstMatch(line, 0)
    case None => [[]]
    case Some(m) => [MatchText(m.groups), m.groups.macAddress, m.groups.ipAddress, m.groups.hostName]
  }

  /** What a reservations-file line contributes: nothing when it is empty or a comment (its
      first non-white-space character is '#'); otherwise the groups of the leftmost match in
      the trimmed line, if there is one. */
  function DhcpLineEntry(rawLine: string): (r: Option<DhcpReservationEntry>)
    ensures r.Some? ==> r.value.macAddress != [] && AllInClass(r.value.macAddress, MacAddressChar)
    ensures r.Some? ==> r.value.ipAddress != [] && AllInClass(r.value.ipAddress, IpAddressChar)
    ensures r.Some? ==> AllInClass(r.value.hostName, NotLineFeed)
  {
    if rawLine == [] then None
    else
      var line := Trim(rawLine);
      if StartsWith(line, "#") then None
      else
        match FirstMatch(line, 0)
        case None => None
        case Some(m) => MatchAtSound(line, m.index); Some(m.groups)
  }

  function DhcpReservationsFileEntries(content: Option<string>): seq<DhcpReservationEntry>
  {
    FileEntries(content, DhcpLineEntry)
  }

  /** Parser.ParseDhcpReservationsFileContent: trims each line, skips comments, and keeps the
      groups of each line the reservation pattern matches. */
  method ParseDhcpReservationsFileContent(dhcpReservationsFileContent: Option<string>)
    returns (entries: seq<DhcpReservationEntry>)
    ensures IsNullOrEmpty(dhcpReservationsFileContent) ==> entries == []
    ensures entries == DhcpReservationsFileEntries(dhcpReservationsFileContent)
  {
    entries := [];
    if IsNullOrEmpty(dhcpReservationsFileContent) {
      return;
    }
    var lines := Split(dhcpReservationsFileContent.value, NewLine);
    for i := 0 to |lines|
      invariant entries == FilterMap(lines[..i], DhcpLineEntry)
    {
      var rawLine := lines[i];
      assert lines[..i + 1][..i] == lines[..i];
      if rawLine == [] {
        continue;
      }
      var line := Trim(rawLine);
      if StartsWith(line, "#") {
        continue;
      }
      var groups := MatchGroups(line);
      if |groups| != 4 {
        continue;
      }
      var entry := DhcpReservationEntry(groups[1], groups[2], groups[3]);
      entries := entries + [entry];
    }
    assert lines[..|lines|] == lines;
  }

  /** A line gives an entry exactly when it is neither empty nor a comment and the pattern
      matches its trimmed text somewhere. */
  lemma DhcpLineEntryIffMatch(rawLine: string)
    ensures DhcpLineEntry(rawLine).Some? <==>
              rawLine != [] && !StartsWith(Trim(rawLine), "#") && exists i, e :: MatchesAt(Trim(rawLine), i, e)
  {
    var t := Trim(rawLine);
    if rawLine != [] && !StartsWith(t, "#") {
      match FirstMatch(t, 0)
      case Some(m) =>
        MatchAtSound(t, m.index);
      case None =>
        forall i, e | MatchesAt(t, i, e)
          ensures false
        {
          MatchAtComplete(t, i, e);
        }
    }
  }

  /** The groups come from the leftmost match: no match starts earlier in the trimmed line. */
  lemma DhcpLineEntryLeftmost(rawLine: string, e: DhcpReservationEntry)
    requires DhcpLineEntry(rawLine) == Some(e)
    ensures exists i: nat :: MatchesAt(Trim(rawLine), i, e) &&
              forall j: nat, e' :: j < i ==> !MatchesAt(Trim(rawLine), j, e')
  {
    var t := Trim(rawLine);
    var m := FirstMatch(t, 0).value;
    MatchAtSound(t, m.index);
    forall j: nat, e' | j < m.index
      ensures !MatchesAt(t, j, e')
    {
      if MatchesAt(t, j, e') {
        MatchAtComplete(t, j, e');
      }
    }
  }

  /** In a text without line feeds a match runs to the end. */
  lemma MatchRunsToEnd(t: string, i: nat, e: DhcpReservationEntry)
    requires MatchesAt(t, i, e) && NewLine !in t
    ensures i <= |t| && t[i..] == MatchText(e)
  {
  }

  /** On a single line the match runs to the end of the trimmed line, so the host name is all
      that follows the second comma of the match. */
  lemma DhcpHostNameIsRestOfLine(rawLine: string, e: DhcpReservationEntry) returns (i: nat)
    requires NewLine !in rawLine && DhcpLineEntry(rawLine) == Some(e)
    ensures i <= |Trim(rawLine)| && Trim(rawLine)[i..] == MatchText(e)
  {
    var t := Trim(rawLine);
    i := FirstMatch(t, 0).value.index;
    MatchAtSound(t, i);
    TrimFrom(rawLine, NewLine);
    MatchRunsToEnd(t, i, e);
  }

  /** The first and the last character of a match's text. */
  lemma MatchTextEnds(e: DhcpReservationEntry)
    ensures var w := MatchText(e);
            && w[0] == 'd'
            && w[|w| - 1] == if e.hostName == [] then ',' else e.hostName[|e.hostName| - 1]
  {
    var w := MatchText(e);
    var v := DhcpHostPrefix + e.macAddress + "," + e.ipAddress + ",";
    assert w == v + e.hostName;
    assert w[0] == v[0] == DhcpHostPrefix[0];
    if e.hostName == [] {
      assert w[|w| - 1] == v[|v| - 1];
    } else {
      assert w[|w| - 1] == e.hostName[|e.hostName| - 1];
    }
  }

  /** A reservation line written in the documented form, with groups the pattern accepts and
      a name that does not end in white space, gives back exactly those groups. */
  lemma DhcpLineRoundTrip(e: DhcpReservationEntry)
    requires e.macAddress != [] && AllInClass(e.macAddress, MacAddressChar)
    requires e.ipAddress != [] && AllInClass(e.ipAddress, IpAddressChar)
    requires AllInClass(e.hostName, NotLineFeed)
    requires e.hostName == [] || !IsWhiteSpace(e.hostName[|e.hostName| - 1])
    ensures DhcpLineEntry(MatchText(e)) == Some(e)
  {
    var line := MatchText(e);
    MatchTextEnds(e);
    TrimUnchanged(line);
    assert line[0..|line|] == line;
    MatchAtComplete(line, 0, e);
    StartsWithChar(line, '#');
    DhcpLineMatchedAtStart(line, e);
  }

  /** A line that is its own trim, is no comment and matches at its start gives that match. */
  lemma DhcpLineMatchedAtStart(line: string, e: DhcpReservationEntry)
    requires line != [] && Trim(line) == line && !StartsWith(line, "#") && MatchAt(line, 0) == Some(e)
    ensures DhcpLineEntry(line) == Some(e)
  {
    assert FirstMatch(line, 0) == Some(RegexMatch(0, e));
  }

  /** The line documented beside the pattern, dhcp-host=98:DE:D0:1F:FA:57,192.168.1.20,hostname
      (written below in its pieces), gives the MAC address, IP address and name it spells. */
  lemma DhcpDocumentedExample()
    ensures DhcpLineEntry("dhcp-host=" + "98:DE:D0:1F:FA:57" + "," + "192.168.1.20" + "," + "hostname")
              == Some(DhcpReservationEntry("98:DE:D0:1F:FA:57", "192.168.1.20", "hostname"))
  {
    var e := DhcpReservationEntry("98:DE:D0:1F:FA:57", "192.168.1.20", "hostname");
    assert AllInClass(e.macAddress, MacAddressChar) && AllInClass(e.ipAddress, IpAddressChar);
    assert AllInClass(e.hostName, NotLineFeed);
    DhcpLineRoundTrip(e);
  }

  // ------------------------------------------------------------ both parsers

  /** Joining two texts with a line break concatenates their entries: entries keep the order
      of their lines. */
  lemma FileEntriesAppend<U>(a: string, b: string, lineEntry: string -> Option<U>)
    requires lineEntry([]) == None
    ensures FileEntries(Some(a + [NewLine] + b), lineEntry)
              == FileEntries(Some(a), lineEntry) + FileEntries(Some(b), lineEntry)
  {
    SplitAppend(a, NewLine, b);
    FilterMapAppend(Split(a, NewLine), Split(b, NewLine), lineEntry);
    if a == [] {
      FilterMapSingle(a, lineEntry);
    }
    if b == [] {
      FilterMapSingle(b, lineEntry);
    }
  }

  /** A text without a line break is a single line, which gives at most its one entry. */
  lemma FileEntriesOneLine<U>(line: string, lineEntry: string -> Option<U>)
    requires lineEntry([]) == None
    requires NewLine !in line
    ensures FileEntries(Some(line), lineEntry) == match lineEntry(line) case Some(e) => [e] case None => []
  {
    SplitWord(line, NewLine);
    FilterMapSingle(line, lineEntry);
  }

  /** A line between two others that gives no entry leaves the entries of the rest unchanged:
      comments and the other skipped lines contribute nothing. */
  lemma FileEntriesSkipLine<U>(a: string, line: string, b: string, lineEntry: string -> Option<U>)
    requires lineEntry([]) == None && lineEntry(line) == None
    requires NewLine !in line
    ensures FileEntries(Some(a + [NewLine] + line + [NewLine] + b), lineEntry)
              == FileEntries(Some(a), lineEntry) + FileEntries(Some(b), lineEntry)
  {
    var rest := line + [NewLine] + b;
    assert a + [NewLine] + line + [NewLine] + b == a + [NewLine] + rest;
    FileEntriesAppend(a, rest, lineEntry);
    FileEntriesAppend(line, b, lineEntry);
    FileEntriesOneLine(line, lineEntry);
    EmptyBetween(FileEntries(Some(a + [NewLine] + rest), lineEntry), FileEntries(Some(a), lineEntry),
                 FileEntries(Some(rest), lineEntry), FileEntries(Some(line), lineEntry), FileEntries(Some(b), lineEntry));
  }

  /** A comment line or an IPv6 line in a hosts file contributes no entry. */
  lemma HostsSkippedLine(a: string, line: string, b: string)
    requires NewLine !in line && (StartsWith(Trim(line), "#") || ':' in line)
    ensures HostsFileEntries(Some(a + [NewLine] + line + [NewLine] + b))
              == HostsFileEntries(Some(a)) + HostsFileEntries(Some(b))
  {
    FileEntriesSkipLine(a, line, b, HostsLineEntry);
  }

  /** A comment line in a reservations file contributes no entry. */
  lemma DhcpCommentLine(a: string, line: string, b: string)
    requires NewLine !in line && StartsWith(Trim(line), "#")
    ensures DhcpReservationsFileEntries(Some(a + [NewLine] + line + [NewLine] + b))
              == DhcpReservationsFileEntries(Some(a)) + DhcpReservationsFileEntries(Some(b))
  {
    FileEntriesSkipLine(a, line, b, DhcpLineEntry);
  }

  /** At most one entry per line, and every entry is what lineEntry makes of one of the lines. */
  lemma FileEntriesFromLines<U>(content: string, lineEntry: string -> Option<U>)
    ensures |FileEntries(Some(content), lineEntry)| <= |Split(content, NewLine)|
    ensures forall e :: e in FileEntries(Some(content), lineEntry) ==>
              exists line :: line in Split(content, NewLine) && lineEntry(line) == Some(e)
  {
    var lines := Split(content, NewLine);
    if content != [] {
      FilterMapLength(lines, lineEntry);
      forall e | e in FileEntries(Some(content), lineEntry)
        ensures exists line :: line in lines && lineEntry(line) == Some(e)
      {
        FilterMapMember(lines, lineEntry, e);
      }
    }
  }

  /** The reservation list both DetectUnknownHosts consult: null (None) when no reservations
      path is given, otherwise the entries parsed from that file's contents. */
  function ReservationsOf(dhcpReservationsPath: Option<string>, files: FileSystem): Option<seq<DhcpReservationEntry>>
  {
    if IsNullOrEmpty(dhcpReservationsPath) || dhcpReservationsPath.value !in files then None
    else Some(DhcpReservationsFileEntries(Some(files[dhcpReservationsPath.value])))
  }
}
