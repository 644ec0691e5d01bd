/** The .NET string primitives the parsers use, with ordinal (culture-independent) semantics. */
module Text {

  /** Char.IsWhiteSpace. The regular-expression class \s matches exactly the same characters:
      U+0009 to U+000D, U+0085, and the Unicode separators (categories Zs, Zl, Zp). */
  predicate IsWhiteSpace(c: char)
  {
    || ('\t' <= c <= '\r')
    || c == ' ' || c == '\U{0085}' || c == '\U{00A0}' || c == '\U{1680}'
    || ('\U{2000}' <= c <= '\U{200A}')
    || c == '\U{2028}' || c == '\U{2029}' || c == '\U{202F}' || c == '\U{205F}' || c == '\U{3000}'
  }

  predicate NoWhiteSpace(s: string)
  {
    forall i :: 0 <= i < |s| ==> !IsWhiteSpace(s[i])
  }

  predicate AllWhiteSpace(s: string)
  {
    forall i :: 0 <= i < |s| ==> IsWhiteSpace(s[i])
  }

  /** String.StartsWith, compared ordinally. */
  predicate StartsWith(s: string, prefix: string)
  {
    |prefix| <= |s| && s[..|prefix|] == prefix
  }

  lemma StartsWithChar(s: string, c: char)
    ensures StartsWith(s, [c]) <==> s != [] && s[0] == c
  {
    if s != [] {
      assert s[..1][0] == s[0];
    }
  }

  /** The character classes the parsers scan for: \s and its complement, and the classes of
      the reservation pattern: [0-9A-F:], [0-9.] and `.` (anything but a line feed). */
  datatype CharClass = WhiteSpace | NonWhiteSpace | MacAddressChar | IpAddressChar | NotLineFeed

  predicate InClass(c: char, cls: CharClass)
  {
    match cls
    case WhiteSpace => IsWhiteSpace(c)
    case NonWhiteSpace => !IsWhiteSpace(c)
    case MacAddressChar => '0' <= c <= '9' || 'A' <= c <= 'F' || c == ':'
    case IpAddressChar => '0' <= c <= '9' || c == '.'
    case NotLineFeed => c != '\n'
  }

  predicate AllInClass(s: string, cls: CharClass)
  {
    forall k :: 0 <= k < |s| ==> InClass(s[k], cls)
  }

  /** Length of the longest prefix of s whose characters are all in cls. */
  function Span(s: string, cls: CharClass): (n: nat)
    ensures n <= |s|
    ensures forall k :: 0 <= k < n ==> InClass(s[k], cls)
    ensures n == |s| || !InClass(s[n], cls)
  {
    if s == [] || !InClass(s[0], cls) then 0 else 1 + Span(s[1..], cls)
  }

  /** Length of the longest suffix of s whose characters are all in cls. */
  function SpanEnd(s: string, cls: CharClass): (n: nat)
    ensures n <= |s|
    ensures forall k :: |s| - n <= k < |s| ==> InClass(s[k], cls)
    ensures n == |s| || !InClass(s[|s| - n - 1], cls)
  {
    if s == [] || !InClass(s[|s| - 1], cls) then 0 else 1 + SpanEnd(s[..|s| - 1], cls)
  }

  /** A prefix whose characters are in cls and that is followed by a character that is not
      (or by the end) is the span. */
  lemma {:induction false} SpanUnique(s: string, cls: CharClass, n: nat)
    requires n <= |s|
    requires forall k :: 0 <= k < n ==> InClass(s[k], cls)
    requires n == |s| || !InClass(s[n], cls)
    ensures Span(s, cls) == n
  {
    if n > 0 {
      SpanUnique(s[1..], cls, n - 1);
    }
  }

  lemma {:induction false} SpanAppend(x: string, y: string, cls: CharClass)
    ensures Span(x + y, cls) == if Span(x, cls) < |x| then Span(x, cls) else |x| + Span(y, cls)
  {
    if x != [] {
      assert (x + y)[1..] == x[1..] + y;
      SpanAppend(x[1..], y, cls);
    } else {
      assert x + y == y;
    }
  }

  /** The span itself is a run of cls. */
  lemma SpanInClass(s: string, cls: CharClass)
    ensures AllInClass(s[..Span(s, cls)], cls)
  {
    var n := Span(s, cls);
    assert forall k :: 0 <= k < n ==> s[..n][k] == s[k];
  }

  /** A run of cls followed by a character outside cls (or by nothing) is the span. */
  lemma SpanOfRun(x: string, y: string, cls: CharClass)
    requires AllInClass(x, cls)
    requires y == [] || !InClass(y[0], cls)
    ensures Span(x + y, cls) == |x|
  {
    SpanUnique(x + y, cls, |x|);
  }

  /** A run of cls ended by a character outside cls. */
  lemma SpanBefore(x: string, c: char, y: string, cls: CharClass)
    requires AllInClass(x, cls) && !InClass(c, cls)
    ensures Span(x + [c] + y, cls) == |x|
  {
    SpanUnique(x + [c] + y, cls, |x|);
  }

  /** Cutting x + [c] + y around c. */
  lemma CutAt(x: string, c: char, y: string)
    ensures |x| < |x + [c] + y|
    ensures (x + [c] + y)[..|x|] == x && (x + [c] + y)[|x|] == c && (x + [c] + y)[|x| + 1..] == y
  {
    assert (x + [c] + y)[|x| + 1..] == y;
  }

  /** m rebuilt around its character at a. */
  lemma JoinAt(m: string, a: nat)
    requires a < |m|
    ensures m == m[..a] + [m[a]] + m[a + 1..]
  {
  }

  lemma SplitAtIndex(m: string, c: nat)
    requires c <= |m|
    ensures m == m[..c] + m[c..]
  {
  }

  /** A slice of s that starts at i and continues with w then tail. */
  lemma SliceThen(s: string, i: nat, w: string, tail: string)
    requires i <= |s|
    ensures s[i..] == w + tail <==> (i + |w| <= |s| && s[i..i + |w|] == w && s[i + |w|..] == tail)
  {
    if s[i..] == w + tail {
      assert s[i..i + |w|] == (w + tail)[..|w|];
    }
    if i + |w| <= |s| && s[i..i + |w|] == w && s[i + |w|..] == tail {
      assert s[i..] == s[i..i + |w|] + s[i + |w|..];
    }
  }

  /** String.Trim(): drops the leading and the trailing white space. */
  function Trim(s: string): (r: string)
    ensures Span(s, WhiteSpace) + |r| <= |s|
    ensures r == s[Span(s, WhiteSpace)..Span(s, WhiteSpace) + |r|]
    ensures s[Span(s, WhiteSpace)..] == r + s[Span(s, WhiteSpace) + |r|..]
    ensures AllWhiteSpace(s[Span(s, WhiteSpace) + |r|..])
    ensures r == [] || (!IsWhiteSpace(r[0]) && !IsWhiteSpace(r[|r| - 1]))
    ensures r == [] <==> AllWhiteSpace(s)
  {
    var a := Span(s, WhiteSpace);
    var e := SpanEnd(s[a..], WhiteSpace);
    SpanEndOfSuffix(s, a, s[a..], e);
    var r := s[a..|s| - e];
    TrimFacts(s, a, e, r);
    r
  }

  /** Between leading white space s[..a] and trailing white space s[|s| - e..], with a
      character that is not white space at either end, lies a trim with the properties Trim
      promises. */
  lemma TrimFacts(s: string, a: nat, e: nat, r: string)
    requires a + e <= |s| && r == s[a..|s| - e]
    requires forall k :: 0 <= k < a ==> InClass(s[k], WhiteSpace)
    requires a == |s| || !InClass(s[a], WhiteSpace)
    requires AllWhiteSpace(s[|s| - e..])
    requires e == |s| - a || !IsWhiteSpace(s[|s| - e - 1])
    ensures a + |r| <= |s|
    ensures r == s[a..a + |r|]
    ensures s[a..] == r + s[a + |r|..]
    ensures AllWhiteSpace(s[a + |r|..])
    ensures r == [] || (!IsWhiteSpace(r[0]) && !IsWhiteSpace(r[|r| - 1]))
    ensures r == [] <==> AllWhiteSpace(s)
  {
    SliceSplit(s, a, |s| - e, r);
    TrimEnds(s, a, e, r);
    TrimEmpty(s, a, e, r);
  }

  /** The trim neither starts nor ends with white space. */
  lemma TrimEnds(s: string, a: nat, e: nat, r: string)
    requires a + e <= |s| && r == s[a..|s| - e]
    requires a == |s| || !InClass(s[a], WhiteSpace)
    requires e == |s| - a || !IsWhiteSpace(s[|s| - e - 1])
    ensures r == [] || (!IsWhiteSpace(r[0]) && !IsWhiteSpace(r[|r| - 1]))
  {
    if r != [] {
      assert r[0] == s[a] && r[|r| - 1] == s[|s| - e - 1];
    }
  }

  /** The trim is empty exactly when s is white space only. */
  lemma TrimEmpty(s: string, a: nat, e: nat, r: string)
    requires a + e <= |s| && r == s[a..|s| - e]
    requires forall k :: 0 <= k < a ==> InClass(s[k], WhiteSpace)
    requires a == |s| || !InClass(s[a], WhiteSpace)
    requires AllWhiteSpace(s[|s| - e..])
    ensures r == [] <==> AllWhiteSpace(s)
  {
    if r == [] {
      assert s[a..] == s[|s| - e..];
      AllWhiteSpaceJoin(s, a);
    }
    if AllWhiteSpace(s) && a < |s| {
      assert false;
    }
  }

  /** The trailing white space of t = s[a..], in positions of s. */
  lemma SpanEndOfSuffix(s: string, a: nat, t: string, e: nat)
    requires a <= |s| && t == s[a..] && e <= |t|
    requires forall k :: |t| - e <= k < |t| ==> InClass(t[k], WhiteSpace)
    requires e == |t| || !InClass(t[|t| - e - 1], WhiteSpace)
    ensures e <= |s| - a && AllWhiteSpace(s[|s| - e..])
    ensures e == |s| - a || !IsWhiteSpace(s[|s| - e - 1])
  {
    var tail := s[|s| - e..];
    assert forall k :: 0 <= k < |tail| ==> tail[k] == t[|t| - e + k];
    if e < |t| {
      assert s[|s| - e - 1] == t[|t| - e - 1];
    }
  }

  /** Leading white space followed by white space only. */
  lemma AllWhiteSpaceJoin(s: string, a: nat)
    requires a <= |s| && (forall k :: 0 <= k < a ==> InClass(s[k], WhiteSpace)) && AllWhiteSpace(s[a..])
    ensures AllWhiteSpace(s)
  {
    assert forall k :: a <= k < |s| ==> s[k] == s[a..][k - a];
  }

  /** Each character of a white-space-only tail, in positions of s. */
  lemma WhiteTail(s: string, b: nat)
    requires b <= |s| && AllWhiteSpace(s[b..])
    ensures forall k :: b <= k < |s| ==> IsWhiteSpace(s[k])
  {
    assert forall k :: b <= k < |s| ==> s[k] == s[b..][k - b];
  }

  /** A string that does not start with white space keeps its first character when trimmed. */
  lemma TrimStartsAtFirstCharacter(s: string)
    requires s != [] && !IsWhiteSpace(s[0])
    ensures Trim(s) != [] && Trim(s)[0] == s[0]
  {
    SpanUnique(s, WhiteSpace, 0);
    assert !AllWhiteSpace(s);
  }

  /** A string that neither starts nor ends with white space is its own trim. */
  lemma TrimUnchanged(s: string)
    requires s != [] && !IsWhiteSpace(s[0]) && !IsWhiteSpace(s[|s| - 1])
    ensures Trim(s) == s
  {
    SpanUnique(s, WhiteSpace, 0);
    assert s[0..|s|] == s;
  }

  /** Trimming adds no character. */
  lemma TrimFrom(s: string, c: char)
    ensures c in Trim(s) ==> c in s
  {
    var a, r := Span(s, WhiteSpace), Trim(s);
    if c in r {
      var k :| 0 <= k < |r| && r[k] == c;
      assert s[a + k] == c;
    }
  }

  /** Trimming keeps every character that is not white space. */
  lemma TrimKeeps(s: string, c: char)
    requires !IsWhiteSpace(c)
    ensures c in Trim(s) <==> c in s
  {
    var a, r := Span(s, WhiteSpace), Trim(s);
    TrimFrom(s, c);
    if c in s {
      var k :| 0 <= k < |s| && s[k] == c;
      WhiteTail(s, a + |r|);
      KeptAt(s, a, r, k);
    }
  }

  /** A character that is not white space lies inside the trim. */
  lemma KeptAt(s: string, a: nat, r: string, k: nat)
    requires a + |r| <= |s| && r == s[a..a + |r|]
    requires forall j :: 0 <= j < a ==> InClass(s[j], WhiteSpace)
    requires forall j :: a + |r| <= j < |s| ==> IsWhiteSpace(s[j])
    requires k < |s| && !IsWhiteSpace(s[k])
    ensures a <= k < a + |r| && r[k - a] == s[k]
  {
  }

  /** Regex("\\s+").Replace(s, " "): each maximal run of white space becomes one space. */
  function CollapseWhiteSpace(s: string): (r: string)
    ensures |r| <= |s|
    ensures forall i :: 0 <= i < |r| && IsWhiteSpace(r[i]) ==> r[i] == ' '
    ensures r != [] ==> (IsWhiteSpace(r[0]) <==> IsWhiteSpace(s[0]))
    ensures forall i :: 0 <= i < |r| - 1 ==> !(r[i] == ' ' && r[i + 1] == ' ')
    decreases |s|
  {
    if s == [] then []
    else if IsWhiteSpace(s[0]) then " " + CollapseWhiteSpace(s[Span(s, WhiteSpace)..])
    else [s[0]] + CollapseWhiteSpace(s[1..])
  }

  lemma {:induction false} CollapseKeepsWord(x: string, y: string)
    requires NoWhiteSpace(x)
    ensures CollapseWhiteSpace(x + y) == x + CollapseWhiteSpace(y)
  {
    if x != [] {
      assert (x + y)[1..] == x[1..] + y;
      CollapseKeepsWord(x[1..], y);
    } else {
      assert x + y == y;
    }
  }

  /** Joins parts with sep between consecutive parts (String.Join). */
  function Join(parts: seq<string>, sep: char): string
    requires |parts| >= 1
  {
    if |parts| == 1 then parts[0] else parts[0] + [sep] + Join(parts[1..], sep)
  }

  /** String.Split(sep) without options: every occurrence of sep separates two pieces, and
      empty pieces are kept. */
  function Split(s: string, sep: char): (parts: seq<string>)
    ensures |parts| >= 1
  {
    if s == [] then [[]]
    else
      var rest := Split(s[1..], sep);
      if s[0] == sep then [[]] + rest
      else [[s[0]] + rest[0]] + rest[1..]
  }

  /** No piece holds the separator, and joining the pieces with it gives back s. */
  lemma SplitPieces(s: string, sep: char)
    ensures forall i :: 0 <= i < |Split(s, sep)| ==> sep !in Split(s, sep)[i]
    ensures Join(Split(s, sep), sep) == s
  {
    SplitSeparatorFree(s, sep);
    SplitJoinsBack(s, sep);
  }

  lemma {:induction false} SplitSeparatorFree(s: string, sep: char)
    ensures forall i :: 0 <= i < |Split(s, sep)| ==> sep !in Split(s, sep)[i]
  {
    if s != [] {
      var rest := Split(s[1..], sep);
      var parts := Split(s, sep);
      SplitSeparatorFree(s[1..], sep);
      if s[0] == sep {
        assert forall i :: 1 <= i < |parts| ==> parts[i] == rest[i - 1];
      } else {
        assert sep !in [s[0]] + rest[0];
        assert forall i :: 1 <= i < |parts| ==> parts[i] == rest[i];
      }
    }
  }

  lemma {:induction false} SplitJoinsBack(s: string, sep: char)
    ensures Join(Split(s, sep), sep) == s
  {
    if s != [] {
      var rest := Split(s[1..], sep);
      SplitJoinsBack(s[1..], sep);
      assert s == [s[0]] + s[1..];
      if s[0] == sep {
        JoinConsEmpty(rest, sep);
      } else {
        JoinConsHead([s[0]], rest, sep);
      }
    }
  }

  lemma JoinConsEmpty(rest: seq<string>, sep: char)
    requires |rest| >= 1
    ensures Join([[]] + rest, sep) == [sep] + Join(rest, sep)
  {
    var p := [[]] + rest;
    assert p[0] == [] && p[1..] == rest;
  }

  lemma JoinConsHead(c: string, rest: seq<string>, sep: char)
    requires |rest| >= 1
    ensures Join([c + rest[0]] + rest[1..], sep) == c + Join(rest, sep)
  {
    var p := [c + rest[0]] + rest[1..];
    assert p[0] == c + rest[0] && p[1..] == rest[1..];
    if |rest| > 1 {
      assert Join(p, sep) == (c + rest[0]) + [sep] + Join(rest[1..], sep);
      assert Join(rest, sep) == rest[0] + [sep] + Join(rest[1..], sep);
    }
  }

  lemma {:induction false} SplitWord(x: string, sep: char)
    requires sep !in x
    ensures Split(x, sep) == [x]
  {
    if x != [] {
      assert x[0] in x && x == [x[0]] + x[1..];
      SplitWord(x[1..], sep);
    }
  }

  lemma {:induction false} SplitAfterWord(x: string, sep: char, z: string)
    requires sep !in x
    ensures Split(x + [sep] + z, sep) == [x] + Split(z, sep)
  {
    if x == [] {
      assert x + [sep] + z == [sep] + z;
      SplitCons(sep, z, sep);
    } else {
      var x' := x[1..];
      assert x == [x[0]] + x' && x + [sep] + z == [x[0]] + (x' + [sep] + z);
      SplitCons(x[0], x' + [sep] + z, sep);
      SplitAfterWord(x', sep, z);
      HeadTail(Split(x' + [sep] + z, sep), x', Split(z, sep));
    }
  }

  lemma HeadTail<T>(r: seq<T>, h: T, t: seq<T>)
    requires r == [h] + t
    ensures r[0] == h && r[1..] == t
  {
  }

  /** One step of Split: the first character either separates or starts the first piece. */
  lemma SplitCons(c: char, r: string, sep: char)
    ensures Split([c] + r, sep) ==
              if c == sep then [[]] + Split(r, sep) else [[c] + Split(r, sep)[0]] + Split(r, sep)[1..]
  {
    assert ([c] + r)[0] == c && ([c] + r)[1..] == r;
  }

  /** Splitting at one separator splits the text into the pieces of its two sides. */
  lemma {:induction false} SplitAppend(a: string, sep: char, b: string)
    ensures Split(a + [sep] + b, sep) == Split(a, sep) + Split(b, sep)
  {
    if a == [] {
      assert a + [sep] + b == [sep] + b;
      SplitCons(sep, b, sep);
    } else {
      var a' := a[1..];
      assert a == [a[0]] + a' && a + [sep] + b == [a[0]] + (a' + [sep] + b);
      SplitCons(a[0], a', sep);
      SplitCons(a[0], a' + [sep] + b, sep);
      SplitAppend(a', sep, b);
      var x, y := Split(a', sep), Split(b, sep);
      if a[0] == sep {
        ConsAppend([], x, y);
      } else {
        HeadAppend([a[0]], x, y);
      }
    }
  }

  lemma ConsAppend<T>(h: T, x: seq<T>, y: seq<T>)
    ensures [h] + (x + y) == ([h] + x) + y
  {
  }

  lemma HeadAppend<T>(c: seq<T>, x: seq<seq<T>>, y: seq<seq<T>>)
    requires |x| >= 1
    ensures [c + (x + y)[0]] + (x + y)[1..] == ([c + x[0]] + x[1..]) + y
  {
    assert (x + y)[0] == x[0] && (x + y)[1..] == x[1..] + y;
  }

  /** Splitting a join gives back the parts, when no part holds the separator. */
  lemma {:induction false} SplitJoin(parts: seq<string>, sep: char)
    requires |parts| >= 1
    requires forall i :: 0 <= i < |parts| ==> sep !in parts[i]
    ensures Split(Join(parts, sep), sep) == parts
  {
    if |parts| == 1 {
      SplitWord(parts[0], sep);
    } else {
      SplitJoin(parts[1..], sep);
      SplitAfterWord(parts[0], sep, Join(parts[1..], sep));
    }
  }

  /** The maximal runs of non-white-space characters of s, in order: what "the
      whitespace-separated tokens of s" means. */
  function Words(s: string): seq<string>
    decreases |s|
  {
    var t := s[Span(s, WhiteSpace)..];
    if t == [] then []
    else
      var n := Span(t, NonWhiteSpace);
      assert n > 0 by { assert InClass(t[0], NonWhiteSpace); }
      [t[..n]] + Words(t[n..])
  }

  /** Each element is a nonempty run of non-white-space characters. */
  predicate AllTokens(ws: seq<string>)
  {
    forall i :: 0 <= i < |ws| ==> ws[i] != [] && NoWhiteSpace(ws[i])
  }

  lemma ConsTokens(w: string, ws: seq<string>)
    requires w != [] && NoWhiteSpace(w) && AllTokens(ws)
    ensures AllTokens([w] + ws)
  {
    assert forall i :: 1 <= i < |[w] + ws| ==> ([w] + ws)[i] == ws[i - 1];
  }

  /** Every word is a nonempty run of non-white-space characters. */
  lemma {:induction false} WordsAreTokens(s: string)
    ensures AllTokens(Words(s))
    decreases |s|
  {
    var a := Span(s, WhiteSpace);
    if a < |s| {
      var t := s[a..];
      var n := Span(t, NonWhiteSpace);
      WordsStep(s, a, n);
      FirstWordSpaceFree(t, n);
      var w := s[a..a + n];
      WordsAreTokens(s[a + n..]);
      ConsTokens(w, Words(s[a + n..]));
    } else {
      WordsOfWhiteSpace(s[a..]);
      WordsSkipsLeadingWhiteSpace(s);
    }
  }

  lemma WordsSkipsLeadingWhiteSpace(s: string)
    ensures Words(s) == Words(s[Span(s, WhiteSpace)..])
  {
    var t := s[Span(s, WhiteSpace)..];
    assert t == [] || !IsWhiteSpace(t[0]);
    SpanUnique(t, WhiteSpace, 0);
    assert t[0..] == t;
  }

  lemma WordsOfWhiteSpace(s: string)
    requires AllWhiteSpace(s)
    ensures Words(s) == []
  {
    SpanUnique(s, WhiteSpace, |s|);
    assert s[|s|..] == [];
  }

  /** One step of Words: the first word and the words of what follows it. */
  lemma WordsStep(s: string, a: nat, n: nat)
    requires a == Span(s, WhiteSpace) < |s|
    requires n == Span(s[a..], NonWhiteSpace)
    ensures a + n <= |s| && Words(s) == [s[a..a + n]] + Words(s[a + n..])
    ensures 0 < n && s[a..][..n] == s[a..a + n]
  {
    WordsUnfold(s, s[a..], n);
    SliceSlices(s, a, n);
  }

  lemma WordsUnfold(s: string, t: string, n: nat)
    requires t == s[Span(s, WhiteSpace)..] && t != []
    requires n == Span(t, NonWhiteSpace)
    ensures 0 < n && Words(s) == [t[..n]] + Words(t[n..])
  {
    assert InClass(t[0], NonWhiteSpace);
  }

  lemma SliceSlices(s: string, a: nat, n: nat)
    requires a + n <= |s|
    ensures s[a..][..n] == s[a..a + n] && s[a..][n..] == s[a + n..]
  {
  }

  lemma SlicesOfAppend(u: string, w: string, i: nat, j: nat)
    requires i <= j <= |u|
    ensures (u + w)[i..j] == u[i..j] && (u + w)[j..] == u[j..] + w
  {
  }

  /** Appending white space to a string does not change where its first word ends. */
  lemma WordSpanAppend(t: string, w: string)
    requires AllWhiteSpace(w)
    ensures Span(t + w, NonWhiteSpace) == Span(t, NonWhiteSpace)
  {
    SpanAppend(t, w, NonWhiteSpace);
    if Span(t, NonWhiteSpace) == |t| && w != [] {
      SpanUnique(w, NonWhiteSpace, 0);
    }
  }

  lemma {:induction false} WordsSkipsTrailingWhiteSpace(u: string, w: string)
    requires AllWhiteSpace(w)
    ensures Words(u + w) == Words(u)
    decreases |u|
  {
    var a := Span(u, WhiteSpace);
    SpanAppend(u, w, WhiteSpace);
    if a == |u| {
      assert AllWhiteSpace(u + w);
      WordsOfWhiteSpace(u + w);
      WordsOfWhiteSpace(u);
    } else {
      var n := Span(u[a..], NonWhiteSpace);
      assert (u + w)[a..] == u[a..] + w;
      WordSpanAppend(u[a..], w);
      WordsStep(u, a, n);
      WordsStep(u + w, a, n);
      SlicesOfAppend(u, w, a, a + n);
      WordsSkipsTrailingWhiteSpace(u[a + n..], w);
    }
  }

  /** The first word of s, when s does not start with white space, holds no white space and
      in particular no ' '. */
  lemma FirstWordSpaceFree(s: string, n: nat)
    requires n == Span(s, NonWhiteSpace)
    ensures s == s[..n] + s[n..] && NoWhiteSpace(s[..n]) && ' ' !in s[..n]
  {
    var word := s[..n];
    assert forall k :: 0 <= k < |word| ==> word[k] == s[k];
    assert forall k :: 0 <= k < |word| ==> word[k] != ' ';
  }

  /** For a string without leading or trailing white space, collapsing the white space and
      splitting on ' ' yields its words. */
  lemma {:induction false} SplitCollapsedTrimmed(t: string)
    requires t != [] && !IsWhiteSpace(t[0]) && !IsWhiteSpace(t[|t| - 1])
    ensures Split(CollapseWhiteSpace(t), ' ') == Words(t)
    decreases |t|
  {
    SpanUnique(t, WhiteSpace, 0);
    var n := Span(t, NonWhiteSpace);
    WordsStep(t, 0, n);
    FirstWordSpaceFree(t, n);
    var word, rest := t[..n], t[n..];
    assert t[0..n] == word && t[0 + n..] == rest;
    CollapseKeepsWord(word, rest);
    if rest == [] {
      assert word + rest == word;
      SplitWord(word, ' ');
      WordsOfWhiteSpace(rest);
    } else {
      var t' := rest[Span(rest, WhiteSpace)..];
      AfterWhiteSpaceRun(t, n);
      CollapseWhiteSpaceRun(rest);
      SplitWordThenSeparator(word, CollapseWhiteSpace(rest), ' ', CollapseWhiteSpace(t'));
      SplitCollapsedTrimmed(t');
      WordsSkipsLeadingWhiteSpace(rest);
      assert CollapseWhiteSpace(t) == word + CollapseWhiteSpace(rest);
      assert Words(t) == [word] + Words(t');
    }
  }

  lemma SplitWordThenSeparator(word: string, tail: string, sep: char, z: string)
    requires sep !in word && tail == [sep] + z
    ensures Split(word + tail, sep) == [word] + Split(z, sep)
  {
    assert word + tail == word + [sep] + z;
    SplitAfterWord(word, sep, z);
  }

  /** In a string that ends with a non-white-space character, what follows a word and the
      white space after it is again a string that starts and ends without white space. */
  lemma AfterWhiteSpaceRun(t: string, n: nat)
    requires t != [] && !IsWhiteSpace(t[|t| - 1])
    requires n == Span(t, NonWhiteSpace) < |t|
    ensures var rest := t[n..];
            var t' := rest[Span(rest, WhiteSpace)..];
            rest != [] && IsWhiteSpace(rest[0]) &&
            t' != [] && !IsWhiteSpace(t'[0]) && !IsWhiteSpace(t'[|t'| - 1]) && |t'| < |t| - n
  {
    var rest := t[n..];
    assert rest[|rest| - 1] == t[|t| - 1];
  }

  lemma CollapseWhiteSpaceRun(s: string)
    requires s != [] && IsWhiteSpace(s[0])
    ensures CollapseWhiteSpace(s) == [' '] + CollapseWhiteSpace(s[Span(s, WhiteSpace)..])
  {
  }

  /** The slice s[a..b], located by its length. */
  lemma SliceSplit(s: string, a: nat, b: nat, r: string)
    requires a <= b <= |s| && r == s[a..b]
    ensures a + |r| == b && r == s[a..a + |r|] && s[a..] == r + s[a + |r|..]
  {
  }

  /** Trim, then collapse white space, then split on ' ': the pieces are the words of s; a
      white-space-only or empty s gives the single empty piece. */
  lemma SplitCollapsedIsWords(s: string)
    ensures Split(CollapseWhiteSpace(Trim(s)), ' ') == if Words(s) == [] then [[]] else Words(s)
  {
    var r := Trim(s);
    WordsOfTrim(s);
    if r == [] {
      WordsOfWhiteSpace(r);
    } else {
      TrimEndsNotWhiteSpace(s);
      SplitCollapsedNonEmpty(r);
    }
  }

  lemma TrimEndsNotWhiteSpace(s: string)
    requires Trim(s) != []
    ensures !IsWhiteSpace(Trim(s)[0]) && !IsWhiteSpace(Trim(s)[|Trim(s)| - 1])
  {
  }

  /** A string with words that neither starts nor ends with white space. */
  lemma SplitCollapsedNonEmpty(r: string)
    requires r != [] && !IsWhiteSpace(r[0]) && !IsWhiteSpace(r[|r| - 1])
    ensures Split(CollapseWhiteSpace(r), ' ') == Words(r) && Words(r) != []
  {
    SplitCollapsedTrimmed(r);
    SpanUnique(r, WhiteSpace, 0);
    WordsStep(r, 0, Span(r, NonWhiteSpace));
  }

  /** A token followed by white space or by nothing is the first word. */
  lemma WordsCons(w: string, tail: string)
    requires w != [] && NoWhiteSpace(w) && (tail == [] || IsWhiteSpace(tail[0]))
    ensures Words(w + tail) == [w] + Words(tail)
  {
    var s := w + tail;
    SpanUnique(s, WhiteSpace, 0);
    assert s[0..] == s;
    assert AllInClass(w, NonWhiteSpace);
    SpanOfRun(w, tail, NonWhiteSpace);
    WordsStep(s, 0, |w|);
    assert s[0..|w|] == w && s[0 + |w|..] == tail;
  }

  /** Leading white space separates no word. */
  lemma WordsAfterWhiteSpace(c: char, x: string)
    requires IsWhiteSpace(c)
    ensures Words([c] + x) == Words(x)
  {
    var s := [c] + x;
    assert s[1..] == x;
    assert Span(s, WhiteSpace) == 1 + Span(x, WhiteSpace);
    assert s[1 + Span(x, WhiteSpace)..] == x[Span(x, WhiteSpace)..];
    WordsSkipsLeadingWhiteSpace(s);
    WordsSkipsLeadingWhiteSpace(x);
  }

  /** Trimming does not change the words. */
  lemma WordsOfTrim(s: string)
    ensures Words(Trim(s)) == Words(s)
  {
    var a, r := Span(s, WhiteSpace), Trim(s);
    var tail := s[a + |r|..];
    var t := s[a..];
    assert t == r + tail;
    WordsSkipsLeadingWhiteSpace(s);
    WordsSkipsTrailingWhiteSpace(r, tail);
    assert Words(t) == Words(r + tail);
  }
}
