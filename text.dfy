/**
 * The string operations of the .NET base library that the deployment tool
 * relies on (Contains, Replace, Split, Join, Trim and the fixed-width date
 * formats), stated over Dafny strings, with the lemmas that relate them.
 */
module Text {

  datatype Option<T> = None | Some(value: T)

  // ---------------------------------------------------------------------
  // Substring search (String.Contains)
  // ---------------------------------------------------------------------

  /** `p` occurs somewhere in `s` (ordinal comparison, as String.Contains). */
  predicate Contains(s: string, p: string)
    decreases |s|
  {
    p <= s || (|s| > 0 && Contains(s[1..], p))
  }

  /** `p` occurs in `s` starting at index `i`. */
  predicate OccursAt(s: string, p: string, i: int)
  {
    0 <= i <= |s| - |p| && s[i..i + |p|] == p
  }

  /** An occurrence at some index makes Contains hold. */
  lemma {:induction false} ContainsOfOccurrence(s: string, p: string, i: int)
    requires OccursAt(s, p, i)
    ensures Contains(s, p)
    decreases i
  {
    if i == 0 {
      assert s[..|p|] == p;
    } else {
      assert s[1..][i - 1..i - 1 + |p|] == s[i..i + |p|];
      ContainsOfOccurrence(s[1..], p, i - 1);
    }
  }

  /** Contains holds only with an occurrence at some index. */
  lemma {:induction false} OccurrenceOfContains(s: string, p: string) returns (i: int)
    requires Contains(s, p)
    ensures OccursAt(s, p, i)
    decreases |s|
  {
    if p <= s {
      i := 0;
      assert s[0..|p|] == p;
    } else {
      var j := OccurrenceOfContains(s[1..], p);
      i := j + 1;
      assert s[i..i + |p|] == s[1..][j..j + |p|];
    }
  }

  /** An occurrence survives text added in front of and behind it. */
  lemma ContainsInside(a: string, s: string, b: string, p: string)
    requires Contains(s, p)
    ensures Contains(a + s + b, p)
  {
    var i := OccurrenceOfContains(s, p);
    assert (a + s + b)[|a| + i..|a| + i + |p|] == s[i..i + |p|];
    ContainsOfOccurrence(a + s + b, p, |a| + i);
  }

  /** A one-character pattern occurs only where that character is. */
  lemma {:induction false} ContainsChar(s: string, c: char)
    requires c !in s
    ensures !Contains(s, [c])
    decreases |s|
  {
    if |s| > 0 {
      assert s[0] != c;
      ContainsChar(s[1..], c);
    }
  }

  // ---------------------------------------------------------------------
  // String.Replace(pat, rep): left to right, non-overlapping
  // ---------------------------------------------------------------------

  function Replace(s: string, pat: string, rep: string): string
    requires |pat| > 0
    decreases |s|
  {
    if |s| == 0 then []
    else if pat <= s then rep + Replace(s[|pat|..], pat, rep)
    else [s[0]] + Replace(s[1..], pat, rep)
  }

  /** Text without an occurrence of `pat` comes back unchanged. */
  lemma {:induction false} ReplaceWithoutMatch(s: string, pat: string, rep: string)
    requires |pat| > 0
    requires !Contains(s, pat)
    ensures Replace(s, pat, rep) == s
    decreases |s|
  {
    if |s| > 0 {
      ReplaceWithoutMatch(s[1..], pat, rep);
      assert [s[0]] + s[1..] == s;
    }
  }

  /** A replacement by something shorter never lengthens the text, and it
    * shortens it as soon as there is one occurrence. */
  lemma {:induction false} ReplaceShorter(s: string, pat: string, rep: string)
    requires |rep| < |pat|
    ensures |Replace(s, pat, rep)| <= |s|
    ensures Contains(s, pat) ==> |Replace(s, pat, rep)| < |s|
    decreases |s|
  {
    if |s| == 0 {
    } else if pat <= s {
      ReplaceShorter(s[|pat|..], pat, rep);
    } else {
      ReplaceShorter(s[1..], pat, rep);
    }
  }

  /** For a replacement by something shorter: the text is left as it was
    * exactly when it has no occurrence of `pat`. */
  lemma ReplaceUnchangedIff(s: string, pat: string, rep: string)
    requires |rep| < |pat|
    ensures Replace(s, pat, rep) == s <==> !Contains(s, pat)
  {
    ReplaceShorter(s, pat, rep);
    if !Contains(s, pat) {
      ReplaceWithoutMatch(s, pat, rep);
    }
  }

  // ---------------------------------------------------------------------
  // String.Split(char) and String.Join
  // ---------------------------------------------------------------------

  function IndexOf(s: string, c: char): (i: nat)
    ensures i <= |s|
    ensures i < |s| ==> s[i] == c
    ensures forall k :: 0 <= k < i ==> s[k] != c
    decreases |s|
  {
    if |s| == 0 then 0
    else if s[0] == c then 0
    else 1 + IndexOf(s[1..], c)
  }

  /** String.Split(c): the pieces between the separators, empty pieces kept. */
  function Split(s: string, c: char): seq<string>
    decreases |s|
  {
    var i := IndexOf(s, c);
    if i == |s| then [s] else [s[..i]] + Split(s[i + 1..], c)
  }

  /** String.Join(sep, parts). */
  function Join(parts: seq<string>, sep: string): string
    decreases |parts|
  {
    if |parts| == 0 then []
    else if |parts| == 1 then parts[0]
    else parts[0] + sep + Join(parts[1..], sep)
  }

  /** String.Concat(parts). */
  function Concat(parts: seq<string>): string
    decreases |parts|
  {
    if |parts| == 0 then [] else parts[0] + Concat(parts[1..])
  }

  /** Split yields at least one piece and no piece holds the separator. */
  lemma {:induction false} SplitPieces(s: string, c: char)
    ensures |Split(s, c)| >= 1
    ensures forall k :: 0 <= k < |Split(s, c)| ==> c !in Split(s, c)[k]
    decreases |s|
  {
    var i := IndexOf(s, c);
    if i < |s| {
      SplitPieces(s[i + 1..], c);
      var rest := Split(s[i + 1..], c);
      assert Split(s, c) == [s[..i]] + rest;
      forall k | 0 <= k < |Split(s, c)|
        ensures c !in Split(s, c)[k]
      {
        if k > 0 {
          assert Split(s, c)[k] == rest[k - 1];
        }
      }
    }
  }

  /** Joining the pieces with the separator gives the text back. */
  lemma {:induction false} JoinSplit(s: string, c: char)
    ensures Join(Split(s, c), [c]) == s
    decreases |s|
  {
    var i := IndexOf(s, c);
    if i < |s| {
      var rest := Split(s[i + 1..], c);
      JoinSplit(s[i + 1..], c);
      SplitPieces(s[i + 1..], c);
      var parts := [s[..i]] + rest;
      assert parts[1..] == rest;
      assert Join(parts, [c]) == s[..i] + [c] + Join(rest, [c]);
      assert s == s[..i] + [c] + s[i + 1..];
    }
  }

  lemma {:induction false} IndexOfJoin(p: string, c: char, rest: string)
    requires c !in p
    ensures IndexOf(p + [c] + rest, c) == |p|
    decreases |p|
  {
    if |p| > 0 {
      assert (p + [c] + rest)[1..] == p[1..] + [c] + rest;
      IndexOfJoin(p[1..], c, rest);
    }
  }

  lemma {:induction false} IndexOfAbsent(p: string, c: char)
    requires c !in p
    ensures IndexOf(p, c) == |p|
    decreases |p|
  {
    if |p| > 0 {
      IndexOfAbsent(p[1..], c);
    }
  }

  /** Splitting a join of separator-free pieces gives the pieces back. */
  lemma {:induction false} SplitJoin(parts: seq<string>, c: char)
    requires |parts| >= 1
    requires forall k :: 0 <= k < |parts| ==> c !in parts[k]
    ensures Split(Join(parts, [c]), c) == parts
    decreases |parts|
  {
    if |parts| == 1 {
      IndexOfAbsent(parts[0], c);
    } else {
      var rest := Join(parts[1..], [c]);
      IndexOfJoin(parts[0], c, rest);
      var s := parts[0] + [c] + rest;
      assert s[..|parts[0]|] == parts[0];
      assert s[|parts[0]| + 1..] == rest;
      SplitJoin(parts[1..], c);
    }
  }

  /** Regrouping a concatenation; stated once so that proofs can cite it
    * instead of rediscovering it among many other facts. */
  lemma AppendAssoc<T>(a: seq<T>, b: seq<T>, c: seq<T>)
    ensures (a + b) + c == a + (b + c)
  {
  }

  /** The two halves of a concatenation. */
  lemma AppendHalves<T>(a: seq<T>, b: seq<T>)
    ensures (a + b)[..|a|] == a && (a + b)[|a|..] == b
    ensures a + [] == a
  {
  }

  lemma PairOf<T>(x: T, y: T)
    ensures [x] + [y] == [x, y]
  {
  }

  /** Dropping a prefix of the first part of a concatenation. */
  lemma DropAppend<T>(a: seq<T>, b: seq<T>, k: nat)
    requires k <= |a|
    ensures (a + b)[k..] == a[k..] + b
  {
  }

  /** Join of a first part and at least one more. */
  lemma JoinCons(x: string, rest: seq<string>, sep: string)
    requires |rest| >= 1
    ensures Join([x] + rest, sep) == x + sep + Join(rest, sep)
  {
    assert ([x] + rest)[1..] == rest;
  }

  lemma {:induction false} JoinSnoc(parts: seq<string>, x: string, sep: string)
    requires |parts| >= 1
    ensures Join(parts + [x], sep) == Join(parts, sep) + sep + x
    decreases |parts|
  {
    if |parts| == 1 {
      assert (parts + [x])[1..] == [x];
    } else {
      assert (parts + [x])[1..] == parts[1..] + [x];
      JoinSnoc(parts[1..], x, sep);
    }
  }

  lemma {:induction false} JoinAppend(a: seq<string>, b: seq<string>, sep: string)
    requires |a| >= 1 && |b| >= 1
    ensures Join(a + b, sep) == Join(a, sep) + sep + Join(b, sep)
    decreases |a|
  {
    if |a| == 1 {
      assert (a + b)[1..] == b;
    } else {
      assert (a + b)[1..] == a[1..] + b;
      JoinAppend(a[1..], b, sep);
    }
  }

  /** Removing every `c` (Replace(c, "")) is the concatenation of the pieces
    * that Split(c) cuts out. */
  lemma {:induction false} RemoveIsConcatOfSplit(s: string, c: char)
    ensures Replace(s, [c], []) == Concat(Split(s, c))
    decreases |s|
  {
    var i := IndexOf(s, c);
    if i < |s| {
      RemoveIsConcatOfSplit(s[i + 1..], c);
      ReplaceSplitsAt(s, c, i);
    } else {
      assert c !in s;
      ContainsChar(s, c);
      ReplaceWithoutMatch(s, [c], []);
    }
  }

  lemma {:induction false} ReplaceSplitsAt(s: string, c: char, i: nat)
    requires i < |s| && s[i] == c
    requires forall k :: 0 <= k < i ==> s[k] != c
    ensures Replace(s, [c], []) == s[..i] + Replace(s[i + 1..], [c], [])
    decreases i
  {
    if i == 0 {
      assert [c] <= s;
    } else {
      assert s[0] != c;
      assert !([c] <= s);
      assert s[1..][i - 1] == c;
      ReplaceSplitsAt(s[1..], c, i - 1);
      assert s[1..][i - 1 + 1..] == s[i + 1..];
      assert [s[0]] + s[1..][..i - 1] == s[..i];
    }
  }

  // ---------------------------------------------------------------------
  // String.Trim()
  // ---------------------------------------------------------------------

  /** The white-space characters that Trim removes (the ASCII ones). */
  predicate IsSpace(ch: char)
  {
    ch == ' ' || ch == '\t' || ch == '\n' || ch == '\r' || ch == '\U{0B}' || ch == '\U{0C}'
  }

  function TrimStart(s: string): (r: string)
    ensures |r| <= |s| && r == s[|s| - |r|..]
    ensures forall k :: 0 <= k < |s| - |r| ==> IsSpace(s[k])
    ensures r == [] || !IsSpace(r[0])
    decreases |s|
  {
    if |s| > 0 && IsSpace(s[0]) then TrimStart(s[1..]) else s
  }

  function TrimEnd(s: string): (r: string)
    ensures |r| <= |s| && r == s[..|r|]
    ensures forall k :: |r| <= k < |s| ==> IsSpace(s[k])
    ensures r == [] || !IsSpace(r[|r| - 1])
    decreases |s|
  {
    if |s| > 0 && IsSpace(s[|s| - 1]) then TrimEnd(s[..|s| - 1]) else s
  }

  /** Trim: the text without its leading and trailing white space. */
  function Trim(s: string): (r: string)
  {
    TrimEnd(TrimStart(s))
  }

  /** Trim keeps a contiguous middle part, drops only white space around it
    * and leaves no white space at either end. */
  lemma TrimSpec(s: string)
    ensures var r, lead := Trim(s), |s| - |TrimStart(s)|;
      && lead + |r| <= |s| && s[lead..lead + |r|] == r
      && (forall k :: 0 <= k < lead ==> IsSpace(s[k]))
      && (forall k :: lead + |r| <= k < |s| ==> IsSpace(s[k]))
      && (r == [] || (!IsSpace(r[0]) && !IsSpace(r[|r| - 1])))
  {
    TrimMiddle(s);
    TrimTrailing(s);
    TrimFirst(s);
  }

  /** The trimmed text sits in `s` right after the leading white space. */
  lemma TrimMiddle(s: string)
    ensures var r, lead := Trim(s), |s| - |TrimStart(s)|;
      lead + |r| <= |s| && s[lead..lead + |r|] == r
  {
    var t := TrimStart(s);
    var lead := |s| - |t|;
    SliceOfSuffix(s, lead, |Trim(s)|);
  }

  /** What follows the trimmed text in `s` is white space. */
  lemma TrimTrailing(s: string)
    ensures var r, lead := Trim(s), |s| - |TrimStart(s)|;
      forall k :: lead + |r| <= k < |s| ==> IsSpace(s[k])
  {
    var t := TrimStart(s);
    var lead := |s| - |t|;
    forall k | lead + |Trim(s)| <= k < |s| ensures IsSpace(s[k]) {
      assert s[k] == t[k - lead];
    }
  }

  /** The trimmed text does not start with white space. */
  lemma TrimFirst(s: string)
    ensures Trim(s) == [] || !IsSpace(Trim(s)[0])
  {
    var t := TrimStart(s);
    if Trim(s) != [] {
      assert Trim(s)[0] == t[0];
    }
  }

  lemma SliceOfSuffix<T>(s: seq<T>, i: nat, n: nat)
    requires i + n <= |s|
    ensures s[i..][..n] == s[i..i + n]
  {
  }


  lemma {:induction false} TrimStartPadded(a: string, s: string)
    requires forall k :: 0 <= k < |a| ==> IsSpace(a[k])
    requires s == [] || !IsSpace(s[0])
    ensures TrimStart(a + s) == s
    decreases |a|
  {
    if |a| > 0 {
      assert (a + s)[1..] == a[1..] + s;
      TrimStartPadded(a[1..], s);
    }
  }

  lemma {:induction false} TrimEndPadded(s: string, b: string)
    requires forall k :: 0 <= k < |b| ==> IsSpace(b[k])
    requires s == [] || !IsSpace(s[|s| - 1])
    ensures TrimEnd(s + b) == s
    decreases |b|
  {
    if |b| > 0 {
      assert (s + b)[..|s + b| - 1] == s + b[..|b| - 1];
      TrimEndPadded(s, b[..|b| - 1]);
    } else {
      assert s + b == s;
    }
  }

  /** Trim gives back exactly the text between white-space padding, when
    * that text does not itself begin or end with white space. */
  lemma TrimPadded(a: string, core: string, b: string)
    requires forall k :: 0 <= k < |a| ==> IsSpace(a[k])
    requires forall k :: 0 <= k < |b| ==> IsSpace(b[k])
    requires core == [] || (!IsSpace(core[0]) && !IsSpace(core[|core| - 1]))
    ensures Trim(a + core + b) == core
  {
    if core == [] {
      assert a + core + b == a + b;
      forall k | 0 <= k < |a + b| ensures IsSpace((a + b)[k]) {
        if k >= |a| {
          assert (a + b)[k] == b[k - |a|];
        }
      }
      TrimStartPadded(a + b, []);
      assert a + b + [] == a + b;
    } else {
      assert a + core + b == a + (core + b);
      TrimStartPadded(a, core + b);
      TrimEndPadded(core, b);
    }
  }

  /** Text without white space at its ends is its own trim. */
  lemma TrimOfTrimmed(s: string)
    requires s == [] || (!IsSpace(s[0]) && !IsSpace(s[|s| - 1]))
    ensures Trim(s) == s
  {
  }

  // ---------------------------------------------------------------------
  // Fixed-width decimal fields (the "HH", "mm", "yyyy" custom formats)
  // ---------------------------------------------------------------------

  function Pow10(n: nat): (r: nat)
    ensures r >= 1
  {
    if n == 0 then 1 else 10 * Pow10(n - 1)
  }

  predicate IsDigit(ch: char)
  {
    '0' <= ch <= '9'
  }

  function DigitChar(d: nat): char
    requires d < 10
  {
    ('0' as int + d) as char
  }

  /** `n` in exactly `width` decimal digits, with leading zeros. */
  function Digits(n: nat, width: nat): (r: string)
    requires n < Pow10(width)
    ensures |r| == width
    ensures forall k :: 0 <= k < |r| ==> IsDigit(r[k])
  {
    if width == 0 then [] else Digits(n / 10, width - 1) + [DigitChar(n % 10)]
  }

  function DigitValue(ch: char): nat
    requires IsDigit(ch)
  {
    ch as int - '0' as int
  }

  /** The number that a string of decimal digits spells. */
  function ParseDigits(s: string): nat
    requires forall k :: 0 <= k < |s| ==> IsDigit(s[k])
  {
    if |s| == 0 then 0
    else 10 * ParseDigits(s[..|s| - 1]) + DigitValue(s[|s| - 1])
  }

  /** Reading back a fixed-width field gives the number that was written. */
  lemma {:induction false} ParseDigitsOfDigits(n: nat, width: nat)
    requires n < Pow10(width)
    ensures ParseDigits(Digits(n, width)) == n
  {
    if width > 0 {
      var d := Digits(n, width);
      assert d[..|d| - 1] == Digits(n / 10, width - 1);
      ParseDigitsOfDigits(n / 10, width - 1);
    }
  }

  // ---------------------------------------------------------------------
  // Date and time formats
  // ---------------------------------------------------------------------

  /** The calendar and clock fields of DateTime.Now that the formats read. */
  datatype DateTime = DateTime(year: nat, month: nat, day: nat, hour: nat, minute: nat, second: nat)
  {
    predicate Valid()
    {
      1 <= year <= 9999 && 1 <= month <= 12 && 1 <= day <= 31 &&
      hour < 24 && minute < 60 && second < 60
    }
  }

  /** The custom format "HH:mm:ss". */
  function FormatClock(t: DateTime): (r: string)
    requires t.Valid()
    ensures |r| == 8 && r[2] == ':' && r[5] == ':'
  {
    Digits(t.hour, 2) + ":" + Digits(t.minute, 2) + ":" + Digits(t.second, 2)
  }

  /** The custom format "yyyyMMdd_HHmmss". */
  function FormatStamp(t: DateTime): (r: string)
    requires t.Valid()
    ensures |r| == 15 && r[8] == '_'
  {
    Digits(t.year, 4) + Digits(t.month, 2) + Digits(t.day, 2) + "_" +
    Digits(t.hour, 2) + Digits(t.minute, 2) + Digits(t.second, 2)
  }

  predicate AllDigits(s: string)
  {
    forall k :: 0 <= k < |s| ==> IsDigit(s[k])
  }

  /** Reads a "HH:mm:ss" text back into its three fields. */
  function ParseClock(s: string): Option<(nat, nat, nat)>
  {
    if |s| == 8 && s[2] == ':' && s[5] == ':' &&
       AllDigits(s[0..2]) && AllDigits(s[3..5]) && AllDigits(s[6..8])
    then Some((ParseDigits(s[0..2]), ParseDigits(s[3..5]), ParseDigits(s[6..8])))
    else None
  }

  /** Reads a "yyyyMMdd_HHmmss" text back into a date and time. */
  function ParseStamp(s: string): Option<DateTime>
  {
    if |s| == 15 && s[8] == '_' then
      var date, clock := s[..8], s[9..];
      if AllDigits(date[0..4]) && AllDigits(date[4..6]) && AllDigits(date[6..8]) &&
         AllDigits(clock[0..2]) && AllDigits(clock[2..4]) && AllDigits(clock[4..6])
      then Some(DateTime(ParseDigits(date[0..4]), ParseDigits(date[4..6]), ParseDigits(date[6..8]),
                         ParseDigits(clock[0..2]), ParseDigits(clock[2..4]), ParseDigits(clock[4..6])))
      else None
    else None
  }

  /** The three parts of a concatenation of three. */
  lemma Fields3<T>(a: seq<T>, b: seq<T>, c: seq<T>)
    ensures var s := a + b + c;
      && s[..|a|] == a && s[|a|..|a| + |b|] == b && s[|a| + |b|..] == c
      && s[0..|a|] == a && s[|a| + |b|..|a| + |b| + |c|] == c
  {
  }

  /** The clock format loses nothing: its fields read back as written. */
  lemma ClockRoundTrip(t: DateTime)
    requires t.Valid()
    ensures ParseClock(FormatClock(t)) == Some((t.hour, t.minute, t.second))
  {
    var s := FormatClock(t);
    assert s[0..2] == Digits(t.hour, 2);
    assert s[3..5] == Digits(t.minute, 2);
    assert s[6..8] == Digits(t.second, 2);
    ParseDigitsOfDigits(t.hour, 2);
    ParseDigitsOfDigits(t.minute, 2);
    ParseDigitsOfDigits(t.second, 2);
  }

  /** The backup stamp loses nothing: the date and time read back as written,
    * so two different moments never give the same backup name. */
  lemma StampRoundTrip(t: DateTime)
    requires t.Valid()
    ensures ParseStamp(FormatStamp(t)) == Some(t)
  {
    var date := Digits(t.year, 4) + Digits(t.month, 2) + Digits(t.day, 2);
    var clock := Digits(t.hour, 2) + Digits(t.minute, 2) + Digits(t.second, 2);
    StampParts(t, date, clock);
    Fields3(Digits(t.year, 4), Digits(t.month, 2), Digits(t.day, 2));
    Fields3(Digits(t.hour, 2), Digits(t.minute, 2), Digits(t.second, 2));
    ParseDigitsOfDigits(t.year, 4);
    ParseDigitsOfDigits(t.month, 2);
    ParseDigitsOfDigits(t.day, 2);
    ParseDigitsOfDigits(t.hour, 2);
    ParseDigitsOfDigits(t.minute, 2);
    ParseDigitsOfDigits(t.second, 2);
  }

  /** The stamp is the date, '_' and the clock. */
  lemma StampParts(t: DateTime, date: string, clock: string)
    requires t.Valid()
    requires date == Digits(t.year, 4) + Digits(t.month, 2) + Digits(t.day, 2)
    requires clock == Digits(t.hour, 2) + Digits(t.minute, 2) + Digits(t.second, 2)
    ensures var s := FormatStamp(t); s[..8] == date && s[9..] == clock
  {
    Fields3(date, "_", clock);
    assert FormatStamp(t) == date + "_" + clock by {
      var y, m, d := Digits(t.year, 4), Digits(t.month, 2), Digits(t.day, 2);
      var h, mi, sc := Digits(t.hour, 2), Digits(t.minute, 2), Digits(t.second, 2);
      AppendAssoc(y + m + d + "_", h, mi);
      AppendAssoc(y + m + d + "_", h + mi, sc);
    }
  }

}
