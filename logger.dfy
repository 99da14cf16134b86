/**
 * The session log: the in-memory list of entries, the lines shown in the
 * log panel and the text of program.log. Lines are broken at CR LF, the
 * newline the tool writes.
 */
module Logger {
  import opened Text

  const NewLine := "\r\n"

  /** The text every session separator starts with. */
  const SessionMarker := "=== 新会话"

  /** The panel keeps at most this many lines before it is trimmed. */
  const MaxLines := 500
  /** How many of the oldest lines a trim drops. */
  const DroppedLines := 100

  // ---------------------------------------------------------------------
  // Lines of a text
  // ---------------------------------------------------------------------

  /** `s` has a line break at index `i`. */
  predicate BreakAt(s: string, i: int)
  {
    0 <= i && i + 1 < |s| && s[i] == '\r' && s[i + 1] == '\n'
  }

  predicate NoBreak(s: string)
  {
    forall i :: 0 <= i < |s| ==> !BreakAt(s, i)
  }

  /** The index of the first line break, or |s| when there is none. */
  function FindBreak(s: string): (r: nat)
    ensures r <= |s|
    ensures r < |s| ==> BreakAt(s, r)
    ensures forall k :: 0 <= k < r ==> !BreakAt(s, k)
    decreases |s|
  {
    if |s| < 2 then |s|
    else if s[0] == '\r' && s[1] == '\n' then 0
    else
      var r := 1 + FindBreak(s[1..]);
      assert forall k :: 1 <= k < r ==> !BreakAt(s, k) by {
        forall k | 1 <= k < r ensures !BreakAt(s, k) {
          assert !BreakAt(s[1..], k - 1);
        }
      }
      assert r < |s| ==> BreakAt(s[1..], r - 1);
      r
  }

  /** The pieces between the line breaks; a text ending in a line break
    * has an empty last piece. */
  function Pieces(s: string): (r: seq<string>)
    ensures |r| >= 1
    decreases |s|
  {
    var i := FindBreak(s);
    if i == |s| then [s] else [s[..i]] + Pieces(s[i + 2..])
  }

  /** TextBox.Lines: no line for an empty text, otherwise every piece. */
  function BoxLines(s: string): seq<string>
  {
    if s == "" then [] else Pieces(s)
  }

  /** File.ReadAllLines: like the pieces, without the empty piece after a
    * final line break. */
  function ReadAllLines(s: string): seq<string>
  {
    if s == "" then []
    else
      var p := Pieces(s);
      if p[|p| - 1] == "" then p[..|p| - 1] else p
  }

  lemma FindBreakAfter(p: string, rest: string)
    requires NoBreak(p)
    ensures FindBreak(p + NewLine + rest) == |p|
  {
    var s := p + NewLine + rest;
    assert BreakAt(s, |p|);
    forall k | 0 <= k < |p| ensures !BreakAt(s, k) {
      if k + 1 < |p| {
        assert !BreakAt(p, k);
      }
    }
  }

  /** Joining break-free lines with newlines and cutting again at the line
    * breaks gives the lines back. */
  lemma {:induction false} PiecesOfJoin(lines: seq<string>)
    requires |lines| >= 1
    requires forall k :: 0 <= k < |lines| ==> NoBreak(lines[k])
    ensures Pieces(Join(lines, NewLine)) == lines
    decreases |lines|
  {
    if |lines| == 1 {
      assert FindBreak(lines[0]) == |lines[0]|;
    } else {
      var rest := Join(lines[1..], NewLine);
      var s := lines[0] + NewLine + rest;
      assert Join(lines, NewLine) == s;
      FindBreakAfter(lines[0], rest);
      assert s[..|lines[0]|] == lines[0];
      assert s[|lines[0]| + 2..] == rest;
      PiecesOfJoin(lines[1..]);
    }
  }

  /** No piece contains a line break. */
  lemma {:induction false} PiecesNoBreak(s: string)
    ensures forall k :: 0 <= k < |Pieces(s)| ==> NoBreak(Pieces(s)[k])
    decreases |s|
  {
    var i := FindBreak(s);
    if i < |s| {
      var head := s[..i];
      forall j | 0 <= j < |head| ensures !BreakAt(head, j) {
        assert !BreakAt(s, j);
      }
      PiecesNoBreak(s[i + 2..]);
      var r := Pieces(s);
      assert r == [head] + Pieces(s[i + 2..]);
      forall k | 1 <= k < |r| ensures NoBreak(r[k]) {
        assert r[k] == Pieces(s[i + 2..])[k - 1];
      }
    }
  }

  /** A list read back from a file holds no line break. */
  lemma ReadAllLinesNoBreak(s: string)
    ensures forall k :: 0 <= k < |ReadAllLines(s)| ==> NoBreak(ReadAllLines(s)[k])
  {
    if s != "" {
      PiecesNoBreak(s);
    }
  }

  /** Showing break-free lines in the panel keeps them as they are, except
    * that one empty line shows as an empty panel. */
  lemma ShownLines(lines: seq<string>)
    requires forall k :: 0 <= k < |lines| ==> NoBreak(lines[k])
    ensures Shown(lines) == if lines == [] || lines == [""] then [] else lines
  {
    if |lines| >= 2 {
      assert Join(lines, NewLine) == lines[0] + NewLine + Join(lines[1..], NewLine);
      PiecesOfJoin(lines);
    } else if |lines| == 1 {
      PiecesOfJoin(lines);
    }
  }

  // ---------------------------------------------------------------------
  // The log panel (Logger.cs:90-103)
  // ---------------------------------------------------------------------

  /** The panel's lines after TextBox.AppendText of a text whose pieces are
    * `pieces`: the first piece continues the last line. */
  function AppendText(lines: seq<string>, pieces: seq<string>): (r: seq<string>)
    requires |pieces| >= 2
    ensures |r| == if lines == [] then |pieces| else |lines| + |pieces| - 1
  {
    if lines == [] then pieces
    else lines[..|lines| - 1] + [lines[|lines| - 1] + pieces[0]] + pieces[1..]
  }

  /** The line view agrees with the text: the panel's new text is its old
    * text followed by the appended text. */
  lemma AppendTextIsTextAppend(lines: seq<string>, pieces: seq<string>)
    requires |pieces| >= 2
    ensures Join(AppendText(lines, pieces), NewLine) == Join(lines, NewLine) + Join(pieces, NewLine)
  {
    if lines != [] {
      var n := |lines|;
      var front, last, rest := lines[..n - 1], lines[n - 1], pieces[1..];
      AppendTextShape(lines, pieces);
      GlueFirstLine(last, pieces[0], rest);
      if front != [] {
        GlueAfterFront(front, last, pieces[0], rest);
      }
    }
  }

  /** How AppendText regroups the lines and the pieces. */
  lemma AppendTextShape(lines: seq<string>, pieces: seq<string>)
    requires |pieces| >= 2 && lines != []
    ensures var n := |lines|; var front, last, rest := lines[..n - 1], lines[n - 1], pieces[1..];
      && pieces == [pieces[0]] + rest
      && lines == front + [last]
      && AppendText(lines, pieces) == front + ([last + pieces[0]] + rest)
      && (front == [] ==> lines == [last])
  {
  }

  /** The same with complete lines in front of the continued one. */
  lemma GlueAfterFront(front: seq<string>, last: string, first: string, rest: seq<string>)
    requires |front| >= 1 && |rest| >= 1
    requires Join([last + first] + rest, NewLine) == last + Join([first] + rest, NewLine)
    ensures Join(front + ([last + first] + rest), NewLine) == Join(front + [last], NewLine) + Join([first] + rest, NewLine)
  {
    var tail := Join([first] + rest, NewLine);
    calc {
      Join(front + ([last + first] + rest), NewLine);
      { JoinAppend(front, [last + first] + rest, NewLine); }
      Join(front, NewLine) + NewLine + (last + tail);
      (Join(front, NewLine) + NewLine + last) + tail;
      { JoinSnoc(front, last, NewLine); }
      Join(front + [last], NewLine) + tail;
    }
  }

  /** Text appended to a panel whose last line is `last` continues that
    * line. */
  lemma GlueFirstLine(last: string, first: string, rest: seq<string>)
    requires |rest| >= 1
    ensures Join([last + first] + rest, NewLine) == last + Join([first] + rest, NewLine)
  {
    var tail := Join(rest, NewLine);
    JoinCons(last + first, rest, NewLine);
    JoinCons(first, rest, NewLine);
    AppendAssoc(last, first, NewLine + tail);
    AppendAssoc(last + first, NewLine, tail);
    AppendAssoc(first, NewLine, tail);
  }


  /** Over 500 lines the panel drops its first 100. */
  function TrimDisplay(lines: seq<string>): (r: seq<string>)
    ensures |lines| > MaxLines ==> r == lines[DroppedLines..]
    ensures |lines| <= MaxLines ==> r == lines
  {
    if |lines| > MaxLines then lines[DroppedLines..] else lines
  }

  /** The panel's lines after TextBox.AppendText(text + newline). */
  function AppendLine(display: seq<string>, text: string): seq<string>
  {
    PiecesAppendNewLine(text);
    AppendText(display, Pieces(text + NewLine))
  }

  /** The panel after one entry (UpdateLogTextBox): the entry and a newline
    * appended, then trimmed. */
  function ShowEntry(display: seq<string>, entry: string): seq<string>
  {
    TrimDisplay(AppendLine(display, entry))
  }

  lemma PiecesOfLine(entry: string)
    ensures |Pieces(entry + NewLine)| >= 2
    ensures NoBreak(entry) ==> Pieces(entry + NewLine) == [entry, ""]
  {
    PiecesAppendNewLine(entry);
  }

  lemma {:induction false} PiecesAppendNewLine(s: string)
    ensures Pieces(s + NewLine) == Pieces(s) + [""]
    decreases |s|
  {
    var i := FindBreak(s);
    if i == |s| {
      PiecesOfUnbroken(s);
    } else {
      var rest := s[i + 2..];
      PiecesAppendNewLine(rest);
      PiecesOfBroken(s, NewLine);
      AppendAssoc([s[..i]], Pieces(rest), [""]);
    }
  }

  /** For a text with a break, appending keeps the first piece and
    * appends to the rest. */
  lemma PiecesOfBroken(s: string, x: string)
    requires FindBreak(s) < |s|
    ensures var i := FindBreak(s);
      && Pieces(s) == [s[..i]] + Pieces(s[i + 2..])
      && Pieces(s + x) == [s[..i]] + Pieces(s[i + 2..] + x)
  {
    var i := FindBreak(s);
    EarlierBreak(s, x);
    DropAppend(s, x, i + 2);
  }


  /** A text without a break followed by a newline is one line and the
    * empty piece. */
  lemma PiecesOfUnbroken(s: string)
    requires FindBreak(s) == |s|
    ensures Pieces(s + NewLine) == [s, ""]
  {
    var t := s + NewLine;
    assert FindBreak(t) == |s| by {
      assert NoBreak(s);
      FindBreakAfter(s, "");
      AppendHalves(s + NewLine, "");
    }
    assert t[..|s|] == s by {
      AppendHalves(s, NewLine);
    }
    assert t[|s| + 2..] == "";
    assert Pieces("") == [""];
    PairOf(s, "");
  }


  /** Text appended after a break does not move the first break. */
  lemma EarlierBreak(s: string, x: string)
    requires FindBreak(s) < |s|
    ensures FindBreak(s + x) == FindBreak(s)
    ensures var i := FindBreak(s); (s + x)[..i] == s[..i]
  {
    var i, t := FindBreak(s), s + x;
    assert BreakAt(t, i);
    forall k | 0 <= k < i ensures !BreakAt(t, k) {
      assert !BreakAt(s, k);
    }
  }


  /** A panel of at most 500 lines stays within 500 lines when an entry of
    * at most 100 lines is shown. Short of the limit, a one-line entry
    * continues the last line and a fresh empty line follows. */
  lemma DisplayBounded(display: seq<string>, entry: string)
    requires |display| <= MaxLines
    requires |Pieces(entry)| <= DroppedLines
    ensures |ShowEntry(display, entry)| <= MaxLines
    ensures NoBreak(entry) && display == [] ==> ShowEntry(display, entry) == [entry, ""]
    ensures NoBreak(entry) && 0 < |display| < MaxLines ==>
      ShowEntry(display, entry) == display[..|display| - 1] + [display[|display| - 1] + entry, ""]
  {
    PiecesAppendNewLine(entry);
    PiecesOfLine(entry);
  }

  /** The bound does not survive longer entries: a full panel shown an
    * entry of 101 lines ends with 501. */
  lemma DisplayOverflow(display: seq<string>, entry: string)
    requires |display| == MaxLines
    requires |Pieces(entry)| == DroppedLines + 1
    ensures |ShowEntry(display, entry)| == MaxLines + 1
  {
    PiecesAppendNewLine(entry);
  }

  /** A trim keeps the newest lines, in order, and drops exactly the first
    * 100 of a panel over the limit. */
  lemma TrimKeepsSuffix(lines: seq<string>)
    ensures var r := TrimDisplay(lines); |r| <= |lines| && r == lines[|lines| - |r|..]
    ensures |lines| > MaxLines ==> |TrimDisplay(lines)| == |lines| - DroppedLines
    ensures |lines| <= MaxLines ==> TrimDisplay(lines) == lines
  {
  }

  // ---------------------------------------------------------------------
  // Sessions (Logger.cs:110-143)
  // ---------------------------------------------------------------------

  /** The index of the last entry holding the session marker, or -1. */
  function LastMarker(entries: seq<string>): (r: int)
    ensures -1 <= r < |entries|
    ensures r >= 0 ==> Contains(entries[r], SessionMarker)
    ensures forall k :: r < k < |entries| ==> !Contains(entries[k], SessionMarker)
    decreases |entries|
  {
    if |entries| == 0 then -1
    else if Contains(entries[|entries| - 1], SessionMarker) then |entries| - 1
    else LastMarker(entries[..|entries| - 1])
  }

  /** What ClearLogFile keeps: from the last separator on, or everything
    * when there is none. */
  function CurrentSession(entries: seq<string>): seq<string>
  {
    var i := LastMarker(entries);
    if i >= 0 then entries[i..] else entries
  }

  /** The kept entries are a suffix of the log that starts with the last
    * separator and contains no other; with no separator, all are kept. */
  lemma CurrentSessionSpec(entries: seq<string>)
    ensures var s := CurrentSession(entries);
      && |s| <= |entries| && s == entries[|entries| - |s|..]
      && (LastMarker(entries) < 0 <==> s == entries && forall k :: 0 <= k < |s| ==> !Contains(s[k], SessionMarker))
      && (LastMarker(entries) >= 0 ==> |s| >= 1 && Contains(s[0], SessionMarker))
      && (forall k :: 1 <= k < |s| ==> !Contains(s[k], SessionMarker))
  {
    CurrentSessionIsSuffix(entries);
    CurrentSessionMarkers(entries);
  }

  /** The suffix part of CurrentSessionSpec. */
  lemma CurrentSessionIsSuffix(entries: seq<string>)
    ensures var s := CurrentSession(entries);
      |s| <= |entries| && s == entries[|entries| - |s|..]
  {
  }

  /** The separator part of CurrentSessionSpec. */
  lemma CurrentSessionMarkers(entries: seq<string>)
    ensures var s := CurrentSession(entries);
      && (LastMarker(entries) < 0 <==> s == entries && forall k :: 0 <= k < |s| ==> !Contains(s[k], SessionMarker))
      && (LastMarker(entries) >= 0 ==> |s| >= 1 && Contains(s[0], SessionMarker))
      && (forall k :: 1 <= k < |s| ==> !Contains(s[k], SessionMarker))
  {
    var i := LastMarker(entries);
    var s := CurrentSession(entries);
    if i >= 0 {
      forall k | 1 <= k < |s| ensures !Contains(s[k], SessionMarker) {
        assert s[k] == entries[i + k];
      }
    }
  }

  /** "[HH:mm:ss] message" */
  function Entry(now: DateTime, message: string): string
    requires now.Valid()
  {
    "[" + FormatClock(now) + "] " + message
  }

  /** An entry shows the time it was made, and it never starts like a
    * session separator. */
  lemma EntryShape(now: DateTime, message: string)
    requires now.Valid()
    ensures var e := Entry(now, message);
      && |e| >= 11 && e[0] == '[' && e[1..9] == FormatClock(now) && e[9..11] == "] "
      && ParseClock(e[1..9]) == Some((now.hour, now.minute, now.second))
      && e[11..] == message
      && !(SessionMarker <= e)
  {
    ClockRoundTrip(now);
  }

  /** The separator written at the start of a session. */
  function Separator(nowText: string): (r: string)
    ensures Contains(r, SessionMarker)
  {
    var r := SessionMarker + " " + nowText + " ===";
    assert OccursAt(r, SessionMarker, 0);
    ContainsOfOccurrence(r, SessionMarker, 0);
    r
  }

  /** After the separator is appended, the current session is exactly the
    * separator. */
  lemma SeparatorStartsSession(entries: seq<string>, nowText: string)
    ensures LastMarker(entries + [Separator(nowText)]) == |entries|
    ensures CurrentSession(entries + [Separator(nowText)]) == [Separator(nowText)]
  {
  }

  /** Extending the last of the joined lines extends the text. */
  lemma {:induction false} JoinExtendSession(session: seq<string>, entry: string)
    requires |session| >= 1
    ensures var n := |session|;
      Join(session[..n - 1] + [session[n - 1] + entry], NewLine) == Join(session, NewLine) + entry
    decreases |session|
  {
    var n := |session|;
    var lines := session[..n - 1] + [session[n - 1] + entry];
    if n == 1 {
      assert lines == [session[0] + entry];
    } else {
      var tail := session[1..];
      JoinExtendSession(tail, entry);
      assert lines[1..] == tail[..n - 2] + [tail[n - 2] + entry];
      assert lines[0] == session[0];
    }
  }

  /** Break-free lines stay break-free when the last one is extended by a
    * text that keeps it break-free. */
  lemma ExtendLastNoBreak(session: seq<string>, entry: string)
    requires |session| >= 1
    requires forall k :: 0 <= k < |session| ==> NoBreak(session[k])
    requires NoBreak(session[|session| - 1] + entry)
    ensures var n := |session|; var lines := session[..n - 1] + [session[n - 1] + entry];
      forall k :: 0 <= k < |lines| ==> NoBreak(lines[k])
  {
    var n := |session|;
    var lines := session[..n - 1] + [session[n - 1] + entry];
    forall k | 0 <= k < |lines| ensures NoBreak(lines[k]) {
      if k < n - 1 {
        assert lines[k] == session[k];
      }
    }
  }

  /** Closing the log keeps the separator of the last session and every
    * entry logged after it, provided none of those mentions the marker. */
  lemma {:induction false} SessionAfterSeparator(earlier: seq<string>, nowText: string, later: seq<string>)
    requires forall k :: 0 <= k < |later| ==> !Contains(later[k], SessionMarker)
    ensures LastMarker(earlier + [Separator(nowText)] + later) == |earlier|
    ensures CurrentSession(earlier + [Separator(nowText)] + later) == [Separator(nowText)] + later
    decreases |later|
  {
    var all := earlier + [Separator(nowText)] + later;
    if later == [] {
      assert all == earlier + [Separator(nowText)];
      SeparatorStartsSession(earlier, nowText);
    } else {
      var init := later[..|later| - 1];
      assert all[..|all| - 1] == earlier + [Separator(nowText)] + init;
      assert all[|all| - 1] == later[|later| - 1];
      SessionAfterSeparator(earlier, nowText, init);
      assert all[|earlier|..] == [Separator(nowText)] + later;
    }
  }

  /** What ClearLogFile writes, read back after its own closing Log call:
    * since the kept entries are joined without a final newline, the new
    * entry lands on the same line as the last kept one. */
  lemma ClearThenLogJoinsLastLine(session: seq<string>, entry: string)
    requires |session| >= 1
    requires forall k :: 0 <= k < |session| ==> NoBreak(session[k])
    requires NoBreak(session[|session| - 1] + entry)
    ensures var n := |session|;
      ReadAllLines(Join(session, NewLine) + entry + NewLine) == session[..n - 1] + [session[n - 1] + entry]
  {
    var n := |session|;
    var lines := session[..n - 1] + [session[n - 1] + entry];
    ExtendLastNoBreak(session, entry);
    JoinExtendSession(session, entry);
    ReadBack(lines);
  }

  /** Text the log file holds after lines were appended one by one, each
    * followed by a newline, is read back line for line. */
  lemma ReadBack(lines: seq<string>)
    requires |lines| >= 1
    requires forall k :: 0 <= k < |lines| ==> NoBreak(lines[k])
    ensures ReadAllLines(Join(lines, NewLine) + NewLine) == lines
  {
    var all := lines + [""];
    var text := Join(lines, NewLine) + NewLine;
    JoinFinalBreak(lines);
    NoBreakWithEmpty(lines);
    PiecesOfJoin(all);
    AppendHalves(lines, [""]);
    ReadAllLinesDropsLast(text, all);
  }

  /** A final newline is an empty last line. */
  lemma JoinFinalBreak(lines: seq<string>)
    requires |lines| >= 1
    ensures Join(lines + [""], NewLine) == Join(lines, NewLine) + NewLine
  {
    JoinSnoc(lines, "", NewLine);
    AppendHalves(Join(lines, NewLine) + NewLine, "");
  }

  /** The empty line has no break. */
  lemma NoBreakWithEmpty(lines: seq<string>)
    requires forall k :: 0 <= k < |lines| ==> NoBreak(lines[k])
    ensures forall k :: 0 <= k < |lines + [""]| ==> NoBreak((lines + [""])[k])
  {
    assert NoBreak("");
  }

  /** File.ReadAllLines drops the empty piece after a final line break. */
  lemma ReadAllLinesDropsLast(s: string, pieces: seq<string>)
    requires Pieces(s) == pieces && |pieces| >= 2 && pieces[|pieces| - 1] == ""
    ensures ReadAllLines(s) == pieces[..|pieces| - 1]
  {
    assert s != "";
  }


  // ---------------------------------------------------------------------
  // The logger
  // ---------------------------------------------------------------------

  class SessionLog {
    /** _logEntries */
    var entries: seq<string>
    /** _logTextBox.Lines */
    var display: seq<string>
    /** The text of program.log; None while the file does not exist. */
    var file: Option<string>

    constructor (file: Option<string>)
      ensures entries == [] && display == [] && this.file == file
    {
      entries, display := [], [];
      this.file := file;
    }

    /** Initialize (Logger.cs:16-58). `nowText` is DateTime.Now as the
      * current culture prints it; `readOk` and `writeOk` say whether
      * reading and writing program.log succeed (an exception is shown in a
      * message box and ends the method). */
    method Initialize(nowText: string, readOk: bool, writeOk: bool)
      modifies this
      ensures old(file).Some? ==>
        && entries == (if readOk then old(entries) + ReadAllLines(old(file).value) + [Separator(nowText)]
                       else old(entries))
        && file == (if readOk && writeOk then Some(old(file).value + Separator(nowText) + NewLine)
                    else old(file))
        && display == (if !readOk then old(display)
                       else if writeOk then AppendLine(Shown(ReadAllLines(old(file).value)), NewLine + Separator(nowText))
                       else Shown(ReadAllLines(old(file).value)))
      ensures old(file).None? ==>
        && entries == old(entries) && display == old(display)
        && file == (if writeOk then Some("=== 日志开始 " + nowText + " ===\r\n") else None)
    {
      if file.Some? {
        if !readOk {
          return;
        }
        var existing := ReadAllLines(file.value);
        entries := entries + existing;
        display := Shown(existing);
        var separator := Separator(nowText);
        entries := entries + [separator];
        if !writeOk {
          return;
        }
        file := Some(file.value + separator + NewLine);
        display := AppendLine(display, NewLine + separator);
      } else if writeOk {
        file := Some("=== 日志开始 " + nowText + " ===\r\n");
      }
    }

    /** Log (Logger.cs:60-88): appends the entry; `fileOk` says whether
      * appending to program.log succeeds and `uiReady` whether the panel
      * can be updated. Neither failure escapes. */
    method Log(message: string, now: DateTime, fileOk: bool, uiReady: bool)
      requires now.Valid()
      modifies this
      ensures entries == old(entries) + [Entry(now, message)]
      ensures file == if fileOk then Some(OrEmpty(old(file)) + Entry(now, message) + NewLine) else old(file)
      ensures display == if uiReady then ShowEntry(old(display), Entry(now, message)) else old(display)
    {
      var entry := Entry(now, message);
      entries := entries + [entry];
      if fileOk {
        // File.AppendAllText creates a missing file.
        file := Some(OrEmpty(file) + entry + "\r\n");
      }
      if uiReady {
        UpdateLogTextBox(entry);
      }
    }

    /** UpdateLogTextBox (Logger.cs:90-103). */
    method UpdateLogTextBox(entry: string)
      modifies this
      ensures display == ShowEntry(old(display), entry)
      ensures entries == old(entries) && file == old(file)
    {
      var lines := AppendLine(display, entry);
      if |lines| > MaxLines {
        lines := lines[DroppedLines..];
      }
      display := lines;
    }

    /** GetLogEntries: a copy of the entries in a new array. */
    method GetLogEntries() returns (a: array<string>)
      ensures fresh(a)
      ensures a[..] == entries
    {
      var e := entries;
      a := new string[|e|](i requires 0 <= i < |e| => e[i]);
    }

    /** The loop of ClearLogFile that finds the last session separator. */
    method FindCurrentSession() returns (index: int)
      ensures index == LastMarker(entries)
    {
      index := -1;
      var i := 0;
      while i < |entries|
        invariant 0 <= i <= |entries|
        invariant index == LastMarker(entries[..i])
      {
        assert entries[..i + 1][..i] == entries[..i];
        if Contains(entries[i], SessionMarker) {
          index := i;
        }
        i := i + 1;
      }
      assert entries[..i] == entries;
    }

    /** ClearLogFile (Logger.cs:110-143) on closing: program.log is
      * rewritten with the current session joined by newlines, then one
      * more entry is logged. When the write fails nothing changes.
      * `fileOk` and `uiReady` are for the closing Log call. */
    method ClearLogFile(writeOk: bool, now: DateTime, fileOk: bool, uiReady: bool)
      requires now.Valid()
      modifies this
      ensures var message := "日志文件已清空，仅保留当前会话";
        if writeOk then
          && entries == old(entries) + [Entry(now, message)]
          && file == Some(if fileOk then Join(CurrentSession(old(entries)), NewLine) + Entry(now, message) + NewLine
                          else Join(CurrentSession(old(entries)), NewLine))
          && display == (if uiReady then ShowEntry(old(display), Entry(now, message)) else old(display))
        else
          entries == old(entries) && file == old(file) && display == old(display)
    {
      var index := FindCurrentSession();
      var session := if index >= 0 then entries[index..] else entries;
      if !writeOk {
        return;
      }
      assert session == CurrentSession(entries);
      file := Some(Join(session, NewLine));
      assert OrEmpty(file) == Join(session, NewLine);
      Log("日志文件已清空，仅保留当前会话", now, fileOk, uiReady);
    }
  }

  /** The panel's lines after TextBox.Text is set to the lines joined by
    * newlines. */
  function Shown(lines: seq<string>): seq<string>
  {
    BoxLines(Join(lines, NewLine))
  }

  function OrEmpty(file: Option<string>): string
  {
    if file.Some? then file.value else ""
  }
}
