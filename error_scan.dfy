/**
 * The error extraction of the status check: the global regular expression
 * `/\[(\d{2}:\d{2}:\d{2})\]\s+(.*)/g` run with `exec` over a log's `stderr`,
 * each match added to a `Set` as "[<timestamp>] <message>".
 */
module ErrorScan {
  import opened Wrappers

  /** `\d`: an ASCII digit. */
  predicate IsDigit(c: char) {
    '0' <= c <= '9'
  }

  /** JavaScript's line terminators: the characters `.` does not match. */
  predicate IsLineTerminator(c: char) {
    c == '\n' || c == '\r' || c == '\U{2028}' || c == '\U{2029}'
  }

  /** `\s`: JavaScript's white space and line terminator characters. */
  predicate IsSpace(c: char) {
    || IsLineTerminator(c)
    || c == '\t' || c == '\U{000B}' || c == '\U{000C}' || c == ' ' || c == '\U{00A0}'
    || c == '\U{1680}' || ('\U{2000}' <= c <= '\U{200A}') || c == '\U{202F}'
    || c == '\U{205F}' || c == '\U{3000}' || c == '\U{FEFF}'
  }

  /** `\d{2}:\d{2}:\d{2}` matches at index `i` of `s`. */
  predicate TimestampAt(s: string, i: nat) {
    && i + 8 <= |s|
    && IsDigit(s[i]) && IsDigit(s[i + 1]) && s[i + 2] == ':'
    && IsDigit(s[i + 3]) && IsDigit(s[i + 4]) && s[i + 5] == ':'
    && IsDigit(s[i + 6]) && IsDigit(s[i + 7])
  }

  /** The text of the first capture group: exactly `\d{2}:\d{2}:\d{2}`. */
  predicate IsTimestamp(t: string) {
    |t| == 8 && TimestampAt(t, 0)
  }

  /**
   * A match, by position: it starts at `start` (the `[`), its message (the second
   * capture group) occupies `msgStart` up to `end`, and `end` is where the next
   * `exec` resumes (`lastIndex`). The timestamp occupies `start + 1` to `start + 9`.
   */
  datatype Match = Match(start: nat, msgStart: nat, end: nat)

  /** Greedy `\s*` from `i`: the first index at or after `i` that is not white space. */
  function SkipSpaces(s: string, i: nat): (j: nat)
    requires i <= |s|
    ensures i <= j <= |s|
    ensures i < |s| && IsSpace(s[i]) ==> i < j
    decreases |s| - i
  {
    if i < |s| && IsSpace(s[i]) then SkipSpaces(s, i + 1) else i
  }

  lemma {:induction false} SkipSpacesMeaning(s: string, i: nat)
    requires i <= |s|
    ensures var j := SkipSpaces(s, i);
      && (forall k :: i <= k < j ==> IsSpace(s[k]))
      && (j == |s| || !IsSpace(s[j]))
    decreases |s| - i
  {
    if i < |s| && IsSpace(s[i]) {
      SkipSpacesMeaning(s, i + 1);
    }
  }

  /** Greedy `.*` from `i`: the first index at or after `i` that holds a line terminator. */
  function LineEnd(s: string, i: nat): (j: nat)
    requires i <= |s|
    ensures i <= j <= |s|
    decreases |s| - i
  {
    if i < |s| && !IsLineTerminator(s[i]) then LineEnd(s, i + 1) else i
  }

  lemma {:induction false} LineEndMeaning(s: string, i: nat)
    requires i <= |s|
    ensures var j := LineEnd(s, i);
      && (forall k :: i <= k < j ==> !IsLineTerminator(s[k]))
      && (j == |s| || IsLineTerminator(s[j]))
    decreases |s| - i
  {
    if i < |s| && !IsLineTerminator(s[i]) {
      LineEndMeaning(s, i + 1);
    }
  }

  /** `\[(\d{2}:\d{2}:\d{2})\]\s` matches at `p`: the part of the pattern that can fail. */
  predicate HeadAt(s: string, p: nat) {
    p + 11 <= |s| && s[p] == '[' && TimestampAt(s, p + 1) && s[p + 9] == ']' && IsSpace(s[p + 10])
  }

  /**
   * The regular expression anchored at `p`. Neither `\s+` nor `.*` ever has to
   * give characters back, because `.*` matches the empty string: the match takes
   * all the white space after `]` (newlines included) and then the rest of that line.
   */
  function MatchAt(s: string, p: nat): (r: Option<Match>)
    ensures r.Some? <==> HeadAt(s, p)
    ensures r.Some? ==> r.value.start == p && p + 11 <= r.value.msgStart <= r.value.end <= |s|
  {
    if HeadAt(s, p) then
      var q := SkipSpaces(s, p + 10);
      Some(Match(p, q, LineEnd(s, q)))
    else
      None
  }

  /** The first capture group of a match. */
  function Timestamp(s: string, m: Match): (ts: string)
    requires m.start + 9 <= |s|
  {
    s[m.start + 1..m.start + 9]
  }

  /** The second capture group of a match. */
  function Message(s: string, m: Match): (msg: string)
    requires m.msgStart <= m.end <= |s|
  {
    s[m.msgStart..m.end]
  }

  /**
   * What a match at `p` consists of: a timestamp, then all the white space after
   * `]`, then a message that runs to (not including) the next line terminator or
   * the end of the text. The message is empty only when the text ends in white space.
   */
  lemma MatchAtMeaning(s: string, p: nat)
    requires MatchAt(s, p).Some?
    ensures var m := MatchAt(s, p).value;
      && IsTimestamp(Timestamp(s, m))
      && (forall k :: p + 10 <= k < m.msgStart ==> IsSpace(s[k]))
      && (m.msgStart == |s| || !IsSpace(s[m.msgStart]))
      && (forall k :: 0 <= k < |Message(s, m)| ==> !IsLineTerminator(Message(s, m)[k]))
      && (m.end == |s| || IsLineTerminator(s[m.end]))
      && (m.msgStart == m.end ==> m.end == |s|)
  {
    var q := SkipSpaces(s, p + 10);
    SkipSpacesMeaning(s, p + 10);
    LineEndMeaning(s, q);
    var m := MatchAt(s, p).value;
    assert Timestamp(s, m) == s[p + 1..p + 9];
    if q < |s| {
      assert !IsLineTerminator(s[q]);
    }
  }

  /** `exec` with the given `lastIndex`: the leftmost match starting at or after `from`. */
  function Exec(s: string, from: nat): (r: Option<Match>)
    ensures r.Some? ==> from <= r.value.start && MatchAt(s, r.value.start) == r
    decreases |s| + 1 - from
  {
    if from > |s| then
      None
    else if MatchAt(s, from).Some? then
      MatchAt(s, from)
    else
      Exec(s, from + 1)
  }

  /** `exec` finds the leftmost match at or after `from`, and returns null only when there is none. */
  lemma {:induction false} ExecMeaning(s: string, from: nat)
    ensures Exec(s, from).Some? ==> forall p :: from <= p < Exec(s, from).value.start ==> MatchAt(s, p).None?
    ensures Exec(s, from).None? ==> forall p :: from <= p ==> MatchAt(s, p).None?
    decreases |s| + 1 - from
  {
    if from <= |s| && MatchAt(s, from).None? {
      ExecMeaning(s, from + 1);
    }
  }

  /** Every match `exec` returns, left to right, from `lastIndex == from` until it returns null. */
  function Matches(s: string, from: nat): (ms: seq<Match>)
    ensures forall i :: 0 <= i < |ms| ==> MatchAt(s, ms[i].start) == Some(ms[i])
    ensures |ms| > 0 ==> from <= ms[0].start
    decreases |s| + 1 - from
  {
    match Exec(s, from)
    case None => []
    case Some(m) => [m] + Matches(s, m.end)
  }

  /** The string `errors.add` receives for a match: `[${timeStamp}] ${message}`. */
  function Entry(s: string, m: Match): (e: string)
    requires m.start + 9 <= m.msgStart <= m.end <= |s|
  {
    "[" + Timestamp(s, m) + "] " + Message(s, m)
  }

  /**
   * The entries of the matches `exec` returns from `lastIndex == from` on, in
   * order. It follows the same recursion over `Exec` as `Matches`, so that
   * lemmas about the scan unfold one entry at a time; `EntriesFromMatches`
   * shows that entry i is the `Entry` of match i.
   */
  function EntriesFrom(s: string, from: nat): (es: seq<string>)
    decreases |s| + 1 - from
  {
    match Exec(s, from)
    case None => []
    case Some(m) => [Entry(s, m)] + EntriesFrom(s, m.end)
  }

  /** Every entry the `exec` loop produces for `stderr`, duplicates included. */
  function RawEntries(stderr: string): (es: seq<string>) {
    EntriesFrom(stderr, 0)
  }

  /** The form of an entry: `[HH:MM:SS] ` followed by a message without a line terminator. */
  ghost predicate WellFormedEntry(e: string) {
    && |e| >= 11
    && e[0] == '[' && IsTimestamp(e[1..9]) && e[9] == ']' && e[10] == ' '
    && forall k :: 11 <= k < |e| ==> !IsLineTerminator(e[k])
  }

  // ---------------------------------------------------------------------
  // The global scan: matches are successive, non-overlapping and complete.
  // ---------------------------------------------------------------------

  /** One `exec` call followed by the rest of the loop. */
  lemma MatchesUnfold(s: string, from: nat, m: Match)
    requires Exec(s, from) == Some(m)
    ensures Matches(s, from) == [m] + Matches(s, m.end)
  {
  }

  /** The matches run left to right and do not overlap. */
  lemma {:induction false} MatchesOrdered(s: string, from: nat)
    ensures var ms := Matches(s, from);
      forall i, j :: 0 <= i < j < |ms| ==> ms[i].end <= ms[j].start
    decreases |s| + 1 - from
  {
    if Exec(s, from).Some? {
      var m := Exec(s, from).value;
      MatchesUnfold(s, from, m);
      MatchesOrdered(s, m.end);
      var ms, rest := Matches(s, from), Matches(s, m.end);
      forall i, j | 0 <= i < j < |ms| ensures ms[i].end <= ms[j].start {
        assert ms[j] == rest[j - 1];
        if i > 0 {
          assert ms[i] == rest[i - 1];
        }
      }
    }
  }

  /**
   * No match is skipped: every position at or after `from` where the pattern
   * matches lies inside one of the reported matches (a reported match can
   * swallow the start of another, since its `\s+` may cross a newline).
   */
  lemma {:induction false} MatchesCover(s: string, from: nat, p: nat)
    requires from <= p && MatchAt(s, p).Some?
    ensures var ms := Matches(s, from);
      exists i :: 0 <= i < |ms| && ms[i].start <= p < ms[i].end
    decreases |s| + 1 - from
  {
    ExecMeaning(s, from);
    var m := Exec(s, from).value;
    MatchesUnfold(s, from, m);
    var ms, rest := Matches(s, from), Matches(s, m.end);
    if p < m.end {
      assert ms[0].start <= p < ms[0].end;
    } else {
      MatchesCover(s, m.end, p);
      var i :| 0 <= i < |rest| && rest[i].start <= p < rest[i].end;
      assert ms[i + 1] == rest[i];
    }
  }

  /** The entry of a match has the form `[HH:MM:SS] message`, the message on one line. */
  lemma EntryWellFormed(s: string, m: Match)
    requires MatchAt(s, m.start) == Some(m)
    ensures WellFormedEntry(Entry(s, m))
  {
    MatchAtMeaning(s, m.start);
    var e, msg := Entry(s, m), Message(s, m);
    assert e[1..9] == Timestamp(s, m);
    forall j | 11 <= j < |e| ensures !IsLineTerminator(e[j]) {
      assert e[j] == msg[j - 11];
    }
  }

  /** The entries are those of the successive matches, one each, in the same order. */
  lemma {:induction false} EntriesFromMatches(s: string, from: nat)
    ensures |EntriesFrom(s, from)| == |Matches(s, from)|
    ensures forall i :: 0 <= i < |Matches(s, from)| ==> EntriesFrom(s, from)[i] == Entry(s, Matches(s, from)[i])
    decreases |s| + 1 - from
  {
    if Exec(s, from).Some? {
      var m := Exec(s, from).value;
      MatchesUnfold(s, from, m);
      EntriesFromMatches(s, m.end);
      var es, ms := EntriesFrom(s, from), Matches(s, from);
      assert es == [Entry(s, m)] + EntriesFrom(s, m.end);
      forall i | 0 < i < |ms| ensures es[i] == Entry(s, ms[i]) {
        assert es[i] == EntriesFrom(s, m.end)[i - 1];
        assert ms[i] == Matches(s, m.end)[i - 1];
      }
    }
  }

  /** Every raw entry has the form `[HH:MM:SS] message`, the message on one line. */
  lemma RawEntriesWellFormed(stderr: string)
    ensures forall k :: 0 <= k < |RawEntries(stderr)| ==> WellFormedEntry(RawEntries(stderr)[k])
  {
    var ms := Matches(stderr, 0);
    EntriesFromMatches(stderr, 0);
    forall k | 0 <= k < |ms| ensures WellFormedEntry(RawEntries(stderr)[k]) {
      EntryWellFormed(stderr, ms[k]);
    }
  }

  /** The loop produces nothing exactly when no position of `stderr` starts `[HH:MM:SS]` and white space. */
  lemma NoEntriesIffNoMatch(stderr: string)
    ensures RawEntries(stderr) == [] <==> forall p :: !HeadAt(stderr, p)
  {
    EntriesFromMatches(stderr, 0);
    if p :| HeadAt(stderr, p) {
      MatchesCover(stderr, 0, p);
    }
  }

  // ---------------------------------------------------------------------
  // Locality: the scan of the text after a point ignores what came before,
  // and one error line gives one entry.
  // ---------------------------------------------------------------------

  /** A match moved `n` places to the right. */
  function ShiftMatch(m: Match, n: nat): (shifted: Match) {
    Match(m.start + n, m.msgStart + n, m.end + n)
  }

  lemma {:induction false} SkipSpacesShift(a: string, b: string, i: nat)
    requires i <= |b|
    ensures SkipSpaces(a + b, |a| + i) == |a| + SkipSpaces(b, i)
    decreases |b| - i
  {
    if i < |b| {
      assert (a + b)[|a| + i] == b[i];
      if IsSpace(b[i]) {
        SkipSpacesShift(a, b, i + 1);
      }
    }
  }

  lemma {:induction false} LineEndShift(a: string, b: string, i: nat)
    requires i <= |b|
    ensures LineEnd(a + b, |a| + i) == |a| + LineEnd(b, i)
    decreases |b| - i
  {
    if i < |b| {
      assert (a + b)[|a| + i] == b[i];
      if !IsLineTerminator(b[i]) {
        LineEndShift(a, b, i + 1);
      }
    }
  }

  lemma MatchAtShift(a: string, b: string, p: nat)
    ensures MatchAt(a + b, |a| + p) == if MatchAt(b, p).Some? then Some(ShiftMatch(MatchAt(b, p).value, |a|)) else None
  {
    var s := a + b;
    assert HeadAt(s, |a| + p) <==> HeadAt(b, p);
    if HeadAt(b, p) {
      SkipSpacesShift(a, b, p + 10);
      LineEndShift(a, b, SkipSpaces(b, p + 10));
    }
  }

  lemma {:induction false} ExecShift(a: string, b: string, i: nat)
    ensures Exec(a + b, |a| + i) == if Exec(b, i).Some? then Some(ShiftMatch(Exec(b, i).value, |a|)) else None
    decreases |b| + 1 - i
  {
    if i <= |b| {
      MatchAtShift(a, b, i);
      if MatchAt(b, i).None? {
        ExecShift(a, b, i + 1);
      }
    }
  }

  lemma EntryShift(a: string, b: string, m: Match)
    requires m.start + 9 <= m.msgStart <= m.end <= |b|
    ensures Entry(a + b, ShiftMatch(m, |a|)) == Entry(b, m)
  {
    var s := a + b;
    assert s[|a| + m.start + 1..|a| + m.start + 9] == b[m.start + 1..m.start + 9];
    assert s[|a| + m.msgStart..|a| + m.end] == b[m.msgStart..m.end];
  }

  /** One call of `exec` and the scan that resumes at the end of its match. */
  lemma EntriesFromUnfold(s: string, from: nat, m: Match)
    requires Exec(s, from) == Some(m)
    ensures EntriesFrom(s, from) == [Entry(s, m)] + EntriesFrom(s, m.end)
  {
  }

  /** The scan from a point inside `b` sees only `b`: what precedes it changes nothing. */
  lemma {:induction false} EntriesFromShift(a: string, b: string, i: nat)
    ensures EntriesFrom(a + b, |a| + i) == EntriesFrom(b, i)
    decreases |b| + 1 - i
  {
    ExecShift(a, b, i);
    if Exec(b, i).Some? {
      var m := Exec(b, i).value;
      var n := ShiftMatch(m, |a|);
      EntriesFromUnfold(b, i, m);
      EntriesFromUnfold(a + b, |a| + i, n);
      EntryShift(a, b, m);
      EntriesFromShift(a, b, m.end);
      assert n.end == |a| + m.end;
    }
  }

  lemma {:induction false} SkipSpacesAt(s: string, i: nat, j: nat)
    requires i <= j <= |s|
    requires forall k :: i <= k < j ==> IsSpace(s[k])
    requires j == |s| || !IsSpace(s[j])
    ensures SkipSpaces(s, i) == j
    decreases j - i
  {
    if i < j {
      SkipSpacesAt(s, i + 1, j);
    }
  }

  lemma {:induction false} LineEndAt(s: string, i: nat, j: nat)
    requires i <= j <= |s|
    requires forall k :: i <= k < j ==> !IsLineTerminator(s[k])
    requires j == |s| || IsLineTerminator(s[j])
    ensures LineEnd(s, i) == j
    decreases j - i
  {
    if i < j {
      LineEndAt(s, i + 1, j);
    }
  }

  /** Where no match starts, `exec` moves on by one position. */
  lemma EntriesFromSkip(s: string, p: nat)
    requires p <= |s| && MatchAt(s, p).None?
    ensures EntriesFrom(s, p) == EntriesFrom(s, p + 1)
  {
  }

  /** A match at the start of `s`, given where its white space and its message end. */
  lemma ExecAtStart(s: string, q: nat, e: nat)
    requires HeadAt(s, 0) && 10 <= q < e <= |s|
    requires forall k :: 10 <= k < q ==> IsSpace(s[k])
    requires !IsSpace(s[q])
    requires forall k :: q <= k < e ==> !IsLineTerminator(s[k])
    requires e == |s| || IsLineTerminator(s[e])
    ensures Exec(s, 0) == Some(Match(0, q, e))
  {
    SkipSpacesAt(s, 10, q);
    LineEndAt(s, q, e);
  }

  /** A line of the form `[ts]<ws>msg`. */
  function ErrorLine(ts: string, ws: string, msg: string): (line: string)
    ensures |line| == 2 + |ts| + |ws| + |msg|
  {
    "[" + ts + "]" + ws + msg
  }

  /** What an error line followed by `tail` holds, position by position. */
  lemma ErrorLineChars(ts: string, ws: string, msg: string, tail: string)
    requires |ts| == 8
    ensures var s, q := ErrorLine(ts, ws, msg) + tail, 10 + |ws|;
      && s[0] == '[' && s[1..9] == ts && s[9] == ']'
      && (forall k :: 10 <= k < q ==> s[k] == ws[k - 10])
      && (forall k :: q <= k < q + |msg| ==> s[k] == msg[k - q])
      && s[q..q + |msg|] == msg
      && s[q + |msg|..] == tail
  {
    var head := "[" + ts + "]";
    var line := ErrorLine(ts, ws, msg);
    assert line == (head + ws) + msg;
    assert line + tail == head + (ws + (msg + tail));
  }

  /** The line `[ts]<ws>msg` followed by `tail`, which is empty or starts a new line: one match. */
  lemma LineMatch(ts: string, ws: string, msg: string, tail: string)
    requires IsTimestamp(ts) && |ws| > 0 && (forall k :: 0 <= k < |ws| ==> IsSpace(ws[k]))
    requires |msg| > 0 && !IsSpace(msg[0]) && (forall k :: 0 <= k < |msg| ==> !IsLineTerminator(msg[k]))
    requires tail == [] || IsLineTerminator(tail[0])
    ensures var line := ErrorLine(ts, ws, msg);
      && Exec(line + tail, 0) == Some(Match(0, 10 + |ws|, |line|))
      && Entry(line + tail, Match(0, 10 + |ws|, |line|)) == "[" + ts + "] " + msg
  {
    var line := ErrorLine(ts, ws, msg);
    var s, q := line + tail, 10 + |ws|;
    ErrorLineChars(ts, ws, msg, tail);
    assert s[q] == msg[0];
    if tail != [] {
      assert s[|line|] == s[|line|..][0] == tail[0];
    }
    ExecAtStart(s, q, |line|);
  }

  /**
   * A text that is one error line: `[ts]`, white space, and a message that
   * starts with a non-space character and has no line terminator, gives the
   * single entry `[ts] msg`.
   */
  lemma LastErrorLineScan(ts: string, ws: string, msg: string)
    requires IsTimestamp(ts) && |ws| > 0 && (forall k :: 0 <= k < |ws| ==> IsSpace(ws[k]))
    requires |msg| > 0 && !IsSpace(msg[0]) && (forall k :: 0 <= k < |msg| ==> !IsLineTerminator(msg[k]))
    ensures RawEntries(ErrorLine(ts, ws, msg)) == ["[" + ts + "] " + msg]
  {
    var line := ErrorLine(ts, ws, msg);
    var m := Match(0, 10 + |ws|, |line|);
    LineMatch(ts, ws, msg, []);
    assert line + [] == line;
    EntriesFromUnfold(line, 0, m);
    assert Exec(line, |line| + 1) == None;
    assert EntriesFrom(line, |line|) == [];
  }

  /** An error line and a newline give one entry, and the scan goes on with the rest of the text alone. */
  lemma ErrorLineScan(ts: string, ws: string, msg: string, rest: string)
    requires IsTimestamp(ts) && |ws| > 0 && (forall k :: 0 <= k < |ws| ==> IsSpace(ws[k]))
    requires |msg| > 0 && !IsSpace(msg[0]) && (forall k :: 0 <= k < |msg| ==> !IsLineTerminator(msg[k]))
    ensures RawEntries(ErrorLine(ts, ws, msg) + "\n" + rest) == ["[" + ts + "] " + msg] + RawEntries(rest)
  {
    var line := ErrorLine(ts, ws, msg);
    var s := line + "\n" + rest;
    ErrorLineFirst(ts, ws, msg, rest);
    assert s[|line|] == '\n';
    EntriesFromSkip(s, |line|);
    EntriesFromAfterNewline(line, rest);
  }

  /** The first `exec` on an error line and a newline returns that line's entry, and resumes at the newline. */
  lemma ErrorLineFirst(ts: string, ws: string, msg: string, rest: string)
    requires IsTimestamp(ts) && |ws| > 0 && (forall k :: 0 <= k < |ws| ==> IsSpace(ws[k]))
    requires |msg| > 0 && !IsSpace(msg[0]) && (forall k :: 0 <= k < |msg| ==> !IsLineTerminator(msg[k]))
    ensures var line := ErrorLine(ts, ws, msg);
      RawEntries(line + "\n" + rest) == ["[" + ts + "] " + msg] + EntriesFrom(line + "\n" + rest, |line|)
  {
    var line := ErrorLine(ts, ws, msg);
    var m := Match(0, 10 + |ws|, |line|);
    var s := line + "\n" + rest;
    LineMatch(ts, ws, msg, "\n" + rest);
    assert line + ("\n" + rest) == s;
    EntriesFromUnfold(s, 0, m);
  }

  /** After a newline the scan sees only the text that follows it. */
  lemma EntriesFromAfterNewline(line: string, rest: string)
    ensures EntriesFrom(line + "\n" + rest, |line| + 1) == RawEntries(rest)
  {
    var nl := line + "\n";
    EntriesFromShift(nl, rest, 0);
    assert |nl| + 0 == |line| + 1;
  }

  // ---------------------------------------------------------------------
  // The `Set`: insertion keeps the first occurrence and the order of first sightings.
  // ---------------------------------------------------------------------

  /** The values of a JavaScript `Set` after adding `xs` one by one, in iteration order. */
  function Dedup<T(==)>(xs: seq<T>): (d: seq<T>) {
    if xs == [] then []
    else
      var d := Dedup(xs[..|xs| - 1]);
      var x := xs[|xs| - 1];
      if x in d then d else d + [x]
  }

  ghost predicate NoDuplicates<T>(xs: seq<T>) {
    forall i, j :: 0 <= i < j < |xs| ==> xs[i] != xs[j]
  }

  /** The index of the first occurrence of `x` in `xs`. */
  function FirstIndex<T(==)>(xs: seq<T>, x: T): (r: nat)
    requires x in xs
    ensures r < |xs| && xs[r] == x
    ensures forall j :: 0 <= j < r ==> xs[j] != x
  {
    if xs[0] == x then 0 else 1 + FirstIndex(xs[1..], x)
  }

  lemma FirstIndexUnique<T>(xs: seq<T>, x: T, k: nat)
    requires k < |xs| && xs[k] == x && forall j :: 0 <= j < k ==> xs[j] != x
    ensures FirstIndex(xs, x) == k
  {
  }

  /** The set holds exactly the values added. */
  lemma {:induction false} DedupSameElements<T>(xs: seq<T>)
    ensures forall x :: x in Dedup(xs) <==> x in xs
  {
    if xs != [] {
      var ys := xs[..|xs| - 1];
      DedupSameElements(ys);
      assert xs == ys + [xs[|xs| - 1]];
    }
  }

  /** No value is kept twice. */
  lemma {:induction false} DedupNoDuplicates<T>(xs: seq<T>)
    ensures NoDuplicates(Dedup(xs))
  {
    if xs != [] {
      DedupNoDuplicates(xs[..|xs| - 1]);
    }
  }

  /** The values form a set of exactly the added values. */
  lemma DedupIsSet<T>(xs: seq<T>)
    ensures NoDuplicates(Dedup(xs))
    ensures forall x :: x in Dedup(xs) <==> x in xs
  {
    DedupNoDuplicates(xs);
    DedupSameElements(xs);
  }

  lemma FirstIndexPrefix<T>(ys: seq<T>, y: T, x: T)
    requires x in ys
    ensures FirstIndex(ys + [y], x) == FirstIndex(ys, x)
  {
    FirstIndexUnique(ys + [y], x, FirstIndex(ys, x));
  }

  /** Values in first-seen order. */
  ghost predicate InFirstSeenOrder<T>(xs: seq<T>, d: seq<T>) {
    && (forall x :: x in d ==> x in xs)
    && (forall i, j :: 0 <= i < j < |d| ==> FirstIndex(xs, d[i]) < FirstIndex(xs, d[j]))
  }

  /** Adding one value keeps the set in first-seen order. */
  lemma DedupOrderStep<T>(ys: seq<T>, y: T)
    requires InFirstSeenOrder(ys, Dedup(ys))
    ensures InFirstSeenOrder(ys + [y], Dedup(ys + [y]))
  {
    var xs, d, dd := ys + [y], Dedup(ys), Dedup(ys + [y]);
    DedupAppend(ys, y);
    DedupSameElements(ys);
    forall i, j | 0 <= i < j < |dd| ensures FirstIndex(xs, dd[i]) < FirstIndex(xs, dd[j]) {
      assert dd[i] == d[i] && d[i] in ys;
      FirstIndexPrefix(ys, y, d[i]);
      if j < |d| {
        assert dd[j] == d[j] && d[j] in ys;
        FirstIndexPrefix(ys, y, d[j]);
      } else {
        assert dd[j] == y && y !in ys;
        FirstIndexUnique(xs, y, |ys|);
      }
    }
  }

  /** The values come in the order of their first occurrence in `xs`. */
  lemma {:induction false} DedupFirstSeenOrder<T>(xs: seq<T>)
    ensures forall x :: x in Dedup(xs) ==> x in xs
    ensures forall i, j :: 0 <= i < j < |Dedup(xs)| ==>
      FirstIndex(xs, Dedup(xs)[i]) < FirstIndex(xs, Dedup(xs)[j])
  {
    if xs != [] {
      var ys := xs[..|xs| - 1];
      assert xs == ys + [xs[|xs| - 1]];
      DedupFirstSeenOrder(ys);
      DedupOrderStep(ys, xs[|xs| - 1]);
    }
  }

  /** A value added twice and then another one: the set keeps two values, in the order first added. */
  lemma DedupRepeatThenOther<T>(a: T, b: T)
    requires a != b
    ensures Dedup([a, a, b]) == [a, b]
  {
    var xs := [a, a, b];
    assert xs[..2] == [a, a] && xs[..2][..1] == [a] && [a][..0] == [];
    assert Dedup([a]) == [a];
    assert Dedup([a, a]) == [a];
  }

  lemma DedupAppend<T>(xs: seq<T>, x: T)
    ensures Dedup(xs + [x]) == if x in Dedup(xs) then Dedup(xs) else Dedup(xs) + [x]
  {
    assert (xs + [x])[..|xs|] == xs;
  }

  /** One turn of the loop: the entry of the match `exec` returns moves to the scanned part. */
  lemma ScanStep(s: string, seen: seq<string>, lastIndex: nat, m: Match)
    requires Exec(s, lastIndex) == Some(m)
    requires RawEntries(s) == seen + EntriesFrom(s, lastIndex)
    ensures m.start + 9 <= m.msgStart <= m.end <= |s|
    ensures RawEntries(s) == (seen + [Entry(s, m)]) + EntriesFrom(s, m.end)
  {
    var rest := EntriesFrom(s, m.end);
    assert EntriesFrom(s, lastIndex) == [Entry(s, m)] + rest;
    assert seen + ([Entry(s, m)] + rest) == (seen + [Entry(s, m)]) + rest;
  }

  // ---------------------------------------------------------------------
  // The `while ((errorMatch = errorRegex.exec(stderr)) !== null)` loop.
  // ---------------------------------------------------------------------

  /**
   * Runs the regular expression over `stderr` and collects the entries as the
   * source's `Set` does: each distinct entry once, in the order first seen.
   */
  method ExtractErrors(stderr: string) returns (errors: seq<string>)
    ensures errors == Dedup(RawEntries(stderr))
    ensures NoDuplicates(errors)
    ensures forall e :: e in errors <==> e in RawEntries(stderr)
  {
    errors := [];
    ghost var seen: seq<string> := [];
    var lastIndex := 0;
    var errorMatch := Exec(stderr, lastIndex);
    while errorMatch.Some?
      invariant errorMatch == Exec(stderr, lastIndex)
      invariant RawEntries(stderr) == seen + EntriesFrom(stderr, lastIndex)
      invariant errors == Dedup(seen)
      decreases |stderr| + 1 - lastIndex
    {
      var m := errorMatch.value;
      ScanStep(stderr, seen, lastIndex, m);
      var entry := Entry(stderr, m);
      DedupAppend(seen, entry);
      if entry !in errors {
        errors := errors + [entry];
      }
      seen := seen + [entry];
      lastIndex := m.end;
      errorMatch := Exec(stderr, lastIndex);
    }
    assert seen == RawEntries(stderr);
    DedupIsSet(RawEntries(stderr));
  }
}
