/** The uevent scanner as the C code runs it: a cursor walking a
    NUL-terminated `char` buffer, with read_number writing a NUL over the
    line's '\n' for atof and putting the '\n' back. Each method is proved
    to compute what the functions of module Uevent say, and to leave the
    buffer as it found it. */
module UeventScan {
  import opened CStrings
  import opened Uevent

  /** The C string a buffer holds: its characters before the first NUL. */
  ghost function Text(buf: array<char>): seq<char>
    reads buf
  {
    CStringAt(buf[..], 0)
  }

  /** The buffer holds a NUL, so every strchr over it stops inside it. */
  predicate Terminated(buf: array<char>)
    reads buf
  {
    '\0' in buf[..]
  }

  lemma TextEnds(buf: array<char>)
    requires Terminated(buf)
    ensures |Text(buf)| < buf.Length && buf[|Text(buf)|] == '\0'
    ensures Text(buf) == buf[..|Text(buf)|]
  {
    var text := Text(buf);
    var i :| 0 <= i < buf.Length && buf[i] == '\0';
    forall j | 0 <= j < |text|
      ensures buf[j] != '\0'
    {
      assert text[j] == buf[j];
    }
  }

  /** strchr(buf + from, c) for a character other than NUL: the index of the
      first `c` at or after `from` in the C string, if there is one. */
  method Strchr(buf: array<char>, from: nat, c: char) returns (r: Option<nat>)
    requires Terminated(buf) && c != '\0' && from <= |Text(buf)|
    ensures r == IndexOf(Text(buf), c, from)
  {
    ghost var text := Text(buf);
    TextEnds(buf);
    var i := from;
    while buf[i] != '\0' && buf[i] != c
      invariant from <= i <= |text|
      invariant forall j :: from <= j < i ==> text[j] != c
      decreases |text| - i
    {
      i := i + 1;
    }
    if buf[i] == c {
      IndexOfIs(text, c, from, i);
      r := Some(i);
    } else {
      IndexOfNone(text, c, from);
      r := None;
    }
  }

  /** prefix(k, buf + p): strncmp over the key's length, which stops at the
      first difference; the buffer's NUL differs from every key character. */
  method PrefixAt(k: seq<char>, buf: array<char>, p: nat) returns (r: bool)
    requires Terminated(buf) && p <= |Text(buf)|
    requires forall j :: 0 <= j < |k| ==> k[j] != '\0'
    ensures r == Prefix(k, Text(buf)[p..])
  {
    ghost var text := Text(buf);
    TextEnds(buf);
    var i := 0;
    while i < |k| && buf[p + i] == k[i]
      invariant 0 <= i <= |k| && p + i <= |text|
      invariant forall j :: 0 <= j < i ==> text[p + j] == k[j]
    {
      i := i + 1;
    }
    r := i == |k|;
    if r {
      assert text[p..][..|k|] == k;
    } else if p + |k| <= |text| {
      assert text[p..][..|k|][i] != k[i];
    }
  }

  /** The cursor a read_number result leaves, counted from the buffer's
      start rather than from the line's. */
  function Advance(r: Option<(int, nat)>, p: nat): Option<(int, nat)> {
    if r.None? then None else Some((r.value.0, p + r.value.1))
  }

  /** read_number's strchr calls from the cursor `p` find nothing where
      the same searches over the whole text find nothing. */
  lemma NoEqualsFrom(text: seq<char>, p: nat)
    requires p <= |text| && IndexOf(text, '=', p).None?
    ensures ReadNumber(text[p..]) == None
  {
    IndexOfShift(text, '=', p, 0);
  }

  lemma NoNewlineFrom(text: seq<char>, p: nat, eq: nat)
    requires p <= |text| && IndexOf(text, '=', p) == Some(eq) && IndexOf(text, '\n', eq).None?
    ensures ReadNumber(text[p..]) == None
  {
    IndexOfShift(text, '=', p, 0);
    IndexOfShift(text, '\n', p, eq - p);
  }

  /** Where they find the '=' at `eq` and then the '\n' at `nl`, the
      searches from the cursor find them at the same places. */
  lemma SearchesFrom(text: seq<char>, p: nat, eq: nat, nl: nat)
    requires p <= |text| && IndexOf(text, '=', p) == Some(eq) && IndexOf(text, '\n', eq) == Some(nl)
    ensures IndexOf(text[p..], '=', 0) == Some(eq - p) && IndexOf(text[p..], '\n', eq - p) == Some(nl - p)
  {
    IndexOfShift(text, '=', p, 0);
    IndexOfShift(text, '\n', p, eq - p);
  }

  /** read_number from the cursor `p`, where its searches find the '=' at
      `eq` and the '\n' at `nl` of the line `s` under the cursor. */
  lemma FoundAdvance(s: seq<char>, p: nat, eq: nat, nl: nat, v: int)
    requires IndexOf(s, '=', 0) == Some(eq) && IndexOf(s, '\n', eq) == Some(nl)
    requires v == LeadingInteger(s[eq + 1..nl])
    ensures Advance(ReadNumber(s), p) == Some((v, p + nl + 1))
  {
  }

  /** A slice of the text from the cursor is the same slice of the whole
      text, shifted by the cursor. */
  lemma SliceFrom(text: seq<char>, p: nat, i: nat, j: nat)
    requires p <= i <= j <= |text|
    ensures text[p..][i - p..j - p] == text[i..j]
  {
  }

  /** With a NUL written over the '\n' at `nl`, the C string from just past
      the '=' at `eq` is the text between the two. */
  lemma CutAtNewline(buf: seq<char>, text: seq<char>, p: nat, eq: nat, nl: nat)
    requires p <= eq < nl < |text| < |buf| && text == buf[..|text|]
    requires forall j :: 0 <= j < |text| ==> text[j] != '\0'
    ensures CStringAt(buf[nl := '\0'], eq + 1) == text[eq + 1..nl]
  {
    var cut := buf[nl := '\0'];
    forall j | eq + 1 <= j < nl
      ensures cut[j] != '\0'
    {
      assert cut[j] == text[j];
    }
    IndexOfIs(cut, '\0', eq + 1, nl);
    assert cut[eq + 1..nl] == text[eq + 1..nl];
  }

  /** `*end = '\0'; atof(start + 1); *end = '\n';`: the number between the
      '=' at `eq` and the '\n' at `nl`, read with the '\n' briefly cut to a
      NUL, and the buffer as it was. */
  method ReadBetween(buf: array<char>, p: nat, eq: nat, nl: nat) returns (number: int)
    requires Terminated(buf) && p <= eq < nl < |Text(buf)| && Text(buf)[nl] == '\n'
    modifies buf
    ensures buf[..] == old(buf[..])
    ensures number == LeadingInteger(old(Text(buf))[eq + 1..nl])
  {
    ghost var text := Text(buf);
    TextEnds(buf);
    CutAtNewline(buf[..], text, p, eq, nl);
    buf[nl] := '\0';
    number := LeadingInteger(CStringAt(buf[..], eq + 1));
    buf[nl] := '\n';
    assert buf[..] == old(buf[..]);
  }

  /** read_number(&line) with the cursor at `p`: the number atof reads
      between the '=' and the '\n', and the cursor just past the '\n'. None
      where the C code dereferences a NULL from strchr. */
  method ReadNumberAt(buf: array<char>, p: nat) returns (r: Option<(int, nat)>)
    requires Terminated(buf) && p <= |Text(buf)|
    modifies buf
    ensures buf[..] == old(buf[..])
    ensures r == Advance(ReadNumber(old(Text(buf))[p..]), p)
  {
    ghost var text := Text(buf);
    var eq := Strchr(buf, p, '=');
    if eq.None? {
      NoEqualsFrom(text, p);
      return None;
    }
    var start := eq.value;
    var end := Strchr(buf, start, '\n');
    if end.None? {
      NoNewlineFrom(text, p, start);
      return None;
    }
    var nl := end.value;
    var number := ReadBetween(buf, p, start, nl);
    SearchesFrom(text, p, start, nl);
    SliceFrom(text, p, start + 1, nl);
    FoundAdvance(text[p..], p, start - p, nl - p, number);
    r := Some((number, nl + 1));
  }

  /** `if (prefix(k, line)) acc = read_number(&line);` with the cursor at
      `p` and the accumulator at `acc`: the accumulator and cursor after
      it, and the write it made, as Check says. None where read_number is
      undefined. */
  method TestKey(buf: array<char>, ghost text: seq<char>, f: Field, k: seq<char>, p: nat, acc: int)
    returns (r: Option<(int, nat)>, ghost ws: seq<Write>)
    requires Terminated(buf) && IsKey(k) && text == Text(buf) && p <= |text|
    modifies buf
    ensures buf[..] == old(buf[..]) && Terminated(buf) && Text(buf) == text
    ensures r.None? <==> Check(f, k, text[p..]).None?
    ensures r.Some? ==> p <= r.value.1 <= |text|
    ensures r.Some? ==> Check(f, k, text[p..]) == Some((ws, r.value.1 - p))
    ensures r.Some? ==> (ws == [] && r.value == (acc, p)) || ws == [Write(f, r.value.0)]
  {
    var found := PrefixAt(k, buf, p);
    if !found {
      return Some((acc, p)), [];
    }
    var rn := ReadNumberAt(buf, p);
    if rn.None? {
      return None, [];
    }
    r, ws := rn, [Write(f, rn.value.0)];
  }

  /** The two tests of one loop turn make one step, and leave each field as
      the write to it says, or as it was. */
  lemma StepFromTests(k1: seq<char>, k2: seq<char>, text: seq<char>, start: nat, mid: nat, end: nat,
                      ws1: seq<Write>, ws2: seq<Write>, acc: Reading, first: int, second: int)
    requires start <= mid <= end <= |text|
    requires Check(First, k1, text[start..]) == Some((ws1, mid - start))
    requires Check(Second, k2, text[mid..]) == Some((ws2, end - mid))
    requires (ws1 == [] && first == acc.first) || ws1 == [Write(First, first)]
    requires (ws2 == [] && second == acc.second) || ws2 == [Write(Second, second)]
    ensures Step(k1, k2, text[start..]) == Some((ws1 + ws2, end - start))
    ensures Replay(acc, ws1 + ws2) == Reading(first, second)
  {
    assert text[start..][mid - start..] == text[mid..];
    StepOf(k1, k2, text[start..], ws1, mid - start, ws2, end - mid);
    ReplayAppend(acc, ws1, ws2);
    if ws1 != [] {
      assert ws1[1..] == [];
    }
    if ws2 != [] {
      assert ws2[1..] == [];
    }
  }

  /** A test that is undefined makes its whole step undefined. */
  lemma StepUndefined(k1: seq<char>, k2: seq<char>, text: seq<char>, start: nat, mid: nat, ws1: seq<Write>)
    requires start <= mid <= |text|
    requires Check(First, k1, text[start..]).None? ||
             (Check(First, k1, text[start..]) == Some((ws1, mid - start)) && Check(Second, k2, text[mid..]).None?)
    ensures Step(k1, k2, text[start..]).None?
  {
    assert text[start..][mid - start..] == text[mid..];
  }

  /** With no '\n' left after the cursor the loop ends. */
  lemma ResumeAtEndFrom(k1: seq<char>, k2: seq<char>, text: seq<char>, line: nat, acc: Reading)
    requires line <= |text| && IndexOf(text, '\n', line).None?
    ensures Resume(k1, k2, text[line..], acc) == Some(acc)
  {
    IndexOfShift(text, '\n', line, 0);
  }

  /** The two tests of one loop turn, with the cursor at `start` just past
      a '\n' and the accumulators at `acc`: the accumulators and the cursor
      after them, as Step says. None where Step is undefined. */
  method TestBoth(buf: array<char>, ghost text: seq<char>, k1: seq<char>, k2: seq<char>, start: nat, acc: Reading)
    returns (r: Option<(Reading, nat)>, ghost ws: seq<Write>)
    requires Terminated(buf) && IsKey(k1) && IsKey(k2) && text == Text(buf) && start <= |text|
    modifies buf
    ensures buf[..] == old(buf[..]) && Terminated(buf) && Text(buf) == text
    ensures r.None? <==> Step(k1, k2, text[start..]).None?
    ensures r.Some? ==> start <= r.value.1 <= |text|
    ensures r.Some? ==> Step(k1, k2, text[start..]) == Some((ws, r.value.1 - start))
    ensures r.Some? ==> Replay(acc, ws) == r.value.0
  {
    var r1, ws1 := TestKey(buf, text, First, k1, start, acc.first);
    if r1.None? {
      assert Step(k1, k2, text[start..]).None? by {
        StepUndefined(k1, k2, text, start, start, []);
      }
      return None, [];
    }
    r, ws := TestSecond(buf, text, k1, k2, start, r1.value.1, ws1, r1.value.0, acc);
  }

  /** The second test of a loop turn, once the first has left the cursor
      at `mid` and the first field at `first`: together the two make the
      step from `start`. */
  method TestSecond(buf: array<char>, ghost text: seq<char>, k1: seq<char>, k2: seq<char>,
                    start: nat, mid: nat, ghost ws1: seq<Write>, first: int, acc: Reading)
    returns (r: Option<(Reading, nat)>, ghost ws: seq<Write>)
    requires Terminated(buf) && IsKey(k2) && text == Text(buf) && start <= mid <= |text|
    requires Check(First, k1, text[start..]) == Some((ws1, mid - start))
    requires (ws1 == [] && first == acc.first) || ws1 == [Write(First, first)]
    modifies buf
    ensures buf[..] == old(buf[..]) && Terminated(buf) && Text(buf) == text
    ensures r.None? <==> Step(k1, k2, text[start..]).None?
    ensures r.Some? ==> start <= r.value.1 <= |text|
    ensures r.Some? ==> Step(k1, k2, text[start..]) == Some((ws, r.value.1 - start))
    ensures r.Some? ==> Replay(acc, ws) == r.value.0
  {
    var r2, ws2 := TestKey(buf, text, Second, k2, mid, acc.second);
    if r2.None? {
      assert Step(k1, k2, text[start..]).None? by {
        StepUndefined(k1, k2, text, start, mid, ws1);
      }
      return None, [];
    }
    var second, end := r2.value.0, r2.value.1;
    ws := ws1 + ws2;
    assert Step(k1, k2, text[start..]) == Some((ws, end - start)) && Replay(acc, ws) == Reading(first, second) by {
      StepFromTests(k1, k2, text, start, mid, end, ws1, ws2, acc, first, second);
    }
    r := Some((Reading(first, second), end));
  }

  /** The rest of a loop turn once strchr has found the '\n' at `nl`: the
      two tests on the line after it. Either the scan is undefined there,
      or the accumulators and the cursor move on to where the rest of the
      scan resumes. */
  method TurnFrom(buf: array<char>, ghost text: seq<char>, k1: seq<char>, k2: seq<char>, line: nat, nl: nat, acc: Reading)
    returns (r: Option<(Reading, nat)>)
    requires Terminated(buf) && IsKey(k1) && IsKey(k2) && text == Text(buf)
    requires line <= |text| && IndexOf(text, '\n', line) == Some(nl)
    modifies buf
    ensures buf[..] == old(buf[..]) && Terminated(buf) && Text(buf) == text
    ensures r.None? ==> Resume(k1, k2, text[line..], acc).None?
    ensures r.Some? ==> line < r.value.1 <= |text|
    ensures r.Some? ==> Resume(k1, k2, text[line..], acc) == Resume(k1, k2, text[r.value.1..], r.value.0)
  {
    var turn, ws := TestBoth(buf, text, k1, k2, nl + 1, acc);
    if turn.None? {
      assert Resume(k1, k2, text[line..], acc).None? by {
        ResumeStepUndefined(k1, k2, text, line, nl, acc);
      }
      return None;
    }
    var next, end := turn.value.0, turn.value.1;
    assert Resume(k1, k2, text[line..], acc) == Resume(k1, k2, text[end..], next) by {
      ResumeTurn(k1, k2, text, line, nl, end, ws, acc, next);
    }
    r := Some((next, end));
  }

  /** One turn of the scan loop from the cursor `line`: either the loop
      ends there, with the scan's result, or the accumulators and the
      cursor move on to where the rest of the scan resumes. */
  method Turn(buf: array<char>, ghost text: seq<char>, k1: seq<char>, k2: seq<char>, line: nat, acc: Reading)
    returns (stop: bool, r: Option<Reading>, next: Reading, end: nat)
    requires Terminated(buf) && IsKey(k1) && IsKey(k2) && text == Text(buf) && line <= |text|
    modifies buf
    ensures buf[..] == old(buf[..]) && Terminated(buf) && Text(buf) == text
    ensures stop ==> r == Resume(k1, k2, text[line..], acc)
    ensures !stop ==> line < end <= |text|
    ensures !stop ==> Resume(k1, k2, text[line..], acc) == Resume(k1, k2, text[end..], next)
  {
    var nl := Strchr(buf, line, '\n');
    if nl.None? {
      assert Resume(k1, k2, text[line..], acc) == Some(acc) by {
        ResumeAtEndFrom(k1, k2, text, line, acc);
      }
      return true, Some(acc), acc, line;
    }
    var moved := TurnFrom(buf, text, k1, k2, line, nl.value, acc);
    if moved.None? {
      return true, None, acc, line;
    }
    stop, r, next, end := false, None, moved.value.0, moved.value.1;
  }

  /** The scan loop of get_battery_discharge_rate and
      get_battery_capacity_now over the C string in `buf`: it computes what
      Scan specifies and leaves the buffer as it was. */
  method ScanUevent(buf: array<char>, k1: seq<char>, k2: seq<char>) returns (r: Option<Reading>)
    requires Terminated(buf) && IsKey(k1) && IsKey(k2)
    modifies buf
    ensures buf[..] == old(buf[..])
    ensures r == Scan(k1, k2, old(Text(buf)))
  {
    ghost var text := Text(buf);
    var line := 0;
    var acc := Reading(0, 0);
    while true
      invariant buf[..] == old(buf[..]) && Terminated(buf) && Text(buf) == text
      invariant line <= |text|
      invariant Scan(k1, k2, text) == Resume(k1, k2, text[line..], acc)
      decreases |text| - line
    {
      var stop, result, next, end := Turn(buf, text, k1, k2, line, acc);
      if stop {
        return result;
      }
      acc, line := next, end;
    }
  }

  /** The read of get_battery_discharge_rate and get_battery_capacity_now
      into their 1024-byte stack buffer, then the scan: the two values as
      Scan specifies them on the text the buffer holds. The C code needs the
      buffer to hold a NUL, which a file shorter than 1024 bytes ensures. */
  method ReadUevent(content: seq<char>, stale: seq<char>, k1: seq<char>, k2: seq<char>)
    returns (r: Option<Reading>)
    requires |stale| == 1023 && IsKey(k1) && IsKey(k2)
    requires UeventText(content, stale).Some?
    ensures r == Scan(k1, k2, UeventText(content, stale).value)
  {
    var buf := new char[1024](i => if 0 <= i < 1023 then stale[i] else '\0');
    ghost var before := stale + ['\0'];
    var n := if |content| < 1024 then |content| else 1024;
    var i := 0;
    while i < n
      invariant 0 <= i <= n
      invariant forall k :: 0 <= k < i ==> buf[k] == content[k]
      invariant forall k :: i <= k < 1024 ==> buf[k] == before[k]
    {
      buf[i] := content[i];
      i := i + 1;
    }
    assert buf[..] == UeventBuffer(content, stale);
    assert Terminated(buf) by {
      var b := UeventBuffer(content, stale);
      assert '\0' in b;
      var j :| 0 <= j < |b| && b[j] == '\0';
      assert buf[j] == '\0';
    }
    r := ScanUevent(buf, k1, k2);
  }
}
