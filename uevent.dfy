/** The key-value line scanner that get_battery_discharge_rate and
    get_battery_capacity_now run over the `uevent` attribute file.

    The scanner walks the text one '\n' at a time. After each newline it
    tests the line there against the first key and, if it matched, reads the
    number, which moves the cursor to the start of the next line. Then it
    tests the line under the cursor against the second key. The next
    iteration first moves to the next '\n'. So the first line of the text is
    never tested, and the line after a matched line is tested against the
    second key only (or not at all when the second key matched as well). */
module Uevent {
  import opened CStrings

  const VoltageKey: seq<char> := "POWER_SUPPLY_VOLTAGE_NOW="
  const CurrentKey: seq<char> := "POWER_SUPPLY_CURRENT_NOW="
  const ChargeKey: seq<char> := "POWER_SUPPLY_CHARGE_NOW="

  /** A key is a C string literal that ends in its only '=' and holds no
      newline. */
  predicate IsKey(k: seq<char>) {
    |k| > 0 && k[|k| - 1] == '=' &&
    forall i :: 0 <= i < |k| - 1 ==> k[i] != '=' && k[i] != '\n' && k[i] != '\0'
  }

  /** The two values one scan collects, in micro-units. */
  datatype Reading = Reading(first: int, second: int)

  datatype Field = First | Second

  /** One assignment the scan makes to one of its two accumulators. */
  datatype Write = Write(field: Field, value: int)

  /** read_number at the C string `s` under the cursor: the value between the
      first '=' and the '\n' after it, and how many characters the cursor
      moves (to just past that '\n'). None when there is no such '=' or '\n':
      the C code then dereferences the NULL that strchr returned. */
  function ReadNumber(s: seq<char>): (r: Option<(int, nat)>)
    ensures r.Some? ==> 0 < r.value.1 <= |s| && s[r.value.1 - 1] == '\n'
  {
    match IndexOf(s, '=', 0)
    case None => None
    case Some(eq) =>
      match IndexOf(s, '\n', eq)
      case None => None
      case Some(nl) => Some((LeadingInteger(s[eq + 1..nl]), nl + 1))
  }

  /** read_number is defined exactly when the text has an '=' and a '\n'
      somewhere after the first '='. */
  lemma ReadNumberDefined(s: seq<char>)
    ensures ReadNumber(s).Some? <==>
      exists eq, nl :: 0 <= eq < nl < |s| && s[eq] == '=' && s[nl] == '\n' && '=' !in s[..eq]
  {
    IndexOfFirst(s, '=', 0);
    var found := IndexOf(s, '=', 0);
    if found.Some? {
      var first := found.value;
      IndexOfFirst(s, '\n', first);
      if ReadNumber(s).Some? {
        var nl := IndexOf(s, '\n', first).value;
        assert '=' !in s[..first] by {
          forall k | 0 <= k < first
            ensures s[..first][k] != '='
          {
          }
        }
        assert 0 <= first < nl < |s| && s[first] == '=' && s[nl] == '\n';
      }
      forall eq, nl | 0 <= eq < nl < |s| && s[eq] == '=' && s[nl] == '\n' && '=' !in s[..eq]
        ensures ReadNumber(s).Some?
      {
        assert IndexOf(s, '\n', first).Some?;
      }
    }
  }

  /** read_number reads the number between the first '=' and the first
      '\n' after it, and moves the cursor past that '\n'. */
  lemma ReadNumberBetween(s: seq<char>, eq: nat, nl: nat)
    requires eq < nl < |s| && s[eq] == '=' && s[nl] == '\n'
    requires forall k :: 0 <= k < eq ==> s[k] != '='
    requires forall k :: eq < k < nl ==> s[k] != '\n'
    ensures ReadNumber(s) == Some((LeadingInteger(s[eq + 1..nl]), nl + 1))
  {
    IndexOfIs(s, '=', 0, eq);
    IndexOfIs(s, '\n', eq, nl);
  }

  /** `if (prefix(key, line)) acc = read_number(&line);` on the C string `s`:
      the writes made and how far the cursor moved. */
  function Check(field: Field, key: seq<char>, s: seq<char>): (r: Option<(seq<Write>, nat)>)
    ensures r.Some? ==> r.value.1 <= |s| && |r.value.0| <= 1
  {
    if Prefix(key, s) then
      match ReadNumber(s)
      case None => None
      case Some((v, used)) => Some(([Write(field, v)], used))
    else Some(([], 0))
  }

  /** One loop body, with the cursor just past a '\n': test the first key,
      then the second key at wherever the cursor now stands. */
  function Step(k1: seq<char>, k2: seq<char>, line: seq<char>): (r: Option<(seq<Write>, nat)>)
    ensures r.Some? ==> r.value.1 <= |line|
  {
    match Check(First, k1, line)
    case None => None
    case Some((w1, used1)) =>
      match Check(Second, k2, line[used1..])
      case None => None
      case Some((w2, used2)) => Some((w1 + w2, used1 + used2))
  }

  /** The whole loop from the C string `s` under the cursor: every write it
      makes, in order, or None when a read_number is undefined. Each
      iteration first moves the cursor past the next '\n'. */
  function Writes(k1: seq<char>, k2: seq<char>, s: seq<char>): Option<seq<Write>>
    decreases |s|, 1
  {
    match IndexOf(s, '\n', 0)
    case None => Some([])
    case Some(nl) => Loop(k1, k2, s[nl + 1..])
  }

  /** The loop with the cursor just past a '\n': one step, then the rest. */
  function Loop(k1: seq<char>, k2: seq<char>, line: seq<char>): Option<seq<Write>>
    decreases |line|, 2
  {
    var step := Step(k1, k2, line);
    if step.None? then None
    else Prepend(step.value.0, Writes(k1, k2, line[step.value.1..]))
  }

  /** Writes made before those of a later part of the loop, unless that part
      is undefined. */
  function Prepend(ws: seq<Write>, more: Option<seq<Write>>): Option<seq<Write>> {
    match more
    case None => None
    case Some(m) => Some(ws + m)
  }

  /** The accumulators after the writes, in order: each write overwrites. */
  function Replay(acc: Reading, ws: seq<Write>): Reading
    decreases |ws|
  {
    if ws == [] then acc
    else
      var w := ws[0];
      var acc' := if w.field == First then acc.(first := w.value) else acc.(second := w.value);
      Replay(acc', ws[1..])
  }

  /** The loop from the C string `s` with the accumulators at `acc`. */
  function Resume(k1: seq<char>, k2: seq<char>, s: seq<char>, acc: Reading): Option<Reading> {
    match Writes(k1, k2, s)
    case None => None
    case Some(ws) => Some(Replay(acc, ws))
  }

  /** A scan of the whole text: both accumulators start at 0. */
  function Scan(k1: seq<char>, k2: seq<char>, text: seq<char>): Option<Reading> {
    Resume(k1, k2, text, Reading(0, 0))
  }

  /** The stack buffer of get_battery_discharge_rate and
      get_battery_capacity_now after `uevent[1023] = '\0'` and the read of up
      to 1024 bytes of a file holding `content`: the bytes read, then the
      1023 stale bytes the stack held, as far as the read did not reach
      them, then that NUL. A file of 1024 bytes or more overwrites the NUL. */
  function UeventBuffer(content: seq<char>, stale: seq<char>): (buf: seq<char>)
    requires |stale| == 1023
    ensures |buf| == 1024
    ensures |content| < 1024 ==> buf[..|content|] == content && buf[1023] == '\0'
    ensures |content| < 1024 ==> buf[|content|..1023] == stale[|content|..]
    ensures |content| >= 1024 ==> buf == content[..1024]
  {
    var n := if |content| < 1024 then |content| else 1024;
    var buf := content[..n] + (stale + ['\0'])[n..];
    assert n < 1024 ==> buf[n..1023] == (stale + ['\0'])[n..1023];
    buf
  }

  /** The C string the loop walks: the buffer up to its first NUL. None when
      the buffer holds no NUL, where strchr runs past its end. */
  function UeventText(content: seq<char>, stale: seq<char>): (r: Option<seq<char>>)
    requires |stale| == 1023
    ensures |content| < 1024 ==> r.Some?
    ensures r.Some? ==> r.value == CStringAt(UeventBuffer(content, stale), 0) && |r.value| < 1024
  {
    var buf := UeventBuffer(content, stale);
    if '\0' in buf then
      IndexOfFirst(buf, '\0', 0);
      Some(CStringAt(buf, 0))
    else None
  }

  /** A short file with no NUL is scanned in full, and then on into the stale
      bytes after it up to the first NUL among them. */
  lemma UeventTextOfShortFile(content: seq<char>, stale: seq<char>)
    requires |content| < 1024 && |stale| == 1023 && '\0' !in content
    ensures UeventText(content, stale).Some?
    ensures UeventText(content, stale).value == content + CStringAt(stale + ['\0'], |content|)
  {
    var n := |content|;
    var buf := UeventBuffer(content, stale);
    var tail := CStringAt(stale + ['\0'], n);
    assert buf[n..] == (stale + ['\0'])[n..];
    CStringAtIs(buf, 0, content + tail);
  }

  /** The value of the last write to `f`, or `default` when there is none. */
  function LastWrite(ws: seq<Write>, f: Field, default: int): int
    decreases |ws|
  {
    if ws == [] then default
    else if ws[|ws| - 1].field == f then ws[|ws| - 1].value
    else LastWrite(ws[..|ws| - 1], f, default)
  }

  function Get(r: Reading, f: Field): int {
    if f == First then r.first else r.second
  }

  /** Replaying writes one after another is replaying them all at once. */
  lemma {:induction false} ReplayAppend(acc: Reading, ws: seq<Write>, more: seq<Write>)
    ensures Replay(acc, ws + more) == Replay(Replay(acc, ws), more)
    decreases |ws|
  {
    if ws != [] {
      assert (ws + more)[0] == ws[0];
      assert (ws + more)[1..] == ws[1..] + more;
      var w := ws[0];
      var acc' := if w.field == First then acc.(first := w.value) else acc.(second := w.value);
      ReplayAppend(acc', ws[1..], more);
    } else {
      assert ws + more == more;
    }
  }

  /** Last write wins: each accumulator ends holding the value of the last
      write to it, or its starting value when nothing wrote to it. */
  lemma {:induction false} ReplayLastWins(acc: Reading, ws: seq<Write>, f: Field)
    ensures Get(Replay(acc, ws), f) == LastWrite(ws, f, Get(acc, f))
    decreases |ws|
  {
    if ws != [] {
      var front, last := ws[..|ws| - 1], ws[|ws| - 1];
      assert ws == front + [last];
      ReplayAppend(acc, front, [last]);
      ReplayLastWins(acc, front, f);
    }
  }

  /** A scan ends with each field holding the last value written to it, and
      0 for a field nothing wrote to. */
  lemma ScanLastWins(k1: seq<char>, k2: seq<char>, text: seq<char>)
    requires Writes(k1, k2, text).Some?
    ensures Scan(k1, k2, text) == Some(Reading(
      LastWrite(Writes(k1, k2, text).value, First, 0),
      LastWrite(Writes(k1, k2, text).value, Second, 0)))
  {
    var ws := Writes(k1, k2, text).value;
    ReplayLastWins(Reading(0, 0), ws, First);
    ReplayLastWins(Reading(0, 0), ws, Second);
  }

  /** No line that follows a '\n' in `s` starts with `k`. */
  predicate NoKeyLine(k: seq<char>, s: seq<char>) {
    forall i :: 0 <= i < |s| && s[i] == '\n' ==> !Prefix(k, s[i + 1..])
  }

  function KeyOf(f: Field, k1: seq<char>, k2: seq<char>): seq<char> {
    if f == First then k1 else k2
  }

  predicate NoWriteTo(ws: seq<Write>, f: Field) {
    forall i :: 0 <= i < |ws| ==> ws[i].field != f
  }

  lemma NoKeyLineSuffix(k: seq<char>, s: seq<char>, j: nat)
    requires j <= |s| && NoKeyLine(k, s)
    ensures NoKeyLine(k, s[j..])
  {
    forall i | 0 <= i < |s| - j && s[j..][i] == '\n'
      ensures !Prefix(k, s[j..][i + 1..])
    {
      assert s[j..][i + 1..] == s[j + i + 1..];
    }
  }

  /** One loop body starting after the '\n' at `nl` tests only lines that
      follow a '\n'. */
  lemma StepOnlyFromKeyLines(k1: seq<char>, k2: seq<char>, s: seq<char>, nl: nat, f: Field)
    requires nl < |s| && s[nl] == '\n'
    requires NoKeyLine(KeyOf(f, k1, k2), s)
    requires Step(k1, k2, s[nl + 1..]).Some?
    ensures NoWriteTo(Step(k1, k2, s[nl + 1..]).value.0, f)
  {
    var line := s[nl + 1..];
    var (w1, used1) := Check(First, k1, line).value;
    var (w2, used2) := Check(Second, k2, line[used1..]).value;
    if f == First {
      assert !Prefix(k1, line);
      assert w1 == [];
    } else {
      if used1 == 0 {
        assert line[used1..] == line;
        assert !Prefix(k2, line);
      } else {
        assert line[used1 - 1] == '\n';
        assert line[used1..] == s[nl + 1 + used1..];
        assert !Prefix(k2, line[used1..]);
      }
      assert w2 == [];
    }
  }

  /** Every line the scan tests follows a '\n': when no such line starts
      with a field's key, the scan never writes that field. */
  lemma {:induction false} WritesOnlyFromKeyLines(k1: seq<char>, k2: seq<char>, s: seq<char>, f: Field)
    requires NoKeyLine(KeyOf(f, k1, k2), s)
    requires Writes(k1, k2, s).Some?
    ensures NoWriteTo(Writes(k1, k2, s).value, f)
    decreases |s|, 1
  {
    match IndexOf(s, '\n', 0)
    case None =>
    case Some(nl) =>
      LoopOnlyFromKeyLines(k1, k2, s, nl, f);
  }

  lemma {:induction false} LoopOnlyFromKeyLines(k1: seq<char>, k2: seq<char>, s: seq<char>, nl: nat, f: Field)
    requires nl < |s| && s[nl] == '\n'
    requires NoKeyLine(KeyOf(f, k1, k2), s)
    requires Loop(k1, k2, s[nl + 1..]).Some?
    ensures NoWriteTo(Loop(k1, k2, s[nl + 1..]).value, f)
    decreases |s| - nl - 1, 2
  {
    var line := s[nl + 1..];
    var (ws, used) := Step(k1, k2, line).value;
    assert NoWriteTo(ws, f) by {
      StepOnlyFromKeyLines(k1, k2, s, nl, f);
    }
    var rest := line[used..];
    assert NoKeyLine(KeyOf(f, k1, k2), rest) by {
      assert rest == s[nl + 1 + used..];
      NoKeyLineSuffix(KeyOf(f, k1, k2), s, nl + 1 + used);
    }
    var more := Writes(k1, k2, rest).value;
    assert NoWriteTo(more, f) by {
      WritesOnlyFromKeyLines(k1, k2, rest, f);
    }
    assert Loop(k1, k2, line).value == ws + more;
  }

  lemma {:induction false} LastWriteNone(ws: seq<Write>, f: Field, default: int)
    requires NoWriteTo(ws, f)
    ensures LastWrite(ws, f, default) == default
    decreases |ws|
  {
    if ws != [] {
      LastWriteNone(ws[..|ws| - 1], f, default);
    }
  }

  /** A field whose key starts no tested line stays 0. */
  lemma ScanMissingKeyIsZero(k1: seq<char>, k2: seq<char>, text: seq<char>, f: Field)
    requires NoKeyLine(KeyOf(f, k1, k2), text)
    requires Writes(k1, k2, text).Some?
    ensures Scan(k1, k2, text).Some? && Get(Scan(k1, k2, text).value, f) == 0
  {
    var ws := Writes(k1, k2, text).value;
    WritesOnlyFromKeyLines(k1, k2, text, f);
    ReplayLastWins(Reading(0, 0), ws, f);
    LastWriteNone(ws, f, 0);
  }

  /** Whether a key begins a line does not depend on what follows the line. */
  lemma PrefixOfLine(k: seq<char>, line: seq<char>, tail: seq<char>)
    requires IsKey(k) && '\n' !in line
    ensures Prefix(k, line + ['\n'] + tail) <==> Prefix(k, line)
  {
    var s := line + ['\n'] + tail;
    if |k| <= |line| {
      assert s[..|k|] == line[..|k|];
    } else {
      assert k[|line|] != '\n';
      assert |k| <= |s| ==> s[..|k|][|line|] == '\n';
    }
  }

  /** The line under the cursor starts with key `k`, the key's '=' is the
      first in the line, and `nl` is the first '\n' after it. */
  predicate KeyLine(k: seq<char>, line: seq<char>, nl: nat) {
    0 < |k| <= nl < |line| && line[..|k|] == k &&
    IndexOf(line, '=', 0) == Some(|k| - 1) && IndexOf(line, '\n', |k| - 1) == Some(nl)
  }

  /** A line that starts with a key and has a '\n' after it is a key line. */
  lemma KeyLineOf(k: seq<char>, line: seq<char>, nl: nat)
    requires IsKey(k) && |k| <= nl < |line| && line[..|k|] == k
    requires line[nl] == '\n' && forall j :: |k| <= j < nl ==> line[j] != '\n'
    ensures KeyLine(k, line, nl)
  {
    forall j | 0 <= j < |k| - 1
      ensures line[j] != '='
    {
      assert line[j] == line[..|k|][j];
    }
    IndexOfIs(line, '=', 0, |k| - 1);
    assert line[|k| - 1] == line[..|k|][|k| - 1];
    IndexOfIs(line, '\n', |k| - 1, nl);
  }

  /** The test of a key line against its key: read_number reads the value
      between the key and the end of the line, and the cursor moves past
      the line. */
  lemma CheckOnKeyLine(f: Field, k: seq<char>, line: seq<char>, nl: nat)
    requires KeyLine(k, line, nl)
    ensures Check(f, k, line) == Some(([Write(f, LeadingInteger(line[|k|..nl]))], nl + 1))
  {
  }

  /** A step is the two tests, one after the other. */
  lemma StepOf(k1: seq<char>, k2: seq<char>, line: seq<char>, w1: seq<Write>, u1: nat, w2: seq<Write>, u2: nat)
    requires u1 <= |line| && Check(First, k1, line) == Some((w1, u1))
    requires Check(Second, k2, line[u1..]) == Some((w2, u2))
    ensures Step(k1, k2, line) == Some((w1 + w2, u1 + u2))
  {
  }

  /** The step over a line carrying the first key: its value, then whatever
      the test of the next line against the second key gives. */
  lemma StepOverFirstKey(k1: seq<char>, k2: seq<char>, line: seq<char>, nl: nat, w2: seq<Write>, u2: nat)
    requires KeyLine(k1, line, nl) && Check(Second, k2, line[nl + 1..]) == Some((w2, u2))
    ensures Step(k1, k2, line) == Some(([Write(First, LeadingInteger(line[|k1|..nl]))] + w2, nl + 1 + u2))
  {
    CheckOnKeyLine(First, k1, line, nl);
    StepOfValue(k1, k2, line, nl, LeadingInteger(line[|k1|..nl]), w2, u2);
  }

  lemma StepOfValue(k1: seq<char>, k2: seq<char>, line: seq<char>, nl: nat, v: int, w2: seq<Write>, u2: nat)
    requires nl < |line| && Check(First, k1, line) == Some(([Write(First, v)], nl + 1))
    requires Check(Second, k2, line[nl + 1..]) == Some((w2, u2))
    ensures Step(k1, k2, line) == Some(([Write(First, v)] + w2, nl + 1 + u2))
  {
    StepOf(k1, k2, line, [Write(First, v)], nl + 1, w2, u2);
  }

  /** The step over a line carrying the second key and not the first. */
  lemma StepOverSecondKey(k1: seq<char>, k2: seq<char>, line: seq<char>, nl: nat)
    requires KeyLine(k2, line, nl) && !Prefix(k1, line)
    ensures Step(k1, k2, line) == Some(([Write(Second, LeadingInteger(line[|k2|..nl]))], nl + 1))
  {
    CheckOnKeyLine(Second, k2, line, nl);
    assert line[0..] == line;
    var none: seq<Write> := [];
    StepOf(k1, k2, line, none, 0, [Write(Second, LeadingInteger(line[|k2|..nl]))], nl + 1);
    assert none + [Write(Second, LeadingInteger(line[|k2|..nl]))] == [Write(Second, LeadingInteger(line[|k2|..nl]))];
  }

  /** The step over a line carrying neither key writes nothing and leaves
      the cursor where it was. */
  lemma StepOverOtherLine(k1: seq<char>, k2: seq<char>, line: seq<char>)
    requires !Prefix(k1, line) && !Prefix(k2, line)
    ensures Step(k1, k2, line) == Some(([], 0))
  {
    assert line[0..] == line;
    var none: seq<Write> := [];
    StepOf(k1, k2, line, none, 0, none, 0);
    assert none + none == none;
  }

  /** At a '\n' the loop goes straight to its step. */
  lemma WritesAfterNewline(k1: seq<char>, k2: seq<char>, line: seq<char>)
    ensures Writes(k1, k2, ['\n'] + line) == Loop(k1, k2, line)
  {
    assert (['\n'] + line)[1..] == line;
    assert IndexOf(['\n'] + line, '\n', 0) == Some(0);
  }

  /** The loop resumed at a '\n': the accumulators take the step's writes,
      and the loop goes on from where the step left the cursor. */
  lemma ResumeAfterStep(k1: seq<char>, k2: seq<char>, line: seq<char>, ws: seq<Write>, used: nat, acc: Reading)
    requires Step(k1, k2, line) == Some((ws, used))
    ensures Resume(k1, k2, ['\n'] + line, acc) == Resume(k1, k2, line[used..], Replay(acc, ws))
  {
    WritesAfterNewline(k1, k2, line);
    match Writes(k1, k2, line[used..])
    case None =>
    case Some(more) =>
      ReplayAppend(acc, ws, more);
  }

  /** The loop from the middle of a line first moves to that line's end. */
  lemma WritesSkipToNewline(k1: seq<char>, k2: seq<char>, s: seq<char>, nl: nat)
    requires nl < |s| && s[nl] == '\n' && forall j :: 0 <= j < nl ==> s[j] != '\n'
    ensures Writes(k1, k2, s) == Writes(k1, k2, s[nl..])
  {
    IndexOfIs(s, '\n', 0, nl);
    assert s[nl..] == ['\n'] + s[nl + 1..];
    WritesAfterNewline(k1, k2, s[nl + 1..]);
  }

  /** The loop starts by moving to the first '\n': the first line is never
      tested, whatever it holds. */
  lemma ScanIgnoresFirstLine(k1: seq<char>, k2: seq<char>, first: seq<char>, rest: seq<char>)
    requires '\n' !in first
    ensures Scan(k1, k2, first + ['\n'] + rest) == Scan(k1, k2, ['\n'] + rest)
  {
    var s := first + ['\n'] + rest;
    WritesSkipToNewline(k1, k2, s, |first|);
    assert s[|first|..] == ['\n'] + rest;
  }

  /** A text without a newline is never tested at all: both fields stay 0. */
  lemma ScanSingleLine(k1: seq<char>, k2: seq<char>, text: seq<char>)
    requires '\n' !in text
    ensures Scan(k1, k2, text) == Some(Reading(0, 0))
  {
    IndexOfNone(text, '\n', 0);
  }

  /** A tested line carrying neither key changes nothing. */
  lemma ResumeOverOtherLine(k1: seq<char>, k2: seq<char>, line: seq<char>, nl: nat, acc: Reading)
    requires nl < |line| && line[nl] == '\n' && forall j :: 0 <= j < nl ==> line[j] != '\n'
    requires !Prefix(k1, line) && !Prefix(k2, line)
    ensures Resume(k1, k2, ['\n'] + line, acc) == Resume(k1, k2, line[nl..], acc)
  {
    StepOverOtherLine(k1, k2, line);
    ResumeAfterStep(k1, k2, line, [], 0, acc);
    assert line[0..] == line;
    WritesSkipToNewline(k1, k2, line, nl);
  }

  /** A tested line carrying the first key overwrites the first field,
      whatever an earlier line left there. The cursor then stands on the
      next line, which is tested against the second key only: when it does
      not carry that key, the loop goes on from there. */
  lemma ResumeOverFirstKey(k1: seq<char>, k2: seq<char>, line: seq<char>, nl: nat, acc: Reading)
    requires KeyLine(k1, line, nl) && !Prefix(k2, line[nl + 1..])
    ensures Resume(k1, k2, ['\n'] + line, acc)
         == Resume(k1, k2, line[nl + 1..], acc.(first := LeadingInteger(line[|k1|..nl])))
  {
    var w := Write(First, LeadingInteger(line[|k1|..nl]));
    assert line[nl + 1..][0..] == line[nl + 1..];
    StepOverFirstKey(k1, k2, line, nl, [], 0);
    assert [w] + [] == [w];
    ResumeAfterStep(k1, k2, line, [w], nl + 1, acc);
  }

  /** A tested line carrying the second key (and not the first) overwrites
      the second field; the cursor moves past it. */
  lemma ResumeOverSecondKey(k1: seq<char>, k2: seq<char>, line: seq<char>, nl: nat, acc: Reading)
    requires KeyLine(k2, line, nl) && !Prefix(k1, line)
    ensures Resume(k1, k2, ['\n'] + line, acc)
         == Resume(k1, k2, line[nl + 1..], acc.(second := LeadingInteger(line[|k2|..nl])))
  {
    StepOverSecondKey(k1, k2, line, nl);
    ResumeAfterStep(k1, k2, line, [Write(Second, LeadingInteger(line[|k2|..nl]))], nl + 1, acc);
  }

  /** The step over a line carrying the first key directly followed by a
      line carrying the second: both are read in the same iteration. */
  lemma StepOverBothKeys(k1: seq<char>, k2: seq<char>, line: seq<char>, nl: nat, m: nat, v1: int, v2: int)
    requires KeyLine(k1, line, nl) && v1 == LeadingInteger(line[|k1|..nl])
    requires Check(Second, k2, line[nl + 1..]) == Some(([Write(Second, v2)], m + 1))
    ensures Step(k1, k2, line) == Some(([Write(First, v1), Write(Second, v2)], nl + m + 2))
  {
    CheckOnKeyLine(First, k1, line, nl);
    StepOfValue(k1, k2, line, nl, v1, [Write(Second, v2)], m + 1);
    assert [Write(First, v1)] + [Write(Second, v2)] == [Write(First, v1), Write(Second, v2)];
  }

  lemma ReplayTwo(acc: Reading, v1: int, v2: int)
    ensures Replay(acc, [Write(First, v1), Write(Second, v2)]) == acc.(first := v1, second := v2)
  {
    var ws := [Write(First, v1), Write(Second, v2)];
    assert ws[1..] == [Write(Second, v2)];
    assert Replay(acc, ws) == Replay(acc.(first := v1), [Write(Second, v2)]);
    assert [Write(Second, v2)][1..] == [];
  }

  /** Both fields are overwritten by a first-key line directly followed by a
      second-key line, and the loop goes on after the second of them. */
  lemma ResumeOverBothKeys(k1: seq<char>, k2: seq<char>, line: seq<char>, nl: nat, m: nat, v1: int, v2: int, acc: Reading)
    requires KeyLine(k1, line, nl) && KeyLine(k2, line[nl + 1..], m)
    requires v1 == LeadingInteger(line[|k1|..nl]) && v2 == LeadingInteger(line[nl + 1..][|k2|..m])
    ensures Resume(k1, k2, ['\n'] + line, acc) == Resume(k1, k2, line[nl + m + 2..], acc.(first := v1, second := v2))
  {
    CheckOnKeyLine(Second, k2, line[nl + 1..], m);
    StepOverBothKeys(k1, k2, line, nl, m, v1, v2);
    ResumeOverBothValues(k1, k2, line, nl + m + 2, v1, v2, acc);
  }

  lemma ResumeOverBothValues(k1: seq<char>, k2: seq<char>, line: seq<char>, used: nat, v1: int, v2: int, acc: Reading)
    requires Step(k1, k2, line) == Some(([Write(First, v1), Write(Second, v2)], used))
    ensures Resume(k1, k2, ['\n'] + line, acc) == Resume(k1, k2, line[used..], acc.(first := v1, second := v2))
  {
    ResumeAfterStep(k1, k2, line, [Write(First, v1), Write(Second, v2)], used, acc);
    ReplayTwo(acc, v1, v2);
  }

  /** The loop over nothing left writes nothing. */
  lemma ResumeAtEnd(k1: seq<char>, k2: seq<char>, rest: seq<char>, acc: Reading)
    requires '\n' !in rest
    ensures Resume(k1, k2, rest, acc) == Some(acc)
  {
    IndexOfNone(rest, '\n', 0);
  }

  /** The last line of the text, tested or not, adds nothing. */
  lemma ResumeOverLastLine(k1: seq<char>, k2: seq<char>, s: seq<char>, acc: Reading)
    requires IsKey(k1) && IsKey(k2)
    requires |s| > 0 && s[|s| - 1] == '\n' && forall j :: 0 <= j < |s| - 1 ==> s[j] != '\n'
    ensures Resume(k1, k2, s, acc) == Some(acc)
  {
    var none: seq<char> := [];
    WritesSkipToNewline(k1, k2, s, |s| - 1);
    assert s[|s| - 1..] == ['\n'] + none;
    StepOverOtherLine(k1, k2, none);
    ResumeAfterStep(k1, k2, none, [], 0, acc);
    ResumeAtEnd(k1, k2, none, acc);
  }

  lemma KeysAreKeys()
    ensures IsKey(VoltageKey) && IsKey(CurrentKey) && IsKey(ChargeKey)
  {
  }

  /** A tested line that carries either key but no '\n' after it: the C
      code dereferences the NULL strchr returned, modelled as no result. */
  lemma ResumeOverUnterminatedKey(k1: seq<char>, k2: seq<char>, line: seq<char>, acc: Reading)
    requires (Prefix(k1, line) || Prefix(k2, line)) && '\n' !in line
    ensures Resume(k1, k2, ['\n'] + line, acc) == None
  {
    WritesAfterNewline(k1, k2, line);
    if IndexOf(line, '=', 0).Some? {
      IndexOfNone(line, '\n', IndexOf(line, '=', 0).value);
    }
    assert ReadNumber(line) == None;
    assert line[0..] == line;
  }

  /** One turn of the loop with the cursor at `line0` of the whole text:
      strchr finds the '\n' at `nl`, and the step runs on the line after it. */
  lemma ResumeStepAt(k1: seq<char>, k2: seq<char>, text: seq<char>, line0: nat, nl: nat,
                     ws: seq<Write>, used: nat, acc: Reading)
    requires line0 <= |text| && IndexOf(text, '\n', line0) == Some(nl)
    requires Step(k1, k2, text[nl + 1..]) == Some((ws, used))
    ensures Resume(k1, k2, text[line0..], acc) == Resume(k1, k2, text[nl + 1 + used..], Replay(acc, ws))
  {
    var line := text[nl + 1..];
    WritesAtNewline(k1, k2, text, line0, nl);
    assert line[used..] == text[nl + 1 + used..];
    ResumeAfterStep(k1, k2, line, ws, used, acc);
  }

  /** The same turn, with the cursor after it named `end`. */
  lemma ResumeTurn(k1: seq<char>, k2: seq<char>, text: seq<char>, line0: nat, nl: nat, end: nat,
                   ws: seq<Write>, acc: Reading, after: Reading)
    requires line0 <= |text| && IndexOf(text, '\n', line0) == Some(nl)
    requires nl + 1 <= end <= |text|
    requires Step(k1, k2, text[nl + 1..]) == Some((ws, end - (nl + 1)))
    requires Replay(acc, ws) == after
    ensures Resume(k1, k2, text[line0..], acc) == Resume(k1, k2, text[end..], after)
  {
    var used := end - (nl + 1);
    assert text[nl + 1 + used..] == text[end..] by {
      assert nl + 1 + used == end;
    }
    assert Resume(k1, k2, text[line0..], acc) == Resume(k1, k2, text[nl + 1 + used..], after) by {
      ResumeStepAt(k1, k2, text, line0, nl, ws, used, acc);
    }
  }

  /** A turn whose step is undefined makes the rest of the loop undefined. */
  lemma ResumeStepUndefined(k1: seq<char>, k2: seq<char>, text: seq<char>, line0: nat, nl: nat, acc: Reading)
    requires line0 <= |text| && IndexOf(text, '\n', line0) == Some(nl)
    requires Step(k1, k2, text[nl + 1..]).None?
    ensures Resume(k1, k2, text[line0..], acc).None?
  {
    WritesAtNewline(k1, k2, text, line0, nl);
  }

  lemma WritesAtNewline(k1: seq<char>, k2: seq<char>, text: seq<char>, line0: nat, nl: nat)
    requires line0 <= |text| && IndexOf(text, '\n', line0) == Some(nl)
    ensures Writes(k1, k2, text[line0..]) == Writes(k1, k2, ['\n'] + text[nl + 1..])
  {
    var line := text[nl + 1..];
    assert Writes(k1, k2, text[line0..]) == Loop(k1, k2, line) by {
      var rest := text[line0..];
      assert IndexOf(rest, '\n', 0) == Some(nl - line0) by {
        IndexOfShift(text, '\n', line0, 0);
      }
      assert rest[nl - line0 + 1..] == line;
    }
    assert Writes(k1, k2, ['\n'] + line) == Loop(k1, k2, line) by {
      WritesAfterNewline(k1, k2, line);
    }
  }
}
