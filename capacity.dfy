/** get_battery_percent and get_battery_charge_status, on the bytes the
    `capacity` and `status` attribute files hold.

    get_battery_percent reads at most three bytes into a four-byte stack
    buffer whose last byte it sets to NUL. Bytes the read does not reach keep
    whatever the stack held before; the model takes those as a parameter
    `stale`. It then turns the last '\n' of the buffer into a NUL, fails when
    nothing is left, and otherwise converts the text with strtol. */
module Capacity {
  import opened CStrings

  /** The two ways get_battery_percent gives up. */
  datatype PercentError = NoReadableContent | InvalidContent

  /** How many bytes fread stores from a file holding `content`. */
  function Stored(content: seq<char>): (n: nat)
    ensures n <= 3 && n <= |content|
    ensures n == 3 || n == |content|
  {
    if |content| < 3 then |content| else 3
  }

  /** The buffer after `read_battery_capacity[3] = '\0'` and the read of at
      most three bytes: the file's first bytes, then the stale bytes the read
      did not reach, then the NUL. */
  function CapacityBuffer(content: seq<char>, stale: seq<char>): (b: seq<char>)
    requires |stale| == 3
    ensures |b| == 4 && b[3] == '\0'
    ensures forall k :: 0 <= k < Stored(content) ==> b[k] == content[k]
    ensures forall k :: Stored(content) <= k < 3 ==> b[k] == stale[k]
  {
    var n := Stored(content);
    content[..n] + stale[n..] + ['\0']
  }

  /** The buffer with its last '\n' turned into a NUL; unchanged when it
      holds no '\n'. */
  function TrimLastNewline(b: seq<char>): (r: seq<char>)
    ensures |r| == |b|
    ensures forall k :: 0 <= k < |b| && r[k] != b[k] ==>
      b[k] == '\n' && r[k] == '\0' && forall j :: k < j < |b| ==> b[j] != '\n'
    ensures forall k :: 0 <= k < |b| && b[k] == '\n' && r[k] == b[k] ==>
      exists j :: k < j < |b| && b[j] == '\n'
  {
    match LastIndexOf(b, '\n')
    case None => b
    case Some(i) => b[i := '\0']
  }

  /** The trim loop of get_battery_percent, in place: index 3 down to 0,
      stopping at the first '\n' met. */
  method TrimLastNewlineInPlace(a: array<char>)
    requires a.Length == 4
    modifies a
    ensures a[..] == TrimLastNewline(old(a[..]))
  {
    var i := 3;
    while i >= 0
      invariant -1 <= i <= 3
      invariant a[..] == old(a[..])
      invariant forall k :: i < k < 4 ==> a[k] != '\n'
    {
      if a[i] == '\n' {
        assert LastIndexOf(a[..], '\n') == Some(i);
        a[i] := '\0';
        return;
      }
      i := i - 1;
    }
  }

  /** What get_battery_percent returns for the buffer as read: strtol of the
      text left after the trim, or the error it reports. The text is at most
      three characters long, so the strtol saturation that the
      InvalidContent test looks for cannot happen, and the value fits an
      int. */
  function Percent(buf: seq<char>): (r: Result<int, PercentError>)
    requires |buf| == 4 && buf[3] == '\0'
    ensures r.Err? <==> TrimLastNewline(buf)[0] == '\0'
    ensures r.Err? ==> r.error == NoReadableContent
    ensures r.Ok? ==> -1000 < r.value < 1000
  {
    var text := CStringAt(TrimLastNewline(buf), 0);
    LeadingIntegerBound(text);
    PowMonotone(|text|, 3);
    if |text| == 0 then Err(NoReadableContent)
    else
      var capacity := Strtol(text);
      if capacity == LONG_MIN || capacity == LONG_MAX then Err(InvalidContent)
      else Ok(capacity)
  }

  /** fread into the buffer: the first bytes of the file, at most three. */
  method ReadInto(a: array<char>, content: seq<char>)
    requires a.Length == 4
    modifies a
    ensures a[..] == content[..Stored(content)] + old(a[..])[Stored(content)..]
  {
    var n := Stored(content);
    var i := 0;
    while i < n
      invariant 0 <= i <= n
      invariant forall j :: 0 <= j < i ==> a[j] == content[j]
      invariant forall j :: i <= j < a.Length ==> a[j] == old(a[j])
    {
      a[i] := content[i];
      i := i + 1;
    }
    assert a[..] == content[..n] + old(a[..])[n..];
  }

  /** get_battery_percent over a file holding `content`, with `stale` the
      bytes the stack buffer held before the read. */
  method GetBatteryPercent(content: seq<char>, stale: seq<char>) returns (r: Result<int, PercentError>)
    requires |stale| == 3
    ensures r == Percent(CapacityBuffer(content, stale))
  {
    var a := new char[4];
    a[0], a[1], a[2] := stale[0], stale[1], stale[2];
    a[3] := '\0';
    assert a[..] == stale + ['\0'];
    ReadInto(a, content);
    assert a[..] == CapacityBuffer(content, stale);
    TrimLastNewlineInPlace(a);
    if a[0] == '\0' {
      return Err(NoReadableContent);
    }
    var capacity := Strtol(CStringAt(a[..], 0));
    if capacity == LONG_MIN || capacity == LONG_MAX {
      return Err(InvalidContent);
    }
    return Ok(capacity);
  }

  /** The C string in `t` starts with the digits `ds` that open `t`, and
      goes on, if at all, with the character after them. */
  lemma CStringOpensWith(t: seq<char>, ds: seq<char>)
    requires |ds| < |t| && t[..|ds|] == ds && AllDigits(ds)
    ensures |CStringAt(t, 0)| >= |ds|
    ensures CStringAt(t, 0) == ds + CStringAt(t, 0)[|ds|..]
    ensures |CStringAt(t, 0)| == |ds| || CStringAt(t, 0)[|ds|] == t[|ds|]
  {
    var text := CStringAt(t, 0);
    assert forall k :: 0 <= k < |ds| ==> t[k] == ds[k] && t[k] != '\0';
    assert |text| >= |ds|;
  }

  /** One to three digits followed by something that is not a digit are what
      strtol reads from the C string. */
  lemma DigitsThenStop(t: seq<char>, ds: seq<char>, text: seq<char>)
    requires 0 < |ds| <= 3 && |ds| < |t| && t[..|ds|] == ds && AllDigits(ds) && !IsDigit(t[|ds|])
    requires text == CStringAt(t, 0)
    ensures |text| > 0 && Strtol(text) == DigitsValue(ds)
  {
    CStringOpensWith(t, ds);
    LeadingDigits(ds, text[|ds|..]);
    DigitsValueBound(ds);
    PowMonotone(|ds|, 3);
  }

  /** A file holding one to three digits and then a newline (the kernel
      writes "42\n") reads as the value of the digits, whatever the stale
      bytes were. */
  lemma PercentOfDigits(ds: seq<char>, stale: seq<char>)
    requires 1 <= |ds| <= 3 && AllDigits(ds) && |stale| == 3
    ensures Percent(CapacityBuffer(ds + ['\n'], stale)) == Ok(DigitsValue(ds))
  {
    var b := CapacityBuffer(ds + ['\n'], stale);
    var t := TrimLastNewline(b);
    assert forall k :: 0 <= k < |ds| ==> b[k] == ds[k] && t[k] == ds[k];
    assert t[..|ds|] == ds;
    assert t[|ds|] == '\n' || t[|ds|] == '\0';
    DigitsThenStop(t, ds, CStringAt(t, 0));
  }

  /** A file holding only a newline has no readable content, provided the
      stale bytes hold no second newline. */
  lemma PercentOfNewline(stale: seq<char>)
    requires |stale| == 3 && stale[1] != '\n' && stale[2] != '\n'
    ensures Percent(CapacityBuffer(['\n'], stale)) == Err(NoReadableContent)
  {
    var b := CapacityBuffer(['\n'], stale);
    assert b[0] == '\n';
    assert TrimLastNewline(b)[0] == '\0';
  }

  /** Two newlines leave at least one behind, which strtol reads as 0: the
      file is accepted as 0 percent rather than rejected, whatever the stale
      byte after them. */
  lemma PercentOfTwoNewlines(stale: seq<char>)
    requires |stale| == 3
    ensures Percent(CapacityBuffer(['\n', '\n'], stale)) == Ok(0)
  {
    var b := CapacityBuffer(['\n', '\n'], stale);
    var t := TrimLastNewline(b);
    if stale[2] == '\n' {
      assert b == ['\n', '\n', '\n', '\0'];
      assert t == ['\n', '\n', '\0', '\0'];
      assert CStringAt(t, 0) == ['\n', '\n'];
      assert SkipSpace(['\n', '\n']) == [];
    } else {
      assert b == ['\n', '\n', stale[2], '\0'];
      assert LastIndexOf(b, '\n') == Some(1) by {
        var b3 := b[..3];
        var b2 := b3[..2];
        assert b2 == ['\n', '\n'] && b2[1] == '\n';
        assert LastIndexOf(b2, '\n') == Some(1);
        assert b3[2] == stale[2] && b[3] == '\0';
        assert LastIndexOf(b3, '\n') == LastIndexOf(b2, '\n');
        assert LastIndexOf(b, '\n') == LastIndexOf(b3, '\n');
      }
      assert t == ['\n', '\0', stale[2], '\0'];
      assert CStringAt(t, 0) == ['\n'];
      assert SkipSpace(['\n']) == [];
    }
  }

  /** White space before the newline is readable content, which strtol
      reads as 0. */
  lemma PercentOfSpace(stale: seq<char>)
    requires |stale| == 3
    ensures Percent(CapacityBuffer([' ', '\n'], stale)) == Ok(0)
  {
    var b := CapacityBuffer([' ', '\n'], stale);
    var t := TrimLastNewline(b);
    if stale[2] == '\n' {
      assert b == [' ', '\n', '\n', '\0'];
      assert t == [' ', '\n', '\0', '\0'];
      assert CStringAt(t, 0) == [' ', '\n'];
    } else {
      assert b == [' ', '\n', stale[2], '\0'];
      assert t == [' ', '\0', stale[2], '\0'];
      assert CStringAt(t, 0) == [' '];
    }
  }

  /** get_battery_charge_status reads one byte of the `status` file into an
      uninitialised char: the file's first byte, or the stale one when the
      file is empty. */
  function StatusByte(content: seq<char>, stale: char): (c: char)
    ensures |content| > 0 ==> c == content[0]
  {
    if |content| > 0 then content[0] else stale
  }

  /** The battery counts as charging exactly when that byte is 'C'. */
  function IsCharging(content: seq<char>, stale: char): (charging: bool)
    ensures |content| > 0 ==> (charging <==> content[0] == 'C')
  {
    StatusByte(content, stale) == 'C'
  }

  /** Of the words the kernel writes to `status`, only "Charging" counts as
      charging; "Not charging" does not. */
  lemma StatusWords(stale: char)
    ensures IsCharging("Charging\n", stale)
    ensures !IsCharging("Discharging\n", stale)
    ensures !IsCharging("Not charging\n", stale)
    ensures !IsCharging("Full\n", stale)
    ensures !IsCharging("Unknown\n", stale)
  {
  }
}
