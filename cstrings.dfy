/** What the C library calls batquery relies on mean, stated on text.

    A C string is modelled by the characters before its terminating NUL:
    a pointer into a buffer is the suffix of that text starting there. */
module CStrings {

  datatype Option<+T> = None | Some(value: T) {
    predicate IsFailure() { None? }
    function PropagateFailure<U>(): Option<U> requires None? { None }
    function Extract(): T requires Some? { value }
  }

  datatype Result<+T, +E> = Ok(value: T) | Err(error: E) {
    predicate IsFailure() { Err? }
    function PropagateFailure<U>(): Result<U, E> requires Err? { Err(error) }
    function Extract(): T requires Ok? { value }
  }

  /** The range of a 64-bit C `long`, where strtol saturates. */
  const LONG_MAX: int := 0x7FFF_FFFF_FFFF_FFFF
  const LONG_MIN: int := -0x8000_0000_0000_0000

  /** strchr: the first index at or after `from` holding `c`. */
  function IndexOf(text: seq<char>, c: char, from: nat): (r: Option<nat>)
    requires from <= |text|
    ensures r.Some? ==> from <= r.value < |text| && text[r.value] == c
    decreases |text| - from
  {
    if from == |text| then None
    else if text[from] == c then Some(from)
    else IndexOf(text, c, from + 1)
  }

  /** IndexOf finds the first occurrence, and None means there is none. */
  lemma {:induction false} IndexOfFirst(text: seq<char>, c: char, from: nat)
    requires from <= |text|
    ensures IndexOf(text, c, from).Some? ==>
      forall k :: from <= k < IndexOf(text, c, from).value ==> text[k] != c
    ensures IndexOf(text, c, from).None? <==> forall k :: from <= k < |text| ==> text[k] != c
    decreases |text| - from
  {
    if from < |text| && text[from] != c {
      IndexOfFirst(text, c, from + 1);
    }
  }

  /** A first occurrence found by other means is the one IndexOf names. */
  lemma IndexOfIs(text: seq<char>, c: char, from: nat, k: nat)
    requires from <= k < |text| && text[k] == c
    requires forall j :: from <= j < k ==> text[j] != c
    ensures IndexOf(text, c, from) == Some(k)
  {
    IndexOfFirst(text, c, from);
  }

  /** Having no occurrence found by other means is what IndexOf reports. */
  lemma IndexOfNone(text: seq<char>, c: char, from: nat)
    requires from <= |text|
    requires forall j :: from <= j < |text| ==> text[j] != c
    ensures IndexOf(text, c, from) == None
  {
    IndexOfFirst(text, c, from);
  }

  /** Searching a suffix is searching the whole text from the suffix's start. */
  lemma {:induction false} IndexOfShift(text: seq<char>, c: char, p: nat, i: nat)
    requires p + i <= |text|
    ensures IndexOf(text[p..], c, i).None? <==> IndexOf(text, c, p + i).None?
    ensures IndexOf(text, c, p + i).Some? ==>
      IndexOf(text[p..], c, i) == Some(IndexOf(text, c, p + i).value - p)
    decreases |text| - p - i
  {
    if p + i < |text| && text[p + i] != c {
      IndexOfShift(text, c, p, i + 1);
    }
  }

  /** The last index holding `c`, found scanning backwards from the end. */
  function LastIndexOf(text: seq<char>, c: char): (r: Option<nat>)
    ensures r.Some? ==> r.value < |text| && text[r.value] == c
    ensures r.Some? ==> forall k :: r.value < k < |text| ==> text[k] != c
    ensures r.None? <==> forall k :: 0 <= k < |text| ==> text[k] != c
  {
    if |text| == 0 then None
    else if text[|text| - 1] == c then Some(|text| - 1)
    else LastIndexOf(text[..|text| - 1], c)
  }

  /** The C string stored at `from` in a buffer: everything up to the first NUL. */
  function CStringAt(buf: seq<char>, from: nat): (r: seq<char>)
    requires from <= |buf|
    ensures from + |r| <= |buf| && r == buf[from..from + |r|]
    ensures forall k :: 0 <= k < |r| ==> r[k] != '\0'
    ensures from + |r| == |buf| || buf[from + |r|] == '\0'
  {
    IndexOfFirst(buf, '\0', from);
    match IndexOf(buf, '\0', from)
    case None => buf[from..]
    case Some(end) => buf[from..end]
  }

  /** Any NUL-free run of the buffer at `from` that ends at a NUL or at the
      buffer's end is the C string there. */
  lemma CStringAtIs(buf: seq<char>, from: nat, r: seq<char>)
    requires from + |r| <= |buf| && buf[from..from + |r|] == r
    requires forall k :: 0 <= k < |r| ==> r[k] != '\0'
    requires from + |r| == |buf| || buf[from + |r|] == '\0'
    ensures CStringAt(buf, from) == r
  {
    var c := CStringAt(buf, from);
    assert |c| == |r|;
  }

  /** prefix(p, s), that is strncmp(p, s, strlen(p)) == 0: the first |p|
      characters of `s` are those of `p`. A shorter `s` fails, since its NUL
      differs from the NUL-free `p`. */
  predicate Prefix(p: seq<char>, s: seq<char>) {
    |p| <= |s| && s[..|p|] == p
  }

  /** The character at index `i` of a C string, its NUL at and past the end. */
  function CharAt(s: seq<char>, i: nat): char {
    if i < |s| then s[i] else '\0'
  }

  /** strncmp(a, b, n) == 0, comparing from index `i`: the strings agree
      character by character until index `n` or until a NUL both hold. */
  predicate SameUpTo(a: seq<char>, b: seq<char>, i: nat, n: nat)
    requires i <= n
    decreases n - i
  {
    i == n || (CharAt(a, i) == CharAt(b, i) && (CharAt(a, i) == '\0' || SameUpTo(a, b, i + 1, n)))
  }

  /** From index `i` on, strncmp over the length of a NUL-free `p` agrees
      exactly when `s` holds the rest of `p` there. */
  lemma {:induction false} SameUpToRest(p: seq<char>, s: seq<char>, i: nat)
    requires i <= |p| && i <= |s|
    requires forall k :: 0 <= k < |p| ==> p[k] != '\0'
    requires forall k :: 0 <= k < |s| ==> s[k] != '\0'
    ensures SameUpTo(p, s, i, |p|) <==> |p| <= |s| && s[i..|p|] == p[i..]
    decreases |p| - i
  {
    if i < |p| && i < |s| {
      SameUpToRest(p, s, i + 1);
      if |p| <= |s| {
        assert s[i..|p|] == [s[i]] + s[i + 1..|p|];
        assert p[i..] == [p[i]] + p[i + 1..];
      }
    }
  }

  /** prefix(p, s), that is strncmp(p, s, strlen(p)) == 0, holds exactly when
      `s` begins with all of `p`. */
  lemma PrefixIsStrncmp(p: seq<char>, s: seq<char>)
    requires forall k :: 0 <= k < |p| ==> p[k] != '\0'
    requires forall k :: 0 <= k < |s| ==> s[k] != '\0'
    ensures Prefix(p, s) <==> SameUpTo(p, s, 0, |p|)
  {
    SameUpToRest(p, s, 0);
    assert p[0..] == p;
  }

  /** isspace in the C locale. */
  predicate IsSpace(c: char) {
    c == ' ' || c == '\t' || c == '\n' || c == '\r' || c == '\U{000B}' || c == '\U{000C}'
  }

  predicate IsDigit(c: char) { '0' <= c <= '9' }

  /** The value of a digit character (the code distance from '0'). */
  function DigitValue(c: char): int { c as int - '0' as int }

  function DigitChar(d: nat): (c: char)
    requires d < 10
    ensures IsDigit(c) && DigitValue(c) == d
  {
    (d + '0' as int) as char
  }

  predicate AllDigits(s: seq<char>) { forall k :: 0 <= k < |s| ==> IsDigit(s[k]) }

  /** The leading white space strtol and atof skip. */
  function SkipSpace(s: seq<char>): (r: seq<char>)
    ensures |r| <= |s|
  {
    if |s| > 0 && IsSpace(s[0]) then SkipSpace(s[1..]) else s
  }

  /** The longest run of decimal digits at the start of `s`. */
  function DigitRun(s: seq<char>): (r: seq<char>)
    ensures |r| <= |s|
  {
    if |s| > 0 && IsDigit(s[0]) then [s[0]] + DigitRun(s[1..]) else []
  }

  /** DigitRun takes digits, from the start, and stops only at a non-digit. */
  lemma {:induction false} DigitRunIs(s: seq<char>)
    ensures DigitRun(s) == s[..|DigitRun(s)|] && AllDigits(DigitRun(s))
    ensures |DigitRun(s)| == |s| || !IsDigit(s[|DigitRun(s)|])
  {
    if |s| > 0 && IsDigit(s[0]) {
      DigitRunIs(s[1..]);
    }
  }

  /** The value of a run of decimal digits, most significant first. */
  function DigitsValue(ds: seq<char>): int
  {
    if |ds| == 0 then 0 else DigitsValue(ds[..|ds| - 1]) * 10 + DigitValue(ds[|ds| - 1])
  }

  /** What strtol(s, NULL, 10) and atof(s) both read from integer text:
      optional white space, an optional sign, then as many digits as follow;
      no digits at all reads as 0. */
  function LeadingInteger(s: seq<char>): int {
    var t := SkipSpace(s);
    if |t| > 0 && t[0] == '-' then -DigitsValue(DigitRun(t[1..]))
    else if |t| > 0 && t[0] == '+' then DigitsValue(DigitRun(t[1..]))
    else DigitsValue(DigitRun(t))
  }

  /** strtol(s, NULL, 10): the leading integer, saturated to the range of long. */
  function Strtol(s: seq<char>): (r: int)
    ensures LONG_MIN <= r <= LONG_MAX
    ensures LONG_MIN <= LeadingInteger(s) <= LONG_MAX ==> r == LeadingInteger(s)
    ensures LeadingInteger(s) > LONG_MAX ==> r == LONG_MAX
    ensures LeadingInteger(s) < LONG_MIN ==> r == LONG_MIN
  {
    var v := LeadingInteger(s);
    if v > LONG_MAX then LONG_MAX else if v < LONG_MIN then LONG_MIN else v
  }

  function Pow10(k: nat): (r: nat)
    ensures r >= 1
  {
    if k == 0 then 1 else 10 * Pow10(k - 1)
  }

  /** A run of k digits is worth less than 10^k. */
  lemma {:induction false} DigitsValueBound(ds: seq<char>)
    requires AllDigits(ds)
    ensures 0 <= DigitsValue(ds) < Pow10(|ds|)
  {
    if |ds| > 0 {
      DigitsValueBound(ds[..|ds| - 1]);
    }
  }

  /** The leading integer of k characters is less than 10^k in magnitude. */
  lemma LeadingIntegerBound(s: seq<char>)
    ensures -(Pow10(|s|) as int) < LeadingInteger(s) < Pow10(|s|)
  {
    var t := SkipSpace(s);
    if |t| > 0 && (t[0] == '-' || t[0] == '+') {
      DigitRunIs(t[1..]);
      DigitsValueBound(DigitRun(t[1..]));
      PowMonotone(|DigitRun(t[1..])|, |s|);
    } else {
      DigitRunIs(t);
      DigitsValueBound(DigitRun(t));
      PowMonotone(|DigitRun(t)|, |s|);
    }
  }

  lemma {:induction false} PowMonotone(i: nat, j: nat)
    requires i <= j
    ensures Pow10(i) <= Pow10(j)
  {
    if i < j {
      PowMonotone(i, j - 1);
    }
  }

  /** printf("%d") of a non-negative number: no leading zeros, and reading
      the digits back gives the number. */
  function NatDigits(n: nat): (r: seq<char>)
    ensures |r| > 0 && AllDigits(r)
    ensures |r| > 1 ==> r[0] != '0'
    ensures DigitsValue(r) == n
  {
    if n < 10 then [DigitChar(n)]
    else
      var r := NatDigits(n / 10) + [DigitChar(n % 10)];
      assert r[..|r| - 1] == NatDigits(n / 10);
      r
  }

  /** printf("%d") of any integer. */
  function IntDigits(n: int): (r: seq<char>)
    ensures |r| > 0
  {
    if n < 0 then ['-'] + NatDigits(-n) else NatDigits(n)
  }

  /** A digit run followed by a non-digit is read exactly. */
  lemma {:induction false} DigitRunOf(ds: seq<char>, rest: seq<char>)
    requires AllDigits(ds)
    requires rest == [] || !IsDigit(rest[0])
    ensures DigitRun(ds + rest) == ds
  {
    if |ds| > 0 {
      assert (ds + rest)[1..] == ds[1..] + rest;
      DigitRunOf(ds[1..], rest);
    } else {
      assert ds + rest == rest;
    }
  }

  /** Digits at the very start of a text are read as their value. */
  lemma LeadingDigits(ds: seq<char>, rest: seq<char>)
    requires |ds| > 0 && AllDigits(ds)
    requires rest == [] || !IsDigit(rest[0])
    ensures LeadingInteger(ds + rest) == DigitsValue(ds)
  {
    var s := ds + rest;
    assert IsDigit(s[0]);
    assert SkipSpace(s) == s;
    DigitRunOf(ds, rest);
  }

  /** Printing an integer with %d and reading it back with strtol or atof
      gives the integer, whatever non-digit text follows it. */
  lemma IntDigitsRoundTrip(n: int, rest: seq<char>)
    requires rest == [] || !IsDigit(rest[0])
    ensures LeadingInteger(IntDigits(n) + rest) == n
  {
    if n < 0 {
      var ds := NatDigits(-n);
      var s := IntDigits(n) + rest;
      assert s == ['-'] + (ds + rest);
      assert SkipSpace(s) == s;
      assert s[1..] == ds + rest;
      DigitRunOf(ds, rest);
    } else {
      LeadingDigits(NatDigits(n), rest);
    }
  }
}
