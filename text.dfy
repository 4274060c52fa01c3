/**
 The two pieces of Python 2 string handling the contact import relies on:
 `str.strip()` (applied field by field by `striplist`) and the builtin
 `int()` applied to a byte string in base 10.
 */
module Text {
  import opened Optional

  /** The characters Python 2's `str.strip()` and `int()` treat as whitespace:
      space, tab, line feed, vertical tab, form feed and carriage return. */
  predicate IsSpace(c: char) {
    c == ' ' || ('\t' <= c <= '\r')
  }

  predicate AllSpace(s: string) {
    forall i :: 0 <= i < |s| ==> IsSpace(s[i])
  }

  /** A string with no whitespace at either end. */
  predicate Tight(s: string) {
    s == [] || (!IsSpace(s[0]) && !IsSpace(s[|s| - 1]))
  }

  /** Drops leading whitespace (TrimLeftSpec says what is left). */
  function TrimLeft(s: string): (r: string)
    ensures |r| <= |s|
    decreases |s|
  {
    if |s| > 0 && IsSpace(s[0]) then TrimLeft(s[1..]) else s
  }

  /** Drops trailing whitespace (TrimRightSpec says what is left). */
  function TrimRight(s: string): (r: string)
    ensures |r| <= |s|
    decreases |s|
  {
    if |s| > 0 && IsSpace(s[|s| - 1]) then TrimRight(s[..|s| - 1]) else s
  }

  /** What TrimLeft leaves is a suffix of `s` that does not start with
      whitespace, and everything it dropped is whitespace. */
  lemma {:induction false} TrimLeftSpec(s: string)
    ensures var r := TrimLeft(s);
      && |r| <= |s| && r == s[|s| - |r|..]
      && AllSpace(s[..|s| - |r|])
      && (r == [] || !IsSpace(r[0]))
    decreases |s|
  {
    if |s| > 0 && IsSpace(s[0]) {
      TrimLeftSpec(s[1..]);
      var r := TrimLeft(s);
      assert s[..|s| - |r|] == [s[0]] + s[1..][..|s| - 1 - |r|];
    }
  }

  /** What TrimRight leaves is a prefix of `s` that does not end with
      whitespace, and everything it dropped is whitespace. */
  lemma {:induction false} TrimRightSpec(s: string)
    ensures var r := TrimRight(s);
      && |r| <= |s| && r == s[..|r|]
      && AllSpace(s[|r|..])
      && (r == [] || !IsSpace(r[|r| - 1]))
    decreases |s|
  {
    if |s| > 0 && IsSpace(s[|s| - 1]) {
      TrimRightSpec(s[..|s| - 1]);
      var r := TrimRight(s);
      assert s[|r|..] == s[..|s| - 1][|r|..] + [s[|s| - 1]];
    }
  }

  /** Python's `s.strip()`: `s` with the whitespace at both ends removed
      (StripSplits says where the result sits in `s`). */
  function Strip(s: string): string {
    TrimRight(TrimLeft(s))
  }

  /** The number of whitespace characters Strip removes at the front. */
  function LeadingSpace(s: string): nat {
    |s| - |TrimLeft(s)|
  }

  /** `s` is whitespace, then Strip(s), then whitespace, and Strip(s)
      neither starts nor ends with whitespace: Strip removes the whitespace
      at the ends and nothing else. */
  lemma StripSplits(s: string)
    ensures Tight(Strip(s))
    ensures LeadingSpace(s) + |Strip(s)| <= |s|
    ensures AllSpace(s[..LeadingSpace(s)])
    ensures s[LeadingSpace(s)..LeadingSpace(s) + |Strip(s)|] == Strip(s)
    ensures AllSpace(s[LeadingSpace(s) + |Strip(s)|..])
  {
    var left := TrimLeft(s);
    var r := Strip(s);
    TrimLeftSpec(s);
    TrimRightSpec(left);
    var i := LeadingSpace(s);
    assert s[i..] == left;
    assert s[i..i + |r|] == left[..|r|];
    assert s[i + |r|..] == left[|r|..];
    assert r == [] || !IsSpace(r[0]) by {
      if r != [] { assert r[0] == left[0]; }
    }
  }

  /** Stripping a string that is already tight changes nothing. */
  lemma StripTight(s: string)
    requires Tight(s)
    ensures Strip(s) == s
  {
    StripPadded([], s, []);
    assert [] + s + [] == s;
  }

  /** Whitespace in front of a tight string is exactly what TrimLeft removes. */
  lemma {:induction false} TrimLeftPadded(pad: string, s: string)
    requires AllSpace(pad)
    requires s == [] || !IsSpace(s[0])
    ensures TrimLeft(pad + s) == s
    decreases |pad|
  {
    if pad == [] {
      assert pad + s == s;
    } else {
      assert (pad + s)[1..] == pad[1..] + s;
      TrimLeftPadded(pad[1..], s);
    }
  }

  /** Whitespace after a tight string is exactly what TrimRight removes. */
  lemma {:induction false} TrimRightPadded(s: string, pad: string)
    requires AllSpace(pad)
    requires s == [] || !IsSpace(s[|s| - 1])
    ensures TrimRight(s + pad) == s
    decreases |pad|
  {
    if pad == [] {
      assert s + pad == s;
    } else {
      var n := |s + pad|;
      assert (s + pad)[n - 1] == pad[|pad| - 1];
      assert (s + pad)[..n - 1] == s + pad[..|pad| - 1];
      TrimRightPadded(s, pad[..|pad| - 1]);
    }
  }

  /** Strip recovers a tight string from any whitespace padding around it. */
  lemma StripPadded(front: string, s: string, back: string)
    requires AllSpace(front) && AllSpace(back) && Tight(s)
    ensures Strip(front + s + back) == s
  {
    if s == [] {
      assert front + s + back == front + back;
      assert AllSpace(back);
      assert (back == [] || !IsSpace(back[0])) ==> back == [];
      TrimLeftPadded(front + back, []);
      assert front + back + [] == front + back;
    } else {
      assert front + s + back == front + (s + back);
      TrimLeftPadded(front, s + back);
      TrimRightPadded(s, back);
    }
  }

  /** Stripping twice is stripping once. */
  lemma StripIdempotent(s: string)
    ensures Strip(Strip(s)) == Strip(s)
  {
    StripSplits(s);
    StripTight(Strip(s));
  }

  predicate IsDigit(c: char) {
    '0' <= c <= '9'
  }

  /** One or more ASCII decimal digits. */
  predicate IsDigits(s: string) {
    |s| > 0 && forall i :: 0 <= i < |s| ==> IsDigit(s[i])
  }

  /** The value of a string of decimal digits, most significant first. */
  function DigitsValue(s: string): nat
    requires forall i :: 0 <= i < |s| ==> IsDigit(s[i])
    decreases |s|
  {
    if s == [] then 0
    else
      assert IsDigit(s[|s| - 1]);
      DigitsValue(s[..|s| - 1]) * 10 + (s[|s| - 1] as int - '0' as int)
  }

  /** Python 2's `int(s)` in base 10: surrounding whitespace is ignored,
      then an optional `+` or `-` and one or more decimal digits; anything
      else raises `ValueError`, modelled as `None`. */
  function ParseInt(s: string): Option<int>
  {
    var t := Strip(s);
    if |t| > 0 && (t[0] == '+' || t[0] == '-') then
      if IsDigits(t[1..]) then
        var magnitude: int := DigitsValue(t[1..]);
        Some(if t[0] == '-' then -magnitude else magnitude)
      else None
    else if IsDigits(t) then Some(DigitsValue(t))
    else None
  }

  function DigitChar(d: nat): (c: char)
    requires d < 10
    ensures IsDigit(c) && c as int - '0' as int == d
  {
    ('0' as int + d) as char
  }

  /** The decimal rendering of a natural number, without leading zeros. */
  function ShowNat(n: nat): (s: string)
    ensures IsDigits(s)
    decreases n
  {
    if n < 10 then [DigitChar(n)] else ShowNat(n / 10) + [DigitChar(n % 10)]
  }

  /** The decimal rendering of an integer, as Python's `str()` gives it. */
  function ShowInt(n: int): string {
    if n < 0 then "-" + ShowNat(-n) else ShowNat(n)
  }

  lemma {:induction false} ShowNatValue(n: nat)
    ensures DigitsValue(ShowNat(n)) == n
    decreases n
  {
    var s := ShowNat(n);
    if n >= 10 {
      ShowNatValue(n / 10);
      assert s[..|s| - 1] == ShowNat(n / 10);
    }
  }

  /** `int(str(n)) == n`: ParseInt reads back every integer it could be given. */
  lemma ParseShowRoundTrip(n: int)
    ensures ParseInt(ShowInt(n)) == Some(n)
  {
    var s := ShowInt(n);
    if n < 0 {
      var m := ShowNat(-n);
      assert Tight(s) by { assert s[|s| - 1] == m[|m| - 1]; }
      StripTight(s);
      assert s[1..] == m;
      ShowNatValue(-n);
    } else {
      StripTight(s);
      ShowNatValue(n);
    }
  }

  /** `int()` ignores surrounding whitespace, so parsing a stripped field gives
      what parsing the raw field would have given. */
  lemma ParseIntOfStripped(s: string)
    ensures ParseInt(Strip(s)) == ParseInt(s)
  {
    StripIdempotent(s);
  }
}
