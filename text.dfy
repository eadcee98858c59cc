/** Text helpers shared by the agenda engine: the parts of Python's string and
    integer built-ins that the services rely on, restricted to ASCII. */
module Text {

  datatype Option<T> = None | Some(value: T)

  /** Whitespace as `str.strip()` removes it (the ASCII members). */
  predicate IsSpace(c: char) {
    c == ' ' || c == '\t' || c == '\n' || c == '\r' || c == '\U{B}' || c == '\U{C}'
    || c == '\U{1C}' || c == '\U{1D}' || c == '\U{1E}' || c == '\U{1F}'
  }

  predicate AllSpace(s: string) {
    forall i :: 0 <= i < |s| ==> IsSpace(s[i])
  }

  /** The ASCII information separators U+001C..U+001F: `str.strip()` removes
      them, but `int()` does not skip them. */
  predicate IsSeparator(c: char) {
    '\U{1C}' <= c <= '\U{1F}'
  }

  predicate HasSeparator(s: string) {
    exists i :: 0 <= i < |s| && IsSeparator(s[i])
  }

  /** Whitespace as `int()` skips it: space, tab, line feed, vertical tab,
      form feed and carriage return. */
  predicate IsIntSpace(c: char) {
    IsSpace(c) && !IsSeparator(c)
  }

  predicate AllIntSpace(s: string) {
    forall i :: 0 <= i < |s| ==> IsIntSpace(s[i])
  }

  /** Drops leading whitespace; what is dropped is all whitespace. */
  function StripLeft(s: string): (r: string)
    ensures |r| <= |s|
    ensures r == [] || !IsSpace(r[0])
  {
    if s != [] && IsSpace(s[0]) then StripLeft(s[1..]) else s
  }

  /** Drops trailing whitespace; what is dropped is all whitespace. */
  function StripRight(s: string): (r: string)
    ensures |r| <= |s|
    ensures r == [] || !IsSpace(r[|r| - 1])
  {
    if s != [] && IsSpace(s[|s| - 1]) then StripRight(s[..|s| - 1]) else s
  }

  /** Python's `str.strip()` with no argument. */
  function Strip(s: string): string {
    StripRight(StripLeft(s))
  }

  function LowerChar(c: char): char {
    if 'A' <= c <= 'Z' then (c as int - 'A' as int + 'a' as int) as char else c
  }

  /** Python's `str.lower()` on ASCII letters. */
  function Lower(s: string): (r: string)
    ensures |r| == |s|
    ensures forall i :: 0 <= i < |s| ==> r[i] == LowerChar(s[i])
  {
    seq(|s|, i requires 0 <= i < |s| => LowerChar(s[i]))
  }

  predicate IsDigit(c: char) {
    '0' <= c <= '9'
  }

  predicate AllDigits(s: string) {
    forall i :: 0 <= i < |s| ==> IsDigit(s[i])
  }

  function DigitValue(c: char): nat
    requires IsDigit(c)
  {
    c as int - '0' as int
  }

  function DigitChar(d: nat): (c: char)
    requires d < 10
    ensures IsDigit(c) && DigitValue(c) == d
  {
    ('0' as int + d) as char
  }

  /** The number a string of decimal digits denotes (leading zeros allowed). */
  function DigitsValue(s: string): (v: nat)
    requires AllDigits(s)
    ensures |s| <= 1 ==> v <= 9
    ensures |s| <= 2 ==> v <= 99
  {
    if s == [] then 0 else DigitsValue(s[..|s| - 1]) * 10 + DigitValue(s[|s| - 1])
  }

  /** The value of one or two digits. */
  lemma DigitsValueShort(s: string)
    requires AllDigits(s) && 1 <= |s| <= 2
    ensures |s| == 1 ==> DigitsValue(s) == DigitValue(s[0])
    ensures |s| == 2 ==> DigitsValue(s) == DigitValue(s[0]) * 10 + DigitValue(s[1])
  {
    assert s[..|s| - 1][..0] == [];
    if |s| == 2 {
      assert s[..1][..0] == [];
    }
  }

  /** Decimal text of a natural number, without leading zeros. */
  function NatToString(n: nat): (s: string)
    ensures |s| >= 1 && AllDigits(s) && DigitsValue(s) == n
    ensures (|s| == 1) == (n < 10)
    ensures (|s| == 2) == (10 <= n < 100)
  {
    if n < 10 then [DigitChar(n)]
    else
      var s := NatToString(n / 10) + [DigitChar(n % 10)];
      assert s[..|s| - 1] == NatToString(n / 10);
      s
  }

  /** Python's `str(n)` for an integer. */
  function IntToString(n: int): string {
    if n < 0 then "-" + NatToString(-n) else NatToString(n)
  }

  /** Python's `int(s)` on a string: surrounding whitespace, an optional sign,
      then one or more ASCII digits; anything else is a failure (None). An
      information separator anywhere is a failure, since it is neither
      skipped nor a digit. */
  function ParseInt(s: string): Option<int> {
    var t := Strip(s);
    if HasSeparator(s) || t == [] then None
    else if t[0] == '+' || t[0] == '-' then
      var d := t[1..];
      if d != [] && AllDigits(d) then
        var n: int := DigitsValue(d);
        Some(if t[0] == '-' then -n else n)
      else None
    else if AllDigits(t) then Some(DigitsValue(t))
    else None
  }

  lemma StripNoSpaceEnds(s: string)
    requires s != [] && !IsSpace(s[0]) && !IsSpace(s[|s| - 1])
    ensures Strip(s) == s
  {
  }

  /** `int(str(n)) == n` for every integer. */
  lemma ParseIntToString(n: int)
    ensures ParseInt(IntToString(n)) == Some(n)
  {
    var s := IntToString(n);
    if n < 0 {
      var d := NatToString(-n);
      assert s[1..] == d;
      forall i | 0 <= i < |s| ensures !IsSeparator(s[i]) {
        if i > 0 {
          assert s[i] == d[i - 1];
        }
      }
      assert !IsSpace(s[|s| - 1]) by { assert s[|s| - 1] == d[|d| - 1]; }
    } else {
      assert !IsSpace(s[0]) by { assert IsDigit(s[0]); }
      assert !IsSpace(s[|s| - 1]) by { assert IsDigit(s[|s| - 1]); }
    }
    StripNoSpaceEnds(s);
  }

  lemma StripLeftParts(s: string)
    ensures exists a :: s == a + StripLeft(s) && AllSpace(a)
  {
    if s != [] && IsSpace(s[0]) {
      StripLeftParts(s[1..]);
      var a :| s[1..] == a + StripLeft(s[1..]) && AllSpace(a);
      assert s == [s[0]] + a + StripLeft(s);
    } else {
      var a: string := [];
      assert s == a + StripLeft(s) && AllSpace(a);
    }
  }

  lemma StripRightParts(s: string)
    ensures exists b :: s == StripRight(s) + b && AllSpace(b)
  {
    if s != [] && IsSpace(s[|s| - 1]) {
      StripRightParts(s[..|s| - 1]);
      var b :| s[..|s| - 1] == StripRight(s[..|s| - 1]) + b && AllSpace(b);
      assert s == StripRight(s) + (b + [s[|s| - 1]]);
    } else {
      var b: string := [];
      assert s == StripRight(s) + b && AllSpace(b);
    }
  }

  /** Every character of a string is either whitespace around its stripped
      form or a character of that stripped form. */
  lemma StripSplit(s: string)
    ensures exists a, b :: s == a + Strip(s) + b && AllSpace(a) && AllSpace(b)
  {
    StripLeftParts(s);
    var a :| s == a + StripLeft(s) && AllSpace(a);
    StripRightParts(StripLeft(s));
    var b :| StripLeft(s) == Strip(s) + b && AllSpace(b);
    assert s == a + Strip(s) + b;
  }

  /** What `int()` accepts consists of whitespace, signs and digits only. */
  lemma ParseIntAlphabet(s: string)
    requires ParseInt(s).Some?
    ensures forall i :: 0 <= i < |s| ==> IsIntSpace(s[i]) || IsDigit(s[i]) || s[i] == '+' || s[i] == '-'
  {
    StripSplit(s);
    var a, b :| s == a + Strip(s) + b && AllSpace(a) && AllSpace(b);
    var t := Strip(s);
    forall i | 0 <= i < |s|
      ensures IsIntSpace(s[i]) || IsDigit(s[i]) || s[i] == '+' || s[i] == '-'
    {
      assert !IsSeparator(s[i]);
      if i < |a| {
        assert s[i] == a[i];
      } else if i < |a| + |t| {
        assert s[i] == t[i - |a|];
        if i - |a| > 0 {
          assert t[i - |a|] == t[1..][i - |a| - 1];
        }
      } else {
        assert s[i] == b[i - |a| - |t|];
      }
    }
  }

  lemma StripLeftLower(s: string)
    ensures StripLeft(Lower(s)) == Lower(StripLeft(s))
  {
    if s != [] {
      assert Lower(s)[1..] == Lower(s[1..]);
      if IsSpace(s[0]) {
        StripLeftLower(s[1..]);
      }
    }
  }

  lemma StripRightLower(s: string)
    ensures StripRight(Lower(s)) == Lower(StripRight(s))
  {
    if s != [] {
      assert Lower(s)[..|s| - 1] == Lower(s[..|s| - 1]);
      if IsSpace(s[|s| - 1]) {
        StripRightLower(s[..|s| - 1]);
      }
    }
  }

  /** Lower-casing does not move the whitespace boundaries. */
  lemma StripLower(s: string)
    ensures Strip(Lower(s)) == Lower(Strip(s))
  {
    StripLeftLower(s);
    StripRightLower(StripLeft(s));
  }

  lemma StripLeftPrefix(w: string, v: string)
    requires AllSpace(w)
    ensures StripLeft(w + v) == StripLeft(v)
  {
    if w != [] {
      assert (w + v)[1..] == w[1..] + v;
      StripLeftPrefix(w[1..], v);
    } else {
      assert w + v == v;
    }
  }

  lemma StripRightSuffix(v: string, w: string)
    requires AllSpace(w)
    ensures StripRight(v + w) == StripRight(v)
  {
    if w != [] {
      assert (v + w)[..|v + w| - 1] == v + w[..|w| - 1];
      StripRightSuffix(v, w[..|w| - 1]);
    } else {
      assert v + w == v;
    }
  }

  lemma StripLeftAppend(v: string, w: string)
    requires AllSpace(w)
    ensures StripLeft(v + w) == StripLeft(v) + w || (StripLeft(v) == [] && StripLeft(v + w) == [])
  {
    if v == [] {
      assert v + w == w;
      StripLeftPrefix(w, []);
      assert w + [] == w;
    } else {
      assert (v + w)[1..] == v[1..] + w;
      if IsSpace(v[0]) {
        StripLeftAppend(v[1..], w);
      }
    }
  }

  /** `Strip` ignores whitespace added on either side. */
  lemma StripPadded(w1: string, v: string, w2: string)
    requires AllSpace(w1) && AllSpace(w2)
    ensures Strip(w1 + v + w2) == Strip(v)
  {
    assert w1 + v + w2 == w1 + (v + w2);
    StripLeftPrefix(w1, v + w2);
    StripLeftAppend(v, w2);
    if StripLeft(v + w2) == StripLeft(v) + w2 {
      StripRightSuffix(StripLeft(v), w2);
    }
  }

  /** `int()` reads an optionally signed run of digits, leading zeros
      allowed, with whitespace on either side. */
  lemma ParseIntPadded(w1: string, sgn: string, d: string, w2: string)
    requires AllIntSpace(w1) && AllIntSpace(w2)
    requires sgn == "" || sgn == "+" || sgn == "-"
    requires d != [] && AllDigits(d)
    ensures var n: int := DigitsValue(d);
      ParseInt(w1 + sgn + d + w2) == Some(if sgn == "-" then -n else n)
  {
    var v := sgn + d;
    var s := w1 + v + w2;
    assert w1 + sgn + d + w2 == s;
    SignedDigits(sgn, d);
    StripPadded(w1, v, w2);
    StripNoSpaceEnds(v);
    SinSeparador(w1, v, w2);
    ParseIntSigned(s, sgn, d);
  }

  lemma ParseIntSigned(s: string, sgn: string, d: string)
    requires sgn == "" || sgn == "+" || sgn == "-"
    requires d != [] && AllDigits(d)
    requires !HasSeparator(s) && Strip(s) == sgn + d
    ensures var n: int := DigitsValue(d);
      ParseInt(s) == Some(if sgn == "-" then -n else n)
  {
    SignedDigits(sgn, d);
    if sgn == "" {
      assert IsDigit(d[0]);
    }
  }

  /** A sign followed by digits: its ends are not whitespace, and it holds
      no separator. */
  lemma SignedDigits(sgn: string, d: string)
    requires sgn == "" || sgn == "+" || sgn == "-"
    requires d != [] && AllDigits(d)
    ensures var v := sgn + d; !IsSpace(v[0]) && !IsSpace(v[|v| - 1]) && !HasSeparator(v)
    ensures sgn == "" ==> sgn + d == d
    ensures sgn != "" ==> (sgn + d)[0] == sgn[0] && (sgn + d)[1..] == d
  {
    var v := sgn + d;
    assert v[|v| - 1] == d[|d| - 1];
    if sgn == "" {
      assert v == d;
    } else {
      assert v[1..] == d;
    }
  }

  /** Whitespace `int()` skips around a text without separators adds none. */
  lemma SinSeparador(w1: string, v: string, w2: string)
    requires AllIntSpace(w1) && AllIntSpace(w2) && !HasSeparator(v)
    ensures !HasSeparator(w1 + v + w2)
  {
    var s := w1 + v + w2;
    forall i | 0 <= i < |s| ensures !IsSeparator(s[i]) {
      if i < |w1| {
        assert s[i] == w1[i];
      } else if i < |w1| + |v| {
        assert s[i] == v[i - |w1|];
      } else {
        assert s[i] == w2[i - |w1| - |v|];
      }
    }
  }
}
