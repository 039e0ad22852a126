/**
 * The Java string operations the core relies on: String.trim, case folding,
 * String.valueOf(int), Integer.parseInt and String.length. A string here is a
 * sequence of Unicode scalar values; Java stores the same text as UTF-16 code
 * units, where a character above U+FFFF takes two, so `Utf16Length` gives the
 * length Java reports. Trim, case folding and digits only ever look at
 * characters below U+0080, which are one code unit either way.
 */
module Text {
  import opened Wrappers

  const INT_MIN: int := -0x8000_0000
  const INT_MAX: int := 0x7fff_ffff

  /** The range of a Java `int`. */
  predicate InInt32(n: int) {
    INT_MIN <= n <= INT_MAX
  }

  // ---------------------------------------------------------------------------
  // String.trim
  // ---------------------------------------------------------------------------

  /** String.trim strips every leading and trailing code unit at or below U+0020. */
  predicate IsTrimSpace(c: char) {
    c <= ' '
  }

  predicate IsTrimmed(s: string) {
    s == [] || (!IsTrimSpace(s[0]) && !IsTrimSpace(s[|s| - 1]))
  }

  predicate AllTrimSpace(s: string) {
    forall i :: 0 <= i < |s| ==> IsTrimSpace(s[i])
  }

  /** The first index at or after `i` that trim keeps, or `|s|`. */
  function FirstKept(s: string, i: nat): (k: nat)
    requires i <= |s|
    ensures i <= k <= |s|
    ensures forall j :: i <= j < k ==> IsTrimSpace(s[j])
    ensures k < |s| ==> !IsTrimSpace(s[k])
    decreases |s| - i
  {
    if i == |s| || !IsTrimSpace(s[i]) then i else FirstKept(s, i + 1)
  }

  /** The end (exclusive) of the kept part, scanning down from `hi` but not
      below `lo`. */
  function LastKept(s: string, lo: nat, hi: nat): (k: nat)
    requires lo <= hi <= |s|
    ensures lo <= k <= hi
    ensures forall j :: k <= j < hi ==> IsTrimSpace(s[j])
    ensures k > lo ==> !IsTrimSpace(s[k - 1])
    decreases hi
  {
    if hi == lo || !IsTrimSpace(s[hi - 1]) then hi else LastKept(s, lo, hi - 1)
  }

  /** Java's `s.trim()`: skip white space from the front, then from the back,
      and keep what lies between. The result is trimmed, is empty exactly
      when `s` is all white space, and leaves an already trimmed string
      alone. */
  function Trim(s: string): (r: string)
    ensures IsTrimmed(r)
    ensures |r| <= |s|
    ensures r == [] <==> AllTrimSpace(s)
    ensures IsTrimmed(s) ==> r == s
    ensures exists a, b :: 0 <= a <= b <= |s| && r == s[a..b]
                           && AllTrimSpace(s[..a]) && AllTrimSpace(s[b..])
  {
    var st := FirstKept(s, 0);
    var len := LastKept(s, st, |s|);
    assert st < len ==> s[st..len][0] == s[st] && s[st..len][len - st - 1] == s[len - 1];
    assert s != [] && !IsTrimSpace(s[0]) ==> st == 0;
    assert s != [] && !IsTrimSpace(s[|s| - 1]) ==> len == |s|;
    assert s[0..|s|] == s;
    assert AllTrimSpace(s[..st]) && AllTrimSpace(s[len..]);
    s[st..len]
  }

  /** `value.trim().isEmpty()`: nothing but white space. */
  predicate IsBlank(s: string)
    ensures IsBlank(s) <==> AllTrimSpace(s)
  {
    Trim(s) == []
  }

  // ---------------------------------------------------------------------------
  // String.length
  // ---------------------------------------------------------------------------

  /** The number of UTF-16 code units Java uses for `s`: one per character up
      to U+FFFF, two (a surrogate pair) above. */
  function Utf16Length(s: string): (n: nat)
    ensures n == |s| + |set i | 0 <= i < |s| && s[i] as int > 0xFFFF|
    ensures |s| <= n <= 2 * |s|
    ensures (forall i :: 0 <= i < |s| ==> s[i] as int <= 0xFFFF) ==> n == |s|
  {
    if s == [] then 0
    else
      var init := s[..|s| - 1];
      var last := s[|s| - 1];
      assert (set i | 0 <= i < |s| && s[i] as int > 0xFFFF)
          == (set i | 0 <= i < |init| && init[i] as int > 0xFFFF)
             + (if last as int > 0xFFFF then {|s| - 1} else {});
      Utf16Length(init) + (if last as int <= 0xFFFF then 1 else 2)
  }

  /** A character outside the Basic Multilingual Plane counts twice. */
  lemma Utf16LengthOfPair()
    ensures Utf16Length("a\U{1F600}") == 3
    ensures |"a\U{1F600}"| == 2
  {
    assert "a\U{1F600}"[..1] == "a";
    assert "a"[..0] == "";
  }

  lemma {:induction false} TrimIdempotent(s: string)
    ensures Trim(Trim(s)) == Trim(s)
  {
    var t := Trim(s);
    assert IsTrimmed(t);
  }

  // ---------------------------------------------------------------------------
  // Case folding
  // ---------------------------------------------------------------------------

  /** Lower-casing of one code unit; only ASCII letters change (SQLite's LOWER). */
  function LowerChar(c: char): (r: char)
    ensures r == c || ('A' <= c <= 'Z' && 'a' <= r <= 'z')
    ensures !('A' <= r <= 'Z')
  {
    if 'A' <= c <= 'Z' then (c as int + ('a' as int - 'A' as int)) as char else c
  }

  function Lower(s: string): (r: string)
    ensures |r| == |s|
    ensures forall i :: 0 <= i < |s| ==> r[i] == LowerChar(s[i])
  {
    seq(|s|, i requires 0 <= i < |s| => LowerChar(s[i]))
  }

  predicate IsLower(s: string) {
    forall i :: 0 <= i < |s| ==> LowerChar(s[i]) == s[i]
  }

  lemma LowerIsLower(s: string)
    ensures IsLower(Lower(s))
  {
  }

  /** `t` occurs in `s` as a contiguous piece (Java's `s.contains(t)`). */
  ghost predicate IsSubstring(t: string, s: string) {
    exists k :: 0 <= k <= |s| && t <= s[k..]
  }

  // ---------------------------------------------------------------------------
  // Decimal text of an int (String.valueOf, SQLite's CAST(... AS TEXT))
  // ---------------------------------------------------------------------------

  predicate IsDigit(c: char) {
    '0' <= c <= '9'
  }

  predicate AllDigits(s: string) {
    forall i :: 0 <= i < |s| ==> IsDigit(s[i])
  }

  function DigitChar(d: int): (c: char)
    requires 0 <= d < 10
    ensures IsDigit(c) && c as int - '0' as int == d
  {
    ('0' as int + d) as char
  }

  /** Decimal digits of `n`, most significant first, without leading zeros. */
  function NatToText(n: nat): (r: string)
    ensures r != [] && AllDigits(r)
    ensures |r| > 1 ==> r[0] != '0'
    decreases n
  {
    if n < 10 then [DigitChar(n)] else NatToText(n / 10) + [DigitChar(n % 10)]
  }

  /** String.valueOf(n): a minus sign for negative numbers, then the digits. */
  function IntToText(n: int): (r: string)
    ensures IsTrimmed(r)
  {
    if n < 0 then "-" + NatToText(-n) else NatToText(n)
  }

  /** The value of a string of decimal digits. */
  function DigitsValue(ds: string): nat
    requires AllDigits(ds)
  {
    if ds == [] then 0 else DigitsValue(ds[..|ds| - 1]) * 10 + (ds[|ds| - 1] as int - '0' as int)
  }

  lemma {:induction false} DigitsOfNat(n: nat)
    ensures DigitsValue(NatToText(n)) == n
    decreases n
  {
    if n >= 10 {
      var s := NatToText(n);
      assert s[..|s| - 1] == NatToText(n / 10);
      DigitsOfNat(n / 10);
    }
  }

  // ---------------------------------------------------------------------------
  // Integer.parseInt
  // ---------------------------------------------------------------------------

  /** Integer.parseInt(s): an optional '+' or '-', at least one digit and
      nothing else, with a value inside the int range; None where Java throws
      NumberFormatException. */
  function ParseInt(s: string): (r: Option<int>)
    ensures r.Some? ==> InInt32(r.value)
  {
    if s == [] then None
    else
      var digits := if s[0] == '-' || s[0] == '+' then s[1..] else s;
      if digits == [] || !AllDigits(digits) then None
      else
        var v: int := if s[0] == '-' then -(DigitsValue(digits) as int) else DigitsValue(digits);
        if InInt32(v) then Some(v) else None
  }

  /** Parsing the decimal text of any integer gives it back when it lies in
      the int range, and fails otherwise. */
  lemma {:induction false} ParseIntOfAnyText(n: int)
    ensures ParseInt(IntToText(n)) == if InInt32(n) then Some(n) else None
  {
    var s := IntToText(n);
    if n < 0 {
      DigitsOfNat(-n);
      assert s[1..] == NatToText(-n);
    } else {
      DigitsOfNat(n);
      assert IsDigit(s[0]);
    }
  }

  function Abs(v: int): nat {
    if v < 0 then -v else v
  }

  /** `m` zero digits. */
  function Zeros(m: nat): (z: string)
    ensures |z| == m && AllDigits(z)
  {
    seq(m, _ => '0')
  }

  /** 1 when `s` starts with a sign parseInt accepts, 0 otherwise. */
  function SignLength(s: string): nat {
    if s != [] && (s[0] == '-' || s[0] == '+') then 1 else 0
  }

  /** The texts parseInt accepts for `v`: an optional '+' or '-' (a '-' only
      when `v` is not positive, and required when it is negative), any number
      of zeros, then the digits of `v` without leading zeros. */
  ghost predicate DecimalText(s: string, v: int) {
    var k := SignLength(s);
    var t := NatToText(Abs(v));
    && k + |t| <= |s|
    && s[k..] == Zeros(|s| - k - |t|) + t
    && (v < 0 ==> s[0] == '-')
    && (s[0] == '-' ==> v <= 0)
    && InInt32(v)
  }

  lemma {:induction false} ZerosValue(m: nat)
    ensures DigitsValue(Zeros(m)) == 0
  {
    if m > 0 {
      assert Zeros(m)[..m - 1] == Zeros(m - 1);
      ZerosValue(m - 1);
    }
  }

  /** Leading zeros do not change the value of a digit string. */
  lemma {:induction false} LeadingZerosValue(m: nat, t: string)
    requires AllDigits(t)
    ensures AllDigits(Zeros(m) + t)
    ensures DigitsValue(Zeros(m) + t) == DigitsValue(t)
  {
    var u := Zeros(m) + t;
    if t == [] {
      assert u == Zeros(m);
      ZerosValue(m);
    } else {
      assert u[..|u| - 1] == Zeros(m) + t[..|t| - 1];
      LeadingZerosValue(m, t[..|t| - 1]);
    }
  }

  /** Every non-empty digit string is zeros followed by the canonical digits
      of its value. */
  lemma {:induction false} DigitsAreZerosThenText(ds: string)
    requires ds != [] && AllDigits(ds)
    ensures var t := NatToText(DigitsValue(ds));
      |t| <= |ds| && ds == Zeros(|ds| - |t|) + t
  {
    var init := ds[..|ds| - 1];
    var d := ds[|ds| - 1] as int - '0' as int;
    var n := DigitsValue(ds);
    if init == [] {
      assert ds == [DigitChar(d)];
      assert ds == Zeros(0) + ds;
    } else {
      DigitsAreZerosThenText(init);
      var ti := NatToText(DigitsValue(init));
      if DigitsValue(init) == 0 {
        assert ti == "0";
        assert init == Zeros(|init| - 1) + "0";
        assert NatToText(n) == [DigitChar(d)];
        assert ds == Zeros(|ds| - 1) + [DigitChar(d)];
      } else {
        assert n / 10 == DigitsValue(init) && n % 10 == d;
        assert NatToText(n) == ti + [DigitChar(d)];
        assert ds == init + [ds[|ds| - 1]];
      }
    }
  }

  /** Every text parseInt accepts has the decimal form of its value. */
  lemma ParsedIsDecimalText(s: string, v: int)
    requires ParseInt(s) == Some(v)
    ensures DecimalText(s, v)
  {
    var k := SignLength(s);
    var digits := s[k..];
    assert k == 0 ==> digits == s;
    assert digits != [] && AllDigits(digits);
    var value: int := DigitsValue(digits);
    assert v == if s[0] == '-' then -value else value;
    assert Abs(v) == value;
    DigitsAreZerosThenText(digits);
  }

  /** Every text of that form parses to its value. */
  lemma DecimalTextParses(s: string, v: int)
    requires DecimalText(s, v)
    ensures ParseInt(s) == Some(v)
  {
    var k := SignLength(s);
    var t := NatToText(Abs(v));
    var digits := s[k..];
    assert k == 0 ==> digits == s;
    LeadingZerosValue(|s| - k - |t|, t);
    DigitsOfNat(Abs(v));
    assert digits != [] && AllDigits(digits) && DigitsValue(digits) == Abs(v);
  }

  /** What Integer.parseInt accepts, in both directions: it returns `v`
      exactly for the texts of `v` with an optional sign and leading zeros. */
  lemma ParseIntIsDecimalText(s: string, v: int)
    ensures ParseInt(s) == Some(v) <==> DecimalText(s, v)
  {
    if ParseInt(s) == Some(v) {
      ParsedIsDecimalText(s, v);
    }
    if DecimalText(s, v) {
      DecimalTextParses(s, v);
    }
  }

  /** The cases Java documents for parseInt: a '+' sign and leading zeros are
      accepted, a bare sign and a leading letter are not. */
  lemma ParseIntExamples()
    ensures ParseInt("+5") == Some(5)
    ensures ParseInt("007") == Some(7)
    ensures ParseInt("-0") == Some(0)
    ensures ParseInt("-") == None && ParseInt("+") == None
    ensures ParseInt("x5") == None
  {
    assert "+5"[1..] == "5" && "5"[..0] == "";
    assert "007"[..2] == "00" && "00"[..1] == "0" && "0"[..0] == "";
    assert "-0"[1..] == "0";
    assert !IsDigit("x5"[0]);
  }

  /** A string that contains something other than an optional sign and digits
      does not parse. */
  lemma NonNumericRejected(s: string, i: int)
    requires 0 < i < |s| && !IsDigit(s[i])
    ensures ParseInt(s) == None
  {
  }
}
