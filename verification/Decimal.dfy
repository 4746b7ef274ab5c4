/** Number to string conversion in a small fixed buffer. */
module Decimal {
  import opened Wrappers

  const SDS_LLSTR_SIZE := 21
  const LLONG_MIN := -0x8000_0000_0000_0000
  const LLONG_MAX := 0x7fff_ffff_ffff_ffff
  const ULLONG_MAX := 0xffff_ffff_ffff_ffff

  const ZERO: byte := 48
  const MINUS: byte := 45

  // ---------- the numeral of a number ----------

  function Digits(v: nat): seq<byte> {
    if v < 10 then [ZERO + v] else Digits(v / 10) + [ZERO + v % 10]
  }

  function Numeral(value: int): seq<byte> {
    if value < 0 then [MINUS] + Digits(-value) else Digits(value)
  }

  /** Reading a numeral, most significant digit first. */
  function ReadDigits(s: seq<byte>): int {
    if s == [] then 0 else 10 * ReadDigits(s[..|s| - 1]) + (s[|s| - 1] as int - ZERO as int)
  }

  function Read(s: seq<byte>): int {
    if s != [] && s[0] == MINUS then -ReadDigits(s[1..]) else ReadDigits(s)
  }

  ghost predicate AllDigits(s: seq<byte>) {
    forall i :: 0 <= i < |s| ==> ZERO <= s[i] <= ZERO + 9
  }

  lemma {:induction false} DigitsReadBack(v: nat)
    ensures ReadDigits(Digits(v)) == v
    ensures AllDigits(Digits(v)) && Digits(v) != []
    ensures v > 0 ==> Digits(v)[0] != ZERO
  {
    if v < 10 {
      assert Digits(v)[..0] == [];
    } else {
      DigitsReadBack(v / 10);
      assert Digits(v)[..|Digits(v)| - 1] == Digits(v / 10);
    }
  }

  /** The numeral denotes the number, has digits only after the sign, and no superfluous
      leading zero. */
  lemma NumeralIsExact(value: int)
    ensures Read(Numeral(value)) == value
    ensures value >= 0 ==> AllDigits(Numeral(value)) && (value > 0 ==> Numeral(value)[0] != ZERO)
    ensures value == 0 ==> Numeral(value) == [ZERO]
    ensures value < 0 ==> Numeral(value)[0] == MINUS && AllDigits(Numeral(value)[1..]) && Numeral(value)[1] != ZERO
  {
    DigitsReadBack(if value < 0 then -value else value);
    if value < 0 {
      assert Numeral(value)[1..] == Digits(-value);
    }
  }

  /** The usual way to write a whole number: 0, or digits that do not begin with a zero,
      perhaps behind a minus sign. */
  predicate Canonical(s: seq<byte>) {
    || s == [48]
    || (s != [] && 49 <= s[0] <= 57 && forall i :: 0 < i < |s| ==> 48 <= s[i] <= 57)
    || (|s| > 1 && s[0] == 45 && 49 <= s[1] <= 57 && forall i :: 1 < i < |s| ==> 48 <= s[i] <= 57)
  }

  lemma {:induction false} DigitsOfRead(s: seq<byte>)
    requires s != [] && 49 <= s[0] <= 57 && forall i :: 0 < i < |s| ==> 48 <= s[i] <= 57
    ensures ReadDigits(s) > 0 && Digits(ReadDigits(s)) == s
  {
    var front, last := s[..|s| - 1], s[|s| - 1];
    if front == [] {
      assert ReadDigits(front) == 0 && s == [last];
    } else {
      DigitsOfRead(front);
      assert ReadDigits(s) / 10 == ReadDigits(front) && ReadDigits(s) % 10 == last - 48;
      assert s == front + [last];
    }
  }

  lemma CanonicalIsNumeral(s: seq<byte>)
    requires Canonical(s)
    ensures s == Numeral(Read(s))
  {
    if s[0] == 48 {
      assert s[..|s| - 1] == [];
      assert ReadDigits(s) == 0;
    } else if s[0] == 45 {
      DigitsOfRead(s[1..]);
      assert s == [s[0]] + s[1..];
    } else {
      DigitsOfRead(s);
    }
  }

  lemma NumeralIsUsual(value: int)
    ensures Canonical(Numeral(value)) && Read(Numeral(value)) == value
  {
    NumeralIsExact(value);
    DigitsReadBack(if value < 0 then -value else value);
    assert value < 0 ==> forall i :: 1 < i < |Numeral(value)| ==> Numeral(value)[i] == Digits(-value)[i - 1];
  }

  /** The numeral is the one usual way to write the number. */
  lemma NumeralIsCanonical(value: int, s: seq<byte>)
    ensures Canonical(s) && Read(s) == value <==> s == Numeral(value)
  {
    NumeralIsUsual(value);
    if Canonical(s) {
      CanonicalIsNumeral(s);
    }
  }

  function Pow10(n: nat): nat {
    if n == 0 then 1 else 10 * Pow10(n - 1)
  }

  /** A number has at most n digits exactly when it is below ten to the n. */
  lemma {:induction false} DigitCount(v: nat, n: nat)
    requires n > 0
    ensures |Digits(v)| <= n <==> v < Pow10(n)
  {
    if v < 10 {
      Pow10AtLeastTen(n);
    } else if n == 1 {
      DigitsReadBack(v / 10);
      assert Pow10(1) == 10 * Pow10(0);
    } else {
      DigitCount(v / 10, n - 1);
    }
  }

  lemma {:induction false} Pow10AtLeastTen(n: nat)
    requires n > 0
    ensures Pow10(n) >= 10
  {
    if n > 1 {
      Pow10AtLeastTen(n - 1);
    }
  }

  lemma Pow10Of20()
    ensures Pow10(19) == 10_000_000_000_000_000_000
    ensures Pow10(20) == 100_000_000_000_000_000_000
  {
    assert Pow10(4) == 10_000 by { assert Pow10(2) == 100; }
    assert Pow10(8) == 100_000_000 by { assert Pow10(6) == 1_000_000; }
    assert Pow10(12) == 1_000_000_000_000 by { assert Pow10(10) == 10_000_000_000; }
    assert Pow10(16) == 10_000_000_000_000_000 by { assert Pow10(14) == 100_000_000_000_000; }
    assert Pow10(18) == 1_000_000_000_000_000_000;
  }

  /** Twenty characters are enough for every 64-bit number, signed or not, and are needed:
      with the terminator SDS_LLSTR_SIZE is exact. */
  lemma NumeralFits(value: int)
    requires LLONG_MIN <= value <= ULLONG_MAX
    ensures 1 <= |Numeral(value)| <= SDS_LLSTR_SIZE - 1
    ensures |Numeral(LLONG_MIN)| == SDS_LLSTR_SIZE - 1 == |Numeral(ULLONG_MAX)|
  {
    Pow10Of20();
    if value < 0 {
      DigitCount(-value, 19);
    } else {
      DigitCount(value, 20);
      DigitsReadBack(value);
    }
    DigitCount(-LLONG_MIN, 19);
    DigitCount(ULLONG_MAX, 20);
    DigitCount(ULLONG_MAX, 19);
    Pow10Of18();
    DigitCount(-LLONG_MIN, 18);
  }

  lemma Pow10Of18()
    ensures Pow10(18) == 1_000_000_000_000_000_000
  {
    Pow10Of20();
    assert Pow10(20) == 10 * Pow10(19) && Pow10(19) == 10 * Pow10(18);
  }

  // ---------- the conversion ----------

  function Reversed<T>(s: seq<T>): (r: seq<T>)
    ensures |r| == |s|
    ensures forall i :: 0 <= i < |s| ==> r[i] == s[|s| - 1 - i]
  {
    seq(|s|, i requires 0 <= i < |s| => s[|s| - 1 - i])
  }

  /** Reverses the first l bytes by swapping from both ends. */
  method ReverseInPlace(s: array<byte>, l: nat)
    requires 0 < l <= s.Length
    modifies s
    ensures s[..l] == Reversed(old(s[..l]))
    ensures forall i :: l <= i < s.Length ==> s[i] == old(s[i])
  {
    var lo, hi := 0, l - 1;
    while lo < hi
      invariant 0 <= lo <= hi + 1 <= l && lo + hi == l - 1
      invariant forall i :: 0 <= i < l ==> s[i] == if lo <= i <= hi then old(s[i]) else old(s[l - 1 - i])
      invariant forall i :: l <= i < s.Length ==> s[i] == old(s[i])
    {
      s[lo], s[hi] := s[hi], s[lo];
      lo := lo + 1;
      hi := hi - 1;
    }
  }

  lemma LastDigit(v: nat)
    ensures Digits(v) == (if v < 10 then [] else Digits(v / 10)) + [ZERO + v % 10]
  {
  }

  /** Writes the digits of v, least significant first; the do-while loop of the source. */
  method WriteReversed(s: array<byte>, v0: nat) returns (p: nat)
    requires |Digits(v0)| < s.Length
    modifies s
    ensures p == |Digits(v0)|
    ensures Reversed(s[..p]) == Digits(v0)
    ensures forall i :: p <= i < s.Length ==> s[i] == old(s[i])
  {
    var v := v0;
    p := 0;
    var more := true;
    ghost var written: seq<byte> := [];
    while more
      invariant p < s.Length && |written| == p
      invariant forall i :: p <= i < s.Length ==> s[i] == old(s[i])
      invariant forall i :: 0 <= i < p ==> s[i] == written[p - 1 - i]
      invariant Digits(v0) == (if more then Digits(v) else []) + written
      decreases more, v
    {
      LastDigit(v);
      Regroup(if v < 10 then [] else Digits(v / 10), [ZERO + v % 10], written);
      s[p] := ZERO + v % 10;
      written := [s[p]] + written;
      p := p + 1;
      v := v / 10;
      more := v != 0;
    }
    assert Reversed(s[..p]) == written;
  }

  /** The common end of both conversions: terminate, then reverse what precedes. */
  method Finish(s: array<byte>, l: nat)
    requires 0 < l < s.Length
    modifies s
    ensures s[..l] == Reversed(old(s[..l])) && s[l] == NUL
    ensures forall i :: l < i < s.Length ==> s[i] == old(s[i])
  {
    s[l] := NUL;
    ReverseInPlace(s, l);
  }

  /** sdsull2str */
  method Ull2Str(s: array<byte>, value: nat) returns (l: nat)
    requires value <= ULLONG_MAX && s.Length >= SDS_LLSTR_SIZE
    modifies s
    ensures l < SDS_LLSTR_SIZE && s[..l] == Numeral(value) && s[l] == NUL
    ensures forall i :: l < i < s.Length ==> s[i] == old(s[i])
  {
    NumeralFits(value);
    l := WriteReversed(s, value);
    Finish(s, l);
  }

  /** The sign goes behind the digits; the reversal brings it to the front. */
  method WriteSign(s: array<byte>, digits: nat)
    requires digits < s.Length
    modifies s
    ensures Reversed(s[..digits + 1]) == [MINUS] + Reversed(old(s[..digits]))
    ensures forall i :: digits < i < s.Length ==> s[i] == old(s[i])
  {
    s[digits] := MINUS;
  }

  /** sdsll2str. The magnitude is computed in unsigned arithmetic: LLONG_MIN has no negation
      among the signed values. */
  method Ll2Str(s: array<byte>, value: int) returns (l: nat)
    requires LLONG_MIN <= value <= LLONG_MAX && s.Length >= SDS_LLSTR_SIZE
    modifies s
    ensures l < SDS_LLSTR_SIZE && s[..l] == Numeral(value) && s[l] == NUL
    ensures forall i :: l < i < s.Length ==> s[i] == old(s[i])
  {
    var v: nat;
    if value < 0 {
      if value != LLONG_MIN {
        v := -value;
      } else {
        v := LLONG_MAX + 1;
      }
    } else {
      v := value;
    }
    NumeralFits(value);
    l := WriteReversed(s, v);
    if value < 0 {
      WriteSign(s, l);
      l := l + 1;
    }
    Finish(s, l);
  }
}
