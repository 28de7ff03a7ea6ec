/** Decimal integers as strconv prints and parses them. */
module Decimal {
  import opened BitTorrent

  const ZERO := 48
  const PLUS := 43
  const MINUS := 45
  const COLON := 58

  const MIN_INT64 := -0x8000_0000_0000_0000
  const MAX_INT64 := 0x7fff_ffff_ffff_ffff

  predicate IsDigit(b: int) { ZERO <= b < ZERO + 10 }

  /** strconv.FormatUint in base ten. */
  function Digits(n: nat): (s: Bytes)
    ensures s != [] && forall i :: 0 <= i < |s| ==> IsDigit(s[i])
  {
    if n < 10 then [ZERO + n] else Digits(n / 10) + [ZERO + n % 10]
  }

  /** strconv.FormatInt in base ten. */
  function FormatInt(n: int): Bytes {
    if n < 0 then [MINUS] + Digits(-n) else Digits(n)
  }

  predicate AllDigits(s: Bytes) {
    s != [] && forall i :: 0 <= i < |s| ==> IsDigit(s[i])
  }

  function Value(s: Bytes): nat
    requires forall i :: 0 <= i < |s| ==> IsDigit(s[i])
  {
    if s == [] then 0
    else
      assert IsDigit(s[|s| - 1]);
      Value(s[..|s| - 1]) * 10 + (s[|s| - 1] - ZERO)
  }

  /** strconv.ParseInt(s, 10, 64); None for every error. */
  function ParseInt(s: Bytes): Option<int> {
    var signed := s != [] && (s[0] == PLUS || s[0] == MINUS);
    var digits := if signed then s[1..] else s;
    if !AllDigits(digits) then None
    else
      var n := if s[0] == MINUS then 0 - Value(digits) else Value(digits);
      if MIN_INT64 <= n <= MAX_INT64 then Some(n) else None
  }

  lemma {:induction false} ValueOfDigits(n: nat)
    ensures Value(Digits(n)) == n
  {
    var s := Digits(n);
    if n < 10 {
      assert s[..0] == [];
    } else {
      ValueOfDigits(n / 10);
      assert s[..|s| - 1] == Digits(n / 10);
    }
  }

  /** Parsing undoes printing exactly on the 64-bit integers. */
  lemma ParseFormat(n: int)
    ensures ParseInt(FormatInt(n)) == if MIN_INT64 <= n <= MAX_INT64 then Some(n) else None
  {
    if n < 0 {
      ValueOfDigits(-n);
      assert FormatInt(n)[1..] == Digits(-n);
    } else {
      ValueOfDigits(n);
    }
  }

  lemma {:induction false} ValueOfZeros(zeros: Bytes, s: Bytes)
    requires (forall i :: 0 <= i < |zeros| ==> zeros[i] == ZERO) && forall i :: 0 <= i < |s| ==> IsDigit(s[i])
    ensures Value(zeros + s) == Value(s)
    decreases |zeros| + |s|
  {
    var all := zeros + s;
    if s != [] {
      assert all[..|all| - 1] == zeros + s[..|s| - 1];
      ValueOfZeros(zeros, s[..|s| - 1]);
    } else if zeros != [] {
      assert all[..|all| - 1] == zeros[..|zeros| - 1] + [];
      ValueOfZeros(zeros[..|zeros| - 1], []);
    }
  }

  /** A string of digits is the number it stands for, printed, behind zeros. */
  lemma {:induction false} DigitsOfValue(s: Bytes) returns (zeros: Bytes)
    requires AllDigits(s)
    ensures s == zeros + Digits(Value(s)) && forall i :: 0 <= i < |zeros| ==> zeros[i] == ZERO
    decreases |s|
  {
    var front, last := s[..|s| - 1], s[|s| - 1] - ZERO;
    assert IsDigit(s[|s| - 1]) && s == front + [ZERO + last];
    if front == [] {
      zeros := [];
      assert Value(front) == 0;
    } else {
      zeros := DigitsOfValue(front);
      if Value(front) == 0 {
        zeros := zeros + [ZERO];
        assert front == zeros;
      } else {
        var n := Value(s);
        assert n / 10 == Value(front) && n % 10 == last;
      }
    }
  }

  /** What an integer may look like: a sign, a plus at will, then zeros at will before its digits. */
  ghost predicate Spells(s: Bytes, n: int, sign: Bytes, zeros: Bytes) {
    && s == sign + zeros + Digits(if n < 0 then -n else n)
    && (forall i :: 0 <= i < |zeros| ==> zeros[i] == ZERO)
    && (sign == [MINUS] || (n >= 0 && (sign == [] || sign == [PLUS])))
    && (sign == [MINUS] ==> n <= 0)
  }

  /** Exactly the spellings of the 64-bit integers are parsed, to the integer they spell. */
  lemma ParsesIff(s: Bytes, n: int)
    ensures ParseInt(s) == Some(n) <==> MIN_INT64 <= n <= MAX_INT64 && exists sign, zeros :: Spells(s, n, sign, zeros)
  {
    if ParseInt(s) == Some(n) {
      var sign, zeros := ParsedIsSpelled(s, n);
      assert Spells(s, n, sign, zeros);
    }
    forall sign, zeros | Spells(s, n, sign, zeros) && MIN_INT64 <= n <= MAX_INT64 ensures ParseInt(s) == Some(n) {
      SpellingParses(s, n, sign, zeros);
    }
  }

  lemma ParsedIsSpelled(s: Bytes, n: int) returns (sign: Bytes, zeros: Bytes)
    requires ParseInt(s) == Some(n)
    ensures Spells(s, n, sign, zeros)
  {
    var signed := s[0] == PLUS || s[0] == MINUS;
    var digits := if signed then s[1..] else s;
    zeros := DigitsOfValue(digits);
    sign := if signed then [s[0]] else [];
    assert s == sign + digits;
    Assoc(sign, zeros, Digits(Value(digits)));
  }

  lemma ParseSigned(sign: Bytes, digits: Bytes)
    requires AllDigits(digits) && (sign == [] || sign == [PLUS] || sign == [MINUS])
    ensures var n := if sign == [MINUS] then 0 - Value(digits) else Value(digits);
      ParseInt(sign + digits) == if MIN_INT64 <= n <= MAX_INT64 then Some(n) else None
  {
    assert IsDigit(digits[0]);
    if sign == [] {
      assert sign + digits == digits;
    } else {
      assert (sign + digits)[1..] == digits;
    }
  }

  lemma SpellingParses(s: Bytes, n: int, sign: Bytes, zeros: Bytes)
    requires Spells(s, n, sign, zeros) && MIN_INT64 <= n <= MAX_INT64
    ensures ParseInt(s) == Some(n)
  {
    var size := if n < 0 then -n else n;
    var digits := Digits(size);
    ValueOfZeros(zeros, digits);
    ValueOfDigits(size);
    Assoc(sign, zeros, digits);
    ZerosAreDigits(zeros, digits);
    ParseSigned(sign, zeros + digits);
  }

  lemma ZerosAreDigits(zeros: Bytes, digits: Bytes)
    requires (forall i :: 0 <= i < |zeros| ==> zeros[i] == ZERO) && AllDigits(digits)
    ensures AllDigits(zeros + digits)
  {
  }

  /** What FormatInt prints contains neither terminator. */
  lemma FormatIntBytes(n: int, i: nat)
    requires i < |FormatInt(n)|
    ensures IsDigit(FormatInt(n)[i]) || (i == 0 && n < 0 && FormatInt(n)[i] == MINUS)
  {
  }

  // ---------- how many digits ----------

  function Pow10(k: nat): nat {
    if k == 0 then 1 else 10 * Pow10(k - 1)
  }

  lemma {:induction false} Pow10Add(a: nat, b: nat)
    ensures Pow10(a + b) == Pow10(a) * Pow10(b)
  {
    if a > 0 {
      Pow10Add(a - 1, b);
    }
  }

  lemma {:induction false} DigitsLength(n: nat, k: nat)
    requires n < Pow10(k) && k > 0
    ensures |Digits(n)| <= k
  {
    if n >= 10 {
      assert k > 1;
      DigitsLength(n / 10, k - 1);
    }
  }
}
