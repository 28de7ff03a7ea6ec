/** XORShift128+ and the bounded draw of middleware/pkg/random. */
module XorShift {
  import opened BitTorrent

  datatype State = State(s0: bv64, s1: bv64)

  const ZERO := State(0, 0)

  // ---------- words and their laws ----------

  // The bit operations have names so that, past this section, proofs use their laws and not their bits.

  function Xor(x: bv64, y: bv64): bv64 { x ^ y }
  function Left(x: bv64): bv64 { x << 23 }
  function Right(x: bv64): bv64 { x >> 18 }
  function Right5(x: bv64): bv64 { x >> 5 }

  lemma Assoc(x: bv64, y: bv64, z: bv64)
    ensures Xor(Xor(x, y), z) == Xor(x, Xor(y, z))
  {
  }

  lemma Comm(x: bv64, y: bv64)
    ensures Xor(x, y) == Xor(y, x)
  {
  }

  lemma Cancel(x: bv64, y: bv64)
    ensures Xor(x, Xor(x, y)) == y && Xor(Xor(y, x), x) == y
  {
  }

  lemma Unit(x: bv64)
    ensures Xor(x, 0) == x && Xor(x, x) == 0
  {
  }

  lemma ZeroIff(x: bv64, y: bv64)
    ensures Xor(x, y) == 0 <==> x == y
  {
    Unit(x);
    Cancel(x, y);
  }

  lemma LeftLinear(x: bv64, y: bv64)
    ensures Left(Xor(x, y)) == Xor(Left(x), Left(y))
  {
  }

  lemma RightLinear(x: bv64, y: bv64)
    ensures Right(Xor(x, y)) == Xor(Right(x), Right(y))
  {
  }

  lemma LeftVanishes(x: bv64)
    ensures Left(Left(Left(x))) == 0
  {
  }

  lemma RightVanishes(x: bv64)
    ensures Right(Right(Right(Right(x)))) == 0
  {
  }

  // ---------- one step ----------

  function Drawn(s: State): bv64 { s.s0 + s.s1 }

  function Advance(s: State): State {
    var x := Xor(s.s0, Left(s.s0));
    State(s.s1, Xor(Xor(Xor(x, s.s1), Right(x)), Right5(s.s1)))
  }

  function UndoLeft(x: bv64): bv64 { Xor(x, Left(Xor(x, Left(x)))) }

  function UndoRight(t: bv64): bv64 { Xor(t, Right(Xor(t, Right(Xor(t, Right(t)))))) }

  function Mix(t: bv64, b: bv64): bv64 { Xor(Xor(t, b), Right5(b)) }

  /** The step backwards. */
  function Retreat(s: State): State {
    State(UndoLeft(UndoRight(Mix(s.s1, s.s0))), s.s0)
  }

  lemma Distance(t: bv64, p: bv64, q: bv64)
    ensures Xor(Xor(t, p), Xor(t, q)) == Xor(p, q)
  {
    Comm(t, p);
    Assoc(p, t, Xor(t, q));
    Cancel(t, q);
  }

  lemma RightInverts(x: bv64)
    ensures UndoRight(Xor(x, Right(x))) == x
  {
    var t := Xor(x, Right(x));
    var z1 := Xor(t, Right(t));
    var z2 := Xor(t, Right(z1));
    var z3 := Xor(t, Right(z2));
    Cancel(x, Right(x));
    Closer(x, t);
    Closer(x, z1);
    Closer(x, z2);
    RightVanishes(x);
    ZeroIff(x, z3);
  }

  /** Each round of the solution is nearer to the word that was shifted. */
  lemma Closer(x: bv64, z: bv64)
    ensures Xor(x, Xor(Xor(x, Right(x)), Right(z))) == Right(Xor(x, z))
  {
    Assoc(x, Right(x), Right(z));
    Cancel(x, Xor(Right(x), Right(z)));
    RightLinear(x, z);
  }

  lemma RightSolves(t: bv64)
    ensures var x := UndoRight(t); Xor(x, Right(x)) == t
  {
    var z1 := Xor(t, Right(t));
    var z2 := Xor(t, Right(z1));
    var z3 := Xor(t, Right(z2));
    Comm(z1, t);
    Cancel(t, Right(t));
    Distance(t, Right(z1), Right(t));
    RightLinear(z1, t);
    Distance(t, Right(z2), Right(z1));
    RightLinear(z2, z1);
    RightLinear(z3, z2);
    RightVanishes(t);
    ZeroIff(Right(z3), Right(z2));
    Cancel(Right(z2), t);
  }

  lemma LeftInverts(a: bv64)
    ensures UndoLeft(Xor(a, Left(a))) == a
  {
    var x := Xor(a, Left(a));
    Cancel(a, Left(a));
    CloserLeft(a, x);
    CloserLeft(a, Xor(x, Left(x)));
    LeftVanishes(a);
    ZeroIff(a, UndoLeft(x));
  }

  lemma CloserLeft(a: bv64, w: bv64)
    ensures Xor(a, Xor(Xor(a, Left(a)), Left(w))) == Left(Xor(a, w))
  {
    Assoc(a, Left(a), Left(w));
    Cancel(a, Xor(Left(a), Left(w)));
    LeftLinear(a, w);
  }

  lemma LeftSolves(x: bv64)
    ensures var a := UndoLeft(x); Xor(a, Left(a)) == x
  {
    var w1 := Xor(x, Left(x));
    var w2 := Xor(x, Left(w1));
    Comm(w1, x);
    Cancel(x, Left(x));
    Distance(x, Left(w1), Left(x));
    LeftLinear(w1, x);
    LeftLinear(w2, w1);
    LeftVanishes(x);
    ZeroIff(Left(w2), Left(w1));
    Cancel(Left(w1), x);
  }

  lemma MixUndoesItself(t: bv64, b: bv64)
    ensures Mix(Mix(t, b), b) == t
  {
    var c := Right5(b);
    Assoc(Xor(t, b), c, b);
    Comm(c, b);
    Assoc(Xor(t, b), b, c);
    Cancel(b, t);
    Cancel(c, t);
  }

  lemma StepIsMix(x: bv64, b: bv64)
    ensures Xor(Xor(Xor(x, b), Right(x)), Right5(b)) == Mix(Xor(x, Right(x)), b)
  {
    Assoc(x, b, Right(x));
    Comm(b, Right(x));
    Assoc(x, Right(x), b);
  }

  /** The step is a bijection on pairs of words. */
  lemma StepIsBijective(s: State)
    ensures Retreat(Advance(s)) == s && Advance(Retreat(s)) == s
  {
    var x := Xor(s.s0, Left(s.s0));
    StepIsMix(x, s.s1);
    MixUndoesItself(Xor(x, Right(x)), s.s1);
    RightInverts(x);
    LeftInverts(s.s0);
    var t := Mix(s.s1, s.s0);
    var y := UndoRight(t);
    LeftSolves(y);
    RightSolves(t);
    StepIsMix(y, s.s0);
    MixUndoesItself(s.s1, s.s0);
  }

  // ---------- whole runs ----------

  function Orbit(s: State, n: nat): State {
    if n == 0 then s else Advance(Orbit(s, n - 1))
  }

  /** Two runs that ever agree started together. */
  lemma {:induction false} RunsNeverMeet(s: State, s': State, n: nat)
    requires Orbit(s, n) == Orbit(s', n)
    ensures s == s'
  {
    if n > 0 {
      StepIsBijective(Orbit(s, n - 1));
      StepIsBijective(Orbit(s', n - 1));
      RunsNeverMeet(s, s', n - 1);
    }
  }

  lemma ZeroStays()
    ensures Advance(ZERO) == ZERO
  {
  }

  lemma {:induction false} ZeroRun(n: nat)
    ensures Orbit(ZERO, n) == ZERO
  {
    if n > 0 {
      ZeroRun(n - 1);
      ZeroStays();
    }
  }

  /** A run is at zero at some point exactly when it began there. */
  lemma {:induction false} NeverZeroIff(s: State, n: nat)
    ensures Orbit(s, n) == ZERO <==> s == ZERO
  {
    ZeroRun(n);
    if Orbit(s, n) == ZERO {
      RunsNeverMeet(s, ZERO, n);
    }
  }

  lemma {:induction false} OrbitAdd(s: State, m: nat, n: nat)
    ensures Orbit(s, m + n) == Orbit(Orbit(s, m), n)
  {
    if n > 0 {
      OrbitAdd(s, m, n - 1);
    }
  }

  /** A run that repeats a state comes back to its start: there is no lead-in to a cycle. */
  lemma RepetitionReturnsToStart(s: State, i: nat, j: nat)
    requires i <= j && Orbit(s, i) == Orbit(s, j)
    ensures Orbit(s, j - i) == s
  {
    OrbitAdd(s, j - i, i);
    RunsNeverMeet(s, Orbit(s, j - i), i);
  }

  // ---------- the bounded draw ----------

  const TWO63: int := 0x8000_0000_0000_0000

  /** A conversion to int, 64 bits wide. */
  function Signed(v: int): (k: int)
    requires 0 <= v < 2 * TWO63
    ensures -TWO63 <= k < TWO63
  {
    if v < TWO63 then v else v - 2 * TWO63
  }

  /** A result of 64-bit arithmetic. */
  function Wrap64(n: int): int64 { (n + TWO63) % (2 * TWO63) - TWO63 }

  /** The remainder, which takes the sign of the dividend. */
  function TruncRem(a: int, n: int): int
    requires n > 0
  {
    if a >= 0 then a % n else -(-a % n)
  }

  /** The draw from an unsigned word. */
  function Bounded(v: int, n: int64): int
    requires 0 <= v < 2 * TWO63 && n > 0
  {
    var k := Signed(v);
    TruncRem(if k < 0 then Wrap64(-k) else k, n)
  }

  /** Intn; None where it panics. */
  function Intn(s: State, n: int64): Option<(int, State)> {
    if n <= 0 then None else Some((Bounded(Drawn(s) as int, n), Advance(s)))
  }

  lemma Wraps(k: int)
    requires -TWO63 <= k < 0
    ensures Wrap64(-k) == if k == -TWO63 then -TWO63 else -k
  {
  }

  lemma RemRange(a: int, n: int)
    requires n > 0
    ensures a >= 0 ==> 0 <= TruncRem(a, n) < n
    ensures a <= 0 ==> -n < TruncRem(a, n) <= 0 && (TruncRem(a, n) == 0 <==> -a % n == 0)
  {
  }

  /** The draw is in range for every word but 2^63, and for that one exactly when the bound divides it. */
  lemma BoundedInRangeIff(v: int, n: int64)
    requires 0 <= v < 2 * TWO63 && n > 0
    ensures 0 <= Bounded(v, n) < n <==> v != TWO63 || TWO63 % n == 0
    ensures -n < Bounded(v, n) < n
  {
    var k := Signed(v);
    if k < 0 {
      Wraps(k);
    }
    RemRange(if k < 0 then Wrap64(-k) else k, n);
  }

  // ---------- which bounds divide 2^63 ----------

  function Pow2(e: nat): nat {
    if e == 0 then 1 else 2 * Pow2(e - 1)
  }

  ghost predicate PowerOfTwo(n: int) {
    exists e: nat :: n == Pow2(e)
  }

  lemma {:induction false} DividesPower(n: nat, q: nat, e: nat)
    requires n * q == Pow2(e)
    ensures PowerOfTwo(n)
    decreases e
  {
    if n == 1 {
      assert n == Pow2(0);
    } else if n % 2 == 0 {
      HalfDivides(n / 2, n, q, e);
      DividesPower(n / 2, q, e - 1);
      var d: nat :| n / 2 == Pow2(d);
      assert n == Pow2(d + 1);
    } else {
      OddDivides(n, q, e);
      DividesPower(n, q / 2, e - 1);
    }
  }

  lemma HalfDivides(h: nat, n: nat, q: nat, e: nat)
    requires n == 2 * h && n * q == Pow2(e)
    ensures e > 0 && h * q == Pow2(e - 1)
  {
    assert n * q == 2 * (h * q);
  }

  lemma OddTimesOdd(a: nat, b: nat)
    ensures (2 * a + 1) * (2 * b + 1) == 2 * (2 * a * b + a + b) + 1
  {
  }

  lemma TimesEven(n: nat, b: nat)
    ensures n * (2 * b) == 2 * (n * b)
  {
  }

  lemma TimesPositive(n: nat, q: nat)
    requires q > 0
    ensures n * q >= n
  {
  }

  lemma OddDivides(n: nat, q: nat, e: nat)
    requires n % 2 == 1 && n > 1 && n * q == Pow2(e)
    ensures e > 0 && n * (q / 2) == Pow2(e - 1)
  {
    if q > 0 {
      TimesPositive(n, q);
    }
    var a, b := n / 2, q / 2;
    if q == 2 * b {
      TimesEven(n, b);
    } else {
      OddTimesOdd(a, b);
    }
  }

  lemma {:induction false} PowersDivide(d: nat, e: nat)
    requires d <= e
    ensures Pow2(d) > 0 && Pow2(e) == Pow2(d) * Pow2(e - d)
  {
    if d > 0 {
      PowersDivide(d - 1, e - 1);
    }
  }

  lemma {:induction false} PowersGrow(d: nat, e: nat)
    requires d <= e
    ensures Pow2(d) <= Pow2(e)
  {
    if d < e {
      PowersGrow(d, e - 1);
    }
  }

  lemma Pow2Of63()
    ensures Pow2(63) == TWO63
  {
    assert Pow2(15) == 0x8000 && Pow2(16) == 0x1_0000;
    PowersDivide(16, 32);
    PowersDivide(32, 48);
    PowersDivide(48, 63);
  }

  /** A bound divides 2^63 exactly when it is a power of two. */
  lemma DividesIff(n: int64)
    requires n > 0
    ensures TWO63 % n == 0 <==> PowerOfTwo(n)
  {
    Pow2Of63();
    if TWO63 % n == 0 {
      assert n * (TWO63 / n) == TWO63;
      DividesPower(n, TWO63 / n, 63);
    }
    if e: nat :| n == Pow2(e) {
      if e >= 63 {
        PowersGrow(63, e);
      }
      PowersDivide(e, 63);
      Multiple(TWO63, n, Pow2(63 - e));
    }
  }

  lemma Multiple(a: int, n: int, q: int)
    requires n > 0 && a == n * q
    ensures a % n == 0
  {
    var r := a % n;
    var d := q - a / n;
    assert r == n * d;
    assert d >= 1 ==> n * d >= n;
    assert d <= -1 ==> n * d <= -n;
  }

  /** The draw is in range for every word but 2^63, and for that one exactly when the bound is a power of two. */
  lemma IntnInRangeIff(s: State, n: int64)
    requires n > 0
    ensures 0 <= Intn(s, n).value.0 < n <==> Drawn(s) as int != TWO63 || PowerOfTwo(n)
  {
    BoundedInRangeIff(Drawn(s) as int, n);
    DividesIff(n);
  }

  /** How far a word is from zero, either way round. */
  function FromZero(v: int): int { if v < TWO63 then v else 2 * TWO63 - v }

  /** The draw is the distance of the word from zero, modulo the bound; at 2^63 the sign is wrong. */
  lemma BoundedValue(v: int, n: int64)
    requires 0 <= v < 2 * TWO63 && n > 0
    ensures Bounded(v, n) == if v == TWO63 then -(TWO63 % n) else FromZero(v) % n
  {
    var k := Signed(v);
    if k < 0 {
      Wraps(k);
    }
  }
}
