/**
 TOSSIM's random number generator (Marsaglia and Zaman), in integers: a number x here stands for
 x / 2^24 in the program, whose doubles hold all of them exactly.
 */
module RandomLib {
  import opened Basics

  const ONE := 0x100_0000

  // ---------- The generator that fills the table ----------

  /** The last three terms of the product sequence modulo 179 and the term of the congruential one modulo 169. */
  datatype Seeds = Seeds(i: int, j: int, k: int, l: int)

  function Next(s: Seeds): Seeds {
    Seeds(s.j, s.k, (s.i * s.j % 179) * s.k % 179, (53 * s.l + 1) % 169)
  }

  ghost function Later(s: Seeds, n: nat): Seeds {
    if n == 0 then s else Next(Later(s, n - 1))
  }

  ghost predicate InRange(s: Seeds) {
    1 <= s.i <= 178 && 1 <= s.j <= 178 && 1 <= s.k <= 178 && 0 <= s.l <= 168
  }

  lemma IsPrime(a: nat)
    requires 1 < a < 179
    ensures 179 % a != 0
  {
  }

  lemma ExactDivision(n: int, d: nat, q: int)
    requires d > 0 && n == d * q
    ensures n % d == 0
  {
    var t := q - n / d;
    assert d * t == d * q - d * (n / d) == n % d;
  }

  lemma Reduce(a: int, b: int, q: int, r: int, t: int)
    requires a * q + r == 179 && a * b == 179 * t
    ensures r * b == 179 * (b - q * t)
  {
    var aq, qt := a * q, q * t;
    assert r == 179 - aq;
    assert r * b == 179 * b - aq * b;
    Regroup(a, q, b);
    Regroup(179, t, q);
    assert 179 * (b - qt) == 179 * b - 179 * qt;
  }

  lemma Regroup(a: int, q: int, b: int)
    ensures (a * q) * b == q * (a * b) && (a * q) * b == a * (b * q)
  {
  }

  /** A product of two numbers between 1 and 178 is not 0 modulo 179. */
  lemma {:induction false} NoZeroDivisors(a: nat, b: nat)
    requires 0 < a < 179 && 0 < b < 179
    ensures a * b % 179 != 0
    decreases a
  {
    if a > 1 && a * b % 179 == 0 {
      IsPrime(a);
      var q, r := 179 / a, 179 % a;
      var t := a * b / 179;
      assert a * q + r == 179 && a * b == 179 * t;
      Reduce(a, b, q, r, t);
      ExactDivision(r * b, 179, b - q * t);
      NoZeroDivisors(r, b);
    }
  }

  lemma NextInRange(s: Seeds)
    requires InRange(s)
    ensures InRange(Next(s))
  {
    NoZeroDivisors(s.i, s.j);
    NoZeroDivisors(s.i * s.j % 179, s.k);
  }

  /** The product sequence never collapses to zero, however long it runs. */
  lemma {:induction false} NeverCollapses(s: Seeds, n: nat)
    requires InRange(s)
    ensures InRange(Later(s, n))
  {
    if n > 0 {
      NeverCollapses(s, n - 1);
      NextInRange(Later(s, n - 1));
    }
  }

  predicate Bit(s: Seeds) {
    s.l * s.k % 64 >= 32
  }

  /** The number whose binary digits are the first `n` bits, the first one the most significant. */
  ghost function Digits(s: Seeds, n: nat): int {
    if n == 0 then 0 else 2 * Digits(s, n - 1) + if Bit(Later(s, n)) then 1 else 0
  }

  lemma {:induction false} DigitsBelow(s: Seeds, n: nat)
    ensures 0 <= Digits(s, n) < Pow2(n)
  {
    if n > 0 {
      DigitsBelow(s, n - 1);
    }
  }

  lemma Pow2Of23()
    ensures Pow2(23) == 0x80_0000 && Pow2(24) == ONE
  {
    assert Pow2(8) == 0x100;
    assert Pow2(16) == 0x1_0000;
  }

  lemma SlotInRange(s: Seeds)
    ensures 0 <= Digits(s, 24) < ONE
  {
    hide Digits, Pow2;
    DigitsBelow(s, 24);
    Pow2Of23();
  }

  lemma StepOn(s: Seeds, n: nat)
    ensures Later(s, 0) == s && Digits(s, 0) == 0 && Pow2(0) == 1
    ensures Later(s, n + 1) == Next(Later(s, n)) && Pow2(n + 1) == 2 * Pow2(n)
    ensures Digits(s, n + 1) == 2 * Digits(s, n) + if Bit(Later(s, n + 1)) then 1 else 0
  {
  }

  // One digit of a slot: it adds its weight, and the next weighs half as much.
  lemma SlotStep(s: Seeds, n: nat)
    requires n < 24
    ensures Later(s, n + 1) == Next(Later(s, n))
    ensures Digits(s, n + 1) * Pow2(23 - n) ==
            Digits(s, n) * Pow2(24 - n) + if Bit(Later(s, n + 1)) then Pow2(23 - n) else 0
    ensures n < 23 ==> Pow2(23 - n) / 2 == Pow2(22 - n)
  {
    hide Digits, Later, Pow2;
    StepOn(s, n);
    StepOn(s, 23 - n);
    if n < 23 {
      StepOn(s, 22 - n);
    }
    Weights(Digits(s, n), Pow2(23 - n));
  }

  lemma Weights(d: int, t: int)
    ensures d * (2 * t) == (2 * d) * t && (2 * d + 1) * t == (2 * d) * t + t
  {
  }

  // ---------- The numbers drawn ----------

  function Norm(d: int): int {
    if d <= 0 then d + ONE else d
  }

  /** The lagged sequence: x(0), x(-1), ..., x(-96) are the slots of the table, and it goes on for ever. */
  ghost function X(start: seq<int>, n: int): int
    requires |start| == 97 && n >= -96
    decreases n + 97
  {
    if n <= 0 then start[0 - n] else Norm(X(start, n - 97) - X(start, n - 33))
  }

  /** The arithmetic sequence modulo the prime 16777213. */
  function C(n: nat): int {
    (362436 - n * 7654321) % 16777213
  }

  ghost function Drawn(start: seq<int>, n: nat): int
    requires |start| == 97
  {
    var d := X(start, n) - C(n);
    if d < 0 then d + ONE else d
  }

  ghost predicate Slots(start: seq<int>) {
    |start| == 97 && forall i :: 0 <= i < 97 ==> 0 <= start[i] < ONE
  }

  lemma {:induction false} XInRange(start: seq<int>, n: int)
    requires Slots(start) && n >= -96
    ensures 0 <= X(start, n) <= 0x100_0000
    ensures n <= 0 ==> X(start, n) == start[-n]
    ensures n > 0 ==> var d := X(start, n - 97) - X(start, n - 33);
                      X(start, n) == if d > 0 then d else d + 0x100_0000
    decreases n + 97
  {
    if n > 0 {
      XInRange(start, n - 97);
      XInRange(start, n - 33);
    }
  }

  /** Every number drawn lies in 0..2^24 and is x(n) - c(n), or that and 2^24 if it is negative. */
  lemma DrawnInRange(start: seq<int>, n: nat)
    requires Slots(start)
    ensures 0 <= Drawn(start, n) <= 0x100_0000
    ensures var d := X(start, n) - (362436 - n * 7654321) % 16777213;
            Drawn(start, n) == if d >= 0 then d else d + 0x100_0000
  {
    XInRange(start, n);
  }

  // ---------- The ring ----------

  /** After `n` draws slot `s` holds the latest x(m) with m = -s modulo 97. */
  ghost predicate IsRing(u: seq<int>, start: seq<int>, n: nat) {
    |u| == 97 && |start| == 97 && forall s :: 0 <= s < 97 ==> u[s] == X(start, n - (n + s) % 97)
  }

  lemma RingStarts(start: seq<int>)
    requires |start| == 97
    ensures IsRing(start, start, 0)
  {
  }

  // The slots of x(n - 96), which x(n + 1) replaces, and of x(n - 32).
  function NewSlot(n: nat): (i: int)
    ensures 0 <= i < 97 && (n + i) % 97 == 96
  {
    96 - n % 97
  }

  function LagSlot(n: nat): (j: int)
    ensures 0 <= j < 97 && (n + j) % 97 == 32
  {
    (32 - n) % 97
  }

  lemma CountUp(a: int)
    ensures (a + 1) % 97 == if a % 97 == 96 then 0 else a % 97 + 1
  {
  }

  lemma SameSlot(n: nat, s: int, i: int)
    requires 0 <= s < 97 && 0 <= i < 97 && (n + s) % 97 == (n + i) % 97
    ensures s == i
  {
    var a, b := (n + s) / 97, (n + i) / 97;
    assert s - i == 97 * (a - b);
  }

  lemma RingStep(u: seq<int>, start: seq<int>, n: nat)
    requires IsRing(u, start, n)
    ensures IsRing(u[NewSlot(n) := Norm(u[NewSlot(n)] - u[LagSlot(n)])], start, n + 1)
  {
    var i, x := NewSlot(n), Norm(u[NewSlot(n)] - u[LagSlot(n)]);
    assert x == X(start, n + 1);
    var v := u[i := x];
    hide X, NewSlot, LagSlot, Norm;
    forall s | 0 <= s < 97
      ensures v[s] == X(start, n + 1 - (n + 1 + s) % 97)
    {
      CountUp(n + s);
      if (n + s) % 97 == 96 {
        SameSlot(n, s, i);
      }
    }
  }

  lemma RingNewest(u: seq<int>, start: seq<int>, n: nat)
    requires IsRing(u, start, n + 1)
    ensures u[NewSlot(n)] == X(start, n + 1)
  {
    CountUp(n + NewSlot(n));
  }

  // How the counters move.
  lemma SlotsStep(n: nat)
    ensures NewSlot(n + 1) == if NewSlot(n) == 0 then 96 else NewSlot(n) - 1
    ensures LagSlot(n + 1) == if LagSlot(n) == 0 then 96 else LagSlot(n) - 1
  {
    CountUp(n);
    CountUp(31 - n);
  }

  lemma CStep(n: nat)
    ensures C(n + 1) == C(n) - 7654321 + if C(n) < 7654321 then 16777213 else 0
  {
    assert 362436 - (n + 1) * 7654321 == (362436 - n * 7654321) - 7654321;
    CountDown(362436 - n * 7654321);
  }

  lemma CountDown(a: int)
    ensures (a - 7654321) % 16777213 == a % 16777213 - 7654321 + if a % 16777213 < 7654321 then 16777213 else 0
  {
  }

  // ---------- The program ----------

  /** The remainder as C computes it. */
  function Remainder(a: int, b: nat): (r: int)
    requires b > 0
    ensures (if a >= 0 then 0 <= r < b else r <= 0 < r + b) && (a - r) % b == 0
  {
    if a >= 0 then
      NothingLeft(a, b);
      a % b
    else
      NothingLeft(-a, b);
      -(-a % b)
  }

  lemma NothingLeft(a: int, b: int)
    requires b > 0
    ensures (a - a % b) % b == 0 && (a % b - a) % b == 0
  {
    var q := a / b;
    assert a - a % b == b * q && a % b - a == b * -q;
    MultipleOf(b, q);
    MultipleOf(b, -q);
  }

  lemma MultipleOf(b: int, q: int)
    requires b > 0
    ensures (b * q) % b == 0
  {
    var m := b * q;
    assert m == b * (m / b) + m % b;
    MinusOut(b, q, m / b);
    NoMultipleBetween(b, q - m / b, m % b);
  }

  lemma MinusOut(b: int, q: int, d: int)
    ensures b * (q - d) == b * q - b * d
  {
  }

  /** The seeds, or the default ones if they are out of range. */
  function FirstSeeds(ij: int, kl: int): (s: Seeds)
    ensures InRange(s)
  {
    var (ij, kl) := if ij < 0 || ij > 31328 || kl < 0 || kl > 30081 then (1802, 9373) else (ij, kl);
    Seeds(ij / 177 % 177 + 2, ij % 177 + 2, kl / 169 % 178 + 1, kl % 169)
  }

  /** The table made from two seeds. */
  ghost function Table(ij: int, kl: int): seq<int> {
    seq(97, i requires 0 <= i => Digits(Later(FirstSeeds(ij, kl), 24 * i), 24))
  }

  lemma TableInRange(ij: int, kl: int)
    ensures Slots(Table(ij, kl))
  {
    hide Digits, Later, FirstSeeds;
    forall i | 0 <= i < 97
      ensures 0 <= Table(ij, kl)[i] < ONE
    {
      SlotInRange(Later(FirstSeeds(ij, kl), 24 * i));
    }
  }

  // ---------- The table, said without the generator ----------

  /** The product sequence from its first three terms m(-2), m(-1), m(0). */
  ghost function M(i: int, j: int, k: int, t: int): int
    requires t >= -2
    decreases t + 2
  {
    if t == -2 then i else if t == -1 then j else if t == 0 then k
    else M(i, j, k, t - 3) * M(i, j, k, t - 2) * M(i, j, k, t - 1) % 179
  }

  function Power53(t: nat): int {
    if t == 0 then 1 else 53 * Power53(t - 1)
  }

  /** 1 + 53 + ... + 53^(t-1) */
  function Geometric53(t: nat): int {
    if t == 0 then 0 else Geometric53(t - 1) + Power53(t - 1)
  }

  /** The congruential sequence in closed form. */
  function L(l: int, t: nat): int {
    (Power53(t) * l + Geometric53(t)) % 169
  }

  /** The four numbers that two seeds start with. */
  predicate Starts(ij: int, kl: int, i: int, j: int, k: int, l: int) {
    if 0 <= ij <= 31328 && 0 <= kl <= 30081 then
      && ij == 177 * (i - 2) + (j - 2) && 2 <= j <= 178
      && kl == 169 * (k - 1) + l && 0 <= l <= 168
    else i == 12 && j == 34 && k == 56 && l == 78
  }

  /** Digit `d` of slot `s`, the first digit being worth one half. */
  ghost predicate DigitOf(u: int, s: nat, d: nat, i: int, j: int, k: int, l: int)
    requires d < 24
  {
    u / Pow2(23 - d) % 2 == if L(l, 24 * s + d + 1) * M(i, j, k, 24 * s + d + 1) % 64 >= 32 then 1 else 0
  }

  ghost predicate IsTable(u: seq<int>, i: int, j: int, k: int, l: int) {
    && |u| == 97
    && forall s :: 0 <= s < 97 ==> 0 <= u[s] < 0x100_0000 && forall d :: 0 <= d < 24 ==> DigitOf(u[s], s, d, i, j, k, l)
  }

  lemma ProductModulo(a: int, b: int, c: int)
    ensures (a * b % 179) * c % 179 == a * b * c % 179
  {
    var q, r := a * b / 179, a * b % 179;
    assert a * b == 179 * q + r;
    Expand(q, r, c);
    SameModulo(a * b * c, r * c, q * c, 179);
  }

  lemma Expand(q: int, r: int, c: int)
    ensures (179 * q + r) * c == r * c + 179 * (q * c)
  {
  }

  lemma SameModulo(a: int, b: int, q: int, n: nat)
    requires n > 0 && a == b + n * q
    ensures a % n == b % n
  {
    var t := a / n - b / n - q;
    assert n * t == n * (a / n) - n * (b / n) - n * q;
    assert a == n * (a / n) + a % n && b == n * (b / n) + b % n;
    NoMultipleBetween(n, t, b % n - a % n);
  }

  lemma MultipleAtLeast(n: int, t: int)
    requires n > 0
    ensures (t >= 1 ==> n * t >= n) && (t <= -1 ==> n * t <= 0 - n) && n * 0 == 0
  {
  }

  lemma NoMultipleBetween(n: nat, t: int, r: int)
    requires n > 0 && n * t == r && 0 - n < r < n
    ensures r == 0 && t == 0
  {
    MultipleAtLeast(n, t);
  }

  lemma LStep(l: int, t: nat)
    ensures L(l, t + 1) == (53 * L(l, t) + 1) % 169
  {
    hide L;
    LIs(l, t);
    LIs(l, t + 1);
    GeometricOn(t);
    hide Power53, Geometric53;
    var p, g := Power53(t), Geometric53(t);
    var a := p * l + g;
    assert 53 * (p * l) == (53 * p) * l;
    var q := a / 169;
    assert a == 169 * q + a % 169;
    SameModulo((53 * p) * l + (53 * g + 1), 53 * (a % 169) + 1, 53 * q, 169);
  }

  lemma LIs(l: int, t: nat)
    ensures L(l, t) == (Power53(t) * l + Geometric53(t)) % 169
  {
    hide Power53, Geometric53;
  }

  // The sum goes on in front as well as behind.
  lemma {:induction false} GeometricOn(t: nat)
    ensures Power53(t + 1) == 53 * Power53(t) && Geometric53(t + 1) == 53 * Geometric53(t) + 1
  {
    if t > 0 {
      GeometricOn(t - 1);
    }
  }

  /** The generator's state after `t` steps, term by term. */
  lemma {:induction false} LaterIs(s: Seeds, t: nat)
    requires 0 <= s.l <= 168
    ensures Later(s, t) == Seeds(M(s.i, s.j, s.k, t - 2), M(s.i, s.j, s.k, t - 1), M(s.i, s.j, s.k, t), L(s.l, t))
  {
    if t > 0 {
      LaterIs(s, t - 1);
      LStep(s.l, t - 1);
      ProductModulo(M(s.i, s.j, s.k, t - 3), M(s.i, s.j, s.k, t - 2), M(s.i, s.j, s.k, t - 1));
      hide L;
    }
  }

  lemma HalfAgain(a: int, b: int, p: int)
    requires 0 <= b <= 1 && p > 0
    ensures (2 * a + b) / (2 * p) == a / p
  {
    var q, r := a / p, a % p;
    assert a == p * q + r;
    assert 2 * (p * q) == (2 * p) * q;
    assert 2 * a + b == (2 * p) * q + (2 * r + b);
    QuotientIs(2 * a + b, 2 * p, q, 2 * r + b);
  }

  lemma QuotientIs(a: int, n: int, q: int, r: int)
    requires n > 0 && a == n * q + r && 0 <= r < n
    ensures a / n == q
  {
    var t := a / n - q;
    assert n * t == n * (a / n) - n * q;
    assert a == n * (a / n) + a % n;
    NoMultipleBetween(n, t, r - a % n);
  }

  lemma {:induction false} DigitAt(s: Seeds, n: nat, d: nat)
    requires d < n
    ensures Digits(s, n) / Pow2(n - 1 - d) % 2 == if Bit(Later(s, d + 1)) then 1 else 0
    decreases n
  {
    hide *;
    var b := if Bit(Later(s, n)) then 1 else 0;
    StepOn(s, n - 1);
    if d < n - 1 {
      DigitAt(s, n - 1, d);
      StepOn(s, n - 2 - d);
      HalfAgain(Digits(s, n - 1), b, Pow2(n - 2 - d));
    } else {
      StepOn(s, 0);
      LastDigit(Digits(s, n - 1), b);
    }
  }

  lemma LastDigit(a: int, b: int)
    requires 0 <= b <= 1
    ensures (2 * a + b) / 1 % 2 == b
  {
  }

  lemma SeedsFrom(ij: int, kl: int, i: int, j: int, k: int, l: int)
    requires Starts(ij, kl, i, j, k, l)
    ensures FirstSeeds(ij, kl) == Seeds(i, j, k, l)
  {
    if 0 <= ij <= 31328 && 0 <= kl <= 30081 {
      QuotientIs(ij, 177, i - 2, j - 2);
      QuotientIs(kl, 169, k - 1, l);
    }
  }

  lemma SlotDigits(first: Seeds, s: nat)
    requires 0 <= first.l <= 168
    ensures forall d :: 0 <= d < 24 ==>
              DigitOf(Digits(Later(first, 24 * s), 24), s, d, first.i, first.j, first.k, first.l)
  {
    forall d | 0 <= d < 24
      ensures DigitOf(Digits(Later(first, 24 * s), 24), s, d, first.i, first.j, first.k, first.l)
    {
      DigitAt(Later(first, 24 * s), 24, d);
      LaterAdds(first, 24 * s, d + 1);
      LaterIs(first, 24 * s + d + 1);
      hide Later, Digits, M, L, Pow2;
    }
  }

  /** The table the two seeds make. */
  lemma TableDigits(ij: int, kl: int, i: int, j: int, k: int, l: int)
    requires Starts(ij, kl, i, j, k, l)
    ensures IsTable(Table(ij, kl), i, j, k, l)
  {
    var first := Seeds(i, j, k, l);
    SeedsFrom(ij, kl, i, j, k, l);
    TableInRange(ij, kl);
    assert InRange(first);
    hide Starts, Later, Digits, M, L, Pow2, DigitOf;
    forall s | 0 <= s < 97
      ensures forall d :: 0 <= d < 24 ==> DigitOf(Table(ij, kl)[s], s, d, i, j, k, l)
    {
      SlotDigits(first, s);
    }
  }

  class Generator {
    const randU: array<int>
    var randC: int
    var i97: int
    var j97: int
    var test: bool

    ghost var start: seq<int>
    ghost var draws: nat

    ghost predicate Valid()
      reads this, randU
    {
      && randU.Length == 97
      && (test ==>
            && Slots(start) && IsRing(randU[..], start, draws)
            && randC == C(draws) && i97 == NewSlot(draws) + 1 && j97 == LagSlot(draws) + 1)
    }

    constructor ()
      ensures Valid() && !test
    {
      randU := new int[97](_ => 0);
      randC, i97, j97, test, start, draws := 0, 0, 0, false, [], 0;
    }

    method Initialise(ij: int, kl: int)
      requires randU.Length == 97
      modifies this, randU
      ensures Valid() && test && start == Table(ij, kl) && draws == 0
      ensures forall i, j, k, l :: Starts(ij, kl, i, j, k, l) ==> IsTable(randU[..], i, j, k, l)
    {
      FillTable(FirstSeeds(ij, kl));
      TableInRange(ij, kl);
      hide Digits, Later, FirstSeeds, IsRing, C, NewSlot, LagSlot;
      randC, i97, j97, test := 362436, 97, 33, true;
      start, draws := randU[..], 0;
      assert start == Table(ij, kl);
      RingStarts(start);
      hide *;
      forall i, j, k, l | Starts(ij, kl, i, j, k, l)
        ensures IsTable(start, i, j, k, l)
      {
        TableDigits(ij, kl, i, j, k, l);
      }
    }

    // The outer loop: the 97 slots.
    method FillTable(first: Seeds)
      requires randU.Length == 97
      modifies randU
      ensures forall a :: 0 <= a < 97 ==> randU[a] == Digits(Later(first, 24 * a), 24)
    {
      hide Digits, Later;
      var s := first;
      StepOn(s, 0);
      for ii := 0 to 97
        invariant s == Later(first, 24 * ii)
        invariant forall a :: 0 <= a < ii ==> randU[a] == Digits(Later(first, 24 * a), 24)
      {
        var slot;
        slot, s := FillSlot(s);
        LaterAdds(first, 24 * ii, 24);
        randU[ii] := slot;
      }
    }

    // The inner loop: the 24 digits of one slot.
    static method FillSlot(s: Seeds) returns (slot: int, end: Seeds)
      ensures slot == Digits(s, 24) && end == Later(s, 24)
      ensures 0 <= s.l <= 168 ==>
                && (forall d :: 0 <= d < 24 ==> DigitOf(slot, 0, d, s.i, s.j, s.k, s.l))
                && end == Seeds(M(s.i, s.j, s.k, 22), M(s.i, s.j, s.k, 23), M(s.i, s.j, s.k, 24), L(s.l, 24))
    {
      hide Digits, Later, Pow2, M, L, DigitOf;
      slot, end := 0, s;
      var t := 0x80_0000;
      Pow2Of23();
      StepOn(s, 0);
      for jj := 0 to 24
        invariant slot == Digits(s, jj) * Pow2(24 - jj) && end == Later(s, jj)
        invariant jj < 24 ==> t == Pow2(23 - jj)
      {
        SlotStep(s, jj);
        end := Next(end);
        if end.l * end.k % 64 >= 32 {
          slot := slot + t;
        }
        t := t / 2;
      }
      if 0 <= s.l <= 168 {
        assert Digits(s, 24) * Pow2(0) == Digits(s, 24);
        SlotDigits(s, 0);
        assert slot == Digits(Later(s, 24 * 0), 24);
        LaterIs(s, 24);
      }
    }

    method Uniform(random1: int, random2: int) returns (uni: int)
      requires Valid()
      modifies this, randU
      ensures Valid() && test
      ensures if old(test) then start == old(start) && draws == old(draws) + 1
              else start == Table(Remainder(random1, 31329), Remainder(random2, 30082)) && draws == 1
      ensures uni == Drawn(start, draws)
    {
      if !test {
        Initialise(Remainder(random1, 31329), Remainder(random2, 30082));
      }
      uni := Draw();
    }

    // The rest of RandomUniform.
    method Draw() returns (uni: int)
      requires Valid() && test
      modifies this, randU
      ensures Valid() && test && start == old(start) && draws == old(draws) + 1
      ensures uni == Drawn(start, draws)
    {
      CStep(draws);
      assert randC == C(draws);
      hide C, IsRing, NewSlot, LagSlot, X;
      uni := Lag();
      randC := randC - 7654321;
      if randC < 0 {
        randC := randC + 16777213;
      }
      draws := draws + 1;
      uni := uni - randC;
      if uni < 0 {
        uni := uni + ONE;
      }
    }

    // The next number of the lagged sequence.
    method Lag() returns (uni: int)
      requires Valid() && test
      modifies this`i97, this`j97, randU
      ensures uni == X(start, draws + 1) && IsRing(randU[..], start, draws + 1)
      ensures i97 == NewSlot(draws + 1) + 1 && j97 == LagSlot(draws + 1) + 1
    {
      ghost var u := randU[..];
      RingStep(u, start, draws);
      RingNewest(u[NewSlot(draws) := Norm(u[NewSlot(draws)] - u[LagSlot(draws)])], start, draws);
      hide NewSlot, LagSlot, IsRing, X;
      uni := randU[i97 - 1] - randU[j97 - 1];
      if uni <= 0 {
        uni := uni + ONE;
      }
      randU[i97 - 1] := uni;
      assert randU[..] == u[NewSlot(draws) := Norm(u[NewSlot(draws)] - u[LagSlot(draws)])];
      MoveOn();
    }

    // Both places go down by one, round the ring.
    method MoveOn()
      requires i97 == NewSlot(draws) + 1 && j97 == LagSlot(draws) + 1
      modifies this`i97, this`j97
      ensures i97 == NewSlot(draws + 1) + 1 && j97 == LagSlot(draws + 1) + 1
    {
      SlotsStep(draws);
      hide NewSlot, LagSlot;
      i97 := i97 - 1;
      if i97 == 0 {
        i97 := 97;
      }
      j97 := j97 - 1;
      if j97 == 0 {
        j97 := 97;
      }
    }
  }

  lemma {:induction false} LaterAdds(s: Seeds, m: nat, n: nat)
    ensures Later(Later(s, m), n) == Later(s, m + n)
  {
    if n > 0 {
      LaterAdds(s, m, n - 1);
    }
  }
}
