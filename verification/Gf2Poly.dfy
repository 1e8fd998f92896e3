/**
 Polynomials over GF(2), as the sets of exponents whose coefficient is one.
 */
module Gf2Poly {

  type Poly = set<nat>

  function Add(p: Poly, q: Poly): Poly {
    (p - q) + (q - p)
  }

  /** p * x^k */
  function Shift(p: Poly, k: nat): Poly {
    set e | e in p :: e + k
  }

  /** The product of `p` and the sum of x^t over the listed terms. */
  function Mul(p: Poly, terms: seq<nat>): Poly {
    if terms == [] then {} else Add(Shift(p, terms[0]), Mul(p, terms[1..]))
  }

  ghost predicate DegreeBelow(p: Poly, n: nat) {
    forall e :: e in p ==> e < n
  }

  // The generator x^16 + x^12 + x^5 + 1, as a list of terms and as a polynomial.
  const G_TERMS: seq<nat> := [16, 12, 5, 0]
  const G: Poly := {16, 12, 5, 0}

  /** `r` is the remainder of `m` divided by the generator. */
  ghost predicate IsRemainder(r: Poly, m: Poly) {
    DegreeBelow(r, 16) && exists q :: Quotient(q, r, m)
  }

  ghost predicate Quotient(q: Poly, r: Poly, m: Poly) {
    m == Add(Mul(q, G_TERMS), r)
  }

  lemma AddAt(p: Poly, q: Poly, e: nat)
    ensures e in Add(p, q) <==> (e in p) != (e in q)
  {
  }

  lemma AddAssociates(p: Poly, q: Poly, r: Poly)
    ensures Add(Add(p, q), r) == Add(p, Add(q, r))
  {
  }

  lemma AddCommutes(p: Poly, q: Poly)
    ensures Add(p, q) == Add(q, p)
  {
  }

  lemma AddExchange(p: Poly, q: Poly, r: Poly, s: Poly)
    ensures Add(Add(p, q), Add(r, s)) == Add(Add(p, r), Add(q, s))
  {
    hide Add;
    AddAssociates(p, q, Add(r, s));
    AddAssociates(q, r, s);
    AddCommutes(q, r);
    AddAssociates(r, q, s);
    AddAssociates(p, r, Add(q, s));
  }

  lemma AddZero(p: Poly)
    ensures Add(p, {}) == p && Add({}, p) == p && Add(p, p) == {}
  {
  }

  lemma ShiftMembers(p: Poly, k: nat)
    ensures forall e: nat :: e in Shift(p, k) <==> e >= k && e - k in p
  {
    forall e: nat
      ensures e in Shift(p, k) <==> e >= k && e - k in p
    {
      if e >= k && e - k in p {
        assert (e - k) + k == e;
      }
    }
  }

  lemma ShiftZero(p: Poly)
    ensures Shift(p, 0) == p
  {
    ShiftMembers(p, 0);
    hide Shift;
  }

  lemma ShiftAdd(p: Poly, q: Poly, k: nat)
    ensures Shift(Add(p, q), k) == Add(Shift(p, k), Shift(q, k))
  {
    hide Shift;
    ShiftMembers(Add(p, q), k);
    ShiftMembers(p, k);
    ShiftMembers(q, k);
  }

  lemma ShiftShift(p: Poly, j: nat, k: nat)
    ensures Shift(Shift(p, j), k) == Shift(p, j + k)
  {
    hide Shift;
    ShiftMembers(p, j);
    ShiftMembers(Shift(p, j), k);
    ShiftMembers(p, j + k);
  }

  lemma {:induction false} MulAdd(p: Poly, q: Poly, terms: seq<nat>)
    ensures Mul(Add(p, q), terms) == Add(Mul(p, terms), Mul(q, terms))
  {
    hide Shift, Add;
    if terms == [] {
      AddZero({});
    } else {
      var p0, q0, p1, q1 := Shift(p, terms[0]), Shift(q, terms[0]), Mul(p, terms[1..]), Mul(q, terms[1..]);
      MulAdd(p, q, terms[1..]);
      ShiftAdd(p, q, terms[0]);
      AddExchange(p0, q0, p1, q1);
    }
  }

  lemma {:induction false} MulShift(p: Poly, k: nat, terms: seq<nat>)
    ensures Mul(Shift(p, k), terms) == Shift(Mul(p, terms), k)
  {
    if terms == [] {
      ShiftMembers({}, k);
    } else {
      hide Shift, Add;
      MulShift(p, k, terms[1..]);
      ShiftAdd(Shift(p, terms[0]), Mul(p, terms[1..]), k);
      ShiftShift(p, k, terms[0]);
      ShiftShift(p, terms[0], k);
    }
  }

  lemma MulOne(p: Poly)
    ensures Mul(p, [0]) == p
  {
    hide Shift;
    assert Mul(p, [0]) == Add(Shift(p, 0), Mul(p, [0][1..]));
    ShiftZero(p);
  }

  // Multiplication by the generator, term by term.
  lemma MulGenerator(p: Poly)
    ensures Mul(p, G_TERMS) == Add(Shift(p, 16), Add(Shift(p, 12), Add(Shift(p, 5), p)))
  {
    hide Shift, Add;
    calc {
      Mul(p, G_TERMS);
      { assert G_TERMS[1..] == [12, 5, 0]; }
      Add(Shift(p, 16), Mul(p, [12, 5, 0]));
      { assert [12, 5, 0][1..] == [5, 0]; }
      Add(Shift(p, 16), Add(Shift(p, 12), Mul(p, [5, 0])));
      { assert [5, 0][1..] == [0]; }
      Add(Shift(p, 16), Add(Shift(p, 12), Add(Shift(p, 5), Mul(p, [0]))));
      { MulOne(p); }
      Add(Shift(p, 16), Add(Shift(p, 12), Add(Shift(p, 5), p)));
    }
  }

  // ... and coefficient by coefficient.
  lemma MulGeneratorAt(p: Poly, e: nat)
    ensures e in Mul(p, G_TERMS) <==>
      ((e >= 16 && e - 16 in p) != ((e >= 12 && e - 12 in p) != ((e >= 5 && e - 5 in p) != (e in p))))
  {
    hide Shift, Mul, Add;
    MulGenerator(p);
    AddAt(Shift(p, 16), Add(Shift(p, 12), Add(Shift(p, 5), p)), e);
    AddAt(Shift(p, 12), Add(Shift(p, 5), p), e);
    AddAt(Shift(p, 5), p, e);
    ShiftMembers(p, 16);
    ShiftMembers(p, 12);
    ShiftMembers(p, 5);
  }

  lemma MulNothing()
    ensures Mul({}, G_TERMS) == {}
  {
    forall e: nat
      ensures e !in Mul({}, G_TERMS)
    {
      MulGeneratorAt({}, e);
    }
  }

  lemma OneTimesGenerator()
    ensures Mul({0}, G_TERMS) == G
  {
    hide Mul;
    forall e: nat
      ensures e in Mul({0}, G_TERMS) <==> e in G
    {
      MulGeneratorAt({0}, e);
    }
  }

  lemma {:induction false} Extremes(p: Poly) returns (lo: nat, hi: nat)
    requires p != {}
    ensures lo in p && hi in p
    ensures forall e :: e in p ==> lo <= e <= hi
  {
    var x :| x in p;
    if p == {x} {
      lo, hi := x, x;
    } else {
      var rest := p - {x};
      var l, h := Extremes(rest);
      lo, hi := if x < l then x else l, if x > h then x else h;
      forall e | e in p
        ensures lo <= e <= hi
      {
        assert e == x || e in rest;
      }
    }
  }

  /** A nonzero multiple of the generator spans more than sixteen exponents. */
  lemma MultipleSpan(q: Poly) returns (lo: nat, hi: nat)
    requires q != {}
    ensures lo in Mul(q, G_TERMS) && hi in Mul(q, G_TERMS) && hi >= lo + 16
  {
    hide Mul;
    var first, last := Extremes(q);
    lo, hi := first, last + 16;
    MulGeneratorAt(q, lo);
    MulGeneratorAt(q, hi);
  }

  lemma AddCancels(a: Poly, b: Poly, r: Poly, s: Poly)
    requires Add(a, r) == Add(b, s)
    ensures Add(a, b) == Add(r, s)
  {
    forall e: nat
      ensures e in Add(a, b) <==> e in Add(r, s)
    {
      assert e in Add(a, r) <==> e in Add(b, s);
    }
  }

  /** Division by the generator has only one remainder. */
  lemma RemainderUnique(r: Poly, s: Poly, m: Poly)
    requires IsRemainder(r, m) && IsRemainder(s, m)
    ensures r == s
  {
    hide Mul;
    var a :| Quotient(a, r, m);
    var b :| Quotient(b, s, m);
    AddCancels(Mul(a, G_TERMS), Mul(b, G_TERMS), r, s);
    MulAdd(a, b, G_TERMS);
    if Add(a, b) != {} {
      var lo, hi := MultipleSpan(Add(a, b));
      assert false;
    }
    MulNothing();
    assert Add(r, s) == {};
  }
}
