/** The arithmetic of `:nth-*()`: `An+B` in 32 bits, and the index as a number of siblings. */
module NthIndex {
  import opened Dom
  import opened Syntax
  import opened Semantics
  import opened Matching

  /** A multiple of `a` that is smaller than `a` is zero. */
  lemma SmallMultiple(a: int, k: int)
    requires a != 0
    requires if a > 0 then -a < a * k < a else a < a * k < -a
    ensures k == 0
  {
  }

  lemma ExactQuotient(a: int, n: int, x: int)
    requires a != 0 && a * n == x
    ensures x / a == n && x % a == 0
  {
    var q, r := x / a, x % a;
    assert x == a * q + r;
    assert a * (n - q) == a * n - a * q == r;
    SmallMultiple(a, n - q);
  }

  /** While the subtraction does not overflow, truncating division decides membership in the progression. */
  lemma MatchesIndexIsExact(a: I32, b: I32, i: int)
    requires i >= 1
    requires i - b < 0x8000_0000
    ensures MatchesIndex(a, b, i) <==> InProgression(a, b, i)
  {
    var an := i - b;
    if MatchesIndex(a, b, i) {
      var n: nat := if a == 0 then 0 else TruncatingDiv(an, a);
      assert a * n + b == i;
    }
    if InProgression(a, b, i) {
      var n: nat :| a * n + b == i;
      ProgressionQuotient(a, n, an);
    }
  }

  lemma ProgressionQuotient(a: int, n: nat, an: int)
    requires a * n == an
    ensures if a == 0 then an == 0 else TruncatingDiv(an, a) == n
  {
    if a != 0 {
      ExactQuotient(a, n, an);
      var minusN := 0 - n;
      assert a * minusN == -an;
      ExactQuotient(a, minusN, -an);
    }
  }

  /** The subtraction fits, or no positive step divides the distance. */
  predicate OffsetFitsAt(a: int, b: int, i: int) {
    i - b < 0x8000_0000 || a <= 0 || (i - b) % a != 0
  }

  /** So it does for every index up to `size`. */
  predicate OffsetFits(a: int, b: int, size: nat) {
    forall i :: 1 <= i <= size ==> OffsetFitsAt(a, b, i)
  }

  /** The only inputs with a wrong answer: the checked subtraction overflows although the step divides the distance. */
  lemma MatchesIndexIsExactIff(a: I32, b: I32, i: I32)
    requires i >= 1
    ensures (MatchesIndex(a, b, i) <==> InProgression(a, b, i)) <==> OffsetFitsAt(a, b, i)
  {
    var an := i - b;
    if an < 0x8000_0000 {
      MatchesIndexIsExact(a, b, i);
    } else {
      assert !MatchesIndex(a, b, i);
      if a > 0 && an % a == 0 {
        var n: nat := an / a;
        assert a * n + b == i;
      }
      if InProgression(a, b, i) {
        var n: nat :| a * n + b == i;
        if a > 0 {
          ExactQuotient(a, n, an);
        } else {
          NonPositiveProduct(a, n);
        }
      }
    }
  }

  /** `:nth-child(n-2147483648)` should match every first child, and matches none. */
  lemma OffsetOverflows()
    ensures InProgression(1, -0x8000_0000, 1) && !MatchesIndex(1, -0x8000_0000, 1)
  {
    assert 1 * 0x8000_0001 + -0x8000_0000 == 1;
  }

  /** No intermediate value leaves 32 bits: neither the quotient nor its product with the step. */
  lemma NoIntermediateOverflow(a: I32, b: I32, i: I32)
    requires i >= 1 && a != 0 && i - b < 0x8000_0000
    ensures var n := TruncatingDiv(i - b, a);
            -0x8000_0000 <= n < 0x8000_0000 && -0x8000_0000 <= a * n < 0x8000_0000
  {
    var an := i - b;
    var x := if an >= 0 then an else -an;
    QuotientBound(x, a);
    NegatedProduct(a, x / a);
  }

  lemma NegatedProduct(a: int, q: int)
    ensures a * -q == -(a * q)
  {
  }

  lemma NonPositiveProduct(a: int, n: nat)
    requires a <= 0
    ensures a * n <= 0
  {
  }

  lemma QuotientBound(x: int, a: int)
    requires x >= 0 && a != 0
    ensures -x <= x / a <= x
    ensures 0 <= a * (x / a) <= x
  {
    var q, r := x / a, x % a;
    assert x == a * q + r && 0 <= r < if a > 0 then a else -a;
    var b, p := if a > 0 then a else -a, if a > 0 then q else -q;
    assert a * q == b * p;
    PositiveQuotientBound(x, b, p, r);
  }

  lemma PositiveQuotientBound(x: int, b: int, p: int, r: int)
    requires x >= 0 && b > 0 && x == b * p + r && 0 <= r < b
    ensures 0 <= p <= x && 0 <= b * p <= x
  {
  }

  /** The siblings strictly beyond `cur`. */
  predicate Beyond(d: Doc, fromEnd: bool, cur: nat, f: nat)
    requires InDoc(d, cur) && InDoc(d, f)
  {
    if fromEnd then EarlierSibling(d, cur, f) else EarlierSibling(d, f, cur)
  }

  lemma BeyondStep(d: Doc, fromEnd: bool, cur: nat, f: nat)
    requires InDoc(d, cur) && InDoc(d, f)
    ensures Beyond(d, fromEnd, cur, f) <==>
            var n := Step(d, fromEnd, cur); n.Some? && (f == n.value || Beyond(d, fromEnd, n.value, f))
    ensures Beyond(d, fromEnd, cur, f) ==> if fromEnd then cur < f else f < cur
  {
    if fromEnd {
      LaterFromNext(d, cur, f);
      if EarlierSibling(d, cur, f) { EarlierSiblingInDoc(d, cur, f); }
    } else if EarlierSibling(d, f, cur) {
      EarlierSiblingInDoc(d, f, cur);
    }
  }

  ghost function CountedBeyond(ctx: Ctx, c: Component, ofType: bool, fromEnd: bool, e: nat, cur: nat): set<nat>
    requires InDoc(ctx.doc, e) && InDoc(ctx.doc, cur) && (c.Nth? || c.NthOf?)
  {
    set f | 0 <= f < |ctx.doc.nodes| && Beyond(ctx.doc, fromEnd, cur, f) && Counts(ctx, c, ofType, e, f)
  }

  lemma CountedStep(ctx: Ctx, c: Component, ofType: bool, fromEnd: bool, e: nat, cur: nat)
    requires InDoc(ctx.doc, e) && InDoc(ctx.doc, cur) && (c.Nth? || c.NthOf?)
    ensures Step(ctx.doc, fromEnd, cur).None? ==> CountedBeyond(ctx, c, ofType, fromEnd, e, cur) == {}
    ensures Step(ctx.doc, fromEnd, cur).Some? ==>
              var n := Step(ctx.doc, fromEnd, cur).value;
              var rest := CountedBeyond(ctx, c, ofType, fromEnd, e, n);
              && n !in rest
              && CountedBeyond(ctx, c, ofType, fromEnd, e, cur)
                 == if Counts(ctx, c, ofType, e, n) then rest + {n} else rest
  {
    forall f | 0 <= f < |ctx.doc.nodes|
      ensures Beyond(ctx.doc, fromEnd, cur, f) <==>
              var n := Step(ctx.doc, fromEnd, cur); n.Some? && (f == n.value || Beyond(ctx.doc, fromEnd, n.value, f))
    {
      BeyondStep(ctx.doc, fromEnd, cur, f);
    }
    if Step(ctx.doc, fromEnd, cur).Some? {
      var n := Step(ctx.doc, fromEnd, cur).value;
      BeyondStep(ctx.doc, fromEnd, n, n);
    }
  }

  /** The walk over the siblings counts them. */
  lemma {:induction false} CountIsCardinality(ctx: Ctx, c: Component, ofType: bool, fromEnd: bool, e: nat, cur: nat)
    requires InDoc(ctx.doc, e) && InDoc(ctx.doc, cur) && (c.Nth? || c.NthOf?)
    ensures CountBeyond(ctx, c, ofType, fromEnd, e, cur) == |CountedBeyond(ctx, c, ofType, fromEnd, e, cur)|
    decreases if fromEnd then |ctx.doc.nodes| - cur else cur
  {
    CountedStep(ctx, c, ofType, fromEnd, e, cur);
    match Step(ctx.doc, fromEnd, cur) {
      case None =>
      case Some(n) => CountIsCardinality(ctx, c, ofType, fromEnd, e, n);
    }
  }
}
