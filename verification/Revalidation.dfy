/**
 Where revalidation is conservative.  It takes `:scope` for true (for false at
 odd parity), which only errs on the safe side, except that it can change what
 an `:nth-*(An+B of ..)` counts.
 */
module Revalidation {
  import opened Wrappers
  import opened Dom
  import opened Syntax
  import opened Semantics
  import opened Matching
  import opened NthIndex
  import opened CacheUse
  import opened Soundness

  /** At even parity: for every `An+B`, what matches is answered true. */
  ghost predicate MissesNothing(ctx: Ctx, list: seq<Selector>, fromEnd: bool, e: nat)
    requires InDoc(ctx.doc, e)
  {
    forall a: I32, b: I32 :: OffsetFits(a, b, |ctx.doc.nodes|) ==>
      var c := ListedNth(list, fromEnd, a, b);
      NthHolds(EnvOf(ctx, Actual), c, e) ==> GenericNth(ctx, c, c.nth, e).True?
  }

  /** At odd parity: for every `An+B`, what does not match is answered false. */
  ghost predicate InventsNothing(ctx: Ctx, list: seq<Selector>, fromEnd: bool, e: nat)
    requires InDoc(ctx.doc, e)
  {
    forall a: I32, b: I32 :: OffsetFits(a, b, |ctx.doc.nodes|) ==>
      var c := ListedNth(list, fromEnd, a, b);
      GenericNth(ctx, c, c.nth, e).True? ==> NthHolds(EnvOf(ctx, Actual), c, e)
  }

  ghost function RealCount(ctx: Ctx, list: seq<Selector>, fromEnd: bool, e: nat): nat
    requires InDoc(ctx.doc, e)
  {
    |CountedSiblings(EnvOf(ctx, Actual), Counting(list), false, fromEnd, e)|
  }

  function CountMade(ctx: Ctx, list: seq<Selector>, fromEnd: bool, e: nat): nat
    requires InDoc(ctx.doc, e)
  {
    CountBeyond(ctx, Counting(list), false, fromEnd, e, e)
  }

  /** The two answers in terms of the two counts. */
  lemma NthByCounts(ctx: Ctx, list: seq<Selector>, fromEnd: bool, a: I32, b: I32, e: nat)
    requires InDoc(ctx.doc, e) && ctx.mode.Revalidation? && list != [] && !ctx.doc.nodes[e].ignoresNth
    requires |ctx.doc.nodes| < 0x8000_0000 && OffsetFits(a, b, |ctx.doc.nodes|)
    ensures var c := ListedNth(list, fromEnd, a, b);
            && (NthHolds(EnvOf(ctx, Actual), c, e) <==>
                SomeHolds(EnvOf(ctx, Actual), list, e) && InProgression(a, b, 1 + RealCount(ctx, list, fromEnd, e)))
            && (GenericNth(ctx, c, c.nth, e).True? <==>
                SelectorList(ctx, list, e).True? && InProgression(a, b, 1 + CountMade(ctx, list, fromEnd, e)))
  {
    var c := ListedNth(list, fromEnd, a, b);
    SameCount(ctx, c, Counting(list), false, fromEnd, e, e, e);
    SameSiblings(EnvOf(ctx, Actual), c, Counting(list), fromEnd, e);
    IndexMatchesCount(ctx, c, c.nth, e);
  }

  lemma SameSiblings(env: Env, c: Component, c': Component, fromEnd: bool, e: nat)
    requires InDoc(env.doc, e) && (c.Nth? || c.NthOf?) && (c'.Nth? || c'.NthOf?) && OfList(c) == OfList(c')
    ensures CountedSiblings(env, c, false, fromEnd, e) == CountedSiblings(env, c', false, fromEnd, e)
  {
  }

  lemma OnlyThatIndex(b: nat, i: nat)
    ensures InProgression(0, b, i) <==> i == b
  {
    assert 0 * 0 + b == b;
  }

  /** A list that matches an element is revalidated conservatively there, for all `An+B`, iff it is counted right. */
  lemma MissesNothingIff(ctx: Ctx, list: seq<Selector>, fromEnd: bool, e: nat)
    requires InDoc(ctx.doc, e) && ctx.mode.Revalidation? && list != [] && !ctx.doc.nodes[e].ignoresNth
    requires |ctx.doc.nodes| < 0x8000_0000 && SomeHolds(EnvOf(ctx, Actual), list, e)
    ensures MissesNothing(ctx, list, fromEnd, e) <==>
            SelectorList(ctx, list, e).True? && CountMade(ctx, list, fromEnd, e) == RealCount(ctx, list, fromEnd, e)
  {
    var made, truth := CountMade(ctx, list, fromEnd, e), RealCount(ctx, list, fromEnd, e);
    if MissesNothing(ctx, list, fromEnd, e) {
      RealIndexInDocument(ctx, list, fromEnd, e);
      var b: I32 := 1 + truth;
      NthByCounts(ctx, list, fromEnd, 0, b, e);
      OnlyThatIndex(b, 1 + truth);
      OnlyThatIndex(b, 1 + made);
      assert OffsetFits(0, b, |ctx.doc.nodes|);
      assert NthHolds(EnvOf(ctx, Actual), ListedNth(list, fromEnd, 0, b), e);
    }
    if SelectorList(ctx, list, e).True? && made == truth {
      forall a: I32, b: I32 | OffsetFits(a, b, |ctx.doc.nodes|)
        ensures var c := ListedNth(list, fromEnd, a, b);
                NthHolds(EnvOf(ctx, Actual), c, e) ==> GenericNth(ctx, c, c.nth, e).True?
      {
        NthByCounts(ctx, list, fromEnd, a, b, e);
      }
    }
  }

  /** And where it seems to match, nothing is invented at odd parity iff it does match and is counted right. */
  lemma InventsNothingIff(ctx: Ctx, list: seq<Selector>, fromEnd: bool, e: nat)
    requires InDoc(ctx.doc, e) && ctx.mode.Revalidation? && list != [] && !ctx.doc.nodes[e].ignoresNth
    requires |ctx.doc.nodes| < 0x8000_0000 && SelectorList(ctx, list, e).True?
    ensures InventsNothing(ctx, list, fromEnd, e) <==>
            && SomeHolds(EnvOf(ctx, Actual), list, e)
            && CountMade(ctx, list, fromEnd, e) == RealCount(ctx, list, fromEnd, e)
  {
    var made, truth := CountMade(ctx, list, fromEnd, e), RealCount(ctx, list, fromEnd, e);
    if InventsNothing(ctx, list, fromEnd, e) {
      IndexInDocument(ctx, Counting(list), false, fromEnd, e, e);
      var b: I32 := 1 + made;
      NthByCounts(ctx, list, fromEnd, 0, b, e);
      OnlyThatIndex(b, 1 + truth);
      OnlyThatIndex(b, 1 + made);
      assert OffsetFits(0, b, |ctx.doc.nodes|);
      assert NthHolds(EnvOf(ctx, Actual), ListedNth(list, fromEnd, 0, b), e);
    }
    if SomeHolds(EnvOf(ctx, Actual), list, e) && made == truth {
      forall a: I32, b: I32 | OffsetFits(a, b, |ctx.doc.nodes|)
        ensures var c := ListedNth(list, fromEnd, a, b);
                GenericNth(ctx, c, c.nth, e).True? ==> NthHolds(EnvOf(ctx, Actual), c, e)
      {
        NthByCounts(ctx, list, fromEnd, a, b, e);
      }
    }
  }

  lemma RealIndexInDocument(ctx: Ctx, list: seq<Selector>, fromEnd: bool, e: nat)
    requires InDoc(ctx.doc, e)
    ensures RealCount(ctx, list, fromEnd, e) < |ctx.doc.nodes|
  {
    var counted := CountedSiblings(EnvOf(ctx, Actual), Counting(list), false, fromEnd, e);
    if e in counted {
      BeyondStep(ctx.doc, fromEnd, e, e);
    }
    SetBelow(counted + {e}, |ctx.doc.nodes|);
  }

  lemma {:induction false} SetBelow(s: set<nat>, n: nat)
    requires forall x :: x in s ==> x < n
    ensures |s| <= n
  {
    if n > 0 {
      SetBelow(s - {n - 1}, n - 1);
    }
  }

  // ---------- Lists without `:scope` are counted right ----------

  lemma {:induction false} TrulyWithoutScope(ctx: Ctx, s: seq<Component>)
    requires ctx.mode.Revalidation? && Everywhere(CountsWithoutScope, s) && Everywhere(Regular(|ctx.doc.nodes|), s)
    ensures CountsTruly(ctx, s)
    decreases s, 0
  {
    forall i | 0 <= i < |s|
      ensures CountsTrulyIn(ctx, s[i])
    {
      ComponentTrulyWithoutScope(ctx, s[i]);
    }
  }

  lemma {:induction false} ComponentTrulyWithoutScope(ctx: Ctx, c: Component)
    requires ctx.mode.Revalidation? && EverywhereIn(CountsWithoutScope, c) && EverywhereIn(Regular(|ctx.doc.nodes|), c)
    ensures CountsTrulyIn(ctx, c)
    decreases c, 0
  {
    match c {
      case NthOf(_, of) =>
        ListTrulyWithoutScope(ctx, of);
        forall e, fromEnd | 0 <= e < |ctx.doc.nodes|
          ensures CountsTrulyAt(ctx, c, fromEnd, e)
        {
          CountIsSound(ctx, EnvOf(ctx, Actual), c, false, fromEnd, e);
        }
      case Is(list) => ListTrulyWithoutScope(ctx, list);
      case Where(list) => ListTrulyWithoutScope(ctx, list);
      case Negation(list) => ListTrulyWithoutScope(ctx.(inNegation := !ctx.inNegation), list);
      case Has(relatives) =>
        forall i | 0 <= i < |relatives|
          ensures CountsTrulyInRelative(ctx, relatives[i])
        {
          assert EverywhereInRelative(CountsWithoutScope, relatives[i]);
          assert EverywhereInRelative(Regular(|ctx.doc.nodes|), relatives[i]);
          forall e: nat
            ensures CountsTruly(ctx.(anchor := Some(e)), relatives[i].selector.comps)
          {
            TrulyWithoutScope(ctx.(anchor := Some(e)), relatives[i].selector.comps);
          }
        }
      case _ =>
    }
  }

  lemma {:induction false} ListTrulyWithoutScope(ctx: Ctx, list: seq<Selector>)
    requires ctx.mode.Revalidation? && EverywhereInList(CountsWithoutScope, list)
    requires EverywhereInList(Regular(|ctx.doc.nodes|), list)
    ensures CountsTrulyInList(ctx, list)
    decreases list, 0
  {
    forall i | 0 <= i < |list|
      ensures CountsTruly(ctx, list[i].comps)
    {
      TrulyWithoutScope(ctx, list[i].comps);
    }
  }
}
