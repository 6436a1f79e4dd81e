/**
 The matcher against the meaning of selectors.

 One induction over the matcher covers the four modes.  `noIsNo` asks that an
 answer of False be right, `yesIsYes` that an answer of True be right; a
 negation swaps the two.  Normal and comparison matching promise both,
 invalidation promises the first at even and the second at odd parity of the
 enclosing `:not()`s.
 */
module Soundness {
  import opened Wrappers
  import opened Dom
  import opened Syntax
  import opened Kleene
  import opened Semantics
  import opened Matching
  import opened RelativeHint
  import opened HasSearch
  import opened NthIndex

  predicate NotScope(c: Component) { !c.Scope? && !c.ImplicitScope? }

  ghost predicate CountsWithoutScope(c: Component) {
    c.NthOf? ==> EverywhereInList(NotScope, c.of)
  }

  /** What the parser guarantees, and that every index in a document of `size` elements is judged rightly by `An+B`. */
  ghost function Regular(size: nat): Component -> bool {
    (c: Component) =>
      && (c.Nth? || c.NthOf? ==> size < 0x8000_0000 && OffsetFits(c.nth.a, c.nth.b, size))
      && (c.Has? ==> forall i :: 0 <= i < |c.relatives| ==> WellFormedRelative(c.relatives[i]))
  }

  /** The meaning that the answer of `ctx` is about. */
  function EnvOf(ctx: Ctx, reading: Reading): Env {
    Env(ctx.doc, ctx.scope, ctx.anchor, AsScope, reading)
  }

  // ---------- Where revalidation counts right ----------

  /** As many siblings are counted as there really are to count. */
  ghost predicate CountsTrulyAt(ctx: Ctx, c: Component, fromEnd: bool, e: nat)
    requires InDoc(ctx.doc, e) && c.NthOf?
  {
    CountBeyond(ctx, c, false, fromEnd, e, e) == |CountedSiblings(EnvOf(ctx, Actual), c, false, fromEnd, e)|
  }

  /**
   The elements whose index matters: at even parity those that the list matches, at odd parity those that
   it seems to match.
   */
  ghost predicate IsIndexed(ctx: Ctx, list: seq<Selector>, e: nat)
    requires InDoc(ctx.doc, e)
  {
    && !ctx.doc.nodes[e].ignoresNth
    && if ctx.inNegation then SelectorList(ctx, list, e).ToBool(true) else SomeHolds(EnvOf(ctx, Actual), list, e)
  }

  /** The side or sides of an element on which `c` counts by its list. */
  predicate CountsByList(c: Component, fromEnd: bool)
    requires c.NthOf?
  {
    !c.nth.ty.IsOfType() && (c.nth.ty.IsOnly() || fromEnd == c.nth.ty.IsFromEnd())
  }

  /** All counts in `s` are true, in the contexts that they are made in. */
  ghost predicate CountsTruly(ctx: Ctx, s: seq<Component>)
    decreases s, 0
  {
    forall i :: 0 <= i < |s| ==> CountsTrulyIn(ctx, s[i])
  }

  ghost predicate CountsTrulyIn(ctx: Ctx, c: Component)
    decreases c, 0
  {
    match c
    case NthOf(_, of) =>
      && CountsTrulyInList(ctx, of)
      && (forall e, fromEnd | 0 <= e < |ctx.doc.nodes| && IsIndexed(ctx, of, e) && CountsByList(c, fromEnd) ::
            CountsTrulyAt(ctx, c, fromEnd, e))
    case Is(list) => CountsTrulyInList(ctx, list)
    case Where(list) => CountsTrulyInList(ctx, list)
    case Negation(list) => CountsTrulyInList(ctx.(inNegation := !ctx.inNegation), list)
    case Has(relatives) =>
      ctx.anchor.None? ==> forall i :: 0 <= i < |relatives| ==> CountsTrulyInRelative(ctx, relatives[i])
    case _ => true
  }

  ghost predicate CountsTrulyInRelative(ctx: Ctx, relative: RelativeSelector)
    decreases relative, 0
  {
    forall e: nat :: CountsTruly(ctx.(anchor := Some(e)), relative.selector.comps)
  }

  ghost predicate CountsTrulyInList(ctx: Ctx, list: seq<Selector>)
    decreases list, 0
  {
    forall i :: 0 <= i < |list| ==> CountsTruly(ctx, list[i].comps)
  }

  /** The document of `ctx`, its scope and anchor are those of `env`; what is computed is read as it is. */
  ghost predicate Agree(ctx: Ctx, env: Env) {
    && env.doc == ctx.doc && env.scope == ctx.scope && env.anchor == ctx.anchor
    && env.ampersand.AsScope?
    && (!ctx.mode.IsForInvalidation() ==> env.reading.Actual?)
  }

  /** By mode and parity, the promises that hold of every selector. */
  predicate Promised(ctx: Ctx, noIsNo: bool, yesIsYes: bool) {
    || ctx.mode.Normal? || ctx.mode.Comparison?
    || ((noIsNo ==> !ctx.inNegation) && (yesIsYes ==> ctx.inNegation))
  }

  /**
   Indices are judged and hints followed in the computing modes only.  Without `:scope` revalidation
   computes everything; otherwise the counts it makes must be true.
   */
  ghost predicate Allowed(ctx: Ctx, c: Component, noIsNo: bool, yesIsYes: bool) {
    && (!ctx.mode.IsForInvalidation() ==> EverywhereIn(Regular(|ctx.doc.nodes|), c))
    && (|| (ctx.mode.Revalidation? && EverywhereIn(NotScope, c))
        || (Promised(ctx, noIsNo, yesIsYes) && (ctx.mode.Revalidation? ==> CountsTrulyIn(ctx, c))))
  }

  ghost predicate AllowedAll(ctx: Ctx, s: seq<Component>, noIsNo: bool, yesIsYes: bool) {
    && (!ctx.mode.IsForInvalidation() ==> Everywhere(Regular(|ctx.doc.nodes|), s))
    && (|| (ctx.mode.Revalidation? && Everywhere(NotScope, s))
        || (Promised(ctx, noIsNo, yesIsYes) && (ctx.mode.Revalidation? ==> CountsTruly(ctx, s))))
  }

  ghost predicate AllowedList(ctx: Ctx, list: seq<Selector>, noIsNo: bool, yesIsYes: bool) {
    && (!ctx.mode.IsForInvalidation() ==> EverywhereInList(Regular(|ctx.doc.nodes|), list))
    && (|| (ctx.mode.Revalidation? && EverywhereInList(NotScope, list))
        || (Promised(ctx, noIsNo, yesIsYes) && (ctx.mode.Revalidation? ==> CountsTrulyInList(ctx, list))))
  }

  ghost predicate AllowedRelatives(ctx: Ctx, relatives: seq<RelativeSelector>, noIsNo: bool, yesIsYes: bool) {
    forall i :: 0 <= i < |relatives| ==>
      && (!ctx.mode.IsForInvalidation() ==> WellFormedRelative(relatives[i]))
      && AllowedAll(ctx, relatives[i].selector.comps, noIsNo, yesIsYes)
  }

  /** The answer keeps the promises. */
  predicate Sound(k: KleeneValue, truth: bool, noIsNo: bool, yesIsYes: bool) {
    && (noIsNo && k.False? ==> !truth)
    && (yesIsYes && k.True? ==> truth)
  }

  /** Some element to the left of combinator `c` matches `rest`. */
  ghost predicate Continues(env: Env, c: Combinator, rest: seq<Component>, e: nat)
    requires InDoc(env.doc, e)
  {
    exists f :: 0 <= f < |env.doc.nodes| && Related(env.doc, c, e, f) && Matches(env, rest, f)
  }

  lemma {:induction false} SimpleIsSound(ctx: Ctx, env: Env, c: Component, e: nat, noIsNo: bool, yesIsYes: bool)
    requires InDoc(ctx.doc, e) && Agree(ctx, env) && Allowed(ctx, c, noIsNo, yesIsYes)
    ensures Sound(Simple(ctx, c, e), SimpleHolds(env, c, e), noIsNo, yesIsYes)
    decreases c, 6
  {
    AllowedArguments(ctx, c, noIsNo, yesIsYes);
    match c {
      case Is(list) => ListIsSound(ctx, env, list, e, noIsNo, yesIsYes);
      case Where(list) => ListIsSound(ctx, env, list, e, noIsNo, yesIsYes);
      case Negation(list) => ListIsSound(ctx.(inNegation := !ctx.inNegation), env, list, e, yesIsYes, noIsNo);
      case Nth(_) => NthIsSound(ctx, env, c, e, noIsNo, yesIsYes);
      case NthOf(_, _) => NthIsSound(ctx, env, c, e, noIsNo, yesIsYes);
      case Has(relatives) =>
        if ctx.anchor.None? && !ctx.mode.IsForInvalidation() {
          RelativesAreSound(ctx.(anchor := Some(e)), env.(anchor := Some(e)), relatives, e, noIsNo, yesIsYes);
        }
      case _ =>
    }
  }

  lemma AllowedArguments(ctx: Ctx, c: Component, noIsNo: bool, yesIsYes: bool)
    requires Allowed(ctx, c, noIsNo, yesIsYes)
    ensures c.Is? || c.Where? ==> AllowedList(ctx, c.list, noIsNo, yesIsYes)
    ensures c.Negation? ==> AllowedList(ctx.(inNegation := !ctx.inNegation), c.list, yesIsYes, noIsNo)
    ensures c.NthOf? ==> AllowedList(ctx, c.of, noIsNo, yesIsYes)
    ensures c.NthOf? && (ctx.mode.Normal? || (ctx.mode.Revalidation? && EverywhereIn(NotScope, c))) ==>
              AllowedList(ctx, c.of, true, true)
    ensures c.Has? && ctx.anchor.None? ==>
              forall e :: AllowedRelatives(ctx.(anchor := Some(e)), c.relatives, noIsNo, yesIsYes)
  {
    if c.Has? && ctx.anchor.None? {
      forall e
        ensures AllowedRelatives(ctx.(anchor := Some(e)), c.relatives, noIsNo, yesIsYes)
      {
        forall i | 0 <= i < |c.relatives|
          ensures !ctx.mode.IsForInvalidation() ==> WellFormedRelative(c.relatives[i])
          ensures AllowedAll(ctx.(anchor := Some(e)), c.relatives[i].selector.comps, noIsNo, yesIsYes)
        {
          AllowedInHas(ctx, c, i, e, noIsNo, yesIsYes);
        }
      }
    }
  }

  lemma AllowedInHas(ctx: Ctx, c: Component, i: nat, e: nat, noIsNo: bool, yesIsYes: bool)
    requires c.Has? && ctx.anchor.None? && i < |c.relatives| && Allowed(ctx, c, noIsNo, yesIsYes)
    ensures !ctx.mode.IsForInvalidation() ==> WellFormedRelative(c.relatives[i])
    ensures AllowedAll(ctx.(anchor := Some(e)), c.relatives[i].selector.comps, noIsNo, yesIsYes)
  {
    assert EverywhereIn(Regular(|ctx.doc.nodes|), c) ==>
             EverywhereInRelative(Regular(|ctx.doc.nodes|), c.relatives[i]);
    assert EverywhereIn(NotScope, c) ==> EverywhereInRelative(NotScope, c.relatives[i]);
    assert CountsTrulyIn(ctx, c) ==> CountsTrulyInRelative(ctx, c.relatives[i]);
  }

  lemma {:induction false} CompoundIsSound(ctx: Ctx, env: Env, s: seq<Component>, e: nat, noIsNo: bool, yesIsYes: bool)
    requires InDoc(ctx.doc, e) && Agree(ctx, env) && AllowedAll(ctx, s, noIsNo, yesIsYes)
    ensures Sound(Compound(ctx, s, e), CompoundHolds(env, s, e), noIsNo, yesIsYes)
    decreases s, 0
  {
    if s != [] && !s[0].Combinator? {
      SimpleIsSound(ctx, env, s[0], e, noIsNo, yesIsYes);
      CompoundIsSound(ctx, env, s[1..], e, noIsNo, yesIsYes);
      CompoundLengthStep(s);
      assert CompoundHolds(env, s, e) <==> SimpleHolds(env, s[0], e) && CompoundHolds(env, s[1..], e) by {
        CompoundStep(env, s, e);
      }
    }
  }

  lemma CompoundStep(env: Env, s: seq<Component>, e: nat)
    requires InDoc(env.doc, e) && s != [] && !s[0].Combinator?
    ensures CompoundHolds(env, s, e) <==> SimpleHolds(env, s[0], e) && CompoundHolds(env, s[1..], e)
  {
  }

  lemma {:induction false} ListIsSound(ctx: Ctx, env: Env, list: seq<Selector>, e: nat, noIsNo: bool, yesIsYes: bool)
    requires InDoc(ctx.doc, e) && Agree(ctx, env) && AllowedList(ctx, list, noIsNo, yesIsYes)
    ensures Sound(SelectorList(ctx, list, e), SomeHolds(env, list, e), noIsNo, yesIsYes)
    decreases list, 0
  {
    if list != [] {
      ComplexIsSound(ctx, env, list[0].comps, e, noIsNo, yesIsYes);
      ListIsSound(ctx, env, list[1..], e, noIsNo, yesIsYes);
      SomeStep(env, list, e);
    }
  }

  lemma SomeStep(env: Env, list: seq<Selector>, e: nat)
    requires InDoc(env.doc, e) && list != []
    ensures SomeHolds(env, list, e) <==> Matches(env, list[0].comps, e) || SomeHolds(env, list[1..], e)
  {
  }

  /**
   Backtracking with pruning, for every selector and element: success means that
   the selector matches, failure that it does not; besides, restarting from the
   closest descendant combinator means that no earlier sibling matches either,
   and a global failure that nothing reached by parent and sibling steps does.
   */
  lemma {:induction false} ComplexIsSound(ctx: Ctx, env: Env, s: seq<Component>, e: nat, noIsNo: bool, yesIsYes: bool)
    requires InDoc(ctx.doc, e) && Agree(ctx, env) && AllowedAll(ctx, s, noIsNo, yesIsYes)
    ensures Sound(Complex(ctx, s, e).ToKleene(), Matches(env, s, e), noIsNo, yesIsYes)
    ensures noIsNo && Complex(ctx, s, e).RestartFromClosestDescendant? ==>
              forall f :: 0 <= f < |ctx.doc.nodes| && EarlierSibling(ctx.doc, f, e) ==> !Matches(env, s, f)
    ensures noIsNo && Complex(ctx, s, e).NotMatchedGlobally? ==>
              forall f :: 0 <= f < |ctx.doc.nodes| && Reaches(ctx.doc, e, f) ==> !Matches(env, s, f)
    decreases s, 1
  {
    CompoundIsSound(ctx, env, s, e, noIsNo, yesIsYes);
    if NextCombinator(s).Some? {
      var c, rest := NextCombinator(s).value, AfterCombinator(s);
      if !ctx.mode.IsForInvalidation() {
        EverywhereInSuffix(Regular(|ctx.doc.nodes|), s, CompoundLength(s) + 1);
      }
      assert AllowedAll(ctx, rest, noIsNo, yesIsYes);
      var k := Compound(ctx, s, e);
      if !k.False? {
        CandidatesAreSound(ctx, env, c, rest, k, e, noIsNo, yesIsYes);
      }
      assert forall f :: 0 <= f < |ctx.doc.nodes| && Matches(env, s, f) ==> Continues(env, c, rest, f);
    }
  }

  lemma {:induction false} CandidatesAreSound(ctx: Ctx, env: Env, c: Combinator, rest: seq<Component>,
                                              k: KleeneValue, e: nat, noIsNo: bool, yesIsYes: bool)
    requires InDoc(ctx.doc, e) && Agree(ctx, env) && AllowedAll(ctx, rest, noIsNo, yesIsYes)
    requires !k.False? && (k.Unknown? ==> ctx.mode.Comparison?)
    ensures var r := Candidates(ctx, c, rest, k, e);
            && (noIsNo && r.IsFailure() ==> !Continues(env, c, rest, e))
            && (r.Matched? ==> k.True?)
            && (yesIsYes && r.Matched? ==> Continues(env, c, rest, e))
            && (noIsNo && r.RestartFromClosestDescendant? ==>
                  forall f :: 0 <= f < |ctx.doc.nodes| && EarlierSibling(ctx.doc, f, e) ==> !Continues(env, c, rest, f))
            && (noIsNo && r.NotMatchedGlobally? ==>
                  forall f :: 0 <= f < |ctx.doc.nodes| && Reaches(ctx.doc, e, f) ==> !Continues(env, c, rest, f))
    decreases rest, 2, e
  {
    var n := NextElement(ctx.doc, c, e);
    ContinuesStep(env, c, rest, e);
    if n.None? {
      NoCandidate(env, c, rest, e);
    } else {
      var f := n.value;
      var r := Complex(ctx, rest, f);
      ComplexIsSound(ctx, env, rest, f, noIsNo, yesIsYes);
      if r.NotMatchedGlobally? {
        if noIsNo { GlobalFailureSpreads(env, c, rest, e); }
      } else if r.Matched? || r.UnknownResult? {
      } else if c.Descendant? {
        CandidatesAreSound(ctx, env, c, rest, k, f, noIsNo, yesIsYes);
        if noIsNo && Candidates(ctx, c, rest, k, f).IsFailure() { AncestorFailureSpreads(env, c, rest, e); }
      } else if c.Child? {
        if noIsNo { AncestorFailureSpreads(env, c, rest, e); }
      } else if r.RestartFromClosestDescendant? {
        if noIsNo { SiblingFailureSpreads(env, c, rest, e); }
      } else if c.LaterSibling? {
        CandidatesAreSound(ctx, env, c, rest, k, f, noIsNo, yesIsYes);
        LaterSiblingFailureSpreads(env, rest, e);
      }
    }
  }

  lemma ContinuesStep(env: Env, c: Combinator, rest: seq<Component>, e: nat)
    requires InDoc(env.doc, e)
    ensures Continues(env, c, rest, e) <==>
            var n := NextElement(env.doc, c, e);
            n.Some? &&
            (Matches(env, rest, n.value) || ((c.Descendant? || c.LaterSibling?) && Continues(env, c, rest, n.value)))
  {
  }

  /** No candidate at all: the failure already is of the kind `CandidateNotFound` says. */
  lemma NoCandidate(env: Env, c: Combinator, rest: seq<Component>, e: nat)
    requires InDoc(env.doc, e) && NextElement(env.doc, c, e).None?
    ensures c.IsAncestor() ==>
              forall f :: 0 <= f < |env.doc.nodes| && Reaches(env.doc, e, f) ==> !Continues(env, c, rest, f)
    ensures c.IsSibling() ==>
              forall f :: 0 <= f < |env.doc.nodes| && EarlierSibling(env.doc, f, e) ==> !Continues(env, c, rest, f)
  {
    if c.IsAncestor() {
      forall f | 0 <= f < |env.doc.nodes| && Reaches(env.doc, e, f) ensures !Continues(env, c, rest, f) {
        if Parent(env.doc, f).Some? {
          ReachedParent(env.doc, e, f);
        }
      }
    }
  }

  /** A global failure at the first candidate is one of the whole search. */
  lemma GlobalFailureSpreads(env: Env, c: Combinator, rest: seq<Component>, e: nat)
    requires InDoc(env.doc, e) && NextElement(env.doc, c, e).Some?
    requires forall f :: 0 <= f < |env.doc.nodes| && Reaches(env.doc, NextElement(env.doc, c, e).value, f) ==>
             !Matches(env, rest, f)
    ensures forall f :: 0 <= f < |env.doc.nodes| && Reaches(env.doc, e, f) ==> !Continues(env, c, rest, f)
    ensures !Continues(env, c, rest, e)
  {
    var d, n := env.doc, NextElement(env.doc, c, e).value;
    forall f, g | 0 <= f < |d.nodes| && 0 <= g < |d.nodes| && Reaches(d, e, f) && Related(d, c, f, g)
      ensures Reaches(d, n, g)
    {
      if c.IsAncestor() {
        ReachedParent(d, e, f);
        if Ancestor(d, g, f) {
          ReachedHasFewerAncestors(d, e, f, g);
          if g != n { AncestorIsReached(d, g, n); }
        }
      } else {
        assert EarlierSibling(d, g, f);
        ReachedEarlierSibling(d, e, f, g);
      }
    }
  }

  /** Siblings share their ancestors, and steps never gain one. */
  lemma AncestorFailureSpreads(env: Env, c: Combinator, rest: seq<Component>, e: nat)
    requires InDoc(env.doc, e) && c.IsAncestor() && !Continues(env, c, rest, e)
    ensures forall f :: 0 <= f < |env.doc.nodes| && EarlierSibling(env.doc, f, e) ==> !Continues(env, c, rest, f)
    ensures c.Descendant? ==>
              forall f :: 0 <= f < |env.doc.nodes| && Reaches(env.doc, e, f) ==> !Continues(env, c, rest, f)
  {
    var d := env.doc;
    forall f | 0 <= f < |d.nodes| && EarlierSibling(d, f, e) ensures !Continues(env, c, rest, f) {
      EarlierSiblingInDoc(d, f, e);
      ContinuesStep(env, c, rest, e);
      ContinuesStep(env, c, rest, f);
    }
    if c.Descendant? {
      forall f, g | 0 <= f < |d.nodes| && 0 <= g < |d.nodes| && Reaches(d, e, f) && Ancestor(d, g, f)
        ensures !Matches(env, rest, g)
      {
        ReachedHasFewerAncestors(d, e, f, g);
        assert Related(d, c, e, g);
      }
    }
  }

  /** Neither the nearest candidate nor a sibling before it matches: then no earlier sibling finds a candidate. */
  lemma SiblingFailureSpreads(env: Env, c: Combinator, rest: seq<Component>, e: nat)
    requires InDoc(env.doc, e) && c.IsSibling() && Prev(env.doc, e).Some?
    requires !Matches(env, rest, Prev(env.doc, e).value)
    requires forall f :: 0 <= f < |env.doc.nodes| && EarlierSibling(env.doc, f, Prev(env.doc, e).value) ==>
             !Matches(env, rest, f)
    ensures !Continues(env, c, rest, e)
    ensures forall f :: 0 <= f < |env.doc.nodes| && EarlierSibling(env.doc, f, e) ==> !Continues(env, c, rest, f)
  {
    var d, n := env.doc, Prev(env.doc, e).value;
    forall f, g | 0 <= f < |d.nodes| && 0 <= g < |d.nodes| && EarlierSibling(d, f, e) && Related(d, c, f, g)
      ensures EarlierSibling(d, g, n)
    {
      assert EarlierSibling(d, g, f);
      if f != n { EarlierSiblingTransitive(d, g, f, n); }
    }
  }

  /** What fails for the search from the previous sibling fails for the search from here. */
  lemma LaterSiblingFailureSpreads(env: Env, rest: seq<Component>, e: nat)
    requires InDoc(env.doc, e) && Prev(env.doc, e).Some?
    ensures var n := Prev(env.doc, e).value;
            forall f :: 0 <= f < |env.doc.nodes| && EarlierSibling(env.doc, f, e) ==>
                   f == n || EarlierSibling(env.doc, f, n)
    ensures var n := Prev(env.doc, e).value;
            forall f :: 0 <= f < |env.doc.nodes| && Reaches(env.doc, e, f) ==> f == e || Reaches(env.doc, n, f)
  {
  }

  // ---------- :nth-* and :has ----------

  lemma {:induction false} NthIsSound(ctx: Ctx, env: Env, c: Component, e: nat, noIsNo: bool, yesIsYes: bool)
    requires InDoc(ctx.doc, e) && (c.Nth? || c.NthOf?)
    requires Agree(ctx, env) && Allowed(ctx, c, noIsNo, yesIsYes)
    ensures Sound(GenericNth(ctx, c, c.nth, e), NthHolds(env, c, e), noIsNo, yesIsYes)
    decreases c, 5
  {
    AllowedArguments(ctx, c, noIsNo, yesIsYes);
    if ctx.mode.IsForInvalidation() {
      if c.NthOf? {
        ListIsSound(ctx, env, c.of, e, noIsNo, yesIsYes);
      }
    } else if ctx.mode.Normal? || EverywhereIn(NotScope, c) || OfList(c) == [] {
      ComputedNthIsSound(ctx, env, c, e);
    } else {
      TrulyCountedNthIsSound(ctx, env, c, e, noIsNo, yesIsYes);
    }
  }

  lemma {:induction false} ComputedNthIsSound(ctx: Ctx, env: Env, c: Component, e: nat)
    requires InDoc(ctx.doc, e) && (c.Nth? || c.NthOf?) && !ctx.mode.IsForInvalidation()
    requires Agree(ctx, env) && AllowedList(ctx, OfList(c), true, true) && Regular(|ctx.doc.nodes|)(c)
    ensures GenericNth(ctx, c, c.nth, e) == FromBool(NthHolds(env, c, e))
    decreases c, 4
  {
    if c.NthOf? {
      ListIsSound(ctx, env, c.of, e, true, true);
    }
    var ofType := c.nth.ty.IsOfType();
    CountIsSound(ctx, env, c, ofType, false, e);
    CountIsSound(ctx, env, c, ofType, true, e);
    IndicesFollowCounts(ctx, env, c, e);
  }

  /** Under revalidation a list that asks for `:scope` is counted right where its count is true. */
  lemma {:induction false} TrulyCountedNthIsSound(ctx: Ctx, env: Env, c: Component, e: nat, noIsNo: bool,
                                                  yesIsYes: bool)
    requires InDoc(ctx.doc, e) && c.NthOf? && c.of != [] && ctx.mode.Revalidation? && Agree(ctx, env)
    requires Promised(ctx, noIsNo, yesIsYes) && CountsTrulyIn(ctx, c)
    requires AllowedList(ctx, c.of, noIsNo, yesIsYes) && Regular(|ctx.doc.nodes|)(c)
    ensures Sound(GenericNth(ctx, c, c.nth, e), NthHolds(env, c, e), noIsNo, yesIsYes)
    decreases c, 4
  {
    ListIsSound(ctx, env, c.of, e, noIsNo, yesIsYes);
    assert env == EnvOf(ctx, Actual);
    if IsIndexed(ctx, c.of, e) {
      forall fromEnd | c.nth.ty.IsOnly() || fromEnd == c.nth.ty.IsFromEnd()
        ensures CountIsTrue(ctx, env, c, c.nth.ty.IsOfType(), fromEnd, e)
      {
        if c.nth.ty.IsOfType() {
          TypeCountIsSound(ctx, env, c, fromEnd, e);
        } else {
          assert CountsTrulyAt(ctx, c, fromEnd, e);
        }
      }
      IndicesFollowCounts(ctx, env, c, e);
    }
  }

  /** The walk counts the siblings that are to be counted. */
  ghost predicate CountIsTrue(ctx: Ctx, env: Env, c: Component, ofType: bool, fromEnd: bool, e: nat)
    requires InDoc(ctx.doc, e) && env.doc == ctx.doc && (c.Nth? || c.NthOf?)
  {
    CountBeyond(ctx, c, ofType, fromEnd, e, e) == |CountedSiblings(env, c, ofType, fromEnd, e)|
  }

  lemma TypeCountIsSound(ctx: Ctx, env: Env, c: Component, fromEnd: bool, e: nat)
    requires InDoc(ctx.doc, e) && env.doc == ctx.doc && (c.Nth? || c.NthOf?)
    ensures CountIsTrue(ctx, env, c, true, fromEnd, e)
  {
    assert CountedBeyond(ctx, c, true, fromEnd, e, e) == CountedSiblings(env, c, true, fromEnd, e);
    CountIsCardinality(ctx, c, true, fromEnd, e, e);
  }

  lemma {:induction false} CountIsSound(ctx: Ctx, env: Env, c: Component, ofType: bool, fromEnd: bool, e: nat)
    requires InDoc(ctx.doc, e) && (c.Nth? || c.NthOf?) && !ctx.mode.IsForInvalidation()
    requires Agree(ctx, env) && AllowedList(ctx, OfList(c), true, true)
    ensures CountIsTrue(ctx, env, c, ofType, fromEnd, e)
    decreases c, 3
  {
    forall f | 0 <= f < |ctx.doc.nodes|
      ensures Counts(ctx, c, ofType, e, f) <==>
              if ofType then SameType(ctx.doc, e, f) else OfList(c) == [] || SomeHolds(env, OfList(c), f)
    {
      if c.NthOf? {
        ListIsSound(ctx, env, c.of, f, true, true);
      }
    }
    assert CountedBeyond(ctx, c, ofType, fromEnd, e, e) == CountedSiblings(env, c, ofType, fromEnd, e);
    CountIsCardinality(ctx, c, ofType, fromEnd, e, e);
  }

  /** With true counts the index is judged as it is meant. */
  ghost predicate IndexHolds(env: Env, c: Component, e: nat)
    requires InDoc(env.doc, e) && (c.Nth? || c.NthOf?)
  {
    var ofType := c.nth.ty.IsOfType();
    if c.nth.ty.IsOnly() then
      CountedSiblings(env, c, ofType, false, e) == {} && CountedSiblings(env, c, ofType, true, e) == {}
    else
      InProgression(c.nth.a, c.nth.b, 1 + |CountedSiblings(env, c, ofType, c.nth.ty.IsFromEnd(), e)|)
  }

  predicate IndexFits(ctx: Ctx, c: Component, e: nat)
    requires InDoc(ctx.doc, e) && (c.Nth? || c.NthOf?)
  {
    var ofType := c.nth.ty.IsOfType();
    if c.nth.ty.IsOnly() then
      IndexMatches(ctx, c, NthFirst(ofType), e) && IndexMatches(ctx, c, NthLast(ofType), e)
    else
      IndexMatches(ctx, c, c.nth, e)
  }

  lemma IndicesFollowCounts(ctx: Ctx, env: Env, c: Component, e: nat)
    requires InDoc(ctx.doc, e) && env.doc == ctx.doc && (c.Nth? || c.NthOf?) && Regular(|ctx.doc.nodes|)(c)
    requires forall fromEnd :: c.nth.ty.IsOnly() || fromEnd == c.nth.ty.IsFromEnd() ==>
               CountIsTrue(ctx, env, c, c.nth.ty.IsOfType(), fromEnd, e)
    ensures IndexFits(ctx, c, e) <==> IndexHolds(env, c, e)
  {
    var ofType := c.nth.ty.IsOfType();
    if c.nth.ty.IsOnly() {
      assert CountIsTrue(ctx, env, c, ofType, false, e) && CountIsTrue(ctx, env, c, ofType, true, e);
      IndexMatchesCount(ctx, c, NthFirst(ofType), e);
      IndexMatchesCount(ctx, c, NthLast(ofType), e);
      IndexOne(|CountedSiblings(env, c, ofType, false, e)|);
      IndexOne(|CountedSiblings(env, c, ofType, true, e)|);
    } else {
      assert CountIsTrue(ctx, env, c, ofType, c.nth.ty.IsFromEnd(), e);
      IndexMatchesCount(ctx, c, c.nth, e);
    }
  }

  lemma IndexOne(n: nat)
    ensures InProgression(0, 1, 1 + n) <==> n == 0
  {
    assert 0 * 0 + 1 == 1;
  }

  lemma IndexMatchesCount(ctx: Ctx, c: Component, nth: NthData, e: nat)
    requires InDoc(ctx.doc, e) && (c.Nth? || c.NthOf?) && |ctx.doc.nodes| < 0x8000_0000
    requires !nth.ty.IsOnly() && OffsetFits(nth.a, nth.b, |ctx.doc.nodes|)
    ensures IndexMatches(ctx, c, nth, e) <==>
            InProgression(nth.a, nth.b, NthChildIndex(ctx, c, nth.ty.IsOfType(), nth.ty.IsFromEnd(), e))
  {
    var index := NthChildIndex(ctx, c, nth.ty.IsOfType(), nth.ty.IsFromEnd(), e);
    IndexInDocument(ctx, c, nth.ty.IsOfType(), nth.ty.IsFromEnd(), e, e);
    assert 1 <= index <= |ctx.doc.nodes|;
    MatchesIndexIsExactIff(nth.a, nth.b, index);
    if nth.IsSimpleEdge() && OfList(c) == [] {
      IndexOne(CountBeyond(ctx, c, false, nth.ty.IsFromEnd(), e, e));
    }
  }

  lemma {:induction false} IndexInDocument(ctx: Ctx, c: Component, ofType: bool, fromEnd: bool, e: nat, cur: nat)
    requires InDoc(ctx.doc, e) && InDoc(ctx.doc, cur) && (c.Nth? || c.NthOf?)
    ensures CountBeyond(ctx, c, ofType, fromEnd, e, cur) < if fromEnd then |ctx.doc.nodes| - cur else cur + 1
    decreases if fromEnd then |ctx.doc.nodes| - cur else cur
  {
    var n := Step(ctx.doc, fromEnd, cur);
    if n.Some? {
      IndexInDocument(ctx, c, ofType, fromEnd, e, n.value);
    }
  }

  lemma {:induction false} RelativesAreSound(ctx: Ctx, env: Env, relatives: seq<RelativeSelector>, e: nat,
                                             noIsNo: bool, yesIsYes: bool)
    requires InDoc(ctx.doc, e) && Agree(ctx, env) && ctx.anchor == Some(e) && !ctx.mode.IsForInvalidation()
    requires AllowedRelatives(ctx, relatives, noIsNo, yesIsYes)
    ensures Sound(FromBool(SomeRelative(ctx, relatives, e)), HasHolds(env, relatives), noIsNo, yesIsYes)
    decreases relatives, 0
  {
    if relatives != [] {
      RelativeIsSound(ctx, env, relatives[0], e, noIsNo, yesIsYes);
      RelativesAreSound(ctx, env, relatives[1..], e, noIsNo, yesIsYes);
      assert forall i :: 0 <= i < |relatives| - 1 ==> relatives[1..][i] == relatives[i + 1];
      assert HasHolds(env, relatives) <==> RelativeHolds(env, relatives[0]) || HasHolds(env, relatives[1..]) by {
        if HasHolds(env, relatives) {
          var i :| 0 <= i < |relatives| && RelativeHolds(env, relatives[i]);
          assert i > 0 ==> relatives[i] == relatives[1..][i - 1];
        }
      }
    }
  }

  /** Searching the region of the hint answers for the whole document. */
  lemma {:induction false} RelativeIsSound(ctx: Ctx, env: Env, relative: RelativeSelector, e: nat, noIsNo: bool,
                                           yesIsYes: bool)
    requires InDoc(ctx.doc, e) && Agree(ctx, env) && ctx.anchor == Some(e) && !ctx.mode.IsForInvalidation()
    requires WellFormedRelative(relative) && AllowedAll(ctx, relative.selector.comps, noIsNo, yesIsYes)
    ensures Sound(FromBool(Relative(ctx, relative, e)), RelativeHolds(env, relative), noIsNo, yesIsYes)
    decreases relative, 0
  {
    var s := relative.selector.comps;
    forall f | 0 <= f < |ctx.doc.nodes|
      ensures noIsNo && Matches(env, s, f) ==> InRegion(ctx.doc, relative.hint, e, f) && Hit(ctx, s, f)
      ensures yesIsYes && Hit(ctx, s, f) ==> Matches(env, s, f)
    {
      ComplexIsSound(ctx, env, s, f, noIsNo, yesIsYes);
      if Matches(env, s, f) {
        MatchLiesInRegion(env, s, e, f);
      }
    }
    SearchIsExact(ctx, relative, e);
  }
}
