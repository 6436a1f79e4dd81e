/**
 What an answer does not depend on, when it is computed: the parity of the
 enclosing `:not()`s in normal matching, and the `:has()` anchor when neither
 `:has()` nor the anchor is mentioned.  This is what lets a cached answer be
 reused in another context.
 */
module Independence {
  import opened Wrappers
  import opened Dom
  import opened Syntax
  import opened Kleene
  import opened Semantics
  import opened Matching
  import opened Soundness

  /** No `:has()` and no anchor of one. */
  predicate AnchorBlind(c: Component) { !c.Has? && !c.RelativeSelectorAnchor? }

  /**
   Two contexts that differ at most in the anchor, if `blind`, and in the parity of the `:not()`s, if
   that is not asked for: in normal matching, or with `noScope`.
   */
  ghost predicate Alike(ctx: Ctx, other: Ctx, blind: bool, noScope: bool) {
    && ctx.doc == other.doc && ctx.mode == other.mode && ctx.scope == other.scope
    && !ctx.mode.IsForInvalidation()
    && (ctx.anchor == other.anchor || blind)
    && (ctx.inNegation == other.inNegation || ctx.mode.Normal? || noScope)
  }

  ghost predicate Free(s: seq<Component>, blind: bool, noScope: bool) {
    (blind ==> Everywhere(AnchorBlind, s)) && (noScope ==> Everywhere(NotScope, s))
  }

  ghost predicate FreeIn(c: Component, blind: bool, noScope: bool) {
    (blind ==> EverywhereIn(AnchorBlind, c)) && (noScope ==> EverywhereIn(NotScope, c))
  }

  ghost predicate FreeList(list: seq<Selector>, blind: bool, noScope: bool) {
    (blind ==> EverywhereInList(AnchorBlind, list)) && (noScope ==> EverywhereInList(NotScope, list))
  }

  lemma {:induction false} SimpleIndependent(ctx: Ctx, other: Ctx, c: Component, e: nat, blind: bool, noScope: bool)
    requires InDoc(ctx.doc, e) && Alike(ctx, other, blind, noScope) && FreeIn(c, blind, noScope)
    ensures Simple(ctx, c, e) == Simple(other, c, e)
    decreases c, 6
  {
    match c {
      case Is(list) => ListIndependent(ctx, other, list, e, blind, noScope);
      case Where(list) => ListIndependent(ctx, other, list, e, blind, noScope);
      case Negation(list) =>
        ListIndependent(ctx.(inNegation := !ctx.inNegation), other.(inNegation := !other.inNegation), list, e,
                        blind, noScope);
      case Nth(_) => NthIndependent(ctx, other, c, c.nth, e, blind, noScope);
      case NthOf(_, _) => NthIndependent(ctx, other, c, c.nth, e, blind, noScope);
      case Has(relatives) =>
        if ctx.anchor.None? {
          forall i | 0 <= i < |relatives| ensures Free(relatives[i].selector.comps, blind, noScope) {
            assert noScope ==> EverywhereInRelative(NotScope, relatives[i]);
          }
          RelativesIndependent(ctx.(anchor := Some(e)), other.(anchor := Some(e)), relatives, e, blind, noScope);
        }
      case _ =>
    }
  }

  lemma {:induction false} CompoundIndependent(ctx: Ctx, other: Ctx, s: seq<Component>, e: nat, blind: bool,
                                               noScope: bool)
    requires InDoc(ctx.doc, e) && Alike(ctx, other, blind, noScope) && Free(s, blind, noScope)
    ensures Compound(ctx, s, e) == Compound(other, s, e)
    decreases s, 0
  {
    if s != [] && !s[0].Combinator? {
      SimpleIndependent(ctx, other, s[0], e, blind, noScope);
      CompoundIndependent(ctx, other, s[1..], e, blind, noScope);
    }
  }

  lemma {:induction false} ListIndependent(ctx: Ctx, other: Ctx, list: seq<Selector>, e: nat, blind: bool,
                                           noScope: bool)
    requires InDoc(ctx.doc, e) && Alike(ctx, other, blind, noScope) && FreeList(list, blind, noScope)
    ensures SelectorList(ctx, list, e) == SelectorList(other, list, e)
    decreases list, 0
  {
    if list != [] {
      ComplexIndependent(ctx, other, list[0].comps, e, blind, noScope);
      ListIndependent(ctx, other, list[1..], e, blind, noScope);
    }
  }

  lemma {:induction false} ComplexIndependent(ctx: Ctx, other: Ctx, s: seq<Component>, e: nat, blind: bool,
                                              noScope: bool)
    requires InDoc(ctx.doc, e) && Alike(ctx, other, blind, noScope) && Free(s, blind, noScope)
    ensures Complex(ctx, s, e) == Complex(other, s, e)
    decreases s, 1
  {
    CompoundIndependent(ctx, other, s, e, blind, noScope);
    if NextCombinator(s).Some? && !Compound(ctx, s, e).False? {
      CandidatesIndependent(ctx, other, NextCombinator(s).value, AfterCombinator(s), Compound(ctx, s, e), e,
                            blind, noScope);
    }
  }

  lemma {:induction false} CandidatesIndependent(ctx: Ctx, other: Ctx, c: Combinator, rest: seq<Component>,
                                                 k: KleeneValue, e: nat, blind: bool, noScope: bool)
    requires InDoc(ctx.doc, e) && Alike(ctx, other, blind, noScope) && Free(rest, blind, noScope) && k.True?
    ensures Candidates(ctx, c, rest, k, e) == Candidates(other, c, rest, k, e)
    decreases rest, 2, e
  {
    var n := NextElement(ctx.doc, c, e);
    if n.Some? {
      ComplexIndependent(ctx, other, rest, n.value, blind, noScope);
      CandidatesIndependent(ctx, other, c, rest, k, n.value, blind, noScope);
    }
  }

  lemma {:induction false} RelativesIndependent(ctx: Ctx, other: Ctx, relatives: seq<RelativeSelector>, e: nat,
                                                blind: bool, noScope: bool)
    requires InDoc(ctx.doc, e) && Alike(ctx, other, blind, noScope)
    requires forall i :: 0 <= i < |relatives| ==> Free(relatives[i].selector.comps, blind, noScope)
    ensures SomeRelative(ctx, relatives, e) == SomeRelative(other, relatives, e)
    decreases relatives, 0
  {
    if relatives != [] {
      RelativeIndependent(ctx, other, relatives[0], e, blind, noScope);
      RelativesIndependent(ctx, other, relatives[1..], e, blind, noScope);
    }
  }

  lemma {:induction false} RelativeIndependent(ctx: Ctx, other: Ctx, relative: RelativeSelector, e: nat, blind: bool,
                                               noScope: bool)
    requires InDoc(ctx.doc, e) && Alike(ctx, other, blind, noScope) && Free(relative.selector.comps, blind, noScope)
    ensures Relative(ctx, relative, e) == Relative(other, relative, e)
    decreases relative, 0
  {
    var s, h := relative.selector.comps, relative.hint;
    if h.IsDescendantDirection() {
      ChildrenIndependent(ctx, other, s, h.IsSubtree(), FirstChild(ctx.doc, e), blind, noScope);
    } else {
      SiblingsIndependent(ctx, other, s, h.IsSubtree(), h.IsNextSibling(), Next(ctx.doc, e), blind, noScope);
    }
  }

  lemma {:induction false} ChildrenIndependent(ctx: Ctx, other: Ctx, s: seq<Component>, subtree: bool,
                                               cur: Option<nat>, blind: bool, noScope: bool)
    requires cur.Some? ==> InDoc(ctx.doc, cur.value)
    requires Alike(ctx, other, blind, noScope) && Free(s, blind, noScope)
    ensures InChildren(ctx, s, subtree, cur) == InChildren(other, s, subtree, cur)
    decreases s, 2, |ctx.doc.nodes| - cur.GetOr(|ctx.doc.nodes|)
  {
    if cur.Some? {
      ComplexIndependent(ctx, other, s, cur.value, blind, noScope);
      ChildrenIndependent(ctx, other, s, true, FirstChild(ctx.doc, cur.value), blind, noScope);
      ChildrenIndependent(ctx, other, s, subtree, Next(ctx.doc, cur.value), blind, noScope);
    }
  }

  lemma {:induction false} SiblingsIndependent(ctx: Ctx, other: Ctx, s: seq<Component>, subtree: bool,
                                               nextOnly: bool, cur: Option<nat>, blind: bool, noScope: bool)
    requires cur.Some? ==> InDoc(ctx.doc, cur.value)
    requires Alike(ctx, other, blind, noScope) && Free(s, blind, noScope)
    ensures InSiblings(ctx, s, subtree, nextOnly, cur) == InSiblings(other, s, subtree, nextOnly, cur)
    decreases s, 3, |ctx.doc.nodes| - cur.GetOr(|ctx.doc.nodes|)
  {
    if cur.Some? {
      ComplexIndependent(ctx, other, s, cur.value, blind, noScope);
      ChildrenIndependent(ctx, other, s, true, FirstChild(ctx.doc, cur.value), blind, noScope);
      SiblingsIndependent(ctx, other, s, subtree, nextOnly, Next(ctx.doc, cur.value), blind, noScope);
    }
  }

  lemma {:induction false} NthIndependent(ctx: Ctx, other: Ctx, c: Component, nth: NthData, e: nat, blind: bool,
                                          noScope: bool)
    requires InDoc(ctx.doc, e) && (c.Nth? || c.NthOf?)
    requires Alike(ctx, other, blind, noScope) && FreeIn(c, blind, noScope)
    ensures GenericNth(ctx, c, nth, e) == GenericNth(other, c, nth, e)
    decreases c, 5, 1
  {
    if c.NthOf? {
      ListIndependent(ctx, other, c.of, e, blind, noScope);
    }
    if nth.ty.IsOnly() {
      IndexMatchIndependent(ctx, other, c, NthFirst(nth.ty.IsOfType()), e, blind, noScope);
      IndexMatchIndependent(ctx, other, c, NthLast(nth.ty.IsOfType()), e, blind, noScope);
    } else {
      IndexMatchIndependent(ctx, other, c, nth, e, blind, noScope);
    }
  }

  lemma {:induction false} IndexMatchIndependent(ctx: Ctx, other: Ctx, c: Component, nth: NthData, e: nat,
                                                 blind: bool, noScope: bool)
    requires InDoc(ctx.doc, e) && (c.Nth? || c.NthOf?)
    requires Alike(ctx, other, blind, noScope) && FreeList(OfList(c), blind, noScope)
    ensures IndexMatches(ctx, c, nth, e) == IndexMatches(other, c, nth, e)
    decreases c, 5, 0
  {
    IndexIndependent(ctx, other, c, nth.ty.IsOfType(), nth.ty.IsFromEnd(), e, e, blind, noScope);
  }

  lemma {:induction false} IndexIndependent(ctx: Ctx, other: Ctx, c: Component, ofType: bool, fromEnd: bool, e: nat,
                                            cur: nat, blind: bool, noScope: bool)
    requires InDoc(ctx.doc, e) && InDoc(ctx.doc, cur) && (c.Nth? || c.NthOf?)
    requires Alike(ctx, other, blind, noScope) && FreeList(OfList(c), blind, noScope)
    ensures CountBeyond(ctx, c, ofType, fromEnd, e, cur) == CountBeyond(other, c, ofType, fromEnd, e, cur)
    decreases c, 4, if fromEnd then |ctx.doc.nodes| - cur else cur
  {
    var n := Step(ctx.doc, fromEnd, cur);
    if n.Some? {
      if c.NthOf? {
        ListIndependent(ctx, other, c.of, n.value, blind, noScope);
      }
      IndexIndependent(ctx, other, c, ofType, fromEnd, e, n.value, blind, noScope);
    }
  }
}
