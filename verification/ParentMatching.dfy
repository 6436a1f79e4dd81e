/**
 Matching a rewritten selector: it is still well-formed, so the matcher finds
 out exactly what the original means with `&` read as the parent list.
 */
module ParentMatching {
  import opened Dom
  import opened Syntax
  import opened Semantics
  import opened Matching
  import opened RelativeHint
  import opened Soundness
  import opened MatchingTheorems
  import opened ParentSelectors
  import opened ParentMeaning

  /** Search hints stay right: combinators and the anchor are where they were. */
  lemma HintIsKept(relative: RelativeSelector, parent: seq<Selector>)
    requires WellFormedRelative(relative)
    ensures WellFormedRelative(ReplaceRelative(relative, parent))
  {
    var s, r := relative.selector.comps, Rewrite(relative.selector.comps, parent);
    forall i | 0 <= i < |s|
      ensures s[i].Combinator? || s[i].RelativeSelectorAnchor? ==> r[i] == s[i]
      ensures r[i].Combinator? ==> s[i].Combinator?
    {
      RewriteAt(s, parent, i);
    }
    assert Inner(s) == s[..|s| - 2];
    SameKinds(s[..|s| - 2], r[..|s| - 2]);
  }

  lemma SameKinds(s: seq<Component>, r: seq<Component>)
    requires |r| == |s| && forall i :: 0 <= i < |s| ==>
               (s[i].Combinator? ==> r[i] == s[i]) && (r[i].Combinator? ==> s[i].Combinator?)
    ensures HasAncestorCombinator(r) == HasAncestorCombinator(s)
    ensures HasSiblingCombinator(r) == HasSiblingCombinator(s)
  {
  }

  lemma {:induction false} SelectorStaysRegular(size: nat, sel: Selector, parent: seq<Selector>)
    requires Everywhere(Regular(size), sel.comps) && EverywhereInList(Regular(size), parent)
    ensures Everywhere(Regular(size), ReplaceParent(sel, parent).comps)
    decreases sel, 0
  {
    if sel.flags.hasParent {
      var s := sel.comps;
      forall i | 0 <= i < |s|
        ensures EverywhereIn(Regular(size), Rewrite(s, parent)[i])
      {
        RewriteAt(s, parent, i);
        ComponentStaysRegular(size, s[i], parent);
      }
    }
  }

  lemma {:induction false} ListStaysRegular(size: nat, list: seq<Selector>, parent: seq<Selector>)
    requires EverywhereInList(Regular(size), list) && EverywhereInList(Regular(size), parent)
    ensures EverywhereInList(Regular(size), ReplaceInList(list, parent))
    decreases list, 0
  {
    forall i | 0 <= i < |list|
      ensures Everywhere(Regular(size), ReplaceInList(list, parent)[i].comps)
    {
      ReplaceInListAt(list, parent, i);
      SelectorStaysRegular(size, list[i], parent);
    }
  }

  lemma {:induction false} ComponentStaysRegular(size: nat, c: Component, parent: seq<Selector>)
    requires EverywhereIn(Regular(size), c) && EverywhereInList(Regular(size), parent)
    ensures EverywhereIn(Regular(size), RewriteComponent(c, parent))
    decreases c, 0
  {
    match c {
      case Is(list) => ListStaysRegular(size, list, parent);
      case Where(list) => ListStaysRegular(size, list, parent);
      case Negation(list) => ListStaysRegular(size, list, parent);
      case NthOf(_, of) => ListStaysRegular(size, of, parent);
      case Has(relatives) =>
        var r := ReplaceRelatives(relatives, parent);
        forall i | 0 <= i < |relatives|
          ensures WellFormedRelative(r[i]) && EverywhereInRelative(Regular(size), r[i])
        {
          ReplaceRelativesAt(relatives, parent, i);
          HintIsKept(relatives[i], parent);
          assert EverywhereInRelative(Regular(size), relatives[i]);
          SelectorStaysRegular(size, relatives[i].selector, parent);
        }
      case _ =>
    }
  }

  /** The matcher on the rewritten selector decides the meaning of the original one. */
  lemma RewrittenSelectorIsMatchedExactly(ctx: Ctx, sel: Selector, parent: seq<Selector>, e: nat)
    requires InDoc(ctx.doc, e) && ctx.mode.Normal? && FlagsTrue(sel)
    requires WellFormed(ctx.doc, sel.comps) && EverywhereInList(Regular(|ctx.doc.nodes|), parent)
    ensures Complex(ctx, ReplaceParent(sel, parent).comps, e).Matched? <==>
            var env := EnvOf(ctx, Actual);
            Matches(env.(ampersand := AsElements(ParentMatches(env, parent))), sel.comps, e)
  {
    SelectorStaysRegular(|ctx.doc.nodes|, sel, parent);
    ComplexIsSound(ctx, EnvOf(ctx, Actual), ReplaceParent(sel, parent).comps, e, true, true);
    ReplacementPreservesMeaning(EnvOf(ctx, Actual), sel, parent, e);
  }
}
