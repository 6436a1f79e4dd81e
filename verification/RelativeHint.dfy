/**
 Relative selectors: the search region that the parser notes down for a
 selector inside `:has()`, the elements it stands for, and the proof that no
 match lies outside of it.
 */
module RelativeHint {
  import opened Wrappers
  import opened Dom
  import opened Syntax
  import opened Semantics
  import opened SelectorIter

  /** The hint, from the combinator next to the anchor and the kinds of the other combinators. */
  function HintFrom(relative: Combinator, hasAncestors: bool, hasSiblings: bool): MatchHint {
    match relative
    case Descendant => InSubtree
    case Child => if !hasAncestors then InChild else InSubtree
    case NextSibling =>
      if !hasAncestors && !hasSiblings then InNextSibling
      else if !hasAncestors && hasSiblings then InSibling
      else if hasAncestors && !hasSiblings then InNextSiblingSubtree
      else InSiblingSubtree
    case LaterSibling => if !hasAncestors then InSibling else InSiblingSubtree
  }

  /** In parse order the selector starts with the anchor and a combinator. */
  predicate IsAnchored(s: seq<Component>) {
    |s| >= 2 && s[|s| - 1] == RelativeSelectorAnchor && s[|s| - 2].Combinator?
  }

  predicate HasAncestorCombinator(s: seq<Component>) {
    exists i :: 0 <= i < |s| && s[i].Combinator? && s[i].combinator.IsAncestor()
  }

  predicate HasSiblingCombinator(s: seq<Component>) {
    exists i :: 0 <= i < |s| && s[i].Combinator? && s[i].combinator.IsSibling()
  }

  /** The hint that `RelativeSelector::from_selector_list` stores. */
  function HintFor(s: seq<Component>): MatchHint
    requires IsAnchored(s)
  {
    var inner := s[..|s| - 2];
    HintFrom(s[|s| - 2].combinator, HasAncestorCombinator(inner), HasSiblingCombinator(inner))
  }

  predicate WellFormedRelative(r: RelativeSelector) {
    IsAnchored(r.selector.comps) && r.hint == HintFor(r.selector.comps)
  }

  /** The elements that hint `h` on anchor `e` stands for. */
  ghost predicate InRegion(d: Doc, h: MatchHint, e: nat, f: nat)
    requires InDoc(d, e) && InDoc(d, f)
  {
    match h
    case InChild => Parent(d, f) == Some(e)
    case InSubtree => Ancestor(d, e, f)
    case InNextSibling => Prev(d, f) == Some(e)
    case InNextSiblingSubtree => exists g :: 0 <= g < |d.nodes| && Prev(d, g) == Some(e) && Ancestor(d, g, f)
    case InSibling => EarlierSibling(d, e, f)
    case InSiblingSubtree => exists g :: 0 <= g < |d.nodes| && EarlierSibling(d, e, g) && Ancestor(d, g, f)
  }

  /** One combinator further from the anchor, the region of the longer selector is still enough. */
  lemma RegionStep(d: Doc, relative: Combinator, c: Combinator, hasAncestors: bool, hasSiblings: bool, e: nat,
                   f: nat, g: nat)
    requires InDoc(d, e) && InDoc(d, f) && InDoc(d, g)
    requires InRegion(d, HintFrom(relative, hasAncestors, hasSiblings), e, g)
    requires Related(d, c, f, g)
    ensures InRegion(d, HintFrom(relative, hasAncestors || c.IsAncestor(), hasSiblings || c.IsSibling()), e, f)
  {
    var h := HintFrom(relative, hasAncestors, hasSiblings);
    if c.IsAncestor() {
      forall a | 0 <= a < |d.nodes| && (a == g || Ancestor(d, a, g)) ensures Ancestor(d, a, f) {
        if a == g {
        } else if Ancestor(d, g, f) {
          AncestorTransitive(d, a, g, f);
        }
      }
    } else {
      if EarlierSibling(d, g, f) {
        EarlierSiblingInDoc(d, g, f);
      }
      assert Parent(d, f) == Parent(d, g);
      assert EarlierSibling(d, g, f);
      if EarlierSibling(d, e, g) {
        EarlierSiblingTransitive(d, e, g, f);
      }
      forall a | 0 <= a < |d.nodes| && Ancestor(d, a, g) ensures Ancestor(d, a, f) {
      }
    }
  }

  /** A related pair lies in the region of a selector without further combinators. */
  lemma RegionStart(d: Doc, relative: Combinator, e: nat, f: nat)
    requires InDoc(d, e) && InDoc(d, f) && Related(d, relative, f, e)
    ensures InRegion(d, HintFrom(relative, false, false), e, f)
  {
  }

  /** The combinators between the anchor's and the subject. */
  function Inner(s: seq<Component>): seq<Component>
    requires IsAnchored(s)
  {
    s[..|s| - 2]
  }

  lemma CombinatorsOfConcat(compound: seq<Component>, c: Component, rest: seq<Component>)
    requires forall i :: 0 <= i < |compound| ==> !compound[i].Combinator?
    requires c.Combinator?
    ensures HasAncestorCombinator(compound + [c] + rest) == (HasAncestorCombinator(rest) || c.combinator.IsAncestor())
    ensures HasSiblingCombinator(compound + [c] + rest) == (HasSiblingCombinator(rest) || c.combinator.IsSibling())
  {
    var s := compound + [c] + rest;
    var n := |compound|;
    assert s[n] == c;
    assert forall i :: 0 <= i < |rest| ==> s[n + 1 + i] == rest[i];
    assert forall i :: n < i < |s| ==> s[i] == rest[i - n - 1];
  }

  /** How the hint of an anchored selector comes from the hint of what follows its first combinator. */
  lemma HintOfRest(s: seq<Component>)
    requires IsAnchored(s)
    ensures NextCombinator(s).Some?
    ensures var c, rest := NextCombinator(s).value, AfterCombinator(s);
            if |rest| == 1 then
              rest == [RelativeSelectorAnchor] && HintFor(s) == HintFrom(c, false, false)
            else
              && IsAnchored(rest)
              && HintFor(rest) ==
                 HintFrom(s[|s| - 2].combinator, HasAncestorCombinator(Inner(rest)), HasSiblingCombinator(Inner(rest)))
              && HintFor(s) == HintFrom(s[|s| - 2].combinator,
                                        HasAncestorCombinator(Inner(rest)) || c.IsAncestor(),
                                        HasSiblingCombinator(Inner(rest)) || c.IsSibling())
  {
    var n := CompoundLength(s);
    var rest := AfterCombinator(s);
    if |rest| == 1 {
      assert n == |s| - 2;
    } else {
      assert rest[|rest| - 1] == s[|s| - 1] && rest[|rest| - 2] == s[|s| - 2];
      CombinatorsOfConcat(s[..n], s[n], Inner(rest));
      assert Inner(s) == s[..n] + [s[n]] + Inner(rest);
    }
  }

  /** Nothing outside of the region can match: searching it loses no match. */
  lemma {:induction false} MatchLiesInRegion(env: Env, s: seq<Component>, e: nat, f: nat)
    requires InDoc(env.doc, e) && InDoc(env.doc, f)
    requires env.anchor == Some(e)
    requires IsAnchored(s) && Matches(env, s, f)
    ensures InRegion(env.doc, HintFor(s), e, f)
    decreases |s|
  {
    HintOfRest(s);
    var c, rest := NextCombinator(s).value, AfterCombinator(s);
    var g :| 0 <= g < |env.doc.nodes| && Related(env.doc, c, f, g) && Matches(env, rest, g);
    if |rest| == 1 {
      AnchorMatchesItself(env, e, g);
      RegionStart(env.doc, c, e, f);
    } else {
      MatchLiesInRegion(env, rest, e, g);
      RegionStep(env.doc, s[|s| - 2].combinator, c,
                 HasAncestorCombinator(Inner(rest)), HasSiblingCombinator(Inner(rest)), e, f, g);
    }
  }

  lemma AnchorMatchesItself(env: Env, e: nat, g: nat)
    requires InDoc(env.doc, g) && env.anchor == Some(e)
    requires Matches(env, [RelativeSelectorAnchor], g)
    ensures g == e
  {
  }

  /** `f` is `g` or, if some combinator leads down, below it. */
  predicate AtOrBelow(d: Doc, down: bool, g: nat, f: nat)
    requires InDoc(d, f)
  {
    if down then Ancestor(d, g, f) else g == f
  }

  /** The region is as small as the first combinator and the kinds of the others let it be. */
  lemma RegionIff(d: Doc, s: seq<Component>, e: nat, f: nat)
    requires InDoc(d, e) && InDoc(d, f) && IsAnchored(s)
    ensures var down, sideways := HasAncestorCombinator(Inner(s)), HasSiblingCombinator(Inner(s));
            InRegion(d, HintFor(s), e, f) <==>
            match s[|s| - 2].combinator
            case Descendant => Ancestor(d, e, f)
            case Child => if down then Ancestor(d, e, f) else Parent(d, f) == Some(e)
            case NextSibling =>
              exists g :: 0 <= g < |d.nodes| && (Prev(d, g) == Some(e) || (sideways && EarlierSibling(d, e, g)))
                          && AtOrBelow(d, down, g, f)
            case LaterSibling => exists g :: 0 <= g < |d.nodes| && EarlierSibling(d, e, g) && AtOrBelow(d, down, g, f)
  {
    assert forall g | 0 <= g < |d.nodes| && Prev(d, g) == Some(e) :: EarlierSibling(d, e, g);
    assert AtOrBelow(d, false, f, f);
    assert forall g | 0 <= g < |d.nodes| && Ancestor(d, g, f) :: AtOrBelow(d, true, g, f);
  }

  // ---------- Computing the hint ----------

  lemma CompositionStep(s: seq<Component>)
    ensures HasAncestorCombinator(s) ==
            (NextCombinator(s).Some? &&
             (NextCombinator(s).value.IsAncestor() || HasAncestorCombinator(AfterCombinator(s))))
    ensures HasSiblingCombinator(s) ==
            (NextCombinator(s).Some? &&
             (NextCombinator(s).value.IsSibling() || HasSiblingCombinator(AfterCombinator(s))))
  {
  }

  /** Which kinds of combinators there are, as the combinator iterator finds them. */
  method CombinatorComposition(s: seq<Component>) returns (descendants: bool, siblings: bool)
    ensures descendants == HasAncestorCombinator(s)
    ensures siblings == HasSiblingCombinator(s)
  {
    descendants, siblings := false, false;
    var iter := new Iter(s);
    CompositionStep(s);
    iter.SkipCompound();
    var c := iter.NextSequence();
    while c.Some?
      invariant iter.nextCombinator == None
      invariant HasAncestorCombinator(s) ==
                (descendants || (c.Some? && (c.value.IsAncestor() || HasAncestorCombinator(iter.rest))))
      invariant HasSiblingCombinator(s) ==
                (siblings || (c.Some? && (c.value.IsSibling() || HasSiblingCombinator(iter.rest))))
      decreases c.Some?, |iter.rest|
    {
      if c.value.IsAncestor() {
        descendants := true;
      } else {
        siblings := true;
      }
      if descendants && siblings {
        break;
      }
      CompositionStep(iter.rest);
      iter.SkipCompound();
      c := iter.NextSequence();
    }
  }

  /** A relative selector as the parser stores it: its hint is always the right one. */
  method FromSelector(selector: Selector) returns (r: RelativeSelector)
    requires IsAnchored(selector.comps)
    ensures r.selector == selector && WellFormedRelative(r)
  {
    var s := selector.comps;
    var descendants, siblings := CombinatorComposition(s[..|s| - 2]);
    r := RelativeSelector(HintFrom(s[|s| - 2].combinator, descendants, siblings), selector);
  }
}
