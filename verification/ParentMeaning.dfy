/** Replacing `&` preserves what a nested selector matches. */
module ParentMeaning {
  import opened Wrappers
  import opened Dom
  import opened Syntax
  import opened Semantics
  import opened ParentSelectors
  import opened Independence

  /** What `parent` matches in `env`, seen from under a given `:has()` anchor. */
  ghost function ParentMatches(env: Env, parent: seq<Selector>): (Option<nat>, nat) -> bool {
    (anchor: Option<nat>, f: nat) => InDoc(env.doc, f) && SomeHolds(env.(anchor := anchor), parent, f)
  }

  /** `env'` is `env`, except that it reads `&` as "is matched by `parent`". */
  ghost predicate ReadsAs(env: Env, env': Env, parent: seq<Selector>) {
    && env.reading.Actual?
    && env'.ampersand.AsElements?
    && env' == env.(ampersand := env'.ampersand)
    && forall anchor, f :: 0 <= f < |env.doc.nodes| ==>
         (env'.ampersand.holds(anchor, f) <==> SomeHolds(env.(anchor := anchor), parent, f))
  }

  // ---------- What is not mentioned does not matter ----------

  /**
   Two environments that differ at most in what no `p` component asks for: the reading of `&`, the `:has()`
   anchor.
   */
  ghost predicate SameFor(env: Env, env': Env, p: Component -> bool) {
    && env.reading.Actual?
    && env' == env.(ampersand := env'.ampersand, anchor := env'.anchor)
    && (env.ampersand == env'.ampersand || forall c :: p(c) ==> !c.ParentSelector?)
    && (env.anchor == env'.anchor || (env.ampersand.AsScope? && forall c :: p(c) ==> AnchorBlind(c)))
  }

  lemma {:induction false} SimpleUnaffected(p: Component -> bool, env: Env, env': Env, c: Component, e: nat)
    requires InDoc(env.doc, e) && SameFor(env, env', p) && EverywhereIn(p, c)
    ensures SimpleHolds(env, c, e) == SimpleHolds(env', c, e)
    decreases c, 3
  {
    match c {
      case Is(list) => ListUnaffected(p, env, env', list, e);
      case Where(list) => ListUnaffected(p, env, env', list, e);
      case Negation(list) => ListUnaffected(p, env, env', list, e);
      case Nth(_) => NthUnaffected(p, env, env', c, e);
      case NthOf(_, _) => NthUnaffected(p, env, env', c, e);
      case Has(relatives) =>
        var below, below' := env.(anchor := Some(e)), env'.(anchor := Some(e));
        forall i | 0 <= i < |relatives|
          ensures RelativeHolds(below, relatives[i]) == RelativeHolds(below', relatives[i])
        {
          assert EverywhereInRelative(p, relatives[i]);
          RelativeUnaffected(p, below, below', relatives[i]);
        }
      case _ =>
    }
  }

  lemma {:induction false} RelativeUnaffected(p: Component -> bool, env: Env, env': Env, relative: RelativeSelector)
    requires SameFor(env, env', p) && EverywhereInRelative(p, relative)
    ensures RelativeHolds(env, relative) == RelativeHolds(env', relative)
    decreases relative, 0
  {
    forall f | 0 <= f < |env.doc.nodes|
      ensures Matches(env, relative.selector.comps, f) == Matches(env', relative.selector.comps, f)
    {
      MatchUnaffected(p, env, env', relative.selector.comps, f);
    }
  }

  lemma {:induction false} NthUnaffected(p: Component -> bool, env: Env, env': Env, c: Component, e: nat)
    requires InDoc(env.doc, e) && SameFor(env, env', p) && (c.Nth? || c.NthOf?) && EverywhereIn(p, c)
    ensures NthHolds(env, c, e) == NthHolds(env', c, e)
    decreases c, 2
  {
    if c.NthOf? {
      forall f | 0 <= f < |env.doc.nodes| ensures SomeHolds(env, c.of, f) == SomeHolds(env', c.of, f) {
        ListUnaffected(p, env, env', c.of, f);
      }
    }
    SameCounts(env, env', c, c, e);
  }

  /** The same siblings are counted. */
  lemma SameCounts(env: Env, env': Env, c: Component, c': Component, e: nat)
    requires InDoc(env.doc, e) && env.doc == env'.doc && env.reading.Actual? && env'.reading.Actual?
    requires (c.Nth? || c.NthOf?) && (c'.Nth? || c'.NthOf?) && c.nth == c'.nth
    requires OfList(c) == [] <==> OfList(c') == []
    requires OfList(c) != [] ==>
               forall f :: 0 <= f < |env.doc.nodes| ==> SomeHolds(env, OfList(c), f) == SomeHolds(env', OfList(c'), f)
    ensures NthHolds(env, c, e) == NthHolds(env', c', e)
  {
    forall ofType: bool, fromEnd: bool
      ensures CountedSiblings(env, c, ofType, fromEnd, e) == CountedSiblings(env', c', ofType, fromEnd, e)
    {
    }
  }

  lemma {:induction false} ListUnaffected(p: Component -> bool, env: Env, env': Env, list: seq<Selector>, e: nat)
    requires InDoc(env.doc, e) && SameFor(env, env', p) && EverywhereInList(p, list)
    ensures SomeHolds(env, list, e) == SomeHolds(env', list, e)
    decreases list, 0
  {
    forall i | 0 <= i < |list| ensures Matches(env, list[i].comps, e) == Matches(env', list[i].comps, e) {
      MatchUnaffected(p, env, env', list[i].comps, e);
    }
  }

  lemma {:induction false} MatchUnaffected(p: Component -> bool, env: Env, env': Env, s: seq<Component>, e: nat)
    requires InDoc(env.doc, e) && SameFor(env, env', p) && Everywhere(p, s)
    ensures Matches(env, s, e) == Matches(env', s, e)
    decreases s, 1
  {
    forall i | 0 <= i < CompoundLength(s) ensures SimpleHolds(env, s[i], e) == SimpleHolds(env', s[i], e) {
      SimpleUnaffected(p, env, env', s[i], e);
    }
    if NextCombinator(s).Some? {
      forall f | 0 <= f < |env.doc.nodes|
        ensures Matches(env, AfterCombinator(s), f) == Matches(env', AfterCombinator(s), f)
      {
        MatchUnaffected(p, env, env', AfterCombinator(s), f);
      }
    }
  }

  // ---------- The rewritten selector ----------

  /** Combinators stay where they are. */
  lemma {:induction false} RewriteKeepsShape(s: seq<Component>, parent: seq<Selector>)
    ensures CompoundLength(Rewrite(s, parent)) == CompoundLength(s)
    ensures NextCombinator(Rewrite(s, parent)) == NextCombinator(s)
    ensures NextCombinator(s).Some? ==> AfterCombinator(Rewrite(s, parent)) == Rewrite(AfterCombinator(s), parent)
  {
    if s != [] {
      var r := Rewrite(s, parent);
      assert r[0] == RewriteComponent(s[0], parent) && r[1..] == Rewrite(s[1..], parent);
      if !s[0].Combinator? {
        RewriteKeepsShape(s[1..], parent);
        CompoundLengthStep(s);
        CompoundLengthStep(r);
      } else {
        assert CompoundLength(s) == 0 && CompoundLength(r) == 0;
      }
    }
  }

  lemma {:induction false} SelectorMeaning(env: Env, env': Env, sel: Selector, parent: seq<Selector>, e: nat)
    requires InDoc(env.doc, e) && ReadsAs(env, env', parent) && FlagsTrue(sel)
    ensures Matches(env, ReplaceParent(sel, parent).comps, e) <==> Matches(env', sel.comps, e)
    decreases sel, 0
  {
    if sel.flags.hasParent {
      ComponentsMeaning(env, env', sel.comps, parent, e);
    } else {
      FlagCoversSelector(sel);
      MatchUnaffected(NotParent, env, env', sel.comps, e);
    }
  }

  lemma {:induction false} ComponentsMeaning(env: Env, env': Env, s: seq<Component>, parent: seq<Selector>, e: nat)
    requires InDoc(env.doc, e) && ReadsAs(env, env', parent) && FlagsTrueInside(s)
    ensures Matches(env, Rewrite(s, parent), e) <==> Matches(env', s, e)
    decreases s, 1
  {
    var r := Rewrite(s, parent);
    RewriteKeepsShape(s, parent);
    forall i | 0 <= i < CompoundLength(s) ensures SimpleHolds(env, r[i], e) <==> SimpleHolds(env', s[i], e) {
      RewriteAt(s, parent, i);
      ComponentMeaning(env, env', s[i], parent, e);
    }
    if NextCombinator(s).Some? {
      var rest := AfterCombinator(s);
      forall f | 0 <= f < |env.doc.nodes| ensures Matches(env, AfterCombinator(r), f) <==> Matches(env', rest, f) {
        ComponentsMeaning(env, env', rest, parent, f);
      }
    }
  }

  lemma {:induction false} ComponentMeaning(env: Env, env': Env, c: Component, parent: seq<Selector>, e: nat)
    requires InDoc(env.doc, e) && ReadsAs(env, env', parent) && FlagsTrueIn(c)
    ensures SimpleHolds(env, RewriteComponent(c, parent), e) <==> SimpleHolds(env', c, e)
    decreases c, 3
  {
    match c {
      case ParentSelector => AmpersandMeaning(env, env', parent, e);
      case Is(_) => ListComponentMeaning(env, env', c, parent, e);
      case Where(_) => ListComponentMeaning(env, env', c, parent, e);
      case Negation(_) => ListComponentMeaning(env, env', c, parent, e);
      case Nth(_) => NthUnaffected(NotParent, env, env', c, e);
      case NthOf(_, _) => NthOfMeaning(env, env', c, parent, e);
      case Has(_) => HasComponentMeaning(env, env', c, parent, e);
      case _ =>
    }
  }

  lemma {:induction false} ListComponentMeaning(env: Env, env': Env, c: Component, parent: seq<Selector>, e: nat)
    requires InDoc(env.doc, e) && ReadsAs(env, env', parent) && FlagsTrueIn(c)
    requires c.Is? || c.Where? || c.Negation?
    ensures SimpleHolds(env, RewriteComponent(c, parent), e) <==> SimpleHolds(env', c, e)
    decreases c, 2
  {
    ListMeaning(env, env', c.list, parent, e);
  }

  lemma AmpersandMeaning(env: Env, env': Env, parent: seq<Selector>, e: nat)
    requires InDoc(env.doc, e) && ReadsAs(env, env', parent)
    ensures SimpleHolds(env, Is(parent), e) <==> SimpleHolds(env', ParentSelector, e)
  {
  }

  lemma {:induction false} HasComponentMeaning(env: Env, env': Env, c: Component, parent: seq<Selector>, e: nat)
    requires InDoc(env.doc, e) && ReadsAs(env, env', parent) && c.Has? && FlagsTrueIn(c)
    ensures SimpleHolds(env, RewriteComponent(c, parent), e) <==> SimpleHolds(env', c, e)
    decreases c, 2
  {
    if env.anchor.None? {
      HasMeaning(env.(anchor := Some(e)), env'.(anchor := Some(e)), c.relatives, parent);
    }
  }

  lemma {:induction false} NthOfMeaning(env: Env, env': Env, c: Component, parent: seq<Selector>, e: nat)
    requires InDoc(env.doc, e) && ReadsAs(env, env', parent) && c.NthOf? && AllFlagsTrue(c.of)
    ensures NthHolds(env, RewriteComponent(c, parent), e) <==> NthHolds(env', c, e)
    decreases c, 2
  {
    forall f | 0 <= f < |env.doc.nodes|
      ensures SomeHolds(env, ReplaceInList(c.of, parent), f) <==> SomeHolds(env', c.of, f)
    {
      ListMeaning(env, env', c.of, parent, f);
    }
    SameCounts(env, env', RewriteComponent(c, parent), c, e);
  }

  lemma {:induction false} HasMeaning(env: Env, env': Env, relatives: seq<RelativeSelector>, parent: seq<Selector>)
    requires ReadsAs(env, env', parent)
    requires forall i :: 0 <= i < |relatives| ==> FlagsTrueInRelative(relatives[i])
    ensures HasHolds(env, ReplaceRelatives(relatives, parent)) <==> HasHolds(env', relatives)
    decreases relatives, 0
  {
    var r := ReplaceRelatives(relatives, parent);
    forall i | 0 <= i < |relatives| ensures RelativeHolds(env, r[i]) <==> RelativeHolds(env', relatives[i]) {
      ReplaceRelativesAt(relatives, parent, i);
      RelativeMeaning(env, env', relatives[i], parent);
    }
  }

  lemma {:induction false} RelativeMeaning(env: Env, env': Env, relative: RelativeSelector, parent: seq<Selector>)
    requires ReadsAs(env, env', parent) && FlagsTrueInRelative(relative)
    ensures RelativeHolds(env, ReplaceRelative(relative, parent)) <==> RelativeHolds(env', relative)
    decreases relative, 0
  {
    forall f | 0 <= f < |env.doc.nodes|
      ensures Matches(env, ReplaceRelative(relative, parent).selector.comps, f) <==>
              Matches(env', relative.selector.comps, f)
    {
      SelectorMeaning(env, env', relative.selector, parent, f);
    }
  }

  lemma {:induction false} ListMeaning(env: Env, env': Env, list: seq<Selector>, parent: seq<Selector>, e: nat)
    requires InDoc(env.doc, e) && ReadsAs(env, env', parent) && AllFlagsTrue(list)
    ensures SomeHolds(env, ReplaceInList(list, parent), e) <==> SomeHolds(env', list, e)
    decreases list, 0
  {
    var r := ReplaceInList(list, parent);
    forall i | 0 <= i < |list| ensures Matches(env, r[i].comps, e) <==> Matches(env', list[i].comps, e) {
      ReplaceInListAt(list, parent, i);
      SelectorMeaning(env, env', list[i], parent, e);
    }
  }

  /** The rewritten selector matches what the original matches with `&` read as "matches the parent list". */
  lemma ReplacementPreservesMeaning(env: Env, sel: Selector, parent: seq<Selector>, e: nat)
    requires InDoc(env.doc, e) && env.reading.Actual? && FlagsTrue(sel)
    ensures Matches(env, ReplaceParent(sel, parent).comps, e) <==>
            Matches(env.(ampersand := AsElements(ParentMatches(env, parent))), sel.comps, e)
  {
    SelectorMeaning(env, env.(ampersand := AsElements(ParentMatches(env, parent))), sel, parent, e);
  }

  /** What `parent` matches in `env`, wherever it is asked. */
  ghost function AlwaysMatches(env: Env, parent: seq<Selector>): (Option<nat>, nat) -> bool {
    (anchor: Option<nat>, f: nat) => InDoc(env.doc, f) && SomeHolds(env, parent, f)
  }

  /**
   If the parent list asks for no `:has()`, `&` is read as a plain set of elements: those that
   the list matches outside of everything.
   */
  lemma ReplacementOfPlainParent(env: Env, sel: Selector, parent: seq<Selector>, e: nat)
    requires InDoc(env.doc, e) && env.reading.Actual? && env.ampersand.AsScope? && FlagsTrue(sel)
    requires EverywhereInList(AnchorBlind, parent)
    ensures Matches(env, ReplaceParent(sel, parent).comps, e) <==>
            Matches(env.(ampersand := AsElements(AlwaysMatches(env, parent))), sel.comps, e)
  {
    var env' := env.(ampersand := AsElements(AlwaysMatches(env, parent)));
    forall anchor: Option<nat>, f: nat | f < |env.doc.nodes|
      ensures SomeHolds(env.(anchor := anchor), parent, f) == SomeHolds(env, parent, f)
    {
      ListUnaffected(AnchorBlind, env, env.(anchor := anchor), parent, f);
    }
    SelectorMeaning(env, env', sel, parent, e);
  }
}
