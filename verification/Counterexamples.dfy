/** Inputs on which the engine does not do what it is meant to: why some results need a condition. */
module Counterexamples {
  import opened Wrappers
  import opened Dom
  import opened Syntax
  import opened Kleene
  import opened Semantics
  import opened Matching
  import opened Specificity
  import opened RelativeHint
  import opened HasSearch
  import opened Soundness
  import opened CacheUse

  function Element(parent: Option<nat>, prev: Option<nat>, next: Option<nat>, firstChild: Option<nat>): Node {
    Node(parent, prev, next, firstChild, 0, 0, None, {}, map[], {}, false, parent.None?, firstChild.None?, false)
  }

  /** A root with two children, the first of which has a child. */
  function Family(): (d: Doc)
    ensures |d.nodes| == 4
    ensures Prev(d, 3) == Some(1) && Prev(d, 1) == None && FirstChild(d, 1) == Some(2) && Parent(d, 2) == Some(1)
    ensures Parent(d, 0) == None && Parent(d, 1) == Some(0)
    ensures forall e :: 0 <= e < 4 ==> !d.nodes[e].ignoresNth && (d.nodes[e].isRoot <==> e == 0)
    ensures forall e :: 0 <= e < 4 ==> (d.nodes[e].isEmpty <==> e == 2 || e == 3)
  {
    var nodes := [Element(None, None, None, Some(1)), Element(Some(0), None, Some(3), Some(2)),
                  Element(Some(1), None, None, None), Element(Some(0), Some(1), None, None)];
    assert WellLinked(Document(nodes));
    Document(nodes)
  }

  function Single(c: Component): Selector {
    Selector(0, NO_FLAGS, [c])
  }

  /** The argument of `:has(> *)`. */
  function AnyChild(): RelativeSelector {
    RelativeSelector(InChild, Selector(0, NO_FLAGS, [ExplicitUniversalType, Combinator(Child), RelativeSelectorAnchor]))
  }

  /** A selector of one component answers what the component does. */
  lemma SingleAnswers(ctx: Ctx, c: Component, e: nat)
    requires InDoc(ctx.doc, e) && !c.Combinator?
    ensures Complex(ctx, [c], e).ToKleene() == Simple(ctx, c, e)
    ensures SelectorList(ctx, [Single(c)], e) == Simple(ctx, c, e)
  {
    var s := [c];
    assert s[0] == c && s[1..] == [];
    assert CompoundLength(s[1..]) == 0 && CompoundLength(s) == 1;
    assert Compound(ctx, s[1..], e) == True;
    var list := [Single(c)];
    assert list[0].comps == s && list[1..] == [];
    assert SelectorList(ctx, list[1..], e) == False;
  }

  lemma AnyChildMatches(inside: Ctx, s: seq<Component>, e: nat, child: nat)
    requires InDoc(inside.doc, e) && FirstChild(inside.doc, e) == Some(child) && inside.anchor == Some(e)
    requires s == AnyChild().selector.comps
    ensures Complex(inside, s, child).Matched?
  {
    assert s[1..] == [Combinator(Child), RelativeSelectorAnchor];
    assert CompoundLength(s[1..]) == 0 && CompoundLength(s) == 1;
    assert AfterCombinator(s) == [RelativeSelectorAnchor];
    assert Compound(inside, s[1..], child) == True;
    assert Compound(inside, s, child) == And(Simple(inside, s[0], child), Compound(inside, s[1..], child)) == True;
    SingleAnswers(inside, RelativeSelectorAnchor, e);
    assert Candidates(inside, Child, AfterCombinator(s), True, child).Matched?;
  }

  lemma HasAnyChild(ctx: Ctx, r: RelativeSelector, e: nat, child: nat)
    requires InDoc(ctx.doc, e) && ctx.mode.Normal? && ctx.anchor.None? && FirstChild(ctx.doc, e) == Some(child)
    requires r == AnyChild()
    ensures Simple(ctx, Has([r]), e) == True
  {
    var inside := ctx.(anchor := Some(e));
    AnyChildMatches(inside, r.selector.comps, e, child);
    FirstIsTried(inside, r, e, child);
    HasOneAnswer(ctx, r, e);
  }

  lemma FirstIsTried(inside: Ctx, relative: RelativeSelector, e: nat, child: nat)
    requires InDoc(inside.doc, e) && FirstChild(inside.doc, e) == Some(child)
    requires relative.hint.InChild? && Complex(inside, relative.selector.comps, child).Matched?
    ensures Relative(inside, relative, e)
  {
  }

  lemma NothingBelow(ctx: Ctx, r: RelativeSelector, e: nat)
    requires InDoc(ctx.doc, e) && ctx.mode.Normal? && FirstChild(ctx.doc, e) == None && r.hint.InChild?
    ensures Simple(ctx, Has([r]), e) == False
  {
    if ctx.anchor.None? {
      HasOneAnswer(ctx, r, e);
      assert !Relative(ctx.(anchor := Some(e)), r, e);
    }
  }

  /** `:not(:has(> *))` */
  function Childless(): Component {
    Negation([Single(Has([AnyChild()]))])
  }

  /** Outside of a `:has()` it holds of the elements without children, inside of all. */
  lemma ChildlessAnswers(ctx: Ctx, c: Component, e: nat)
    requires ctx.doc == Family() && ctx.mode.Normal? && (e == 1 || e == 3) && c == Childless()
    ensures SelectorList(ctx, [Single(c)], e) == FromBool(ctx.anchor.Some? || e == 3)
  {
    var negated := ctx.(inNegation := !ctx.inNegation);
    SingleAnswers(negated, Has([AnyChild()]), e);
    SingleAnswers(ctx, c, e);
    AnyChildAnswers(negated, AnyChild(), e);
  }

  lemma AnyChildAnswers(ctx: Ctx, r: RelativeSelector, e: nat)
    requires ctx.doc == Family() && ctx.mode.Normal? && (e == 1 || e == 3) && r == AnyChild()
    ensures Simple(ctx, Has([r]), e) == FromBool(ctx.anchor.None? && e == 1)
  {
    if ctx.anchor.None? {
      if e == 1 {
        HasAnyChild(ctx, r, 1, 2);
      } else {
        NothingBelow(ctx, r, 3);
      }
    }
  }

  /**
   * An index that is counted outside of a `:has()` can differ from the one counted inside, but
   * the caches keep them under the same key: `:nth-child(1 of :not(:has(> *)))` is the first of
   * its kind outside, and inside of a `:has()` it is the second.  Both are computed and stored;
   * whichever is stored first gives the other setting its answer, which is then wrong.
   */
  lemma CachedIndexCanBeStale(base: Ctx, anchor: nat, list: seq<Selector>)
    requires base.doc == Family() && base.mode.Normal? && list == [Single(Childless())]
    ensures var outside, inside := In(base, Setting(None, false)), In(base, Setting(Some(anchor), false));
            var c := ListedNth(list, false, 0, 1);
            && Indexed(outside, list, 3) && Indexed(inside, list, 3)
            && Index(outside, list, false, 3) == 1 && Index(inside, list, false, 3) == 2
            && !SameIndices(base, list, Setting(None, false), Setting(Some(anchor), false))
            && MatchesIndex(0, 1, Index(outside, list, false, 3))
            && GenericNth(inside, c, c.nth, 3) == False
  {
    var outside, inside := In(base, Setting(None, false)), In(base, Setting(Some(anchor), false));
    ChildlessIndex(outside, list);
    ChildlessIndex(inside, list);
    IndexedAnswer(inside, list, false, 0, 1, 3);
  }

  lemma ChildlessIndex(ctx: Ctx, list: seq<Selector>)
    requires ctx.doc == Family() && ctx.mode.Normal? && list == [Single(Childless())]
    ensures Indexed(ctx, list, 3) && Index(ctx, list, false, 3) == if ctx.anchor.Some? then 2 else 1
  {
    ChildlessAnswers(ctx, Childless(), 1);
    ChildlessAnswers(ctx, Childless(), 3);
    IndexStep(ctx, list, false, 1, 3);
    CountEnd(ctx, Counting(list), false, false, 1, 1);
  }

  // ---------- Revalidation ----------

  /** The list of `:nth-child(1 of :empty, :scope)`. */
  function EmptyOrScope(): seq<Selector> {
    [Single(Empty), Single(Scope)]
  }

  lemma PairAnswers(ctx: Ctx, x: Component, y: Component, e: nat)
    requires InDoc(ctx.doc, e) && !x.Combinator? && !y.Combinator?
    ensures SelectorList(ctx, [Single(x), Single(y)], e) == Or(Simple(ctx, x, e), Simple(ctx, y, e))
  {
    var list := [Single(x), Single(y)];
    SingleAnswers(ctx, x, e);
    SingleAnswers(ctx, y, e);
    assert list[0].comps == [x] && list[1..] == [Single(y)];
  }

  lemma SomeOfPair(env: Env, x: Component, y: Component, e: nat)
    requires InDoc(env.doc, e) && !x.Combinator? && !y.Combinator?
    ensures SomeHolds(env, [Single(x), Single(y)], e) <==> SimpleHolds(env, x, e) || SimpleHolds(env, y, e)
  {
    var list := [Single(x), Single(y)];
    SingleHolds(env, x, e);
    SingleHolds(env, y, e);
    assert list[0].comps == [x] && list[1].comps == [y];
  }

  /** The first child of the family is no `:empty`, but at even parity it is taken for the scoping element. */
  lemma EmptyOrScopeIndex(ctx: Ctx, list: seq<Selector>)
    requires ctx.doc == Family() && ctx.mode.Revalidation? && list == EmptyOrScope()
    ensures Indexed(ctx, list, 3) && Index(ctx, list, false, 3) == if ctx.inNegation then 1 else 2
  {
    PairAnswers(ctx, Empty, Scope, 1);
    PairAnswers(ctx, Empty, Scope, 3);
    IndexStep(ctx, list, false, 1, 3);
    CountEnd(ctx, Counting(list), false, false, 1, 1);
  }

  /**
   * Without a scoping element `:scope` is the root.  Revalidation takes every sibling for it, so the
   * first empty child is counted as the second: a selector that matches is answered as failing.
   */
  lemma RevalidationCanMissAMatch(ctx: Ctx, list: seq<Selector>)
    requires ctx == Ctx(Family(), Revalidation, None, None, false) && list == EmptyOrScope()
    ensures var c := ListedNth(list, false, 0, 1);
            && Matches(EnvOf(ctx, Actual), [c], 3)
            && Complex(ctx, [c], 3).IsFailure()
  {
    var c := ListedNth(list, false, 0, 1);
    AnsweredAsSecond(ctx, list, c);
    SingleAnswers(ctx, c, 3);
    FirstEmpty(EnvOf(ctx, Actual), c);
    SingleHolds(EnvOf(ctx, Actual), c, 3);
  }

  lemma AnsweredAsSecond(ctx: Ctx, list: seq<Selector>, c: Component)
    requires ctx == Ctx(Family(), Revalidation, None, None, false) && list == EmptyOrScope()
    requires c == ListedNth(list, false, 0, 1)
    ensures Simple(ctx, c, 3) == False
  {
    EmptyOrScopeIndex(ctx, list);
    IndexedAnswer(ctx, list, false, 0, 1, 3);
    NotTheFirst(0, 1);
    NthAnswers(ctx, c, 3);
  }

  lemma NthAnswers(ctx: Ctx, c: Component, e: nat)
    requires InDoc(ctx.doc, e) && c.NthOf?
    ensures Simple(ctx, c, e) == GenericNth(ctx, c, c.nth, e)
  {
  }

  lemma NotTheFirst(a: I32, b: I32)
    requires a == 0 && b == 1
    ensures !MatchesIndex(a, b, 2) && MatchesIndex(a, b, 1)
  {
  }

  lemma FirstEmpty(env: Env, c: Component)
    requires env == Env(Family(), None, None, AsScope, Actual)
    requires c.NthOf? && c.nth == NthFirst(false) && c.of == EmptyOrScope()
    ensures NthHolds(env, c, 3)
  {
    SomeOfPair(env, Empty, Scope, 3);
    SomeOfPair(env, Empty, Scope, 1);
    NoneBefore(env, c);
    FirstHolds(env, c);
  }

  lemma FirstHolds(env: Env, c: Component)
    requires env.doc == Family() && env.reading.Actual? && c.NthOf? && c.nth == NthFirst(false)
    requires SomeHolds(env, c.of, 3) && CountedSiblings(env, c, false, false, 3) == {}
    ensures NthHolds(env, c, 3)
  {
    assert 0 * 0 + 1 == 1;
    assert InProgression(0, 1, 1);
  }

  lemma NoneBefore(env: Env, c: Component)
    requires env.doc == Family() && env.reading.Actual? && c.NthOf? && c.of != [] && !SomeHolds(env, c.of, 1)
    ensures CountedSiblings(env, c, false, false, 3) == {}
  {
    forall f: nat | f < 4 && EarlierSibling(env.doc, f, 3)
      ensures f == 1
    {
      assert !EarlierSibling(env.doc, f, 1);
    }
  }

  /** An index also depends on the parity: what is stored at one is answered wrongly at the other. */
  lemma CachedIndexCanBeOfTheOtherParity(base: Ctx, list: seq<Selector>)
    requires base == Ctx(Family(), Revalidation, None, None, false) && list == EmptyOrScope()
    ensures var even, odd := In(base, Setting(None, false)), In(base, Setting(None, true));
            var c := ListedNth(list, false, 0, 1);
            && Indexed(even, list, 3) && Indexed(odd, list, 3)
            && Index(even, list, false, 3) == 2 && Index(odd, list, false, 3) == 1
            && !SameIndices(base, list, Setting(None, false), Setting(None, true))
            && !MatchesIndex(0, 1, Index(even, list, false, 3))
            && GenericNth(odd, c, c.nth, 3) == True
  {
    var even, odd := In(base, Setting(None, false)), In(base, Setting(None, true));
    EmptyOrScopeIndex(even, list);
    EmptyOrScopeIndex(odd, list);
    IndexedAnswer(odd, list, false, 0, 1, 3);
    NotTheFirst(0, 1);
  }

  /** The argument of `:has(> :scope)`. */
  function ScopedChild(): RelativeSelector {
    RelativeSelector(InChild,
                     Selector(0, SelectorFlags(false, true), [Scope, Combinator(Child), RelativeSelectorAnchor]))
  }

  /** Under revalidation it is found below the root at even parity, and is not at odd parity. */
  lemma ScopedChildSearch(inside: Ctx, r: RelativeSelector)
    requires inside.doc == Family() && inside.mode.Revalidation? && inside.anchor == Some(0) && r == ScopedChild()
    ensures Relative(inside, r, 0) <==> !inside.inNegation
  {
    var s := r.selector.comps;
    forall f | 0 <= f < 4
      ensures Complex(inside, s, f).ToKleene().ToBool(true) <==> !inside.inNegation && Parent(inside.doc, f) == Some(0)
    {
      ScopedChildAnswer(inside, s, f);
    }
    SearchIsExact(inside, r, 0);
    assert Parent(inside.doc, 1) == Some(0);
    if Relative(inside, r, 0) {
      var f :| 0 <= f < 4 && InRegion(inside.doc, r.hint, 0, f) && Hit(inside, s, f);
      assert Complex(inside, s, f).ToKleene().ToBool(true);
    } else {
      assert !(InRegion(inside.doc, r.hint, 0, 1) && Hit(inside, s, 1));
    }
  }

  lemma ScopedChildAnswer(inside: Ctx, s: seq<Component>, f: nat)
    requires InDoc(inside.doc, f) && inside.mode.Revalidation? && inside.anchor == Some(0)
    requires s == [Scope, Combinator(Child), RelativeSelectorAnchor]
    ensures Complex(inside, s, f).ToKleene().ToBool(true) <==> !inside.inNegation && Parent(inside.doc, f) == Some(0)
  {
    assert s[1..] == [Combinator(Child), RelativeSelectorAnchor];
    assert CompoundLength(s[1..]) == 0 && CompoundLength(s) == 1;
    assert AfterCombinator(s) == [RelativeSelectorAnchor];
    assert Compound(inside, s[1..], f) == True;
    assert Compound(inside, s, f) == And(Simple(inside, s[0], f), Compound(inside, s[1..], f));
    if Parent(inside.doc, f).Some? {
      var p := Parent(inside.doc, f).value;
      SingleAnswers(inside, RelativeSelectorAnchor, p);
    }
  }

  /**
   * A result that `:has(> :scope)` stores at even parity makes `:not(:has(> :scope))` fail on the
   * root, which it matches: there is no child that is the root, and a search at odd parity says so.
   */
  lemma CachedSearchCanBeStale(base: Ctx, r: RelativeSelector)
    requires base == Ctx(Family(), Revalidation, None, None, false) && r == ScopedChild()
    ensures var stored := Relative(In(base, Setting(Some(0), false)), r, 0);
            var c := Negation([Single(Has([r]))]);
            && stored && !Relative(In(base, Setting(Some(0), true)), r, 0)
            && !SameSearches(base, r, false, true)
            && Not(FromBool(stored)) == False
            && Simple(base, c, 0) == True
            && SimpleHolds(EnvOf(base, Actual), c, 0)
  {
    ScopedChildSearch(In(base, Setting(Some(0), false)), r);
    ScopedChildSearch(In(base, Setting(Some(0), true)), r);
    NotHasAnswer(base, r, 0);
    NoScopedChild(EnvOf(base, Actual), r);
    SingleHolds(EnvOf(base, Actual), Has([r]), 0);
  }

  /** `:not(:has(..))` answers the contrary of the search that is made at the other parity. */
  lemma NotHasAnswer(ctx: Ctx, r: RelativeSelector, e: nat)
    requires InDoc(ctx.doc, e) && !ctx.mode.IsForInvalidation() && ctx.anchor.None?
    ensures Simple(ctx, Negation([Single(Has([r]))]), e) ==
            Not(FromBool(Relative(ctx.(anchor := Some(e), inNegation := !ctx.inNegation), r, e)))
  {
    var negated := ctx.(inNegation := !ctx.inNegation);
    SingleAnswers(negated, Has([r]), e);
    HasOneAnswer(negated, r, e);
  }

  lemma NoScopedChild(env: Env, r: RelativeSelector)
    requires env == Env(Family(), None, None, AsScope, Actual) && r == ScopedChild()
    ensures !SimpleHolds(env, Has([r]), 0)
  {
    var inside := env.(anchor := Some(0));
    var s := r.selector.comps;
    forall f | 0 <= f < 4
      ensures !Matches(inside, s, f)
    {
      NotScopedBelow(inside, s, f);
    }
    assert !RelativeHolds(inside, [r][0]);
  }

  lemma NotScopedBelow(inside: Env, s: seq<Component>, f: nat)
    requires inside == Env(Family(), None, Some(0), AsScope, Actual) && f < 4
    requires s == [Scope, Combinator(Child), RelativeSelectorAnchor]
    ensures !Matches(inside, s, f)
  {
    assert s[1..] == [Combinator(Child), RelativeSelectorAnchor] && CompoundLength(s[1..]) == 0;
    assert CompoundLength(s) == 1 && NextCombinator(s) == Some(Child);
    if f == 0 {
      assert Parent(inside.doc, f) == None;
    } else {
      assert !SimpleHolds(inside, s[0], f);
    }
  }

  lemma SingleHolds(env: Env, c: Component, e: nat)
    requires InDoc(env.doc, e) && !c.Combinator?
    ensures Matches(env, [c], e) <==> SimpleHolds(env, c, e)
    ensures SomeHolds(env, [Single(c)], e) <==> SimpleHolds(env, c, e)
  {
    var s := [c];
    assert s[1..] == [] && CompoundLength(s[1..]) == 0;
    assert CompoundLength(s) == 1 && NextCombinator(s).None?;
    var list := [Single(c)];
    assert list[0].comps == s;
  }
}
