/**
 When `&` can be read as one fixed set of elements.  Inside of a `:has()` a parent
 list that asks for `:has()` itself matches nothing by that, so the elements
 that `&` stands for can differ inside and outside.
 */
module ParentReading {
  import opened Wrappers
  import opened Dom
  import opened Syntax
  import opened Specificity
  import opened Semantics
  import opened RelativeHint
  import opened ParentSelectors
  import opened ParentMeaning
  import opened Counterexamples

  // ---------- What the parser makes ----------

  /** The anchor stands only where the parser puts it, inside of `:has()`. */
  ghost predicate AnchorsInHas(s: seq<Component>)
    decreases s, 0
  {
    forall i :: 0 <= i < |s| ==> AnchorsInHasIn(s[i])
  }

  ghost predicate AnchorsInHasIn(c: Component)
    decreases c, 0
  {
    match c
    case NthOf(_, of) => AnchorsInHasList(of)
    case Is(list) => AnchorsInHasList(list)
    case Where(list) => AnchorsInHasList(list)
    case Negation(list) => AnchorsInHasList(list)
    case RelativeSelectorAnchor => false
    case _ => true
  }

  ghost predicate AnchorsInHasList(list: seq<Selector>)
    decreases list, 0
  {
    forall i :: 0 <= i < |list| ==> AnchorsInHas(list[i].comps)
  }

  predicate HintsRight(c: Component) {
    c.Has? ==> forall i :: 0 <= i < |c.relatives| ==> WellFormedRelative(c.relatives[i])
  }

  ghost predicate Parsed(s: seq<Component>) {
    AnchorsInHas(s) && Everywhere(HintsRight, s)
  }

  ghost predicate ParsedIn(c: Component) {
    AnchorsInHasIn(c) && EverywhereIn(HintsRight, c)
  }

  ghost predicate ParsedList(list: seq<Selector>) {
    AnchorsInHasList(list) && EverywhereInList(HintsRight, list)
  }

  // ---------- Inside of any `:has()` it is the same ----------

  /** No other element is related to `e` in any way. */
  predicate Isolated(d: Doc, e: nat)
    requires InDoc(d, e)
  {
    Parent(d, e).None? && Prev(d, e).None? && Next(d, e).None? && FirstChild(d, e).None?
  }

  lemma IsolatedIsAlone(d: Doc, e: nat, f: nat)
    requires InDoc(d, e) && InDoc(d, f) && Isolated(d, e)
    ensures !EarlierSibling(d, e, f) && !EarlierSibling(d, f, e)
    ensures !Ancestor(d, e, f) && !Ancestor(d, f, e)
    ensures Parent(d, f) != Some(e) && Prev(d, f) != Some(e)
  {
    LaterFromNext(d, e, f);
    SubtreeFromFirstChild(d, e, f);
  }

  lemma IsolatedHasNothing(env: Env, relative: RelativeSelector, e: nat)
    requires InDoc(env.doc, e) && Isolated(env.doc, e) && env.anchor == Some(e) && WellFormedRelative(relative)
    ensures !RelativeHolds(env, relative)
  {
    forall f | 0 <= f < |env.doc.nodes| && Matches(env, relative.selector.comps, f)
      ensures false
    {
      MatchLiesInRegion(env, relative.selector.comps, e, f);
      forall g | 0 <= g < |env.doc.nodes|
        ensures Prev(env.doc, g) != Some(e) && !EarlierSibling(env.doc, e, g)
      {
        IsolatedIsAlone(env.doc, e, g);
      }
      IsolatedIsAlone(env.doc, e, f);
    }
  }

  /** Two anchors under which `:has()` fails on `e` and on whatever is related to it. */
  ghost predicate Silent(env: Env, env': Env, e: nat) {
    && InDoc(env.doc, e) && env.reading.Actual? && env.ampersand.AsScope?
    && env' == env.(anchor := env'.anchor)
    && ((env.anchor.Some? && env'.anchor.Some?) || Isolated(env.doc, e))
  }

  lemma {:induction false} SimpleSilent(env: Env, env': Env, c: Component, e: nat)
    requires Silent(env, env', e) && ParsedIn(c)
    ensures SimpleHolds(env, c, e) == SimpleHolds(env', c, e)
    decreases c, 3
  {
    match c {
      case Is(list) => ListSilent(env, env', list, e);
      case Where(list) => ListSilent(env, env', list, e);
      case Negation(list) => ListSilent(env, env', list, e);
      case Nth(_) => SameCounts(env, env', c, c, e);
      case NthOf(_, _) => NthSilent(env, env', c, e);
      case Has(relatives) =>
        HasSilent(env, relatives, e);
        HasSilent(env', relatives, e);
      case _ =>
    }
  }

  lemma HasSilent(env: Env, relatives: seq<RelativeSelector>, e: nat)
    requires InDoc(env.doc, e) && env.reading.Actual? && (env.anchor.Some? || Isolated(env.doc, e))
    requires HintsRight(Has(relatives))
    ensures !SimpleHolds(env, Has(relatives), e)
  {
    if env.anchor.None? {
      forall i | 0 <= i < |relatives|
        ensures !RelativeHolds(env.(anchor := Some(e)), relatives[i])
      {
        IsolatedHasNothing(env.(anchor := Some(e)), relatives[i], e);
      }
    }
  }

  lemma {:induction false} NthSilent(env: Env, env': Env, c: Component, e: nat)
    requires Silent(env, env', e) && c.NthOf? && ParsedIn(c)
    ensures NthHolds(env, c, e) == NthHolds(env', c, e)
    decreases c, 2
  {
    ListSilent(env, env', c.of, e);
    if Isolated(env.doc, e) {
      forall ofType: bool, fromEnd: bool
        ensures CountedSiblings(env, c, ofType, fromEnd, e) == CountedSiblings(env', c, ofType, fromEnd, e) == {}
      {
        forall f | 0 <= f < |env.doc.nodes|
          ensures !EarlierSibling(env.doc, e, f) && !EarlierSibling(env.doc, f, e)
        {
          IsolatedIsAlone(env.doc, e, f);
        }
      }
    } else {
      forall f | 0 <= f < |env.doc.nodes|
        ensures SomeHolds(env, c.of, f) == SomeHolds(env', c.of, f)
      {
        ListSilent(env, env', c.of, f);
      }
      SameCounts(env, env', c, c, e);
    }
  }

  lemma {:induction false} ListSilent(env: Env, env': Env, list: seq<Selector>, e: nat)
    requires Silent(env, env', e) && ParsedList(list)
    ensures SomeHolds(env, list, e) == SomeHolds(env', list, e)
    decreases list, 0
  {
    forall i | 0 <= i < |list|
      ensures Matches(env, list[i].comps, e) == Matches(env', list[i].comps, e)
    {
      MatchSilent(env, env', list[i].comps, e);
    }
  }

  lemma {:induction false} MatchSilent(env: Env, env': Env, s: seq<Component>, e: nat)
    requires Silent(env, env', e) && Parsed(s)
    ensures Matches(env, s, e) == Matches(env', s, e)
    decreases s, 1
  {
    forall i | 0 <= i < CompoundLength(s)
      ensures SimpleHolds(env, s[i], e) == SimpleHolds(env', s[i], e)
    {
      SimpleSilent(env, env', s[i], e);
    }
    if NextCombinator(s).Some? {
      forall f | 0 <= f < |env.doc.nodes| && Related(env.doc, NextCombinator(s).value, e, f)
        ensures Matches(env, AfterCombinator(s), f) == Matches(env', AfterCombinator(s), f)
      {
        if Isolated(env.doc, e) {
          IsolatedIsAlone(env.doc, e, f);
        } else {
          MatchSilent(env, env', AfterCombinator(s), f);
        }
      }
    }
  }

  // ---------- Selectors that show a difference ----------

  function SelectorOf(s: seq<Component>): Selector {
    Selector(0, FlagsOf(s), s)
  }

  function HintOf(c: Combinator): MatchHint {
    if c.Child? then InChild else InNextSibling
  }

  function HasOne(c: Combinator, x: Component): Selector {
    SelectorOf([Has([OneRelative(c, x)])])
  }

  /** `:has(> &)` or `:has(+ &)` */
  function HasParent(c: Combinator): Selector {
    HasOne(c, ParentSelector)
  }

  /** `:has(> :is(& > *))` or `:has(+ :is(& + *))` */
  function HasBehindParent(c: Combinator): Selector {
    HasOne(c, Is([SelectorOf([ExplicitUniversalType, Combinator(c), ParentSelector])]))
  }

  lemma PairHolds(env: Env, x: Component, c: Combinator, y: Component, e: nat)
    requires InDoc(env.doc, e) && !x.Combinator? && !y.Combinator?
    ensures Matches(env, [x, Combinator(c), y], e) <==>
            SimpleHolds(env, x, e) &&
            exists f :: 0 <= f < |env.doc.nodes| && Related(env.doc, c, e, f) && SimpleHolds(env, y, f)
  {
    var s := [x, Combinator(c), y];
    assert s[1..] == [Combinator(c), y] && CompoundLength(s[1..]) == 0;
    assert CompoundLength(s) == 1 && NextCombinator(s) == Some(c) && AfterCombinator(s) == [y];
    forall f | 0 <= f < |env.doc.nodes|
      ensures Matches(env, AfterCombinator(s), f) <==> SimpleHolds(env, y, f)
    {
      SingleHolds(env, y, f);
    }
    assert CompoundHolds(env, s, e) <==> SimpleHolds(env, s[0], e);
  }

  lemma HasOneHolds(env: Env, c: Combinator, x: Component, e: nat)
    requires InDoc(env.doc, e) && env.reading.Actual? && env.anchor.None? && !x.Combinator?
    ensures Matches(env, HasOne(c, x).comps, e) <==>
            exists f :: 0 <= f < |env.doc.nodes| && Related(env.doc, c, f, e)
                        && SimpleHolds(env.(anchor := Some(e)), x, f)
  {
    var inside := env.(anchor := Some(e));
    var relative := OneRelative(c, x);
    SingleHolds(env, Has([relative]), e);
    forall f | 0 <= f < |env.doc.nodes|
      ensures Matches(inside, relative.selector.comps, f) <==>
              SimpleHolds(inside, x, f) && Related(env.doc, c, f, e)
    {
      AnchoredHolds(inside, x, c, e, f);
    }
    OnlyRelative(inside, relative);
    assert SimpleHolds(env, Has([relative]), e) <==> HasHolds(inside, [relative]);
  }

  lemma AnchoredHolds(inside: Env, x: Component, c: Combinator, e: nat, f: nat)
    requires InDoc(inside.doc, e) && InDoc(inside.doc, f) && inside.anchor == Some(e) && !x.Combinator?
    ensures Matches(inside, [x, Combinator(c), RelativeSelectorAnchor], f) <==>
            SimpleHolds(inside, x, f) && Related(inside.doc, c, f, e)
  {
    PairHolds(inside, x, c, RelativeSelectorAnchor, f);
    forall g | 0 <= g < |inside.doc.nodes|
      ensures SimpleHolds(inside, RelativeSelectorAnchor, g) <==> g == e
    {
    }
  }

  lemma OnlyRelative(inside: Env, relative: RelativeSelector)
    ensures HasHolds(inside, [relative]) <==> RelativeHolds(inside, relative)
  {
    assert [relative][0] == relative;
  }

  lemma HasBehindParentHolds(env: Env, c: Combinator, e: nat)
    requires InDoc(env.doc, e) && env.reading.Actual? && env.anchor.None? && env.ampersand.AsElements?
    requires c.Child? || c.NextSibling?
    ensures Matches(env, HasBehindParent(c).comps, e) <==>
            env.ampersand.holds(Some(e), e) && exists f :: 0 <= f < |env.doc.nodes| && Related(env.doc, c, f, e)
  {
    var inside := env.(anchor := Some(e));
    var list := [SelectorOf([ExplicitUniversalType, Combinator(c), ParentSelector])];
    HasOneHolds(env, c, Is(list), e);
    forall f | 0 <= f < |env.doc.nodes| && Related(env.doc, c, f, e)
      ensures SimpleHolds(inside, Is(list), f) <==> env.ampersand.holds(Some(e), e)
    {
      BehindHolds(inside, c, list, e, f);
    }
  }

  lemma BehindHolds(inside: Env, c: Combinator, list: seq<Selector>, e: nat, f: nat)
    requires InDoc(inside.doc, e) && InDoc(inside.doc, f) && Related(inside.doc, c, f, e)
    requires inside.anchor == Some(e) && inside.ampersand.AsElements? && (c.Child? || c.NextSibling?)
    requires |list| == 1 && list[0].comps == [ExplicitUniversalType, Combinator(c), ParentSelector]
    ensures SimpleHolds(inside, Is(list), f) <==> inside.ampersand.holds(Some(e), e)
  {
    PairHolds(inside, ExplicitUniversalType, c, ParentSelector, f);
    assert SomeHolds(inside, list, f) <==> Matches(inside, list[0].comps, f);
  }

  function OneRelative(c: Combinator, x: Component): RelativeSelector {
    RelativeSelector(HintOf(c), SelectorOf([x, Combinator(c), RelativeSelectorAnchor]))
  }

  /** What can stand in front: `&`, or `:is(& > *)`, `:is(& + *)`. */
  ghost predicate Mention(c: Combinator, x: Component) {
    x.ParentSelector? || x == Is([SelectorOf([ExplicitUniversalType, Combinator(c), ParentSelector])])
  }

  lemma MentionIsParsed(c: Combinator, x: Component)
    requires Mention(c, x)
    ensures !x.Combinator? && !x.Invalid? && FlagsTrueIn(x) && EverywhereIn(HintsRight, x)
  {
    if x.Is? {
      BehindIsParsed(c, x.list[0].comps);
      OneIsAll(x.list, HintsRight);
    }
  }

  lemma BehindIsParsed(c: Combinator, s: seq<Component>)
    requires s == [ExplicitUniversalType, Combinator(c), ParentSelector]
    ensures FlagsTrue(SelectorOf(s)) && Everywhere(HintsRight, s)
  {
    MadeFlags(s);
  }

  lemma OneIsAll(list: seq<Selector>, p: Component -> bool)
    requires |list| == 1
    ensures FlagsTrue(list[0]) ==> AllFlagsTrue(list)
    ensures Everywhere(p, list[0].comps) ==> EverywhereInList(p, list)
  {
  }

  lemma RelativeIsParsed(c: Combinator, x: Component)
    requires (c.Child? || c.NextSibling?) && Mention(c, x)
    ensures WellFormedRelative(OneRelative(c, x))
    ensures FlagsTrueInRelative(OneRelative(c, x)) && EverywhereInRelative(HintsRight, OneRelative(c, x))
  {
    MentionIsParsed(c, x);
    HintIsRight(c, x, OneRelative(c, x));
    AnchoredIsParsed(c, x, [x, Combinator(c), RelativeSelectorAnchor]);
  }

  lemma HintIsRight(c: Combinator, x: Component, relative: RelativeSelector)
    requires (c.Child? || c.NextSibling?) && !x.Combinator? && relative.hint == HintOf(c)
    requires relative.selector.comps == [x, Combinator(c), RelativeSelectorAnchor]
    ensures WellFormedRelative(relative)
  {
    var s := relative.selector.comps;
    assert s[..1] == [x] && !HasAncestorCombinator([x]) && !HasSiblingCombinator([x]);
  }

  lemma AnchoredIsParsed(c: Combinator, x: Component, s: seq<Component>)
    requires s == [x, Combinator(c), RelativeSelectorAnchor]
    requires !x.Invalid? && FlagsTrueIn(x) && EverywhereIn(HintsRight, x)
    ensures FlagsTrue(SelectorOf(s)) && Everywhere(HintsRight, s)
  {
    MadeFlags(s);
  }

  lemma WitnessIsParsed(c: Combinator, x: Component)
    requires (c.Child? || c.NextSibling?) && Mention(c, x)
    ensures FlagsTrue(HasOne(c, x)) && Parsed(HasOne(c, x).comps)
  {
    RelativeIsParsed(c, x);
    HasIsParsed(OneRelative(c, x));
  }

  lemma HasIsParsed(relative: RelativeSelector)
    requires WellFormedRelative(relative)
    requires FlagsTrueInRelative(relative) && EverywhereInRelative(HintsRight, relative)
    ensures FlagsTrue(SelectorOf([Has([relative])])) && Parsed([Has([relative])])
  {
    MadeFlags([Has([relative])]);
  }

  lemma MadeFlags(s: seq<Component>)
    requires FlagsTrueInside(s) && forall i :: 0 <= i < |s| ==> !s[i].Invalid?
    ensures FlagsTrue(SelectorOf(s))
  {
  }

  // ---------- The exact condition ----------

  /** For this selector and element the fixed set gives the meaning of the rewritten selector. */
  ghost predicate FixedReadingIsRight(env: Env, sel: Selector, parent: seq<Selector>, e: nat)
    requires InDoc(env.doc, e)
  {
    Matches(env, ReplaceParent(sel, parent).comps, e) <==>
    Matches(env.(ampersand := AsElements(AlwaysMatches(env, parent))), sel.comps, e)
  }

  ghost predicate FixedReadingIsAlwaysRight(env: Env, parent: seq<Selector>) {
    forall sel: Selector, e | 0 <= e < |env.doc.nodes| && FlagsTrue(sel) && Parsed(sel.comps) ::
      FixedReadingIsRight(env, sel, parent, e)
  }

  ghost predicate SameInside(env: Env, parent: seq<Selector>, f: nat)
    requires InDoc(env.doc, f)
  {
    forall a: nat :: SomeHolds(env.(anchor := Some(a)), parent, f) == SomeHolds(env, parent, f)
  }

  /** The list matches the same elements inside of every `:has()` as outside. */
  ghost predicate SameEverywhere(env: Env, parent: seq<Selector>) {
    forall f | 0 <= f < |env.doc.nodes| :: SameInside(env, parent, f)
  }

  lemma RightIfSame(env: Env, sel: Selector, parent: seq<Selector>, e: nat)
    requires InDoc(env.doc, e) && env.reading.Actual? && env.anchor.None? && FlagsTrue(sel)
    requires SameEverywhere(env, parent)
    ensures FixedReadingIsRight(env, sel, parent, e)
  {
    var env' := env.(ampersand := AsElements(AlwaysMatches(env, parent)));
    forall anchor: Option<nat>, f: nat | f < |env.doc.nodes|
      ensures SomeHolds(env.(anchor := anchor), parent, f) == SomeHolds(env, parent, f)
    {
      assert SameInside(env, parent, f);
      match anchor {
        case None => assert env.(anchor := None) == env;
        case Some(a) => assert SomeHolds(env.(anchor := Some(a)), parent, f) == SomeHolds(env, parent, f);
      }
    }
    SelectorMeaning(env, env', sel, parent, e);
  }

  /** A witness about one element: the reading is right for it only if that element is matched inside as outside. */
  lemma SameIfRight(env: Env, parent: seq<Selector>, f: nat)
    requires InDoc(env.doc, f) && env.reading.Actual? && env.anchor.None? && env.ampersand.AsScope?
    requires FixedReadingIsAlwaysRight(env, parent) && !Isolated(env.doc, f)
    ensures exists a: nat :: SomeHolds(env.(anchor := Some(a)), parent, f) == SomeHolds(env, parent, f)
  {
    var d := env.doc;
    if Prev(d, f).Some? {
      ShownFromBeside(env, parent, NextSibling, Prev(d, f).value, f);
    } else if Next(d, f).Some? {
      ShownFromItself(env, parent, NextSibling, f, Next(d, f).value);
    } else if FirstChild(d, f).Some? {
      ShownFromItself(env, parent, Child, f, FirstChild(d, f).value);
    } else {
      ShownFromBeside(env, parent, Child, Parent(d, f).value, f);
    }
  }

  lemma ShownFromItself(env: Env, parent: seq<Selector>, c: Combinator, f: nat, g: nat)
    requires InDoc(env.doc, f) && InDoc(env.doc, g) && (c.Child? || c.NextSibling?) && Related(env.doc, c, g, f)
    requires env.reading.Actual? && env.anchor.None? && env.ampersand.AsScope?
    requires FixedReadingIsAlwaysRight(env, parent)
    ensures SomeHolds(env.(anchor := Some(f)), parent, f) == SomeHolds(env, parent, f)
  {
    var sel := HasBehindParent(c);
    WitnessIsParsed(c, Is([SelectorOf([ExplicitUniversalType, Combinator(c), ParentSelector])]));
    ReadingsAgree(env, parent, sel, f);
    HasBehindParentHolds(env.(ampersand := AsElements(ParentMatches(env, parent))), c, f);
    HasBehindParentHolds(env.(ampersand := AsElements(AlwaysMatches(env, parent))), c, f);
  }

  lemma ReadingsAgree(env: Env, parent: seq<Selector>, sel: Selector, e: nat)
    requires InDoc(env.doc, e) && env.reading.Actual?
    requires FixedReadingIsAlwaysRight(env, parent) && FlagsTrue(sel) && Parsed(sel.comps)
    ensures Matches(env.(ampersand := AsElements(ParentMatches(env, parent))), sel.comps, e) <==>
            Matches(env.(ampersand := AsElements(AlwaysMatches(env, parent))), sel.comps, e)
  {
    assert FixedReadingIsRight(env, sel, parent, e);
    ReplacementPreservesMeaning(env, sel, parent, e);
  }

  /** `:has(c &)` asks of the one neighbour whether `&` stands for it. */
  lemma HasParentHolds(env: Env, c: Combinator, e: nat, f: nat)
    requires InDoc(env.doc, e) && InDoc(env.doc, f) && Related(env.doc, c, f, e)
    requires c.NextSibling? || (c.Child? && Prev(env.doc, f).None? && Next(env.doc, f).None?)
    requires env.reading.Actual? && env.anchor.None? && env.ampersand.AsElements?
    ensures Matches(env, HasParent(c).comps, e) <==> env.ampersand.holds(Some(e), f)
  {
    HasOneHolds(env, c, ParentSelector, e);
    forall g | 0 <= g < |env.doc.nodes| && Related(env.doc, c, g, e)
      ensures g == f
    {
      OnlyNeighbour(env.doc, c, e, f, g);
    }
  }

  lemma ShownFromBeside(env: Env, parent: seq<Selector>, c: Combinator, e: nat, f: nat)
    requires InDoc(env.doc, e) && InDoc(env.doc, f) && Related(env.doc, c, f, e)
    requires c.NextSibling? || (c.Child? && Prev(env.doc, f).None? && Next(env.doc, f).None?)
    requires env.reading.Actual? && env.anchor.None? && env.ampersand.AsScope?
    requires FixedReadingIsAlwaysRight(env, parent)
    ensures SomeHolds(env.(anchor := Some(e)), parent, f) == SomeHolds(env, parent, f)
  {
    WitnessIsParsed(c, ParentSelector);
    ReadingsAgree(env, parent, HasParent(c), e);
    HasParentHolds(env.(ampersand := AsElements(ParentMatches(env, parent))), c, e, f);
    HasParentHolds(env.(ampersand := AsElements(AlwaysMatches(env, parent))), c, e, f);
  }

  lemma OnlyNeighbour(d: Doc, c: Combinator, e: nat, f: nat, g: nat)
    requires InDoc(d, e) && InDoc(d, f) && InDoc(d, g) && Related(d, c, f, e) && Related(d, c, g, e)
    requires c.NextSibling? || (c.Child? && Prev(d, f).None? && Next(d, f).None?)
    ensures g == f
  {
    if c.Child? {
      ChildFromFirst(d, e, g);
      ChildFromFirst(d, e, f);
      LaterFromNext(d, f, g);
    }
  }

  /**
   `&` can be read as one fixed set of elements, for every selector of the parser, exactly if
   the parent list matches the same elements inside of a `:has()` as outside.
   */
  lemma FixedReadingIff(env: Env, parent: seq<Selector>)
    requires env.reading.Actual? && env.anchor.None? && env.ampersand.AsScope? && ParsedList(parent)
    ensures FixedReadingIsAlwaysRight(env, parent) <==> SameEverywhere(env, parent)
  {
    if SameEverywhere(env, parent) {
      forall sel: Selector, e | 0 <= e < |env.doc.nodes| && FlagsTrue(sel) && Parsed(sel.comps)
        ensures FixedReadingIsRight(env, sel, parent, e)
      {
        RightIfSame(env, sel, parent, e);
      }
    }
    if FixedReadingIsAlwaysRight(env, parent) {
      forall f | 0 <= f < |env.doc.nodes|
        ensures SameInside(env, parent, f)
      {
        forall a: nat
          ensures SomeHolds(env.(anchor := Some(a)), parent, f) == SomeHolds(env, parent, f)
        {
          if Isolated(env.doc, f) {
            ListSilent(env, env.(anchor := Some(a)), parent, f);
          } else {
            SameIfRight(env, parent, f);
            var b: nat :| SomeHolds(env.(anchor := Some(b)), parent, f) == SomeHolds(env, parent, f);
            ListSilent(env.(anchor := Some(a)), env.(anchor := Some(b)), parent, f);
          }
        }
      }
    }
  }

  // ---------- A rule whose meaning changes ----------

  /** `:has(> &)` under `:has(> *)`: the root has a child with a child, but the rewritten selector does not match it. */
  lemma NestedHasIsLost(env: Env, parent: seq<Selector>)
    requires env == Env(Family(), None, None, AsScope, Actual) && parent == [SelectorOf([Has([AnyChild()])])]
    ensures !Matches(env, ReplaceParent(HasParent(Child), parent).comps, 0)
    ensures Matches(env.(ampersand := AsElements(AlwaysMatches(env, parent))), HasParent(Child).comps, 0)
  {
    var x := Has([AnyChild()]);
    WitnessIsParsed(Child, ParentSelector);
    ReplacementPreservesMeaning(env, HasParent(Child), parent, 0);
    LostInside(env, parent, x);
    ParentOfGrandchild(env, x);
    FoundOutside(env, parent, x, 0, 1);
  }

  lemma LostInside(env: Env, parent: seq<Selector>, x: Component)
    requires InDoc(env.doc, 0) && env.reading.Actual? && env.anchor.None? && x.Has? && parent == [SelectorOf([x])]
    ensures !Matches(env.(ampersand := AsElements(ParentMatches(env, parent))), HasParent(Child).comps, 0)
  {
    forall f: nat | f < |env.doc.nodes|
      ensures !ParentMatches(env, parent)(Some(0), f)
    {
      NoHasInside(env.(anchor := Some(0)), parent, x, f);
    }
    ParentIsFoundIff(env, ParentMatches(env, parent), 0);
  }

  /** `:has(> &)` asks whether `&` stands for a child. */
  lemma ParentIsFoundIff(env: Env, holds: (Option<nat>, nat) -> bool, e: nat)
    requires InDoc(env.doc, e) && env.reading.Actual? && env.anchor.None?
    ensures Matches(env.(ampersand := AsElements(holds)), HasParent(Child).comps, e) <==>
            exists f: nat :: f < |env.doc.nodes| && Related(env.doc, Child, f, e) && holds(Some(e), f)
  {
    var env' := env.(ampersand := AsElements(holds));
    HasOneHolds(env', Child, ParentSelector, e);
    forall f: nat | f < |env.doc.nodes|
      ensures SimpleHolds(env'.(anchor := Some(e)), ParentSelector, f) <==> holds(Some(e), f)
    {
    }
  }

  lemma NoHasInside(inside: Env, parent: seq<Selector>, x: Component, f: nat)
    requires InDoc(inside.doc, f) && inside.anchor.Some? && x.Has? && parent == [SelectorOf([x])]
    ensures !SomeHolds(inside, parent, f)
  {
    OneOfOne(inside, parent, x, f);
  }

  lemma FoundOutside(env: Env, parent: seq<Selector>, x: Component, e: nat, f: nat)
    requires InDoc(env.doc, e) && InDoc(env.doc, f) && Parent(env.doc, f) == Some(e)
    requires env.reading.Actual? && env.anchor.None?
    requires !x.Combinator? && SimpleHolds(env, x, f) && parent == [SelectorOf([x])]
    ensures Matches(env.(ampersand := AsElements(AlwaysMatches(env, parent))), HasParent(Child).comps, e)
  {
    OneOfOne(env, parent, x, f);
    ParentIsFoundIff(env, AlwaysMatches(env, parent), e);
    assert Related(env.doc, Child, f, e) && AlwaysMatches(env, parent)(Some(e), f);
  }

  lemma OneOfOne(env: Env, list: seq<Selector>, x: Component, f: nat)
    requires InDoc(env.doc, f) && list == [SelectorOf([x])] && !x.Combinator?
    ensures SomeHolds(env, list, f) <==> SimpleHolds(env, x, f)
  {
    SingleHolds(env, x, f);
    assert list[0].comps == [x];
  }

  lemma ParentOfGrandchild(env: Env, x: Component)
    requires env == Env(Family(), None, None, AsScope, Actual) && x == Has([AnyChild()])
    ensures SimpleHolds(env, x, 1)
  {
    ChildIsFound(env.(anchor := Some(1)), AnyChild(), 1, 2);
    OnlyRelative(env.(anchor := Some(1)), AnyChild());
  }

  lemma ChildIsFound(inside: Env, relative: RelativeSelector, e: nat, f: nat)
    requires InDoc(inside.doc, e) && InDoc(inside.doc, f) && inside.anchor == Some(e) &&
             Parent(inside.doc, f) == Some(e)
    requires relative.selector.comps == [ExplicitUniversalType, Combinator(Child), RelativeSelectorAnchor]
    ensures RelativeHolds(inside, relative)
  {
    AnchoredHolds(inside, ExplicitUniversalType, Child, e, f);
    assert Matches(inside, relative.selector.comps, f);
  }
}
