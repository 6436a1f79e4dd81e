/** What the header of a selector counts and tells, in terms of the components that are there. */
module SpecificityMeaning {
  import opened Syntax
  import opened Specificity
  import opened Soundness
  import opened ParentSelectors

  // ---------- The three counts ----------

  predicate IsId(c: Component) { c.ID? }

  predicate IsClassLike(c: Component) {
    || c.Class? || c.AttributeInNoNamespace? || c.AttributeInNoNamespaceExists? || c.Root? || c.Empty?
    || c.Nth? || c.NthOf? || c.NonTSPseudoClass? || c.Scope?
  }

  predicate IsTypeLike(c: Component) { c.LocalName? }

  function NumberOf(p: Component -> bool, s: seq<Component>): nat {
    if s == [] then 0 else (if p(s[0]) then 1 else 0) + NumberOf(p, s[1..])
  }

  /** The components that count for their most specific argument. */
  predicate CountsArgument(c: Component) {
    c.Is? || c.Negation? || c.Has? || c.NthOf?
  }

  function ArgumentCount(c: Component): Spec {
    if CountsArgument(c) then ListSpec(Arguments(c)) else Spec(0, 0, 0)
  }

  function OwnCount(c: Component): Spec {
    Spec(if IsId(c) then 1 else 0, if IsClassLike(c) then 1 else 0, if IsTypeLike(c) then 1 else 0)
  }

  /** What the arguments of pseudo-classes add. */
  function ArgumentSum(s: seq<Component>): Spec {
    if s == [] then Spec(0, 0, 0) else ArgumentCount(s[0]).Plus(ArgumentSum(s[1..]))
  }

  function OwnCounts(s: seq<Component>): Spec {
    Spec(NumberOf(IsId, s), NumberOf(IsClassLike, s), NumberOf(IsTypeLike, s))
  }

  lemma OneCounts(c: Component, own: Spec, args: Spec)
    requires own == OwnCount(c) && args == ArgumentCount(c)
    ensures ComponentSpec(c) == own.Plus(args)
  {
    if CountsArgument(c) {
      ArgumentCounts(c, own, args);
    } else {
      PlainCounts(c);
      NothingAdded(own, args);
    }
  }

  lemma PlainCounts(c: Component)
    requires !CountsArgument(c)
    ensures ComponentSpec(c) == OwnCount(c)
  {
  }

  lemma ArgumentCounts(c: Component, own: Spec, args: Spec)
    requires CountsArgument(c) && own == OwnCount(c) && args == ListSpec(Arguments(c))
    ensures ComponentSpec(c) == own.Plus(args)
  {
    SpecOfArguments(c);
    NothingBefore(args, Spec(0, 0, 0));
    assert own == if c.NthOf? then Spec(0, 1, 0) else Spec(0, 0, 0);
  }

  lemma NumberStep(p: Component -> bool, s: seq<Component>, first: bool)
    requires s != [] && first == p(s[0])
    ensures NumberOf(p, s) == (if first then 1 else 0) + NumberOf(p, s[1..])
  {
  }

  lemma OwnCountIs(c: Component, id: bool, classLike: bool, typeLike: bool)
    requires id == IsId(c) && classLike == IsClassLike(c) && typeLike == IsTypeLike(c)
    ensures OwnCount(c) == Spec(if id then 1 else 0, if classLike then 1 else 0, if typeLike then 1 else 0)
  {
  }

  lemma OwnCountsStep(s: seq<Component>, id: bool, classLike: bool, typeLike: bool)
    requires s != [] && id == IsId(s[0]) && classLike == IsClassLike(s[0]) && typeLike == IsTypeLike(s[0])
    ensures OwnCounts(s) == OwnCount(s[0]).Plus(OwnCounts(s[1..]))
  {
    NumberStep(IsId, s, id);
    NumberStep(IsClassLike, s, classLike);
    NumberStep(IsTypeLike, s, typeLike);
    OwnCountIs(s[0], id, classLike, typeLike);
  }

  /** Ids, class-like selectors and type selectors, each counted in its field, and the arguments. */
  lemma {:induction false} SpecCounts(s: seq<Component>)
    ensures SpecOf(s).ids == NumberOf(IsId, s) + ArgumentSum(s).ids
    ensures SpecOf(s).classes == NumberOf(IsClassLike, s) + ArgumentSum(s).classes
    ensures SpecOf(s).elements == NumberOf(IsTypeLike, s) + ArgumentSum(s).elements
  {
    CountsInAll(s);
  }

  lemma {:induction false} CountsInAll(s: seq<Component>)
    ensures SpecOf(s) == OwnCounts(s).Plus(ArgumentSum(s))
  {
    if s == [] {
      NothingToCount(s);
    } else {
      OneCounts(s[0], OwnCount(s[0]), ArgumentCount(s[0]));
      CountsInAll(s[1..]);
      SpecOfFirst(s);
      OwnCountsStep(s, IsId(s[0]), IsClassLike(s[0]), IsTypeLike(s[0]));
      PlusExchanges(OwnCount(s[0]), ArgumentCount(s[0]), OwnCounts(s[1..]), ArgumentSum(s[1..]));
    }
  }

  lemma NothingToCount(s: seq<Component>)
    requires |s| == 0
    ensures SpecOf(s) == OwnCounts(s).Plus(ArgumentSum(s))
  {
    assert SpecOf(s) == OwnCounts(s) == ArgumentSum(s) == Spec(0, 0, 0);
  }

  /** A list counts as its most specific selector. */
  lemma {:induction false} ListCountsAsGreatest(list: seq<Selector>)
    ensures list == [] ==> ListSpec(list) == Spec(0, 0, 0)
    ensures list != [] ==> exists i :: 0 <= i < |list| && ListSpec(list) == Unpack(list[i].specificity)
                                       && forall j :: 0 <= j < |list| ==> list[j].specificity <= list[i].specificity
  {
    if list == [] {
      UnpackZero();
    } else {
      GreatestHeader(list);
    }
  }

  lemma {:induction false} GreatestHeader(list: seq<Selector>)
    requires list != []
    ensures exists i :: 0 <= i < |list| && ListSpecificityAndFlags(list).specificity == list[i].specificity
                        && forall j :: 0 <= j < |list| ==> list[j].specificity <= list[i].specificity
  {
    var rest := list[1..];
    assert forall j :: 0 < j < |list| ==> list[j] == rest[j - 1];
    if rest == [] {
      assert ListSpecificityAndFlags(rest).specificity == 0;
      assert ListSpecificityAndFlags(list).specificity == list[0].specificity;
    } else {
      GreatestHeader(rest);
      var i :| 0 <= i < |rest| && ListSpecificityAndFlags(rest).specificity == rest[i].specificity
               && forall j :: 0 <= j < |rest| ==> rest[j].specificity <= rest[i].specificity;
      var k := if list[0].specificity >= rest[i].specificity then 0 else i + 1;
      assert ListSpecificityAndFlags(list).specificity == list[k].specificity;
    }
  }

  // ---------- The flag of `:scope` ----------

  /** The flag is set exactly if a `:scope` is there, at any depth. */
  lemma {:induction false} ScopeFlagIff(sel: Selector)
    requires FlagsTrue(sel)
    ensures sel.flags.hasScope <==> !Everywhere(NotScope, sel.comps)
    decreases sel, 0
  {
    forall i | 0 <= i < |sel.comps|
      ensures ComponentFlags(sel.comps[i]).hasScope <==> !EverywhereIn(NotScope, sel.comps[i])
    {
      ScopeFlagInIff(sel.comps[i]);
    }
  }

  lemma {:induction false} ScopeFlagInIff(c: Component)
    requires FlagsTrueIn(c)
    ensures ComponentFlags(c).hasScope <==> !EverywhereIn(NotScope, c)
    decreases c, 0
  {
    ListFlags(Arguments(c));
    match c {
      case NthOf(_, of) => ScopeFlagInListIff(of);
      case Is(list) => ScopeFlagInListIff(list);
      case Where(list) => ScopeFlagInListIff(list);
      case Negation(list) => ScopeFlagInListIff(list);
      case Has(relatives) =>
        forall i | 0 <= i < |relatives|
          ensures SelectorsOf(relatives)[i].flags.hasScope <==> !EverywhereInRelative(NotScope, relatives[i])
        {
          assert FlagsTrueInRelative(relatives[i]);
          ScopeFlagIff(relatives[i].selector);
        }
      case _ =>
    }
  }

  lemma {:induction false} ScopeFlagInListIff(list: seq<Selector>)
    requires AllFlagsTrue(list)
    ensures (exists i :: 0 <= i < |list| && list[i].flags.hasScope) <==> !EverywhereInList(NotScope, list)
    decreases list, 0
  {
    forall i | 0 <= i < |list|
      ensures list[i].flags.hasScope <==> !Everywhere(NotScope, list[i].comps)
    {
      ScopeFlagIff(list[i]);
    }
  }
}
