/**
 When the specificity in the header of a rewritten selector is that of its
 components: exactly when no field of any argument list became smaller, unless
 a field is saturated.  Borrowing moves counts to lower fields, never back.
 */
module ParentSpecificity {
  import opened Syntax
  import opened Specificity
  import opened ParentSelectors

  /** The packed word, had the fields no limit. */
  function Weight(s: Spec): int {
    s.ids * 0x10_0000 + s.classes * 0x400 + s.elements
  }

  /** Counts of `x` are those of `y`, some of them carried to lower fields. */
  predicate Drifted(x: Spec, y: Spec) {
    Weight(x) == Weight(y) && x.ids <= y.ids && x.elements >= y.elements
  }

  /** Nothing is subtracted for the component, or no field of the difference borrows. */
  predicate Settled(c: Component, parent: seq<Selector>) {
    c.Where? || Dominates(c, parent)
  }

  predicate AllSettled(s: seq<Component>, parent: seq<Selector>) {
    s == [] || (Settled(s[0], parent) && AllSettled(s[1..], parent))
  }

  lemma {:induction false} AllSettledMeans(s: seq<Component>, parent: seq<Selector>)
    ensures AllSettled(s, parent) <==> forall i :: 0 <= i < |s| ==> Settled(s[i], parent)
  {
    if s != [] {
      AllSettledMeans(s[1..], parent);
      assert forall i :: 1 <= i < |s| ==> s[i] == s[1..][i - 1];
    }
  }

  lemma WeightOfFields(v: PackedSpecificity)
    ensures Weight(Unpack(v)) == v
  {
  }

  lemma QuotientOfSum(v: nat, w: nat)
    ensures v / 0x10_0000 + w / 0x10_0000 <= (v + w) / 0x10_0000
  {
  }

  lemma RemainderOfSum(v: nat, w: nat)
    ensures v % 0x400 + w % 0x400 >= (v + w) % 0x400
  {
  }

  lemma DifferenceDrifts(before: PackedSpecificity, after: PackedSpecificity)
    requires after >= before
    ensures Drifted(Unpack(before).Plus(Unpack(after - before)), Unpack(after))
    ensures Unpack(before).Plus(Unpack(after - before)) == Unpack(after) <==> Unpack(after).AtLeast(Unpack(before))
  {
    var difference: PackedSpecificity := after - before;
    WeightOfFields(before);
    WeightOfFields(difference);
    WeightOfFields(after);
    QuotientOfSum(before, difference);
    RemainderOfSum(before, difference);
    if Unpack(after).AtLeast(Unpack(before)) {
      GainIsDifference(before, after);
    }
  }

  lemma DriftOfComponent(c: Component, parent: seq<Selector>)
    ensures var x, y := ComponentSpec(c).Plus(SpecGain(c, parent)), ComponentSpec(RewriteComponent(c, parent));
            Drifted(x, y) && (x == y <==> Settled(c, parent))
  {
    if HasArgumentSpec(c) {
      DriftOfArguments(c, parent);
    } else if c.ParentSelector? {
      ParentGain(parent);
      SingleDominates(c, parent);
    } else {
      UnchangedGain(c, parent);
      NothingAdded(ComponentSpec(c), SpecGain(c, parent));
      NoArguments(c, parent);
    }
  }

  lemma NoArguments(c: Component, parent: seq<Selector>)
    requires !c.Is? && !c.Negation? && !c.Has? && !c.NthOf? && !c.ParentSelector?
    ensures Settled(c, parent)
  {
  }

  lemma DriftOfArguments(c: Component, parent: seq<Selector>)
    requires HasArgumentSpec(c)
    ensures var x, y := ComponentSpec(c).Plus(SpecGain(c, parent)), ComponentSpec(RewriteComponent(c, parent));
            Drifted(x, y) && (x == y <==> Settled(c, parent))
  {
    ArgumentDrift(c, parent);
    SameOwn(c, parent);
    SameDrift(c, RewriteComponent(c, parent), SpecGain(c, parent));
  }

  lemma SameOwn(c: Component, parent: seq<Selector>)
    requires HasArgumentSpec(c)
    ensures HasArgumentSpec(RewriteComponent(c, parent)) && Own(RewriteComponent(c, parent)) == Own(c)
  {
  }

  /** The drift of the arguments is that of the components. */
  lemma SameDrift(c: Component, r: Component, gain: Spec)
    requires HasArgumentSpec(c) && HasArgumentSpec(r) && Own(r) == Own(c)
    requires Drifted(ListSpec(Arguments(c)).Plus(gain), ListSpec(Arguments(r)))
    ensures Drifted(ComponentSpec(c).Plus(gain), ComponentSpec(r))
    ensures ComponentSpec(c).Plus(gain) == ComponentSpec(r) <==>
            ListSpec(Arguments(c)).Plus(gain) == ListSpec(Arguments(r))
  {
    SpecWithOwn(c, Own(c), ListSpec(Arguments(c)));
    SpecWithOwn(r, Own(c), ListSpec(Arguments(r)));
    Shifted(Own(c), ListSpec(Arguments(c)), gain, ListSpec(Arguments(r)));
  }

  predicate HasArgumentSpec(c: Component) {
    c.Is? || c.Negation? || c.Has? || c.NthOf?
  }

  /** What the component itself counts for, next to its arguments. */
  function Own(c: Component): Spec {
    if c.NthOf? then Spec(0, 1, 0) else Spec(0, 0, 0)
  }

  lemma SpecWithOwn(c: Component, own: Spec, args: Spec)
    requires HasArgumentSpec(c) && own == Own(c) && args == ListSpec(Arguments(c))
    ensures ComponentSpec(c) == own.Plus(args)
  {
    SpecOfArguments(c);
    NothingBefore(args, Spec(0, 0, 0));
  }

  lemma Shifted(z: Spec, a: Spec, g: Spec, y: Spec)
    requires Drifted(a.Plus(g), y)
    ensures Drifted(z.Plus(a).Plus(g), z.Plus(y)) && (z.Plus(a).Plus(g) == z.Plus(y) <==> a.Plus(g) == y)
  {
  }

  lemma ArgumentDrift(c: Component, parent: seq<Selector>)
    requires !c.Where? && !c.ParentSelector?
    ensures var x, y := ListSpec(Arguments(c)).Plus(SpecGain(c, parent)),
                        ListSpec(Arguments(RewriteComponent(c, parent)));
            Drifted(x, y) && (x == y <==> Dominates(c, parent))
  {
    GainOfWords(c, parent);
    DriftOfWords(Before(c), After(c, parent), SpecGain(c, parent));
  }

  lemma GainOfWords(c: Component, parent: seq<Selector>)
    requires !c.Where? && !c.ParentSelector?
    ensures 0 <= After(c, parent) - Before(c) <= 0x3fff_ffff
    ensures SpecGain(c, parent) == Unpack(After(c, parent) - Before(c))
    ensures ListSpec(Arguments(c)) == Unpack(Before(c))
    ensures ListSpec(Arguments(RewriteComponent(c, parent))) == Unpack(After(c, parent))
  {
    DifferenceIsPacked(c, parent);
  }

  lemma DriftOfWords(before: PackedSpecificity, after: PackedSpecificity, gain: Spec)
    requires after >= before && gain == Unpack(after - before)
    ensures Drifted(Unpack(before).Plus(gain), Unpack(after))
    ensures Unpack(before).Plus(gain) == Unpack(after) <==> Unpack(after).AtLeast(Unpack(before))
  {
    DifferenceDrifts(before, after);
  }

  /** The header of the whole drifts from its components, unless they are all settled. */
  predicate DriftTold(s: seq<Component>, parent: seq<Selector>) {
    && Drifted(Told(s, parent), Real(s, parent))
    && (Told(s, parent) == Real(s, parent) <==> AllSettled(s, parent))
  }

  /** What the header of the rewritten components is made from, and what it should tell. */
  function Told(s: seq<Component>, parent: seq<Selector>): Spec {
    SpecOf(s).Plus(SpecGains(s, parent))
  }

  function Real(s: seq<Component>, parent: seq<Selector>): Spec {
    SpecOf(Rewrite(s, parent))
  }

  lemma {:induction false} DriftOfAll(s: seq<Component>, parent: seq<Selector>)
    ensures DriftTold(s, parent)
  {
    if s == [] {
      NothingDrifts(s, parent);
    } else {
      DriftOfAll(s[1..], parent);
      DriftOfFirst(s, parent);
    }
  }

  lemma NothingDrifts(s: seq<Component>, parent: seq<Selector>)
    requires |s| == 0
    ensures DriftTold(s, parent)
  {
    NothingTold(s, parent);
  }

  lemma NothingTold(s: seq<Component>, parent: seq<Selector>)
    requires |s| == 0
    ensures Told(s, parent) == Real(s, parent) == Spec(0, 0, 0)
  {
    assert SpecOf(s) == SpecGains(s, parent) == Spec(0, 0, 0);
  }

  lemma DriftOfFirst(s: seq<Component>, parent: seq<Selector>)
    requires s != [] && DriftTold(s[1..], parent)
    ensures DriftTold(s, parent)
  {
    DriftOfComponent(s[0], parent);
    FirstSpecs(s, parent);
    Combined(ComponentSpec(s[0]), SpecGain(s[0], parent), ComponentSpec(RewriteComponent(s[0], parent)),
             SpecOf(s[1..]), SpecGains(s[1..], parent), SpecOf(Rewrite(s[1..], parent)));
  }

  lemma Combined(a: Spec, g: Spec, y: Spec, a': Spec, g': Spec, y': Spec)
    requires Drifted(a.Plus(g), y) && Drifted(a'.Plus(g'), y')
    ensures Drifted(a.Plus(a').Plus(g.Plus(g')), y.Plus(y'))
    ensures a.Plus(a').Plus(g.Plus(g')) == y.Plus(y') <==> a.Plus(g) == y && a'.Plus(g') == y'
  {
  }

  lemma SamePackedIff(x: Spec, y: Spec)
    requires Drifted(x, y) && y.InRange()
    ensures Pack(x) == Pack(y) <==> x == y
  {
  }

  /** The header tells the specificity of the rewritten components if and only if nothing borrowed. */
  lemma ReplacedSpecificityIff(sel: Selector, parent: seq<Selector>)
    requires sel.specificity == Pack(SpecOf(sel.comps)) && sel.flags.hasParent
    requires SpecOf(ReplaceParent(sel, parent).comps).InRange()
    ensures ReplaceParent(sel, parent).specificity == Pack(SpecOf(ReplaceParent(sel, parent).comps)) <==>
            forall i :: 0 <= i < |sel.comps| ==> Settled(sel.comps[i], parent)
  {
    AllSettledMeans(sel.comps, parent);
    PackAbsorbs(SpecOf(sel.comps), SpecGains(sel.comps, parent));
    DriftOfAll(sel.comps, parent);
    SamePackedIff(Told(sel.comps, parent), Real(sel.comps, parent));
  }

  // ---------- At every depth ----------

  /** The header tells the specificity of the components, and so do the headers inside. */
  ghost predicate SpecTrue(sel: Selector)
    decreases sel, 0
  {
    sel.specificity == Pack(SpecOf(sel.comps)) && forall i :: 0 <= i < |sel.comps| ==> SpecTrueIn(sel.comps[i])
  }

  ghost predicate SpecTrueIn(c: Component)
    decreases c, 0
  {
    match c
    case NthOf(_, of) => AllSpecTrue(of)
    case Is(list) => AllSpecTrue(list)
    case Where(list) => AllSpecTrue(list)
    case Negation(list) => AllSpecTrue(list)
    case Has(relatives) => forall i :: 0 <= i < |relatives| ==> SpecTrueInRelative(relatives[i])
    case _ => true
  }

  ghost predicate SpecTrueInRelative(relative: RelativeSelector)
    decreases relative, 0
  {
    SpecTrue(relative.selector)
  }

  ghost predicate AllSpecTrue(list: seq<Selector>)
    decreases list, 0
  {
    forall i :: 0 <= i < |list| ==> SpecTrue(list[i])
  }

  /** Nothing borrows, and nothing does inside. */
  ghost predicate SettledDeep(sel: Selector, parent: seq<Selector>)
    decreases sel, 0
  {
    sel.flags.hasParent ==>
      forall i :: 0 <= i < |sel.comps| ==> Settled(sel.comps[i], parent) && SettledDeepIn(sel.comps[i], parent)
  }

  ghost predicate SettledDeepIn(c: Component, parent: seq<Selector>)
    decreases c, 0
  {
    match c
    case NthOf(_, of) => AllSettledDeep(of, parent)
    case Is(list) => AllSettledDeep(list, parent)
    case Where(list) => AllSettledDeep(list, parent)
    case Negation(list) => AllSettledDeep(list, parent)
    case Has(relatives) => forall i :: 0 <= i < |relatives| ==> SettledDeepInRelative(relatives[i], parent)
    case _ => true
  }

  ghost predicate SettledDeepInRelative(relative: RelativeSelector, parent: seq<Selector>)
    decreases relative, 0
  {
    SettledDeep(relative.selector, parent)
  }

  ghost predicate AllSettledDeep(list: seq<Selector>, parent: seq<Selector>)
    decreases list, 0
  {
    forall i :: 0 <= i < |list| ==> SettledDeep(list[i], parent)
  }

  lemma SettledHeader(sel: Selector, parent: seq<Selector>)
    requires sel.specificity == Pack(SpecOf(sel.comps)) && sel.flags.hasParent
    requires forall i :: 0 <= i < |sel.comps| ==> Settled(sel.comps[i], parent)
    ensures ReplaceParent(sel, parent).specificity == Pack(SpecOf(ReplaceParent(sel, parent).comps))
  {
    PackAbsorbs(SpecOf(sel.comps), SpecGains(sel.comps, parent));
    AllSettledMeans(sel.comps, parent);
    DriftOfAll(sel.comps, parent);
    assert Told(sel.comps, parent) == Real(sel.comps, parent);
  }

  /** All headers of the result tell the specificity again, if no difference borrows at any depth. */
  lemma {:induction false} ReplacedSpecTrue(sel: Selector, parent: seq<Selector>)
    requires SpecTrue(sel) && SettledDeep(sel, parent) && AllSpecTrue(parent)
    ensures SpecTrue(ReplaceParent(sel, parent))
    decreases sel, 0
  {
    if sel.flags.hasParent {
      var r := ReplaceParent(sel, parent);
      SettledHeader(sel, parent);
      forall i | 0 <= i < |sel.comps|
        ensures SpecTrueIn(r.comps[i])
      {
        RewriteAt(sel.comps, parent, i);
        RewrittenSpecTrue(sel.comps[i], parent);
      }
    }
  }

  lemma {:induction false} RewrittenSpecTrue(c: Component, parent: seq<Selector>)
    requires SpecTrueIn(c) && SettledDeepIn(c, parent) && AllSpecTrue(parent)
    ensures SpecTrueIn(RewriteComponent(c, parent))
    decreases c, 0
  {
    match c {
      case NthOf(_, of) => ReplacedListSpecTrue(of, parent);
      case Is(list) => ReplacedListSpecTrue(list, parent);
      case Where(list) => ReplacedListSpecTrue(list, parent);
      case Negation(list) => ReplacedListSpecTrue(list, parent);
      case Has(relatives) =>
        forall i | 0 <= i < |relatives|
          ensures SpecTrueInRelative(ReplaceRelatives(relatives, parent)[i])
        {
          ReplaceRelativesAt(relatives, parent, i);
          assert SpecTrueInRelative(relatives[i]) && SettledDeepInRelative(relatives[i], parent);
          ReplacedSpecTrue(relatives[i].selector, parent);
        }
      case _ =>
    }
  }

  lemma {:induction false} ReplacedListSpecTrue(list: seq<Selector>, parent: seq<Selector>)
    requires AllSpecTrue(list) && AllSettledDeep(list, parent) && AllSpecTrue(parent)
    ensures AllSpecTrue(ReplaceInList(list, parent))
    decreases list, 0
  {
    forall i | 0 <= i < |list|
      ensures SpecTrue(ReplaceInList(list, parent)[i])
    {
      ReplaceInListAt(list, parent, i);
      ReplacedSpecTrue(list[i], parent);
    }
  }
}
