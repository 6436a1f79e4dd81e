/**
 Replacing `&` in a nested rule by the selectors of the enclosing rule: what it
 does to the meaning, the flags and the specificity of a selector.
 */
module ParentSelectors {
  import opened Syntax
  import opened Sequences
  import opened Specificity

  predicate Mentions(list: seq<Selector>) {
    exists i :: 0 <= i < |list| && list[i].flags.hasParent
  }

  /** Selectors without the flag are kept as they are. */
  function ReplaceParent(sel: Selector, parent: seq<Selector>): Selector
    decreases sel, 0
  {
    if !sel.flags.hasParent then sel
    else
      Selector(Pack(Unpack(sel.specificity).Plus(SpecGains(sel.comps, parent))),
               Union(sel.flags.(hasParent := false), FlagGains(sel.comps, parent)),
               Rewrite(sel.comps, parent))
  }

  function ReplaceAll(list: seq<Selector>, parent: seq<Selector>): (r: seq<Selector>)
    ensures |r| == |list|
    decreases list, 0
  {
    if list == [] then [] else [ReplaceParent(list[0], parent)] + ReplaceAll(list[1..], parent)
  }

  /** A list that does not mention `&` is shared. */
  function ReplaceInList(list: seq<Selector>, parent: seq<Selector>): (r: seq<Selector>)
    ensures |r| == |list|
    decreases list, 1
  {
    if Mentions(list) then ReplaceAll(list, parent) else list
  }

  function ReplaceRelatives(relatives: seq<RelativeSelector>, parent: seq<Selector>): (r: seq<RelativeSelector>)
    ensures |r| == |relatives|
    decreases relatives, 0
  {
    if relatives == [] then [] else [ReplaceRelative(relatives[0], parent)] + ReplaceRelatives(relatives[1..], parent)
  }

  function ReplaceRelative(relative: RelativeSelector, parent: seq<Selector>): RelativeSelector
    decreases relative, 0
  {
    RelativeSelector(relative.hint, ReplaceParent(relative.selector, parent))
  }

  function RewriteComponent(c: Component, parent: seq<Selector>): Component
    decreases c, 0
  {
    match c
    case ParentSelector => Is(parent)
    case Negation(list) => Negation(ReplaceInList(list, parent))
    case Is(list) => Is(ReplaceInList(list, parent))
    case Where(list) => Where(ReplaceInList(list, parent))
    case Has(relatives) => Has(ReplaceRelatives(relatives, parent))
    case NthOf(nth, of) => NthOf(nth, ReplaceInList(of, parent))
    case _ => c
  }

  function Rewrite(s: seq<Component>, parent: seq<Selector>): (r: seq<Component>)
    ensures |r| == |s|
    decreases s, 0
  {
    if s == [] then [] else [RewriteComponent(s[0], parent)] + Rewrite(s[1..], parent)
  }

  /** The packed specificity of the arguments, before and after. */
  function Before(c: Component): PackedSpecificity {
    ListSpecificityAndFlags(Arguments(c)).specificity
  }

  function After(c: Component, parent: seq<Selector>): PackedSpecificity
    decreases c, 1
  {
    ListSpecificityAndFlags(Arguments(RewriteComponent(c, parent))).specificity
  }

  /** What a component adds to the specificity: for a list, the difference of the packed words. */
  function SpecGain(c: Component, parent: seq<Selector>): Spec
    decreases c, 3
  {
    match c
    case ParentSelector => ListSpec(parent)
    case Where(_) => Spec(0, 0, 0)
    case _ =>
      DifferenceIsPacked(c, parent);
      Unpack(After(c, parent) - Before(c))
  }

  function SpecGains(s: seq<Component>, parent: seq<Selector>): Spec
    decreases s, 1
  {
    if s == [] then Spec(0, 0, 0) else SpecGain(s[0], parent).Plus(SpecGains(s[1..], parent))
  }

  /** The flags of everything that was replaced. */
  function FlagGain(c: Component, parent: seq<Selector>): SelectorFlags
    decreases c, 1
  {
    if c.ParentSelector? then ListSpecificityAndFlags(parent).flags
    else if Mentions(Arguments(c)) then ListSpecificityAndFlags(Arguments(RewriteComponent(c, parent))).flags
    else NO_FLAGS
  }

  function FlagGains(s: seq<Component>, parent: seq<Selector>): SelectorFlags
    decreases s, 1
  {
    if s == [] then NO_FLAGS else Union(FlagGain(s[0], parent), FlagGains(s[1..], parent))
  }

  // ---------- The packed difference never underflows ----------

  /** Nothing that is added can make the packed word smaller. */
  lemma GainsAreKept(packed: PackedSpecificity, gained: Spec)
    ensures var v := Pack(Unpack(packed).Plus(gained)); v >= packed && Unpack(v).AtLeast(Unpack(packed))
  {
    PackOfUnpack(packed);
    PackMonotone(Unpack(packed).Plus(gained), Unpack(packed));
    UnpackOfPack(Unpack(packed).Plus(gained));
  }

  lemma ReplacedGrows(sel: Selector, parent: seq<Selector>)
    ensures ReplaceParent(sel, parent).specificity >= sel.specificity
    decreases sel, 1
  {
    if sel.flags.hasParent {
      GainsAreKept(sel.specificity, SpecGains(sel.comps, parent));
    }
  }

  lemma {:induction false} ListGrows(list: seq<Selector>, parent: seq<Selector>)
    ensures ListSpecificityAndFlags(ReplaceInList(list, parent)).specificity >=
            ListSpecificityAndFlags(list).specificity
    decreases list, 3
  {
    if Mentions(list) {
      AllGrow(list, parent);
    }
  }

  lemma {:induction false} AllGrow(list: seq<Selector>, parent: seq<Selector>)
    ensures ListSpecificityAndFlags(ReplaceAll(list, parent)).specificity >= ListSpecificityAndFlags(list).specificity
    decreases list, 2
  {
    if list != [] {
      ReplacedGrows(list[0], parent);
      AllGrow(list[1..], parent);
      assert ReplaceAll(list, parent)[1..] == ReplaceAll(list[1..], parent);
    }
  }

  lemma RelativeGrows(relative: RelativeSelector, parent: seq<Selector>)
    ensures ReplaceRelative(relative, parent).selector.specificity >= relative.selector.specificity
    decreases relative, 1
  {
    ReplacedGrows(relative.selector, parent);
  }

  lemma {:induction false} RelativesGrow(relatives: seq<RelativeSelector>, parent: seq<Selector>)
    ensures ListSpecificityAndFlags(SelectorsOf(ReplaceRelatives(relatives, parent))).specificity >=
            ListSpecificityAndFlags(SelectorsOf(relatives)).specificity
    decreases relatives, 2
  {
    if relatives != [] {
      RelativeGrows(relatives[0], parent);
      RelativesGrow(relatives[1..], parent);
      assert ReplaceRelatives(relatives, parent)[1..] == ReplaceRelatives(relatives[1..], parent);
      assert SelectorsOf(relatives)[1..] == SelectorsOf(relatives[1..]);
      assert SelectorsOf(ReplaceRelatives(relatives, parent))[1..] ==
             SelectorsOf(ReplaceRelatives(relatives[1..], parent));
    }
  }

  /** So the subtraction of the packed words does not wrap around, and the conversion back does not fail. */
  lemma DifferenceIsPacked(c: Component, parent: seq<Selector>)
    ensures 0 <= After(c, parent) - Before(c) <= 0x3fff_ffff
    decreases c, 2
  {
    match c {
      case NthOf(_, of) => ListGrows(of, parent);
      case Is(list) => ListGrows(list, parent);
      case Where(list) => ListGrows(list, parent);
      case Negation(list) => ListGrows(list, parent);
      case Has(relatives) => RelativesGrow(relatives, parent);
      case _ =>
    }
  }

  // ---------- Flags ----------

  /**
   The header tells the flags of the components; the header of an invalid selector may also tell of a `&`
   in its text.
   */
  predicate HeaderTrue(sel: Selector) {
    if |sel.comps| == 1 && sel.comps[0].Invalid? then
      (sel.flags.hasParent ==> sel.comps[0].mentionsParent) && !sel.flags.hasScope
    else sel.flags == FlagsOf(sel.comps)
  }

  ghost predicate FlagsTrue(sel: Selector)
    decreases sel, 0
  {
    HeaderTrue(sel) && FlagsTrueInside(sel.comps)
  }

  ghost predicate FlagsTrueInside(s: seq<Component>)
    decreases s, 0
  {
    forall i :: 0 <= i < |s| ==> FlagsTrueIn(s[i])
  }

  ghost predicate FlagsTrueIn(c: Component)
    decreases c, 0
  {
    match c
    case NthOf(_, of) => AllFlagsTrue(of)
    case Is(list) => AllFlagsTrue(list)
    case Where(list) => AllFlagsTrue(list)
    case Negation(list) => AllFlagsTrue(list)
    case Has(relatives) => forall i :: 0 <= i < |relatives| ==> FlagsTrueInRelative(relatives[i])
    case _ => true
  }

  ghost predicate FlagsTrueInRelative(relative: RelativeSelector)
    decreases relative, 0
  {
    FlagsTrue(relative.selector)
  }

  ghost predicate AllFlagsTrue(list: seq<Selector>)
    decreases list, 0
  {
    forall i :: 0 <= i < |list| ==> FlagsTrue(list[i])
  }

  predicate NotParent(c: Component) { !c.ParentSelector? }

  predicate NotInvalid(c: Component) { !c.Invalid? }

  lemma {:induction false} ListFlags(list: seq<Selector>)
    ensures ListSpecificityAndFlags(list).flags.hasParent <==> Mentions(list)
    ensures ListSpecificityAndFlags(list).flags.hasScope <==> exists i :: 0 <= i < |list| && list[i].flags.hasScope
  {
    if list != [] {
      ListFlags(list[1..]);
      var rest := list[1..];
      assert forall i :: 1 <= i < |list| ==> list[i] == rest[i - 1];
      assert forall i :: 0 <= i < |rest| ==> rest[i] == list[i + 1];
    }
  }

  /** Without the flag there is no `&` anywhere inside, so cloning early is safe. */
  lemma {:induction false} FlagCoversSelector(sel: Selector)
    requires FlagsTrue(sel) && !sel.flags.hasParent
    ensures Everywhere(NotParent, sel.comps)
    decreases sel, 0
  {
    if |sel.comps| == 1 && sel.comps[0].Invalid? {
    } else {
      forall i | 0 <= i < |sel.comps| ensures EverywhereIn(NotParent, sel.comps[i]) {
        assert !ComponentFlags(sel.comps[i]).hasParent;
        FlagCoversComponent(sel.comps[i]);
      }
    }
  }

  lemma {:induction false} FlagCoversComponent(c: Component)
    requires FlagsTrueIn(c) && !ComponentFlags(c).hasParent
    ensures EverywhereIn(NotParent, c)
    decreases c, 0
  {
    ListFlags(Arguments(c));
    match c {
      case NthOf(_, of) => FlagCoversList(of);
      case Is(list) => FlagCoversList(list);
      case Where(list) => FlagCoversList(list);
      case Negation(list) => FlagCoversList(list);
      case Has(relatives) =>
        forall i | 0 <= i < |relatives| ensures EverywhereInRelative(NotParent, relatives[i]) {
          assert !SelectorsOf(relatives)[i].flags.hasParent && FlagsTrueInRelative(relatives[i]);
          FlagCoversSelector(relatives[i].selector);
        }
      case _ =>
    }
  }

  lemma {:induction false} FlagCoversList(list: seq<Selector>)
    requires AllFlagsTrue(list) && !Mentions(list)
    ensures EverywhereInList(NotParent, list)
    decreases list, 0
  {
    forall i | 0 <= i < |list| ensures Everywhere(NotParent, list[i].comps) {
      FlagCoversSelector(list[i]);
    }
  }

  /** And without invalid selectors the flag is set only if there is one. */
  lemma {:induction false} FlagNeedsMention(sel: Selector)
    requires FlagsTrue(sel) && sel.flags.hasParent && Everywhere(NotInvalid, sel.comps)
    ensures !Everywhere(NotParent, sel.comps)
    decreases sel, 0
  {
    assert forall i :: 0 <= i < |sel.comps| ==> EverywhereIn(NotInvalid, sel.comps[i]) && NotInvalid(sel.comps[i]);
    var i :| 0 <= i < |sel.comps| && ComponentFlags(sel.comps[i]).hasParent;
    MentionIsInside(sel.comps[i]);
  }

  lemma {:induction false} MentionIsInside(c: Component)
    requires FlagsTrueIn(c) && ComponentFlags(c).hasParent && EverywhereIn(NotInvalid, c)
    ensures !EverywhereIn(NotParent, c)
    decreases c, 0
  {
    ListFlags(Arguments(c));
    match c {
      case NthOf(_, of) => MentionIsListed(of);
      case Is(list) => MentionIsListed(list);
      case Where(list) => MentionIsListed(list);
      case Negation(list) => MentionIsListed(list);
      case Has(relatives) =>
        var i :| 0 <= i < |relatives| && SelectorsOf(relatives)[i].flags.hasParent;
        assert FlagsTrueInRelative(relatives[i]) && EverywhereInRelative(NotInvalid, relatives[i]);
        FlagNeedsMention(relatives[i].selector);
        assert !EverywhereInRelative(NotParent, relatives[i]);
      case _ =>
    }
  }

  lemma {:induction false} MentionIsListed(list: seq<Selector>)
    requires AllFlagsTrue(list) && Mentions(list) && EverywhereInList(NotInvalid, list)
    ensures !EverywhereInList(NotParent, list)
    decreases list, 0
  {
    var i :| 0 <= i < |list| && list[i].flags.hasParent;
    FlagNeedsMention(list[i]);
  }

  // ---------- Flags of the result ----------

  lemma {:induction false} ReplaceAllAt(list: seq<Selector>, parent: seq<Selector>, i: nat)
    requires i < |list|
    ensures ReplaceAll(list, parent)[i] == ReplaceParent(list[i], parent)
  {
    if i > 0 {
      ReplaceAllAt(list[1..], parent, i - 1);
    }
  }

  lemma {:induction false} ReplaceRelativesAt(relatives: seq<RelativeSelector>, parent: seq<Selector>, i: nat)
    requires i < |relatives|
    ensures ReplaceRelatives(relatives, parent)[i] == ReplaceRelative(relatives[i], parent)
  {
    if i > 0 {
      ReplaceRelativesAt(relatives[1..], parent, i - 1);
    }
  }

  lemma {:induction false} RewriteAt(s: seq<Component>, parent: seq<Selector>, i: nat)
    requires i < |s|
    ensures Rewrite(s, parent)[i] == RewriteComponent(s[i], parent)
  {
    if i > 0 {
      RewriteAt(s[1..], parent, i - 1);
    }
  }

  lemma ReplaceInListAt(list: seq<Selector>, parent: seq<Selector>, i: nat)
    requires i < |list|
    ensures ReplaceInList(list, parent)[i] == ReplaceParent(list[i], parent)
  {
    if Mentions(list) {
      ReplaceAllAt(list, parent, i);
    }
  }

  /** Each selector of a rewritten argument is the replacement of the one it was. */
  lemma ArgumentsAt(c: Component, parent: seq<Selector>, i: nat)
    requires !c.ParentSelector? && i < |Arguments(c)|
    ensures |Arguments(RewriteComponent(c, parent))| == |Arguments(c)|
    ensures Arguments(RewriteComponent(c, parent))[i] == ReplaceParent(Arguments(c)[i], parent)
  {
    match c {
      case Has(relatives) => ReplaceRelativesAt(relatives, parent, i);
      case NthOf(_, of) => ReplaceInListAt(of, parent, i);
      case Is(list) => ReplaceInListAt(list, parent, i);
      case Where(list) => ReplaceInListAt(list, parent, i);
      case Negation(list) => ReplaceInListAt(list, parent, i);
    }
  }

  /** The flags of a rewritten component: its own without the `&`, and those of what was put in. */
  lemma FlagsOfRewritten(c: Component, parent: seq<Selector>)
    ensures ComponentFlags(RewriteComponent(c, parent)) ==
            Union(ComponentFlags(c).(hasParent := false), FlagGain(c, parent))
  {
    if !c.ParentSelector? {
      var before, after := Arguments(c), Arguments(RewriteComponent(c, parent));
      forall i | 0 <= i < |before| ensures |after| == |before| && after[i] == ReplaceParent(before[i], parent) {
        ArgumentsAt(c, parent, i);
      }
      ListFlags(before);
      ListFlags(after);
      assert |after| == |before|;
      if !Mentions(before) {
        assert after == before;
      }
    }
  }

  lemma {:induction false} FlagsOfRewrite(s: seq<Component>, parent: seq<Selector>)
    ensures FlagsOf(Rewrite(s, parent)) == Union(FlagsOf(s).(hasParent := false), FlagGains(s, parent))
  {
    if s != [] {
      FlagsOfRewritten(s[0], parent);
      FlagsOfRewrite(s[1..], parent);
      FlagsOfFirst(s);
      FlagsOfFirst(Rewrite(s, parent));
      assert Rewrite(s, parent)[1..] == Rewrite(s[1..], parent);
    }
  }

  lemma FlagsOfFirst(s: seq<Component>)
    requires s != []
    ensures FlagsOf(s) == Union(ComponentFlags(s[0]), FlagsOf(s[1..]))
  {
  }

  /** The headers of the result are right again. */
  lemma {:induction false} ReplacedFlagsTrue(sel: Selector, parent: seq<Selector>)
    requires FlagsTrue(sel) && AllFlagsTrue(parent)
    ensures FlagsTrue(ReplaceParent(sel, parent))
    decreases sel, 0
  {
    if sel.flags.hasParent {
      var r := ReplaceParent(sel, parent);
      FlagsOfRewrite(sel.comps, parent);
      forall i | 0 <= i < |sel.comps|
        ensures r.comps[i] == RewriteComponent(sel.comps[i], parent) && FlagsTrueIn(r.comps[i])
      {
        RewriteAt(sel.comps, parent, i);
        RewrittenFlagsTrue(sel.comps[i], parent);
      }
      if |sel.comps| == 1 && sel.comps[0].Invalid? {
        InvalidGainsNothing(sel.comps, parent);
      }
    }
  }

  lemma InvalidGainsNothing(s: seq<Component>, parent: seq<Selector>)
    requires |s| == 1 && s[0].Invalid?
    ensures FlagGains(s, parent) == NO_FLAGS
  {
  }

  lemma {:induction false} RewrittenFlagsTrue(c: Component, parent: seq<Selector>)
    requires FlagsTrueIn(c) && AllFlagsTrue(parent)
    ensures FlagsTrueIn(RewriteComponent(c, parent))
    decreases c, 0
  {
    match c {
      case NthOf(_, of) => ReplacedListFlagsTrue(of, parent);
      case Is(list) => ReplacedListFlagsTrue(list, parent);
      case Where(list) => ReplacedListFlagsTrue(list, parent);
      case Negation(list) => ReplacedListFlagsTrue(list, parent);
      case Has(relatives) =>
        forall i | 0 <= i < |relatives| ensures FlagsTrueInRelative(ReplaceRelatives(relatives, parent)[i]) {
          ReplaceRelativesAt(relatives, parent, i);
          assert FlagsTrueInRelative(relatives[i]);
          ReplacedFlagsTrue(relatives[i].selector, parent);
        }
      case _ =>
    }
  }

  lemma {:induction false} ReplacedListFlagsTrue(list: seq<Selector>, parent: seq<Selector>)
    requires AllFlagsTrue(list) && AllFlagsTrue(parent)
    ensures AllFlagsTrue(ReplaceInList(list, parent))
    decreases list, 0
  {
    if Mentions(list) {
      forall i | 0 <= i < |list| ensures FlagsTrue(ReplaceAll(list, parent)[i]) {
        ReplaceAllAt(list, parent, i);
        ReplacedFlagsTrue(list[i], parent);
      }
    }
  }

  /** The result mentions `&` only if the parent list does. */
  lemma {:induction false} FlagComesFromParent(sel: Selector, parent: seq<Selector>)
    requires ReplaceParent(sel, parent).flags.hasParent
    ensures Mentions(parent)
    decreases sel, 0
  {
    FlagGainsComeFromParent(sel.comps, parent);
  }

  lemma {:induction false} FlagGainsComeFromParent(s: seq<Component>, parent: seq<Selector>)
    requires FlagGains(s, parent).hasParent
    ensures Mentions(parent)
    decreases s, 0
  {
    if FlagGain(s[0], parent).hasParent {
      FlagGainComesFromParent(s[0], parent);
    } else {
      FlagGainsComeFromParent(s[1..], parent);
    }
  }

  lemma {:induction false} FlagGainComesFromParent(c: Component, parent: seq<Selector>)
    requires FlagGain(c, parent).hasParent
    ensures Mentions(parent)
    decreases c, 0
  {
    if c.ParentSelector? {
      ListFlags(parent);
    } else {
      var after := Arguments(RewriteComponent(c, parent));
      ListFlags(after);
      assert Mentions(Arguments(c)) && Mentions(after);
      match c {
        case NthOf(_, of) => ListFlagComesFromParent(of, parent);
        case Is(list) => ListFlagComesFromParent(list, parent);
        case Where(list) => ListFlagComesFromParent(list, parent);
        case Negation(list) => ListFlagComesFromParent(list, parent);
        case Has(relatives) =>
          var i :| 0 <= i < |relatives| && SelectorsOf(ReplaceRelatives(relatives, parent))[i].flags.hasParent;
          ReplaceRelativesAt(relatives, parent, i);
          RelativeFlagComesFromParent(relatives[i], parent);
      }
    }
  }

  lemma {:induction false} RelativeFlagComesFromParent(relative: RelativeSelector, parent: seq<Selector>)
    requires ReplaceRelative(relative, parent).selector.flags.hasParent
    ensures Mentions(parent)
    decreases relative, 0
  {
    FlagComesFromParent(relative.selector, parent);
  }

  lemma {:induction false} ListFlagComesFromParent(list: seq<Selector>, parent: seq<Selector>)
    requires Mentions(list) && Mentions(ReplaceInList(list, parent))
    ensures Mentions(parent)
    decreases list, 0
  {
    assert ReplaceInList(list, parent) == ReplaceAll(list, parent);
    var i :| 0 <= i < |list| && ReplaceAll(list, parent)[i].flags.hasParent;
    ReplaceAllAt(list, parent, i);
    FlagComesFromParent(list[i], parent);
  }

  // ---------- Specificity of the result ----------

  /** In each field the rewritten list has at least the specificity of the list it was. */
  predicate Dominates(c: Component, parent: seq<Selector>) {
    ListSpec(Arguments(RewriteComponent(c, parent))).AtLeast(ListSpec(Arguments(c)))
  }

  lemma SpecOfRewritten(c: Component, parent: seq<Selector>)
    requires Dominates(c, parent)
    ensures ComponentSpec(RewriteComponent(c, parent)) == ComponentSpec(c).Plus(SpecGain(c, parent))
  {
    var r := RewriteComponent(c, parent);
    if c.Is? || c.Negation? || c.Has? || c.NthOf? {
      ArgumentGain(c, parent);
      SpecOfArguments(c);
      SpecOfArguments(r);
      var after, before := ListSpec(Arguments(r)), ListSpec(Arguments(c));
      DifferenceAdded(SpecGain(c, parent), after, before);
      if c.NthOf? {
        PlusAssociative(Spec(0, 1, 0), before, SpecGain(c, parent));
      }
    } else if c.ParentSelector? {
      ParentGain(parent);
    } else {
      UnchangedGain(c, parent);
      NothingAdded(ComponentSpec(c), SpecGain(c, parent));
    }
  }

  lemma SpecOfArguments(c: Component)
    ensures c.Is? || c.Negation? || c.Has? ==> ComponentSpec(c) == ListSpec(Arguments(c))
    ensures c.NthOf? ==> ComponentSpec(c) == Spec(0, 1, 0).Plus(ListSpec(Arguments(c)))
  {
  }

  lemma DifferenceAdded(gain: Spec, after: Spec, before: Spec)
    requires after.AtLeast(before) && gain == after.Minus(before)
    ensures after == before.Plus(gain)
  {
  }

  lemma PlusAssociative(a: Spec, b: Spec, c: Spec)
    ensures a.Plus(b).Plus(c) == a.Plus(b.Plus(c))
  {
  }

  lemma NothingBefore(s: Spec, zero: Spec)
    requires zero == Spec(0, 0, 0)
    ensures zero.Plus(s) == s
  {
  }

  lemma ParentGain(parent: seq<Selector>)
    ensures RewriteComponent(ParentSelector, parent) == Is(parent)
    ensures SpecGain(ParentSelector, parent) == ListSpec(parent)
    ensures ComponentSpec(Is(parent)) == ListSpec(parent)
    ensures ComponentSpec(ParentSelector).Plus(ListSpec(parent)) == ListSpec(parent)
  {
  }

  lemma UnchangedGain(c: Component, parent: seq<Selector>)
    requires !c.Is? && !c.Negation? && !c.Has? && !c.NthOf? && !c.ParentSelector?
    ensures SpecGain(c, parent) == Spec(0, 0, 0)
    ensures ComponentSpec(RewriteComponent(c, parent)) == ComponentSpec(c)
  {
    if !c.Where? {
      assert RewriteComponent(c, parent) == c;
      UnpackZero();
    }
  }

  lemma UnpackZero()
    ensures Unpack(0) == Spec(0, 0, 0)
  {
  }

  lemma NothingAdded(s: Spec, zero: Spec)
    requires zero == Spec(0, 0, 0)
    ensures s.Plus(zero) == s
  {
  }

  lemma ArgumentGain(c: Component, parent: seq<Selector>)
    requires !c.ParentSelector? && !c.Where? && Dominates(c, parent)
    ensures SpecGain(c, parent) == ListSpec(Arguments(RewriteComponent(c, parent))).Minus(ListSpec(Arguments(c)))
  {
    DifferenceIsPacked(c, parent);
    GainIsDifference(Before(c), After(c, parent));
  }

  lemma GainIsDifference(before: PackedSpecificity, after: PackedSpecificity)
    requires after >= before && Unpack(after).AtLeast(Unpack(before))
    ensures Unpack(after - before) == Unpack(after).Minus(Unpack(before))
  {
    PackOfUnpack(before);
    PackOfUnpack(after);
    PackedDifference(Unpack(after), Unpack(before));
  }

  lemma {:induction false} SpecOfRewrite(s: seq<Component>, parent: seq<Selector>)
    requires forall i :: 0 <= i < |s| ==> Dominates(s[i], parent)
    ensures SpecOf(Rewrite(s, parent)) == SpecOf(s).Plus(SpecGains(s, parent))
  {
    if s != [] {
      SpecOfRewritten(s[0], parent);
      SpecOfRewrite(s[1..], parent);
      FirstSpecs(s, parent);
      PlusExchanges(ComponentSpec(s[0]), SpecGain(s[0], parent), SpecOf(s[1..]), SpecGains(s[1..], parent));
    } else {
      NoSpecs(s, parent);
    }
  }

  lemma PlusExchanges(a: Spec, g: Spec, b: Spec, h: Spec)
    ensures a.Plus(g).Plus(b.Plus(h)) == a.Plus(b).Plus(g.Plus(h))
  {
  }

  lemma NoSpecs(s: seq<Component>, parent: seq<Selector>)
    requires |s| == 0
    ensures SpecOf(s) == SpecGains(s, parent) == SpecOf(Rewrite(s, parent)) == Spec(0, 0, 0)
  {
  }

  lemma FirstSpecs(s: seq<Component>, parent: seq<Selector>)
    requires s != []
    ensures SpecOf(s) == ComponentSpec(s[0]).Plus(SpecOf(s[1..]))
    ensures SpecGains(s, parent) == SpecGain(s[0], parent).Plus(SpecGains(s[1..], parent))
    ensures SpecOf(Rewrite(s, parent)) ==
            ComponentSpec(RewriteComponent(s[0], parent)).Plus(SpecOf(Rewrite(s[1..], parent)))
  {
    SpecOfFirst(s);
    SpecOfFirst(Rewrite(s, parent));
    assert Rewrite(s, parent)[1..] == Rewrite(s[1..], parent);
  }


  lemma SpecOfFirst(s: seq<Component>)
    requires s != []
    ensures SpecOf(s) == ComponentSpec(s[0]).Plus(SpecOf(s[1..]))
  {
    var specs := Map(ComponentSpec, s);
    assert specs == [specs[0]] + Map(ComponentSpec, s[1..]);
    SumOfConcat([specs[0]], Map(ComponentSpec, s[1..]));
    SumOfAppended([], specs[0]);
    assert [] + [specs[0]] == [specs[0]];
  }

  /** Under component-wise dominance the header tells the specificity of the rewritten components. */
  lemma ReplacedSpecificity(sel: Selector, parent: seq<Selector>)
    requires sel.specificity == Pack(SpecOf(sel.comps))
    requires sel.flags.hasParent && forall i :: 0 <= i < |sel.comps| ==> Dominates(sel.comps[i], parent)
    ensures ReplaceParent(sel, parent).specificity == Pack(SpecOf(ReplaceParent(sel, parent).comps))
  {
    PackAbsorbs(SpecOf(sel.comps), SpecGains(sel.comps, parent));
    SpecOfRewrite(sel.comps, parent);
  }

  /** A list of one selector is always dominated by its replacement. */
  lemma SingleDominates(c: Component, parent: seq<Selector>)
    requires |Arguments(c)| <= 1
    ensures Dominates(c, parent)
  {
    if c.ParentSelector? || Arguments(c) == [] {
      assert ListSpec(Arguments(c)) == Spec(0, 0, 0);
    } else {
      ArgumentsAt(c, parent, 0);
      var before, after := Arguments(c), Arguments(RewriteComponent(c, parent));
      assert before == [before[0]] && after == [after[0]];
      ReplacedDominates(before[0], parent);
      SpecOfSingle(before[0]);
      SpecOfSingle(after[0]);
    }
  }

  /** Each selector on its own only gains, in every field. */
  lemma ReplacedDominates(sel: Selector, parent: seq<Selector>)
    ensures Unpack(ReplaceParent(sel, parent).specificity).AtLeast(Unpack(sel.specificity))
  {
    if sel.flags.hasParent {
      GainsAreKept(sel.specificity, SpecGains(sel.comps, parent));
    }
  }

  lemma SpecOfSingle(sel: Selector)
    ensures ListSpec([sel]) == Unpack(sel.specificity)
  {
    var list := [sel];
    assert list[0] == sel && list[1..] == [];
    assert ListSpecificityAndFlags(list[1..]).specificity == 0;
    assert ListSpecificityAndFlags(list).specificity == sel.specificity;
  }

  /** So nothing is wrong with the specificity as long as `&` is nested in single-selector arguments only. */
  lemma ReplacedSpecificityOfSingles(sel: Selector, parent: seq<Selector>)
    requires sel.specificity == Pack(SpecOf(sel.comps))
    requires forall i :: 0 <= i < |sel.comps| && Mentions(Arguments(sel.comps[i])) ==> |Arguments(sel.comps[i])| == 1
    ensures ReplaceParent(sel, parent).specificity == Pack(SpecOf(ReplaceParent(sel, parent).comps))
  {
    if sel.flags.hasParent {
      forall i | 0 <= i < |sel.comps| ensures Dominates(sel.comps[i], parent) {
        var c := sel.comps[i];
        if Mentions(Arguments(c)) || c.ParentSelector? {
          SingleDominates(c, parent);
        } else {
          UnmentionedIsKept(c, parent);
        }
      }
      ReplacedSpecificity(sel, parent);
    }
  }

  lemma UnmentionedIsKept(c: Component, parent: seq<Selector>)
    requires !c.ParentSelector? && !Mentions(Arguments(c))
    ensures Arguments(RewriteComponent(c, parent)) == Arguments(c)
  {
    var before, after := Arguments(c), Arguments(RewriteComponent(c, parent));
    assert |after| == |before|;
    forall i | 0 <= i < |before| ensures after[i] == before[i] {
      ArgumentsAt(c, parent, i);
    }
  }

  lemma SpecOfPair(a: Selector, b: Selector)
    ensures ListSpecificityAndFlags([a, b]).specificity == Max(a.specificity, b.specificity)
  {
    var list := [a, b];
    assert list[0] == a && list[1..] == [b];
    SpecOfOne(b);
  }

  lemma SpecOfOne(a: Selector)
    ensures ListSpecificityAndFlags([a]).specificity == a.specificity
  {
  }

  lemma SingleSpec(s: seq<Component>, c: Component)
    requires |s| == 1 && s[0] == c
    ensures SpecOf(s) == ComponentSpec(c)
  {
    SumOfOne(Map(ComponentSpec, s), ComponentSpec(c));
  }

  lemma SumOfOne(specs: seq<Spec>, spec: Spec)
    requires |specs| == 1 && specs[0] == spec
    ensures Sum(specs) == spec
  {
    SumOfAppended(specs[..0], spec);
    assert specs == specs[..0] + [spec];
    NothingBefore(spec, Sum(specs[..0]));
  }

  lemma SingleGain(c: Component, parent: seq<Selector>)
    ensures SpecGains([c], parent) == SpecGain(c, parent)
  {
  }

  lemma SingleRewrite(c: Component, parent: seq<Selector>)
    ensures Rewrite([c], parent) == [RewriteComponent(c, parent)]
  {
  }

  /** The header after replacing in a selector of one component. */
  lemma SingleHeader(sel: Selector, c: Component, parent: seq<Selector>)
    requires sel.comps == [c] && sel.flags.hasParent
    ensures ReplaceParent(sel, parent).specificity == Pack(Unpack(sel.specificity).Plus(SpecGain(c, parent)))
    ensures ReplaceParent(sel, parent).comps == [RewriteComponent(c, parent)]
  {
    SingleGain(c, parent);
    SingleRewrite(c, parent);
  }

  lemma AmpersandReplaced(amp: Selector, id: Selector)
    requires amp.comps == [ParentSelector] && amp.specificity == 0 && amp.flags.hasParent
    requires id.specificity == 0x10_0000
    ensures ReplaceParent(amp, [id]).specificity == 0x10_0000
  {
    SingleHeader(amp, ParentSelector, [id]);
    SpecOfSingle(id);
    ParentGain([id]);
    SpecificityOfId(amp.specificity, id.specificity, SpecGain(ParentSelector, [id]));
  }

  lemma FieldsOfLiterals(v: PackedSpecificity)
    ensures v == 0 ==> Unpack(v) == Spec(0, 0, 0)
    ensures v == 0xc00 ==> Unpack(v) == Spec(0, 3, 0)
    ensures v == 0x10_0000 ==> Unpack(v) == Spec(1, 0, 0)
    ensures v == 0x10_0000 - 0xc00 ==> Unpack(v) == Spec(0, 1021, 0)
  {
  }

  lemma SpecificityOfId(none: PackedSpecificity, one: PackedSpecificity, gain: Spec)
    requires none == 0 && one == 0x10_0000 && gain == Unpack(one)
    ensures Pack(Unpack(none).Plus(gain)) == 0x10_0000
  {
    FieldsOfLiterals(none);
    FieldsOfLiterals(one);
    NothingBefore(gain, Unpack(none));
  }

  /** The list is as specific as `#x` afterwards. */
  lemma ListReplaced(abc: Selector, amp: Selector, id: Selector)
    requires abc.specificity == 0xc00 && !abc.flags.hasParent
    requires amp.comps == [ParentSelector] && amp.specificity == 0 && amp.flags.hasParent
    requires id.specificity == 0x10_0000
    ensures ListSpecificityAndFlags([abc, amp]).specificity == 0xc00
    ensures RewriteComponent(Is([abc, amp]), [id]).Is?
    ensures ListSpecificityAndFlags(RewriteComponent(Is([abc, amp]), [id]).list).specificity == 0x10_0000
  {
    var list := [abc, amp];
    ReplaceAllAt(list, [id], 0);
    ReplaceAllAt(list, [id], 1);
    AmpersandReplaced(amp, id);
    assert list[1].flags.hasParent;
    var after := ReplaceInList(list, [id]);
    assert after == ReplaceAll(list, [id]) == [abc, ReplaceParent(amp, [id])];
    SpecOfPair(abc, amp);
    SpecOfPair(abc, ReplaceParent(amp, [id]));
  }

  /** The header of `:is(.a.b.c, &)` under `#x`: the middle field borrows from the upper one, and sticks. */
  lemma BorrowedHeader(own: PackedSpecificity, gain: Spec, before: PackedSpecificity, after: PackedSpecificity)
    requires own == before == 0xc00 && after == 0x10_0000 && gain == Unpack(after - before)
    ensures Unpack(Pack(Unpack(own).Plus(gain))) == Spec(0, 1023, 0)
  {
    FieldsOfLiterals(own);
    FieldsOfLiterals(after - before);
    UnpackOfPack(Unpack(own).Plus(gain));
  }

  lemma GainOfDifference(c: Component, parent: seq<Selector>)
    requires c.Is?
    ensures 0 <= After(c, parent) - Before(c) <= 0x3fff_ffff
    ensures SpecGain(c, parent) == Unpack(After(c, parent) - Before(c))
  {
    DifferenceIsPacked(c, parent);
  }

  /**
   `:is(.a.b.c, &)` under `#x`: the list is as specific as `#x` afterwards, but
   subtracting the packed words borrows, and the sum is stuck at 1023 classes.
   */
  lemma BorrowGoesWrong(abc: Selector, amp: Selector, sel: Selector, id: Selector)
    requires abc == Selector(0xc00, NO_FLAGS, [Class(0), Class(1), Class(2)])
    requires amp == Selector(0, SelectorFlags(true, false), [ParentSelector])
    requires sel == Selector(0xc00, SelectorFlags(true, false), [Is([abc, amp])])
    requires id == Selector(0x10_0000, NO_FLAGS, [ID(3)])
    ensures SpecOf(sel.comps) == Unpack(sel.specificity) == Spec(0, 3, 0)
    ensures Unpack(ReplaceParent(sel, [id]).specificity) == Spec(0, 1023, 0)
    ensures SpecOf(ReplaceParent(sel, [id]).comps) == Spec(1, 0, 0)
  {
    var c := Is([abc, amp]);
    var r := RewriteComponent(c, [id]);
    ListReplaced(abc, amp, id);
    SingleHeader(sel, c, [id]);
    GainOfDifference(c, [id]);
    BorrowedHeader(sel.specificity, SpecGain(c, [id]), Before(c), After(c, [id]));
    SpecOfSingleArgument(c);
    SpecOfSingleArgument(r);
    FieldsOfLiterals(sel.specificity);
    FieldsOfLiterals(After(c, [id]));
  }

  lemma SpecOfSingleArgument(c: Component)
    requires c.Is?
    ensures SpecOf([c]) == Unpack(ListSpecificityAndFlags(c.list).specificity)
  {
    SingleSpec([c], c);
  }
}
