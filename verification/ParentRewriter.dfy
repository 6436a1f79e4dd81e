/**
 Replacing `&` as it is done: one pass over the components that threads the
 specificity and the flags of the header through the nested lists.
 */
module ParentRewriter {
  import opened Wrappers
  import opened Syntax
  import opened Specificity
  import opened ParentSelectors

  method ReplaceParentSelector(sel: Selector, parent: seq<Selector>) returns (r: Selector)
    ensures r == ReplaceParent(sel, parent)
    decreases sel, 0
  {
    if !sel.flags.hasParent {
      return sel;
    }
    var s := sel.comps;
    var specificity := Unpack(sel.specificity);
    var flags := sel.flags.(hasParent := false);
    var items: seq<Component> := [];
    for i := 0 to |s|
      invariant specificity.Plus(SpecGains(s[i..], parent)) == Unpack(sel.specificity).Plus(SpecGains(s, parent))
      invariant Union(flags, FlagGains(s[i..], parent)) == Union(sel.flags.(hasParent := false), FlagGains(s, parent))
      invariant items + Rewrite(s[i..], parent) == Rewrite(s, parent)
    {
      Rest(s, i, parent, specificity, flags);
      var item;
      item, specificity, flags := OnComponent(s[i], parent, specificity, flags);
      assert items + ([item] + Rewrite(s[i + 1..], parent)) == (items + [item]) + Rewrite(s[i + 1..], parent);
      items := items + [item];
    }
    NothingLeft(s[|s|..], parent, specificity, flags);
    r := Selector(Pack(specificity), flags, items);
  }

  lemma Rest(s: seq<Component>, i: nat, parent: seq<Selector>, specificity: Spec, flags: SelectorFlags)
    requires i < |s|
    ensures Rewrite(s[i..], parent) == [RewriteComponent(s[i], parent)] + Rewrite(s[i + 1..], parent)
    ensures specificity.Plus(SpecGains(s[i..], parent)) ==
            specificity.Plus(SpecGain(s[i], parent)).Plus(SpecGains(s[i + 1..], parent))
    ensures Union(flags, FlagGains(s[i..], parent)) ==
            Union(Union(flags, FlagGain(s[i], parent)), FlagGains(s[i + 1..], parent))
  {
  }

  lemma NothingLeft(s: seq<Component>, parent: seq<Selector>, specificity: Spec, flags: SelectorFlags)
    requires |s| == 0
    ensures Rewrite(s, parent) == []
    ensures specificity.Plus(SpecGains(s, parent)) == specificity
    ensures Union(flags, FlagGains(s, parent)) == flags
  {
  }

  method OnComponent(c: Component, parent: seq<Selector>, specificityBefore: Spec, flagsBefore: SelectorFlags)
    returns (r: Component, specificity: Spec, flags: SelectorFlags)
    ensures r == RewriteComponent(c, parent)
    ensures specificity == specificityBefore.Plus(SpecGain(c, parent))
    ensures flags == Union(flagsBefore, FlagGain(c, parent))
    decreases c, 0
  {
    specificity, flags := specificityBefore, flagsBefore;
    var list;
    match c {
      case ParentSelector =>
        ParentGain(parent);
        var added := ListSpecificityAndFlags(parent);
        specificity := specificity.Plus(Unpack(added.specificity));
        flags := Union(flags, added.flags);
        r := Is(parent);
      case Negation(orig) =>
        list, specificity, flags := OnArgument(c, orig, parent, specificity, flags);
        r := Negation(list);
      case Is(orig) =>
        list, specificity, flags := OnArgument(c, orig, parent, specificity, flags);
        r := Is(list);
      case Where(orig) =>
        list, specificity, flags := OnArgument(c, orig, parent, specificity, flags);
        r := Where(list);
      case NthOf(nth, orig) =>
        list, specificity, flags := OnArgument(c, orig, parent, specificity, flags);
        r := NthOf(nth, list);
      case Has(orig) =>
        GainOfRelatives(c, orig, parent, specificity, flags);
        var relatives;
        relatives, specificity, flags := OnRelativeList(orig, parent, specificity, flags);
        r := Has(relatives);
      case _ =>
        UnchangedGain(c, parent);
        NothingAdded(specificity, SpecGain(c, parent));
        r := c;
    }
  }

  /** The list of a component, and what it adds; `:where()` adds no specificity. */
  method OnArgument(c: Component, orig: seq<Selector>, parent: seq<Selector>, specificityBefore: Spec,
                    flagsBefore: SelectorFlags)
    returns (list: seq<Selector>, specificity: Spec, flags: SelectorFlags)
    requires (c.Is? || c.Where? || c.Negation? || c.NthOf?) && orig == Arguments(c)
    ensures list == ReplaceInList(orig, parent)
    ensures specificity == specificityBefore.Plus(SpecGain(c, parent))
    ensures flags == Union(flagsBefore, FlagGain(c, parent))
    decreases orig, 2
  {
    GainOfList(c, orig, parent, specificityBefore, flagsBefore);
    var result;
    result, specificity, flags := OnSelectorList(orig, parent, specificityBefore, flagsBefore, !c.Where?);
    list := result.GetOr(orig);
  }

  /** What the arguments of a component add, in the terms in which it is computed. */
  lemma GainOfArguments(c: Component, before: seq<Selector>, after: seq<Selector>, parent: seq<Selector>,
                        specificity: Spec, flags: SelectorFlags)
    requires !c.ParentSelector? && before == Arguments(c) && after == Arguments(RewriteComponent(c, parent))
    ensures 0 <= Gain(before, after) <= 0x3fff_ffff
    ensures specificity.Plus(SpecGain(c, parent)) ==
            if c.Where? || !Mentions(before) then specificity else specificity.Plus(Unpack(Gain(before, after)))
    ensures Union(flags, FlagGain(c, parent)) ==
            if Mentions(before) then Union(flags, ListSpecificityAndFlags(after).flags) else flags
  {
    GainOfComponent(c, parent);
    NothingAdded(specificity, Spec(0, 0, 0));
    if !Mentions(before) {
      UnmentionedIsKept(c, parent);
      UnpackZero();
    }
  }

  lemma GainOfComponent(c: Component, parent: seq<Selector>)
    requires !c.ParentSelector?
    ensures 0 <= Gain(Arguments(c), Arguments(RewriteComponent(c, parent))) <= 0x3fff_ffff
    ensures SpecGain(c, parent) ==
            if c.Where? then Spec(0, 0, 0) else Unpack(Gain(Arguments(c), Arguments(RewriteComponent(c, parent))))
  {
    DifferenceIsPacked(c, parent);
  }

  function Gain(before: seq<Selector>, after: seq<Selector>): int {
    ListSpecificityAndFlags(after).specificity - ListSpecificityAndFlags(before).specificity
  }

  lemma GainOfList(c: Component, list: seq<Selector>, parent: seq<Selector>, specificity: Spec, flags: SelectorFlags)
    requires (c.Is? || c.Where? || c.Negation? || c.NthOf?) && list == Arguments(c)
    ensures var after := ReplaceInList(list, parent);
            && 0 <= Gain(list, after) <= 0x3fff_ffff
            && specificity.Plus(SpecGain(c, parent)) ==
               (if c.Where? || !Mentions(list) then specificity else specificity.Plus(Unpack(Gain(list, after))))
            && Union(flags, FlagGain(c, parent)) ==
               (if Mentions(list) then Union(flags, ListSpecificityAndFlags(after).flags) else flags)
  {
    ArgumentsOfRewritten(c, parent);
    GainOfArguments(c, list, ReplaceInList(list, parent), parent, specificity, flags);
  }

  lemma ArgumentsOfRewritten(c: Component, parent: seq<Selector>)
    requires c.Is? || c.Where? || c.Negation? || c.NthOf?
    ensures Arguments(RewriteComponent(c, parent)) == ReplaceInList(Arguments(c), parent)
  {
  }

  lemma GainOfRelatives(c: Component, relatives: seq<RelativeSelector>, parent: seq<Selector>,
                        specificity: Spec, flags: SelectorFlags)
    requires c.Has? && relatives == c.relatives
    ensures var before, after := SelectorsOf(relatives), SelectorsOf(ReplaceRelatives(relatives, parent));
            && 0 <= Gain(before, after) <= 0x3fff_ffff
            && specificity.Plus(SpecGain(c, parent)) ==
               (if !Mentions(before) then specificity else specificity.Plus(Unpack(Gain(before, after))))
            && Union(flags, FlagGain(c, parent)) ==
               (if Mentions(before) then Union(flags, ListSpecificityAndFlags(after).flags) else flags)
  {
    RelativeArguments(c, parent);
    GainOfArguments(c, SelectorsOf(relatives), SelectorsOf(ReplaceRelatives(relatives, parent)), parent,
                    specificity, flags);
  }

  lemma RelativeArguments(c: Component, parent: seq<Selector>)
    requires c.Has?
    ensures Arguments(c) == SelectorsOf(c.relatives)
    ensures Arguments(RewriteComponent(c, parent)) == SelectorsOf(ReplaceRelatives(c.relatives, parent))
  {
  }

  method OnSelectorList(orig: seq<Selector>, parent: seq<Selector>, specificityBefore: Spec, flagsBefore: SelectorFlags,
                        propagateSpecificity: bool)
    returns (result: Option<seq<Selector>>, specificity: Spec, flags: SelectorFlags)
    ensures 0 <= Gain(orig, ReplaceInList(orig, parent)) <= 0x3fff_ffff
    ensures result == if Mentions(orig) then Some(ReplaceInList(orig, parent)) else None
    ensures specificity == if propagateSpecificity && Mentions(orig)
                           then specificityBefore.Plus(Unpack(Gain(orig, ReplaceInList(orig, parent))))
                           else specificityBefore
    ensures flags == if Mentions(orig)
                     then Union(flagsBefore, ListSpecificityAndFlags(ReplaceInList(orig, parent)).flags)
                     else flagsBefore
    decreases orig, 1
  {
    specificity, flags := specificityBefore, flagsBefore;
    ListGrows(orig, parent);
    if !Mentions(orig) {
      return None, specificity, flags;
    }
    var list: seq<Selector> := [];
    for i := 0 to |orig|
      invariant list == ReplaceAll(orig, parent)[..i]
    {
      var sel := ReplaceParentSelector(orig[i], parent);
      ReplaceAllAt(orig, parent, i);
      list := list + [sel];
    }
    assert list == ReplaceInList(orig, parent);
    var after := ListSpecificityAndFlags(list);
    if propagateSpecificity {
      specificity := specificity.Plus(Unpack(after.specificity - ListSpecificityAndFlags(orig).specificity));
    }
    flags := Union(flags, after.flags);
    result := Some(list);
  }

  method OnRelativeList(orig: seq<RelativeSelector>, parent: seq<Selector>, specificityBefore: Spec,
                        flagsBefore: SelectorFlags)
    returns (result: seq<RelativeSelector>, specificity: Spec, flags: SelectorFlags)
    ensures result == ReplaceRelatives(orig, parent)
    ensures 0 <= Gain(SelectorsOf(orig), SelectorsOf(result)) <= 0x3fff_ffff
    ensures specificity == if Mentions(SelectorsOf(orig))
                           then specificityBefore.Plus(Unpack(Gain(SelectorsOf(orig), SelectorsOf(result))))
                           else specificityBefore
    ensures flags == if Mentions(SelectorsOf(orig))
                     then Union(flagsBefore, ListSpecificityAndFlags(SelectorsOf(result)).flags) else flagsBefore
    decreases orig, 1
  {
    var any;
    result, any := MapRelatives(orig, parent);
    RelativesGrow(orig, parent);
    if !any {
      return result, specificityBefore, flagsBefore;
    }
    var after := ListSpecificityAndFlags(SelectorsOf(result));
    flags := Union(flagsBefore, after.flags);
    var before := ListSpecificityAndFlags(SelectorsOf(orig));
    specificity := specificityBefore.Plus(Unpack(after.specificity - before.specificity));
  }

  method MapRelatives(orig: seq<RelativeSelector>, parent: seq<Selector>)
    returns (result: seq<RelativeSelector>, any: bool)
    ensures result == ReplaceRelatives(orig, parent)
    ensures any == Mentions(SelectorsOf(orig))
    decreases orig, 0
  {
    any := false;
    result := [];
    for i := 0 to |orig|
      invariant result == ReplaceRelatives(orig, parent)[..i]
      invariant any <==> exists k :: 0 <= k < i && orig[k].selector.flags.hasParent
    {
      ReplaceRelativesAt(orig, parent, i);
      var relative := OnRelative(orig[i], parent);
      any := any || orig[i].selector.flags.hasParent;
      result := result + [relative];
    }
    RelativesMention(orig);
  }

  method OnRelative(orig: RelativeSelector, parent: seq<Selector>) returns (r: RelativeSelector)
    ensures r == ReplaceRelative(orig, parent)
    decreases orig, 0
  {
    if !orig.selector.flags.hasParent {
      return orig;
    }
    var sel := ReplaceParentSelector(orig.selector, parent);
    r := RelativeSelector(orig.hint, sel);
  }

  lemma RelativesMention(relatives: seq<RelativeSelector>)
    ensures Mentions(SelectorsOf(relatives)) <==>
            exists k :: 0 <= k < |relatives| && relatives[k].selector.flags.hasParent
  {
  }
}
