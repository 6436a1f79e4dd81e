/**
 The matcher as it runs: a context whose nesting level, negation flag and
 `:has()` anchor are set and restored around nested selectors, loops over
 components, siblings and candidates, and two caches that persist from one
 query to the next.  Every method computes what `Matching` says, leaves the
 context as it found it, and keeps all cache entries right.
 */
module Matcher {
  import opened Wrappers
  import opened Dom
  import opened Syntax
  import opened Kleene
  import opened Semantics
  import opened Matching
  import opened CacheUse
  import opened NthCache
  import opened RelativeFilter

  /** What is done in matching a selector is among the announced uses of the caches. */
  ghost predicate Cacheable(ctx: Ctx, uses: Uses, s: seq<Component>) {
    !ctx.mode.IsForInvalidation() ==> Follows(uses, SettingOf(ctx), s)
  }

  ghost predicate CacheableIn(ctx: Ctx, uses: Uses, c: Component) {
    !ctx.mode.IsForInvalidation() ==> FollowsIn(uses, SettingOf(ctx), c)
  }

  ghost predicate CacheableList(ctx: Ctx, uses: Uses, list: seq<Selector>) {
    !ctx.mode.IsForInvalidation() ==> FollowsList(uses, SettingOf(ctx), list)
  }

  ghost predicate CacheableRelatives(ctx: Ctx, uses: Uses, relatives: seq<RelativeSelector>) {
    !ctx.mode.IsForInvalidation() && ctx.anchor.None? ==>
      forall i :: 0 <= i < |relatives| ==> FollowsRelative(uses, SettingOf(ctx), relatives[i])
  }

  /** The announced uses of a key agree. */
  ghost predicate Sharable(ctx: Ctx, uses: Uses) {
    !ctx.mode.IsForInvalidation() ==> Coherent(Base(ctx), uses)
  }

  lemma CacheableArguments(ctx: Ctx, uses: Uses, c: Component)
    requires CacheableIn(ctx, uses, c)
    ensures c.Is? || c.Where? ==> CacheableList(ctx, uses, c.list)
    ensures c.Negation? ==> CacheableList(ctx.(inNegation := !ctx.inNegation), uses, c.list)
    ensures c.NthOf? ==> CacheableList(ctx, uses, c.of)
    ensures c.Has? ==> CacheableRelatives(ctx, uses, c.relatives)
  {
  }

  lemma OwnSetting(ctx: Ctx)
    ensures In(Base(ctx), SettingOf(ctx)) == ctx
  {
  }

  /** What is right in the present setting is a valid entry, and the other way round. */
  lemma EntryMeansIndex(ctx: Ctx, uses: Uses, c: Component, ofType: bool, fromEnd: bool, el: nat, index: int)
    requires InDoc(ctx.doc, el) && (c.Nth? || c.NthOf?) && !ctx.doc.nodes[el].ignoresNth
    requires !ctx.mode.IsForInvalidation() && Sharable(ctx, uses) && CacheableIn(ctx, uses, c)
    requires Counts(ctx, c, ofType, el, el)
    ensures ValidEntry(Base(ctx), uses, ofType, fromEnd, OfList(c), el, index) <==>
            index == NthChildIndex(ctx, c, ofType, fromEnd, el)
  {
    var base, list, own := Base(ctx), OfList(c), SettingOf(ctx);
    OwnSetting(ctx);
    SameCount(ctx, c, Counting(list), ofType, fromEnd, el, el, el);
    forall t | Asked(base, uses, ofType, list, t, el)
      ensures NthChildIndex(In(base, t), Counting(list), ofType, fromEnd, el) ==
              NthChildIndex(ctx, c, ofType, fromEnd, el)
    {
      if ofType || list == [] {
        PlainCount(In(base, t), ctx, Counting(list), c, ofType, fromEnd, el, el);
      } else {
        assert SameIndices(base, list, t, own);
        assert Indexed(In(base, own), list, el);
        assert Index(In(base, t), list, fromEnd, el) == Index(In(base, own), list, fromEnd, el);
      }
    }
    assert Asked(base, uses, ofType, list, own, el);
  }

  /** When counting by type the list is no part of the key. */
  lemma TypeEntry(base: Ctx, uses: Uses, fromEnd: bool, list: seq<Selector>, list': seq<Selector>, el: nat, index: int)
    ensures ValidEntry(base, uses, true, fromEnd, list, el, index) <==>
            ValidEntry(base, uses, true, fromEnd, list', el, index)
  {
    if InDoc(base.doc, el) {
      forall t
        ensures NthChildIndex(In(base, t), Counting(list), true, fromEnd, el) ==
                NthChildIndex(In(base, t), Counting(list'), true, fromEnd, el)
      {
        PlainCount(In(base, t), In(base, t), Counting(list), Counting(list'), true, fromEnd, el, el);
      }
      assert forall t :: Asked(base, uses, true, list, t, el) && Asked(base, uses, true, list', t, el);
    }
  }

  /** Results of relative selectors by anchor element and selector. */
  class RelativeSelectorCache {
    var cache: map<(nat, RelativeSelector), bool>

    constructor ()
      ensures cache == map[]
    {
      cache := map[];
    }

    method Lookup(anchor: nat, selector: RelativeSelector) returns (r: Option<bool>)
      ensures r == if (anchor, selector) in cache then Some(cache[(anchor, selector)]) else None
    {
      r := if (anchor, selector) in cache then Some(cache[(anchor, selector)]) else None;
    }

    method Add(anchor: nat, selector: RelativeSelector, matched: bool)
      modifies this
      ensures cache == old(cache)[(anchor, selector) := matched]
    {
      cache := cache[(anchor, selector) := matched];
    }

    /** Every entry is what a search would find, at whichever parity it may be asked for. */
    ghost predicate Valid(base: Ctx, uses: Uses)
      reads this
    {
      forall k | k in cache :: InDoc(base.doc, k.0) && ValidResult(base, uses, k.0, k.1, cache[k])
    }
  }

  ghost predicate ValidResult(base: Ctx, uses: Uses, e: nat, r: RelativeSelector, found: bool)
    requires InDoc(base.doc, e)
  {
    forall p | uses.has(r, p) :: found == Relative(In(base, Setting(Some(e), p)), r, e)
  }

  lemma ResultMeansSearch(ctx: Ctx, uses: Uses, e: nat, r: RelativeSelector, found: bool)
    requires InDoc(ctx.doc, e) && ctx.anchor == Some(e) && !ctx.mode.IsForInvalidation()
    requires Sharable(ctx, uses) && uses.has(r, ctx.inNegation)
    ensures ValidResult(Base(ctx), uses, e, r, found) <==> found == Relative(ctx, r, e)
  {
    var base := Base(ctx);
    assert In(base, Setting(Some(e), ctx.inNegation)) == ctx;
    forall p | uses.has(r, p)
      ensures Relative(In(base, Setting(Some(e), p)), r, e) == Relative(ctx, r, e)
    {
      assert SameSearches(base, r, p, ctx.inNegation);
    }
  }

  class MatchingContext {
    const doc: Doc
    const mode: Mode
    const scopeElement: Option<nat>
    const nthIndex: NthIndexCache
    const relativeSelector: RelativeSelectorCache
    const relativeSelectorFilterMap: RelativeSelectorFilterMap
    ghost const uses: Uses
    var nestingLevel: nat
    var inNegation: bool
    var anchor: Option<nat>

    constructor (mode: Mode, scopeElement: Option<nat>, nthIndex: NthIndexCache,
                 relativeSelector: RelativeSelectorCache,
                 relativeSelectorFilterMap: RelativeSelectorFilterMap, ghost uses: Uses)
      requires Sharable(Ctx(relativeSelectorFilterMap.doc, mode, scopeElement, None, false), uses)
      requires nthIndex.Valid(Ctx(relativeSelectorFilterMap.doc, mode, scopeElement, None, false), uses)
      requires relativeSelector.Valid(Ctx(relativeSelectorFilterMap.doc, mode, scopeElement, None, false), uses)
      requires relativeSelectorFilterMap.Valid()
      ensures Valid() && nestingLevel == 0 && this.uses == uses
      ensures View() == Ctx(relativeSelectorFilterMap.doc, mode, scopeElement, None, false)
      ensures this.nthIndex == nthIndex && this.relativeSelector == relativeSelector
      ensures this.relativeSelectorFilterMap == relativeSelectorFilterMap
    {
      this.doc, this.mode, this.scopeElement := relativeSelectorFilterMap.doc, mode, scopeElement;
      this.nthIndex, this.relativeSelector := nthIndex, relativeSelector;
      this.relativeSelectorFilterMap, this.uses := relativeSelectorFilterMap, uses;
      nestingLevel, inNegation, anchor := 0, false, None;
    }

    function View(): Ctx
      reads this
    {
      Ctx(doc, mode, scopeElement, anchor, inNegation)
    }

    /** Whatever the caches hold is right. */
    ghost predicate Valid()
      reads this, nthIndex, relativeSelector, relativeSelectorFilterMap
    {
      && nthIndex.Valid(Base(View()), uses) && relativeSelector.Valid(Base(View()), uses)
      && relativeSelectorFilterMap.Valid() && relativeSelectorFilterMap.doc == doc
      && Sharable(View(), uses)
    }

    method MatchesSimpleSelector(c: Component, e: nat) returns (k: KleeneValue)
      requires Valid() && InDoc(doc, e) && CacheableIn(View(), uses, c)
      modifies this, nthIndex, relativeSelector, relativeSelectorFilterMap
      ensures Valid() && View() == old(View()) && nestingLevel == old(nestingLevel)
      ensures k == Simple(View(), c, e)
      decreases c, 8
    {
      CacheableArguments(View(), uses, c);
      if IsPlain(c) {
        return FromBool(PlainHolds(doc, c, e));
      }
      match c {
        case ParentSelector =>
          k := FromBool(IsScope(doc, scopeElement, e));
        case Scope =>
          k := ScopeValue(View(), e);
        case ImplicitScope =>
          k := ScopeValue(View(), e);
        case Nth(_) =>
          k := MatchesGenericNthChild(c, c.nth, e);
        case NthOf(_, _) =>
          nestingLevel := nestingLevel + 1;
          k := MatchesGenericNthChild(c, c.nth, e);
          nestingLevel := nestingLevel - 1;
        case Is(list) =>
          k := NestedList(list, e);
        case Where(list) =>
          k := NestedList(list, e);
        case Negation(list) =>
          k := NegatedList(list, e);
          k := Not(k);
        case Has(relatives) =>
          k := MatchRelativeSelectors(relatives, e);
        case RelativeSelectorAnchor =>
          k := FromBool(anchor.None? || anchor == Some(e));
        case _ =>
          k := False;
      }
    }

    /** One level further in. */
    method NestedList(list: seq<Selector>, e: nat) returns (k: KleeneValue)
      requires Valid() && InDoc(doc, e) && CacheableList(View(), uses, list)
      modifies this, nthIndex, relativeSelector, relativeSelectorFilterMap
      ensures Valid() && View() == old(View()) && nestingLevel == old(nestingLevel)
      ensures k == SelectorList(View(), list, e)
      decreases list, 1
    {
      nestingLevel := nestingLevel + 1;
      k := MatchesComplexSelectorList(list, e);
      nestingLevel := nestingLevel - 1;
    }

    /** One level further in, with the parity of the enclosing `:not()`s flipped for that time. */
    method NegatedList(list: seq<Selector>, e: nat) returns (k: KleeneValue)
      requires Valid() && InDoc(doc, e) && CacheableList(View().(inNegation := !inNegation), uses, list)
      modifies this, nthIndex, relativeSelector, relativeSelectorFilterMap
      ensures Valid() && View() == old(View()) && nestingLevel == old(nestingLevel)
      ensures k == SelectorList(View().(inNegation := !inNegation), list, e)
      decreases list, 2
    {
      var oldInNegation := inNegation;
      inNegation := !inNegation;
      k := NestedList(list, e);
      inNegation := oldInNegation;
    }

    /** Stops at the first component that is False; Unknown does not stop it. */
    method MatchesCompoundSelector(s: seq<Component>, e: nat) returns (k: KleeneValue)
      requires Valid() && InDoc(doc, e) && Cacheable(View(), uses, s)
      modifies this, nthIndex, relativeSelector, relativeSelectorFilterMap
      ensures Valid() && View() == old(View()) && nestingLevel == old(nestingLevel)
      ensures k == Compound(View(), s, e)
      decreases s, 0
    {
      var result: Option<KleeneValue> := None;
      var i := 0;
      while i < |s| && !s[i].Combinator?
        invariant i <= CompoundLength(s)
        invariant Valid() && View() == old(View()) && nestingLevel == old(nestingLevel)
        invariant result.Some? ==> !result.value.False?
        invariant Compound(View(), s, e) == And(result.GetOr(True), Compound(View(), s[i..], e))
      {
        var r := MatchesSimpleSelector(s[i], e);
        assert s[i..][1..] == s[i + 1..];
        if r.False? {
          return r;
        }
        result := if result.Some? then Some(And(result.value, r)) else Some(r);
        i := i + 1;
      }
      k := result.GetOr(True);
    }

    method MatchesComplexSelectorList(list: seq<Selector>, e: nat) returns (k: KleeneValue)
      requires Valid() && InDoc(doc, e) && CacheableList(View(), uses, list)
      modifies this, nthIndex, relativeSelector, relativeSelectorFilterMap
      ensures Valid() && View() == old(View()) && nestingLevel == old(nestingLevel)
      ensures k == SelectorList(View(), list, e)
      decreases list, 0
    {
      var result: Option<KleeneValue> := None;
      for i := 0 to |list|
        invariant Valid() && View() == old(View()) && nestingLevel == old(nestingLevel)
        invariant result.Some? ==> !result.value.True?
        invariant SelectorList(View(), list, e) == Or(result.GetOr(False), SelectorList(View(), list[i..], e))
      {
        var r := MatchesComplexSelector(list[i].comps, e);
        assert list[i..][1..] == list[i + 1..];
        if r.Matched? {
          return True;
        }
        result := if result.Some? then Some(Or(result.value, r.ToKleene())) else Some(r.ToKleene());
      }
      k := result.GetOr(False);
    }

    /** Matches the rightmost compound, then looks for an element for the rest of the selector. */
    method MatchesComplexSelector(s: seq<Component>, e: nat) returns (r: MatchResult)
      requires Valid() && InDoc(doc, e) && Cacheable(View(), uses, s)
      modifies this, nthIndex, relativeSelector, relativeSelectorFilterMap
      ensures Valid() && View() == old(View()) && nestingLevel == old(nestingLevel)
      ensures r == Complex(View(), s, e)
      decreases s, 1
    {
      var k := MatchesCompoundSelector(s, e);
      if NextCombinator(s).None? {
        match k {
          case True => return Matched;
          case Unknown => return UnknownResult;
          case False => return RestartFromClosestLaterSibling;
        }
      }
      if k.False? {
        return RestartFromClosestLaterSibling;
      }
      var combinator, rest := NextCombinator(s).value, AfterCombinator(s);
      assert Cacheable(View(), uses, rest);
      var element := e;
      while true
        invariant InDoc(doc, element)
        invariant Valid() && View() == old(View()) && nestingLevel == old(nestingLevel)
        invariant Complex(View(), s, e) == Candidates(View(), combinator, rest, k, element)
        decreases element
      {
        var next := NextElement(doc, combinator, element);
        if next.None? {
          return CandidateNotFound(combinator);
        }
        element := next.value;
        var result := MatchesComplexSelector(rest, element);
        match result {
          case Matched =>
            return if k.True? then Matched else UnknownResult;
          case UnknownResult =>
            return result;
          case NotMatchedGlobally =>
            return result;
          case _ =>
        }
        match combinator {
          case Descendant =>
          case Child =>
            return RestartFromClosestDescendant;
          case LaterSibling =>
            if result.RestartFromClosestDescendant? {
              return result;
            }
          case NextSibling =>
            return result;
        }
      }
    }

    // ---------- :has ----------

    method MatchRelativeSelectors(relatives: seq<RelativeSelector>, e: nat) returns (k: KleeneValue)
      requires Valid() && InDoc(doc, e)
      requires CacheableRelatives(View(), uses, relatives)
      modifies this, nthIndex, relativeSelector, relativeSelectorFilterMap
      ensures Valid() && View() == old(View()) && nestingLevel == old(nestingLevel)
      ensures k == if anchor.Some? then False
                   else if mode.IsForInvalidation() then Uncomputed(View())
                   else FromBool(SomeRelative(View().(anchor := Some(e)), relatives, e))
      decreases relatives, 1
    {
      if anchor.Some? {
        return False;
      }
      if mode.IsForInvalidation() {
        return Uncomputed(View());
      }
      anchor := Some(e);
      nestingLevel := nestingLevel + 1;
      var b := DoMatchRelativeSelectors(relatives, e);
      nestingLevel := nestingLevel - 1;
      anchor := None;
      k := FromBool(b);
    }

    /** Cached results are used, new ones are cached. */
    method DoMatchRelativeSelectors(relatives: seq<RelativeSelector>, e: nat) returns (b: bool)
      requires Valid() && InDoc(doc, e) && anchor == Some(e) && !mode.IsForInvalidation()
      requires forall i :: 0 <= i < |relatives| ==>
                 uses.has(relatives[i], inNegation) && Cacheable(View(), uses, relatives[i].selector.comps)
      modifies this, nthIndex, relativeSelector, relativeSelectorFilterMap
      ensures Valid() && View() == old(View()) && nestingLevel == old(nestingLevel)
      ensures b == SomeRelative(View(), relatives, e)
      decreases relatives, 0
    {
      for i := 0 to |relatives|
        invariant Valid() && View() == old(View()) && nestingLevel == old(nestingLevel)
        invariant SomeRelative(View(), relatives, e) == SomeRelative(View(), relatives[i..], e)
      {
        var relative := relatives[i];
        assert relatives[i..][1..] == relatives[i + 1..];
        var early := RelativeSelectorMatchEarly(relative, e);
        if early.Some? {
          if early.value {
            return true;
          }
        } else {
          var matched := MatchesRelativeSelector(relative, e);
          AddResult(relative, e, matched);
          if matched {
            return true;
          }
        }
      }
      b := false;
    }

    /** A cached result, or a rejection by the filter, which is then cached. */
    method RelativeSelectorMatchEarly(relative: RelativeSelector, e: nat) returns (r: Option<bool>)
      requires Valid() && InDoc(doc, e) && anchor == Some(e) && !mode.IsForInvalidation()
      requires uses.has(relative, inNegation)
      modifies relativeSelector, relativeSelectorFilterMap
      ensures Valid()
      ensures r.Some? ==> r.value == Relative(View(), relative, e)
      ensures (e, relative) in old(relativeSelector.cache) ==>
                r == Some(old(relativeSelector.cache)[(e, relative)])
      ensures relativeSelector.cache ==
              if r.Some? then old(relativeSelector.cache)[(e, relative) := r.value] else old(relativeSelector.cache)
    {
      var cached := relativeSelector.Lookup(e, relative);
      if cached.Some? {
        ResultMeansSearch(View(), uses, e, relative, cached.value);
        return cached;
      }
      var rejected := relativeSelectorFilterMap.FastReject(e, relative);
      if rejected {
        RejectionIsRight(relativeSelectorFilterMap.hasher, View(), relative, e);
        AddResult(relative, e, false);
        return Some(false);
      }
      r := None;
    }

    method AddResult(relative: RelativeSelector, e: nat, matched: bool)
      requires Valid() && InDoc(doc, e) && anchor == Some(e) && !mode.IsForInvalidation()
      requires uses.has(relative, inNegation) && matched == Relative(View(), relative, e)
      modifies relativeSelector
      ensures Valid()
      ensures relativeSelector.cache == old(relativeSelector.cache)[(e, relative) := matched]
    {
      ResultMeansSearch(View(), uses, e, relative, matched);
      relativeSelector.Add(e, relative, matched);
    }

    /** Walks the children, or the siblings that follow, as the hint of the selector says. */
    method MatchesRelativeSelector(relative: RelativeSelector, e: nat) returns (b: bool)
      requires Valid() && InDoc(doc, e) && Cacheable(View(), uses, relative.selector.comps)
      modifies this, nthIndex, relativeSelector, relativeSelectorFilterMap
      ensures Valid() && View() == old(View()) && nestingLevel == old(nestingLevel)
      ensures b == Relative(View(), relative, e)
      decreases relative, 0
    {
      var s, hint := relative.selector.comps, relative.hint;
      if hint.IsDescendantDirection() {
        var next: Option<nat> := FirstChild(doc, e);
        while next.Some?
          invariant next.Some? ==> InDoc(doc, next.value)
          invariant Valid() && View() == old(View()) && nestingLevel == old(nestingLevel)
          invariant Relative(View(), relative, e) == InChildren(View(), s, hint.IsSubtree(), next)
          decreases |doc.nodes| - next.GetOr(|doc.nodes|)
        {
          var el := next.value;
          var r := MatchesComplexSelector(s, el);
          var matched := r.ToKleene().ToBool(true);
          if !matched && hint.IsSubtree() {
            matched := MatchesRelativeSelectorSubtree(s, el);
          }
          if matched {
            return true;
          }
          next := Next(doc, el);
        }
      } else {
        var next: Option<nat> := Next(doc, e);
        while next.Some?
          invariant next.Some? ==> InDoc(doc, next.value)
          invariant Valid() && View() == old(View()) && nestingLevel == old(nestingLevel)
          invariant Relative(View(), relative, e) == InSiblings(View(), s, hint.IsSubtree(), hint.IsNextSibling(), next)
          decreases |doc.nodes| - next.GetOr(|doc.nodes|)
        {
          var el := next.value;
          var matched;
          if hint.IsSubtree() {
            matched := MatchesRelativeSelectorSubtree(s, el);
          } else {
            var r := MatchesComplexSelector(s, el);
            matched := r.ToKleene().ToBool(true);
          }
          if matched {
            return true;
          }
          if hint.IsNextSibling() {
            break;
          }
          next := Next(doc, el);
        }
      }
      b := false;
    }

    /** Depth-first search of the descendants of `e`. */
    method MatchesRelativeSelectorSubtree(s: seq<Component>, e: nat) returns (b: bool)
      requires Valid() && InDoc(doc, e) && Cacheable(View(), uses, s)
      modifies this, nthIndex, relativeSelector, relativeSelectorFilterMap
      ensures Valid() && View() == old(View()) && nestingLevel == old(nestingLevel)
      ensures b == InChildren(View(), s, true, FirstChild(doc, e))
      decreases s, 2, |doc.nodes| - e
    {
      var current: Option<nat> := FirstChild(doc, e);
      while current.Some?
        invariant current.Some? ==> e < current.value && InDoc(doc, current.value)
        invariant Valid() && View() == old(View()) && nestingLevel == old(nestingLevel)
        invariant InChildren(View(), s, true, FirstChild(doc, e)) == InChildren(View(), s, true, current)
        decreases |doc.nodes| - current.GetOr(|doc.nodes|)
      {
        var el := current.value;
        var r := MatchesComplexSelector(s, el);
        if r.ToKleene().ToBool(true) {
          return true;
        }
        var below := MatchesRelativeSelectorSubtree(s, el);
        if below {
          return true;
        }
        current := Next(doc, el);
      }
      b := false;
    }

    // ---------- :nth-* ----------

    method MatchesGenericNthChild(c: Component, nth: NthData, e: nat) returns (k: KleeneValue)
      requires Valid() && InDoc(doc, e) && (c.Nth? || c.NthOf?) && CacheableIn(View(), uses, c)
      modifies this, nthIndex, relativeSelector, relativeSelectorFilterMap
      ensures Valid() && View() == old(View()) && nestingLevel == old(nestingLevel)
      ensures k == GenericNth(View(), c, nth, e)
      decreases c, 6, if nth.ty.IsOnly() then 1 else 0
    {
      if doc.nodes[e].ignoresNth {
        return False;
      }
      CacheableArguments(View(), uses, c);
      var selectors := OfList(c);
      var selectorsMatch := true;
      if selectors != [] {
        var m := MatchesComplexSelectorList(selectors, e);
        selectorsMatch := m.ToBool(true);
      }
      if mode.IsForInvalidation() {
        return if selectorsMatch && mode.Comparison? then Unknown else FromBool(selectorsMatch && !inNegation);
      }
      var ofType := nth.ty.IsOfType();
      if nth.ty.IsOnly() {
        var first := MatchesGenericNthChild(c, NthFirst(ofType), e);
        if !first.ToBool(true) {
          return False;
        }
        var last := MatchesGenericNthChild(c, NthLast(ofType), e);
        return FromBool(last.ToBool(true));
      }
      var fromEnd := nth.ty.IsFromEnd();
      if !selectorsMatch {
        return False;
      }
      if nth.IsSimpleEdge() && selectors == [] {
        return FromBool(Step(doc, fromEnd, e).None?);
      }
      var index;
      var cached := LookupIndex(c, ofType, fromEnd, e);
      if cached.Some? {
        index := cached.value;
      } else {
        index := NthChildIndexCached(c, ofType, fromEnd, true, e);
        InsertIndex(c, ofType, fromEnd, e, index);
      }
      k := FromBool(MatchesIndex(nth.a, nth.b, index));
    }

    method LookupIndex(c: Component, ofType: bool, fromEnd: bool, el: nat) returns (r: Option<int>)
      requires Valid() && InDoc(doc, el) && (c.Nth? || c.NthOf?) && CacheableIn(View(), uses, c)
      requires !mode.IsForInvalidation() && Counts(View(), c, ofType, el, el)
      ensures r.Some? ==> r.value == NthChildIndex(View(), c, ofType, fromEnd, el)
      ensures r.Some? <==> el in nthIndex.Select(ofType, fromEnd, OfList(c))
    {
      r := nthIndex.Lookup(ofType, fromEnd, OfList(c), el);
      if r.Some? {
        EntryMeansIndex(View(), uses, c, ofType, fromEnd, el, r.value);
      }
    }

    method InsertIndex(c: Component, ofType: bool, fromEnd: bool, el: nat, index: int)
      requires Valid() && InDoc(doc, el) && (c.Nth? || c.NthOf?) && CacheableIn(View(), uses, c)
      requires !mode.IsForInvalidation() && Counts(View(), c, ofType, el, el) && !doc.nodes[el].ignoresNth
      requires index == NthChildIndex(View(), c, ofType, fromEnd, el)
      modifies nthIndex
      ensures Valid()
      ensures nthIndex.Select(ofType, fromEnd, OfList(c)) ==
              old(nthIndex.Select(ofType, fromEnd, OfList(c)))[el := index]
    {
      EntryMeansIndex(View(), uses, c, ofType, fromEnd, el, index);
      forall list | ofType
        ensures ValidEntry(Base(View()), uses, ofType, fromEnd, list, el, index)
      {
        TypeEntry(Base(View()), uses, fromEnd, OfList(c), list, el, index);
      }
      nthIndex.Insert(ofType, fromEnd, OfList(c), el, index);
    }

    /** Counts siblings until the next cached one; from the end, looks for a cached one on the other side first. */
    method NthChildIndexCached(c: Component, ofType: bool, fromEnd: bool, checkCache: bool, e: nat) returns (index: int)
      requires Valid() && InDoc(doc, e) && (c.Nth? || c.NthOf?) && CacheableIn(View(), uses, c)
      requires !mode.IsForInvalidation() && Counts(View(), c, ofType, e, e)
      modifies this, nthIndex, relativeSelector, relativeSelectorFilterMap
      ensures Valid() && View() == old(View()) && nestingLevel == old(nestingLevel)
      ensures index == NthChildIndex(View(), c, ofType, fromEnd, e)
      decreases c, 5, 1
    {
      if checkCache && fromEnd {
        var empty := nthIndex.IsEmpty(ofType, fromEnd, OfList(c));
        if !empty {
          var known := NthLastIndexFromEarlier(c, ofType, e);
          if known.Some? {
            return known.value;
          }
        }
      }
      index := CountSiblings(c, ofType, fromEnd, checkCache, e);
    }

    /** The loop of the index computation. */
    method CountSiblings(c: Component, ofType: bool, fromEnd: bool, checkCache: bool, e: nat) returns (index: int)
      requires Valid() && InDoc(doc, e) && (c.Nth? || c.NthOf?) && CacheableIn(View(), uses, c)
      requires !mode.IsForInvalidation()
      modifies this, nthIndex, relativeSelector, relativeSelectorFilterMap
      ensures Valid() && View() == old(View()) && nestingLevel == old(nestingLevel)
      ensures index == NthChildIndex(View(), c, ofType, fromEnd, e)
      decreases c, 5, 0
    {
      ghost var ctx := View();
      index := 1;
      var curr := e;
      var next := Step(doc, fromEnd, curr);
      while next.Some?
        invariant InDoc(doc, curr) && next == Step(doc, fromEnd, curr)
        invariant Valid() && View() == ctx && nestingLevel == old(nestingLevel)
        invariant NthChildIndex(ctx, c, ofType, fromEnd, e) == index + CountBeyond(ctx, c, ofType, fromEnd, e, curr)
        decreases if fromEnd then |doc.nodes| - curr else curr
      {
        CountStep(ctx, c, ofType, fromEnd, e, curr, next.value);
        curr := next.value;
        next := Step(doc, fromEnd, curr);
        var matches, cached := VisitSibling(c, ofType, fromEnd, !fromEnd && checkCache, e, curr);
        if cached.Some? {
          return cached.value + index;
        }
        if matches {
          index := index + 1;
        }
      }
      CountEnd(ctx, c, ofType, fromEnd, e, curr);
    }

    /** Whether a sibling counts and, if it does and is looked up, the number of those beyond it, with itself. */
    method VisitSibling(c: Component, ofType: bool, fromEnd: bool, lookUp: bool, e: nat, curr: nat)
      returns (matches: bool, cached: Option<int>)
      requires Valid() && InDoc(doc, e) && InDoc(doc, curr) && (c.Nth? || c.NthOf?)
      requires CacheableIn(View(), uses, c) && !mode.IsForInvalidation()
      modifies this, nthIndex, relativeSelector, relativeSelectorFilterMap
      ensures Valid() && View() == old(View()) && nestingLevel == old(nestingLevel)
      ensures matches == Counts(View(), c, ofType, e, curr)
      ensures cached.Some? ==> cached.value == 1 + CountBeyond(View(), c, ofType, fromEnd, e, curr)
      ensures cached.Some? <==> matches && lookUp && curr in nthIndex.Select(ofType, fromEnd, OfList(c))
      decreases c, 4, 1
    {
      matches := CountsTowards(c, ofType, e, curr);
      cached := None;
      if matches && lookUp {
        cached := LookupIndex(c, ofType, fromEnd, curr);
        SameCount(View(), c, c, ofType, fromEnd, curr, e, curr);
      }
    }

    /** The index from the end, if some earlier sibling has a cached one: that one less the siblings in between. */
    method NthLastIndexFromEarlier(c: Component, ofType: bool, e: nat) returns (r: Option<int>)
      requires Valid() && InDoc(doc, e) && (c.Nth? || c.NthOf?) && CacheableIn(View(), uses, c)
      requires !mode.IsForInvalidation() && Counts(View(), c, ofType, e, e)
      modifies this, nthIndex, relativeSelector, relativeSelectorFilterMap
      ensures Valid() && View() == old(View()) && nestingLevel == old(nestingLevel)
      ensures r.Some? ==> r.value == NthChildIndex(View(), c, ofType, true, e)
      decreases c, 5, 0
    {
      var index: int := 1;
      var curr := e;
      var prev := Prev(doc, curr);
      while prev.Some?
        invariant InDoc(doc, curr) && prev == Prev(doc, curr)
        invariant Valid() && View() == old(View()) && nestingLevel == old(nestingLevel)
        invariant index + CountBeyond(View(), c, ofType, true, e, e) ==
                  (if Counts(View(), c, ofType, e, curr) then 1 else 0) + CountBeyond(View(), c, ofType, true, e, curr)
        decreases curr
      {
        CountFromEndStep(View(), c, ofType, e, curr);
        curr := prev.value;
        prev := Prev(doc, curr);
        var matches, cached := VisitSibling(c, ofType, true, true, e, curr);
        if cached.Some? {
          return Some(cached.value - index);
        }
        if matches {
          index := index + 1;
        }
      }
      r := None;
    }

    method CountsTowards(c: Component, ofType: bool, e: nat, f: nat) returns (b: bool)
      requires Valid() && InDoc(doc, e) && InDoc(doc, f) && (c.Nth? || c.NthOf?) && CacheableIn(View(), uses, c)
      modifies this, nthIndex, relativeSelector, relativeSelectorFilterMap
      ensures Valid() && View() == old(View()) && nestingLevel == old(nestingLevel)
      ensures b == Counts(View(), c, ofType, e, f)
      decreases c, 4, 0
    {
      if ofType {
        b := SameType(doc, e, f);
      } else if OfList(c) != [] {
        CacheableArguments(View(), uses, c);
        var m := MatchesComplexSelectorList(OfList(c), f);
        b := m.ToBool(true);
      } else {
        b := true;
      }
    }
  }
}
