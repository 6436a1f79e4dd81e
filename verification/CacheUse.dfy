/**
 What the caches rely on.  They are keyed by element and selector only, but a
 result also depends on the `:has()` anchor and on the parity of the enclosing
 `:not()`s.  A key may be shared by several settings exactly if they agree on
 what is stored under it.
 */
module CacheUse {
  import opened Wrappers
  import opened Dom
  import opened Syntax
  import opened Kleene
  import opened Semantics
  import opened Matching
  import opened RelativeHint
  import opened HasSearch
  import opened Soundness
  import opened Independence

  /** What a result can depend on, apart from the document, the mode and the scoping element. */
  datatype Setting = Setting(anchor: Option<nat>, inNegation: bool)

  function SettingOf(ctx: Ctx): Setting {
    Setting(ctx.anchor, ctx.inNegation)
  }

  function In(base: Ctx, t: Setting): Ctx {
    base.(anchor := t.anchor, inNegation := t.inNegation)
  }

  function Base(ctx: Ctx): Ctx {
    ctx.(anchor := None, inNegation := false)
  }

  /** In which settings lists are counted by, and at which parities relative selectors are searched for. */
  datatype Uses = Uses(nth: (seq<Selector>, Setting) -> bool, has: (RelativeSelector, bool) -> bool)

  /** A component that counts by `selectors`. */
  function Counting(selectors: seq<Selector>): (c: Component)
    ensures c.Nth? || c.NthOf?
    ensures OfList(c) == selectors
  {
    if selectors == [] then Nth(NthFirst(false)) else NthOf(NthFirst(false), selectors)
  }

  function ListedNth(list: seq<Selector>, fromEnd: bool, a: I32, b: I32): (c: Component)
    ensures c.NthOf? && OfList(c) == list
  {
    NthOf(NthData(if fromEnd then NthLastChild else NthChild, a, b), list)
  }

  /** The elements whose index by `list` is computed, and so cached. */
  predicate Indexed(ctx: Ctx, list: seq<Selector>, e: nat)
    requires InDoc(ctx.doc, e)
  {
    !ctx.doc.nodes[e].ignoresNth && (list == [] || SelectorList(ctx, list, e).ToBool(true))
  }

  function Index(ctx: Ctx, list: seq<Selector>, fromEnd: bool, e: nat): nat
    requires InDoc(ctx.doc, e)
  {
    NthChildIndex(ctx, Counting(list), false, fromEnd, e)
  }

  ghost predicate SameIndices(base: Ctx, list: seq<Selector>, t: Setting, u: Setting) {
    forall fromEnd, e |
        0 <= e < |base.doc.nodes| && Indexed(In(base, t), list, e) && Indexed(In(base, u), list, e) ::
      Index(In(base, t), list, fromEnd, e) == Index(In(base, u), list, fromEnd, e)
  }

  ghost predicate SameSearches(base: Ctx, r: RelativeSelector, p: bool, q: bool) {
    forall e | 0 <= e < |base.doc.nodes| ::
      Relative(In(base, Setting(Some(e), p)), r, e) == Relative(In(base, Setting(Some(e), q)), r, e)
  }

  /** Settings that share a key agree. */
  ghost predicate Coherent(base: Ctx, uses: Uses) {
    && (forall list, t, u | uses.nth(list, t) && uses.nth(list, u) :: SameIndices(base, list, t, u))
    && (forall r, p, q | uses.has(r, p) && uses.has(r, q) :: SameSearches(base, r, p, q))
  }

  // ---------- The uses that matching a selector makes ----------

  ghost predicate Follows(uses: Uses, t: Setting, s: seq<Component>)
    decreases s, 0
  {
    forall i :: 0 <= i < |s| ==> FollowsIn(uses, t, s[i])
  }

  ghost predicate FollowsIn(uses: Uses, t: Setting, c: Component)
    decreases c, 0
  {
    match c
    case NthOf(_, of) => uses.nth(of, t) && FollowsList(uses, t, of)
    case Is(list) => FollowsList(uses, t, list)
    case Where(list) => FollowsList(uses, t, list)
    case Negation(list) => FollowsList(uses, t.(inNegation := !t.inNegation), list)
    case Has(relatives) =>
      t.anchor.None? ==> forall i :: 0 <= i < |relatives| ==> FollowsRelative(uses, t, relatives[i])
    case _ => true
  }

  ghost predicate FollowsRelative(uses: Uses, t: Setting, relative: RelativeSelector)
    decreases relative, 0
  {
    && uses.has(relative, t.inNegation)
    && forall e: nat :: Follows(uses, t.(anchor := Some(e)), relative.selector.comps)
  }

  ghost predicate FollowsList(uses: Uses, t: Setting, list: seq<Selector>)
    decreases list, 0
  {
    forall i :: 0 <= i < |list| ==> Follows(uses, t, list[i].comps)
  }

  // ---------- Agreement is needed ----------

  /** An index that is stored in setting `t` gives the answer of setting `u`. */
  ghost predicate StoredAnswersRight(base: Ctx, list: seq<Selector>, t: Setting, u: Setting, fromEnd: bool, e: nat)
    requires InDoc(base.doc, e)
  {
    forall a: I32, b: I32 ::
      var c := ListedNth(list, fromEnd, a, b);
      MatchesIndex(a, b, Index(In(base, t), list, fromEnd, e)) <==> GenericNth(In(base, u), c, c.nth, e).True?
  }

  /**
   Two settings can share the key of a list exactly if they agree on the index of
   every element that has one in both: otherwise some `An+B` is answered wrongly
   from an entry that is right where it was stored.
   */
  lemma SharingIsRightIff(base: Ctx, list: seq<Selector>, t: Setting, u: Setting)
    requires !base.mode.IsForInvalidation() && list != [] && |base.doc.nodes| < 0x8000_0000
    ensures SameIndices(base, list, t, u) <==>
            forall fromEnd, e | 0 <= e < |base.doc.nodes|
                && Indexed(In(base, t), list, e) && Indexed(In(base, u), list, e) ::
              StoredAnswersRight(base, list, t, u, fromEnd, e)
  {
    forall fromEnd, e | 0 <= e < |base.doc.nodes| && Indexed(In(base, u), list, e)
      ensures StoredAnswersRight(base, list, t, u, fromEnd, e) <==>
              Index(In(base, t), list, fromEnd, e) == Index(In(base, u), list, fromEnd, e)
    {
      StoredAnswersRightIff(base, list, t, u, fromEnd, e);
    }
  }

  lemma StoredAnswersRightIff(base: Ctx, list: seq<Selector>, t: Setting, u: Setting, fromEnd: bool, e: nat)
    requires !base.mode.IsForInvalidation() && list != [] && |base.doc.nodes| < 0x8000_0000
    requires InDoc(base.doc, e) && Indexed(In(base, u), list, e)
    ensures StoredAnswersRight(base, list, t, u, fromEnd, e) <==>
            Index(In(base, t), list, fromEnd, e) == Index(In(base, u), list, fromEnd, e)
  {
    var i, j := Index(In(base, t), list, fromEnd, e), Index(In(base, u), list, fromEnd, e);
    IndexInDocument(In(base, u), Counting(list), false, fromEnd, e, e);
    forall a: I32, b: I32
      ensures var c := ListedNth(list, fromEnd, a, b);
              GenericNth(In(base, u), c, c.nth, e).True? <==> MatchesIndex(a, b, j)
    {
      IndexedAnswer(In(base, u), list, fromEnd, a, b, e);
    }
    var b: I32 := j;
    var c := ListedNth(list, fromEnd, 0, b);
    assert MatchesIndex(0, b, j);
    assert GenericNth(In(base, u), c, c.nth, e).True?;
    assert MatchesIndex(0, b, i) ==> i == j;
  }

  /** In the setting of anchor `e` and parity `p` the region that the hint stands for has a hit. */
  ghost predicate RegionIsHit(base: Ctx, r: RelativeSelector, p: bool, e: nat)
    requires InDoc(base.doc, e)
  {
    exists f :: 0 <= f < |base.doc.nodes| && InRegion(base.doc, r.hint, e, f)
                && Hit(In(base, Setting(Some(e), p)), r.selector.comps, f)
  }

  ghost predicate SameHits(base: Ctx, r: RelativeSelector, p: bool, q: bool) {
    forall e | 0 <= e < |base.doc.nodes| :: RegionIsHit(base, r, p, e) <==> RegionIsHit(base, r, q, e)
  }

  /** Every result that is stored at parity `p` gives the answer of parity `q`. */
  ghost predicate StoredResultsRight(base: Ctx, r: RelativeSelector, p: bool, q: bool) {
    forall e | 0 <= e < |base.doc.nodes| ::
      FromBool(Relative(In(base, Setting(Some(e), p)), r, e)) == Simple(In(base, Setting(None, q)), Has([r]), e)
  }

  /**
   Two parities can share the key of a relative selector exactly if, for every anchor, the region of
   the hint has a hit at both of them or at neither.
   */
  lemma SearchSharingIsRightIff(base: Ctx, r: RelativeSelector, p: bool, q: bool)
    requires !base.mode.IsForInvalidation()
    ensures StoredResultsRight(base, r, p, q) <==> SameHits(base, r, p, q)
    ensures SameSearches(base, r, p, q) <==> SameHits(base, r, p, q)
  {
    forall e | 0 <= e < |base.doc.nodes|
      ensures Relative(In(base, Setting(Some(e), p)), r, e) <==> RegionIsHit(base, r, p, e)
      ensures Relative(In(base, Setting(Some(e), q)), r, e) <==> RegionIsHit(base, r, q, e)
      ensures Simple(In(base, Setting(None, q)), Has([r]), e) == FromBool(Relative(In(base, Setting(Some(e), q)), r, e))
    {
      SearchIsExact(In(base, Setting(Some(e), p)), r, e);
      SearchIsExact(In(base, Setting(Some(e), q)), r, e);
      HasOneAnswer(In(base, Setting(None, q)), r, e);
    }
  }

  lemma HasOneAnswer(ctx: Ctx, r: RelativeSelector, e: nat)
    requires InDoc(ctx.doc, e) && !ctx.mode.IsForInvalidation() && ctx.anchor.None?
    ensures Simple(ctx, Has([r]), e) == FromBool(Relative(ctx.(anchor := Some(e)), r, e))
  {
    OneRelativeSearch(ctx.(anchor := Some(e)), [r], e);
  }

  lemma OneRelativeSearch(inside: Ctx, relatives: seq<RelativeSelector>, e: nat)
    requires InDoc(inside.doc, e) && |relatives| == 1
    ensures SomeRelative(inside, relatives, e) == Relative(inside, relatives[0], e)
  {
    assert !SomeRelative(inside, relatives[1..], e);
  }

  /** An element that the list matches is answered by its index. */
  lemma IndexedAnswer(ctx: Ctx, list: seq<Selector>, fromEnd: bool, a: I32, b: I32, e: nat)
    requires !ctx.mode.IsForInvalidation() && list != [] && InDoc(ctx.doc, e) && Indexed(ctx, list, e)
    ensures var c := ListedNth(list, fromEnd, a, b);
            GenericNth(ctx, c, c.nth, e).True? <==> MatchesIndex(a, b, Index(ctx, list, fromEnd, e))
  {
    var c := ListedNth(list, fromEnd, a, b);
    SameCount(ctx, c, Counting(list), false, fromEnd, e, e, e);
    assert IndexMatches(ctx, c, c.nth, e) == MatchesIndex(a, b, NthChildIndex(ctx, c, false, fromEnd, e));
  }

  /** The count depends on the component only through its list, and on the element only through its type. */
  lemma {:induction false} SameCount(ctx: Ctx, c: Component, c': Component, ofType: bool, fromEnd: bool,
                                     e: nat, e': nat, cur: nat)
    requires InDoc(ctx.doc, e) && InDoc(ctx.doc, e') && InDoc(ctx.doc, cur)
    requires (c.Nth? || c.NthOf?) && (c'.Nth? || c'.NthOf?)
    requires if ofType then SameType(ctx.doc, e, e') else OfList(c) == OfList(c')
    ensures CountBeyond(ctx, c, ofType, fromEnd, e, cur) == CountBeyond(ctx, c', ofType, fromEnd, e', cur)
    decreases if fromEnd then |ctx.doc.nodes| - cur else cur
  {
    var n := Step(ctx.doc, fromEnd, cur);
    if n.Some? {
      SameCount(ctx, c, c', ofType, fromEnd, e, e', n.value);
    }
  }

  /** Counting by type, or counting all siblings, is the same in every setting. */
  lemma {:induction false} PlainCount(ctx: Ctx, other: Ctx, c: Component, c': Component, ofType: bool, fromEnd: bool,
                                      e: nat, cur: nat)
    requires InDoc(ctx.doc, e) && InDoc(ctx.doc, cur) && ctx.doc == other.doc
    requires (c.Nth? || c.NthOf?) && (c'.Nth? || c'.NthOf?) && (ofType || OfList(c) == OfList(c') == [])
    ensures CountBeyond(ctx, c, ofType, fromEnd, e, cur) == CountBeyond(other, c', ofType, fromEnd, e, cur)
    decreases if fromEnd then |ctx.doc.nodes| - cur else cur
  {
    var n := Step(ctx.doc, fromEnd, cur);
    if n.Some? {
      PlainCount(ctx, other, c, c', ofType, fromEnd, e, n.value);
    }
  }

  ghost predicate IndicesAgree(ctx: Ctx, other: Ctx, list: seq<Selector>, fromEnd: bool)
    requires ctx.doc == other.doc
  {
    forall e | 0 <= e < |ctx.doc.nodes| :: Index(ctx, list, fromEnd, e) == Index(other, list, fromEnd, e)
  }

  predicate AgreeAt(ctx: Ctx, other: Ctx, list: seq<Selector>, f: nat)
    requires ctx.doc == other.doc && InDoc(ctx.doc, f)
  {
    SelectorList(ctx, list, f).ToBool(true) == SelectorList(other, list, f).ToBool(true)
  }

  /** The list agrees on every element that is followed by a sibling or, from the end, preceded by one. */
  ghost predicate ListsAgree(ctx: Ctx, other: Ctx, list: seq<Selector>, fromEnd: bool)
    requires ctx.doc == other.doc
  {
    forall f | 0 <= f < |ctx.doc.nodes| && Step(ctx.doc, !fromEnd, f).Some? :: AgreeAt(ctx, other, list, f)
  }

  /** All indices agree exactly if the list does wherever it is counted. */
  lemma IndicesAgreeIff(ctx: Ctx, other: Ctx, list: seq<Selector>, fromEnd: bool)
    requires ctx.doc == other.doc && list != []
    ensures IndicesAgree(ctx, other, list, fromEnd) <==> ListsAgree(ctx, other, list, fromEnd)
  {
    if IndicesAgree(ctx, other, list, fromEnd) {
      forall f | 0 <= f < |ctx.doc.nodes| && Step(ctx.doc, !fromEnd, f).Some?
        ensures AgreeAt(ctx, other, list, f)
      {
        var g := Step(ctx.doc, !fromEnd, f).value;
        IndexStep(ctx, list, fromEnd, f, g);
        IndexStep(other, list, fromEnd, f, g);
      }
    }
    if ListsAgree(ctx, other, list, fromEnd) {
      forall e | 0 <= e < |ctx.doc.nodes|
        ensures Index(ctx, list, fromEnd, e) == Index(other, list, fromEnd, e)
      {
        SameIndex(ctx, other, list, fromEnd, e);
      }
    }
  }

  lemma CountStep(ctx: Ctx, c: Component, ofType: bool, fromEnd: bool, e: nat, cur: nat, next: nat)
    requires InDoc(ctx.doc, e) && InDoc(ctx.doc, cur) && (c.Nth? || c.NthOf?)
    requires Step(ctx.doc, fromEnd, cur) == Some(next)
    ensures CountBeyond(ctx, c, ofType, fromEnd, e, cur) ==
            (if Counts(ctx, c, ofType, e, next) then 1 else 0) + CountBeyond(ctx, c, ofType, fromEnd, e, next)
  {
  }

  lemma CountEnd(ctx: Ctx, c: Component, ofType: bool, fromEnd: bool, e: nat, cur: nat)
    requires InDoc(ctx.doc, e) && InDoc(ctx.doc, cur) && (c.Nth? || c.NthOf?) && Step(ctx.doc, fromEnd, cur) == None
    ensures CountBeyond(ctx, c, ofType, fromEnd, e, cur) == 0
  {
  }

  /** From one sibling to the next. */
  lemma IndexStep(ctx: Ctx, list: seq<Selector>, fromEnd: bool, f: nat, g: nat)
    requires InDoc(ctx.doc, f) && InDoc(ctx.doc, g) && Step(ctx.doc, !fromEnd, f) == Some(g) && list != []
    ensures Step(ctx.doc, fromEnd, g) == Some(f)
    ensures Index(ctx, list, fromEnd, g) ==
            Index(ctx, list, fromEnd, f) + if SelectorList(ctx, list, f).ToBool(true) then 1 else 0
  {
    var c := Counting(list);
    SameCount(ctx, c, c, false, fromEnd, f, g, f);
    assert Counts(ctx, c, false, g, f) == SelectorList(ctx, OfList(c), f).ToBool(true);
    CountStep(ctx, c, false, fromEnd, g, g, f);
  }

  lemma {:induction false} SameIndex(ctx: Ctx, other: Ctx, list: seq<Selector>, fromEnd: bool, e: nat)
    requires ctx.doc == other.doc && list != [] && InDoc(ctx.doc, e) && ListsAgree(ctx, other, list, fromEnd)
    ensures Index(ctx, list, fromEnd, e) == Index(other, list, fromEnd, e)
    decreases if fromEnd then |ctx.doc.nodes| - e else e
  {
    var n := Step(ctx.doc, fromEnd, e);
    if n.None? {
      CountEnd(ctx, Counting(list), false, fromEnd, e, e);
      CountEnd(other, Counting(list), false, fromEnd, e, e);
    } else {
      SameIndex(ctx, other, list, fromEnd, n.value);
      assert AgreeAt(ctx, other, list, n.value);
      IndexStep(ctx, list, fromEnd, n.value, e);
      IndexStep(other, list, fromEnd, n.value, e);
    }
  }

  // ---------- Uses that always agree ----------

  /**
   Inside of a `:has()` only lists that do not ask for another one are counted by;
   under revalidation at odd parity, only such as do not ask for `:scope`.
   */
  ghost function BlindUses(mode: Mode): Uses {
    Uses((list: seq<Selector>, t: Setting) =>
           && (t.anchor.None? || EverywhereInList(AnchorBlind, list))
           && (mode.Normal? || !t.inNegation || EverywhereInList(NotScope, list)),
         (r: RelativeSelector, p: bool) => mode.Normal? || !p || Everywhere(NotScope, r.selector.comps))
  }

  lemma BlindUsesAreCoherent(base: Ctx)
    requires !base.mode.IsForInvalidation()
    ensures Coherent(base, BlindUses(base.mode))
  {
    var uses := BlindUses(base.mode);
    forall list, t, u | uses.nth(list, t) && uses.nth(list, u)
      ensures SameIndices(base, list, t, u)
    {
      forall fromEnd, e | 0 <= e < |base.doc.nodes|
        ensures Index(In(base, t), list, fromEnd, e) == Index(In(base, u), list, fromEnd, e)
      {
        IndexIndependent(In(base, t), In(base, u), Counting(list), false, fromEnd, e, e,
                         t.anchor != u.anchor, t.inNegation != u.inNegation && !base.mode.Normal?);
      }
    }
    forall r, p, q | uses.has(r, p) && uses.has(r, q)
      ensures SameSearches(base, r, p, q)
    {
      forall e | 0 <= e < |base.doc.nodes|
        ensures Relative(In(base, Setting(Some(e), p)), r, e) == Relative(In(base, Setting(Some(e), q)), r, e)
      {
        RelativeIndependent(In(base, Setting(Some(e), p)), In(base, Setting(Some(e), q)), r, e,
                            false, p != q && !base.mode.Normal?);
      }
    }
  }

  /** Counting inside of a `:has()` does not involve another `:has()`. */
  ghost predicate CountsBlindly(c: Component) {
    c.NthOf? ==> EverywhereInList(AnchorBlind, c.of)
  }

  ghost predicate HasCountsBlindly(c: Component) {
    c.Has? ==> forall i :: 0 <= i < |c.relatives| ==> Everywhere(CountsBlindly, c.relatives[i].selector.comps)
  }

  ghost predicate SearchesWithoutScope(c: Component) {
    c.Has? ==> forall i :: 0 <= i < |c.relatives| ==> Everywhere(NotScope, c.relatives[i].selector.comps)
  }

  /** What a selector must not do, to be sure that its uses agree with those of every other such selector. */
  ghost predicate Blind(mode: Mode, t: Setting, s: seq<Component>) {
    && Everywhere(HasCountsBlindly, s)
    && (t.anchor.Some? ==> Everywhere(CountsBlindly, s))
    && (mode.Revalidation? ==> Everywhere(CountsWithoutScope, s) && Everywhere(SearchesWithoutScope, s))
  }

  ghost predicate BlindIn(mode: Mode, t: Setting, c: Component) {
    && EverywhereIn(HasCountsBlindly, c)
    && (t.anchor.Some? ==> EverywhereIn(CountsBlindly, c))
    && (mode.Revalidation? ==> EverywhereIn(CountsWithoutScope, c) && EverywhereIn(SearchesWithoutScope, c))
  }

  lemma {:induction false} BlindFollows(mode: Mode, t: Setting, s: seq<Component>)
    requires !mode.IsForInvalidation() && Blind(mode, t, s)
    ensures Follows(BlindUses(mode), t, s)
    decreases s, 0
  {
    forall i | 0 <= i < |s|
      ensures FollowsIn(BlindUses(mode), t, s[i])
    {
      BlindFollowsIn(mode, t, s[i]);
    }
  }

  lemma {:induction false} BlindFollowsIn(mode: Mode, t: Setting, c: Component)
    requires !mode.IsForInvalidation() && BlindIn(mode, t, c)
    ensures FollowsIn(BlindUses(mode), t, c)
    decreases c, 0
  {
    match c {
      case NthOf(_, of) => BlindFollowsList(mode, t, of);
      case Is(list) => BlindFollowsList(mode, t, list);
      case Where(list) => BlindFollowsList(mode, t, list);
      case Negation(list) => BlindFollowsList(mode, t.(inNegation := !t.inNegation), list);
      case Has(relatives) =>
        if t.anchor.None? {
          forall i | 0 <= i < |relatives|
            ensures FollowsRelative(BlindUses(mode), t, relatives[i])
          {
            BlindFollowsRelative(mode, t, c, i);
          }
        }
      case _ =>
    }
  }

  lemma {:induction false} BlindFollowsRelative(mode: Mode, t: Setting, c: Component, i: nat)
    requires !mode.IsForInvalidation() && c.Has? && i < |c.relatives| && BlindIn(mode, t, c)
    ensures FollowsRelative(BlindUses(mode), t, c.relatives[i])
    decreases c.relatives[i], 0
  {
    var r := c.relatives[i];
    assert HasCountsBlindly(c) && EverywhereInRelative(HasCountsBlindly, r);
    if mode.Revalidation? {
      assert SearchesWithoutScope(c);
      assert EverywhereInRelative(CountsWithoutScope, r) && EverywhereInRelative(SearchesWithoutScope, r);
    }
    forall e: nat
      ensures Follows(BlindUses(mode), t.(anchor := Some(e)), r.selector.comps)
    {
      BlindFollows(mode, t.(anchor := Some(e)), r.selector.comps);
    }
  }

  lemma {:induction false} BlindFollowsList(mode: Mode, t: Setting, list: seq<Selector>)
    requires !mode.IsForInvalidation() && EverywhereInList(HasCountsBlindly, list)
    requires t.anchor.Some? ==> EverywhereInList(CountsBlindly, list)
    requires mode.Revalidation? ==>
               EverywhereInList(CountsWithoutScope, list) && EverywhereInList(SearchesWithoutScope, list)
    ensures FollowsList(BlindUses(mode), t, list)
    decreases list, 0
  {
    forall i | 0 <= i < |list|
      ensures Follows(BlindUses(mode), t, list[i].comps)
    {
      BlindFollows(mode, t, list[i].comps);
    }
  }
}
