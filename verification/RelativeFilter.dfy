/**
 Fast rejection inside of a `:has()`: per element and traversal, a Bloom filter
 of everything that a search can try, filled the second time it is asked for.
 */
module RelativeFilter {
  import opened Wrappers
  import opened Dom
  import opened Syntax
  import opened Kleene
  import opened Semantics
  import opened Matching
  import opened RelativeHint
  import opened HasSearch
  import opened SelectorIter
  import opened Bloom
  import opened AncestorHashes

  datatype TraversalKind = Children | Descendants

  /** A filter is not changed any more once it is filled. */
  datatype Entry = Lookup | HasFilter(counters: seq<U8>)

  /** The hashes that an element adds to a filter, or None if it cannot be filtered by. */
  type UniqueHashes = nat -> Option<seq<bv32>>

  ghost predicate AreComplete(hasher: Hasher, d: Doc, unique: UniqueHashes) {
    forall f, h | 0 <= f < |d.nodes| && unique(f).Some? && ElementHash(hasher, d, f, h) :: h in unique(f).value
  }

  ghost predicate Traversed(d: Doc, e: nat, kind: TraversalKind, f: nat)
    requires InDoc(d, f)
  {
    match kind
    case Children => Parent(d, f) == Some(e)
    case Descendants => Ancestor(d, e, f)
  }

  /** The filter has the hashes of all elements from `cur` on and, among descendants, below them. */
  ghost predicate HasOnwards(hasher: Hasher, d: Doc, present: seq<bv32>, cur: Option<nat>, kind: TraversalKind)
    requires cur.Some? ==> InDoc(d, cur.value)
  {
    forall f, h | 0 <= f < |d.nodes| && Onwards(d, cur, kind.Descendants?, f) && ElementHash(hasher, d, f, h) ::
      h in present
  }

  ghost predicate Holds(hasher: Hasher, d: Doc, present: seq<bv32>, e: nat, kind: TraversalKind) {
    forall f, h | 0 <= f < |d.nodes| && Traversed(d, e, kind, f) && ElementHash(hasher, d, f, h) :: h in present
  }

  /** All elements from `cur` on, with those below them, have hashes to offer. */
  ghost predicate OfferOnwards(d: Doc, unique: UniqueHashes, cur: Option<nat>, kind: TraversalKind)
    requires cur.Some? ==> InDoc(d, cur.value)
  {
    forall f | 0 <= f < |d.nodes| && Onwards(d, cur, kind.Descendants?, f) :: unique(f).Some?
  }

  ghost predicate AllOffer(d: Doc, unique: UniqueHashes, e: nat, kind: TraversalKind) {
    forall f | 0 <= f < |d.nodes| && Traversed(d, e, kind, f) :: unique(f).Some?
  }

  /** `h` is one of the hashes that a traversed element adds. */
  ghost predicate Offered(d: Doc, unique: UniqueHashes, e: nat, kind: TraversalKind, h: bv32) {
    exists f :: 0 <= f < |d.nodes| && Traversed(d, e, kind, f) && unique(f).Some? && h in unique(f).value
  }

  /** Whatever has been added to `before` is offered. */
  ghost predicate AddsOffered(d: Doc, unique: UniqueHashes, e: nat, kind: TraversalKind, before: seq<bv32>,
                              after: seq<bv32>) {
    forall h | h in after && h !in before :: Offered(d, unique, e, kind, h)
  }

  lemma TraversedFromFirstChild(d: Doc, e: nat, kind: TraversalKind)
    requires InDoc(d, e)
    ensures forall f | 0 <= f < |d.nodes| :: Onwards(d, FirstChild(d, e), kind.Descendants?, f) <==>
              Traversed(d, e, kind, f)
  {
    forall f | 0 <= f < |d.nodes|
      ensures Onwards(d, FirstChild(d, e), kind.Descendants?, f) <==> Traversed(d, e, kind, f)
    {
      SubtreeFromFirstChild(d, e, f);
      ChildFromFirst(d, e, f);
    }
  }

  /** The traversal starts at the first child. */
  lemma FromFirstChild(hasher: Hasher, d: Doc, unique: UniqueHashes, present: seq<bv32>, e: nat, kind: TraversalKind)
    requires InDoc(d, e)
    ensures HasOnwards(hasher, d, present, FirstChild(d, e), kind) <==> Holds(hasher, d, present, e, kind)
    ensures OfferOnwards(d, unique, FirstChild(d, e), kind) <==> AllOffer(d, unique, e, kind)
  {
    TraversedFromFirstChild(d, e, kind);
  }

  /** Each element offers its hashes, then those below it, then the siblings that follow. */
  lemma OfferStep(d: Doc, unique: UniqueHashes, el: nat, kind: TraversalKind)
    requires InDoc(d, el)
    ensures OfferOnwards(d, unique, Some(el), kind) <==>
            && unique(el).Some?
            && (kind.Descendants? ==> AllOffer(d, unique, el, kind))
            && OfferOnwards(d, unique, Next(d, el), kind)
  {
    forall f | 0 <= f < |d.nodes|
      ensures Onwards(d, Some(el), kind.Descendants?, f) <==>
              f == el || (kind.Descendants? && Ancestor(d, el, f)) || Onwards(d, Next(d, el), kind.Descendants?, f)
    {
      OnwardsStep(d, el, kind.Descendants?, f);
    }
    assert Onwards(d, Some(el), kind.Descendants?, el);
  }

  /** Whatever has been added to `before` is offered by `el` or, among descendants, below it. */
  ghost predicate AddsOfElement(d: Doc, unique: UniqueHashes, el: nat, kind: TraversalKind, before: seq<bv32>,
                                after: seq<bv32>) {
    forall h | h in after && h !in before ::
      (unique(el).Some? && h in unique(el).value) || (kind.Descendants? && Offered(d, unique, el, kind, h))
  }

  /** What a child adds, with what is added below it, is offered. */
  lemma ChildAdds(d: Doc, unique: UniqueHashes, e: nat, el: nat, kind: TraversalKind, before: seq<bv32>,
                  between: seq<bv32>, after: seq<bv32>)
    requires InDoc(d, e) && InDoc(d, el) && Parent(d, el) == Some(e)
    requires AddsOffered(d, unique, e, kind, before, between) && AddsOfElement(d, unique, el, kind, between, after)
    ensures AddsOffered(d, unique, e, kind, before, after)
  {
    assert Traversed(d, e, kind, el);
    forall h | h in after && h !in before ensures Offered(d, unique, e, kind, h) {
      if h !in between && !(unique(el).Some? && h in unique(el).value) {
        var f :| 0 <= f < |d.nodes| && Traversed(d, el, kind, f) && unique(f).Some? && h in unique(f).value;
        AncestorTransitive(d, e, el, f);
      }
    }
  }

  method InsertAll(filter: CountingBloomFilter, hashes: seq<bv32>)
    requires filter.Valid()
    modifies filter, filter.counters
    ensures filter.Valid() && filter.present == old(filter.present) + hashes
    ensures old(filter.Tight()) ==> filter.Tight()
  {
    for i := 0 to |hashes|
      invariant old(filter.Tight()) ==> filter.Tight()
      invariant filter.Valid() && filter.present == old(filter.present) + hashes[..i]
    {
      filter.InsertHash(hashes[i]);
    }
  }

  /** Adds the hashes of all children, or of all descendants; gives up at an element that has none to offer. */
  method AddToFilter(hasher: Hasher, d: Doc, unique: UniqueHashes, e: nat, filter: CountingBloomFilter,
                     kind: TraversalKind) returns (ok: bool)
    requires InDoc(d, e) && AreComplete(hasher, d, unique) && filter.Valid()
    modifies filter, filter.counters
    ensures filter.Valid() && old(filter.present) <= filter.present
    ensures ok <==> AllOffer(d, unique, e, kind)
    ensures ok ==> Holds(hasher, d, filter.present, e, kind)
    ensures AddsOffered(d, unique, e, kind, old(filter.present), filter.present)
    ensures old(filter.Tight()) ==> filter.Tight()
    decreases |d.nodes| - e, 0
  {
    var child: Option<nat> := FirstChild(d, e);
    ghost var goal := FirstChild(d, e);
    FromFirstChild(hasher, d, unique, filter.present, e, kind);
    while child.Some?
      invariant child.Some? ==> InDoc(d, child.value) && child.value > e && Parent(d, child.value) == Some(e)
      invariant filter.Valid() && old(filter.present) <= filter.present
      invariant forall present :: filter.present <= present && HasOnwards(hasher, d, present, child, kind) ==>
                  HasOnwards(hasher, d, present, goal, kind)
      invariant OfferOnwards(d, unique, child, kind) <==> AllOffer(d, unique, e, kind)
      invariant AddsOffered(d, unique, e, kind, old(filter.present), filter.present)
      invariant old(filter.Tight()) ==> filter.Tight()
      decreases |d.nodes| - child.GetOr(|d.nodes|)
    {
      var el := child.value;
      OfferStep(d, unique, el, kind);
      ghost var between := filter.present;
      var added := AddElement(hasher, d, unique, el, filter, kind);
      ChildAdds(d, unique, e, el, kind, old(filter.present), between, filter.present);
      if !added {
        return false;
      }
      child := Next(d, el);
      OnwardsFrom(hasher, d, unique, filter.present, el, kind);
    }
    FromFirstChild(hasher, d, unique, filter.present, e, kind);
    ok := true;
  }

  /** Adds the hashes of one element and, among descendants, of those below it. */
  method AddElement(hasher: Hasher, d: Doc, unique: UniqueHashes, el: nat, filter: CountingBloomFilter,
                    kind: TraversalKind) returns (ok: bool)
    requires InDoc(d, el) && AreComplete(hasher, d, unique) && filter.Valid()
    modifies filter, filter.counters
    ensures filter.Valid() && old(filter.present) <= filter.present
    ensures ok <==> unique(el).Some? && (kind.Descendants? ==> AllOffer(d, unique, el, kind))
    ensures ok ==> forall h :: h in unique(el).value ==> h in filter.present
    ensures ok && kind.Descendants? ==> Holds(hasher, d, filter.present, el, kind)
    ensures AddsOfElement(d, unique, el, kind, old(filter.present), filter.present)
    ensures old(filter.Tight()) ==> filter.Tight()
    decreases |d.nodes| - el, 1
  {
    var hashes := unique(el);
    if hashes == None {
      return false;
    }
    InsertAll(filter, hashes.value);
    ghost var added := filter.present;
    assert forall h :: h in hashes.value ==> h in added;
    ok := true;
    if kind.Descendants? {
      ok := AddToFilter(hasher, d, unique, el, filter, kind);
      assert forall h :: h in added ==> h in filter.present;
    }
  }

  /** One element further, with what has been added for this one. */
  lemma OnwardsFrom(hasher: Hasher, d: Doc, unique: UniqueHashes, added: seq<bv32>, el: nat, kind: TraversalKind)
    requires InDoc(d, el) && AreComplete(hasher, d, unique) && unique(el).Some?
    requires forall h :: h in unique(el).value ==> h in added
    requires kind.Descendants? ==> Holds(hasher, d, added, el, kind)
    ensures forall present :: added <= present && HasOnwards(hasher, d, present, Next(d, el), kind) ==>
              HasOnwards(hasher, d, present, Some(el), kind)
  {
    forall present | added <= present && HasOnwards(hasher, d, present, Next(d, el), kind)
      ensures HasOnwards(hasher, d, present, Some(el), kind)
    {
      forall f, h | 0 <= f < |d.nodes| && Onwards(d, Some(el), kind.Descendants?, f) && ElementHash(hasher, d, f, h)
        ensures h in present
      {
        OnwardsStep(d, el, kind.Descendants?, f);
        if f == el || (kind.Descendants? && Ancestor(d, el, f)) {
          assert h in added;
        }
      }
    }
  }

  function Contains(counters: seq<U8>, hash: bv32): bool
    requires |counters| == ARRAY_SIZE
  {
    counters[Hash1(hash)] != 0 && counters[Hash2(hash)] != 0
  }

  /** The counters let through, by its low 24 bits, every hash of what is traversed. */
  ghost predicate LetsThrough(hasher: Hasher, d: Doc, counters: seq<U8>, e: nat, kind: TraversalKind) {
    && |counters| == ARRAY_SIZE
    && forall f, h | 0 <= f < |d.nodes| && Traversed(d, e, kind, f) && ElementHash(hasher, d, f, h) ::
         Contains(counters, h & BLOOM_HASH_MASK)
  }

  /** A counter is set only for the hashes of what is traversed. */
  ghost predicate HoldsOnlyOffered(d: Doc, unique: UniqueHashes, counters: seq<U8>, e: nat, kind: TraversalKind)
    requires |counters| == ARRAY_SIZE
  {
    forall i | 0 <= i < ARRAY_SIZE && counters[i] != 0 ::
      exists h :: Offered(d, unique, e, kind, h) && (Hash1(h) == i || Hash2(h) == i)
  }

  /** Some hash that the subject compound asks for is not in the filter. */
  predicate SomeAbsent(hasher: Hasher, s: seq<Component>, counters: seq<U8>)
    requires |counters| == ARRAY_SIZE
  {
    var hashes := Collect(hasher, Subject, s, []).0;
    exists i :: 0 <= i < |hashes| && !Contains(counters, hashes[i])
  }

  /** Rejects in just that case. */
  method FilterRejects(hasher: Hasher, s: seq<Component>, counters: seq<U8>) returns (b: bool)
    requires |counters| == ARRAY_SIZE
    ensures b <==> SomeAbsent(hasher, s, counters)
  {
    var hashes := new bv32[4](_ => 0);
    var iter := new ComponentIter(Subject, s);
    assert hashes[..0] == [];
    var len, more := CollectSelectorHashes(hasher, iter, s, hashes, 0);
    for i := 0 to len
      invariant forall j :: 0 <= j < i ==> Contains(counters, hashes[..len][j])
    {
      if !Contains(counters, hashes[i]) {
        assert hashes[..len][i] == hashes[i];
        return true;
      }
    }
    b := false;
  }

  // ---------- What the matcher asks of the subject ----------

  lemma {:induction false} CompoundCollected(hasher: Hasher, ctx: Ctx, s: seq<Component>, acc: seq<bv32>, f: nat)
    requires |acc| < 4 && InDoc(ctx.doc, f) && !Compound(ctx, s, f).False?
    requires AllMaskedIn(hasher, ctx.doc, {f}, acc)
    ensures AllMaskedIn(hasher, ctx.doc, {f}, Collect(hasher, Subject, s, acc).0)
    decreases s, 0
  {
    if s != [] && !s[0].Combinator? {
      OneCollected(hasher, ctx, s[0], acc, f);
      var (acc', more) := CollectOne(hasher, Subject, s[0], acc);
      if more {
        CompoundCollected(hasher, ctx, s[1..], acc', f);
      }
    }
  }

  lemma {:induction false} OneCollected(hasher: Hasher, ctx: Ctx, c: Component, acc: seq<bv32>, f: nat)
    requires |acc| < 4 && InDoc(ctx.doc, f) && !Simple(ctx, c, f).False?
    requires AllMaskedIn(hasher, ctx.doc, {f}, acc)
    ensures AllMaskedIn(hasher, ctx.doc, {f}, CollectOne(hasher, Subject, c, acc).0)
    decreases c, 0
  {
    var h := ComponentHash(hasher, c);
    if h.Some? {
      PlainCollected(hasher, ctx, c, f);
    } else if HasSingle(c) {
      SingleIsTried(ctx, c, f);
      CompoundCollected(hasher, ctx, c.list[0].comps, acc, f);
    }
  }

  lemma PlainCollected(hasher: Hasher, ctx: Ctx, c: Component, f: nat)
    requires InDoc(ctx.doc, f) && !Simple(ctx, c, f).False? && ComponentHash(hasher, c).Some?
    ensures MaskedIn(hasher, ctx.doc, {f}, ComponentHash(hasher, c).value & BLOOM_HASH_MASK)
  {
    assert IsPlain(c) && PlainHolds(ctx.doc, c, f);
    assert ElementHash(hasher, ctx.doc, f, ComponentHash(hasher, c).value);
  }

  lemma SingleIsTried(ctx: Ctx, c: Component, f: nat)
    requires InDoc(ctx.doc, f) && HasSingle(c) && !Simple(ctx, c, f).False?
    ensures !Compound(ctx, c.list[0].comps, f).False?
  {
    assert c.list[1..] == [] && SelectorList(ctx, c.list[1..], f) == False;
    assert !Complex(ctx, c.list[0].comps, f).ToKleene().False?;
  }

  /** Every element of the search region lacks something that the subject compound asks for. */
  ghost predicate NothingThere(hasher: Hasher, d: Doc, relative: RelativeSelector, e: nat)
    requires InDoc(d, e)
  {
    forall f | 0 <= f < |d.nodes| && InRegion(d, relative.hint, e, f) ::
      !AllMaskedIn(hasher, d, {f}, Collect(hasher, Subject, relative.selector.comps, []).0)
  }

  /** So the search would not find anything, in whatever mode. */
  lemma RejectionIsRight(hasher: Hasher, ctx: Ctx, relative: RelativeSelector, e: nat)
    requires InDoc(ctx.doc, e) && NothingThere(hasher, ctx.doc, relative, e)
    ensures !Relative(ctx, relative, e)
  {
    var s := relative.selector.comps;
    SearchIsExact(ctx, relative, e);
    forall f | 0 <= f < |ctx.doc.nodes| && Hit(ctx, s, f)
      ensures AllMaskedIn(hasher, ctx.doc, {f}, Collect(hasher, Subject, s, []).0)
    {
      CompoundCollected(hasher, ctx, s, [], f);
    }
  }

  /** A rejecting filter, filled for the search region or more, has nothing for the subject there. */
  lemma RejectedRegion(hasher: Hasher, d: Doc, relative: RelativeSelector, e: nat, counters: seq<U8>, root: nat,
                       kind: TraversalKind)
    requires InDoc(d, e) && LetsThrough(hasher, d, counters, root, kind)
    requires forall f | 0 <= f < |d.nodes| && InRegion(d, relative.hint, e, f) :: Traversed(d, root, kind, f)
    requires SomeAbsent(hasher, relative.selector.comps, counters)
    ensures NothingThere(hasher, d, relative, e)
  {
    var r := Collect(hasher, Subject, relative.selector.comps, []).0;
    var i :| 0 <= i < |r| && !Contains(counters, r[i]);
    forall f | 0 <= f < |d.nodes| && InRegion(d, relative.hint, e, f)
      ensures !MaskedIn(hasher, d, {f}, r[i])
    {
    }
  }

  /** The regions that start at a sibling lie below the parent. */
  lemma SiblingRegionBelowParent(d: Doc, h: MatchHint, e: nat, f: nat)
    requires InDoc(d, e) && InDoc(d, f) && Parent(d, e).Some? && InRegion(d, h, e, f)
    requires h.InSibling? || h.InNextSiblingSubtree? || h.InSiblingSubtree?
    ensures Traversed(d, Parent(d, e).value, if h.IsSubtree() then Descendants else Children, f)
  {
    var p := Parent(d, e).value;
    if h.InSibling? {
      EarlierSiblingInDoc(d, e, f);
    } else {
      var g :| 0 <= g < |d.nodes| && Ancestor(d, g, f) &&
        if h.InNextSiblingSubtree? then Prev(d, g) == Some(e) else EarlierSibling(d, e, g);
      assert EarlierSibling(d, e, g);
      EarlierSiblingInDoc(d, e, g);
      assert Ancestor(d, p, g);
      AncestorTransitive(d, p, g, f);
    }
  }

  /** The element and the traversal whose filter covers the search region; none where filtering would not pay. */
  function FilterKey(d: Doc, h: MatchHint, e: nat): (r: Option<(nat, TraversalKind)>)
    requires InDoc(d, e)
  {
    match h
    case InChild => Some((e, Children))
    case InSubtree => Some((e, Descendants))
    case InSibling => if Parent(d, e).None? then None else Some((Parent(d, e).value, Children))
    case InNextSibling => None
    case InNextSiblingSubtree => if Parent(d, e).None? then None else Some((Parent(d, e).value, Descendants))
    case InSiblingSubtree => if Parent(d, e).None? then None else Some((Parent(d, e).value, Descendants))
  }

  class RelativeSelectorFilterMap {
    const doc: Doc
    const hasher: Hasher
    const unique: UniqueHashes
    var entries: map<(nat, TraversalKind), Entry>

    constructor (doc: Doc, hasher: Hasher, unique: UniqueHashes)
      requires AreComplete(hasher, doc, unique)
      ensures Valid() && this.doc == doc && this.hasher == hasher && entries == map[]
    {
      this.doc, this.hasher, this.unique := doc, hasher, unique;
      entries := map[];
    }

    /** Every filter that is kept lets through whatever can be found, and has nothing else. */
    ghost predicate Valid()
      reads this
    {
      && AreComplete(hasher, doc, unique)
      && forall k | k in entries && entries[k].HasFilter? ::
           && InDoc(doc, k.0)
           && LetsThrough(hasher, doc, entries[k].counters, k.0, k.1)
           && HoldsOnlyOffered(doc, unique, entries[k].counters, k.0, k.1)
    }

    /** Notes the first request, and fills a filter at the second one. */
    method GetFilter(e: nat, kind: TraversalKind) returns (r: Option<seq<U8>>)
      requires Valid() && InDoc(doc, e)
      modifies this
      ensures Valid()
      ensures r.Some? ==> LetsThrough(hasher, doc, r.value, e, kind)
      ensures r.Some? <==> (e, kind) in old(entries) &&
                           (old(entries)[(e, kind)].HasFilter? || AllOffer(doc, unique, e, kind))
      ensures (e, kind) in entries && forall k :: k in entries && k !in old(entries) ==> k == (e, kind)
      ensures entries[(e, kind)] == if r.Some? then HasFilter(r.value) else Lookup
      ensures forall k :: k in old(entries) && (k != (e, kind) || old(entries)[k].HasFilter?) ==>
                k in entries && entries[k] == old(entries)[k]
    {
      var key := (e, kind);
      if key !in entries {
        entries := entries[key := Lookup];
        return None;
      }
      if entries[key].Lookup? {
        var filter := new CountingBloomFilter();
        var ok := AddToFilter(hasher, doc, unique, e, filter, kind);
        if !ok {
          return None;
        }
        FilledLetsThrough(hasher, doc, filter, e, kind);
        FilledHoldsOnlyOffered(doc, unique, filter, e, kind);
        entries := entries[key := HasFilter(filter.counters[..])];
      }
      r := Some(entries[key].counters);
    }

    /** There is a filter for `k`, and it has not all that the subject compound asks for. */
    ghost predicate RejectedAt(k: (nat, TraversalKind), relative: RelativeSelector)
      requires Valid()
      reads this
    {
      && k in entries && entries[k].HasFilter?
      && SomeAbsent(hasher, relative.selector.comps, entries[k].counters)
    }

    /** Whether the search for a relative selector can be left out. */
    method FastReject(e: nat, relative: RelativeSelector) returns (b: bool)
      requires Valid() && InDoc(doc, e)
      modifies this
      ensures Valid()
      ensures b ==> NothingThere(hasher, doc, relative, e)
      ensures b <==> && FilterKey(doc, relative.hint, e).Some?
                     && FilterKey(doc, relative.hint, e).value in old(entries)
                     && RejectedAt(FilterKey(doc, relative.hint, e).value, relative)
    {
      var hint := relative.hint;
      if hint.InNextSibling? {
        return false;
      }
      var isSibling := hint.InSibling? || hint.InNextSiblingSubtree? || hint.InSiblingSubtree?;
      var kind := if hint.IsSubtree() then Descendants else Children;
      var root: nat := e;
      if isSibling {
        var parent := Parent(doc, e);
        if parent == None {
          return false;
        }
        root := parent.value;
      }
      var filter := GetFilter(root, kind);
      if filter == None {
        return false;
      }
      b := FilterRejects(hasher, relative.selector.comps, filter.value);
      if b {
        forall f | 0 <= f < |doc.nodes| && InRegion(doc, hint, e, f)
          ensures Traversed(doc, root, kind, f)
        {
          if isSibling {
            SiblingRegionBelowParent(doc, hint, e, f);
          }
        }
        RejectedRegion(hasher, doc, relative, e, filter.value, root, kind);
      }
    }
  }

  lemma FilledLetsThrough(hasher: Hasher, d: Doc, filter: CountingBloomFilter, e: nat, kind: TraversalKind)
    requires filter.Valid() && Holds(hasher, d, filter.present, e, kind)
    ensures LetsThrough(hasher, d, filter.counters[..], e, kind)
  {
    forall f, h | 0 <= f < |d.nodes| && Traversed(d, e, kind, f) && ElementHash(hasher, d, f, h)
      ensures Contains(filter.counters[..], h & BLOOM_HASH_MASK)
    {
      filter.NoFalseNegative(h);
      KeptInSnapshot(filter, h & BLOOM_HASH_MASK);
    }
  }

  lemma KeptInSnapshot(filter: CountingBloomFilter, hash: bv32)
    requires filter.counters.Length == ARRAY_SIZE
    ensures Contains(filter.counters[..], hash) <==> filter.MightContain(hash)
  {
  }

  lemma FilledHoldsOnlyOffered(d: Doc, unique: UniqueHashes, filter: CountingBloomFilter, e: nat, kind: TraversalKind)
    requires filter.Valid() && filter.Tight() && AddsOffered(d, unique, e, kind, [], filter.present)
    ensures HoldsOnlyOffered(d, unique, filter.counters[..], e, kind)
  {
    var counters := filter.counters[..];
    forall i | 0 <= i < ARRAY_SIZE && counters[i] != 0
      ensures exists h :: Offered(d, unique, e, kind, h) && (Hash1(h) == i || Hash2(h) == i)
    {
      assert filter.counters[i] != 0;
      HitsTell(filter.present, i);
      var k :| 0 <= k < |filter.present| && (Hash1(filter.present[k]) == i || Hash2(filter.present[k]) == i);
      assert Offered(d, unique, e, kind, filter.present[k]);
    }
  }
}
