/**
 The hashes a selector asks of the ancestors of its subject, and why rejecting
 by them never loses a match.
 */
module AncestorHashes {
  import opened Wrappers
  import opened Dom
  import opened Syntax
  import opened Semantics
  import opened SelectorIter
  import opened Bloom

  /** The hash of every interned string, and which attribute names are worth hashing. */
  datatype Hasher = Hasher(hash: Atom -> bv32, collectsAttribute: Atom -> bool)

  /** The hashes that stand for element `x` in a filter. */
  ghost predicate ElementHash(hasher: Hasher, d: Doc, x: nat, h: bv32)
    requires InDoc(d, x)
  {
    var n := d.nodes[x];
    || h == hasher.hash(n.localName)
    || h == hasher.hash(n.namespace)
    || (n.id.Some? && h == hasher.hash(n.id.value))
    || (exists c :: c in n.classes && h == hasher.hash(c))
    || (exists a :: a in n.attributes && hasher.collectsAttribute(a) && h == hasher.hash(a))
  }

  /** The hash that a component asks for. */
  function ComponentHash(hasher: Hasher, c: Component): Option<bv32> {
    match c
    case LocalName(name, lowerName) => if name == lowerName then Some(hasher.hash(name)) else None
    case DefaultNamespace(url) => Some(hasher.hash(url))
    case Namespace(_, url) => Some(hasher.hash(url))
    case ID(id) => Some(hasher.hash(id))
    case Class(class_) => Some(hasher.hash(class_))
    case AttributeInNoNamespace(a, _) => if hasher.collectsAttribute(a) then Some(hasher.hash(a)) else None
    case AttributeInNoNamespaceExists(a, lower) =>
      if a == lower && hasher.collectsAttribute(a) then Some(hasher.hash(a)) else None
    case _ => None
  }

  /** `:is()` and `:where()` are looked into if they have a single selector. */
  predicate HasSingle(c: Component) {
    (c.Is? || c.Where?) && |c.list| == 1
  }

  /** The hashes collected from the components yielded from `s` on, and whether there is room for more. */
  function Collect(hasher: Hasher, kind: IterKind, s: seq<Component>, acc: seq<bv32>): (r: (seq<bv32>, bool))
    requires |acc| < 4
    ensures acc <= r.0 && if r.1 then |r.0| < 4 else |r.0| == 4
    decreases s, 0
  {
    var n := Passed(kind, s);
    if n == |s| || s[n].Combinator? then (acc, true)
    else
      var (acc', more) := CollectOne(hasher, kind, s[n], acc);
      if !more then (acc', false) else Collect(hasher, kind, s[n + 1..], acc')
  }

  function CollectOne(hasher: Hasher, kind: IterKind, c: Component, acc: seq<bv32>): (r: (seq<bv32>, bool))
    requires |acc| < 4
    ensures acc <= r.0 && if r.1 then |r.0| < 4 else |r.0| == 4
    decreases c, 0
  {
    var h := ComponentHash(hasher, c);
    if h.Some? then
      var acc' := acc + [h.value & BLOOM_HASH_MASK];
      (acc', |acc'| != 4)
    else if HasSingle(c) then Collect(hasher, kind, c.list[0].comps, acc)
    else (acc, true)
  }

  /** Fills the array of hashes from an iterator. */
  method CollectSelectorHashes(hasher: Hasher, iter: ComponentIter, ghost s: seq<Component>, hashes: array<bv32>,
                               start: nat)
    returns (len: nat, more: bool)
    requires iter.inner.rest == s && iter.inner.nextCombinator == None
    requires hashes.Length == 4 && start < 4
    modifies iter.inner, hashes
    ensures len <= 4 && (hashes[..len], more) == Collect(hasher, iter.kind, s, old(hashes[..start]))
    ensures forall i :: len <= i < 4 ==> hashes[i] == old(hashes[i])
    decreases s, 1
  {
    len := start;
    ghost var rest := s;
    ghost var pos: nat := 0;
    while true
      invariant iter.inner.rest == rest && iter.inner.nextCombinator == None
      invariant pos <= |s| && rest == s[pos..]
      invariant len < 4
      invariant Collect(hasher, iter.kind, s, old(hashes[..start])) == Collect(hasher, iter.kind, rest, hashes[..len])
      invariant forall i :: len <= i < 4 ==> hashes[i] == old(hashes[i])
      decreases |rest|
    {
      ghost var n := Passed(iter.kind, rest);
      ghost var acc := hashes[..len];
      var c := iter.Next();
      if c.None? {
        return len, true;
      }
      assert c.value == s[pos + n] && rest[n..][1..] == rest[n + 1..] == s[pos + n + 1..];
      len, more := CollectComponentHash(hasher, iter.kind, c.value, s, hashes, len);
      if !more {
        return len, false;
      }
      rest := rest[n + 1..];
      pos := pos + n + 1;
    }
  }

  /** One component: its own hash, or those of its single argument. */
  method CollectComponentHash(hasher: Hasher, kind: IterKind, c: Component, ghost s: seq<Component>,
                              hashes: array<bv32>, start: nat)
    returns (len: nat, more: bool)
    requires c in s && hashes.Length == 4 && start < 4
    modifies hashes
    ensures len <= 4 && (hashes[..len], more) == CollectOne(hasher, kind, c, old(hashes[..start]))
    ensures forall i :: len <= i < 4 ==> hashes[i] == old(hashes[i])
    decreases s, 0
  {
    len, more := start, true;
    var h := ComponentHash(hasher, c);
    if h.Some? {
      hashes[len] := h.value & BLOOM_HASH_MASK;
      len := len + 1;
      assert hashes[..len] == old(hashes[..start]) + [h.value & BLOOM_HASH_MASK];
      more := len != hashes.Length;
    } else if HasSingle(c) {
      var inner := new ComponentIter(kind, c.list[0].comps);
      len, more := CollectSelectorHashes(hasher, inner, c.list[0].comps, hashes, len);
    }
  }

  // ---------- Every collected hash belongs to a matched element ----------

  /** `h` is what the low 24 bits of a hash of a member of `group` look like. */
  ghost predicate MaskedIn(hasher: Hasher, d: Doc, group: set<nat>, h: bv32)
    requires forall x :: x in group ==> InDoc(d, x)
  {
    exists x, g :: x in group && ElementHash(hasher, d, x, g) && h == g & BLOOM_HASH_MASK
  }

  /** With an element, `group` has its ancestors. */
  ghost predicate Closed(d: Doc, group: set<nat>) {
    forall x :: x in group ==> InDoc(d, x) && forall a :: 0 <= a < |d.nodes| && Ancestor(d, a, x) ==> a in group
  }

  lemma PlainHash(hasher: Hasher, env: Env, c: Component, x: nat)
    requires InDoc(env.doc, x) && ComponentHash(hasher, c).Some? && SimpleHolds(env, c, x)
    ensures ElementHash(hasher, env.doc, x, ComponentHash(hasher, c).value)
  {
  }

  /** Some ancestor of `x` matches `t`. */
  ghost predicate AncestorMatches(env: Env, t: seq<Component>, x: nat)
    requires InDoc(env.doc, x)
  {
    exists a :: 0 <= a < |env.doc.nodes| && Ancestor(env.doc, a, x) && Matches(env, t, a)
  }

  lemma SiblingsShareAncestors(env: Env, t: seq<Component>, x: nat, f: nat)
    requires InDoc(env.doc, x) && InDoc(env.doc, f) && Parent(env.doc, f) == Parent(env.doc, x)
    requires AncestorMatches(env, t, f)
    ensures AncestorMatches(env, t, x)
  {
  }

  /** Behind a combinator the match goes on at an ancestor, at once or after skipping the siblings. */
  lemma {:induction false} SkippedMatch(env: Env, s: seq<Component>, x: nat)
    requires InDoc(env.doc, x) && Matches(env, s, x)
    ensures var t := s[SkipLength(s)..]; t == [] || AncestorMatches(env, t, x)
    decreases |s|
  {
    if NextCombinator(s).Some? {
      var c, rest := NextCombinator(s).value, AfterCombinator(s);
      var f :| 0 <= f < |env.doc.nodes| && Related(env.doc, c, x, f) && Matches(env, rest, f);
      if c.IsAncestor() {
        assert s[SkipLength(s)..] == rest;
        assert Ancestor(env.doc, f, x);
      } else {
        if c.LaterSibling? { EarlierSiblingInDoc(env.doc, f, x); }
        SkippedMatch(env, rest, f);
        var t := rest[SkipLength(rest)..];
        assert s[SkipLength(s)..] == t;
        if t != [] { SiblingsShareAncestors(env, t, x, f); }
      }
    }
  }

  /** The components that are passed over only move the match to an ancestor. */
  lemma PassedMatch(env: Env, kind: IterKind, s: seq<Component>, x: nat)
    requires InDoc(env.doc, x) && Matches(env, s, x)
    ensures var t := s[Passed(kind, s)..];
            t == [] || Matches(env, t, x) || (kind.Ancestors? && AncestorMatches(env, t, x))
  {
    if s != [] && s[0].Combinator? && kind.Ancestors? {
      var c, rest := s[0].combinator, s[1..];
      assert CompoundLength(s) == 0 && AfterCombinator(s) == rest;
      assert s[Passed(kind, s)..] == s[SkipLength(s)..];
      SkippedMatch(env, s, x);
    }
  }

  /** The rest of a matching compound matches. */
  lemma MatchTail(env: Env, s: seq<Component>, x: nat)
    requires InDoc(env.doc, x) && s != [] && !s[0].Combinator? && Matches(env, s, x)
    ensures SimpleHolds(env, s[0], x) && Matches(env, s[1..], x)
  {
  }

  ghost predicate AllMaskedIn(hasher: Hasher, d: Doc, group: set<nat>, hashes: seq<bv32>)
    requires forall x :: x in group ==> InDoc(d, x)
  {
    forall i :: 0 <= i < |hashes| ==> MaskedIn(hasher, d, group, hashes[i])
  }

  lemma {:induction false} CollectedBelongs(hasher: Hasher, env: Env, kind: IterKind, s: seq<Component>,
                                            acc: seq<bv32>, x: nat, group: set<nat>)
    requires |acc| < 4 && InDoc(env.doc, x) && Matches(env, s, x)
    requires x in group && (forall y :: y in group ==> InDoc(env.doc, y))
    requires kind.Ancestors? ==> Closed(env.doc, group)
    requires AllMaskedIn(hasher, env.doc, group, acc)
    ensures AllMaskedIn(hasher, env.doc, group, Collect(hasher, kind, s, acc).0)
    decreases s, 0
  {
    var n := Passed(kind, s);
    if n < |s| && !s[n].Combinator? {
      var t := s[n..];
      PassedMatch(env, kind, s, x);
      assert exists y :: y in group && Matches(env, t, y);
      var y :| y in group && Matches(env, t, y);
      MatchTail(env, t, y);
      assert t[1..] == s[n + 1..];
      CollectedOneBelongs(hasher, env, kind, s[n], acc, y, group);
      var (acc', more) := CollectOne(hasher, kind, s[n], acc);
      if more {
        CollectedBelongs(hasher, env, kind, s[n + 1..], acc', y, group);
      }
    }
  }

  lemma SingleHolds(env: Env, c: Component, x: nat)
    requires InDoc(env.doc, x) && HasSingle(c) && SimpleHolds(env, c, x)
    ensures Matches(env, c.list[0].comps, x)
  {
  }

  lemma {:induction false} CollectedOneBelongs(hasher: Hasher, env: Env, kind: IterKind, c: Component,
                                               acc: seq<bv32>, x: nat, group: set<nat>)
    requires |acc| < 4 && InDoc(env.doc, x) && SimpleHolds(env, c, x)
    requires x in group && (forall y :: y in group ==> InDoc(env.doc, y))
    requires kind.Ancestors? ==> Closed(env.doc, group)
    requires AllMaskedIn(hasher, env.doc, group, acc)
    ensures AllMaskedIn(hasher, env.doc, group, CollectOne(hasher, kind, c, acc).0)
    decreases c, 0
  {
    var h := ComponentHash(hasher, c);
    if h.Some? {
      PlainHash(hasher, env, c, x);
      assert MaskedIn(hasher, env.doc, group, h.value & BLOOM_HASH_MASK);
    } else if HasSingle(c) {
      SingleHolds(env, c, x);
      CollectedBelongs(hasher, env, kind, c.list[0].comps, acc, x, group);
    }
  }

  // ---------- Packing four hashes into three words ----------

  datatype AncestorHashes = AncestorHashes(h0: bv32, h1: bv32, h2: bv32)

  /** The upper bytes of the three words, put together. */
  function FourthHash(p: AncestorHashes): bv32 {
    ((p.h0 & 0xff00_0000) >> 24) | ((p.h1 & 0xff00_0000) >> 16) | ((p.h2 & 0xff00_0000) >> 8)
  }

  function Pack(h0: bv32, h1: bv32, h2: bv32, fourth: bv32): AncestorHashes {
    AncestorHashes(
      h0 | ((fourth & 0x0000_00ff) << 24),
      h1 | ((fourth & 0x0000_ff00) << 16),
      h2 | ((fourth & 0x00ff_0000) << 8))
  }

  predicate Masked(h: bv32) {
    h & BLOOM_HASH_MASK == h
  }

  /** All four hashes come back. */
  lemma PackRoundTrip(h0: bv32, h1: bv32, h2: bv32, fourth: bv32)
    requires Masked(h0) && Masked(h1) && Masked(h2) && Masked(fourth)
    ensures var p := Pack(h0, h1, h2, fourth);
            && p.h0 & BLOOM_HASH_MASK == h0
            && p.h1 & BLOOM_HASH_MASK == h1
            && p.h2 & BLOOM_HASH_MASK == h2
            && FourthHash(p) == fourth
  {
  }

  /** Without a fourth hash there is nothing in the upper bytes. */
  lemma UnpackedFourth(h0: bv32, h1: bv32, h2: bv32)
    requires Masked(h0) && Masked(h1) && Masked(h2)
    ensures FourthHash(AncestorHashes(h0, h1, h2)) == 0
  {
  }

  function HashAt(hashes: seq<bv32>, i: nat): bv32 {
    if i < |hashes| then hashes[i] else 0
  }

  function PackAll(r: seq<bv32>): AncestorHashes
    requires |r| <= 4
  {
    if |r| == 4 then Pack(r[0], r[1], r[2], r[3]) else AncestorHashes(HashAt(r, 0), HashAt(r, 1), HashAt(r, 2))
  }

  /** The hashes of a selector, packed. */
  function HashesOf(hasher: Hasher, s: seq<Component>): AncestorHashes {
    PackAll(Collect(hasher, Ancestors, s[SkipLength(s)..], []).0)
  }

  method ComputeAncestorHashes(hasher: Hasher, s: seq<Component>) returns (p: AncestorHashes)
    ensures p == HashesOf(hasher, s)
  {
    var hashes := new bv32[4](_ => 0);
    var iter := new ComponentIter(Ancestors, s);
    iter.SkipUntilAncestor();
    assert hashes[..0] == [];
    var len, more := CollectSelectorHashes(hasher, iter, s[SkipLength(s)..], hashes, 0);
    if len == 4 {
      p := Pack(hashes[0], hashes[1], hashes[2], hashes[3]);
    } else {
      p := AncestorHashes(hashes[0], hashes[1], hashes[2]);
    }
  }

  // ---------- Fast rejection ----------

  /** From word `i` on: a word without a hash ends the check. */
  function MayMatchFrom(words: seq<bv32>, fourth: bv32, filter: CountingBloomFilter, i: nat): bool
    requires i <= |words| && filter.counters.Length == ARRAY_SIZE
    reads filter, filter.counters
    decreases |words| - i
  {
    if i == |words| then fourth == 0 || filter.MightContain(fourth)
    else if words[i] == 0 then true
    else if !filter.MightContain(words[i] & BLOOM_HASH_MASK) then false
    else MayMatchFrom(words, fourth, filter, i + 1)
  }

  /** The fourth hash matters only if the filter has the other three. */
  function MayMatch(p: AncestorHashes, filter: CountingBloomFilter): bool
    requires filter.counters.Length == ARRAY_SIZE
    reads filter, filter.counters
  {
    MayMatchFrom([p.h0, p.h1, p.h2], FourthHash(p), filter, 0)
  }

  method SelectorMayMatch(p: AncestorHashes, filter: CountingBloomFilter) returns (b: bool)
    requires filter.counters.Length == ARRAY_SIZE
    ensures b == MayMatch(p, filter)
  {
    var packedHashes := [p.h0, p.h1, p.h2];
    for i := 0 to 3
      invariant MayMatch(p, filter) == MayMatchFrom(packedHashes, FourthHash(p), filter, i)
    {
      var packed := packedHashes[i];
      if packed == 0 {
        return true;
      }
      if !filter.MightContain(packed & BLOOM_HASH_MASK) {
        return false;
      }
    }
    var fourth := FourthHash(p);
    b := fourth == 0 || filter.MightContain(fourth);
  }

  /** The filter holds the hashes of all ancestors of `e`. */
  ghost predicate HoldsAncestors(hasher: Hasher, d: Doc, filter: CountingBloomFilter, e: nat)
    requires InDoc(d, e)
    reads filter, filter.counters
  {
    && filter.Valid()
    && forall a, h :: 0 <= a < |d.nodes| && Ancestor(d, a, e) && ElementHash(hasher, d, a, h) ==> h in filter.present
  }

  predicate WordPasses(word: bv32, filter: CountingBloomFilter)
    requires filter.counters.Length == ARRAY_SIZE
    reads filter, filter.counters
  {
    word == 0 || filter.MightContain(word & BLOOM_HASH_MASK)
  }

  lemma {:induction false} WordsPass(words: seq<bv32>, fourth: bv32, filter: CountingBloomFilter, i: nat)
    requires i <= |words| && filter.counters.Length == ARRAY_SIZE
    requires forall j :: i <= j < |words| ==> WordPasses(words[j], filter)
    requires fourth == 0 || filter.MightContain(fourth)
    ensures MayMatchFrom(words, fourth, filter, i)
    decreases |words| - i
  {
    if i < |words| {
      WordsPass(words, fourth, filter, i + 1);
    }
  }

  /** What the packed words hold are the hashes, padded with zeros. */
  lemma Unpacked(r: seq<bv32>)
    requires |r| <= 4 && forall i :: 0 <= i < |r| ==> Masked(r[i])
    ensures var p := PackAll(r);
            && p.h0 & BLOOM_HASH_MASK == HashAt(r, 0)
            && p.h1 & BLOOM_HASH_MASK == HashAt(r, 1)
            && p.h2 & BLOOM_HASH_MASK == HashAt(r, 2)
            && FourthHash(p) == HashAt(r, 3)
            && (|r| <= 2 ==> p.h2 == 0) && (|r| <= 1 ==> p.h1 == 0) && (|r| == 0 ==> p.h0 == 0)
  {
    ZeroIsMasked();
    if |r| == 4 {
      PackRoundTrip(r[0], r[1], r[2], r[3]);
    } else {
      UnpackedFourth(HashAt(r, 0), HashAt(r, 1), HashAt(r, 2));
    }
  }

  lemma ZeroIsMasked()
    ensures Masked(0)
  {
  }

  lemma WordOfHash(r: seq<bv32>, i: nat, word: bv32, filter: CountingBloomFilter)
    requires filter.counters.Length == ARRAY_SIZE
    requires i < |r| ==> filter.MightContain(r[i]) && word & BLOOM_HASH_MASK == r[i]
    requires i >= |r| ==> word == 0
    ensures WordPasses(word, filter)
  {
  }

  /** If every collected hash is in the filter, the packed hashes pass. */
  lemma PackedPass(r: seq<bv32>, filter: CountingBloomFilter)
    requires |r| <= 4 && filter.counters.Length == ARRAY_SIZE
    requires forall i :: 0 <= i < |r| ==> Masked(r[i]) && filter.MightContain(r[i])
    ensures MayMatch(PackAll(r), filter)
  {
    Unpacked(r);
    var p := PackAll(r);
    var words := [p.h0, p.h1, p.h2];
    WordOfHash(r, 0, words[0], filter);
    WordOfHash(r, 1, words[1], filter);
    WordOfHash(r, 2, words[2], filter);
    WordsPass(words, FourthHash(p), filter, 0);
  }

  /** A hash of an element whose hashes are in the filter is found there. */
  lemma MaskedIsFound(hasher: Hasher, d: Doc, group: set<nat>, filter: CountingBloomFilter, h: bv32)
    requires (forall x :: x in group ==> InDoc(d, x)) && filter.Valid()
    requires forall x, g :: x in group && ElementHash(hasher, d, x, g) ==> g in filter.present
    requires MaskedIn(hasher, d, group, h)
    ensures Masked(h) && filter.MightContain(h)
  {
    var x, g :| x in group && ElementHash(hasher, d, x, g) && h == g & BLOOM_HASH_MASK;
    filter.NoFalseNegative(g);
    MaskedMask(g);
  }

  lemma MaskedMask(g: bv32)
    ensures Masked(g & BLOOM_HASH_MASK)
  {
  }

  /** Fast rejection never loses a match, in whatever reading of the selector. */
  lemma FastRejectIsSound(hasher: Hasher, env: Env, s: seq<Component>, e: nat, filter: CountingBloomFilter)
    requires InDoc(env.doc, e) && HoldsAncestors(hasher, env.doc, filter, e)
    requires Matches(env, s, e)
    ensures MayMatch(HashesOf(hasher, s), filter)
  {
    var t := s[SkipLength(s)..];
    var r := Collect(hasher, Ancestors, t, []).0;
    SkippedMatch(env, s, e);
    if t != [] {
      var a :| 0 <= a < |env.doc.nodes| && Ancestor(env.doc, a, e) && Matches(env, t, a);
      var group := AncestorSet(env.doc, e);
      CollectedBelongs(hasher, env, Ancestors, t, [], a, group);
      forall i | 0 <= i < |r| ensures Masked(r[i]) && filter.MightContain(r[i]) {
        MaskedIsFound(hasher, env.doc, group, filter, r[i]);
      }
    }
    PackedPass(r, filter);
  }

  ghost function AncestorSet(d: Doc, e: nat): (group: set<nat>)
    requires InDoc(d, e)
    ensures Closed(d, group)
    ensures forall a :: a in group <==> 0 <= a < |d.nodes| && Ancestor(d, a, e)
  {
    var group := set x | 0 <= x < |d.nodes| && Ancestor(d, x, e);
    assert forall x, y :: x in group && 0 <= y < |d.nodes| && Ancestor(d, y, x) ==> y in group by {
      forall x, y | x in group && 0 <= y < |d.nodes| && Ancestor(d, y, x) ensures y in group {
        AncestorTransitive(d, y, x, e);
      }
    }
    group
  }
}
