/** When the ancestor filter does reject: which hashes a selector asks for, and that each of them is looked up. */
module FastRejection {
  import opened Wrappers
  import opened Syntax
  import opened SelectorIter
  import opened Bloom
  import opened AncestorHashes

  // ---------- The components that are asked for ----------

  /** No compound is empty, so no two combinators meet. */
  predicate HasCompounds(s: seq<Component>) {
    && (s != [] ==> !s[|s| - 1].Combinator?)
    && forall i :: 0 <= i < |s| - 1 ==> !(s[i].Combinator? && s[i + 1].Combinator?)
  }

  predicate BeginsCompound(s: seq<Component>) {
    HasCompounds(s) && (s != [] ==> !s[0].Combinator?)
  }

  /** The compounds behind a child or descendant combinator: those that ancestors of the subject must match. */
  function AncestorCompounds(s: seq<Component>): seq<Component>
    decreases |s|
  {
    if NextCombinator(s).None? then
      []
    else
      var rest := AfterCombinator(s);
      (if NextCombinator(s).value.IsAncestor() then rest[..CompoundLength(rest)] else []) + AncestorCompounds(rest)
  }

  /** What the iterator over ancestors yields from `s` on. */
  function Yielded(s: seq<Component>): seq<Component>
    decreases |s|
  {
    var n := Passed(Ancestors, s);
    if n == |s| || s[n].Combinator? then [] else [s[n]] + Yielded(s[n + 1..])
  }

  lemma CompoundsRemain(s: seq<Component>, n: nat)
    requires n <= |s| && HasCompounds(s)
    ensures HasCompounds(s[n..])
  {
    var t := s[n..];
    assert forall i :: 0 <= i < |t| ==> t[i] == s[n + i];
  }

  /** The rest of the compound is yielded first. */
  lemma {:induction false} CompoundIsYielded(s: seq<Component>)
    ensures Yielded(s) == s[..CompoundLength(s)] + Yielded(s[CompoundLength(s)..])
    decreases |s|
  {
    if s != [] && !s[0].Combinator? {
      CompoundIsYielded(s[1..]);
      CompoundLengthStep(s);
      assert Passed(Ancestors, s) == 0 && s[0..] == s;
      assert s[CompoundLength(s)..] == s[1..][CompoundLength(s[1..])..];
      assert s[..CompoundLength(s)] == [s[0]] + s[1..][..CompoundLength(s[1..])];
    } else {
      assert s[0..] == s;
    }
  }

  /** Behind a combinator a compound begins. */
  lemma CompoundFollows(s: seq<Component>, n: nat)
    requires HasCompounds(s) && n < |s| && s[n].Combinator?
    ensures BeginsCompound(s[n + 1..])
  {
    CompoundsRemain(s, n + 1);
    assert n + 1 < |s| && !s[n + 1].Combinator?;
  }

  /** Then the combinator is passed, with what is skipped. */
  lemma CombinatorIsPassed(s: seq<Component>)
    requires s != [] && s[0].Combinator? && BeginsCompound(s[1..])
    ensures Yielded(s) == if s[0].combinator.IsAncestor() then Yielded(s[1..])
                          else Yielded(s[1..][SkipLength(s[1..])..])
  {
    var n, rest := Passed(Ancestors, s), s[1..];
    if !s[0].combinator.IsAncestor() {
      SkipEndsBeforeComponent(rest);
      assert s[n..] == rest[SkipLength(rest)..];
    }
    YieldsFrom(s, n, s[n..]);
  }

  lemma YieldsFrom(s: seq<Component>, n: nat, t: seq<Component>)
    requires n == Passed(Ancestors, s) && t == s[n..] && (t != [] ==> !t[0].Combinator?)
    ensures Yielded(s) == Yielded(t)
  {
    if t != [] {
      assert t[0] == s[n] && t[1..] == s[n + 1..] && t[0..] == t;
    }
  }

  /** Skipping ends where a compound begins. */
  lemma {:induction false} SkipEndsBeforeComponent(s: seq<Component>)
    requires HasCompounds(s)
    ensures BeginsCompound(s[SkipLength(s)..])
    decreases |s|
  {
    SkipStep(s);
    if NextCombinator(s).Some? {
      CompoundFollows(s, CompoundLength(s));
      if !NextCombinator(s).value.IsAncestor() {
        SkipEndsBeforeComponent(AfterCombinator(s));
      }
    }
  }

  /** The iterator yields the compound it stands in, and skipping leads to those of the ancestors. */
  lemma {:induction false} YieldedByCompounds(s: seq<Component>)
    requires BeginsCompound(s)
    ensures Yielded(s) == s[..CompoundLength(s)] + AncestorCompounds(s)
    ensures Yielded(s[SkipLength(s)..]) == AncestorCompounds(s)
    decreases |s|
  {
    CompoundIsYielded(s);
    SkipStep(s);
    if NextCombinator(s).Some? {
      var rest := AfterCombinator(s);
      CompoundFollows(s, CompoundLength(s));
      YieldedByCompounds(rest);
      YieldedBehind(s);
      CompoundsStep(s);
    }
  }

  lemma CompoundsStep(s: seq<Component>)
    requires NextCombinator(s).Some?
    ensures var rest := AfterCombinator(s);
            AncestorCompounds(s) ==
            if NextCombinator(s).value.IsAncestor() then rest[..CompoundLength(rest)] + AncestorCompounds(rest)
            else AncestorCompounds(rest)
  {
  }

  lemma YieldedBehind(s: seq<Component>)
    requires NextCombinator(s).Some? && BeginsCompound(AfterCombinator(s))
    ensures var t, rest := s[CompoundLength(s)..], AfterCombinator(s);
            Yielded(t) == if NextCombinator(s).value.IsAncestor() then Yielded(rest)
                          else Yielded(rest[SkipLength(rest)..])
  {
    var t := s[CompoundLength(s)..];
    assert t[0] == s[CompoundLength(s)] && t[1..] == AfterCombinator(s);
    CombinatorIsPassed(t);
  }

  // ---------- The hashes that are asked for ----------

  /** All hashes of the components, were there room for them. */
  function Asked(hasher: Hasher, kind: IterKind, s: seq<Component>): seq<bv32>
    decreases s, 0
  {
    var n := Passed(kind, s);
    if n == |s| || s[n].Combinator? then [] else AskedByOne(hasher, kind, s[n]) + Asked(hasher, kind, s[n + 1..])
  }

  function AskedByOne(hasher: Hasher, kind: IterKind, c: Component): seq<bv32>
    decreases c, 0
  {
    var h := ComponentHash(hasher, c);
    if h.Some? then [h.value & BLOOM_HASH_MASK]
    else if HasSingle(c) then Asked(hasher, kind, c.list[0].comps)
    else []
  }

  /** The component asks for an element with this name: as its type, namespace, id, class or attribute. */
  predicate AsksForAtom(hasher: Hasher, c: Component, a: nat) {
    || c == LocalName(a, a) || c == DefaultNamespace(a) || (c.Namespace? && c.url == a)
    || c == ID(a) || c == Class(a)
    || (hasher.collectsAttribute(a) &&
        (c == AttributeInNoNamespaceExists(a, a) || (c.AttributeInNoNamespace? && c.attribute == a)))
  }

  lemma AtomIsAskedFor(hasher: Hasher, kind: IterKind, c: Component, a: nat)
    requires AsksForAtom(hasher, c, a)
    ensures AskedByOne(hasher, kind, c) == [hasher.hash(a) & BLOOM_HASH_MASK]
  {
    AtomHash(hasher, c, a);
  }

  lemma AtomHash(hasher: Hasher, c: Component, a: nat)
    requires AsksForAtom(hasher, c, a)
    ensures ComponentHash(hasher, c) == Some(hasher.hash(a))
  {
  }

  /** A single selector in `:is()` or `:where()` asks as if it stood there itself, several ask for nothing. */
  lemma ArgumentIsAskedFor(hasher: Hasher, kind: IterKind, c: Component)
    requires c.Is? || c.Where?
    ensures AskedByOne(hasher, kind, c) == if |c.list| == 1 then Asked(hasher, kind, c.list[0].comps) else []
  {
  }

  /** A component without such a name asks for nothing, except through the single argument of `:is()` or `:where()`. */
  lemma OnlyAtomsAreAskedFor(hasher: Hasher, kind: IterKind, c: Component)
    ensures AskedByOne(hasher, kind, c) != [] ==> HasSingle(c) || exists a: nat :: AsksForAtom(hasher, c, a)
  {
    if ComponentHash(hasher, c).Some? {
      var a: nat := match c
        case LocalName(name, _) => name
        case DefaultNamespace(url) => url
        case Namespace(_, url) => url
        case ID(id) => id
        case Class(class_) => class_
        case AttributeInNoNamespace(attribute, _) => attribute
        case AttributeInNoNamespaceExists(attribute, _) => attribute
        case _ => 0;
      assert AsksForAtom(hasher, c, a);
    }
  }

  function AskedByAll(hasher: Hasher, kind: IterKind, s: seq<Component>): seq<bv32> {
    if s == [] then [] else AskedByOne(hasher, kind, s[0]) + AskedByAll(hasher, kind, s[1..])
  }

  lemma {:induction false} AskedOfYielded(hasher: Hasher, s: seq<Component>)
    ensures Asked(hasher, Ancestors, s) == AskedByAll(hasher, Ancestors, Yielded(s))
    decreases |s|
  {
    var n := Passed(Ancestors, s);
    if n < |s| && !s[n].Combinator? {
      AskedOfYielded(hasher, s[n + 1..]);
      assert Yielded(s)[1..] == Yielded(s[n + 1..]);
    }
  }

  function FirstFour(hashes: seq<bv32>): seq<bv32> {
    if |hashes| <= 4 then hashes else hashes[..4]
  }

  /** What is collected after the first component, if there is room left, is collected of the rest. */
  lemma FirstFourStep(acc: seq<bv32>, one: seq<bv32>, rest: seq<bv32>, all: seq<bv32>, acc': seq<bv32>)
    requires all == one + rest && acc' == FirstFour(acc + one)
    ensures if |acc + one| < 4 then acc' == acc + one && acc' + rest == acc + all
            else FirstFour(acc + all) == acc' && |acc + all| >= 4
  {
    assert acc + all == (acc + one) + rest;
    if |acc + one| >= 4 {
      assert ((acc + one) + rest)[..4] == (acc + one)[..4];
    }
  }

  lemma CollectStep(hasher: Hasher, kind: IterKind, s: seq<Component>, acc: seq<bv32>, c: Component,
                    rest: seq<Component>)
    requires |acc| < 4
    requires var n := Passed(kind, s); n < |s| && !s[n].Combinator? && c == s[n] && rest == s[n + 1..]
    ensures Asked(hasher, kind, s) == AskedByOne(hasher, kind, c) + Asked(hasher, kind, rest)
    ensures var (acc', more) := CollectOne(hasher, kind, c, acc);
            Collect(hasher, kind, s, acc) == if more then Collect(hasher, kind, rest, acc') else (acc', false)
  {
  }

  /** The first four are collected, and no other. */
  lemma {:induction false} CollectsFirstFour(hasher: Hasher, kind: IterKind, s: seq<Component>, acc: seq<bv32>)
    requires |acc| < 4
    ensures Collect(hasher, kind, s, acc) ==
            (FirstFour(acc + Asked(hasher, kind, s)), |acc + Asked(hasher, kind, s)| < 4)
    decreases s, 0
  {
    var n := Passed(kind, s);
    if n == |s| || s[n].Combinator? {
      assert acc + [] == acc;
    } else {
      var c, rest := s[n], s[n + 1..];
      CollectStep(hasher, kind, s, acc, c, rest);
      CollectsOneFirstFour(hasher, kind, c, acc);
      var (acc', more) := CollectOne(hasher, kind, c, acc);
      FirstFourStep(acc, AskedByOne(hasher, kind, c), Asked(hasher, kind, rest), Asked(hasher, kind, s), acc');
      if more {
        CollectsFirstFour(hasher, kind, rest, acc');
      }
    }
  }

  lemma {:induction false} CollectsOneFirstFour(hasher: Hasher, kind: IterKind, c: Component, acc: seq<bv32>)
    requires |acc| < 4
    ensures CollectOne(hasher, kind, c, acc) ==
            (FirstFour(acc + AskedByOne(hasher, kind, c)), |acc + AskedByOne(hasher, kind, c)| < 4)
    decreases c, 0
  {
    if ComponentHash(hasher, c).None? {
      if HasSingle(c) {
        CollectsFirstFour(hasher, kind, c.list[0].comps, acc);
      } else {
        assert acc + [] == acc;
      }
    }
  }

  /** The hashes of a selector are the first four that the compounds of ancestors ask for. */
  lemma HashesAreOfAncestors(hasher: Hasher, s: seq<Component>)
    requires BeginsCompound(s)
    ensures HashesOf(hasher, s) == PackAll(FirstFour(AskedByAll(hasher, Ancestors, AncestorCompounds(s))))
  {
    var t := s[SkipLength(s)..];
    YieldedByCompounds(s);
    AskedOfYielded(hasher, t);
    CollectsFirstFour(hasher, Ancestors, t, []);
    assert [] + Asked(hasher, Ancestors, t) == Asked(hasher, Ancestors, t);
  }

  /** Inside of a `:has()` they are the first four that the subject compound asks for. */
  lemma HashesAreOfSubject(hasher: Hasher, s: seq<Component>)
    ensures Collect(hasher, Subject, s, []).0 == FirstFour(AskedByAll(hasher, Subject, s[..CompoundLength(s)]))
  {
    CollectsFirstFour(hasher, Subject, s, []);
    AskedOfSubject(hasher, s);
    assert [] + Asked(hasher, Subject, s) == Asked(hasher, Subject, s);
  }

  lemma {:induction false} AskedOfSubject(hasher: Hasher, s: seq<Component>)
    ensures Asked(hasher, Subject, s) == AskedByAll(hasher, Subject, s[..CompoundLength(s)])
  {
    if s != [] && !s[0].Combinator? {
      AskedOfSubject(hasher, s[1..]);
      CompoundLengthStep(s);
      assert s[..CompoundLength(s)][1..] == s[1..][..CompoundLength(s[1..])];
    }
  }

  // ---------- Each of them is looked up ----------

  /** The byte of the fourth hash that word `i` has room for. */
  function FourthByte(h: bv32, i: nat): bv32 {
    if i == 0 then h & 0x0000_00ff else if i == 1 then h & 0x0000_ff00 else h & 0x00ff_0000
  }

  /** Word `i` is zero, at which the check stops: there is no hash for it, or a zero with nothing of the fourth. */
  predicate Stops(r: seq<bv32>, i: nat) {
    i >= |r| || (r[i] == 0 && (|r| == 4 ==> FourthByte(r[3], i) == 0))
  }

  /** From word `i` on, the check comes to hash `j`; a fourth hash of zero counts as none. */
  predicate LookedUp(r: seq<bv32>, i: nat, j: nat)
    requires j < |r|
  {
    (forall k :: i <= k <= j && k < 3 ==> !Stops(r, k)) && (j == 3 ==> r[3] != 0)
  }

  /** All are looked up, unless one is zero. */
  lemma NonZeroAreLookedUp(r: seq<bv32>, j: nat)
    requires j < |r| && forall k :: 0 <= k < |r| ==> r[k] != 0
    ensures LookedUp(r, 0, j)
  {
  }

  predicate HasLookedUp(filter: CountingBloomFilter, r: seq<bv32>, i: nat)
    requires filter.counters.Length == ARRAY_SIZE
    reads filter, filter.counters
  {
    forall j :: i <= j < |r| && LookedUp(r, i, j) ==> filter.MightContain(r[j])
  }

  /** The check passes exactly if the filter has all hashes that it comes to. */
  lemma MayMatchIff(r: seq<bv32>, filter: CountingBloomFilter)
    requires |r| <= 4 && filter.counters.Length == ARRAY_SIZE
    requires forall i :: 0 <= i < |r| ==> Masked(r[i])
    ensures MayMatch(PackAll(r), filter) <==> HasLookedUp(filter, r, 0)
  {
    Unpacked(r);
    var p := PackAll(r);
    var words := [p.h0, p.h1, p.h2];
    PackedWords(r);
    WordsPassIff(words, FourthHash(p), filter, r, 0);
  }

  predicate HoldsWord(r: seq<bv32>, i: nat, word: bv32) {
    word & BLOOM_HASH_MASK == HashAt(r, i) && (word == 0 <==> Stops(r, i))
  }

  lemma PackedWords(r: seq<bv32>)
    requires |r| <= 4 && forall i :: 0 <= i < |r| ==> Masked(r[i])
    ensures var p := PackAll(r);
            && HoldsWord(r, 0, p.h0) && HoldsWord(r, 1, p.h1) && HoldsWord(r, 2, p.h2)
  {
    Unpacked(r);
    if |r| == 4 {
      FourStop(r, r[0], r[1], r[2], r[3]);
    } else {
      FewerStop(r);
    }
  }

  lemma FewerStop(r: seq<bv32>)
    requires |r| < 4
    ensures forall i :: 0 <= i < 3 ==> (HashAt(r, i) == 0 <==> Stops(r, i))
  {
  }

  lemma FourStop(r: seq<bv32>, h0: bv32, h1: bv32, h2: bv32, fourth: bv32)
    requires r == [h0, h1, h2, fourth]
    ensures var p := Pack(h0, h1, h2, fourth);
            (p.h0 == 0 <==> Stops(r, 0)) && (p.h1 == 0 <==> Stops(r, 1)) && (p.h2 == 0 <==> Stops(r, 2))
  {
    FirstWord(h0, fourth);
    SecondWord(h1, fourth);
    ThirdWord(h2, fourth);
  }

  lemma FirstWord(h: bv32, fourth: bv32)
    ensures h | ((fourth & 0x0000_00ff) << 24) == 0 <==> h == 0 && FourthByte(fourth, 0) == 0
  {
  }

  lemma SecondWord(h: bv32, fourth: bv32)
    ensures h | ((fourth & 0x0000_ff00) << 16) == 0 <==> h == 0 && FourthByte(fourth, 1) == 0
  {
  }

  lemma ThirdWord(h: bv32, fourth: bv32)
    ensures h | ((fourth & 0x00ff_0000) << 8) == 0 <==> h == 0 && FourthByte(fourth, 2) == 0
  {
  }

  lemma {:induction false} WordsPassIff(words: seq<bv32>, fourth: bv32, filter: CountingBloomFilter, r: seq<bv32>,
                                       i: nat)
    requires |words| == 3 && i <= 3 && |r| <= 4 && filter.counters.Length == ARRAY_SIZE
    requires forall j :: 0 <= j < 3 ==> HoldsWord(r, j, words[j])
    requires fourth == HashAt(r, 3)
    ensures MayMatchFrom(words, fourth, filter, i) <==> HasLookedUp(filter, r, i)
    decreases 3 - i
  {
    if i < 3 && !Stops(r, i) {
      WordsPassIff(words, fourth, filter, r, i + 1);
      LookedUpNext(filter, r, i);
    }
  }

  lemma LookedUpNext(filter: CountingBloomFilter, r: seq<bv32>, i: nat)
    requires i < 3 && i < |r| && !Stops(r, i) && filter.counters.Length == ARRAY_SIZE
    ensures HasLookedUp(filter, r, i) <==> filter.MightContain(r[i]) && HasLookedUp(filter, r, i + 1)
  {
    assert LookedUp(r, i, i);
    assert forall j :: i < j < |r| ==> (LookedUp(r, i, j) <==> LookedUp(r, i + 1, j));
  }

  /** A selector is rejected exactly if the filter lacks one of the first four hashes that ancestors must have. */
  lemma MissingHashIsRejected(hasher: Hasher, s: seq<Component>, filter: CountingBloomFilter)
    requires BeginsCompound(s) && filter.counters.Length == ARRAY_SIZE
    ensures MayMatch(HashesOf(hasher, s), filter) <==>
            HasLookedUp(filter, FirstFour(AskedByAll(hasher, Ancestors, AncestorCompounds(s))), 0)
  {
    HashesAreOfAncestors(hasher, s);
    AllAskedAreMasked(hasher, Ancestors, AncestorCompounds(s));
    MayMatchIff(FirstFour(AskedByAll(hasher, Ancestors, AncestorCompounds(s))), filter);
  }

  lemma {:induction false} AllAskedAreMasked(hasher: Hasher, kind: IterKind, s: seq<Component>)
    ensures forall i :: 0 <= i < |AskedByAll(hasher, kind, s)| ==> Masked(AskedByAll(hasher, kind, s)[i])
  {
    if s != [] {
      OneAskedIsMasked(hasher, kind, s[0]);
      AllAskedAreMasked(hasher, kind, s[1..]);
    }
  }

  lemma {:induction false} AskedAreMasked(hasher: Hasher, kind: IterKind, s: seq<Component>)
    ensures forall i :: 0 <= i < |Asked(hasher, kind, s)| ==> Masked(Asked(hasher, kind, s)[i])
    decreases s, 0
  {
    var n := Passed(kind, s);
    if n < |s| && !s[n].Combinator? {
      OneAskedIsMasked(hasher, kind, s[n]);
      AskedAreMasked(hasher, kind, s[n + 1..]);
    }
  }

  lemma {:induction false} OneAskedIsMasked(hasher: Hasher, kind: IterKind, c: Component)
    ensures forall i :: 0 <= i < |AskedByOne(hasher, kind, c)| ==> Masked(AskedByOne(hasher, kind, c)[i])
    decreases c, 0
  {
    var h := ComponentHash(hasher, c);
    if h.Some? {
      MaskedMask(h.value);
    } else if HasSingle(c) {
      AskedAreMasked(hasher, kind, c.list[0].comps);
    }
  }
}
