/** The counting Bloom filter with 8-bit counters that stick when they are full. */
module Bloom {
  type U8 = x: int | 0 <= x < 0x100

  const BLOOM_HASH_MASK: bv32 := 0x00ff_ffff
  const KEY_MASK: bv32 := 0xfff
  const ARRAY_SIZE: nat := 4096

  function Hash1(hash: bv32): (i: nat)
    ensures i < ARRAY_SIZE
  {
    (hash & KEY_MASK) as nat
  }

  function Hash2(hash: bv32): (i: nat)
    ensures i < ARRAY_SIZE
  {
    ((hash >> 12) & KEY_MASK) as nat
  }

  /** Only the 24 low bits of a hash matter. */
  lemma SlotsOfMasked(hash: bv32)
    ensures Hash1(hash & BLOOM_HASH_MASK) == Hash1(hash)
    ensures Hash2(hash & BLOOM_HASH_MASK) == Hash2(hash)
  {
  }

  /** The two slots tell the low 24 bits: they are their upper and lower half. */
  lemma SlotsTellHash(a: bv32, b: bv32)
    ensures Hash1(a) == Hash1(b) && Hash2(a) == Hash2(b) <==> a & BLOOM_HASH_MASK == b & BLOOM_HASH_MASK
  {
    if Hash1(a) == Hash1(b) && Hash2(a) == Hash2(b) {
      SameBits(a & KEY_MASK, b & KEY_MASK);
      SameBits((a >> 12) & KEY_MASK, (b >> 12) & KEY_MASK);
      HalvesTell(a, b);
    } else if a & BLOOM_HASH_MASK == b & BLOOM_HASH_MASK {
      SlotsOfMasked(a);
      SlotsOfMasked(b);
    }
  }

  lemma SameBits(x: bv32, y: bv32)
    requires x as nat == y as nat
    ensures x == y
  {
    assert (x as nat) as bv32 == x && (y as nat) as bv32 == y;
  }

  lemma HalvesTell(a: bv32, b: bv32)
    requires a & KEY_MASK == b & KEY_MASK && (a >> 12) & KEY_MASK == (b >> 12) & KEY_MASK
    ensures a & BLOOM_HASH_MASK == b & BLOOM_HASH_MASK
  {
  }

  /** How often the slots of one item hit slot `i`: twice if they coincide. */
  function HitsOf(hash: bv32, i: nat): nat {
    Times(Hash1(hash), Hash2(hash), i)
  }

  function Times(first: nat, second: nat, i: nat): nat {
    (if first == i then 1 else 0) + (if second == i then 1 else 0)
  }

  /** How often the items hit slot `i`. */
  function Hits(items: seq<bv32>, i: nat): nat {
    if items == [] then 0 else Hits(items[..|items| - 1], i) + HitsOf(items[|items| - 1], i)
  }

  lemma {:induction false} HitsConcat(xs: seq<bv32>, ys: seq<bv32>, i: nat)
    ensures Hits(xs + ys, i) == Hits(xs, i) + Hits(ys, i)
  {
    if ys == [] {
      assert xs + ys == xs;
    } else {
      HitsConcat(xs, ys[..|ys| - 1], i);
      assert (xs + ys)[..|xs + ys| - 1] == xs + ys[..|ys| - 1];
    }
  }

  /** Taking out one item takes out its hits. */
  lemma HitsWithout(items: seq<bv32>, k: nat, i: nat)
    requires k < |items|
    ensures Hits(items[..k] + items[k + 1..], i) == Hits(items, i) - HitsOf(items[k], i)
  {
    HitsConcat(items[..k], items[k + 1..], i);
    HitsConcat(items[..k] + [items[k]], items[k + 1..], i);
    HitsConcat(items[..k], [items[k]], i);
    assert items == items[..k] + [items[k]] + items[k + 1..];
    assert [items[k]][..0] == [];
    assert Hits([items[k]], i) == HitsOf(items[k], i);
  }

  lemma PresentHits(items: seq<bv32>, k: nat, i: nat)
    requires k < |items|
    ensures Hits(items, i) >= HitsOf(items[k], i)
  {
  }

  /** A slot is hit if one of the items has it. */
  lemma {:induction false} HitsTell(items: seq<bv32>, i: nat)
    ensures Hits(items, i) > 0 <==> exists k :: 0 <= k < |items| && (Hash1(items[k]) == i || Hash2(items[k]) == i)
  {
    if items != [] {
      var n := |items| - 1;
      HitsTell(items[..n], i);
      assert forall k :: 0 <= k < n ==> items[..n][k] == items[k];
    }
  }

  class CountingBloomFilter {
    const counters: array<U8>
    /** The items inserted and not removed since. */
    ghost var present: seq<bv32>

    /** A counter is exact, or it is full and stays so. */
    ghost predicate Valid()
      reads this, counters
    {
      && counters.Length == ARRAY_SIZE
      && forall i :: 0 <= i < ARRAY_SIZE ==> counters[i] == 0xff || counters[i] == Hits(present, i)
    }

    /** Only slots of items are counted; so it is until a full counter outlives its items. */
    ghost predicate Tight()
      requires counters.Length == ARRAY_SIZE
      reads this, counters
    {
      forall i :: 0 <= i < ARRAY_SIZE && counters[i] != 0 ==> Hits(present, i) > 0
    }

    constructor ()
      ensures Valid() && Tight() && present == [] && fresh(counters)
      ensures forall i :: 0 <= i < ARRAY_SIZE ==> counters[i] == 0
    {
      counters := new U8[ARRAY_SIZE](_ => 0);
      present := [];
    }

    function SlotIsEmpty(i: nat): bool
      requires i < counters.Length
      reads this, counters
    {
      counters[i] == 0
    }

    /** Counts up or down, unless the counter is full.  An empty counter must not be counted down. */
    method AdjustSlot(index: nat, increment: bool)
      requires index < counters.Length
      requires !increment ==> counters[index] > 0
      modifies counters
      ensures counters[index] == if old(counters[index]) == 0xff then 0xff
                                 else if increment then old(counters[index]) + 1 else old(counters[index]) - 1
      ensures forall i :: 0 <= i < counters.Length && i != index ==> counters[i] == old(counters[i])
    {
      if counters[index] != 0xff {
        if increment {
          counters[index] := counters[index] + 1;
        } else {
          counters[index] := counters[index] - 1;
        }
      }
    }

    /** Both slots of an item, one after the other, also when they coincide. */
    method AdjustSlots(first: nat, second: nat, increment: bool)
      requires first < counters.Length && second < counters.Length
      requires !increment ==> forall i :: 0 <= i < counters.Length ==>
               counters[i] == 0xff || counters[i] >= Times(first, second, i)
      modifies counters
      ensures forall i :: 0 <= i < counters.Length ==>
                counters[i] ==
                if old(counters[i]) == 0xff then 0xff
                else if !increment then old(counters[i]) - Times(first, second, i)
                else if old(counters[i]) + Times(first, second, i) > 0xff then 0xff
                else old(counters[i]) + Times(first, second, i)
    {
      assert Times(first, second, first) >= 1 && Times(first, second, second) >= 1;
      AdjustSlot(first, increment);
      AdjustSlot(second, increment);
    }

    method InsertHash(hash: bv32)
      requires Valid()
      modifies this, counters
      ensures Valid() && present == old(present) + [hash]
      ensures forall i :: 0 <= i < ARRAY_SIZE ==>
                counters[i] == if old(counters[i]) + HitsOf(hash, i) > 0xff then 0xff
                               else old(counters[i]) + HitsOf(hash, i)
      ensures old(Tight()) ==> Tight()
    {
      AdjustSlots(Hash1(hash), Hash2(hash), true);
      present := present + [hash];
      assert present[..|present| - 1] == old(present);
    }

    /** Removes one occurrence of an item that is present. */
    method RemoveHash(hash: bv32)
      requires Valid() && hash in present
      modifies this, counters
      ensures Valid() && multiset(present) == multiset(old(present)) - multiset{hash}
      ensures forall i :: 0 <= i < ARRAY_SIZE ==>
                counters[i] == if old(counters[i]) == 0xff then 0xff else old(counters[i]) - HitsOf(hash, i)
    {
      ghost var k :| 0 <= k < |present| && present[k] == hash;
      ghost var rest := present[..k] + present[k + 1..];
      forall i | 0 <= i < ARRAY_SIZE ensures Hits(rest, i) == Hits(present, i) - HitsOf(hash, i) {
        HitsWithout(present, k, i);
      }
      assert present == present[..k] + [hash] + present[k + 1..];
      var first, second := Hash1(hash), Hash2(hash);
      assert forall i :: HitsOf(hash, i) == Times(first, second, i);
      AdjustSlots(first, second, false);
      present := rest;
    }

    function MightContain(hash: bv32): bool
      requires counters.Length == ARRAY_SIZE
      reads this, counters
    {
      !SlotIsEmpty(Hash1(hash)) && !SlotIsEmpty(Hash2(hash))
    }

    /** No item that is present is reported absent, also if only its low 24 bits are asked for. */
    lemma NoFalseNegative(item: bv32)
      requires Valid() && item in present
      ensures MightContain(item) && MightContain(item & BLOOM_HASH_MASK)
    {
      var k :| 0 <= k < |present| && present[k] == item;
      PresentHits(present, k, Hash1(item));
      PresentHits(present, k, Hash2(item));
      SlotsOfMasked(item);
    }

    lemma SlotIff(i: nat)
      requires i < ARRAY_SIZE && Valid() && (Tight() || counters[i] != 0xff)
      ensures SlotIsEmpty(i) <==> Hits(present, i) == 0
    {
    }

    /** While nothing has been removed, or no counter is full, an item is reported exactly if both its slots are hit. */
    lemma MightContainIff(item: bv32)
      requires Valid() && (Tight() || forall i :: 0 <= i < ARRAY_SIZE ==> counters[i] != 0xff)
      ensures MightContain(item) <==> Hits(present, Hash1(item)) > 0 && Hits(present, Hash2(item)) > 0
    {
      SlotIff(Hash1(item));
      SlotIff(Hash2(item));
    }

    method IsZeroed() returns (r: bool)
      requires Valid()
      ensures r <==> forall i :: 0 <= i < counters.Length ==> counters[i] == 0
    {
      for n := 0 to counters.Length
        invariant forall i :: 0 <= i < n ==> counters[i] == 0
      {
        if counters[n] != 0 {
          return false;
        }
      }
      return true;
    }
  }

  datatype Op = Insert(hash: bv32) | Remove(hash: bv32)

  /** The items left after a run; removals must be of items that are there. */
  function After(items: multiset<bv32>, ops: seq<Op>): multiset<bv32>
    decreases |ops|
  {
    if ops == [] then items
    else match ops[0]
      case Insert(h) => After(items + multiset{h}, ops[1..])
      case Remove(h) => After(items - multiset{h}, ops[1..])
  }

  predicate Legal(items: multiset<bv32>, ops: seq<Op>)
    decreases |ops|
  {
    ops != [] ==>
      match ops[0]
      case Insert(h) => Legal(items + multiset{h}, ops[1..])
      case Remove(h) => h in items && Legal(items - multiset{h}, ops[1..])
  }

  /** Any run of insertions and legal removals: no counter underflows, and what is left is found. */
  method Replay(filter: CountingBloomFilter, ops: seq<Op>)
    requires filter.Valid() && Legal(multiset(filter.present), ops)
    modifies filter, filter.counters
    ensures filter.Valid() && multiset(filter.present) == After(old(multiset(filter.present)), ops)
    ensures forall h :: h in After(old(multiset(filter.present)), ops) ==> filter.MightContain(h)
  {
    for n := 0 to |ops|
      invariant filter.Valid() && Legal(multiset(filter.present), ops[n..])
      invariant After(multiset(filter.present), ops[n..]) == After(old(multiset(filter.present)), ops)
    {
      assert ops[n..][1..] == ops[n + 1..];
      match ops[n] {
        case Insert(h) =>
          filter.InsertHash(h);
        case Remove(h) =>
          filter.RemoveHash(h);
      }
    }
    forall h | h in multiset(filter.present) ensures filter.MightContain(h) {
      filter.NoFalseNegative(h);
    }
  }
}
