/**
 * The normalised input of a function's hash: a label, then the function's bytes with every
 * byte the loader may change set to zero.  The build tool takes the bytes from the file,
 * the running program from its memory, and the two hashes are compared.
 */
module RuntimeHash {
  import opened Wrappers
  import opened Bytes
  import opened Relocations

  /** "verthys/runtime-hash-v1" */
  const LABEL: seq<Byte> := [118, 101, 114, 116, 104, 121, 115, 47, 114, 117, 110, 116, 105, 109,
                             101, 45, 104, 97, 115, 104, 45, 118, 49]

  const MAX_FUNC_BYTES: nat := 65536

  datatype Section = Section(va: U32, vsize: U32, rawPtr: U32, rawSize: U32) {
    // The end of the section is computed in 32 bits.
    predicate Contains(rva: U32) {
      va <= rva < (va + vsize) % 0x1_0000_0000
    }
  }

  datatype Image = Image(bytes: seq<Byte>, sections: seq<Section>)

  ghost predicate Covers(spot: Spot, at: nat) {
    spot.rva <= at < spot.rva + spot.width
  }

  ghost predicate Covered(spots: seq<Spot>, at: nat) {
    exists i :: 0 <= i < |spots| && Covers(spots[i], at)
  }

  ghost function Masked(spots: seq<Spot>, rva: nat, body: seq<Byte>): (masked: seq<Byte>)
    ensures |masked| == |body|
    ensures forall i :: 0 <= i < |body| ==>
              masked[i] == if Covered(spots, rva + i) then 0 else body[i]
  {
    seq(|body|, i requires 0 <= i < |body| => if Covered(spots, rva + i) then 0 else body[i])
  }

  // The masking loop gives up at the first spot that starts at the end of the function or later.
  function Reached(spots: seq<Spot>, end: nat): seq<Spot> {
    if spots == [] || spots[0].rva >= end then [] else [spots[0]] + Reached(spots[1..], end)
  }

  lemma {:induction false} ReachedUpTo(spots: seq<Spot>, end: nat, k: nat)
    requires k <= |spots| && forall i :: 0 <= i < k ==> spots[i].rva < end
    requires k < |spots| ==> spots[k].rva >= end
    ensures Reached(spots, end) == spots[..k]
  {
    if k > 0 {
      ReachedUpTo(spots[1..], end, k - 1);
      assert spots[..k] == [spots[0]] + spots[1..][..k - 1];
    }
  }

  /** Zeroes, in the `size` bytes of `buf` from `at` on, what the spots cover. */
  method MaskSpots(buf: array<Byte>, at: nat, spots: seq<Spot>, rva: nat, size: nat)
    requires at + size == buf.Length
    modifies buf
    ensures buf[..at] == old(buf[..at])
    ensures buf[at..] == Masked(Reached(spots, rva + size), rva, old(buf[at..]))
  {
    var end := rva + size;
    ghost var was := buf[at..];
    var i := 0;
    while i < |spots|
      invariant i <= |spots| && forall j :: 0 <= j < i ==> spots[j].rva < end
      invariant buf[..at] == old(buf[..at])
      invariant buf[at..] == Masked(spots[..i], rva, was)
    {
      var start, stop := spots[i].rva, spots[i].rva + spots[i].width;
      if start >= end {
        break;
      }
      var low := if start > rva then start else rva;
      var high := if stop < end then stop else end;
      ghost var before := buf[..];
      if high > low {
        forall k | low <= k < high {
          buf[at + k - rva] := 0;
        }
      }
      assert buf[..at] == before[..at];
      MaskOneMore(spots, i, rva, was, before[at..], buf[at..]);
      i := i + 1;
    }
    ReachedUpTo(spots, end, i);
  }

  lemma MaskOneMore(spots: seq<Spot>, i: nat, rva: nat, body: seq<Byte>, before: seq<Byte>,
                    after: seq<Byte>)
    requires i < |spots| && before == Masked(spots[..i], rva, body) && |after| == |body|
    requires forall k :: 0 <= k < |body| ==> after[k] == if Covers(spots[i], rva + k) then 0 else before[k]
    ensures after == Masked(spots[..i + 1], rva, body)
  {
  }

  // Where in the file the bytes at `rva` are: in the first section that contains it.
  ghost predicate FirstContaining(sections: seq<Section>, rva: U32, i: nat) {
    && i < |sections| && sections[i].Contains(rva)
    && forall j :: 0 <= j < i ==> !sections[j].Contains(rva)
  }

  ghost predicate InFile(image: Image, rva: U32, size: nat, at: nat) {
    exists i: nat :: && FirstContaining(image.sections, rva, i)
                     && OffsetIn(image, image.sections[i], rva, size, at)
  }

  predicate OffsetIn(image: Image, section: Section, rva: U32, size: nat, at: int) {
    && rva - section.va < section.rawSize
    && at == section.rawPtr + (rva - section.va)
    && at + size <= |image.bytes|
  }

  ghost function HashInput(spots: seq<Spot>, rva: nat, body: seq<Byte>): seq<Byte> {
    LABEL + Masked(spots, rva, body)
  }

  method LabelThen(body: seq<Byte>) returns (buf: array<Byte>)
    ensures fresh(buf) && buf[..] == LABEL + body
  {
    var text := LABEL + body;
    buf := new Byte[|text|](i requires 0 <= i < |text| => text[i]);
  }

  /** What the build tool hashes, or None when the function's bytes are not in the file. */
  method FileHashInput(image: Image, spots: seq<Spot>, rva: U32, size: U32)
    returns (input: Option<seq<Byte>>)
    ensures input == None <==> forall at: nat :: !InFile(image, rva, size, at)
    ensures forall at: nat :: InFile(image, rva, size, at) ==>
              at + size <= |image.bytes| &&
              input == Some(HashInput(Reached(spots, rva + size), rva, image.bytes[at..at + size]))
  {
    var i: nat := 0;
    while i < |image.sections|
      invariant i <= |image.sections|
      invariant forall j :: 0 <= j < i ==> !image.sections[j].Contains(rva)
    {
      if image.sections[i].Contains(rva) {
        break;
      }
      i := i + 1;
    }
    if i == |image.sections| {
      return None;
    }
    var section := image.sections[i];
    var at: nat := section.rawPtr + (rva - section.va);
    OnlyOffset(image, rva, size, i);
    if rva - section.va >= section.rawSize || at + size > |image.bytes| {
      return None;
    }
    assert OffsetIn(image, section, rva, size, at);
    var buf := LabelThen(image.bytes[at..at + size]);
    assert buf[..|LABEL|] == LABEL && buf[|LABEL|..] == image.bytes[at..at + size];
    MaskSpots(buf, |LABEL|, spots, rva, size);
    assert buf[..] == buf[..|LABEL|] + buf[|LABEL|..];
    return Some(buf[..]);
  }

  lemma OnlyOffset(image: Image, rva: U32, size: nat, i: nat)
    requires FirstContaining(image.sections, rva, i)
    ensures forall at: nat :: InFile(image, rva, size, at) <==> OffsetIn(image, image.sections[i], rva, size, at)
  {
  }

  /**
   * What the running program hashes: `mem` is the function, or a buffer somewhere else, and `offset`
   * its distance from the image in 64 bits, if the image is known.  Spots are only looked for where a
   * 32-bit address can lie.
   */
  method MemoryHashInput(mem: seq<Byte>, offset: Option<nat>, spots: seq<Spot>)
    returns (input: Option<seq<Byte>>)
    ensures input == None <==> |mem| == 0 || |mem| > 65536
    ensures input.Some? && offset.Some? && offset.value < 0x1_0000_0000 ==>
              input.value == HashInput(Reached(spots, offset.value + |mem|), offset.value, mem)
    ensures input.Some? && (offset == None || offset.value >= 0x1_0000_0000) ==> input.value == LABEL + mem
  {
    if |mem| == 0 || |mem| > MAX_FUNC_BYTES {
      return None;
    }
    var buf := LabelThen(mem);
    assert buf[..|LABEL|] == LABEL && buf[|LABEL|..] == mem;
    if offset.Some? && offset.value < 0x1_0000_0000 {
      MaskSpots(buf, |LABEL|, spots, offset.value, |mem|);
    }
    assert buf[..] == buf[..|LABEL|] + buf[|LABEL|..];
    return Some(buf[..]);
  }

  ghost predicate Ascending(spots: seq<Spot>) {
    forall i, j :: 0 <= i < j < |spots| ==> spots[i].rva <= spots[j].rva
  }

  // A spot that covers `at` is listed before every spot that starts at `end` or later.
  ghost predicate InTime(spots: seq<Spot>, end: nat, at: nat) {
    exists k :: 0 <= k < |spots| && Covers(spots[k], at) && forall i :: 0 <= i <= k ==> spots[i].rva < end
  }

  // So it is for everything that is covered inside the function.
  ghost predicate AllInTime(spots: seq<Spot>, rva: nat, size: nat) {
    forall at :: rva <= at < rva + size && Covered(spots, at) ==> InTime(spots, rva + size, at)
  }

  lemma {:induction false} ReachedIsPrefix(spots: seq<Spot>, end: nat)
    ensures Reached(spots, end) <= spots
    ensures forall i :: 0 <= i < |Reached(spots, end)| ==> spots[i].rva < end
    ensures |Reached(spots, end)| < |spots| ==> spots[|Reached(spots, end)|].rva >= end
  {
    if spots != [] && spots[0].rva < end {
      ReachedIsPrefix(spots[1..], end);
      assert forall i :: 1 <= i < |Reached(spots, end)| ==> spots[i] == spots[1..][i - 1];
    }
  }

  // The loop covers exactly what it covers in time.
  lemma ReachedIff(spots: seq<Spot>, end: nat, at: nat)
    ensures Covered(Reached(spots, end), at) <==> InTime(spots, end, at)
  {
    var reached := Reached(spots, end);
    ReachedIsPrefix(spots, end);
    if Covered(reached, at) {
      var k :| 0 <= k < |reached| && Covers(reached[k], at);
      assert Covers(spots[k], at);
    }
    if InTime(spots, end, at) {
      var k :| 0 <= k < |spots| && Covers(spots[k], at) && forall i :: 0 <= i <= k ==> spots[i].rva < end;
      assert k < |reached| && Covers(reached[k], at);
    }
  }

  lemma AscendingIsInTime(spots: seq<Spot>, rva: nat, size: nat)
    requires Ascending(spots)
    ensures AllInTime(spots, rva, size)
  {
    forall at | rva <= at < rva + size && Covered(spots, at)
      ensures InTime(spots, rva + size, at)
    {
      var k :| 0 <= k < |spots| && Covers(spots[k], at);
      assert forall i :: 0 <= i < k ==> spots[i].rva <= spots[k].rva;
    }
  }

  // Masking zeroes exactly the covered bytes, whatever they are, if and only if each of them is
  // covered by a spot that is listed before the loop gives up; ascending order is enough.
  lemma MaskingIsExactIff(spots: seq<Spot>, rva: nat, size: nat)
    ensures AllInTime(spots, rva, size) <==>
            forall body: seq<Byte> :: |body| == size ==>
              Masked(Reached(spots, rva + size), rva, body) == Masked(spots, rva, body)
  {
    if AllInTime(spots, rva, size) {
      forall body: seq<Byte> | |body| == size
        ensures Masked(Reached(spots, rva + size), rva, body) == Masked(spots, rva, body)
      {
        InTimeMasksAll(spots, rva, body);
      }
    } else {
      var at :| rva <= at < rva + size && Covered(spots, at) && !InTime(spots, rva + size, at);
      MissedByte(spots, rva, size, at, seq(size, _ => 1 as Byte));
    }
  }

  lemma MissedByte(spots: seq<Spot>, rva: nat, size: nat, at: nat, body: seq<Byte>)
    requires rva <= at < rva + size == rva + |body| && body[at - rva] != 0
    requires Covered(spots, at) && !InTime(spots, rva + size, at)
    ensures Masked(Reached(spots, rva + size), rva, body) != Masked(spots, rva, body)
  {
    ReachedIff(spots, rva + size, at);
    assert Masked(Reached(spots, rva + size), rva, body)[at - rva] != Masked(spots, rva, body)[at - rva];
  }

  lemma InTimeMasksAll(spots: seq<Spot>, rva: nat, body: seq<Byte>)
    requires AllInTime(spots, rva, |body|)
    ensures Masked(Reached(spots, rva + |body|), rva, body) == Masked(spots, rva, body)
  {
    var reached := Reached(spots, rva + |body|);
    forall i | 0 <= i < |body|
      ensures Masked(reached, rva, body)[i] == Masked(spots, rva, body)[i]
    {
      ReachedIff(spots, rva + |body|, rva + i);
    }
  }

  /** A spot listed after one that lies past the function is missed. */
  lemma MisorderedSpotsAreMissed()
    ensures var spots := [Spot(0x3000, 8), Spot(0x1004, 8)];
            !AllInTime(spots, 0x1000, 0x20)
            && Masked(Reached(spots, 0x1020), 0x1000, seq(0x20, _ => 1 as Byte))
               == seq(0x20, _ => 1 as Byte)
  {
    var spots := [Spot(0x3000, 8), Spot(0x1004, 8)];
    assert Reached(spots, 0x1020) == [];
    ReachedIff(spots, 0x1020, 0x1004);
    assert Covers(spots[1], 0x1004);
    assert Covered(spots, 0x1004);
    assert !Covered([], 0x1004);
  }

  // Two bodies are normalised to the same input exactly when they differ only where covered.
  lemma SameInputIff(spots: seq<Spot>, rva: nat, a: seq<Byte>, b: seq<Byte>)
    requires |a| == |b|
    ensures HashInput(spots, rva, a) == HashInput(spots, rva, b) <==>
            forall i :: 0 <= i < |a| && !Covered(spots, rva + i) ==> a[i] == b[i]
  {
    var x, y := Masked(spots, rva, a), Masked(spots, rva, b);
    assert (LABEL + x)[|LABEL|..] == x && (LABEL + y)[|LABEL|..] == y;
    if HashInput(spots, rva, a) == HashInput(spots, rva, b) {
      assert x == y;
      forall i | 0 <= i < |a| && !Covered(spots, rva + i)
        ensures a[i] == b[i]
      {
        assert x[i] == a[i] && y[i] == b[i];
      }
    } else {
      assert x != y;
      var i :| 0 <= i < |a| && x[i] != y[i];
      assert !Covered(spots, rva + i) && a[i] != b[i];
    }
  }

  lemma SameSpotsCoverTheSame(spots: seq<Spot>, others: seq<Spot>, at: nat)
    requires multiset(spots) == multiset(others) && Covered(spots, at)
    ensures Covered(others, at)
  {
    var i :| 0 <= i < |spots| && Covers(spots[i], at);
    assert spots[i] in multiset(others);
    var j :| 0 <= j < |others| && others[j] == spots[i];
    assert Covers(others[j], at);
  }

  /**
   * The file and the memory of a function give the same hash input exactly when they agree on
   * every byte that no listed relocation covers: loading the image elsewhere is invisible, any
   * other change is not.
   */
  lemma FileAndMemoryAgreeIff(listed: seq<Spot>, fileOrder: seq<Spot>, memoryOrder: seq<Spot>, rva: nat,
                              inFile: seq<Byte>, inMemory: seq<Byte>)
    requires multiset(fileOrder) == multiset(listed) && AllInTime(fileOrder, rva, |inFile|)
    requires multiset(memoryOrder) == multiset(listed) && Ascending(memoryOrder)
    requires |inFile| == |inMemory|
    ensures HashInput(Reached(fileOrder, rva + |inFile|), rva, inFile)
            == HashInput(Reached(memoryOrder, rva + |inFile|), rva, inMemory) <==>
            forall i :: 0 <= i < |inFile| && !Covered(listed, rva + i) ==> inFile[i] == inMemory[i]
  {
    AscendingIsInTime(memoryOrder, rva, |inFile|);
    OrderIsForgotten(listed, fileOrder, rva, inFile);
    OrderIsForgotten(listed, memoryOrder, rva, inMemory);
    SameInputIff(listed, rva, inFile, inMemory);
  }

  lemma OrderIsForgotten(listed: seq<Spot>, order: seq<Spot>, rva: nat, body: seq<Byte>)
    requires multiset(order) == multiset(listed) && AllInTime(order, rva, |body|)
    ensures HashInput(Reached(order, rva + |body|), rva, body) == HashInput(listed, rva, body)
  {
    InTimeMasksAll(order, rva, body);
    SameMask(order, listed, rva, body);
  }

  lemma SameMask(spots: seq<Spot>, others: seq<Spot>, rva: nat, body: seq<Byte>)
    requires multiset(spots) == multiset(others)
    ensures Masked(spots, rva, body) == Masked(others, rva, body)
  {
    forall i | 0 <= i < |body|
      ensures Masked(spots, rva, body)[i] == Masked(others, rva, body)[i]
    {
      if Covered(spots, rva + i) {
        SameSpotsCoverTheSame(spots, others, rva + i);
      }
      if Covered(others, rva + i) {
        SameSpotsCoverTheSame(others, spots, rva + i);
      }
    }
  }

  // ---------- What a relocation directory covers ----------

  /** The entry names a place, and `at` lies in the bytes that the loader may change there. */
  predicate Relocates(page: U32, entry: Entry, at: nat) {
    var start := (page + entry.offset) % 0x1_0000_0000;
    || (entry.kind == 10 && start <= at < start + 8)
    || (entry.kind == 3 && start <= at < start + 4)
    || ((entry.kind == 1 || entry.kind == 2) && start <= at < start + 2)
  }

  predicate SomeRelocates(page: U32, entries: seq<Entry>, at: nat) {
    exists i :: 0 <= i < |entries| && Relocates(page, entries[i], at)
  }

  predicate SomeBlockRelocates(blocks: seq<Block>, at: nat) {
    exists i :: 0 <= i < |blocks| && SomeRelocates(blocks[i].page, blocks[i].entries, at)
  }

  /** The kinds that a directory may list: padding, 64-bit, 32-bit and two of 16 bits. */
  predicate MayBeListed(kind: nat) {
    kind == 0 || kind == 10 || kind == 3 || kind == 1 || kind == 2
  }

  lemma CoveredInConcat(s: seq<Spot>, t: seq<Spot>, at: nat)
    ensures Covered(s + t, at) <==> Covered(s, at) || Covered(t, at)
  {
    if Covered(s, at) {
      var i :| 0 <= i < |s| && Covers(s[i], at);
      assert Covers((s + t)[i], at);
    }
    if Covered(t, at) {
      var i :| 0 <= i < |t| && Covers(t[i], at);
      assert Covers((s + t)[|s| + i], at);
    }
    if Covered(s + t, at) {
      var i :| 0 <= i < |s + t| && Covers((s + t)[i], at);
      assert if i < |s| then Covers(s[i], at) else Covers(t[i - |s|], at);
    }
  }

  lemma OneSpotCovers(spot: Spot, at: nat)
    ensures Covered([spot], at) <==> spot.rva <= at < spot.rva + spot.width
  {
    assert Covered([spot], at) <==> Covers([spot][0], at);
  }

  lemma {:induction false} ListedCover(page: U32, entries: seq<Entry>, at: nat)
    requires KnownKinds(entries)
    ensures Covered(Listed(page, entries), at) <==> SomeRelocates(page, entries, at)
  {
    if entries != [] {
      var e, rest := entries[0], entries[1..];
      ListedCover(page, rest, at);
      assert forall i :: 0 < i < |entries| ==> entries[i] == rest[i - 1];
      assert SomeRelocates(page, entries, at) <==> Relocates(page, e, at) || SomeRelocates(page, rest, at) by {
        FirstRelocates(page, entries, at);
      }
      if e.kind != ABSOLUTE {
        var spot := SpotAt(page, e.offset, Width(e.kind).value);
        CoveredInConcat([spot], Listed(page, rest), at);
        OneSpotCovers(spot, at);
      }
    }
  }

  lemma FirstRelocates(page: U32, entries: seq<Entry>, at: nat)
    requires entries != []
    ensures SomeRelocates(page, entries, at) <==>
            Relocates(page, entries[0], at) || SomeRelocates(page, entries[1..], at)
  {
    assert forall i :: 0 < i < |entries| ==> entries[i] == entries[1..][i - 1];
    assert forall i :: 0 <= i < |entries[1..]| ==> entries[1..][i] == entries[i + 1];
  }

  lemma {:induction false} ListedBlocksCover(blocks: seq<Block>, at: nat)
    requires AllKnown(blocks)
    ensures Covered(ListedIn(blocks), at) <==> SomeBlockRelocates(blocks, at)
  {
    if blocks != [] {
      var rest := blocks[1..];
      assert forall i :: 0 < i < |blocks| ==> blocks[i] == rest[i - 1];
      assert forall i :: 0 <= i < |rest| ==> rest[i] == blocks[i + 1];
      assert AllKnown(rest) && KnownKinds(blocks[0].entries);
      ListedBlocksCover(rest, at);
      ListedCover(blocks[0].page, blocks[0].entries, at);
      CoveredInConcat(Listed(blocks[0].page, blocks[0].entries), ListedIn(rest), at);
    }
  }

  /**
   * A directory is accepted iff it lists nothing but padding and relocations of 8, 4 or 2 bytes, and
   * then a byte is covered iff it is one of that many bytes from the place that one of them names.
   */
  lemma DirectoryCovers(blocks: seq<Block>, tail: seq<Byte>, at: nat)
    requires |tail| < 8 && AllBlocksFit(blocks)
    ensures var spots := Spots(Encode(blocks) + tail);
            && (spots.Some? <==> forall b, i :: 0 <= b < |blocks| && 0 <= i < |blocks[b].entries| ==>
                                   MayBeListed(blocks[b].entries[i].kind))
            && (spots.Some? ==> (Covered(spots.value, at) <==> SomeBlockRelocates(blocks, at)))
  {
    DirectoryIsRead(blocks, tail);
    KnownByName(blocks);
    if AllKnown(blocks) {
      ListedBlocksCover(blocks, at);
    }
  }

  lemma KnownByName(blocks: seq<Block>)
    ensures AllKnown(blocks) <==> forall b, i :: 0 <= b < |blocks| && 0 <= i < |blocks[b].entries| ==>
                                    MayBeListed(blocks[b].entries[i].kind)
  {
    forall b | 0 <= b < |blocks|
      ensures KnownKinds(blocks[b].entries) <==>
              forall i :: 0 <= i < |blocks[b].entries| ==> MayBeListed(blocks[b].entries[i].kind)
    {
    }
  }

  /** Byte by byte: one block for page 0x1000 with a 64-bit relocation at offset 8 and one entry of padding. */
  lemma DirectoryExample(dir: seq<Byte>)
    requires dir == [0x00, 0x10, 0x00, 0x00, 0x0c, 0x00, 0x00, 0x00, 0x08, 0xa0, 0x00, 0x00]
    ensures Spots(dir) == Some([Spot(0x1008, 8)])
  {
    var entries := [0x08 as Byte, 0xa0, 0x00, 0x00];
    assert |dir[8..12]| == 4 && dir[8..12][0] == dir[8] && dir[8..12][1] == dir[9];
    assert dir[8..12][2] == dir[10] && dir[8..12][3] == dir[11];
    assert dir[8..12] == entries && |dir[12..]| == 0;
    assert entries[2..] == [0x00, 0x00] && entries[2..][2..] == [];
    assert SpotsIn(0x1000, entries[2..][2..]) == Some([]);
    assert SpotsIn(0x1000, entries[2..]) == Some([]);
    assert Rd16(entries) == 0xa008;
    BothNothing(Some([SpotAt(0x1000, 8, 8)]));
    assert SpotsIn(0x1000, entries) == Both(Some([SpotAt(0x1000, 8, 8)]), SpotsIn(0x1000, entries[2..]));
    assert SpotsIn(0x1000, entries) == Some([Spot(0x1008, 8)]);
    assert Rd16(dir) == 0x1000 && Rd16(dir[2..]) == 0 && Rd32(dir) == 0x1000;
    var length := dir[4..];
    assert length[0] == 12 && length[1] == 0 && Rd16(length) == 12;
    assert length[2..][0] == 0 && length[2..][1] == 0 && Rd16(length[2..]) == 0;
    assert Rd32(length) == 12;
    assert Spots(dir[12..]) == Some([]);
  }

  /** The label, in ASCII. */
  lemma LabelSpells()
    ensures |LABEL| == |"verthys/runtime-hash-v1"|
    ensures forall i :: 0 <= i < |LABEL| ==> LABEL[i] == "verthys/runtime-hash-v1"[i] as int
  {
  }

  /** A section that does not reach past 32 bits contains its virtual addresses. */
  lemma ContainsItsAddresses(section: Section, rva: U32)
    requires section.va + section.vsize < 0x1_0000_0000
    ensures section.Contains(rva) <==> section.va <= rva < section.va + section.vsize
  {
  }
}
