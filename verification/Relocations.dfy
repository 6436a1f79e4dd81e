/**
 * The base-relocation directory of a PE image: a run of blocks, each naming a page and the
 * places in it that the loader adjusts.  The build tool reads it from the file and the
 * running program from its own memory.
 */
module Relocations {
  import opened Wrappers
  import opened Bytes

  /** Bytes the loader may change: `width` of them from `rva` on. */
  datatype Spot = Spot(rva: U32, width: nat)

  const ABSOLUTE: nat := 0
  const HIGH: nat := 1
  const LOW: nat := 2
  const HIGHLOW: nat := 3
  const DIR64: nat := 10

  function Width(kind: nat): Option<nat> {
    if kind == DIR64 then Some(8)
    else if kind == HIGHLOW then Some(4)
    else if kind == HIGH || kind == LOW then Some(2)
    else None
  }

  function SpotAt(page: U32, offset: nat, width: nat): Spot {
    Spot((page + offset) % 0x1_0000_0000, width)
  }

  // What the two halves of a directory give together; a malformed half spoils it.
  function Both(s: Option<seq<Spot>>, t: Option<seq<Spot>>): Option<seq<Spot>> {
    if s.Some? && t.Some? then Some(s.value + t.value) else None
  }

  lemma BothNothing(s: Option<seq<Spot>>)
    ensures Both(Some([]), s) == s && Both(s, Some([])) == s
  {
    if s.Some? {
      assert [] + s.value == s.value && s.value + [] == s.value;
    }
  }

  // The spots of the two-byte entries in `s`; a last odd byte is not looked at.
  function SpotsIn(page: U32, s: seq<Byte>): Option<seq<Spot>> {
    if |s| < 2 then
      Some([])
    else
      var e := Rd16(s);
      if e / 0x1000 == ABSOLUTE then
        SpotsIn(page, s[2..])
      else match Width(e / 0x1000)
        case None => None
        case Some(width) => Both(Some([SpotAt(page, e % 0x1000, width)]), SpotsIn(page, s[2..]))
  }

  /** The spots of a directory in the order they are listed, or None if it is malformed. */
  function Spots(dir: seq<Byte>): Option<seq<Spot>>
    decreases |dir|
  {
    if |dir| < 8 then
      Some([])
    else
      var size := Rd32(dir[4..]);
      if size < 8 || size > |dir| then
        None
      else
        Both(SpotsIn(Rd32(dir), dir[8..size]), Spots(dir[size..]))
  }

  // One entry of the region from..to.
  lemma NextEntry(bytes: seq<Byte>, page: U32, from: nat, to: nat)
    requires from + 2 <= to <= |bytes|
    ensures var e, rest := Rd16(bytes[from..]), SpotsIn(page, bytes[from + 2..to]);
            SpotsIn(page, bytes[from..to])
            == if e / 0x1000 == ABSOLUTE then rest
               else if Width(e / 0x1000) == None then None
               else Both(Some([SpotAt(page, e % 0x1000, Width(e / 0x1000).value)]), rest)
  {
  }

  // One block of the region from..to.
  lemma NextBlock(bytes: seq<Byte>, from: nat, to: nat)
    requires from + 8 <= to <= |bytes|
    ensures var page, size := Rd32(bytes[from..]), Rd32(bytes[from + 4..]);
            Spots(bytes[from..to])
            == if size < 8 || from + size > to then None
               else Both(SpotsIn(page, bytes[from + 8..from + size]), Spots(bytes[from + size..to]))
  {
    var dir := bytes[from..to];
    var size := Rd32(bytes[from + 4..]);
    assert Rd32(bytes[from..]) == Rd32(dir) && size == Rd32(dir[4..]);
    if 8 <= size && from + size <= to {
      SliceOfSlice(bytes, from, to, 8, size);
      SliceOfSlice(bytes, from, to, size, to - from);
    }
  }

  lemma SliceOfSlice(s: seq<Byte>, from: nat, to: nat, low: nat, high: nat)
    requires from <= to <= |s| && low <= high <= to - from
    ensures s[from..to][low..high] == s[from + low..from + high]
    ensures high == to - from ==> s[from..to][low..] == s[from + low..to]
  {
    var a, b := s[from..to][low..high], s[from + low..from + high];
    assert |a| == |b|;
    forall i | 0 <= i < |a|
      ensures a[i] == b[i]
    {
    }
  }

  lemma BothAssociates(s: Option<seq<Spot>>, t: Option<seq<Spot>>, u: Option<seq<Spot>>)
    ensures Both(Both(s, t), u) == Both(s, Both(t, u))
  {
    if s.Some? && t.Some? && u.Some? {
      assert (s.value + t.value) + u.value == s.value + (t.value + u.value);
    }
  }

  // What has been found, with what the rest of a region still yields.
  ghost function FoundWith(found: seq<Spot>, rest: Option<seq<Spot>>): Option<seq<Spot>> {
    Both(Some(found), rest)
  }

  lemma FoundMore(found: seq<Spot>, more: seq<Spot>, rest: Option<seq<Spot>>)
    ensures FoundWith(found, Both(Some(more), rest)) == FoundWith(found + more, rest)
    ensures FoundWith([], rest) == rest && FoundWith(found, Some([])) == Some(found)
    ensures FoundWith(found, None) == None
  {
    BothAssociates(Some(found), Some(more), rest);
    BothNothing(rest);
    BothNothing(Some(found));
  }

  /** Adds the spots of the block at p..p+size to those found. */
  method CollectBlockSpots(bytes: seq<Byte>, p: nat, size: nat, page: U32, before: seq<Spot>)
    returns (spots: Option<seq<Spot>>)
    requires 8 <= size && p + size <= |bytes|
    ensures spots == FoundWith(before, SpotsIn(page, bytes[p + 8..p + size]))
  {
    var off: nat := 8;
    var found := before;
    while off + 2 <= size
      invariant 8 <= off <= size
      invariant FoundWith(before, SpotsIn(page, bytes[p + 8..p + size]))
             == FoundWith(found, SpotsIn(page, bytes[p + off..p + size]))
    {
      var e := Rd16(bytes[p + off..]);
      NextEntry(bytes, page, p + off, p + size);
      off := off + 2;
      if e / 0x1000 == ABSOLUTE {
        continue;
      }
      var width := Width(e / 0x1000);
      FoundMore(found, [], None);
      if width == None {
        return None;
      }
      var spot := SpotAt(page, e % 0x1000, width.value);
      FoundMore(found, [spot], SpotsIn(page, bytes[p + off..p + size]));
      found := found + [spot];
    }
    FoundMore(found, [], None);
    return Some(found);
  }

  /** Walks the directory at at..at+size of the file. */
  method CollectFileSpots(bytes: seq<Byte>, at: nat, size: nat) returns (spots: Option<seq<Spot>>)
    requires at != 0 ==> at + size <= |bytes|
    ensures at == 0 ==> spots == Some([])
    ensures at != 0 ==> spots == Spots(bytes[at..at + size])
  {
    if at == 0 || size == 0 {
      return Some([]);
    }
    var p: nat, pend: nat := at, at + size;
    var found: seq<Spot> := [];
    ghost var goal := Spots(bytes[p..pend]);
    FoundMore([], [], goal);
    while p + 8 <= pend
      invariant at <= p <= pend
      invariant goal == FoundFrom(bytes, p, pend, found)
      decreases pend - p
    {
      var page := Rd32(bytes[p..]);
      var block := Rd32(bytes[p + 4..]);
      FoundInBlock(bytes, p, pend, found);
      if block < 8 || p + block > pend {
        return None;
      }
      var more := CollectBlockSpots(bytes, p, block, page, found);
      if more == None {
        return None;
      }
      found := more.value;
      p := p + block;
    }
    FoundMore(found, [], None);
    return Some(found);
  }

  // What the directory gives in all, when `found` has been found before `from`.
  ghost function FoundFrom(bytes: seq<Byte>, from: nat, to: nat, found: seq<Spot>): Option<seq<Spot>>
    requires from <= to <= |bytes|
  {
    FoundWith(found, Spots(bytes[from..to]))
  }

  // What has been found, with what the next block and those behind it still yield.
  lemma FoundInBlock(bytes: seq<Byte>, from: nat, to: nat, found: seq<Spot>)
    requires from + 8 <= to <= |bytes|
    ensures var page, size := Rd32(bytes[from..]), Rd32(bytes[from + 4..]);
            if size < 8 || from + size > to then
              FoundFrom(bytes, from, to, found) == None
            else
              var more := FoundWith(found, SpotsIn(page, bytes[from + 8..from + size]));
              FoundFrom(bytes, from, to, found)
              == if more == None then None else FoundFrom(bytes, from + size, to, more.value)
  {
    NextBlock(bytes, from, to);
    var page, size := Rd32(bytes[from..]), Rd32(bytes[from + 4..]);
    if 8 <= size && from + size <= to {
      BothAssociates(Some(found), SpotsIn(page, bytes[from + 8..from + size]), Spots(bytes[from + size..to]));
    }
  }

  /** An entry of a block: what kind of place, and where in the page. */
  datatype Entry = Entry(kind: nat, offset: nat) {
    predicate Fits() {
      kind < 0x10 && offset < 0x1000
    }
  }

  /** A block as a linker lays it out; its length may be odd. */
  datatype Block = Block(page: U32, entries: seq<Entry>, pad: seq<Byte>) {
    ghost predicate Fits() {
      && (forall i :: 0 <= i < |entries| ==> entries[i].Fits())
      && |pad| <= 1
      && 8 + 2 * |entries| + |pad| < 0x1_0000_0000
    }
  }

  ghost predicate AllFit(entries: seq<Entry>) {
    forall i :: 0 <= i < |entries| ==> entries[i].Fits()
  }

  function EncodeEntries(entries: seq<Entry>): (s: seq<Byte>)
    requires AllFit(entries)
    ensures |s| == 2 * |entries|
  {
    if entries == [] then []
    else Le16(entries[0].kind * 0x1000 + entries[0].offset) + EncodeEntries(entries[1..])
  }

  function EncodeBlock(block: Block): seq<Byte>
    requires block.Fits()
  {
    Le32(block.page) + Le32(8 + 2 * |block.entries| + |block.pad|)
    + EncodeEntries(block.entries) + block.pad
  }

  function Encode(blocks: seq<Block>): seq<Byte>
    requires AllBlocksFit(blocks)
  {
    if blocks == [] then [] else EncodeBlock(blocks[0]) + Encode(blocks[1..])
  }

  /** The places the listed entries name: all but the padding entries, in order. */
  function Listed(page: U32, entries: seq<Entry>): seq<Spot>
    requires KnownKinds(entries)
  {
    if entries == [] then
      []
    else if entries[0].kind == ABSOLUTE then
      Listed(page, entries[1..])
    else
      [SpotAt(page, entries[0].offset, Width(entries[0].kind).value)] + Listed(page, entries[1..])
  }

  ghost predicate KnownKinds(entries: seq<Entry>) {
    forall i :: 0 <= i < |entries| ==> entries[i].kind == ABSOLUTE || Width(entries[i].kind).Some?
  }

  ghost predicate AllBlocksFit(blocks: seq<Block>) {
    forall i :: 0 <= i < |blocks| ==> blocks[i].Fits()
  }

  ghost predicate AllKnown(blocks: seq<Block>) {
    forall i :: 0 <= i < |blocks| ==> KnownKinds(blocks[i].entries)
  }

  function ListedIn(blocks: seq<Block>): seq<Spot>
    requires AllKnown(blocks)
  {
    if blocks == [] then [] else Listed(blocks[0].page, blocks[0].entries) + ListedIn(blocks[1..])
  }

  lemma {:induction false} EntriesAreRead(page: U32, entries: seq<Entry>, pad: seq<Byte>)
    requires AllFit(entries) && |pad| <= 1
    ensures SpotsIn(page, EncodeEntries(entries) + pad)
         == if KnownKinds(entries) then Some(Listed(page, entries)) else None
  {
    if entries != [] {
      var e, rest := entries[0], entries[1..];
      var s := EncodeEntries(rest) + pad;
      EntriesAreRead(page, rest, pad);
      assert EncodeEntries(entries) + pad == Le16(e.kind * 0x1000 + e.offset) + s;
      Read16(e.kind * 0x1000 + e.offset, s);
      assert (Le16(e.kind * 0x1000 + e.offset) + s)[2..] == s;
      assert entries == [e] + rest;
      assert KnownKinds(entries) <==> (e.kind == ABSOLUTE || Width(e.kind).Some?) && KnownKinds(rest) by {
        assert forall i :: 0 <= i < |rest| ==> rest[i] == entries[i + 1];
      }
    }
  }

  /** A directory is read back as exactly the entries it lists that are not padding, unless one
      of them is of an unknown kind; what is too short to be another block is ignored. */
  lemma {:induction false} DirectoryIsRead(blocks: seq<Block>, tail: seq<Byte>)
    requires |tail| < 8 && AllBlocksFit(blocks)
    ensures Spots(Encode(blocks) + tail) == if AllKnown(blocks) then Some(ListedIn(blocks)) else None
  {
    if blocks == [] {
      assert Encode(blocks) + tail == tail;
    } else {
      DirectoryIsRead(blocks[1..], tail);
      DirectoryStep(blocks, tail);
      KnownBlocks(blocks);
    }
  }

  lemma DirectoryStep(blocks: seq<Block>, tail: seq<Byte>)
    requires blocks != [] && AllBlocksFit(blocks)
    ensures Spots(Encode(blocks) + tail)
         == Both(if KnownKinds(blocks[0].entries) then Some(Listed(blocks[0].page, blocks[0].entries))
                 else None, Spots(Encode(blocks[1..]) + tail))
  {
    BlockIsRead(blocks[0], Encode(blocks[1..]) + tail);
    assert Encode(blocks) + tail == EncodeBlock(blocks[0]) + (Encode(blocks[1..]) + tail);
  }

  lemma KnownBlocks(blocks: seq<Block>)
    requires blocks != []
    ensures AllKnown(blocks) <==> KnownKinds(blocks[0].entries) && AllKnown(blocks[1..])
  {
  }

  lemma BlockLayout(block: Block, rest: seq<Byte>)
    requires block.Fits()
    ensures var dir, size := EncodeBlock(block) + rest, 8 + 2 * |block.entries| + |block.pad|;
            && |dir| == size + |rest| && Rd32(dir) == block.page && Rd32(dir[4..]) == size
            && dir[8..size] == EncodeEntries(block.entries) + block.pad && dir[size..] == rest
  {
  }

  lemma BlockIsRead(block: Block, rest: seq<Byte>)
    requires block.Fits()
    ensures Spots(EncodeBlock(block) + rest)
         == Both(if KnownKinds(block.entries) then Some(Listed(block.page, block.entries)) else None,
                 Spots(rest))
  {
    BlockLayout(block, rest);
    EntriesAreRead(block.page, block.entries, block.pad);
  }

  // The other direction: whatever is accepted is such a directory.
  lemma {:induction false} EntriesAreWritten(page: U32, s: seq<Byte>) returns (entries: seq<Entry>, pad: seq<Byte>)
    requires SpotsIn(page, s).Some?
    ensures AllFit(entries) && |pad| <= 1 && s == EncodeEntries(entries) + pad && KnownKinds(entries)
  {
    if |s| < 2 {
      entries, pad := [], s;
    } else {
      var e := Rd16(s);
      var more;
      more, pad := EntriesAreWritten(page, s[2..]);
      var first := Entry(e / 0x1000, e % 0x1000);
      entries := [first] + more;
      Written16(s);
      assert entries[1..] == more;
      assert first.kind * 0x1000 + first.offset == e;
      assert s == s[..2] + s[2..];
    }
  }

  lemma {:induction false} AcceptedDirectoryIsWritten(dir: seq<Byte>) returns (blocks: seq<Block>, tail: seq<Byte>)
    requires Spots(dir).Some?
    ensures AllBlocksFit(blocks) && AllKnown(blocks)
    ensures |tail| < 8 && dir == Encode(blocks) + tail
    decreases |dir|
  {
    if |dir| < 8 {
      blocks, tail := [], dir;
    } else {
      var size := Rd32(dir[4..]);
      var block := BlockIsWritten(dir, size);
      var more;
      more, tail := AcceptedDirectoryIsWritten(dir[size..]);
      blocks := [block] + more;
      BlockInFront(block, more);
      InFront(dir, size, EncodeBlock(block), Encode(more), tail);
    }
  }

  lemma InFront(dir: seq<Byte>, size: nat, block: seq<Byte>, more: seq<Byte>, tail: seq<Byte>)
    requires size <= |dir| && dir[..size] == block && dir[size..] == more + tail
    ensures dir == (block + more) + tail
  {
    assert dir == dir[..size] + dir[size..];
  }

  lemma BlockInFront(block: Block, more: seq<Block>)
    requires block.Fits() && KnownKinds(block.entries) && AllBlocksFit(more) && AllKnown(more)
    ensures var blocks := [block] + more;
            AllBlocksFit(blocks) && AllKnown(blocks) && Encode(blocks) == EncodeBlock(block) + Encode(more)
  {
  }

  lemma BlockIsWritten(dir: seq<Byte>, size: nat) returns (block: Block)
    requires 8 <= size <= |dir| && size == Rd32(dir[4..])
    requires SpotsIn(Rd32(dir), dir[8..size]).Some?
    ensures block.Fits() && KnownKinds(block.entries) && EncodeBlock(block) == dir[..size]
  {
    var entries, pad := EntriesAreWritten(Rd32(dir), dir[8..size]);
    block := Block(Rd32(dir), entries, pad);
    assert 8 + 2 * |entries| + |pad| == size;
    Written32(dir);
    Written32(dir[4..]);
    assert dir[..size] == dir[..4] + dir[4..][..4] + dir[8..size];
  }
}
