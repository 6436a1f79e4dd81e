/**
 * A FlatBuffers vector in memory: the in-place heap sort, the swaps it is built on, and the
 * three searches.
 *
 * Scalars and structs are stored in the cells themselves.  Tables and strings are stored as
 * unsigned 32-bit offsets relative to the cell that holds them, so moving one of them to
 * another cell has to change the number stored.
 */
module FlatbuffersVector {
  import opened Wrappers

  const WORD: int := 0x1_0000_0000

  datatype Kind = Value | UOffset

  /** The element a cell stands for; an offset counts from its own cell, four bytes a cell. */
  function Resolved(kind: Kind, cell: int, i: nat): int {
    match kind
    case Value => cell
    case UOffset => (4 * i + cell) % WORD
  }

  function ViewOf(kind: Kind, cells: seq<int>): (view: seq<int>)
    ensures |view| == |cells|
    ensures forall i :: 0 <= i < |view| ==> view[i] == Resolved(kind, cells[i], i)
  {
    seq(|cells|, i requires 0 <= i < |cells| => Resolved(kind, cells[i], i))
  }

  function Swapped(s: seq<int>, a: nat, b: nat): (r: seq<int>)
    requires a < |s| && b < |s|
    ensures |r| == |s| && r[a] == s[b] && r[b] == s[a]
    ensures forall i :: 0 <= i < |s| && i != a && i != b ==> r[i] == s[i]
    ensures multiset(r) == multiset(s)
  {
    s[a := s[b]][b := s[a]]
  }

  // A cell rewritten to reach, from `to`, what it reached from `from`.
  lemma Rebased(from: nat, to: nat, cell: int, d: int)
    requires d % WORD == (4 * (to - from)) % WORD
    ensures Resolved(UOffset, (cell - d) % WORD, to) == Resolved(UOffset, cell, from)
  {
    var k := (4 * (to - from) - d) / WORD;
    assert 4 * (to - from) - d == k * WORD by {
      SameResidue(4 * (to - from), d);
    }
    var j := (cell - d) / WORD;
    assert 4 * to + (cell - d) % WORD == 4 * from + cell + (k - j) * WORD;
    Residue(4 * from + cell, k - j);
  }

  lemma SameResidue(x: int, y: int)
    requires x % WORD == y % WORD
    ensures x - y == ((x - y) / WORD) * WORD
  {}

  lemma Residue(x: int, k: int)
    ensures (x + k * WORD) % WORD == x % WORD
  {}

  /**
   * The offsets are only known modulo 2^32, but a target that lies past the vector is reached
   * without wrapping around, from whichever cell it is stored in.
   */
  lemma PastTheVectorNothingWraps(cells: seq<int>, i: nat)
    requires i < |cells| && 0 <= cells[i] < WORD
    requires ViewOf(UOffset, cells)[i] >= 4 * |cells|
    ensures 4 * i + cells[i] == ViewOf(UOffset, cells)[i]
  {}

  /** Where the offsets lead, without wrapping around. */
  function AddressesOf(cells: seq<int>): (addresses: seq<int>)
    ensures |addresses| == |cells|
    ensures forall i :: 0 <= i < |cells| ==> addresses[i] == 4 * i + cells[i]
  {
    seq(|cells|, i requires 0 <= i < |cells| => 4 * i + cells[i])
  }

  // Every offset leads past the vector and stays below 2^32.
  predicate LeadPast(cells: seq<int>) {
    forall i :: 0 <= i < |cells| ==> 4 * |cells| <= AddressesOf(cells)[i] < WORD
  }

  lemma AddressesAreResolved(cells: seq<int>)
    requires LeadPast(cells)
    ensures AddressesOf(cells) == ViewOf(UOffset, cells)
  {
  }

  // It stays so when the cells are rewritten to reach the same targets in another order.
  lemma PermutedLeadPast(before: seq<int>, after: seq<int>)
    requires LeadPast(before) && |before| == |after|
    requires forall i :: 0 <= i < |after| ==> 0 <= after[i] < WORD
    requires multiset(ViewOf(UOffset, after)) == multiset(ViewOf(UOffset, before))
    ensures LeadPast(after) && multiset(AddressesOf(after)) == multiset(AddressesOf(before))
  {
    var was, now := ViewOf(UOffset, before), ViewOf(UOffset, after);
    AddressesAreResolved(before);
    forall i | 0 <= i < |after|
      ensures 4 * |after| <= AddressesOf(after)[i] < WORD
    {
      assert now[i] in multiset(was);
      var j :| 0 <= j < |was| && was[j] == now[i];
      PastTheVectorNothingWraps(after, i);
    }
    AddressesAreResolved(after);
  }

  // The comparison the sort is instantiated with, `D(x, y) < 0`.
  type Less = (int, int) -> bool

  // No element is above itself.  Without this the sort need not end.
  ghost predicate Irreflexive(less: Less) {
    forall x :: !less(x, x)
  }

  // `D` compares by a key that is totally ordered.
  ghost predicate TotalPreorder(less: Less) {
    && (forall x, y :: less(x, y) ==> !less(y, x))
    && (forall x, y, z :: less(x, z) ==> less(x, y) || less(y, z))
  }

  lemma NotBelow(less: Less, x: int, y: int, z: int)
    requires TotalPreorder(less) && !less(x, y) && !less(y, z)
    ensures !less(x, z)
  {
  }

  lemma NotBoth(less: Less, x: int, y: int)
    requires TotalPreorder(less) && less(x, y)
    ensures !less(y, x)
  {
  }

  lemma NotBelowItself(less: Less, x: int)
    requires Irreflexive(less)
    ensures !less(x, x)
  {
  }

  // The heap's only child of node 0 is node 1; below that it is the usual binary heap.
  function Above(c: nat): nat
    requires c >= 1
  {
    if c == 1 then 0 else c / 2
  }

  ghost predicate HeapAt(s: seq<int>, less: Less, c: nat)
    requires 1 <= c < |s|
  {
    !less(s[Above(c)], s[c])
  }

  // No node of from..end is below one of its children.
  ghost predicate HeapFrom(s: seq<int>, less: Less, from: nat, end: nat)
    requires end < |s|
  {
    forall c :: 1 <= c <= end && from <= Above(c) ==> HeapAt(s, less, c)
  }

  // A heap except that the value at `hole` may be too small.
  ghost predicate HeapBut(s: seq<int>, less: Less, from: nat, end: nat, hole: nat)
    requires end < |s|
  {
    && (forall c :: 1 <= c <= end && from <= Above(c) && Above(c) != hole ==> HeapAt(s, less, c))
    && (forall c :: 1 <= c <= end && Above(c) == hole && from < hole ==> !less(s[Above(hole)], s[c]))
  }

  ghost predicate Sorted(s: seq<int>, less: Less) {
    forall i, j :: 0 <= i < j < |s| ==> !less(s[j], s[i])
  }

  // A node's larger child, if it exceeds the node, takes its place.
  lemma SwapMovesTheHole(s: seq<int>, less: Less, from: nat, end: nat, hole: nat, child: nat)
    requires TotalPreorder(less) && end < |s| && from <= hole
    requires HeapBut(s, less, from, end, hole)
    requires 1 <= child <= end && Above(child) == hole && less(s[hole], s[child])
    requires forall c :: 1 <= c <= end && Above(c) == hole ==> !less(s[child], s[c])
    ensures HeapBut(Swapped(s, hole, child), less, from, end, child)
  {
  }

  lemma {:induction false} RootIsLargest(s: seq<int>, less: Less, end: nat, i: nat)
    requires TotalPreorder(less) && end < |s| && HeapFrom(s, less, 0, end) && i <= end
    ensures !less(s[0], s[i])
  {
    NotBelowItself(less, s[0]);
    if i > 0 {
      RootIsLargest(s, less, end, Above(i));
      assert HeapAt(s, less, i);
      NotBelow(less, s[0], s[Above(i)], s[i]);
    }
  }

  // What is left to sort is nowhere above what has been placed, and that is in order.
  ghost predicate Placed(s: seq<int>, less: Less, end: nat)
    requires end < |s|
  {
    && (forall i, j :: 0 <= i < j < |s| && end < j ==> !less(s[j], s[i]))
  }

  // Moving the root behind the heap extends the sorted tail by one.
  lemma RootIsPlaced(s: seq<int>, less: Less, end: nat)
    requires TotalPreorder(less) && 0 < end < |s|
    requires HeapFrom(s, less, 0, end) && Placed(s, less, end)
    ensures Placed(Swapped(s, 0, end), less, end - 1)
    ensures HeapFrom(Swapped(s, 0, end), less, 1, end - 1)
  {
    var r := Swapped(s, 0, end);
    forall i, j | 0 <= i < j < |s| && end - 1 < j
      ensures !less(r[j], r[i])
    {
      if j == end {
        RootIsLargest(s, less, end, if i == 0 then end else i);
      }
    }
    forall c | 1 <= c <= end - 1 && 1 <= Above(c)
      ensures HeapAt(r, less, c)
    {
      assert HeapAt(s, less, c);
    }
  }

  // One is the other with the elements up to `end` rearranged.
  ghost predicate SameUpTo(r: seq<int>, s: seq<int>, end: nat)
    requires end < |s|
  {
    |r| == |s| && multiset(r[..end + 1]) == multiset(s[..end + 1]) && r[end + 1..] == s[end + 1..]
  }

  // Sifting inside the heap moves nothing across its end.
  lemma PlacedSurvives(s: seq<int>, r: seq<int>, less: Less, end: nat)
    requires end < |s| && Placed(s, less, end) && SameUpTo(r, s, end)
    ensures Placed(r, less, end)
  {
    forall i, j | 0 <= i < j < |r| && end < j
      ensures !less(r[j], r[i])
    {
      assert r[j] == s[j] by {
        assert r[j] == r[end + 1..][j - end - 1];
        assert s[j] == s[end + 1..][j - end - 1];
      }
      if i > end {
        assert r[i] == r[end + 1..][i - end - 1];
        assert s[i] == s[end + 1..][i - end - 1];
      } else {
        assert r[i] == r[..end + 1][i];
        assert r[i] in multiset(s[..end + 1]);
        var k :| 0 <= k < end + 1 && s[..end + 1][k] == r[i];
        assert s[k] == r[i];
      }
    }
  }

  // One step of a sift, as seen from outside the heap.
  lemma SwapStaysInside(s: seq<int>, a: nat, b: nat, end: nat)
    requires a <= end && b <= end < |s|
    ensures SameUpTo(Swapped(s, a, b), s, end)
  {
  }

  // The child a sift compares the node with.  Node 0 may be chosen as its own child.
  function Chosen(s: seq<int>, less: Less, node: nat, end: nat): (child: nat)
    requires 2 * node <= end < |s|
    ensures child <= end
  {
    if 2 * node < end && less(s[2 * node], s[2 * node + 1]) then 2 * node + 1 else 2 * node
  }

  lemma ChosenIsLargest(s: seq<int>, less: Less, node: nat, end: nat)
    requires TotalPreorder(less) && 2 * node <= end < |s|
    ensures var child := Chosen(s, less, node, end);
            && (less(s[node], s[child]) ==> child >= 1 && Above(child) == node)
            && (forall c :: 1 <= c <= end && Above(c) == node ==> !less(s[child], s[c]))
  {
    NotBelowItself(less, s[node]);
    forall c | 1 <= c <= end && Above(c) == node
      ensures !less(s[Chosen(s, less, node, end)], s[c])
    {
      assert c == 2 * node || c == 2 * node + 1;
      NotBelowItself(less, s[c]);
      if 2 * node < end && less(s[2 * node], s[2 * node + 1]) {
        NotBoth(less, s[2 * node], s[2 * node + 1]);
      }
    }
  }

  lemma SiftStep(s: seq<int>, less: Less, from: nat, end: nat, hole: nat)
    requires TotalPreorder(less) && 2 * hole <= end < |s| && from <= hole
    requires HeapBut(s, less, from, end, hole)
    requires less(s[hole], s[Chosen(s, less, hole, end)])
    ensures var child := Chosen(s, less, hole, end);
            HeapBut(Swapped(s, hole, child), less, from, end, child)
  {
    ChosenIsLargest(s, less, hole, end);
    SwapMovesTheHole(s, less, from, end, hole, Chosen(s, less, hole, end));
  }

  // An element above itself at node 0, which is its own child there, is exchanged with itself forever.
  lemma SelfChildNeverEnds(s: seq<int>, less: Less, end: nat)
    requires end < |s| && less(s[0], s[0]) && (end > 0 ==> !less(s[0], s[1]))
    ensures var child := Chosen(s, less, 0, end);
            child == 0 && less(s[0], s[child]) && Swapped(s, 0, child) == s
  {
  }

  // A node that no child exceeds fills the hole.
  lemma NothingToMove(s: seq<int>, less: Less, from: nat, end: nat, hole: nat)
    requires TotalPreorder(less) && 2 * hole <= end < |s| && from <= hole
    requires HeapBut(s, less, from, end, hole)
    requires !less(s[hole], s[Chosen(s, less, hole, end)])
    ensures HeapFrom(s, less, from, end)
  {
    ChosenIsLargest(s, less, hole, end);
    forall c | 1 <= c <= end && from <= Above(c)
      ensures HeapAt(s, less, c)
    {
      if Above(c) == hole {
        NotBelow(less, s[hole], s[Chosen(s, less, hole, end)], s[c]);
      }
    }
  }

  lemma NegatedResidue(d: int)
    ensures (-(d % WORD)) % WORD == (-d) % WORD
  {
  }

  // What was rearranged up to `end` and kept after it was rearranged as a whole.
  lemma Whole(s: seq<int>, r: seq<int>, end: nat)
    requires end < |s| && SameUpTo(r, s, end)
    ensures multiset(s) == multiset(r)
  {
    assert s == s[..end + 1] + s[end + 1..] && r == r[..end + 1] + r[end + 1..];
  }

  // The comparison a search is instantiated with, `D(element, K, Kn)`: negative, zero or positive.
  type Probe = int -> int

  // The vector is sorted as the probe sees it: below the key, then at it, then above it.
  ghost predicate Ascending(view: seq<int>, probe: Probe) {
    forall i, j :: 0 <= i < j < |view| ==>
      && (probe(view[i]) >= 0 ==> probe(view[j]) >= 0)
      && (probe(view[i]) > 0 ==> probe(view[j]) > 0)
  }

  // The probe looks at the key the vector was sorted by.
  ghost predicate Follows(less: Less, probe: Probe) {
    forall x, y :: !less(y, x) ==>
      && (probe(x) >= 0 ==> probe(y) >= 0)
      && (probe(x) > 0 ==> probe(y) > 0)
  }

  ghost predicate NoMatch(view: seq<int>, probe: Probe, begin: nat, end: nat)
    requires end <= |view|
  {
    forall i :: begin <= i < end ==> probe(view[i]) != 0
  }

  ghost predicate LowestMatch(view: seq<int>, probe: Probe, begin: nat, end: nat, r: Option<nat>)
    requires end <= |view|
  {
    match r
    case None => NoMatch(view, probe, begin, end)
    case Some(k) => begin <= k < end && probe(view[k]) == 0 && NoMatch(view, probe, begin, k)
  }

  ghost predicate HighestMatch(view: seq<int>, probe: Probe, begin: nat, end: nat, r: Option<nat>)
    requires end <= |view|
  {
    match r
    case None => NoMatch(view, probe, begin, end)
    case Some(k) => begin <= k < end && probe(view[k]) == 0 && NoMatch(view, probe, k + 1, end)
  }

  // So on a sorted vector the binary search answers exactly what the linear scan does.
  lemma LowestMatchIsUnique(view: seq<int>, probe: Probe, begin: nat, end: nat, r: Option<nat>,
                            q: Option<nat>)
    requires end <= |view|
    requires LowestMatch(view, probe, begin, end, r) && LowestMatch(view, probe, begin, end, q)
    ensures r == q
  {
  }

  lemma Followed(less: Less, probe: Probe, x: int, y: int)
    requires Follows(less, probe) && !less(y, x)
    ensures (probe(x) >= 0 ==> probe(y) >= 0) && (probe(x) > 0 ==> probe(y) > 0)
  {
  }

  lemma SortedIsAscending(view: seq<int>, less: Less, probe: Probe)
    requires Sorted(view, less) && Follows(less, probe)
    ensures Ascending(view, probe)
  {
    forall i, j | 0 <= i < j < |view|
      ensures probe(view[i]) >= 0 ==> probe(view[j]) >= 0
      ensures probe(view[i]) > 0 ==> probe(view[j]) > 0
    {
      Followed(less, probe, view[i], view[j]);
    }
  }

  // In a sorted vector the matches are consecutive, so the two scans find their ends.
  lemma MatchesAreConsecutive(view: seq<int>, probe: Probe, low: nat, high: nat)
    requires Ascending(view, probe)
    requires LowestMatch(view, probe, 0, |view|, Some(low))
    requires HighestMatch(view, probe, 0, |view|, Some(high))
    ensures forall i :: 0 <= i < |view| ==> (probe(view[i]) == 0 <==> low <= i <= high)
  {
  }

  class Vector {
    const kind: Kind
    const cells: array<int>
    const less: Less

    constructor (kind: Kind, cells: array<int>, less: Less)
      ensures this.kind == kind && this.cells == cells && this.less == less
    {
      this.kind := kind;
      this.cells := cells;
      this.less := less;
    }

    ghost predicate Valid()
      reads this, cells
    {
      kind == UOffset ==> forall i :: 0 <= i < cells.Length ==> 0 <= cells[i] < WORD
    }

    /** The elements, in order. */
    ghost function View(): (view: seq<int>)
      reads this, cells
    {
      ViewOf(kind, cells[..])
    }

    function At(i: nat): (element: int)
      requires i < cells.Length
      reads this, cells
      ensures element == View()[i]
    {
      Resolved(kind, cells[i], i)
    }

    /** Exchanges two elements; two offsets are rebased to the cells they move to. */
    method Swap(a: nat, b: nat)
      requires Valid() && a < cells.Length && b < cells.Length
      modifies cells
      ensures Valid() && View() == Swapped(old(View()), a, b)
    {
      if kind == Value {
        var x := cells[b];
        cells[b] := cells[a];
        cells[a] := x;
      } else {
        var d := ((a - b) * 4) % WORD;
        var ta := (cells[b] - d) % WORD;
        var tb := (cells[a] + d) % WORD;
        Rebased(b, a, cells[b], d);
        NegatedResidue((a - b) * 4);
        Rebased(a, b, cells[a], -d);
        cells[a] := ta;
        cells[b] := tb;
      }
      assert View() == Swapped(old(View()), a, b);
    }

    method SiftDown(start: nat, end: nat)
      requires Valid() && Irreflexive(less) && start <= end < cells.Length
      modifies cells
      ensures Valid()
      ensures SameUpTo(View(), old(View()), end)
      ensures TotalPreorder(less) && HeapFrom(old(View()), less, start + 1, end)
              ==> HeapFrom(View(), less, start, end)
    {
      ghost var was := View();
      ghost var ordered := TotalPreorder(less) && HeapFrom(was, less, start + 1, end);
      var root := start;
      while 2 * root <= end
        invariant start <= root <= end && Valid()
        invariant SameUpTo(View(), was, end)
        invariant ordered ==> HeapBut(View(), less, start, end, root)
        decreases end - root
      {
        var child := 2 * root;
        if child < end {
          if less(At(child), At(child + 1)) {
            child := child + 1;
          }
        }
        ghost var before := View();
        assert child == Chosen(before, less, root, end);
        if less(At(root), At(child)) {
          SwapStaysInside(before, root, child, end);
          if ordered {
            SiftStep(before, less, start, end, root);
          }
          Swap(root, child);
          root := child;
        } else {
          if ordered {
            NothingToMove(before, less, start, end, root);
          }
          return;
        }
      }
      assert ordered ==> HeapFrom(View(), less, start, end);
    }

    /**
     * Sorts in place.  With any comparison that puts no element above itself, the elements are
     * permuted, and so are the addresses that offsets lead to; when it orders the elements by a
     * totally ordered key, they end up in order.
     */
    method HeapSort()
      requires Valid() && Irreflexive(less)
      modifies cells
      ensures Valid()
      ensures multiset(View()) == multiset(old(View()))
      ensures TotalPreorder(less) ==> Sorted(View(), less)
      ensures kind == UOffset && LeadPast(old(cells[..])) ==>
                && LeadPast(cells[..]) && multiset(AddressesOf(cells[..])) == multiset(AddressesOf(old(cells[..])))
                && (TotalPreorder(less) ==> Sorted(AddressesOf(cells[..]), less))
    {
      SortView();
      if kind == UOffset && LeadPast(old(cells[..])) {
        PermutedLeadPast(old(cells[..]), cells[..]);
        AddressesAreResolved(cells[..]);
      }
    }

    method SortView()
      requires Valid() && Irreflexive(less)
      modifies cells
      ensures Valid()
      ensures multiset(View()) == multiset(old(View()))
      ensures TotalPreorder(less) ==> Sorted(View(), less)
    {
      var size := cells.Length;
      if size == 0 {
        return;
      }
      var end: nat := size - 1;
      var start: nat := size / 2;
      ghost var was := View();
      ghost var ordered := TotalPreorder(less);
      while true
        invariant start <= end && Valid() && multiset(View()) == multiset(was)
        invariant ordered ==> HeapFrom(View(), less, start + 1, end)
        decreases start
      {
        ghost var before := View();
        SiftDown(start, end);
        Whole(before, View(), end);
        if start == 0 {
          break;
        }
        start := start - 1;
      }
      while end > 0
        invariant end < size && Valid() && multiset(View()) == multiset(was)
        invariant ordered ==> HeapFrom(View(), less, 0, end) && Placed(View(), less, end)
      {
        if ordered {
          RootIsPlaced(View(), less, end);
        }
        Swap(0, end);
        end := end - 1;
        ghost var before := View();
        SiftDown(0, end);
        Whole(before, View(), end);
        if ordered {
          PlacedSurvives(before, View(), less, end);
        }
      }
    }

    /** Binary search: any answer is a match; on a sorted vector it is the lowest one. */
    method FindByField(probe: Probe) returns (r: Option<nat>)
      ensures r.Some? ==> r.value < cells.Length && probe(View()[r.value]) == 0
      ensures Ascending(View(), probe) ==> LowestMatch(View(), probe, 0, cells.Length, r)
    {
      var a: nat, b: nat := 0, cells.Length;
      if b == 0 {
        return None;
      }
      b := b - 1;
      while a < b
        invariant a <= b < cells.Length
        invariant forall i :: 0 <= i < a && Ascending(View(), probe) ==> probe(View()[i]) < 0
        invariant forall i :: b < i < cells.Length && Ascending(View(), probe) ==>
                    probe(View()[b]) >= 0 && probe(View()[i]) >= 0
      {
        var m: nat := a + (b - a) / 2;
        if probe(At(m)) < 0 {
          a := m + 1;
        } else {
          b := m;
        }
      }
      if a == b {
        if probe(At(a)) == 0 {
          return Some(a);
        }
      }
      return None;
    }

    /** First match from `begin` on. */
    method ScanByField(begin: nat, end: nat, probe: Probe) returns (r: Option<nat>)
      requires end <= cells.Length
      ensures LowestMatch(View(), probe, begin, end, r)
    {
      var i := begin;
      while i < end
        invariant begin <= i && (begin <= end ==> i <= end)
        invariant i <= cells.Length ==> NoMatch(View(), probe, begin, i)
      {
        if probe(At(i)) == 0 {
          return Some(i);
        }
        i := i + 1;
      }
      return None;
    }

    /** Last match before `end`. */
    method RScanByField(begin: nat, end: nat, probe: Probe) returns (r: Option<nat>)
      requires end <= cells.Length
      ensures HighestMatch(View(), probe, begin, end, r)
    {
      var i: nat := end;
      while i > begin
        invariant i <= end
        invariant NoMatch(View(), probe, i, end)
      {
        i := i - 1;
        if probe(At(i)) == 0 {
          return Some(i);
        }
      }
      return None;
    }

    /** The searches with explicit bounds cut the range at the vector's length. */
    method ScanExByField(begin: nat, end: nat, probe: Probe) returns (r: Option<nat>)
      ensures LowestMatch(View(), probe, begin, if end < cells.Length then end else cells.Length, r)
    {
      r := ScanByField(begin, if end < cells.Length then end else cells.Length, probe);
    }

    method RScanExByField(begin: nat, end: nat, probe: Probe) returns (r: Option<nat>)
      ensures HighestMatch(View(), probe, begin, if end < cells.Length then end else cells.Length, r)
    {
      r := RScanByField(begin, if end < cells.Length then end else cells.Length, probe);
    }
  }
}
