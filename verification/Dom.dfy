/**
 The element tree a selector is matched against, as an arena.

 An element is an index into `nodes`; the four links of a node are those the
 `Element` trait offers (`parent_element`, `prev_sibling_element`,
 `next_sibling_element`, `first_element_child`).  Indices are document-order
 positions, so the upward and backward links decrease and the other two
 increase: this is the termination measure of every tree walk.  Several
 parentless elements may be siblings, as in a document fragment.
 */
module Dom {
  import opened Wrappers

  /** An interned string (a local name, a namespace URL, an identifier). */
  type Atom = nat

  datatype Node = Node(
    parent: Option<nat>,
    prev: Option<nat>,
    next: Option<nat>,
    firstChild: Option<nat>,
    localName: Atom,
    namespace: Atom,
    id: Option<Atom>,
    classes: set<Atom>,
    // Per attribute in no namespace, the value tests that its value passes.
    attributes: map<Atom, set<nat>>,
    // The non-tree-structural pseudo-classes that hold of the element.
    states: set<nat>,
    htmlInHtmlDocument: bool,
    isRoot: bool,
    isEmpty: bool,
    ignoresNth: bool)

  datatype Document = Document(nodes: seq<Node>)

  predicate NodeLinksOk(d: Document, e: nat)
    requires e < |d.nodes|
  {
    var n := d.nodes[e];
    && (n.parent.Some? ==> n.parent.value < e)
    && (n.prev.Some? ==>
          && n.prev.value < e
          && d.nodes[n.prev.value].next == Some(e)
          && d.nodes[n.prev.value].parent == n.parent)
    && (n.next.Some? ==>
          && e < n.next.value < |d.nodes|
          && d.nodes[n.next.value].prev == Some(e))
    && (n.firstChild.Some? ==>
          && e < n.firstChild.value < |d.nodes|
          && d.nodes[n.firstChild.value].parent == Some(e)
          && d.nodes[n.firstChild.value].prev == None)
    && (n.parent.Some? && n.prev.None? ==> d.nodes[n.parent.value].firstChild == Some(e))
  }

  predicate WellLinked(d: Document) {
    forall e :: 0 <= e < |d.nodes| ==> NodeLinksOk(d, e)
  }

  /** Documents whose links are consistent. */
  type Doc = d: Document | WellLinked(d) witness Document([])

  predicate InDoc(d: Document, e: nat) {
    e < |d.nodes|
  }

  function Parent(d: Doc, e: nat): (r: Option<nat>)
    requires InDoc(d, e)
    ensures r.Some? ==> r.value < e
  {
    assert NodeLinksOk(d, e);
    d.nodes[e].parent
  }

  function Prev(d: Doc, e: nat): (r: Option<nat>)
    requires InDoc(d, e)
    ensures r.Some? ==> r.value < e && d.nodes[r.value].next == Some(e) && d.nodes[r.value].parent == d.nodes[e].parent
  {
    assert NodeLinksOk(d, e);
    d.nodes[e].prev
  }

  function Next(d: Doc, e: nat): (r: Option<nat>)
    requires InDoc(d, e)
    ensures r.Some? ==>
              && e < r.value < |d.nodes|
              && d.nodes[r.value].prev == Some(e)
              && d.nodes[r.value].parent == d.nodes[e].parent
  {
    assert NodeLinksOk(d, e);
    assert d.nodes[e].next.Some? ==> NodeLinksOk(d, d.nodes[e].next.value);
    d.nodes[e].next
  }

  function FirstChild(d: Doc, e: nat): (r: Option<nat>)
    requires InDoc(d, e)
    ensures r.Some? ==> e < r.value < |d.nodes| && d.nodes[r.value].parent == Some(e) && d.nodes[r.value].prev == None
  {
    assert NodeLinksOk(d, e);
    d.nodes[e].firstChild
  }

  /** `a` is an ancestor of `e`. */
  predicate Ancestor(d: Doc, a: nat, e: nat)
    requires InDoc(d, e)
    decreases e
  {
    match Parent(d, e)
    case None => false
    case Some(p) => p == a || Ancestor(d, a, p)
  }

  /** `a` is a sibling of `e` that comes before it. */
  predicate EarlierSibling(d: Doc, a: nat, e: nat)
    requires InDoc(d, e)
    decreases e
  {
    match Prev(d, e)
    case None => false
    case Some(q) => q == a || EarlierSibling(d, a, q)
  }

  /** `f` is `e`, or is reached from it by parent and previous-sibling steps. */
  ghost predicate Reaches(d: Doc, e: nat, f: nat)
    requires InDoc(d, e)
    decreases e
  {
    || e == f
    || (Parent(d, e).Some? && Reaches(d, Parent(d, e).value, f))
    || (Prev(d, e).Some? && Reaches(d, Prev(d, e).value, f))
  }

  lemma {:induction false} AncestorInDoc(d: Doc, a: nat, e: nat)
    requires InDoc(d, e) && Ancestor(d, a, e)
    ensures a < e
    decreases e
  {
    var p := Parent(d, e).value;
    if p != a {
      AncestorInDoc(d, a, p);
    }
  }

  lemma {:induction false} EarlierSiblingInDoc(d: Doc, a: nat, e: nat)
    requires InDoc(d, e) && EarlierSibling(d, a, e)
    ensures a < e && Parent(d, a) == Parent(d, e)
    decreases e
  {
    var q := Prev(d, e).value;
    if q != a {
      EarlierSiblingInDoc(d, a, q);
    }
  }

  lemma {:induction false} ReachesInDoc(d: Doc, e: nat, f: nat)
    requires InDoc(d, e) && Reaches(d, e, f)
    ensures f <= e
    decreases e
  {
    if e != f {
      if Parent(d, e).Some? && Reaches(d, Parent(d, e).value, f) {
        ReachesInDoc(d, Parent(d, e).value, f);
      } else {
        ReachesInDoc(d, Prev(d, e).value, f);
      }
    }
  }

  lemma {:induction false} ReachesTransitive(d: Doc, e: nat, f: nat, g: nat)
    requires InDoc(d, e) && InDoc(d, f) && Reaches(d, e, f) && Reaches(d, f, g)
    ensures Reaches(d, e, g)
    decreases e
  {
    if e != f {
      if Parent(d, e).Some? && Reaches(d, Parent(d, e).value, f) {
        ReachesTransitive(d, Parent(d, e).value, f, g);
      } else {
        ReachesTransitive(d, Prev(d, e).value, f, g);
      }
    }
  }

  lemma {:induction false} AncestorTransitive(d: Doc, a: nat, b: nat, e: nat)
    requires InDoc(d, e) && InDoc(d, b) && Ancestor(d, a, b) && Ancestor(d, b, e)
    ensures Ancestor(d, a, e)
    decreases e
  {
    var p := Parent(d, e).value;
    if p != b {
      AncestorTransitive(d, a, b, p);
    }
  }

  lemma {:induction false} EarlierSiblingTransitive(d: Doc, a: nat, b: nat, e: nat)
    requires InDoc(d, e) && InDoc(d, b) && EarlierSibling(d, a, b) && EarlierSibling(d, b, e)
    ensures EarlierSibling(d, a, e)
    decreases e
  {
    var q := Prev(d, e).value;
    if q != b {
      EarlierSiblingTransitive(d, a, b, q);
    }
  }

  lemma {:induction false} AncestorIsReached(d: Doc, a: nat, e: nat)
    requires InDoc(d, e) && Ancestor(d, a, e)
    ensures Reaches(d, e, a)
    decreases e
  {
    var p := Parent(d, e).value;
    if p != a {
      AncestorIsReached(d, a, p);
    }
  }

  lemma {:induction false} EarlierSiblingIsReached(d: Doc, a: nat, e: nat)
    requires InDoc(d, e) && EarlierSibling(d, a, e)
    ensures Reaches(d, e, a)
    decreases e
  {
    var q := Prev(d, e).value;
    if q != a {
      EarlierSiblingIsReached(d, a, q);
    }
  }

  /** Parent and previous-sibling steps never gain ancestors. */
  lemma {:induction false} ReachedHasFewerAncestors(d: Doc, e: nat, f: nat, a: nat)
    requires InDoc(d, e) && InDoc(d, f) && Reaches(d, e, f) && Ancestor(d, a, f)
    ensures Ancestor(d, a, e)
    decreases e
  {
    if e != f {
      if Parent(d, e).Some? && Reaches(d, Parent(d, e).value, f) {
        ReachedHasFewerAncestors(d, Parent(d, e).value, f, a);
      } else {
        ReachedHasFewerAncestors(d, Prev(d, e).value, f, a);
      }
    }
  }

  /** The parent of an element reached from `e` is reached from the parent of `e`. */
  lemma {:induction false} ReachedParent(d: Doc, e: nat, f: nat)
    requires InDoc(d, e) && InDoc(d, f) && Reaches(d, e, f) && Parent(d, f).Some?
    ensures Parent(d, e).Some? && Reaches(d, Parent(d, e).value, Parent(d, f).value)
    decreases e
  {
    if e != f {
      if Parent(d, e).Some? && Reaches(d, Parent(d, e).value, f) {
        var p := Parent(d, e).value;
        ReachedParent(d, p, f);
        ReachesTransitive(d, p, Parent(d, p).value, Parent(d, f).value);
      } else {
        ReachedParent(d, Prev(d, e).value, f);
      }
    }
  }

  /** An earlier sibling of an element reached from `e` is reached from the previous sibling of `e`. */
  lemma {:induction false} ReachedEarlierSibling(d: Doc, e: nat, f: nat, g: nat)
    requires InDoc(d, e) && InDoc(d, f) && Reaches(d, e, f) && EarlierSibling(d, g, f) && Prev(d, e).Some?
    ensures Reaches(d, Prev(d, e).value, g)
  {
    var q := Prev(d, e).value;
    if e == f {
      if g != q {
        EarlierSiblingIsReached(d, g, q);
      }
    } else {
      // Either the walk starts with the previous sibling, or with the parent both share.
      assert Reaches(d, q, f);
      EarlierSiblingIsReached(d, g, f);
      ReachesTransitive(d, q, f, g);
    }
  }

  // ---------- Downward and forward walks ----------

  /** The children of an element are its first child and the siblings after it. */
  lemma {:induction false} ChildFromFirst(d: Doc, p: nat, c: nat)
    requires InDoc(d, p) && InDoc(d, c)
    ensures Parent(d, c) == Some(p) <==>
            FirstChild(d, p).Some? && (c == FirstChild(d, p).value || EarlierSibling(d, FirstChild(d, p).value, c))
    decreases c
  {
    assert NodeLinksOk(d, c);
    if Prev(d, c).Some? {
      ChildFromFirst(d, p, Prev(d, c).value);
    }
  }

  /** The siblings after an element are its next sibling and those after it. */
  lemma {:induction false} LaterFromNext(d: Doc, e: nat, f: nat)
    requires InDoc(d, e) && InDoc(d, f)
    ensures EarlierSibling(d, e, f) <==>
            Next(d, e).Some? && (f == Next(d, e).value || EarlierSibling(d, Next(d, e).value, f))
    decreases f
  {
    if Prev(d, f).Some? {
      LaterFromNext(d, e, Prev(d, f).value);
    }
  }

  /** The elements a forward walk from `cur` passes and, with `subtree`, all that is below them. */
  ghost predicate Onwards(d: Doc, cur: Option<nat>, subtree: bool, f: nat)
    requires (cur.Some? ==> InDoc(d, cur.value)) && InDoc(d, f)
  {
    && cur.Some?
    && (|| f == cur.value
        || EarlierSibling(d, cur.value, f)
        || (subtree && OnwardsBelow(d, cur, false, f)))
  }

  /** The elements below `cur` or, unless `nextOnly`, below a sibling after it. */
  ghost predicate OnwardsBelow(d: Doc, cur: Option<nat>, nextOnly: bool, f: nat)
    requires (cur.Some? ==> InDoc(d, cur.value)) && InDoc(d, f)
  {
    && cur.Some?
    && exists g ::
      0 <= g < |d.nodes| && (g == cur.value || (!nextOnly && EarlierSibling(d, cur.value, g))) && Ancestor(d, g, f)
  }

  lemma {:induction false} SubtreeFromFirstChild(d: Doc, e: nat, f: nat)
    requires InDoc(d, e) && InDoc(d, f)
    ensures Ancestor(d, e, f) <==> Onwards(d, FirstChild(d, e), true, f)
    decreases f
  {
    if Ancestor(d, e, f) {
      var p := Parent(d, f).value;
      if p == e {
        ChildFromFirst(d, e, f);
      } else {
        SubtreeFromFirstChild(d, e, p);
        if p == FirstChild(d, e).value || EarlierSibling(d, FirstChild(d, e).value, p) {
          assert Ancestor(d, p, f);
        } else {
          var g :| 0 <= g < |d.nodes| &&
                   (g == FirstChild(d, e).value || EarlierSibling(d, FirstChild(d, e).value, g)) && Ancestor(d, g, p);
          assert Ancestor(d, g, f);
        }
      }
    }
    if Onwards(d, FirstChild(d, e), true, f) {
      if f == FirstChild(d, e).value || EarlierSibling(d, FirstChild(d, e).value, f) {
        ChildFromFirst(d, e, f);
      } else {
        var g :| 0 <= g < |d.nodes| &&
                 (g == FirstChild(d, e).value || EarlierSibling(d, FirstChild(d, e).value, g)) && Ancestor(d, g, f);
        ChildFromFirst(d, e, g);
        AncestorTransitive(d, e, g, f);
      }
    }
  }

  /** One step of a forward walk. */
  lemma OnwardsStep(d: Doc, cur: nat, subtree: bool, f: nat)
    requires InDoc(d, cur) && InDoc(d, f)
    ensures Onwards(d, Some(cur), subtree, f) <==>
            || f == cur
            || (subtree && Ancestor(d, cur, f))
            || Onwards(d, Next(d, cur), subtree, f)
  {
    LaterFromNext(d, cur, f);
    forall g | 0 <= g < |d.nodes|
      ensures EarlierSibling(d, cur, g) <==>
              Next(d, cur).Some? && (g == Next(d, cur).value || EarlierSibling(d, Next(d, cur).value, g))
    {
      LaterFromNext(d, cur, g);
    }
  }
}
