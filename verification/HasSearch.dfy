/** The `:has()` search visits exactly the region that the hint stands for. */
module HasSearch {
  import opened Wrappers
  import opened Dom
  import opened Syntax
  import opened Matching
  import opened RelativeHint

  ghost predicate Hit(ctx: Ctx, s: seq<Component>, f: nat)
    requires InDoc(ctx.doc, f)
  {
    Complex(ctx, s, f).ToKleene().ToBool(true)
  }

  lemma {:induction false} ChildrenSearchIsExact(ctx: Ctx, s: seq<Component>, subtree: bool, cur: Option<nat>)
    requires cur.Some? ==> InDoc(ctx.doc, cur.value)
    ensures InChildren(ctx, s, subtree, cur) <==>
            exists f :: 0 <= f < |ctx.doc.nodes| && Onwards(ctx.doc, cur, subtree, f) && Hit(ctx, s, f)
    decreases |ctx.doc.nodes| - cur.GetOr(|ctx.doc.nodes|)
  {
    var d := ctx.doc;
    if cur.Some? {
      var el := cur.value;
      ChildrenSearchIsExact(ctx, s, subtree, Next(d, el));
      if subtree {
        ChildrenSearchIsExact(ctx, s, true, FirstChild(d, el));
      }
      forall f | 0 <= f < |d.nodes|
        ensures Onwards(d, cur, subtree, f) <==>
                f == el || (subtree && Onwards(d, FirstChild(d, el), true, f)) || Onwards(d, Next(d, el), subtree, f)
      {
        OnwardsStep(d, el, subtree, f);
        SubtreeFromFirstChild(d, el, f);
      }
      assert InChildren(ctx, s, subtree, cur) <==>
             || Hit(ctx, s, el)
             || (subtree && InChildren(ctx, s, true, FirstChild(d, el)))
             || InChildren(ctx, s, subtree, Next(d, el));
    }
  }

  ghost predicate OnwardsAt(d: Doc, cur: Option<nat>, nextOnly: bool, f: nat)
    requires (cur.Some? ==> InDoc(d, cur.value)) && InDoc(d, f)
  {
    cur.Some? && (f == cur.value || (!nextOnly && EarlierSibling(d, cur.value, f)))
  }

  ghost predicate SiblingRegion(d: Doc, subtree: bool, nextOnly: bool, cur: Option<nat>, f: nat)
    requires (cur.Some? ==> InDoc(d, cur.value)) && InDoc(d, f)
  {
    if subtree then OnwardsBelow(d, cur, nextOnly, f) else OnwardsAt(d, cur, nextOnly, f)
  }

  lemma SiblingRegionStep(d: Doc, subtree: bool, nextOnly: bool, el: nat, f: nat)
    requires InDoc(d, el) && InDoc(d, f)
    ensures SiblingRegion(d, subtree, nextOnly, Some(el), f) <==>
            || (if subtree then Ancestor(d, el, f) else f == el)
            || (!nextOnly && SiblingRegion(d, subtree, nextOnly, Next(d, el), f))
  {
    LaterFromNext(d, el, f);
    forall g | 0 <= g < |d.nodes|
      ensures EarlierSibling(d, el, g) <==>
              Next(d, el).Some? && (g == Next(d, el).value || EarlierSibling(d, Next(d, el).value, g))
    {
      LaterFromNext(d, el, g);
    }
  }

  lemma {:induction false} SiblingSearchIsExact(ctx: Ctx, s: seq<Component>, subtree: bool, nextOnly: bool,
                                                cur: Option<nat>)
    requires cur.Some? ==> InDoc(ctx.doc, cur.value)
    ensures InSiblings(ctx, s, subtree, nextOnly, cur) <==>
            exists f :: 0 <= f < |ctx.doc.nodes| && SiblingRegion(ctx.doc, subtree, nextOnly, cur, f) && Hit(ctx, s, f)
    decreases |ctx.doc.nodes| - cur.GetOr(|ctx.doc.nodes|)
  {
    var d := ctx.doc;
    if cur.Some? {
      var el := cur.value;
      SiblingSearchIsExact(ctx, s, subtree, nextOnly, Next(d, el));
      ChildrenSearchIsExact(ctx, s, true, FirstChild(d, el));
      forall f | 0 <= f < |d.nodes|
        ensures SiblingRegion(d, subtree, nextOnly, cur, f) <==>
                || (if subtree then Onwards(d, FirstChild(d, el), true, f) else f == el)
                || (!nextOnly && SiblingRegion(d, subtree, nextOnly, Next(d, el), f))
      {
        SiblingRegionStep(d, subtree, nextOnly, el, f);
        SubtreeFromFirstChild(d, el, f);
      }
      assert InSiblings(ctx, s, subtree, nextOnly, cur) <==>
             || (if subtree then InChildren(ctx, s, true, FirstChild(d, el)) else Hit(ctx, s, el))
             || (!nextOnly && InSiblings(ctx, s, subtree, nextOnly, Next(d, el)));
    }
  }

  /** The search for a relative selector succeeds iff the selector hits some element of the region of its hint. */
  lemma SearchIsExact(ctx: Ctx, relative: RelativeSelector, e: nat)
    requires InDoc(ctx.doc, e)
    ensures Relative(ctx, relative, e) <==>
            exists f :: 0 <= f < |ctx.doc.nodes| && InRegion(ctx.doc, relative.hint, e, f)
                        && Hit(ctx, relative.selector.comps, f)
  {
    var d, s, h := ctx.doc, relative.selector.comps, relative.hint;
    if h.IsDescendantDirection() {
      ChildrenSearchIsExact(ctx, s, h.IsSubtree(), FirstChild(d, e));
      forall f | 0 <= f < |d.nodes| ensures InRegion(d, h, e, f) <==> Onwards(d, FirstChild(d, e), h.IsSubtree(), f) {
        SubtreeFromFirstChild(d, e, f);
        ChildFromFirst(d, e, f);
      }
    } else {
      SiblingSearchIsExact(ctx, s, h.IsSubtree(), h.IsNextSibling(), Next(d, e));
      forall f | 0 <= f < |d.nodes|
        ensures InRegion(d, h, e, f) <==> SiblingRegion(d, h.IsSubtree(), h.IsNextSibling(), Next(d, e), f)
      {
        LaterFromNext(d, e, f);
        forall g | 0 <= g < |d.nodes|
          ensures EarlierSibling(d, e, g) <==>
                  Next(d, e).Some? && (g == Next(d, e).value || EarlierSibling(d, Next(d, e).value, g))
          ensures Prev(d, g) == Some(e) <==> Next(d, e) == Some(g)
        {
          LaterFromNext(d, e, g);
        }
        assert Prev(d, f) == Some(e) <==> Next(d, e) == Some(f);
      }
    }
  }
}
