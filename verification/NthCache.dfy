/**
 The nth-index caches, and why an entry of an earlier sibling gives the index of
 a later one.  A selector list stands for the address of its storage.
 */
module NthCache {
  import opened Wrappers
  import opened Dom
  import opened Syntax
  import opened Matching
  import opened CacheUse

  type Inner = map<nat, int>

  class NthIndexCache {
    var nth: Inner
    var nthOfSelectors: map<seq<Selector>, Inner>
    var nthLast: Inner
    var nthLastOfSelectors: map<seq<Selector>, Inner>
    var nthOfType: Inner
    var nthLastOfType: Inner

    constructor ()
      ensures forall ofType, fromEnd, selectors :: Select(ofType, fromEnd, selectors) == map[]
    {
      nth, nthOfSelectors, nthOfType := map[], map[], map[];
      nthLast, nthLastOfSelectors, nthLastOfType := map[], map[], map[];
    }

    /** The cache for the given parameters. */
    function Select(ofType: bool, fromEnd: bool, selectors: seq<Selector>): Inner
      reads this
    {
      if ofType then (if fromEnd then nthLastOfType else nthOfType)
      else if selectors != [] then
        var byList := if fromEnd then nthLastOfSelectors else nthOfSelectors;
        if selectors in byList then byList[selectors] else map[]
      else if fromEnd then nthLast
      else nth
    }

    method Lookup(ofType: bool, fromEnd: bool, selectors: seq<Selector>, el: nat) returns (r: Option<int>)
      ensures r == if el in Select(ofType, fromEnd, selectors)
                   then Some(Select(ofType, fromEnd, selectors)[el]) else None
    {
      var cache := Select(ofType, fromEnd, selectors);
      r := if el in cache then Some(cache[el]) else None;
    }

    method Insert(ofType: bool, fromEnd: bool, selectors: seq<Selector>, el: nat, index: int)
      modifies this
      ensures forall ofType', fromEnd', selectors' ::
                Select(ofType', fromEnd', selectors') ==
                if ofType' == ofType && fromEnd' == fromEnd && (ofType || selectors' == selectors)
                then old(Select(ofType', fromEnd', selectors'))[el := index]
                else old(Select(ofType', fromEnd', selectors'))
    {
      var cache := Select(ofType, fromEnd, selectors)[el := index];
      if ofType {
        if fromEnd { nthLastOfType := cache; } else { nthOfType := cache; }
      } else if selectors != [] {
        if fromEnd {
          nthLastOfSelectors := nthLastOfSelectors[selectors := cache];
        } else {
          nthOfSelectors := nthOfSelectors[selectors := cache];
        }
      } else {
        if fromEnd { nthLast := cache; } else { nth := cache; }
      }
    }

    method IsEmpty(ofType: bool, fromEnd: bool, selectors: seq<Selector>) returns (r: bool)
      ensures r == (Select(ofType, fromEnd, selectors) == map[])
    {
      r := Select(ofType, fromEnd, selectors) == map[];
    }

    /** Every entry is the index that counting the siblings gives, in whichever setting it may be asked for. */
    ghost predicate Valid(base: Ctx, uses: Uses)
      reads this
    {
      forall ofType, fromEnd, selectors, el :: el in Select(ofType, fromEnd, selectors) ==>
        ValidEntry(base, uses, ofType, fromEnd, selectors, el, Select(ofType, fromEnd, selectors)[el])
    }
  }

  /** In setting `t` the entry of `el` may be asked for. */
  ghost predicate Asked(base: Ctx, uses: Uses, ofType: bool, selectors: seq<Selector>, t: Setting, el: nat)
    requires InDoc(base.doc, el)
  {
    ofType || selectors == [] || (uses.nth(selectors, t) && Indexed(In(base, t), selectors, el))
  }

  ghost predicate ValidEntry(base: Ctx, uses: Uses, ofType: bool, fromEnd: bool, selectors: seq<Selector>,
                             el: nat, index: int) {
    && InDoc(base.doc, el) && !base.doc.nodes[el].ignoresNth
    && forall t | Asked(base, uses, ofType, selectors, t, el) ::
         index == NthChildIndex(In(base, t), Counting(selectors), ofType, fromEnd, el)
  }

  /** One step back from `cur` to `p`, seen from the end: `cur` itself now counts. */
  lemma CountFromEndStep(ctx: Ctx, c: Component, ofType: bool, e: nat, cur: nat)
    requires InDoc(ctx.doc, e) && InDoc(ctx.doc, cur) && (c.Nth? || c.NthOf?) && Prev(ctx.doc, cur).Some?
    ensures CountBeyond(ctx, c, ofType, true, e, Prev(ctx.doc, cur).value) ==
            (if Counts(ctx, c, ofType, e, cur) then 1 else 0) + CountBeyond(ctx, c, ofType, true, e, cur)
  {
  }
}
