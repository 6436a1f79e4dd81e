/** The iterators over the components of a selector. */
module SelectorIter {
  import opened Wrappers
  import opened Syntax

  /** Yields the simple selectors of a compound; stops at a combinator, which `NextSequence` then hands out. */
  class Iter {
    var rest: seq<Component>
    var nextCombinator: Option<Combinator>

    constructor (s: seq<Component>)
      ensures rest == s && nextCombinator == None
    {
      rest, nextCombinator := s, None;
    }

    method Next() returns (r: Option<Component>)
      requires nextCombinator.None?
      modifies this
      ensures old(rest) == [] ==> r == None && rest == [] && nextCombinator == None
      ensures old(rest) != [] ==> rest == old(rest)[1..]
      ensures old(rest) != [] && old(rest)[0].Combinator? ==>
              r == None && nextCombinator == Some(old(rest)[0].combinator)
      ensures old(rest) != [] && !old(rest)[0].Combinator? ==> r == Some(old(rest)[0]) && nextCombinator == None
    {
      if rest == [] {
        return None;
      }
      var c := rest[0];
      rest := rest[1..];
      if c.Combinator? {
        nextCombinator := Some(c.combinator);
        return None;
      }
      return Some(c);
    }

    method NextSequence() returns (r: Option<Combinator>)
      modifies this
      ensures r == old(nextCombinator) && nextCombinator == None && rest == old(rest)
    {
      r := nextCombinator;
      nextCombinator := None;
    }

    /** Runs through the rest of the compound. */
    method SkipCompound()
      requires nextCombinator.None?
      modifies this
      ensures nextCombinator == NextCombinator(old(rest))
      ensures rest == if NextCombinator(old(rest)).Some? then AfterCombinator(old(rest)) else []
    {
      ghost var s := rest;
      var next := Next();
      while next.Some?
        invariant nextCombinator.None? || next.None?
        invariant next.Some? ==> NextCombinator(rest) == NextCombinator(s)
        invariant next.Some? && NextCombinator(s).Some? ==> AfterCombinator(rest) == AfterCombinator(s)
        invariant next.None? ==> nextCombinator == NextCombinator(s)
        invariant next.None? ==> rest == if NextCombinator(s).Some? then AfterCombinator(s) else []
        decreases |rest|, next.Some?
      {
        next := Next();
      }
    }
  }

  /** The number of components up to and including the next child or descendant combinator. */
  function SkipLength(s: seq<Component>): (n: nat)
    ensures n <= |s|
    decreases |s|
  {
    var n := CompoundLength(s);
    if n == |s| then n
    else if s[n].combinator.IsAncestor() then n + 1
    else n + 1 + SkipLength(s[n + 1..])
  }

  /** Skipping one compound at a time. */
  lemma SkipStep(s: seq<Component>)
    ensures NextCombinator(s).None? ==> s[SkipLength(s)..] == []
    ensures NextCombinator(s).Some? && NextCombinator(s).value.IsAncestor() ==>
              s[SkipLength(s)..] == AfterCombinator(s)
    ensures NextCombinator(s).Some? && !NextCombinator(s).value.IsAncestor() ==>
              s[SkipLength(s)..] == AfterCombinator(s)[SkipLength(AfterCombinator(s))..]
  {
  }

  /** What to iterate over: the compounds that belong to ancestors of the subject, or the subject compound alone. */
  datatype IterKind = Ancestors | Subject

  /** The number of components that are passed over before the next one is yielded. */
  function Passed(kind: IterKind, s: seq<Component>): (n: nat)
    ensures n <= |s|
  {
    if s == [] || !s[0].Combinator? || kind.Subject? then 0
    else if s[0].combinator.IsAncestor() then 1
    else 1 + SkipLength(s[1..])
  }

  class ComponentIter {
    const kind: IterKind
    const inner: Iter

    constructor (kind: IterKind, s: seq<Component>)
      ensures this.kind == kind && inner.rest == s && inner.nextCombinator == None && fresh(inner)
    {
      this.kind := kind;
      inner := new Iter(s);
    }

    /** Skips whole compounds until a child or descendant combinator has been passed. */
    method SkipUntilAncestor()
      requires inner.nextCombinator.None?
      modifies inner
      ensures inner.nextCombinator == None
      ensures inner.rest == old(inner.rest)[SkipLength(old(inner.rest))..]
    {
      ghost var s := inner.rest;
      while true
        invariant inner.nextCombinator == None
        invariant s[SkipLength(s)..] == inner.rest[SkipLength(inner.rest)..]
        decreases |inner.rest|
      {
        SkipStep(inner.rest);
        inner.SkipCompound();
        var c := inner.NextSequence();
        if c.None? || c.value.IsAncestor() {
          return;
        }
      }
    }

    /** The next component, if any; the combinators are handled on the way. */
    method Next() returns (r: Option<Component>)
      requires inner.nextCombinator.None?
      modifies inner
      ensures var s := old(inner.rest);
              var t := s[Passed(kind, s)..];
              if t == [] || t[0].Combinator? then r == None
              else r == Some(t[0]) && inner.rest == t[1..] && inner.nextCombinator == None
    {
      ghost var s := inner.rest;
      r := inner.Next();
      if r.Some? || kind.Subject? {
        return;
      }
      var c := inner.NextSequence();
      if c.Some? && !c.value.IsAncestor() {
        SkipUntilAncestor();
        assert inner.rest == s[Passed(kind, s)..];
      }
      r := inner.Next();
    }
  }
}
