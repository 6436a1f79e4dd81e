/**
 Building a selector from components pushed left to right: simple selectors are
 kept in order inside their compound while the compounds are reversed, and
 serialization undoes it.
 */
module Builder {
  import opened Wrappers
  import opened Syntax
  import opened Sequences
  import opened Specificity

  predicate IsCompound(s: seq<Component>) {
    forall i :: 0 <= i < |s| ==> !s[i].Combinator?
  }

  /** Compounds with combinators in between. */
  function Join(compounds: seq<seq<Component>>, combinators: seq<Combinator>): seq<Component>
    requires |compounds| == |combinators| + 1
  {
    if combinators == [] then compounds[0]
    else compounds[0] + [Combinator(combinators[0])] + Join(compounds[1..], combinators[1..])
  }

  lemma {:induction false} JoinOfCompounds(s: seq<Component>)
    ensures Join(Compounds(s), Combinators(s)) == s
    ensures forall i :: 0 <= i < |Compounds(s)| ==> IsCompound(Compounds(s)[i])
    decreases |s|
  {
    var n := CompoundLength(s);
    if n < |s| {
      JoinOfCompounds(AfterCombinator(s));
      assert Compounds(s)[1..] == Compounds(AfterCombinator(s)) &&
             Combinators(s)[1..] == Combinators(AfterCombinator(s));
      assert s == s[..n] + [s[n]] + s[n + 1..];
    } else {
      assert s[..n] == s;
    }
  }

  lemma {:induction false} CompoundsOfJoin(compounds: seq<seq<Component>>, combinators: seq<Combinator>)
    requires |compounds| == |combinators| + 1
    requires forall i :: 0 <= i < |compounds| ==> IsCompound(compounds[i])
    ensures Compounds(Join(compounds, combinators)) == compounds
    ensures Combinators(Join(compounds, combinators)) == combinators
    decreases |combinators|
  {
    if combinators == [] {
      CompoundsOfCompound(compounds[0]);
      assert compounds == [compounds[0]];
    } else {
      var rest := Join(compounds[1..], combinators[1..]);
      CompoundsOfJoin(compounds[1..], combinators[1..]);
      CompoundsAfterFirst(compounds[0], combinators[0], rest);
      assert compounds == [compounds[0]] + compounds[1..];
      assert combinators == [combinators[0]] + combinators[1..];
    }
  }

  lemma CompoundsAfterFirst(first: seq<Component>, c: Combinator, rest: seq<Component>)
    requires IsCompound(first)
    ensures Compounds(first + [Combinator(c)] + rest) == [first] + Compounds(rest)
    ensures Combinators(first + [Combinator(c)] + rest) == [c] + Combinators(rest)
  {
    var s := first + [Combinator(c)] + rest;
    CompoundLengthIs(s, |first|);
    assert s[..|first|] == first;
    assert AfterCombinator(s) == rest;
  }

  lemma CompoundLengthIs(s: seq<Component>, n: nat)
    requires n <= |s| && IsCompound(s[..n]) && (n < |s| ==> s[n].Combinator?)
    ensures CompoundLength(s) == n
  {
  }

  /**
   The stored order of what was pushed: the compounds and the combinators
   reversed, each compound as it was.  Serialization applies the same once more.
   */
  function Layout(s: seq<Component>): seq<Component> {
    Join(Reversed(Compounds(s)), Reversed(Combinators(s)))
  }

  /** Compounds and combinators are stored from right to left, each compound as it was pushed. */
  lemma LayoutTurnsCompounds(pushed: seq<Component>)
    ensures var stored, n, m := Layout(pushed), |Compounds(pushed)|, |Combinators(pushed)|;
            && |Compounds(stored)| == n && |Combinators(stored)| == m
            && (forall i :: 0 <= i < n ==> Compounds(stored)[i] == Compounds(pushed)[n - 1 - i])
            && (forall i :: 0 <= i < m ==> Combinators(stored)[i] == Combinators(pushed)[m - 1 - i])
  {
    JoinOfCompounds(pushed);
    CompoundsOfJoin(Reversed(Compounds(pushed)), Reversed(Combinators(pushed)));
  }

  /** Serialization gives back what was pushed, for every push sequence. */
  lemma OrderIsRecovered(pushed: seq<Component>)
    ensures Layout(Layout(pushed)) == pushed
  {
    JoinOfCompounds(pushed);
    CompoundsOfJoin(Reversed(Compounds(pushed)), Reversed(Combinators(pushed)));
    ReversedTwice(Compounds(pushed));
    ReversedTwice(Combinators(pushed));
  }

  // ---------- Pushing at the right end ----------

  lemma {:induction false} JoinOfConcat(compounds: seq<seq<Component>>, combinators: seq<Combinator>, c: Combinator,
                                        compounds': seq<seq<Component>>, combinators': seq<Combinator>)
    requires |compounds| == |combinators| + 1 && |compounds'| == |combinators'| + 1
    ensures Join(compounds + compounds', combinators + [c] + combinators') ==
            Join(compounds, combinators) + [Combinator(c)] + Join(compounds', combinators')
    decreases |combinators|
  {
    var all, marks := compounds + compounds', combinators + [c] + combinators';
    if combinators == [] {
      assert all[1..] == compounds' && marks[1..] == combinators';
    } else {
      assert all[1..] == compounds[1..] + compounds' && marks[1..] == combinators[1..] + [c] + combinators';
      JoinOfConcat(compounds[1..], combinators[1..], c, compounds', combinators');
    }
  }

  lemma CompoundsOfConcat(s: seq<Component>, c: Combinator, t: seq<Component>)
    ensures Compounds(s + [Combinator(c)] + t) == Compounds(s) + Compounds(t)
    ensures Combinators(s + [Combinator(c)] + t) == Combinators(s) + [c] + Combinators(t)
  {
    JoinOfCompounds(s);
    JoinOfCompounds(t);
    JoinOfConcat(Compounds(s), Combinators(s), c, Compounds(t), Combinators(t));
    CompoundsOfJoin(Compounds(s) + Compounds(t), Combinators(s) + [c] + Combinators(t));
  }

  lemma CompoundsOfCompound(s: seq<Component>)
    requires IsCompound(s)
    ensures Compounds(s) == [s] && Combinators(s) == []
  {
    CompoundLengthIs(s, |s|);
    assert s[..|s|] == s;
  }

  /** In the stored order the part before a combinator comes after it. */
  lemma LayoutOfConcat(s: seq<Component>, c: Combinator, t: seq<Component>)
    requires IsCompound(t)
    ensures Layout(s + [Combinator(c)] + t) == t + [Combinator(c)] + Layout(s)
  {
    CompoundsOfConcat(s, c, t);
    CompoundsOfCompound(t);
    ReversedConcat(Compounds(s), [t]);
    ReversedConcat(Combinators(s), [c]);
    assert Combinators(s) + [c] + [] == Combinators(s) + [c];
    assert Reversed([t]) == [t] && Reversed([c]) == [c];
    assert Reversed(Compounds(s) + [t])[1..] == Reversed(Compounds(s));
    assert Reversed(Combinators(s) + [c])[1..] == Reversed(Combinators(s));
  }

  lemma LayoutOfCompound(t: seq<Component>)
    requires IsCompound(t)
    ensures Layout(t) == t
  {
  }

  // ---------- The builder ----------

  datatype ParseRelative = No | ForNesting | ForScope | ForHas

  /** What the builder puts in front of a selector that is relative to `&` or to `:scope` without saying so. */
  function ImplicitAddition(parseRelative: ParseRelative, flags: SelectorFlags): Option<Component> {
    if parseRelative.ForNesting? && !flags.hasParent then Some(ParentSelector)
    else if parseRelative.ForScope? && !flags.hasScope && !flags.hasParent then Some(ImplicitScope)
    else None
  }

  function ImplicitSuffix(addition: Option<Component>): seq<Component> {
    match addition
    case Some(c) => [Combinator(Descendant), c]
    case None => []
  }

  function ImplicitPrefix(addition: Option<Component>): seq<Component> {
    match addition
    case Some(c) => [c, Combinator(Descendant)]
    case None => []
  }

  /** The additions, by name. */
  lemma AdditionByName(pushed: seq<Component>, comps: seq<Component>, parseRelative: ParseRelative)
    ensures var flags := FlagsOf(pushed);
            var addition := ImplicitAddition(parseRelative, flags);
            var suffix, prefix := ImplicitSuffix(addition), ImplicitPrefix(addition);
            if parseRelative.ForNesting? && !flags.hasParent then
              && prefix == [ParentSelector, Combinator(Descendant)]
              && suffix == [Combinator(Descendant), ParentSelector] && ComponentFlags(addition.value).hasParent
            else if parseRelative.ForScope? && !flags.hasParent && !flags.hasScope then
              && prefix == [ImplicitScope, Combinator(Descendant)]
              && suffix == [Combinator(Descendant), ImplicitScope] && ComponentFlags(addition.value).hasScope
            else
              prefix == [] == suffix && prefix + pushed == pushed && comps + suffix == comps
  {
  }

  /** In parse order the addition comes first. */
  lemma LayoutWithAddition(pushed: seq<Component>, addition: Option<Component>)
    requires addition.Some? ==> !addition.value.Combinator?
    ensures Layout(Layout(pushed) + ImplicitSuffix(addition)) == ImplicitPrefix(addition) + pushed
  {
    OrderIsRecovered(pushed);
    if addition.Some? {
      LayoutOfConcat(Layout(pushed), Descendant, [addition.value]);
      assert Layout(pushed) + ImplicitSuffix(addition) == Layout(pushed) + [Combinator(Descendant)] + [addition.value];
      assert ImplicitPrefix(addition) == [addition.value] + [Combinator(Descendant)];
    } else {
      assert Layout(pushed) + [] == Layout(pushed);
    }
  }

  /** The additions have no specificity, but flags. */
  lemma HeaderWithAddition(s: seq<Component>, parseRelative: ParseRelative, addition: Option<Component>)
    requires addition == ImplicitAddition(parseRelative, FlagsOf(s))
    ensures SpecOf(s + ImplicitSuffix(addition)) == SpecOf(s)
    ensures FlagsOf(s + ImplicitSuffix(addition)) ==
            if addition.Some? then Union(FlagsOf(s), ComponentFlags(addition.value)) else FlagsOf(s)
  {
    match addition {
      case Some(c) => HeaderWith(s, c);
      case None => assert s + [] == s;
    }
  }

  lemma HeaderWith(s: seq<Component>, c: Component)
    requires c.ParentSelector? || c.ImplicitScope?
    ensures SpecOf(s + [Combinator(Descendant), c]) == SpecOf(s)
    ensures FlagsOf(s + [Combinator(Descendant), c]) == Union(FlagsOf(s), ComponentFlags(c))
  {
    AppendedTwo(s, Combinator(Descendant), c);
    AppendNeutral(s, Combinator(Descendant));
    AppendWeightless(s + [Combinator(Descendant)], c);
  }

  lemma AppendWeightless(s: seq<Component>, c: Component)
    requires ComponentSpec(c) == Spec(0, 0, 0)
    ensures SpecOf(s + [c]) == SpecOf(s) && FlagsOf(s + [c]) == Union(FlagsOf(s), ComponentFlags(c))
  {
    Appended(s, c);
  }

  lemma AppendNeutral(s: seq<Component>, c: Component)
    requires ComponentSpec(c) == Spec(0, 0, 0) && ComponentFlags(c) == NO_FLAGS
    ensures SpecOf(s + [c]) == SpecOf(s) && FlagsOf(s + [c]) == FlagsOf(s)
  {
    AppendWeightless(s, c);
    var f := FlagsOf(s);
    assert f == Union(f, NO_FLAGS);
  }

  class SelectorBuilder {
    var components: seq<Component>
    var lastCompoundStart: Option<nat>
    /** What was pushed, in order. */
    ghost var pushed: seq<Component>
    /** What was pushed before the open compound, with its combinator. */
    ghost var closed: seq<Component>

    function Start(): nat
      reads this
    {
      lastCompoundStart.GetOr(0)
    }

    ghost predicate Valid()
      reads this
    {
      && Start() <= |components|
      && IsCompound(components[Start()..])
      && pushed == closed + components[Start()..]
      && (lastCompoundStart.None? <==> closed == [])
      && (lastCompoundStart.Some? ==>
            && closed[|closed| - 1].Combinator?
            && Reversed(components[..Start()]) == [closed[|closed| - 1]] + Layout(closed[..|closed| - 1]))
      && multiset(components) == multiset(pushed)
    }

    constructor ()
      ensures Valid() && pushed == [] && !HasCombinators()
    {
      components, lastCompoundStart, pushed, closed := [], None, [], [];
    }

    /** Whether a combinator has ever been pushed. */
    predicate HasCombinators()
      reads this
    {
      lastCompoundStart.Some?
    }

    method PushSimpleSelector(ss: Component)
      requires Valid() && !ss.Combinator?
      modifies this
      ensures Valid() && pushed == old(pushed) + [ss] && HasCombinators() == old(HasCombinators())
    {
      components := components + [ss];
      pushed := pushed + [ss];
      assert components[Start()..] == old(components[Start()..]) + [ss];
      assert components[..Start()] == old(components[..Start()]);
    }

    method PushCombinator(c: Combinator)
      requires Valid()
      modifies this
      ensures Valid() && pushed == old(pushed) + [Combinator(c)] && HasCombinators()
    {
      ReverseLastCompound();
      assert Reversed(components + [Combinator(c)]) == [Combinator(c)] + Reversed(components) by {
        ReversedConcat(components, [Combinator(c)]);
        assert Reversed([Combinator(c)]) == [Combinator(c)];
      }
      components := components + [Combinator(c)];
      lastCompoundStart := Some(|components|);
      pushed := pushed + [Combinator(c)];
      closed := pushed;
      assert components[..Start()] == components;
      assert closed[..|closed| - 1] == old(pushed);
    }

    /** The open compound is turned round; the whole is then the layout, read from the end. */
    method ReverseLastCompound()
      requires Valid()
      modifies this
      ensures pushed == old(pushed) && multiset(components) == multiset(pushed)
      ensures Reversed(components) == Layout(pushed)
      ensures lastCompoundStart == old(lastCompoundStart)
    {
      var start := Start();
      ReversedLayout(components, start, closed);
      components := components[..start] + Reversed(components[start..]);
    }

    /** Hands out the selector, in stored order and with its header, and leaves the builder drained. */
    method Build(parseRelative: ParseRelative) returns (r: Selector)
      requires Valid()
      modifies this
      ensures components == []
      ensures var addition := ImplicitAddition(parseRelative, FlagsOf(old(pushed)));
              && r.comps == Layout(old(pushed)) + ImplicitSuffix(addition)
              && Layout(r.comps) == ImplicitPrefix(addition) + old(pushed)
      ensures parseRelative.ForNesting? && !FlagsOf(old(pushed)).hasParent ==>
                && Layout(r.comps) == [ParentSelector, Combinator(Descendant)] + old(pushed)
                && r.comps == Layout(old(pushed)) + [Combinator(Descendant), ParentSelector] && r.flags.hasParent
      ensures parseRelative.ForScope? && !FlagsOf(old(pushed)).hasParent && !FlagsOf(old(pushed)).hasScope ==>
                && Layout(r.comps) == [ImplicitScope, Combinator(Descendant)] + old(pushed)
                && r.comps == Layout(old(pushed)) + [Combinator(Descendant), ImplicitScope] && r.flags.hasScope
      ensures parseRelative.No? || parseRelative.ForHas? || FlagsOf(old(pushed)).hasParent
              || (parseRelative.ForScope? && FlagsOf(old(pushed)).hasScope) ==>
                Layout(r.comps) == old(pushed) && r.comps == Layout(old(pushed))
      ensures r.specificity == Pack(SpecOf(r.comps)) && r.flags == FlagsOf(r.comps)
    {
      var sf := ComputeSpecificityAndFlags(components);
      SpecsOfPermutation(components, pushed);
      var addition := ImplicitAddition(parseRelative, sf.flags);
      var flags := if addition.Some? then Union(sf.flags, ComponentFlags(addition.value)) else sf.flags;
      var comps := Drain();
      BuiltHeader(old(pushed), comps, parseRelative, addition);
      LayoutWithAddition(old(pushed), addition);
      AdditionByName(old(pushed), comps, parseRelative);
      r := Selector(sf.specificity, flags, comps + ImplicitSuffix(addition));
    }

    /** Without combinators the order is kept as it is. */
    method Drain() returns (comps: seq<Component>)
      requires Valid()
      modifies this
      ensures components == [] && comps == Layout(old(pushed)) && multiset(comps) == multiset(old(pushed))
    {
      if lastCompoundStart.None? {
        LayoutOfCompound(components);
        comps := components;
        assert components[0..] == components && [] + components == components;
      } else {
        ReverseLastCompound();
        comps := Reversed(components);
        ReversedMultiset(components);
      }
      components := [];
    }
  }

  lemma BuiltHeader(pushed: seq<Component>, comps: seq<Component>, parseRelative: ParseRelative,
                    addition: Option<Component>)
    requires multiset(comps) == multiset(pushed)
    requires addition == ImplicitAddition(parseRelative, FlagsOf(pushed))
    ensures SpecOf(comps + ImplicitSuffix(addition)) == SpecOf(pushed)
    ensures FlagsOf(comps + ImplicitSuffix(addition)) ==
            if addition.Some? then Union(FlagsOf(pushed), ComponentFlags(addition.value)) else FlagsOf(pushed)
  {
    SpecsOfPermutation(pushed, comps);
    HeaderWithAddition(comps, parseRelative, addition);
  }

  /** What the builder holds, once its open compound is turned round. */
  lemma ReversedLayout(components: seq<Component>, start: nat, closed: seq<Component>)
    requires start <= |components| && IsCompound(components[start..])
    requires closed == [] ==> start == 0
    requires closed != [] ==>
               && closed[|closed| - 1].Combinator?
               && Reversed(components[..start]) == [closed[|closed| - 1]] + Layout(closed[..|closed| - 1])
    ensures Reversed(components[..start] + Reversed(components[start..])) == Layout(closed + components[start..])
    ensures multiset(components[..start] + Reversed(components[start..])) == multiset(components)
  {
    var before, open := components[..start], components[start..];
    assert components == before + open;
    ReversedMultiset(open);
    TurnedRound(before, open);
    if closed == [] {
      LayoutOfCompound(open);
      assert closed + open == open;
    } else {
      LayoutOfClosed(closed, open);
    }
  }

  lemma LayoutOfClosed(closed: seq<Component>, open: seq<Component>)
    requires closed != [] && closed[|closed| - 1].Combinator? && IsCompound(open)
    ensures Layout(closed + open) == open + ([closed[|closed| - 1]] + Layout(closed[..|closed| - 1]))
  {
    var init, last := closed[..|closed| - 1], closed[|closed| - 1];
    LayoutOfConcat(init, last.combinator, open);
    assert closed + open == init + [Combinator(last.combinator)] + open;
  }

  lemma TurnedRound(before: seq<Component>, open: seq<Component>)
    ensures Reversed(before + Reversed(open)) == open + Reversed(before)
  {
  }
}
