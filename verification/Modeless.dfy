/** What the element alone decides is decided alike in every mode: nothing is left uncomputed there. */
module Modeless {
  import opened Dom
  import opened Syntax
  import opened Kleene
  import opened Semantics
  import opened Matching
  import opened Soundness

  /** No `:scope`, no `:has()`, no `:nth-*()`. */
  predicate Computed(c: Component) {
    !c.Scope? && !c.ImplicitScope? && !c.Has? && !c.Nth? && !c.NthOf?
  }

  /** The two contexts differ at most in their mode and parity. */
  predicate SamePlace(ctx: Ctx, other: Ctx) {
    other == ctx.(mode := other.mode, inNegation := other.inNegation)
  }

  lemma {:induction false} SimpleModeless(ctx: Ctx, other: Ctx, c: Component, e: nat)
    requires InDoc(ctx.doc, e) && SamePlace(ctx, other) && EverywhereIn(Computed, c)
    ensures Simple(ctx, c, e) == Simple(other, c, e) && !Simple(ctx, c, e).Unknown?
    decreases c, 3
  {
    match c {
      case Is(list) => ListModeless(ctx, other, list, e);
      case Where(list) => ListModeless(ctx, other, list, e);
      case Negation(list) =>
        ListModeless(ctx.(inNegation := !ctx.inNegation), other.(inNegation := !other.inNegation), list, e);
      case _ =>
    }
  }

  lemma {:induction false} CompoundModeless(ctx: Ctx, other: Ctx, s: seq<Component>, e: nat)
    requires InDoc(ctx.doc, e) && SamePlace(ctx, other) && Everywhere(Computed, s)
    ensures Compound(ctx, s, e) == Compound(other, s, e) && !Compound(ctx, s, e).Unknown?
    decreases s, 0
  {
    if s != [] && !s[0].Combinator? {
      SimpleModeless(ctx, other, s[0], e);
      CompoundModeless(ctx, other, s[1..], e);
    }
  }

  lemma {:induction false} ListModeless(ctx: Ctx, other: Ctx, list: seq<Selector>, e: nat)
    requires InDoc(ctx.doc, e) && SamePlace(ctx, other) && EverywhereInList(Computed, list)
    ensures SelectorList(ctx, list, e) == SelectorList(other, list, e) && !SelectorList(ctx, list, e).Unknown?
    decreases list, 0
  {
    if list != [] {
      ComplexModeless(ctx, other, list[0].comps, e);
      ListModeless(ctx, other, list[1..], e);
    }
  }

  lemma {:induction false} ComplexModeless(ctx: Ctx, other: Ctx, s: seq<Component>, e: nat)
    requires InDoc(ctx.doc, e) && SamePlace(ctx, other) && Everywhere(Computed, s)
    ensures Complex(ctx, s, e) == Complex(other, s, e) && !Complex(ctx, s, e).UnknownResult?
    decreases s, 1
  {
    CompoundModeless(ctx, other, s, e);
    if NextCombinator(s).Some? && Compound(ctx, s, e).True? {
      CandidatesModeless(ctx, other, NextCombinator(s).value, AfterCombinator(s), e);
    }
  }

  lemma {:induction false} CandidatesModeless(ctx: Ctx, other: Ctx, c: Combinator, rest: seq<Component>, e: nat)
    requires InDoc(ctx.doc, e) && SamePlace(ctx, other) && Everywhere(Computed, rest)
    ensures Candidates(ctx, c, rest, True, e) == Candidates(other, c, rest, True, e)
    ensures !Candidates(ctx, c, rest, True, e).UnknownResult?
    decreases rest, 2, e
  {
    var n := NextElement(ctx.doc, c, e);
    if n.Some? {
      ComplexModeless(ctx, other, rest, n.value);
      CandidatesModeless(ctx, other, c, rest, n.value);
    }
  }

  lemma {:induction false} ComputedIsRegular(size: nat, s: seq<Component>)
    requires Everywhere(Computed, s)
    ensures Everywhere(Regular(size), s)
    decreases s, 0
  {
    forall i | 0 <= i < |s|
      ensures EverywhereIn(Regular(size), s[i])
    {
      ComponentIsRegular(size, s[i]);
    }
  }

  lemma {:induction false} ComponentIsRegular(size: nat, c: Component)
    requires EverywhereIn(Computed, c)
    ensures EverywhereIn(Regular(size), c)
    decreases c, 0
  {
    match c {
      case Is(list) => ListIsRegular(size, list);
      case Where(list) => ListIsRegular(size, list);
      case Negation(list) => ListIsRegular(size, list);
      case _ =>
    }
  }

  lemma {:induction false} ListIsRegular(size: nat, list: seq<Selector>)
    requires EverywhereInList(Computed, list)
    ensures EverywhereInList(Regular(size), list)
    decreases list, 0
  {
    forall i | 0 <= i < |list|
      ensures Everywhere(Regular(size), list[i].comps)
    {
      ComputedIsRegular(size, list[i].comps);
    }
  }

  /** In every mode, at every parity, such a selector is answered definitely and exactly. */
  lemma ComputedIsExact(ctx: Ctx, s: seq<Component>, e: nat)
    requires InDoc(ctx.doc, e) && Everywhere(Computed, s)
    ensures Complex(ctx, s, e).Matched? <==> Matches(EnvOf(ctx, Actual), s, e)
    ensures !Complex(ctx, s, e).UnknownResult?
  {
    var normal := ctx.(mode := Normal);
    ComplexModeless(ctx, normal, s, e);
    ComputedIsRegular(|ctx.doc.nodes|, s);
    ComplexIsSound(normal, EnvOf(ctx, Actual), s, e, true, true);
  }

  // ---------- What fails in every mode ----------

  /** Some component of the subject compound is sure to fail. */
  ghost predicate SubjectFails(env: Env, s: seq<Component>, e: nat)
    requires InDoc(env.doc, e)
    decreases s, 0
  {
    exists i :: 0 <= i < CompoundLength(s) && ComponentFails(env, s[i], e)
  }

  /** It is computed in every mode and fails, or it asks for a list all of whose selectors fail. */
  ghost predicate ComponentFails(env: Env, c: Component, e: nat)
    requires InDoc(env.doc, e)
    decreases c, 0
  {
    || (EverywhereIn(Computed, c) && !SimpleHolds(env, c, e))
    || (c.NthOf? && c.of != [] && ListFails(env, c.of, e))
    || ((c.Is? || c.Where?) && ListFails(env, c.list, e))
  }

  ghost predicate ListFails(env: Env, list: seq<Selector>, e: nat)
    requires InDoc(env.doc, e)
    decreases list, 0
  {
    forall i :: 0 <= i < |list| ==>
      || SubjectFails(env, list[i].comps, e)
      || (Everywhere(Computed, list[i].comps) && !Matches(env, list[i].comps, e))
  }

  /** A subject that is sure to fail is answered False in every mode, whatever else the selector asks for. */
  lemma {:induction false} FailsInEveryMode(ctx: Ctx, s: seq<Component>, e: nat)
    requires InDoc(ctx.doc, e) && SubjectFails(EnvOf(ctx, Actual), s, e)
    ensures Complex(ctx, s, e) == RestartFromClosestLaterSibling
    decreases s, 1
  {
    var i :| 0 <= i < CompoundLength(s) && ComponentFails(EnvOf(ctx, Actual), s[i], e);
    ComponentFailsInEveryMode(ctx, s[i], e);
    OneFailsAll(ctx, s, i, e);
  }

  lemma {:induction false} OneFailsAll(ctx: Ctx, s: seq<Component>, i: nat, e: nat)
    requires InDoc(ctx.doc, e) && i < CompoundLength(s) && Simple(ctx, s[i], e).False?
    ensures Compound(ctx, s, e).False?
    decreases s
  {
    if i > 0 {
      CompoundLengthStep(s);
      OneFailsAll(ctx, s[1..], i - 1, e);
    }
  }

  lemma {:induction false} ComponentFailsInEveryMode(ctx: Ctx, c: Component, e: nat)
    requires InDoc(ctx.doc, e) && ComponentFails(EnvOf(ctx, Actual), c, e)
    ensures Simple(ctx, c, e).False?
    decreases c, 0
  {
    var env := EnvOf(ctx, Actual);
    if EverywhereIn(Computed, c) && !SimpleHolds(env, c, e) {
      ComputedComponentIsExact(ctx, c, e);
    } else if c.NthOf? {
      ListFailsInEveryMode(ctx, c.of, e);
    } else {
      ListFailsInEveryMode(ctx, c.list, e);
    }
  }

  lemma {:induction false} ListFailsInEveryMode(ctx: Ctx, list: seq<Selector>, e: nat)
    requires InDoc(ctx.doc, e) && ListFails(EnvOf(ctx, Actual), list, e)
    ensures SelectorList(ctx, list, e).False?
    decreases list, 0
  {
    if list != [] {
      if SubjectFails(EnvOf(ctx, Actual), list[0].comps, e) {
        FailsInEveryMode(ctx, list[0].comps, e);
      } else {
        ComputedIsExact(ctx, list[0].comps, e);
      }
      assert forall i :: 0 <= i < |list| - 1 ==> list[1..][i] == list[i + 1];
      ListFailsInEveryMode(ctx, list[1..], e);
    }
  }

  lemma ComputedComponentIsExact(ctx: Ctx, c: Component, e: nat)
    requires InDoc(ctx.doc, e) && EverywhereIn(Computed, c)
    ensures Simple(ctx, c, e) == FromBool(SimpleHolds(EnvOf(ctx, Actual), c, e))
  {
    var normal := ctx.(mode := Normal);
    SimpleModeless(ctx, normal, c, e);
    ComponentIsRegular(|ctx.doc.nodes|, c);
    SimpleIsSound(normal, EnvOf(ctx, Actual), c, e, true, true);
  }

  // ---------- The three-valued folds, by their items ----------

  /** A compound is true if all of its components are, false if one is, and open otherwise. */
  lemma {:induction false} CompoundByItems(ctx: Ctx, s: seq<Component>, e: nat)
    requires InDoc(ctx.doc, e)
    ensures Compound(ctx, s, e).True? <==> forall i :: 0 <= i < CompoundLength(s) ==> Simple(ctx, s[i], e).True?
    ensures Compound(ctx, s, e).False? <==> exists i :: 0 <= i < CompoundLength(s) && Simple(ctx, s[i], e).False?
    decreases s
  {
    if s != [] && !s[0].Combinator? {
      CompoundLengthStep(s);
      CompoundByItems(ctx, s[1..], e);
      assert forall i :: 0 < i < CompoundLength(s) ==> s[i] == s[1..][i - 1];
      assert forall i :: 0 <= i < CompoundLength(s[1..]) ==> s[1..][i] == s[i + 1];
    }
  }

  /** A list is true if one of its selectors matches, false if all fail, and open otherwise. */
  lemma {:induction false} ListByItems(ctx: Ctx, list: seq<Selector>, e: nat)
    requires InDoc(ctx.doc, e)
    ensures SelectorList(ctx, list, e).True? <==> exists i :: 0 <= i < |list| && Complex(ctx, list[i].comps, e).Matched?
    ensures SelectorList(ctx, list, e).False? <==>
            forall i :: 0 <= i < |list| ==> Complex(ctx, list[i].comps, e).IsFailure()
    decreases list
  {
    if list != [] {
      ListByItems(ctx, list[1..], e);
      assert forall i :: 0 < i < |list| ==> list[i] == list[1..][i - 1];
      assert forall i :: 0 <= i < |list| - 1 ==> list[1..][i] == list[i + 1];
    }
  }
}
