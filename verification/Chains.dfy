/**
 The textbook reading of a complex selector: an assignment of elements to its
 compounds that satisfies every compound and every combinator (section 8 of
 Selectors Level 3).  `Matches` is the same thing unfolded one combinator at a
 time.
 */
module Chains {
  import opened Dom
  import opened Syntax
  import opened Semantics

  /** `chain` assigns an element to each compound, the subject first. */
  ghost predicate IsChain(env: Env, s: seq<Component>, chain: seq<nat>) {
    && |chain| == |Compounds(s)|
    && (forall i :: 0 <= i < |chain| ==> InDoc(env.doc, chain[i]))
    && (forall i, j :: 0 <= i < |chain| && 0 <= j < |Compounds(s)[i]| ==>
          SimpleHolds(env, Compounds(s)[i][j], chain[i]))
    && (forall i :: 0 <= i < |Combinators(s)| ==> Related(env.doc, Combinators(s)[i], chain[i], chain[i + 1]))
  }

  lemma {:induction false} ChainFromMatch(env: Env, s: seq<Component>, e: nat) returns (chain: seq<nat>)
    requires InDoc(env.doc, e) && Matches(env, s, e)
    ensures IsChain(env, s, chain) && chain[0] == e
    decreases |s|
  {
    chain := [e];
    if NextCombinator(s).Some? {
      var rest := AfterCombinator(s);
      var f :| 0 <= f < |env.doc.nodes| && Related(env.doc, NextCombinator(s).value, e, f) && Matches(env, rest, f);
      var tail := ChainFromMatch(env, rest, f);
      chain := [e] + tail;
      assert Compounds(s)[1..] == Compounds(rest) && Combinators(s)[1..] == Combinators(rest) && chain[1..] == tail;
      forall i, j | 0 <= i < |chain| && 0 <= j < |Compounds(s)[i]|
        ensures SimpleHolds(env, Compounds(s)[i][j], chain[i])
      {
        assert i > 0 ==> Compounds(s)[i] == Compounds(rest)[i - 1] && chain[i] == tail[i - 1];
      }
      forall i | 0 <= i < |Combinators(s)| ensures Related(env.doc, Combinators(s)[i], chain[i], chain[i + 1]) {
        assert i > 0 ==> Combinators(s)[i] == Combinators(rest)[i - 1];
      }
    }
  }

  lemma {:induction false} MatchFromChain(env: Env, s: seq<Component>, chain: seq<nat>)
    requires IsChain(env, s, chain)
    ensures Matches(env, s, chain[0])
    decreases |s|
  {
    assert forall j :: 0 <= j < CompoundLength(s) ==> Compounds(s)[0][j] == s[j];
    if NextCombinator(s).Some? {
      var rest := AfterCombinator(s);
      assert Compounds(s)[1..] == Compounds(rest) && Combinators(s)[1..] == Combinators(rest);
      forall i, j | 0 <= i < |chain[1..]| && 0 <= j < |Compounds(rest)[i]|
        ensures SimpleHolds(env, Compounds(rest)[i][j], chain[1..][i])
      {
        assert Compounds(rest)[i] == Compounds(s)[i + 1];
      }
      forall i | 0 <= i < |Combinators(rest)|
        ensures Related(env.doc, Combinators(rest)[i], chain[1..][i], chain[1..][i + 1])
      {
        assert Combinators(rest)[i] == Combinators(s)[i + 1];
      }
      MatchFromChain(env, rest, chain[1..]);
      assert Related(env.doc, Combinators(s)[0], chain[0], chain[1]);
    }
  }

  lemma MatchesIffChain(env: Env, s: seq<Component>, e: nat)
    requires InDoc(env.doc, e)
    ensures Matches(env, s, e) <==> exists chain :: IsChain(env, s, chain) && chain[0] == e
  {
    if Matches(env, s, e) {
      var chain := ChainFromMatch(env, s, e);
    }
    forall chain | IsChain(env, s, chain) && chain[0] == e ensures Matches(env, s, e) {
      MatchFromChain(env, s, chain);
    }
  }
}
