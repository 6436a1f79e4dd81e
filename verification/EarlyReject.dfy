/** Rejecting an element by the local names a selector asks for. */
module EarlyReject {
  import opened Dom
  import opened Syntax
  import opened Semantics
  import opened SimpleMeaning

  /** Some component of the compound at the front of `s` names another element; also through `:is()` and `:where()`. */
  predicate RejectedByLocalName(d: Doc, s: seq<Component>, e: nat)
    requires InDoc(d, e)
    decreases s, 0
  {
    && s != [] && !s[0].Combinator?
    && (RejectedByComponent(d, s[0], e) || RejectedByLocalName(d, s[1..], e))
  }

  predicate RejectedByComponent(d: Doc, c: Component, e: nat)
    requires InDoc(d, e)
    decreases c, 0
  {
    match c
    case LocalName(name, lowerName) => !MatchesLocalName(d, e, name, lowerName)
    case Is(list) => AllRejected(d, list, e)
    case Where(list) => AllRejected(d, list, e)
    case _ => false
  }

  /** Holds of an empty list, which matches nothing. */
  predicate AllRejected(d: Doc, list: seq<Selector>, e: nat)
    requires InDoc(d, e)
    decreases list, 0
  {
    list == [] || (RejectedByLocalName(d, list[0].comps, e) && AllRejected(d, list[1..], e))
  }

  /** A rejected element does not match, in whatever reading of the rest of the selector. */
  lemma {:induction false} EarlyRejectIsSound(env: Env, s: seq<Component>, e: nat)
    requires InDoc(env.doc, e) && RejectedByLocalName(env.doc, s, e)
    ensures !CompoundHolds(env, s, e) && !Matches(env, s, e)
    decreases s, 0
  {
    CompoundLengthStep(s);
    if RejectedByComponent(env.doc, s[0], e) {
      RejectedComponentFails(env, s[0], e);
      var i := 0;
      assert i < CompoundLength(s) && !SimpleHolds(env, s[i], e);
    } else {
      EarlyRejectIsSound(env, s[1..], e);
      var i :| 0 <= i < CompoundLength(s[1..]) && !SimpleHolds(env, s[1..][i], e);
      assert s[1..][i] == s[i + 1];
    }
  }

  lemma {:induction false} RejectedComponentFails(env: Env, c: Component, e: nat)
    requires InDoc(env.doc, e) && RejectedByComponent(env.doc, c, e)
    ensures !SimpleHolds(env, c, e)
    decreases c, 0
  {
    if c.Is? || c.Where? {
      AllRejectedFail(env, c.list, e);
    }
  }

  lemma {:induction false} AllRejectedFail(env: Env, list: seq<Selector>, e: nat)
    requires InDoc(env.doc, e) && AllRejected(env.doc, list, e)
    ensures !SomeHolds(env, list, e)
    decreases list, 0
  {
    if list != [] {
      EarlyRejectIsSound(env, list[0].comps, e);
      AllRejectedFail(env, list[1..], e);
      assert forall i :: 1 <= i < |list| ==> list[i] == list[1..][i - 1];
    }
  }

  // ---------- When an element is rejected ----------

  /** Each component of the compound at the front of `s` admits the local name of `e`. */
  predicate Admits(d: Doc, s: seq<Component>, e: nat)
    requires InDoc(d, e)
    decreases s, 0
  {
    forall i :: 0 <= i < CompoundLength(s) ==> AdmitsName(d, s[i], e)
  }

  /** A type selector admits its own name, `:is()` and `:where()` what one of their selectors does, others any. */
  predicate AdmitsName(d: Doc, c: Component, e: nat)
    requires InDoc(d, e)
    decreases c, 0
  {
    var n := d.nodes[e];
    match c
    case LocalName(name, lowerName) => HasName(n, n.localName, name, lowerName)
    case Is(list) => exists i :: 0 <= i < |list| && Admits(d, list[i].comps, e)
    case Where(list) => exists i :: 0 <= i < |list| && Admits(d, list[i].comps, e)
    case _ => true
  }

  /** An element is rejected exactly if some component does not admit its name. */
  lemma {:induction false} RejectedIff(d: Doc, s: seq<Component>, e: nat)
    requires InDoc(d, e)
    ensures RejectedByLocalName(d, s, e) <==> !Admits(d, s, e)
    decreases s, 0
  {
    if s != [] && !s[0].Combinator? {
      CompoundLengthStep(s);
      ComponentRejectedIff(d, s[0], e);
      RejectedIff(d, s[1..], e);
      assert forall i :: 1 <= i < CompoundLength(s) ==> s[i] == s[1..][i - 1];
    }
  }

  lemma {:induction false} ComponentRejectedIff(d: Doc, c: Component, e: nat)
    requires InDoc(d, e)
    ensures RejectedByComponent(d, c, e) <==> !AdmitsName(d, c, e)
    decreases c, 0
  {
    if c.Is? || c.Where? {
      AllRejectedIff(d, c.list, e);
    }
  }

  lemma {:induction false} AllRejectedIff(d: Doc, list: seq<Selector>, e: nat)
    requires InDoc(d, e)
    ensures AllRejected(d, list, e) <==> !exists i :: 0 <= i < |list| && Admits(d, list[i].comps, e)
    decreases list, 0
  {
    if list != [] {
      RejectedIff(d, list[0].comps, e);
      AllRejectedIff(d, list[1..], e);
      assert forall i :: 1 <= i < |list| ==> list[i] == list[1..][i - 1];
    }
  }
}
