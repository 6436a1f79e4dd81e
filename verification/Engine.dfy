/** The entry points: match one selector, fast-rejecting by the Bloom filter, or any selector of a list. */
module Engine {
  import opened Wrappers
  import opened Dom
  import opened Syntax
  import opened Kleene
  import opened Semantics
  import opened Matching
  import opened Soundness
  import opened MatchingTheorems
  import opened Modeless
  import opened Matcher
  import opened Bloom
  import opened AncestorHashes

  /** Whether an answer of False is to be believed: always, but inside of a `:not()` only if everything is computed. */
  ghost predicate NoIsNo(ctx: Ctx, s: seq<Component>) {
    match ctx.mode
    case Normal => true
    case Comparison => true
    case Invalidation => !ctx.inNegation
    case Revalidation => Everywhere(NotScope, s) || (!ctx.inNegation && CountsTruly(ctx, s))
  }

  /** Whether an answer of True is to be believed. */
  ghost predicate YesIsYes(ctx: Ctx, s: seq<Component>) {
    match ctx.mode
    case Normal => true
    case Comparison => true
    case Invalidation => ctx.inNegation
    case Revalidation => Everywhere(NotScope, s) || (ctx.inNegation && CountsTruly(ctx, s))
  }

  /** What an answer is worth: in the modes that leave parts uncomputed it holds for every reading of them. */
  ghost predicate Answers(ctx: Ctx, k: KleeneValue, s: seq<Component>, e: nat)
    requires InDoc(ctx.doc, e)
  {
    && (k.Unknown? ==> ctx.mode.Comparison?)
    && forall reading: Reading {:trigger EnvOf(ctx, reading)} :: ctx.mode.IsForInvalidation() || reading.Actual? ==>
         Sound(k, Matches(EnvOf(ctx, reading), s, e), NoIsNo(ctx, s), YesIsYes(ctx, s))
  }

  lemma MatcherAnswers(ctx: Ctx, s: seq<Component>, e: nat)
    requires InDoc(ctx.doc, e) && (!ctx.mode.IsForInvalidation() ==> WellFormed(ctx.doc, s))
    ensures Answers(ctx, Complex(ctx, s, e).ToKleene(), s, e)
  {
    forall reading: Reading {:trigger EnvOf(ctx, reading)} | ctx.mode.IsForInvalidation() || reading.Actual?
      ensures Sound(Complex(ctx, s, e).ToKleene(), Matches(EnvOf(ctx, reading), s, e), NoIsNo(ctx, s), YesIsYes(ctx, s))
    {
      if NoIsNo(ctx, s) || YesIsYes(ctx, s) {
        ComplexIsSound(ctx, EnvOf(ctx, reading), s, e, NoIsNo(ctx, s), YesIsYes(ctx, s));
      }
    }
  }

  lemma RejectionAnswers(ctx: Ctx, hasher: Hasher, s: seq<Component>, e: nat, filter: CountingBloomFilter)
    requires InDoc(ctx.doc, e) && HoldsAncestors(hasher, ctx.doc, filter, e)
    requires !MayMatch(HashesOf(hasher, s), filter)
    ensures Answers(ctx, False, s, e)
  {
    forall reading: Reading ensures !Matches(EnvOf(ctx, reading), s, e) {
      if Matches(EnvOf(ctx, reading), s, e) {
        FastRejectIsSound(hasher, EnvOf(ctx, reading), s, e, filter);
      }
    }
  }

  /** Whether the hashes of the selector and the filter rule it out. */
  ghost predicate Rejected(hashes: Option<AncestorHashes>, filter: CountingBloomFilter?)
    requires filter != null ==> filter.counters.Length == ARRAY_SIZE
    reads filter, if filter == null then {} else {filter.counters}
  {
    hashes.Some? && filter != null && !MayMatch(hashes.value, filter)
  }

  /** What the element alone decides is answered so in every mode. */
  ghost predicate AnswersComputed(ctx: Ctx, k: KleeneValue, s: seq<Component>, e: nat)
    requires InDoc(ctx.doc, e)
  {
    && (Everywhere(Computed, s) ==> k == FromBool(Matches(EnvOf(ctx, Actual), s, e)))
    && (SubjectFails(EnvOf(ctx, Actual), s, e) ==> k == False)
  }

  lemma MatcherAnswersComputed(ctx: Ctx, s: seq<Component>, e: nat)
    requires InDoc(ctx.doc, e)
    ensures AnswersComputed(ctx, Complex(ctx, s, e).ToKleene(), s, e)
  {
    if Everywhere(Computed, s) {
      ComputedIsExact(ctx, s, e);
    }
    if SubjectFails(EnvOf(ctx, Actual), s, e) {
      FailsInEveryMode(ctx, s, e);
    }
  }

  lemma RejectionAnswersComputed(ctx: Ctx, hasher: Hasher, s: seq<Component>, e: nat, filter: CountingBloomFilter)
    requires InDoc(ctx.doc, e) && HoldsAncestors(hasher, ctx.doc, filter, e)
    requires !MayMatch(HashesOf(hasher, s), filter)
    ensures AnswersComputed(ctx, False, s, e)
  {
    if Matches(EnvOf(ctx, Actual), s, e) {
      FastRejectIsSound(hasher, EnvOf(ctx, Actual), s, e, filter);
    }
  }

  /**
   The answer of the matcher, unless the filter rules the selector out.  The caches and the search
   hints change nothing, and the filter nothing about what the answer is worth.
   */
  method MatchesSelectorKleene(context: MatchingContext, selector: Selector, hashes: Option<AncestorHashes>,
                               filter: CountingBloomFilter?, ghost hasher: Hasher, e: nat) returns (k: KleeneValue)
    requires context.Valid() && InDoc(context.doc, e)
    requires !context.mode.IsForInvalidation() ==> WellFormed(context.doc, selector.comps)
    requires Cacheable(context.View(), context.uses, selector.comps)
    requires hashes.Some? ==> hashes.value == HashesOf(hasher, selector.comps)
    requires filter != null ==> HoldsAncestors(hasher, context.doc, filter, e)
    modifies context, context.nthIndex, context.relativeSelector, context.relativeSelectorFilterMap
    ensures context.Valid() && context.View() == old(context.View()) &&
            context.nestingLevel == old(context.nestingLevel)
    ensures k == if Rejected(hashes, filter) then False else Complex(context.View(), selector.comps, e).ToKleene()
    ensures Answers(context.View(), k, selector.comps, e)
    ensures AnswersComputed(context.View(), k, selector.comps, e)
  {
    if hashes.Some? && filter != null {
      var mayMatch := SelectorMayMatch(hashes.value, filter);
      if !mayMatch {
        RejectionAnswers(context.View(), hasher, selector.comps, e, filter);
        RejectionAnswersComputed(context.View(), hasher, selector.comps, e, filter);
        return False;
      }
    }
    var r := context.MatchesComplexSelector(selector.comps, e);
    MatcherAnswers(context.View(), selector.comps, e);
    MatcherAnswersComputed(context.View(), selector.comps, e);
    k := r.ToKleene();
  }

  /** What a boolean answer is worth, Unknown having been read as a match. */
  ghost predicate AnswersBool(ctx: Ctx, b: bool, s: seq<Component>, e: nat)
    requires InDoc(ctx.doc, e)
  {
    forall reading: Reading {:trigger EnvOf(ctx, reading)} :: ctx.mode.IsForInvalidation() || reading.Actual? ==>
      && (!b && NoIsNo(ctx, s) ==> !Matches(EnvOf(ctx, reading), s, e))
      && (b && YesIsYes(ctx, s) && !ctx.mode.Comparison? ==> Matches(EnvOf(ctx, reading), s, e))
  }

  /** In normal mode, and under revalidation without `:scope`, exactly whether the selector matches. */
  method MatchesSelector(context: MatchingContext, selector: Selector, hashes: Option<AncestorHashes>,
                         filter: CountingBloomFilter?, ghost hasher: Hasher, e: nat) returns (b: bool)
    requires context.Valid() && InDoc(context.doc, e)
    requires !context.mode.IsForInvalidation() ==> WellFormed(context.doc, selector.comps)
    requires Cacheable(context.View(), context.uses, selector.comps)
    requires hashes.Some? ==> hashes.value == HashesOf(hasher, selector.comps)
    requires filter != null ==> HoldsAncestors(hasher, context.doc, filter, e)
    modifies context, context.nthIndex, context.relativeSelector, context.relativeSelectorFilterMap
    ensures context.Valid() && context.View() == old(context.View())
    ensures context.nestingLevel == old(context.nestingLevel)
    ensures b == (!Rejected(hashes, filter) && !Complex(context.View(), selector.comps, e).IsFailure())
    ensures AnswersBool(context.View(), b, selector.comps, e)
    ensures Everywhere(Computed, selector.comps) ==> b == Matches(EnvOf(context.View(), Actual), selector.comps, e)
    ensures SubjectFails(EnvOf(context.View(), Actual), selector.comps, e) ==> !b
    ensures context.mode.Normal? || (context.mode.Revalidation? && Everywhere(NotScope, selector.comps)) ==>
              b == Matches(EnvOf(context.View(), Actual), selector.comps, e)
  {
    var k := MatchesSelectorKleene(context, selector, hashes, filter, hasher, e);
    b := k.ToBool(true);
    assert AnswersBool(context.View(), b, selector.comps, e);
    ghost var env := EnvOf(context.View(), Actual);
  }

  /** Every answer of False is to be believed, for each selector of the list; and every answer of True. */
  ghost predicate AllNoIsNo(ctx: Ctx, list: seq<Selector>) {
    forall i :: 0 <= i < |list| ==> NoIsNo(ctx, list[i].comps)
  }

  ghost predicate AllYesIsYes(ctx: Ctx, list: seq<Selector>) {
    forall i :: 0 <= i < |list| ==> YesIsYes(ctx, list[i].comps)
  }

  /** What the answer about a list is worth. */
  ghost predicate AnswersList(ctx: Ctx, b: bool, list: seq<Selector>, e: nat)
    requires InDoc(ctx.doc, e)
  {
    forall reading: Reading {:trigger EnvOf(ctx, reading)} :: ctx.mode.IsForInvalidation() || reading.Actual? ==>
      && (!b && AllNoIsNo(ctx, list) ==> !SomeHolds(EnvOf(ctx, reading), list, e))
      && (b && AllYesIsYes(ctx, list) && !ctx.mode.Comparison? ==> SomeHolds(EnvOf(ctx, reading), list, e))
  }

  lemma OneAnswersYes(ctx: Ctx, list: seq<Selector>, i: nat, e: nat)
    requires InDoc(ctx.doc, e) && i < |list| && AnswersBool(ctx, true, list[i].comps, e)
    ensures AnswersList(ctx, true, list, e)
  {
  }

  /** The first `n` selectors have been answered, with False. */
  ghost predicate AnsweredNo(ctx: Ctx, list: seq<Selector>, n: nat, e: nat)
    requires InDoc(ctx.doc, e) && n <= |list|
  {
    forall i :: 0 <= i < n ==> AnswersBool(ctx, false, list[i].comps, e)
  }

  lemma AnsweredMore(ctx: Ctx, list: seq<Selector>, n: nat, e: nat)
    requires InDoc(ctx.doc, e) && n < |list| && AnsweredNo(ctx, list, n, e)
    requires AnswersBool(ctx, false, list[n].comps, e)
    ensures AnsweredNo(ctx, list, n + 1, e)
  {
  }

  lemma AllAnswerNo(ctx: Ctx, list: seq<Selector>, e: nat)
    requires InDoc(ctx.doc, e) && AnsweredNo(ctx, list, |list|, e)
    ensures AnswersList(ctx, false, list, e)
  {
  }

  lemma NormalAnswers(ctx: Ctx, b: bool, list: seq<Selector>, e: nat)
    requires InDoc(ctx.doc, e) && ctx.mode.Normal? && AnswersList(ctx, b, list, e)
    ensures b == SomeHolds(EnvOf(ctx, Actual), list, e)
  {
    var env := EnvOf(ctx, Actual);
    assert AllNoIsNo(ctx, list) && AllYesIsYes(ctx, list);
  }

  ghost predicate SomeAnswersYes(ctx: Ctx, list: seq<Selector>, n: nat, e: nat)
    requires InDoc(ctx.doc, e) && n <= |list|
  {
    exists i :: 0 <= i < n && !Complex(ctx, list[i].comps, e).IsFailure()
  }

  lemma ListAnswersComputed(ctx: Ctx, list: seq<Selector>, e: nat)
    requires InDoc(ctx.doc, e)
    ensures EverywhereInList(Computed, list) ==>
              (SomeAnswersYes(ctx, list, |list|, e) <==> SomeHolds(EnvOf(ctx, Actual), list, e))
    ensures ListFails(EnvOf(ctx, Actual), list, e) ==> !SomeAnswersYes(ctx, list, |list|, e)
  {
    forall i | 0 <= i < |list|
      ensures AnswersComputed(ctx, Complex(ctx, list[i].comps, e).ToKleene(), list[i].comps, e)
    {
      MatcherAnswersComputed(ctx, list[i].comps, e);
    }
  }

  method MatchesSelectorList(context: MatchingContext, list: seq<Selector>, ghost hasher: Hasher, e: nat)
    returns (b: bool)
    requires context.Valid() && InDoc(context.doc, e)
    requires !context.mode.IsForInvalidation() ==> EverywhereInList(Regular(|context.doc.nodes|), list)
    requires CacheableList(context.View(), context.uses, list)
    modifies context, context.nthIndex, context.relativeSelector, context.relativeSelectorFilterMap
    ensures context.Valid() && context.View() == old(context.View())
    ensures b == SomeAnswersYes(context.View(), list, |list|, e)
    ensures AnswersList(context.View(), b, list, e)
    ensures EverywhereInList(Computed, list) ==> b == SomeHolds(EnvOf(context.View(), Actual), list, e)
    ensures ListFails(EnvOf(context.View(), Actual), list, e) ==> !b
    ensures context.mode.Normal? ==> b == SomeHolds(EnvOf(context.View(), Actual), list, e)
  {
    ghost var ctx := context.View();
    ListAnswersComputed(ctx, list, e);
    for i := 0 to |list|
      invariant context.Valid() && context.View() == ctx
      invariant AnsweredNo(ctx, list, i, e) && !SomeAnswersYes(ctx, list, i, e)
    {
      var matches := MatchesSelector(context, list[i], None, null, hasher, e);
      if matches {
        OneAnswersYes(ctx, list, i, e);
        if ctx.mode.Normal? {
          NormalAnswers(ctx, true, list, e);
        }
        return true;
      }
      AnsweredMore(ctx, list, i, e);
    }
    AllAnswerNo(ctx, list, e);
    if ctx.mode.Normal? {
      NormalAnswers(ctx, false, list, e);
    }
    b := false;
  }
}
