/** What follows for each of the four matching modes. */
module MatchingTheorems {
  import opened Wrappers
  import opened Dom
  import opened Syntax
  import opened Semantics
  import opened Matching
  import opened RelativeHint
  import opened Soundness
  import opened Chains

  ghost predicate WellFormed(d: Doc, s: seq<Component>) {
    Everywhere(Regular(|d.nodes|), s)
  }

  /** Normal matching succeeds exactly if elements can be assigned to all compounds. */
  lemma NormalMatchingIsExact(ctx: Ctx, s: seq<Component>, e: nat)
    requires InDoc(ctx.doc, e) && ctx.mode.Normal? && WellFormed(ctx.doc, s)
    ensures Complex(ctx, s, e).Matched? <==>
            exists chain :: IsChain(EnvOf(ctx, Actual), s, chain) && chain[0] == e
    ensures !Complex(ctx, s, e).UnknownResult?
  {
    ComplexIsSound(ctx, EnvOf(ctx, Actual), s, e, true, true);
    MatchesIffChain(EnvOf(ctx, Actual), s, e);
  }

  /** The two stronger failures say what they prune. */
  lemma PruningIsRight(ctx: Ctx, s: seq<Component>, e: nat, f: nat)
    requires InDoc(ctx.doc, e) && InDoc(ctx.doc, f) && ctx.mode.Normal? && WellFormed(ctx.doc, s)
    ensures Complex(ctx, s, e).RestartFromClosestDescendant? && (f == e || EarlierSibling(ctx.doc, f, e)) ==>
              Complex(ctx, s, f).IsFailure()
    ensures Complex(ctx, s, e).NotMatchedGlobally? && Reaches(ctx.doc, e, f) ==>
              Complex(ctx, s, f).IsFailure()
  {
    ComplexIsSound(ctx, EnvOf(ctx, Actual), s, e, true, true);
    ComplexIsSound(ctx, EnvOf(ctx, Actual), s, f, true, true);
  }

  /** `:has()` with a search hint answers for the whole document. */
  lemma HasLosesNothing(ctx: Ctx, relative: RelativeSelector, e: nat)
    requires InDoc(ctx.doc, e) && ctx.mode.Normal? && ctx.anchor.None?
    requires WellFormedRelative(relative) && WellFormed(ctx.doc, relative.selector.comps)
    ensures Relative(ctx.(anchor := Some(e)), relative, e) <==>
            RelativeHolds(EnvOf(ctx, Actual).(anchor := Some(e)), relative)
  {
    RelativeIsSound(ctx.(anchor := Some(e)), EnvOf(ctx, Actual).(anchor := Some(e)), relative, e, true, true);
  }

  /** Outside of `:not()` invalidation never misses a match, however the parts it does not compute turn out. */
  lemma InvalidationMissesNothing(ctx: Ctx, reading: Reading, s: seq<Component>, e: nat)
    requires InDoc(ctx.doc, e) && ctx.mode.Invalidation? && !ctx.inNegation
    requires Matches(EnvOf(ctx, reading), s, e)
    ensures Complex(ctx, s, e).Matched?
  {
    ComplexIsSound(ctx, EnvOf(ctx, reading), s, e, true, false);
  }

  /** Inside an odd number of `:not()`s it is the other way round. */
  lemma InvalidationInventsNothing(ctx: Ctx, reading: Reading, s: seq<Component>, e: nat)
    requires InDoc(ctx.doc, e) && ctx.mode.Invalidation? && ctx.inNegation
    requires !Matches(EnvOf(ctx, reading), s, e)
    ensures Complex(ctx, s, e).IsFailure()
  {
    ComplexIsSound(ctx, EnvOf(ctx, reading), s, e, false, true);
  }

  /** A definite answer of comparison mode is the answer under every reading of the parts it does not compute. */
  lemma ComparisonIsSound(ctx: Ctx, reading: Reading, s: seq<Component>, e: nat)
    requires InDoc(ctx.doc, e) && ctx.mode.Comparison?
    ensures Complex(ctx, s, e).Matched? ==> Matches(EnvOf(ctx, reading), s, e)
    ensures Complex(ctx, s, e).IsFailure() ==> !Matches(EnvOf(ctx, reading), s, e)
  {
    ComplexIsSound(ctx, EnvOf(ctx, reading), s, e, true, true);
  }

  /** Revalidation is conservative too, as long as the counts that are made are the true ones. */
  lemma RevalidationIsConservative(ctx: Ctx, s: seq<Component>, e: nat)
    requires InDoc(ctx.doc, e) && ctx.mode.Revalidation? && WellFormed(ctx.doc, s)
    requires CountsTruly(ctx, s)
    ensures !ctx.inNegation && Matches(EnvOf(ctx, Actual), s, e) ==> Complex(ctx, s, e).Matched?
    ensures ctx.inNegation && !Matches(EnvOf(ctx, Actual), s, e) ==> Complex(ctx, s, e).IsFailure()
  {
    ComplexIsSound(ctx, EnvOf(ctx, Actual), s, e, !ctx.inNegation, ctx.inNegation);
  }

  /** Without any `:scope` revalidation is as exact as normal matching. */
  lemma RevalidationIsExactWithoutScope(ctx: Ctx, s: seq<Component>, e: nat)
    requires InDoc(ctx.doc, e) && ctx.mode.Revalidation? && WellFormed(ctx.doc, s)
    requires Everywhere(NotScope, s)
    ensures Complex(ctx, s, e).Matched? <==> Matches(EnvOf(ctx, Actual), s, e)
  {
    ComplexIsSound(ctx, EnvOf(ctx, Actual), s, e, true, true);
  }
}
