/** Which failure is raised when: how much the search is cut short. */
module Pruning {
  import opened Dom
  import opened Syntax
  import opened Kleene
  import opened Matching

  /** A search among ancestors fails only when they have run out, for the search or for the rest. */
  lemma {:induction false} DescendantFailsGlobally(ctx: Ctx, rest: seq<Component>, k: KleeneValue, e: nat)
    requires InDoc(ctx.doc, e) && !k.False? && (k.Unknown? ==> ctx.mode.Comparison?)
    ensures var r := Candidates(ctx, Descendant, rest, k, e); r.IsFailure() ==> r.NotMatchedGlobally?
    decreases e
  {
    if Parent(ctx.doc, e).Some? {
      DescendantFailsGlobally(ctx, rest, k, Parent(ctx.doc, e).value);
    }
  }

  /** From `e` backwards, `rest` fails to be restarted at each sibling, until it fails for good at one of them. */
  ghost predicate EndsGlobally(ctx: Ctx, rest: seq<Component>, e: nat)
    requires InDoc(ctx.doc, e)
  {
    var d := ctx.doc;
    exists f :: 0 <= f < |d.nodes| && EarlierSibling(d, f, e) && Complex(ctx, rest, f).NotMatchedGlobally?
                && forall g | 0 <= g < |d.nodes| && EarlierSibling(d, f, g) && EarlierSibling(d, g, e) ::
                     Complex(ctx, rest, g).RestartFromClosestLaterSibling?
  }

  /** A failed search among siblings never asks for another one. */
  lemma {:induction false} LaterSiblingFails(ctx: Ctx, rest: seq<Component>, k: KleeneValue, e: nat)
    requires InDoc(ctx.doc, e) && !k.False? && (k.Unknown? ==> ctx.mode.Comparison?)
    requires Candidates(ctx, LaterSibling, rest, k, e).IsFailure()
    ensures Candidates(ctx, LaterSibling, rest, k, e) ==
            if EndsGlobally(ctx, rest, e) then NotMatchedGlobally else RestartFromClosestDescendant
    decreases e
  {
    var d := ctx.doc;
    if Prev(d, e).Some? {
      var p := Prev(d, e).value;
      if Complex(ctx, rest, p).RestartFromClosestLaterSibling? {
        LaterSiblingFails(ctx, rest, k, p);
        EndsStep(ctx, rest, e);
      } else {
        EndsAtOnce(ctx, rest, e);
      }
    }
  }

  lemma EndsStep(ctx: Ctx, rest: seq<Component>, e: nat)
    requires InDoc(ctx.doc, e) && Prev(ctx.doc, e).Some?
    requires Complex(ctx, rest, Prev(ctx.doc, e).value).RestartFromClosestLaterSibling?
    ensures EndsGlobally(ctx, rest, e) <==> EndsGlobally(ctx, rest, Prev(ctx.doc, e).value)
  {
    var d, p := ctx.doc, Prev(ctx.doc, e).value;
    forall g | 0 <= g < |d.nodes| ensures EarlierSibling(d, g, e) <==> g == p || EarlierSibling(d, g, p) {
    }
    if EndsGlobally(ctx, rest, e) {
      var f :| 0 <= f < |d.nodes| && EarlierSibling(d, f, e) && Complex(ctx, rest, f).NotMatchedGlobally?
               && forall g | 0 <= g < |d.nodes| && EarlierSibling(d, f, g) && EarlierSibling(d, g, e) ::
                    Complex(ctx, rest, g).RestartFromClosestLaterSibling?;
      assert EarlierSibling(d, f, p);
    }
    if EndsGlobally(ctx, rest, p) {
      var f :| 0 <= f < |d.nodes| && EarlierSibling(d, f, p) && Complex(ctx, rest, f).NotMatchedGlobally?
               && forall g | 0 <= g < |d.nodes| && EarlierSibling(d, f, g) && EarlierSibling(d, g, p) ::
                    Complex(ctx, rest, g).RestartFromClosestLaterSibling?;
      assert EarlierSibling(d, f, e);
    }
  }

  lemma EndsAtOnce(ctx: Ctx, rest: seq<Component>, e: nat)
    requires InDoc(ctx.doc, e) && Prev(ctx.doc, e).Some?
    requires !Complex(ctx, rest, Prev(ctx.doc, e).value).RestartFromClosestLaterSibling?
    ensures EndsGlobally(ctx, rest, e) <==> Complex(ctx, rest, Prev(ctx.doc, e).value).NotMatchedGlobally?
  {
    var d, p := ctx.doc, Prev(ctx.doc, e).value;
    forall f, g | 0 <= f < |d.nodes| && 0 <= g < |d.nodes| && EarlierSibling(d, f, g) && EarlierSibling(d, g, e)
      ensures f != p
    {
      EarlierSiblingInDoc(d, f, g);
      if g != p {
        EarlierSiblingInDoc(d, g, p);
      }
    }
  }

  /** Each failure is raised exactly when the matcher's documentation says. */
  lemma FailuresAreRaised(ctx: Ctx, s: seq<Component>, e: nat)
    requires InDoc(ctx.doc, e) && Complex(ctx, s, e).IsFailure()
    ensures var r := Complex(ctx, s, e);
            if Compound(ctx, s, e).False? || NextCombinator(s).None? then r.RestartFromClosestLaterSibling?
            else
              var rest := AfterCombinator(s);
              match NextCombinator(s).value
              case Descendant => r.NotMatchedGlobally?
              case Child =>
                if Parent(ctx.doc, e).None? || Complex(ctx, rest, Parent(ctx.doc, e).value).NotMatchedGlobally?
                then r.NotMatchedGlobally? else r.RestartFromClosestDescendant?
              case NextSibling =>
                if Prev(ctx.doc, e).None? then r.RestartFromClosestDescendant?
                else r == Complex(ctx, rest, Prev(ctx.doc, e).value)
              case LaterSibling =>
                if EndsGlobally(ctx, rest, e) then r.NotMatchedGlobally? else r.RestartFromClosestDescendant?
  {
    var k := Compound(ctx, s, e);
    if NextCombinator(s).Some? && !k.False? {
      var rest := AfterCombinator(s);
      match NextCombinator(s).value {
        case Descendant => DescendantFailsGlobally(ctx, rest, k, e);
        case LaterSibling => LaterSiblingFails(ctx, rest, k, e);
        case _ =>
      }
    }
  }
}
