/**
 What the matcher computes, as functions of the selector, the element and the
 matching context: pruned backtracking over the combinators, three-valued
 compounds and lists, the `:has` search by hint, the nth index without its
 cache, and the four matching modes.
 */
module Matching {
  import opened Wrappers
  import opened Dom
  import opened Syntax
  import opened Kleene
  import Semantics

  /** Normal styling, revalidation of style sharing, invalidation, and before/after comparison in invalidation. */
  datatype Mode = Normal | Revalidation | Invalidation | Comparison {
    /** The tree-dependent components are answered without being computed. */
    predicate IsForInvalidation() { Invalidation? || Comparison? }
  }

  datatype Ctx = Ctx(doc: Doc, mode: Mode, scope: Option<nat>, anchor: Option<nat>, inNegation: bool)

  /** Success, and the three failures that tell which enclosing search is to go on. */
  datatype MatchResult =
    | Matched
    | RestartFromClosestLaterSibling
    | RestartFromClosestDescendant
    | NotMatchedGlobally
    | UnknownResult
  {
    predicate IsFailure() {
      RestartFromClosestLaterSibling? || RestartFromClosestDescendant? || NotMatchedGlobally?
    }

    function ToKleene(): KleeneValue {
      match this
      case Matched => True
      case UnknownResult => Unknown
      case _ => False
    }
  }

  function NextElement(d: Doc, c: Combinator, e: nat): (r: Option<nat>)
    requires InDoc(d, e)
    ensures r.Some? ==> r.value < e
  {
    if c.IsSibling() then Prev(d, e) else Parent(d, e)
  }

  function CandidateNotFound(c: Combinator): MatchResult {
    if c.IsSibling() then RestartFromClosestDescendant else NotMatchedGlobally
  }

  /** The answer of the modes that do not look at the document: unknown, or whichever invalidates more. */
  function Uncomputed(ctx: Ctx): KleeneValue {
    if ctx.mode.Comparison? then Unknown else FromBool(!ctx.inNegation)
  }

  function Simple(ctx: Ctx, c: Component, e: nat): (k: KleeneValue)
    requires InDoc(ctx.doc, e)
    ensures k.Unknown? ==> ctx.mode.Comparison?
    decreases c, 5
  {
    if Semantics.IsPlain(c) then FromBool(Semantics.PlainHolds(ctx.doc, c, e))
    else match c
      case ParentSelector => FromBool(Semantics.IsScope(ctx.doc, ctx.scope, e))
      case Scope => ScopeValue(ctx, e)
      case ImplicitScope => ScopeValue(ctx, e)
      case Nth(_) => GenericNth(ctx, c, c.nth, e)
      case NthOf(_, _) => GenericNth(ctx, c, c.nth, e)
      case Is(list) => SelectorList(ctx, list, e)
      case Where(list) => SelectorList(ctx, list, e)
      case Negation(list) => Not(SelectorList(ctx.(inNegation := !ctx.inNegation), list, e))
      case Has(relatives) =>
        if ctx.anchor.Some? then False
        else if ctx.mode.IsForInvalidation() then Uncomputed(ctx)
        else FromBool(SomeRelative(ctx.(anchor := Some(e)), relatives, e))
      case RelativeSelectorAnchor => FromBool(ctx.anchor.None? || ctx.anchor == Some(e))
      case _ => False
  }

  function ScopeValue(ctx: Ctx, e: nat): KleeneValue
    requires InDoc(ctx.doc, e)
  {
    if ctx.mode.Normal? then FromBool(Semantics.IsScope(ctx.doc, ctx.scope, e)) else Uncomputed(ctx)
  }

  /** The conjunction of the compound at the front of `s`. */
  function Compound(ctx: Ctx, s: seq<Component>, e: nat): (k: KleeneValue)
    requires InDoc(ctx.doc, e)
    ensures k.Unknown? ==> ctx.mode.Comparison?
    decreases s, 0
  {
    if s == [] || s[0].Combinator? then True
    else And(Simple(ctx, s[0], e), Compound(ctx, s[1..], e))
  }

  function SelectorList(ctx: Ctx, list: seq<Selector>, e: nat): (k: KleeneValue)
    requires InDoc(ctx.doc, e)
    ensures k.Unknown? ==> ctx.mode.Comparison?
    decreases list, 0
  {
    if list == [] then False
    else Or(Complex(ctx, list[0].comps, e).ToKleene(), SelectorList(ctx, list[1..], e))
  }

  function Complex(ctx: Ctx, s: seq<Component>, e: nat): (r: MatchResult)
    requires InDoc(ctx.doc, e)
    ensures r.UnknownResult? ==> ctx.mode.Comparison?
    decreases s, 1
  {
    var k := Compound(ctx, s, e);
    if NextCombinator(s).None? then
      match k
      case True => Matched
      case Unknown => UnknownResult
      case False => RestartFromClosestLaterSibling
    else if k.False? then RestartFromClosestLaterSibling
    else Candidates(ctx, NextCombinator(s).value, AfterCombinator(s), k, e)
  }

  /** The search for an element to the left of combinator `c` that matches `rest`, from `e` upwards or backwards. */
  function Candidates(ctx: Ctx, c: Combinator, rest: seq<Component>, k: KleeneValue, e: nat): (r: MatchResult)
    requires InDoc(ctx.doc, e)
    requires !k.False? && (k.Unknown? ==> ctx.mode.Comparison?)
    ensures r.UnknownResult? ==> ctx.mode.Comparison?
    decreases rest, 2, e
  {
    match NextElement(ctx.doc, c, e)
    case None => CandidateNotFound(c)
    case Some(f) =>
      var r := Complex(ctx, rest, f);
      if r.Matched? then (if k.True? then Matched else UnknownResult)
      else if r.UnknownResult? || r.NotMatchedGlobally? then r
      else match c
        case Descendant => Candidates(ctx, c, rest, k, f)
        case Child => RestartFromClosestDescendant
        case LaterSibling => if r.RestartFromClosestDescendant? then r else Candidates(ctx, c, rest, k, f)
        case NextSibling => r
  }

  // ---------- :has ----------

  function SomeRelative(ctx: Ctx, relatives: seq<RelativeSelector>, e: nat): bool
    requires InDoc(ctx.doc, e)
    decreases relatives, 0
  {
    relatives != [] && (Relative(ctx, relatives[0], e) || SomeRelative(ctx, relatives[1..], e))
  }

  function Relative(ctx: Ctx, relative: RelativeSelector, e: nat): bool
    requires InDoc(ctx.doc, e)
    decreases relative, 0
  {
    var s := relative.selector.comps;
    if relative.hint.IsDescendantDirection() then
      InChildren(ctx, s, relative.hint.IsSubtree(), FirstChild(ctx.doc, e))
    else
      InSiblings(ctx, s, relative.hint.IsSubtree(), relative.hint.IsNextSibling(), Next(ctx.doc, e))
  }

  /** `s` matches `cur` or a later sibling of it or, if `subtree`, a descendant of one of them. */
  function InChildren(ctx: Ctx, s: seq<Component>, subtree: bool, cur: Option<nat>): bool
    requires cur.Some? ==> InDoc(ctx.doc, cur.value)
    decreases s, 2, |ctx.doc.nodes| - cur.GetOr(|ctx.doc.nodes|)
  {
    cur.Some? &&
    var el := cur.value;
    || Complex(ctx, s, el).ToKleene().ToBool(true)
    || (subtree && InChildren(ctx, s, true, FirstChild(ctx.doc, el)))
    || InChildren(ctx, s, subtree, Next(ctx.doc, el))
  }

  /** The same over the siblings that follow the anchor; in a subtree search the siblings themselves are not tried. */
  function InSiblings(ctx: Ctx, s: seq<Component>, subtree: bool, nextOnly: bool, cur: Option<nat>): bool
    requires cur.Some? ==> InDoc(ctx.doc, cur.value)
    decreases s, 3, |ctx.doc.nodes| - cur.GetOr(|ctx.doc.nodes|)
  {
    cur.Some? &&
    var el := cur.value;
    || (if subtree then InChildren(ctx, s, true, FirstChild(ctx.doc, el))
        else Complex(ctx, s, el).ToKleene().ToBool(true))
    || (!nextOnly && InSiblings(ctx, s, subtree, nextOnly, Next(ctx.doc, el)))
  }

  // ---------- :nth-* ----------

  /** `An+B` on an index; the subtraction is checked in 32 bits, the division truncates. */
  function MatchesIndex(a: I32, b: I32, i: int): bool {
    var an := i - b;
    if !(-0x8000_0000 <= an < 0x8000_0000) then false
    else if a == 0 then an == 0
    else
      var n := TruncatingDiv(an, a);
      n >= 0 && a * n == an
  }

  function TruncatingDiv(x: int, y: int): int
    requires y != 0
  {
    if x >= 0 then x / y else -((-x) / y)
  }

  /** Whether sibling `f` counts towards the index of `e`. */
  function Counts(ctx: Ctx, c: Component, ofType: bool, e: nat, f: nat): bool
    requires InDoc(ctx.doc, e) && InDoc(ctx.doc, f) && (c.Nth? || c.NthOf?)
    decreases c, 0
  {
    if ofType then Semantics.SameType(ctx.doc, e, f)
    else Semantics.OfList(c) == [] || SelectorList(ctx, Semantics.OfList(c), f).ToBool(true)
  }

  function Step(d: Doc, fromEnd: bool, e: nat): (r: Option<nat>)
    requires InDoc(d, e)
    ensures r.Some? ==> InDoc(d, r.value) && if fromEnd then r.value > e else r.value < e
  {
    if fromEnd then Next(d, e) else Prev(d, e)
  }

  /** The number of counted siblings of `e` strictly beyond `cur`. */
  function CountBeyond(ctx: Ctx, c: Component, ofType: bool, fromEnd: bool, e: nat, cur: nat): nat
    requires InDoc(ctx.doc, e) && InDoc(ctx.doc, cur) && (c.Nth? || c.NthOf?)
    decreases c, 1, if fromEnd then |ctx.doc.nodes| - cur else cur
  {
    match Step(ctx.doc, fromEnd, cur)
    case None => 0
    case Some(f) => (if Counts(ctx, c, ofType, e, f) then 1 else 0) + CountBeyond(ctx, c, ofType, fromEnd, e, f)
  }

  function NthChildIndex(ctx: Ctx, c: Component, ofType: bool, fromEnd: bool, e: nat): nat
    requires InDoc(ctx.doc, e) && (c.Nth? || c.NthOf?)
    decreases c, 2
  {
    1 + CountBeyond(ctx, c, ofType, fromEnd, e, e)
  }

  function GenericNth(ctx: Ctx, c: Component, nth: NthData, e: nat): (k: KleeneValue)
    requires InDoc(ctx.doc, e) && (c.Nth? || c.NthOf?)
    ensures k.Unknown? ==> ctx.mode.Comparison?
    decreases c, 4
  {
    if ctx.doc.nodes[e].ignoresNth then False
    else
      var selectorsMatch := Semantics.OfList(c) == [] || SelectorList(ctx, Semantics.OfList(c), e).ToBool(true);
      if ctx.mode.IsForInvalidation() then
        if selectorsMatch then Uncomputed(ctx) else False
      else if !selectorsMatch then False
      else if nth.ty.IsOnly() then
        FromBool(&& IndexMatches(ctx, c, NthFirst(nth.ty.IsOfType()), e)
                 && IndexMatches(ctx, c, NthLast(nth.ty.IsOfType()), e))
      else FromBool(IndexMatches(ctx, c, nth, e))
  }

  /** The index part, on an element the selector list matches. */
  function IndexMatches(ctx: Ctx, c: Component, nth: NthData, e: nat): bool
    requires InDoc(ctx.doc, e) && (c.Nth? || c.NthOf?)
    decreases c, 3
  {
    if nth.IsSimpleEdge() && Semantics.OfList(c) == [] then
      Step(ctx.doc, nth.ty.IsFromEnd(), e).None?
    else
      MatchesIndex(nth.a, nth.b, NthChildIndex(ctx, c, nth.ty.IsOfType(), nth.ty.IsFromEnd(), e))
  }
}
