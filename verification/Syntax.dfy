/**
 Selectors as the matcher stores them: one flat sequence of components, the
 compounds from right to left (matching order), the simple selectors of a
 compound from left to right, with the combinators in between.
 */
module Syntax {
  import opened Wrappers
  import opened Dom

  type I32 = x: int | -0x8000_0000 <= x < 0x8000_0000

  datatype Combinator = Child | Descendant | NextSibling | LaterSibling {
    predicate IsAncestor() { Child? || Descendant? }
    predicate IsSibling() { NextSibling? || LaterSibling? }
  }

  datatype NthType = NthChild | NthLastChild | OnlyChild | OfType | LastOfType | OnlyOfType {
    predicate IsOnly() { OnlyChild? || OnlyOfType? }
    predicate IsOfType() { OfType? || LastOfType? || OnlyOfType? }
    predicate IsFromEnd() { NthLastChild? || LastOfType? }
  }

  /** `:nth-*(An+B)`. */
  datatype NthData = NthData(ty: NthType, a: I32, b: I32) {
    predicate IsSimpleEdge() { a == 0 && b == 1 && !ty.IsOfType() && !ty.IsOnly() }
  }

  function NthFirst(ofType: bool): NthData {
    NthData(if ofType then OfType else NthChild, 0, 1)
  }

  function NthLast(ofType: bool): NthData {
    NthData(if ofType then LastOfType else NthLastChild, 0, 1)
  }

  /** Where the matches of a relative selector can be found, seen from its anchor. */
  datatype MatchHint = InSubtree | InChild | InNextSibling | InNextSiblingSubtree | InSibling | InSiblingSubtree {
    predicate IsDescendantDirection() { InChild? || InSubtree? }
    predicate IsNextSibling() { InNextSibling? || InNextSiblingSubtree? }
    predicate IsSubtree() { InSubtree? || InSiblingSubtree? || InNextSiblingSubtree? }
  }

  datatype SelectorFlags = SelectorFlags(hasParent: bool, hasScope: bool)

  datatype Component =
    | LocalName(name: Atom, lowerName: Atom)
    | ID(id: Atom)
    | Class(class_: Atom)
    | AttributeInNoNamespaceExists(attribute: Atom, attributeLower: Atom)
    | AttributeInNoNamespace(attribute: Atom, test: nat)
    | ExplicitUniversalType
    | DefaultNamespace(url: Atom)
    | Namespace(prefix: Atom, url: Atom)
    | Root
    | Empty
    | NonTSPseudoClass(pseudoClass: nat)
    | Scope
    | ImplicitScope
    | ParentSelector
    | Nth(nth: NthData)
    | NthOf(nth: NthData, of: seq<Selector>)
    | Is(list: seq<Selector>)
    | Where(list: seq<Selector>)
    | Negation(list: seq<Selector>)
    | Has(relatives: seq<RelativeSelector>)
    | RelativeSelectorAnchor
    | Invalid(mentionsParent: bool)
    | Combinator(combinator: Combinator)

  /** Three ten-bit counts in one word; two bits stay free. */
  type PackedSpecificity = v: int | 0 <= v <= 0x3fff_ffff

  datatype Selector = Selector(specificity: PackedSpecificity, flags: SelectorFlags, comps: seq<Component>)

  datatype RelativeSelector = RelativeSelector(hint: MatchHint, selector: Selector)

  /** The length of the compound at the front of `s`: the index of the first combinator, if any. */
  function CompoundLength(s: seq<Component>): (n: nat)
    ensures n <= |s|
    ensures forall i :: 0 <= i < n ==> !s[i].Combinator?
    ensures n < |s| ==> s[n].Combinator?
  {
    if s == [] || s[0].Combinator? then 0 else 1 + CompoundLength(s[1..])
  }

  /** The combinator that ends the compound at the front of `s`. */
  function NextCombinator(s: seq<Component>): Option<Combinator> {
    var n := CompoundLength(s);
    if n < |s| then Some(s[n].combinator) else None
  }

  /** What follows that combinator. */
  function AfterCombinator(s: seq<Component>): seq<Component>
    requires NextCombinator(s).Some?
  {
    s[CompoundLength(s) + 1..]
  }

  lemma CompoundLengthStep(s: seq<Component>)
    requires s != [] && !s[0].Combinator?
    ensures CompoundLength(s[1..]) == CompoundLength(s) - 1
    ensures NextCombinator(s[1..]) == NextCombinator(s)
    ensures NextCombinator(s).Some? ==> AfterCombinator(s[1..]) == AfterCombinator(s)
  {
  }

  /** The combinators of a selector in matching order, not looking inside pseudo-classes. */
  function Combinators(s: seq<Component>): seq<Combinator>
  {
    if NextCombinator(s).None? then []
    else [NextCombinator(s).value] + Combinators(AfterCombinator(s))
  }

  /** The compounds of a selector in matching order. */
  function Compounds(s: seq<Component>): (r: seq<seq<Component>>)
    ensures |r| == |Combinators(s)| + 1
    decreases |s|
  {
    var first := s[..CompoundLength(s)];
    if NextCombinator(s).None? then [first] else [first] + Compounds(AfterCombinator(s))
  }

  /** `p` holds of every component of `s`, also inside the arguments of pseudo-classes. */
  ghost predicate Everywhere(p: Component -> bool, s: seq<Component>)
    decreases s, 0
  {
    forall i :: 0 <= i < |s| ==> EverywhereIn(p, s[i])
  }

  ghost predicate EverywhereIn(p: Component -> bool, c: Component)
    decreases c, 0
  {
    && p(c)
    && (match c
        case NthOf(_, of) => EverywhereInList(p, of)
        case Is(list) => EverywhereInList(p, list)
        case Where(list) => EverywhereInList(p, list)
        case Negation(list) => EverywhereInList(p, list)
        case Has(relatives) => forall i :: 0 <= i < |relatives| ==> EverywhereInRelative(p, relatives[i])
        case _ => true)
  }

  ghost predicate EverywhereInList(p: Component -> bool, list: seq<Selector>)
    decreases list, 0
  {
    forall i :: 0 <= i < |list| ==> Everywhere(p, list[i].comps)
  }

  ghost predicate EverywhereInRelative(p: Component -> bool, relative: RelativeSelector)
    decreases relative, 0
  {
    Everywhere(p, relative.selector.comps)
  }

  lemma EverywhereInSuffix(p: Component -> bool, s: seq<Component>, n: nat)
    requires n <= |s| && Everywhere(p, s)
    ensures Everywhere(p, s[n..])
  {
  }
}
