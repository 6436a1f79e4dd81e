/**
 What a selector means, without saying how it is found out.

 A complex selector matches an element if elements can be picked for all of its
 compounds so that every combinator relates its two neighbours.  `:has()` asks
 for some element of the whole document, `:nth-*()` counts siblings.
 */
module Semantics {
  import opened Wrappers
  import opened Dom
  import opened Syntax

  /** How `&` is read: as the scoping element, or as a given set of elements (which may depend on the `:has` anchor). */
  datatype Ampersand = AsScope | AsElements(holds: (Option<nat>, nat) -> bool)

  /**
   How the components that need the document around the element are read: as they
   really are, or as an arbitrary verdict on (component, element) says.
   */
  datatype Reading = Actual | Supposed(verdict: (Component, nat) -> bool)

  datatype Env = Env(doc: Doc, scope: Option<nat>, anchor: Option<nat>, ampersand: Ampersand, reading: Reading)

  predicate SameType(d: Doc, e: nat, f: nat)
    requires InDoc(d, e) && InDoc(d, f)
  {
    d.nodes[e].localName == d.nodes[f].localName && d.nodes[e].namespace == d.nodes[f].namespace
  }

  /** A name is compared in lower case on an HTML element, or when it is in lower case anyway. */
  function SelectName(d: Doc, e: nat, name: Atom, lowerName: Atom): Atom
    requires InDoc(d, e)
  {
    if name == lowerName || d.nodes[e].htmlInHtmlDocument then lowerName else name
  }

  predicate MatchesLocalName(d: Doc, e: nat, name: Atom, lowerName: Atom)
    requires InDoc(d, e)
  {
    d.nodes[e].localName == SelectName(d, e, name, lowerName)
  }

  /** The components decided by the element alone. */
  predicate IsPlain(c: Component) {
    || c.LocalName? || c.ID? || c.Class? || c.AttributeInNoNamespaceExists? || c.AttributeInNoNamespace?
    || c.ExplicitUniversalType? || c.DefaultNamespace? || c.Namespace? || c.Root? || c.Empty?
    || c.NonTSPseudoClass? || c.Invalid?
  }

  predicate PlainHolds(d: Doc, c: Component, e: nat)
    requires InDoc(d, e) && IsPlain(c)
  {
    var n := d.nodes[e];
    match c
    case LocalName(name, lowerName) => MatchesLocalName(d, e, name, lowerName)
    case ID(id) => n.id == Some(id)
    case Class(class_) => class_ in n.classes
    case AttributeInNoNamespaceExists(a, lower) => SelectName(d, e, a, lower) in n.attributes
    case AttributeInNoNamespace(a, test) => a in n.attributes && test in n.attributes[a]
    case ExplicitUniversalType => true
    case DefaultNamespace(url) => n.namespace == url
    case Namespace(_, url) => n.namespace == url
    case Root => n.isRoot
    case Empty => n.isEmpty
    case NonTSPseudoClass(p) => p in n.states
    case _ => false
  }

  /** `:scope`, and `&` outside of a nested rule: the scoping element, or the root if there is none. */
  predicate IsScope(d: Doc, scope: Option<nat>, e: nat)
    requires InDoc(d, e)
  {
    match scope
    case Some(s) => e == s
    case None => d.nodes[e].isRoot
  }

  /** `f` can stand to the left of combinator `c` when `e` stands to its right. */
  predicate Related(d: Doc, c: Combinator, e: nat, f: nat)
    requires InDoc(d, e)
  {
    match c
    case Child => Parent(d, e) == Some(f)
    case Descendant => Ancestor(d, f, e)
    case NextSibling => Prev(d, e) == Some(f)
    case LaterSibling => EarlierSibling(d, f, e)
  }

  /** The selectors that an `:nth-*()` component counts. */
  function OfList(c: Component): seq<Selector> {
    if c.NthOf? then c.of else []
  }

  /** Some n >= 0 has a * n + b == i. */
  ghost predicate InProgression(a: int, b: int, i: int) {
    exists n: nat :: a * n + b == i
  }

  ghost predicate SimpleHolds(env: Env, c: Component, e: nat)
    requires InDoc(env.doc, e)
    decreases c, 3
  {
    if IsPlain(c) then PlainHolds(env.doc, c, e)
    else match c
      case Scope => ScopeHolds(env, c, e)
      case ImplicitScope => ScopeHolds(env, c, e)
      case ParentSelector =>
        (match env.ampersand
         case AsScope => IsScope(env.doc, env.scope, e)
         case AsElements(holds) => holds(env.anchor, e))
      case Nth(_) => NthHolds(env, c, e)
      case NthOf(_, _) => NthHolds(env, c, e)
      case Is(list) => SomeHolds(env, list, e)
      case Where(list) => SomeHolds(env, list, e)
      case Negation(list) => !SomeHolds(env, list, e)
      case Has(relatives) =>
        // A :has() inside another :has() matches nothing.
        && env.anchor.None?
        && (match env.reading
            case Supposed(verdict) => verdict(c, e)
            case Actual => HasHolds(env.(anchor := Some(e)), relatives))
      case RelativeSelectorAnchor => env.anchor.None? || env.anchor == Some(e)
      case _ => false
  }

  ghost predicate ScopeHolds(env: Env, c: Component, e: nat)
    requires InDoc(env.doc, e)
    decreases c, 0
  {
    match env.reading
    case Supposed(verdict) => verdict(c, e)
    case Actual => IsScope(env.doc, env.scope, e)
  }

  /** One of the relative selectors matches some element of the document, with its anchor fixed. */
  ghost predicate HasHolds(env: Env, relatives: seq<RelativeSelector>)
    decreases relatives, 0
  {
    exists i :: 0 <= i < |relatives| && RelativeHolds(env, relatives[i])
  }

  ghost predicate RelativeHolds(env: Env, relative: RelativeSelector)
    decreases relative, 0
  {
    exists f :: 0 <= f < |env.doc.nodes| && Matches(env, relative.selector.comps, f)
  }

  ghost predicate NthHolds(env: Env, c: Component, e: nat)
    requires InDoc(env.doc, e) && (c.Nth? || c.NthOf?)
    decreases c, 2
  {
    && !env.doc.nodes[e].ignoresNth
    && (OfList(c) == [] || SomeHolds(env, OfList(c), e))
    && (match env.reading
        case Supposed(verdict) => verdict(c, e)
        case Actual =>
          if c.nth.ty.IsOnly() then
            && CountedSiblings(env, c, c.nth.ty.IsOfType(), false, e) == {}
            && CountedSiblings(env, c, c.nth.ty.IsOfType(), true, e) == {}
          else
            InProgression(c.nth.a, c.nth.b,
                          1 + |CountedSiblings(env, c, c.nth.ty.IsOfType(), c.nth.ty.IsFromEnd(), e)|))
  }

  /** The siblings of `e` on one side that count towards its index. */
  ghost function CountedSiblings(env: Env, c: Component, ofType: bool, fromEnd: bool, e: nat): set<nat>
    requires InDoc(env.doc, e) && (c.Nth? || c.NthOf?)
    decreases c, 1
  {
    set f | 0 <= f < |env.doc.nodes|
            && (if fromEnd then EarlierSibling(env.doc, e, f) else EarlierSibling(env.doc, f, e))
            && (if ofType then SameType(env.doc, e, f) else OfList(c) == [] || SomeHolds(env, OfList(c), f))
  }

  ghost predicate SomeHolds(env: Env, list: seq<Selector>, e: nat)
    requires InDoc(env.doc, e)
    decreases list, 0
  {
    exists i :: 0 <= i < |list| && Matches(env, list[i].comps, e)
  }

  /** Every simple selector of the compound at the front of `s` holds of `e`. */
  ghost predicate CompoundHolds(env: Env, s: seq<Component>, e: nat)
    requires InDoc(env.doc, e)
    decreases s, 0
  {
    forall i :: 0 <= i < CompoundLength(s) ==> SimpleHolds(env, s[i], e)
  }

  /** The complex selector `s`, given in matching order, matches `e`. */
  ghost predicate Matches(env: Env, s: seq<Component>, e: nat)
    requires InDoc(env.doc, e)
    decreases s, 1
  {
    && CompoundHolds(env, s, e)
    && (NextCombinator(s).Some? ==>
          exists f :: 0 <= f < |env.doc.nodes|
            && Related(env.doc, NextCombinator(s).value, e, f)
            && Matches(env, AfterCombinator(s), f))
  }

  /** The left neighbour of a combinator is an element of the document. */
  lemma RelatedInDoc(d: Doc, c: Combinator, e: nat, f: nat)
    requires InDoc(d, e) && Related(d, c, e, f)
    ensures f < e
  {
    if c.Descendant? {
      AncestorInDoc(d, f, e);
    } else if c.LaterSibling? {
      EarlierSiblingInDoc(d, f, e);
    }
  }
}
