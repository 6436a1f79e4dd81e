/**
 What the simple selectors ask for, one by one and in terms of the elements: their
 names, classes, links and siblings.  Normal matching answers exactly this.
 */
module SimpleMeaning {
  import opened Wrappers
  import opened Dom
  import opened Syntax
  import opened Kleene
  import opened Semantics
  import opened Matching
  import opened Soundness

  // ---------- Positions among siblings ----------

  /** Both the local name and the namespace are the same. */
  predicate SameName(d: Doc, e: nat, f: nat)
    requires InDoc(d, e) && InDoc(d, f)
  {
    d.nodes[f].localName == d.nodes[e].localName && d.nodes[f].namespace == d.nodes[e].namespace
  }

  /** `a * n + b` is the position for some n >= 0. */
  ghost predicate IsPosition(a: int, b: int, position: int) {
    exists n: nat :: a * n + b == position
  }

  ghost predicate Listed(env: Env, list: seq<Selector>, f: nat)
    requires InDoc(env.doc, f)
  {
    list == [] || exists i :: 0 <= i < |list| && Matches(env, list[i].comps, f)
  }

  ghost predicate NoOtherChild(env: Env, list: seq<Selector>, e: nat)
    requires InDoc(env.doc, e)
  {
    forall f | 0 <= f < |env.doc.nodes| && (EarlierSibling(env.doc, f, e) || EarlierSibling(env.doc, e, f)) ::
      !Listed(env, list, f)
  }

  predicate NoOtherOfName(d: Doc, e: nat)
    requires InDoc(d, e)
  {
    forall f | 0 <= f < |d.nodes| && (EarlierSibling(d, f, e) || EarlierSibling(d, e, f)) :: !SameName(d, e, f)
  }

  ghost function ListedBefore(env: Env, list: seq<Selector>, e: nat): set<nat>
    requires InDoc(env.doc, e)
  {
    set f | 0 <= f < |env.doc.nodes| && EarlierSibling(env.doc, f, e) && Listed(env, list, f)
  }

  ghost function ListedAfter(env: Env, list: seq<Selector>, e: nat): set<nat>
    requires InDoc(env.doc, e)
  {
    set f | 0 <= f < |env.doc.nodes| && EarlierSibling(env.doc, e, f) && Listed(env, list, f)
  }

  function NamedBefore(d: Doc, e: nat): set<nat>
    requires InDoc(d, e)
  {
    set f | 0 <= f < |d.nodes| && EarlierSibling(d, f, e) && SameName(d, e, f)
  }

  function NamedAfter(d: Doc, e: nat): set<nat>
    requires InDoc(d, e)
  {
    set f | 0 <= f < |d.nodes| && EarlierSibling(d, e, f) && SameName(d, e, f)
  }

  /** The position that `c` asks for, by the name of the pseudo-class alone. */
  ghost predicate IsAtPosition(env: Env, c: Component, e: nat)
    requires InDoc(env.doc, e) && (c.Nth? || c.NthOf?)
  {
    var list := if c.NthOf? then c.of else [];
    match c.nth.ty
    case NthChild => IsPosition(c.nth.a, c.nth.b, 1 + |ListedBefore(env, list, e)|)
    case NthLastChild => IsPosition(c.nth.a, c.nth.b, 1 + |ListedAfter(env, list, e)|)
    case OnlyChild => NoOtherChild(env, list, e)
    case OfType => IsPosition(c.nth.a, c.nth.b, 1 + |NamedBefore(env.doc, e)|)
    case LastOfType => IsPosition(c.nth.a, c.nth.b, 1 + |NamedAfter(env.doc, e)|)
    case OnlyOfType => NoOtherOfName(env.doc, e)
  }

  lemma NthMeans(env: Env, c: Component, e: nat)
    requires InDoc(env.doc, e) && env.reading.Actual? && (c.Nth? || c.NthOf?)
    ensures SimpleHolds(env, c, e) <==>
            && !env.doc.nodes[e].ignoresNth
            && Listed(env, if c.NthOf? then c.of else [], e)
            && IsAtPosition(env, c, e)
  {
    var list := OfList(c);
    assert Listed(env, list, e) <==> list == [] || SomeHolds(env, list, e);
    match c.nth.ty {
      case NthChild => assert CountedSiblings(env, c, false, false, e) == ListedBefore(env, list, e);
      case NthLastChild => assert CountedSiblings(env, c, false, true, e) == ListedAfter(env, list, e);
      case OnlyChild => OnlyChildMeans(env, c, e);
      case OfType => assert CountedSiblings(env, c, true, false, e) == NamedBefore(env.doc, e);
      case LastOfType => assert CountedSiblings(env, c, true, true, e) == NamedAfter(env.doc, e);
      case OnlyOfType => OnlyOfTypeMeans(env, c, e);
    }
  }

  lemma OnlyChildMeans(env: Env, c: Component, e: nat)
    requires InDoc(env.doc, e) && (c.Nth? || c.NthOf?)
    ensures CountedSiblings(env, c, false, false, e) == {} && CountedSiblings(env, c, false, true, e) == {} <==>
            NoOtherChild(env, OfList(c), e)
  {
    var before, after := CountedSiblings(env, c, false, false, e), CountedSiblings(env, c, false, true, e);
    forall f | 0 <= f < |env.doc.nodes|
      ensures f in before <==> EarlierSibling(env.doc, f, e) && Listed(env, OfList(c), f)
      ensures f in after <==> EarlierSibling(env.doc, e, f) && Listed(env, OfList(c), f)
    {
      assert Listed(env, OfList(c), f) <==> OfList(c) == [] || SomeHolds(env, OfList(c), f);
    }
  }

  lemma OnlyOfTypeMeans(env: Env, c: Component, e: nat)
    requires InDoc(env.doc, e) && (c.Nth? || c.NthOf?)
    ensures CountedSiblings(env, c, true, false, e) == {} && CountedSiblings(env, c, true, true, e) == {} <==>
            NoOtherOfName(env.doc, e)
  {
    var before, after := CountedSiblings(env, c, true, false, e), CountedSiblings(env, c, true, true, e);
    forall f | 0 <= f < |env.doc.nodes|
      ensures f in before <==> EarlierSibling(env.doc, f, e) && SameName(env.doc, e, f)
      ensures f in after <==> EarlierSibling(env.doc, e, f) && SameName(env.doc, e, f)
    {
    }
  }

  /** So the matcher answers each `:nth-*()` and `:only-*` by name. */
  lemma NthIsAnsweredByName(ctx: Ctx, c: Component, e: nat)
    requires InDoc(ctx.doc, e) && ctx.mode.Normal? && (c.Nth? || c.NthOf?)
    requires EverywhereIn(Regular(|ctx.doc.nodes|), c)
    ensures var env := EnvOf(ctx, Actual);
            Simple(ctx, c, e) == FromBool(&& !ctx.doc.nodes[e].ignoresNth
                                          && Listed(env, if c.NthOf? then c.of else [], e)
                                          && IsAtPosition(env, c, e))
  {
    SimpleIsSound(ctx, EnvOf(ctx, Actual), c, e, true, true);
    NthMeans(EnvOf(ctx, Actual), c, e);
  }

  // ---------- The element itself ----------

  /** The name that an HTML element in an HTML document is to have is the lower-case one, any other the given one. */
  predicate HasName(n: Node, has: Atom, name: Atom, lowerName: Atom) {
    if n.htmlInHtmlDocument then has == lowerName else has == name
  }

  /** What a simple selector asks of the element, one by one; None where it asks for more than that. */
  function AsksFor(d: Doc, scope: Option<nat>, c: Component, e: nat): Option<bool>
    requires InDoc(d, e)
  {
    var n := d.nodes[e];
    match c
    case LocalName(name, lowerName) => Some(HasName(n, n.localName, name, lowerName))
    case ID(id) => Some(n.id.Some? && n.id.value == id)
    case Class(class_) => Some(class_ in n.classes)
    case AttributeInNoNamespaceExists(name, lower) =>
      Some(if n.htmlInHtmlDocument then lower in n.attributes else name in n.attributes)
    case AttributeInNoNamespace(name, test) => Some(name in n.attributes && test in n.attributes[name])
    case ExplicitUniversalType => Some(true)
    case DefaultNamespace(url) => Some(n.namespace == url)
    case Namespace(_, url) => Some(n.namespace == url)
    case Root => Some(n.isRoot)
    case Empty => Some(n.isEmpty)
    case NonTSPseudoClass(state) => Some(state in n.states)
    case Scope => Some(if scope.Some? then scope.value == e else n.isRoot)
    case ImplicitScope => Some(if scope.Some? then scope.value == e else n.isRoot)
    case ParentSelector => Some(if scope.Some? then scope.value == e else n.isRoot)
    case Invalid(_) => Some(false)
    case _ => None
  }

  /** Normal matching answers what is asked for. */
  lemma ElementIsAnswered(ctx: Ctx, c: Component, e: nat)
    requires InDoc(ctx.doc, e) && ctx.mode.Normal? && AsksFor(ctx.doc, ctx.scope, c, e).Some?
    ensures Simple(ctx, c, e) == FromBool(AsksFor(ctx.doc, ctx.scope, c, e).value)
  {
  }

  /** Outside of a `:has()` every element is an anchor, inside only the one that it is asked of. */
  lemma AnchorIsAnswered(ctx: Ctx, e: nat)
    requires InDoc(ctx.doc, e)
    ensures Simple(ctx, RelativeSelectorAnchor, e).True? <==> forall a :: ctx.anchor == Some(a) ==> a == e
    ensures !Simple(ctx, RelativeSelectorAnchor, e).Unknown?
  {
  }

  /** What is not computed is unknown in comparisons, and otherwise answered as the parity of `:not()` asks. */
  lemma UncomputedIsAnswered(ctx: Ctx, c: Component, e: nat)
    requires InDoc(ctx.doc, e) && !ctx.mode.Normal? && (ctx.mode.Revalidation? ==> c.Scope? || c.ImplicitScope?)
    requires c.Scope? || c.ImplicitScope? || (c.Has? && ctx.anchor.None?) || c.Nth? || c.NthOf?
    ensures Simple(ctx, c, e) ==
            if (c.Nth? || c.NthOf?) && ctx.doc.nodes[e].ignoresNth then False
            else if c.NthOf? && c.of != [] && SelectorList(ctx, c.of, e).False? then False
            else if ctx.mode.Comparison? then Unknown
            else if ctx.inNegation then False
            else True
  {
  }

  /** Inside of a `:has()` another one is false. */
  lemma NestedHasFails(ctx: Ctx, relatives: seq<RelativeSelector>, e: nat)
    requires InDoc(ctx.doc, e) && ctx.anchor.Some?
    ensures Simple(ctx, Has(relatives), e).False?
  {
  }
}
