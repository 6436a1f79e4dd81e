/**
 Specificity: three counts, packed with ten bits each into one word, and the
 flags that go with it in the header of a selector.
 */
module Specificity {
  import opened Syntax
  import opened Sequences

  const MAX_10BIT: nat := 1023

  datatype Spec = Spec(ids: nat, classes: nat, elements: nat) {
    function Plus(other: Spec): Spec {
      Spec(ids + other.ids, classes + other.classes, elements + other.elements)
    }

    predicate AtLeast(other: Spec) {
      ids >= other.ids && classes >= other.classes && elements >= other.elements
    }

    predicate InRange() {
      ids <= MAX_10BIT && classes <= MAX_10BIT && elements <= MAX_10BIT
    }

    function Minus(other: Spec): Spec
      requires AtLeast(other)
    {
      Spec(ids - other.ids, classes - other.classes, elements - other.elements)
    }
  }

  function Min(a: nat, b: nat): nat {
    if a <= b then a else b
  }

  function Max(a: nat, b: nat): nat {
    if a >= b then a else b
  }

  function Clamped(s: Spec): Spec {
    Spec(Min(s.ids, MAX_10BIT), Min(s.classes, MAX_10BIT), Min(s.elements, MAX_10BIT))
  }

  /** The clamped counts side by side; the ten-bit fields are disjoint, so adding them is or-ing them. */
  function Pack(s: Spec): PackedSpecificity {
    Min(s.ids, MAX_10BIT) * 0x10_0000 + Min(s.classes, MAX_10BIT) * 0x400 + Min(s.elements, MAX_10BIT)
  }

  /** The conversion back asserts that only thirty bits are used. */
  function Unpack(v: PackedSpecificity): Spec {
    Spec(v / 0x10_0000, (v / 0x400) % 0x400, v % 0x400)
  }

  /** On 32-bit words: shifting and or-ing is what `Pack` adds up, shifting and masking what `Unpack` divides. */
  lemma PackBits(ids: bv32, classes: bv32, elements: bv32)
    requires ids <= 1023 && classes <= 1023 && elements <= 1023
    ensures (ids << 20) | (classes << 10) | elements == ids * 0x10_0000 + classes * 0x400 + elements
    ensures var v := (ids << 20) | (classes << 10) | elements;
            v >> 20 == ids && (v >> 10) & 1023 == classes && v & 1023 == elements
  {
  }

  /** No carry between the fields: what comes back is the component-wise clamp. */
  lemma UnpackOfPack(s: Spec)
    ensures Unpack(Pack(s)) == Clamped(s)
    ensures s.ids <= 1023 && s.classes <= 1023 && s.elements <= 1023 ==> Unpack(Pack(s)) == s
    ensures s.ids > 1023 && s.classes > 1023 && s.elements > 1023 ==> Unpack(Pack(s)) == Spec(1023, 1023, 1023)
  {
    var a, b, c := Min(s.ids, MAX_10BIT), Min(s.classes, MAX_10BIT), Min(s.elements, MAX_10BIT);
    FieldsOf(a, b, c);
  }

  lemma FieldsOf(a: nat, b: nat, c: nat)
    requires a <= MAX_10BIT && b <= MAX_10BIT && c <= MAX_10BIT
    ensures var v := a * 0x10_0000 + b * 0x400 + c;
            v / 0x10_0000 == a && (v / 0x400) % 0x400 == b && v % 0x400 == c
  {
    var v := a * 0x10_0000 + b * 0x400 + c;
    var upper := a * 0x400 + b;
    assert v == upper * 0x400 + c;
    assert v / 0x400 == upper;
  }

  lemma PackOfUnpack(v: PackedSpecificity)
    ensures Unpack(v).InRange() && Pack(Unpack(v)) == v
  {
  }

  /** Clamping early makes no difference. */
  lemma PackAbsorbs(s: Spec, gain: Spec)
    ensures Pack(Unpack(Pack(s)).Plus(gain)) == Pack(s.Plus(gain))
  {
    UnpackOfPack(s);
    ClampedTwice(s, gain);
    SamePack(Clamped(s).Plus(gain), s.Plus(gain));
  }

  lemma ClampedTwice(s: Spec, gain: Spec)
    ensures Clamped(Clamped(s).Plus(gain)) == Clamped(s.Plus(gain))
  {
  }

  lemma SamePack(s: Spec, t: Spec)
    requires Clamped(s) == Clamped(t)
    ensures Pack(s) == Pack(t)
  {
  }

  predicate LexicographicallyLess(a: Spec, b: Spec) {
    || a.ids < b.ids
    || (a.ids == b.ids && (a.classes < b.classes || (a.classes == b.classes && a.elements < b.elements)))
  }

  /** In range the packed words are ordered as the triples are. */
  lemma PackedOrder(a: Spec, b: Spec)
    requires a.InRange() && b.InRange()
    ensures Pack(a) < Pack(b) <==> LexicographicallyLess(a, b)
    ensures Pack(a) == Pack(b) <==> a == b
  {
  }

  lemma PackMonotone(a: Spec, b: Spec)
    requires a.AtLeast(b)
    ensures Pack(a) >= Pack(b) && Clamped(a).AtLeast(Clamped(b))
  {
  }

  /** Under component-wise dominance the difference of the words is the word of the differences. */
  lemma PackedDifference(a: Spec, b: Spec)
    requires a.InRange() && b.InRange() && a.AtLeast(b)
    ensures 0 <= Pack(a) - Pack(b) <= 0x3fff_ffff
    ensures Unpack(Pack(a) - Pack(b)) == a.Minus(b)
  {
    assert Pack(a) - Pack(b) == Pack(a.Minus(b));
    UnpackOfPack(a.Minus(b));
  }

  // ---------- Specificity and flags of components ----------

  datatype SpecificityAndFlags = SpecificityAndFlags(specificity: PackedSpecificity, flags: SelectorFlags)

  const NO_FLAGS := SelectorFlags(false, false)

  function Union(f: SelectorFlags, g: SelectorFlags): SelectorFlags {
    SelectorFlags(f.hasParent || g.hasParent, f.hasScope || g.hasScope)
  }

  /** The greatest specificity of a list of selectors, and all their flags. */
  function ListSpecificityAndFlags(list: seq<Selector>): SpecificityAndFlags {
    if list == [] then SpecificityAndFlags(0, NO_FLAGS)
    else
      var rest := ListSpecificityAndFlags(list[1..]);
      SpecificityAndFlags(Max(list[0].specificity, rest.specificity), Union(list[0].flags, rest.flags))
  }

  function SelectorsOf(relatives: seq<RelativeSelector>): (r: seq<Selector>)
    ensures |r| == |relatives| && forall i :: 0 <= i < |r| ==> r[i] == relatives[i].selector
  {
    if relatives == [] then [] else [relatives[0].selector] + SelectorsOf(relatives[1..])
  }

  /** The selectors in the arguments of a pseudo-class. */
  function Arguments(c: Component): seq<Selector> {
    match c
    case NthOf(_, of) => of
    case Is(list) => list
    case Where(list) => list
    case Negation(list) => list
    case Has(relatives) => SelectorsOf(relatives)
    case _ => []
  }

  function ListSpec(list: seq<Selector>): Spec {
    Unpack(ListSpecificityAndFlags(list).specificity)
  }

  function ComponentSpec(c: Component): Spec {
    match c
    case LocalName(_, _) => Spec(0, 0, 1)
    case ID(_) => Spec(1, 0, 0)
    case Class(_) => Spec(0, 1, 0)
    case AttributeInNoNamespace(_, _) => Spec(0, 1, 0)
    case AttributeInNoNamespaceExists(_, _) => Spec(0, 1, 0)
    case Root => Spec(0, 1, 0)
    case Empty => Spec(0, 1, 0)
    case Nth(_) => Spec(0, 1, 0)
    case NonTSPseudoClass(_) => Spec(0, 1, 0)
    case Scope => Spec(0, 1, 0)
    case NthOf(_, _) => Spec(0, 1, 0).Plus(ListSpec(Arguments(c)))
    case Is(_) => ListSpec(Arguments(c))
    case Negation(_) => ListSpec(Arguments(c))
    case Has(_) => ListSpec(Arguments(c))
    case _ => Spec(0, 0, 0)
  }

  function ComponentFlags(c: Component): SelectorFlags {
    match c
    case ParentSelector => SelectorFlags(true, false)
    case Scope => SelectorFlags(false, true)
    case ImplicitScope => SelectorFlags(false, true)
    case _ => ListSpecificityAndFlags(Arguments(c)).flags
  }

  function Sum(specs: seq<Spec>): Spec {
    if specs == [] then Spec(0, 0, 0) else Sum(specs[..|specs| - 1]).Plus(specs[|specs| - 1])
  }

  function SpecOf(s: seq<Component>): Spec {
    Sum(Map(ComponentSpec, s))
  }

  /** A flag is set if some component sets it. */
  function FlagsOf(s: seq<Component>): SelectorFlags {
    SelectorFlags(
      exists i :: 0 <= i < |s| && ComponentFlags(s[i]).hasParent,
      exists i :: 0 <= i < |s| && ComponentFlags(s[i]).hasScope)
  }

  lemma {:induction false} SumOfConcat(s: seq<Spec>, t: seq<Spec>)
    ensures Sum(s + t) == Sum(s).Plus(Sum(t))
  {
    if t == [] {
      assert s + t == s;
    } else {
      SumOfConcat(s, t[..|t| - 1]);
      assert (s + t)[..|s + t| - 1] == s + t[..|t| - 1];
    }
  }

  lemma SumOfAppended(a: seq<Spec>, x: Spec)
    ensures Sum(a + [x]) == Sum(a).Plus(x)
  {
  }

  lemma SumOfTakenOut(s: seq<Spec>, k: nat)
    requires k < |s|
    ensures Sum(s) == Sum(Without(s, k)).Plus(s[k])
  {
    SplitAround(s, k);
    SumOfConcat(s[..k], s[k + 1..]);
    SumOfConcat(s[..k + 1], s[k + 1..]);
    SumOfAppended(s[..k], s[k]);
  }

  /** The order of the summands does not matter. */
  lemma {:induction false} SumOfPermutation(s: seq<Spec>, t: seq<Spec>)
    requires multiset(s) == multiset(t)
    ensures Sum(s) == Sum(t)
    decreases |s|
  {
    if s == [] {
      assert |multiset(t)| == 0;
    } else {
      var k := TakeOut(s, t);
      SumOfPermutation(s[..|s| - 1], Without(t, k));
      SumOfTakenOut(t, k);
    }
  }

  /** Specificity and flags depend on the components only, not on the order they are stored in. */
  lemma SpecsOfPermutation(s: seq<Component>, t: seq<Component>)
    requires multiset(s) == multiset(t)
    ensures SpecOf(s) == SpecOf(t) && FlagsOf(s) == FlagsOf(t)
  {
    MapMultiset(ComponentSpec, s, t);
    SumOfPermutation(Map(ComponentSpec, s), Map(ComponentSpec, t));
    SameFlags(s, t);
    SameFlags(t, s);
  }

  lemma SameFlags(s: seq<Component>, t: seq<Component>)
    requires multiset(s) == multiset(t)
    ensures FlagsOf(s).hasParent ==> FlagsOf(t).hasParent
    ensures FlagsOf(s).hasScope ==> FlagsOf(t).hasScope
  {
    forall i | 0 <= i < |s| ensures exists j :: 0 <= j < |t| && t[j] == s[i] {
      assert s[i] in multiset(t);
    }
  }

  lemma Appended(s: seq<Component>, c: Component)
    ensures SpecOf(s + [c]) == SpecOf(s).Plus(ComponentSpec(c))
    ensures FlagsOf(s + [c]) == Union(FlagsOf(s), ComponentFlags(c))
  {
    SpecAppended(s, c, ComponentSpec(c), s + [c]);
    FlagsAppended(s, c);
  }

  lemma SpecAppended(s: seq<Component>, c: Component, spec: Spec, t: seq<Component>)
    requires spec == ComponentSpec(c) && t == s + [c]
    ensures SpecOf(t) == SpecOf(s).Plus(spec)
  {
    var specs, more := Map(ComponentSpec, s), Map(ComponentSpec, t);
    assert more == specs + [spec];
    SumOfAppended(specs, spec);
  }

  lemma FlagsAppended(s: seq<Component>, c: Component)
    ensures FlagsOf(s + [c]) == Union(FlagsOf(s), ComponentFlags(c))
  {
    var t := s + [c];
    assert t[|s|] == c && forall i :: 0 <= i < |s| ==> t[i] == s[i];
  }

  /** Accumulated over the components. */
  method ComputeSpecificityAndFlags(s: seq<Component>) returns (r: SpecificityAndFlags)
    ensures r == SpecificityAndFlags(Pack(SpecOf(s)), FlagsOf(s))
  {
    var spec, flags := Spec(0, 0, 0), NO_FLAGS;
    for i := 0 to |s|
      invariant spec == SpecOf(s[..i]) && flags == FlagsOf(s[..i])
    {
      SplitAround(s, i);
      Appended(s[..i], s[i]);
      spec := spec.Plus(ComponentSpec(s[i]));
      flags := Union(flags, ComponentFlags(s[i]));
    }
    assert s[..|s|] == s;
    r := SpecificityAndFlags(Pack(spec), flags);
  }
}
