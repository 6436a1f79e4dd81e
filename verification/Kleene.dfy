/** Kleene's three-valued logic, and the short-circuiting folds of the matcher. */
module Kleene {
  import opened Wrappers

  datatype KleeneValue = False | True | Unknown {
    /** The value, reading Unknown as the argument. */
    function ToBool(unknown: bool): bool {
      match this
      case True => true
      case False => false
      case Unknown => unknown
    }
  }

  function FromBool(b: bool): KleeneValue {
    if b then True else False
  }

  function Not(k: KleeneValue): KleeneValue {
    match k
    case True => False
    case False => True
    case Unknown => Unknown
  }

  function And(a: KleeneValue, b: KleeneValue): KleeneValue {
    if a == False || b == False then False
    else if a == Unknown || b == Unknown then Unknown
    else True
  }

  function Or(a: KleeneValue, b: KleeneValue): KleeneValue {
    if a == True || b == True then True
    else if a == Unknown || b == Unknown then Unknown
    else False
  }

  /** The fold both `any` and `any_false` are made of: stop at `value`, otherwise combine. */
  method AnyValue<T>(items: seq<T>, value: KleeneValue, onEmpty: KleeneValue,
                     op: (KleeneValue, KleeneValue) -> KleeneValue, f: T -> KleeneValue) returns (r: KleeneValue)
    ensures (exists i :: 0 <= i < |items| && f(items[i]) == value) ==> r == value
    ensures (forall i :: 0 <= i < |items| ==> f(items[i]) != value) ==>
              r == if items == [] then onEmpty else FoldFrom(items, 1, f(items[0]), op, f)
  {
    var result: Option<KleeneValue> := None;
    for i := 0 to |items|
      invariant forall j :: 0 <= j < i ==> f(items[j]) != value
      invariant i == 0 <==> result.None?
      invariant i > 0 ==> FoldFrom(items, 1, f(items[0]), op, f) == FoldFrom(items, i, result.value, op, f)
    {
      var k := f(items[i]);
      if k == value {
        return k;
      }
      match result {
        case Some(v) => result := Some(op(v, k));
        case None => result := Some(k);
      }
    }
    r := result.GetOr(onEmpty);
  }

  function FoldFrom<T>(items: seq<T>, i: nat, acc: KleeneValue,
                       op: (KleeneValue, KleeneValue) -> KleeneValue, f: T -> KleeneValue): KleeneValue
    requires i <= |items|
    decreases |items| - i
  {
    if i == |items| then acc else FoldFrom(items, i + 1, op(acc, f(items[i])), op, f)
  }

  lemma {:induction false} FoldOr<T>(items: seq<T>, i: nat, acc: KleeneValue, f: T -> KleeneValue)
    requires i <= |items| && acc != True
    requires forall j :: i <= j < |items| ==> f(items[j]) != True
    ensures FoldFrom(items, i, acc, Or, f) == Unknown <==>
            acc == Unknown || exists j :: i <= j < |items| && f(items[j]) == Unknown
    ensures FoldFrom(items, i, acc, Or, f) != True
    decreases |items| - i
  {
    if i < |items| {
      FoldOr(items, i + 1, Or(acc, f(items[i])), f);
    }
  }

  lemma {:induction false} FoldAnd<T>(items: seq<T>, i: nat, acc: KleeneValue, f: T -> KleeneValue)
    requires i <= |items| && acc != False
    requires forall j :: i <= j < |items| ==> f(items[j]) != False
    ensures FoldFrom(items, i, acc, And, f) == Unknown <==>
            acc == Unknown || exists j :: i <= j < |items| && f(items[j]) == Unknown
    ensures FoldFrom(items, i, acc, And, f) != False
    decreases |items| - i
  {
    if i < |items| {
      FoldAnd(items, i + 1, And(acc, f(items[i])), f);
    }
  }

  /** Three-valued disjunction: definite as soon as the two-valued completions agree. */
  method Any<T>(items: seq<T>, f: T -> KleeneValue) returns (r: KleeneValue)
    ensures r == True <==> exists i :: 0 <= i < |items| && f(items[i]) == True
    ensures r == False <==> forall i :: 0 <= i < |items| ==> f(items[i]) == False
  {
    r := AnyValue(items, True, False, Or, f);
    if items != [] && forall i :: 0 <= i < |items| ==> f(items[i]) != True {
      FoldOr(items, 1, f(items[0]), f);
    }
  }

  /** Three-valued conjunction. */
  method AnyFalse<T>(items: seq<T>, f: T -> KleeneValue) returns (r: KleeneValue)
    ensures r == False <==> exists i :: 0 <= i < |items| && f(items[i]) == False
    ensures r == True <==> forall i :: 0 <= i < |items| ==> f(items[i]) == True
  {
    r := AnyValue(items, False, True, And, f);
    if items != [] && forall i :: 0 <= i < |items| ==> f(items[i]) != False {
      FoldAnd(items, 1, f(items[0]), f);
    }
  }
}
