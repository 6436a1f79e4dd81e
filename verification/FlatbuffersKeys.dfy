/**
 * The comparisons FlatBuffers vectors are sorted and searched by: scalars by value, strings
 * by the C library's comparison of the stored bytes and then by length.
 */
module FlatbuffersKeys {
  import opened Bytes
  import opened FlatbuffersVector

  function Sign(x: int, y: int): int {
    if x < y then -1 else if x > y then 1 else 0
  }

  /** A string is stored with a zero byte after its end, which no length bound hides. */
  function First(s: seq<Byte>): Byte {
    if s == [] then 0 else s[0]
  }

  // At most `n` characters are compared, and none after a zero.
  function StrNCmp(s: seq<Byte>, t: seq<Byte>, n: nat): int {
    if n == 0 then
      0
    else if First(s) != First(t) then
      Sign(First(s), First(t))
    else if First(s) == 0 then
      0
    else
      StrNCmp(s[1..], t[1..], n - 1)
  }

  function StrCmp(s: seq<Byte>, t: seq<Byte>): int {
    if First(s) != First(t) then
      Sign(First(s), First(t))
    else if First(s) == 0 then
      0
    else
      StrCmp(s[1..], t[1..])
  }

  function StringNCmp(s: seq<Byte>, t: seq<Byte>): int {
    var x := StrNCmp(s, t, if |s| < |t| then |s| else |t|);
    if x != 0 then x else Sign(|s|, |t|)
  }

  /** The string a C program sees: up to the first zero byte. */
  function Visible(s: seq<Byte>): seq<Byte> {
    if First(s) == 0 then [] else [s[0]] + Visible(s[1..])
  }

  function Lexicographic(s: seq<Byte>, t: seq<Byte>): int {
    if s == [] || t == [] then
      Sign(|s|, |t|)
    else if s[0] != t[0] then
      Sign(s[0], t[0])
    else
      Lexicographic(s[1..], t[1..])
  }

  lemma {:induction false} StrCmpIsLexicographic(s: seq<Byte>, t: seq<Byte>)
    ensures StrCmp(s, t) == Lexicographic(Visible(s), Visible(t))
  {
    if First(s) == First(t) != 0 {
      StrCmpIsLexicographic(s[1..], t[1..]);
    }
  }

  // Comparing up to the shorter length and then the lengths is comparing what is visible and
  // then the lengths, even though the bytes after a zero are never compared.
  lemma {:induction false} StringNCmpIsLexicographic(s: seq<Byte>, t: seq<Byte>)
    ensures StringNCmp(s, t) ==
            var x := Lexicographic(Visible(s), Visible(t));
            if x != 0 then x else Sign(|s|, |t|)
  {
    if s != [] && t != [] && First(s) == First(t) != 0 {
      StringNCmpIsLexicographic(s[1..], t[1..]);
    }
  }

  lemma {:induction false} LexicographicSwaps(s: seq<Byte>, t: seq<Byte>)
    ensures Lexicographic(s, t) == -Lexicographic(t, s)
  {
    if s != [] && t != [] && s[0] == t[0] {
      LexicographicSwaps(s[1..], t[1..]);
    }
  }

  lemma {:induction false} LexicographicChains(s: seq<Byte>, t: seq<Byte>, u: seq<Byte>)
    requires Lexicographic(s, t) <= 0 && Lexicographic(t, u) <= 0
    ensures Lexicographic(s, u) <= 0
    ensures Lexicographic(s, u) == 0 ==> Lexicographic(s, t) == 0 && Lexicographic(t, u) == 0
  {
    if s != [] && t != [] && u != [] && s[0] == t[0] == u[0] {
      LexicographicChains(s[1..], t[1..], u[1..]);
    }
  }

  // The elements are compared through the strings they refer to.
  function StringLess(text: int -> seq<Byte>): Less {
    (x: int, y: int) => StringNCmp(text(x), text(y)) < 0
  }

  function StringProbe(text: int -> seq<Byte>, key: seq<Byte>): Probe {
    (x: int) => StrCmp(text(x), key)
  }

  function StringNProbe(text: int -> seq<Byte>, key: seq<Byte>): Probe {
    (x: int) => StringNCmp(text(x), key)
  }

  function ScalarLess(key: int -> int): Less {
    (x: int, y: int) => Sign(key(x), key(y)) < 0
  }

  function ScalarProbe(key: int -> int, wanted: int): Probe {
    (x: int) => Sign(key(x), wanted)
  }

  lemma ScalarsAreOrdered(key: int -> int)
    ensures TotalPreorder(ScalarLess(key))
  {
    var less := ScalarLess(key);
    assert forall x, y :: less(x, y) <==> key(x) < key(y);
  }

  lemma ScalarProbeFollows(key: int -> int, wanted: int)
    ensures Follows(ScalarLess(key), ScalarProbe(key, wanted))
  {
    var less, probe := ScalarLess(key), ScalarProbe(key, wanted);
    forall x, y | !less(y, x)
      ensures probe(x) >= 0 ==> probe(y) >= 0
      ensures probe(x) > 0 ==> probe(y) > 0
    {
      assert key(x) <= key(y);
    }
  }

  // Negative transitivity of one comparison.
  lemma StringsChain(s: seq<Byte>, t: seq<Byte>, u: seq<Byte>)
    requires StringNCmp(s, t) <= 0 && StringNCmp(t, u) <= 0
    ensures StringNCmp(s, u) <= 0
    ensures StringNCmp(s, u) == 0 ==> StringNCmp(s, t) == 0 && StringNCmp(t, u) == 0
  {
    StringNCmpIsLexicographic(s, t);
    StringNCmpIsLexicographic(t, u);
    StringNCmpIsLexicographic(s, u);
    LexicographicChains(Visible(s), Visible(t), Visible(u));
  }

  lemma StringsSwap(s: seq<Byte>, t: seq<Byte>)
    ensures StringNCmp(s, t) == -StringNCmp(t, s)
  {
    StringNCmpIsLexicographic(s, t);
    StringNCmpIsLexicographic(t, s);
    LexicographicSwaps(Visible(s), Visible(t));
  }

  // Equal strings are those of the same bytes, unless a zero byte hides the difference.
  lemma EqualStrings(s: seq<Byte>, t: seq<Byte>)
    ensures StringNCmp(s, t) == 0 <==> Visible(s) == Visible(t) && |s| == |t|
  {
    StringNCmpIsLexicographic(s, t);
    LexicographicZero(Visible(s), Visible(t));
  }

  lemma {:induction false} LexicographicZero(s: seq<Byte>, t: seq<Byte>)
    ensures Lexicographic(s, t) == 0 <==> s == t
  {
    if s != [] && t != [] && s[0] == t[0] {
      LexicographicZero(s[1..], t[1..]);
      assert s == [s[0]] + s[1..] && t == [t[0]] + t[1..];
    }
  }

  lemma StringsAreOrdered(text: int -> seq<Byte>)
    ensures TotalPreorder(StringLess(text))
  {
    var less := StringLess(text);
    forall x, y | true
      ensures less(x, y) ==> !less(y, x)
    {
      StringsSwap(text(x), text(y));
    }
    forall x, y, z | !less(x, y) && !less(y, z)
      ensures !less(x, z)
    {
      StringsSwap(text(x), text(y));
      StringsSwap(text(y), text(z));
      StringsSwap(text(x), text(z));
      StringsChain(text(z), text(y), text(x));
    }
  }

  lemma StringNProbeFollows(text: int -> seq<Byte>, key: seq<Byte>)
    ensures Follows(StringLess(text), StringNProbe(text, key))
  {
    var less, probe := StringLess(text), StringNProbe(text, key);
    forall x, y | !less(y, x)
      ensures probe(x) >= 0 ==> probe(y) >= 0
      ensures probe(x) > 0 ==> probe(y) > 0
    {
      StringsSwap(text(y), text(x));
      StringsSwap(text(y), key);
      StringsSwap(text(x), key);
      if probe(x) >= 0 {
        StringsChain(key, text(x), text(y));
      }
    }
  }

  // Sorting compares lengths as well, searching by a C string does not; the search still
  // finds its way, because length only decides between strings that look the same.
  lemma StringProbeFollows(text: int -> seq<Byte>, key: seq<Byte>)
    ensures Follows(StringLess(text), StringProbe(text, key))
  {
    var less, probe := StringLess(text), StringProbe(text, key);
    forall x, y | !less(y, x)
      ensures probe(x) >= 0 ==> probe(y) >= 0
      ensures probe(x) > 0 ==> probe(y) > 0
    {
      var s, t, k := Visible(text(x)), Visible(text(y)), Visible(key);
      StringNCmpIsLexicographic(text(y), text(x));
      StrCmpIsLexicographic(text(x), key);
      StrCmpIsLexicographic(text(y), key);
      LexicographicSwaps(s, t);
      LexicographicSwaps(s, k);
      LexicographicSwaps(t, k);
      if probe(x) >= 0 {
        LexicographicChains(k, s, t);
      }
    }
  }

  /** Sorted strings can be searched by their C spelling as well as by their bytes and length. */
  lemma SortedStringsCanBeSearched(view: seq<int>, text: int -> seq<Byte>, key: seq<Byte>)
    requires Sorted(view, StringLess(text))
    ensures Ascending(view, StringProbe(text, key)) && Ascending(view, StringNProbe(text, key))
  {
    StringProbeFollows(text, key);
    StringNProbeFollows(text, key);
    SortedIsAscending(view, StringLess(text), StringProbe(text, key));
    SortedIsAscending(view, StringLess(text), StringNProbe(text, key));
  }

  lemma SortedScalarsCanBeSearched(view: seq<int>, key: int -> int, wanted: int)
    requires Sorted(view, ScalarLess(key))
    ensures Ascending(view, ScalarProbe(key, wanted))
  {
    ScalarProbeFollows(key, wanted);
    SortedIsAscending(view, ScalarLess(key), ScalarProbe(key, wanted));
  }

  // ---------- Which way round ----------

  /** Sorting scalars puts them in ascending order of their keys. */
  lemma SortedScalarsIff(view: seq<int>, key: int -> int)
    ensures Sorted(view, ScalarLess(key)) <==> forall i, j :: 0 <= i < j < |view| ==> key(view[i]) <= key(view[j])
  {
    forall x, y
      ensures ScalarLess(key)(x, y) <==> key(x) < key(y)
    {
      ScalarsCompare(key, x, y);
    }
  }

  lemma ScalarsCompare(key: int -> int, x: int, y: int)
    ensures ScalarLess(key)(x, y) <==> key(x) < key(y)
  {
  }

  lemma ScalarProbeMeans(key: int -> int, wanted: int, x: int)
    ensures ScalarProbe(key, wanted)(x) < 0 <==> key(x) < wanted
    ensures ScalarProbe(key, wanted)(x) == 0 <==> key(x) == wanted
  {
  }

  /** The visible part of a string ends before its first zero byte. */
  lemma {:induction false} VisibleEndsAtZero(s: seq<Byte>)
    ensures Visible(s) <= s && forall i :: 0 <= i < |Visible(s)| ==> s[i] != 0
    ensures |Visible(s)| < |s| ==> s[|Visible(s)|] == 0
  {
    if First(s) != 0 {
      VisibleEndsAtZero(s[1..]);
      assert forall i :: 1 <= i < |Visible(s)| ==> s[i] == s[1..][i - 1];
    }
  }

  /** `s` is a proper prefix of `t`, or has the smaller byte at the first difference. */
  ghost predicate Precedes(s: seq<Byte>, t: seq<Byte>) {
    exists k: nat :: DiffersAt(s, t, k)
  }

  predicate DiffersAt(s: seq<Byte>, t: seq<Byte>, k: nat) {
    && k <= |s| && k < |t| && s[..k] == t[..k]
    && (k == |s| || s[k] < t[k])
  }

  lemma {:induction false} LexicographicMeans(s: seq<Byte>, t: seq<Byte>)
    ensures Lexicographic(s, t) < 0 <==> Precedes(s, t)
  {
    if s != [] && t != [] && s[0] == t[0] {
      LexicographicMeans(s[1..], t[1..]);
      if Precedes(s[1..], t[1..]) {
        var k: nat :| DiffersAt(s[1..], t[1..], k);
        assert s[..k + 1] == [s[0]] + s[1..][..k] && t[..k + 1] == [t[0]] + t[1..][..k];
        assert DiffersAt(s, t, k + 1);
      }
      if Precedes(s, t) {
        var k: nat :| DiffersAt(s, t, k);
        assert k > 0 && s[1..][..k - 1] == s[..k][1..] && t[1..][..k - 1] == t[..k][1..];
        assert DiffersAt(s[1..], t[1..], k - 1);
      }
    } else {
      DiffersAtStart(s, t);
    }
  }

  lemma DiffersAtStart(s: seq<Byte>, t: seq<Byte>)
    requires s == [] || t == [] || s[0] != t[0]
    ensures Precedes(s, t) <==> t != [] && (s == [] || s[0] < t[0])
  {
    if t != [] && (s == [] || s[0] < t[0]) {
      assert DiffersAt(s, t, 0);
    }
    if Precedes(s, t) {
      var k: nat :| DiffersAt(s, t, k);
      SameStart(s, t, k);
    }
  }

  lemma SameStart(s: seq<Byte>, t: seq<Byte>, k: nat)
    ensures DiffersAt(s, t, k) && k > 0 ==> s != [] && s[0] == t[0]
  {
    if DiffersAt(s, t, k) && k > 0 {
      assert s[..k][0] == t[..k][0];
    }
  }

  /** Searching by a C string compares the visible parts. */
  lemma StrCmpMeans(s: seq<Byte>, t: seq<Byte>)
    ensures StrCmp(s, t) < 0 <==> Precedes(Visible(s), Visible(t))
    ensures StrCmp(s, t) > 0 <==> Precedes(Visible(t), Visible(s))
    ensures StrCmp(s, t) == 0 <==> Visible(s) == Visible(t)
  {
    StrCmpIsLexicographic(s, t);
    LexicographicMeans(Visible(s), Visible(t));
    LexicographicMeans(Visible(t), Visible(s));
    LexicographicSwaps(Visible(s), Visible(t));
    LexicographicZero(Visible(s), Visible(t));
  }

  /** Sorting compares the visible parts, and then the lengths. */
  lemma StringNCmpMeans(s: seq<Byte>, t: seq<Byte>)
    ensures StringNCmp(s, t) < 0 <==>
            Precedes(Visible(s), Visible(t)) || (Visible(s) == Visible(t) && |s| < |t|)
  {
    StringNCmpIsLexicographic(s, t);
    LexicographicMeans(Visible(s), Visible(t));
    LexicographicZero(Visible(s), Visible(t));
  }

  /** Sorted strings ascend: none is followed by one that precedes it, or looks the same and is shorter. */
  lemma SortedStringsIff(view: seq<int>, text: int -> seq<Byte>)
    ensures Sorted(view, StringLess(text)) <==>
            forall i, j :: 0 <= i < j < |view| ==>
              var s, t := text(view[i]), text(view[j]);
              !Precedes(Visible(t), Visible(s)) && !(Visible(t) == Visible(s) && |t| < |s|)
  {
    forall x, y
      ensures StringLess(text)(x, y) <==>
              || Precedes(Visible(text(x)), Visible(text(y)))
              || (Visible(text(x)) == Visible(text(y)) && |text(x)| < |text(y)|)
    {
      StringNCmpMeans(text(x), text(y));
    }
  }
}
