/** JavaScript values and the Array and Set behaviour the catalog page relies on,
    stated over Dafny values. */
module Js {

  /** A value that may be `null`: a missing local-storage key, a missing page link. */
  datatype Option<T> = None | Some(value: T)

  /** JavaScript truthiness of a string that may be `null`: `null` and `""` are falsy. */
  predicate Truthy(s: Option<string>) {
    s.Some? && s.value != ""
  }

  predicate NoDuplicates<T(==)>(s: seq<T>) {
    forall i, j :: 0 <= i < j < |s| ==> s[i] != s[j]
  }

  /** `Array.prototype.indexOf`: the position of the first element equal to `x`, or -1. */
  function IndexOf<T(==)>(s: seq<T>, x: T): (i: int)
    ensures -1 <= i < |s|
    ensures i == -1 <==> x !in s
    ensures 0 <= i ==> s[i] == x && x !in s[..i]
  {
    if s == [] then -1
    else if s[0] == x then 0
    else
      var j := IndexOf(s[1..], x);
      if j == -1 then -1
      else
        assert s[..j + 1] == [s[0]] + s[1..][..j];
        j + 1
  }

  /** The first occurrence is the only position with those two properties. */
  lemma IndexOfUnique<T>(s: seq<T>, x: T, i: nat)
    requires i < |s| && s[i] == x && x !in s[..i]
    ensures IndexOf(s, x) == i
  {
  }

  /** Searching a concatenation searches the left part first. */
  lemma IndexOfAppend<T>(s: seq<T>, t: seq<T>, x: T)
    ensures x in s ==> IndexOf(s + t, x) == IndexOf(s, x)
    ensures x !in s && x in t ==> IndexOf(s + t, x) == |s| + IndexOf(t, x)
  {
    if x in s {
      var i := IndexOf(s, x);
      assert (s + t)[..i] == s[..i];
      IndexOfUnique(s + t, x, i);
    } else if x in t {
      var i := IndexOf(t, x);
      assert (s + t)[..|s| + i] == s + t[..i];
      IndexOfUnique(s + t, x, |s| + i);
    }
  }

  /** `a.splice(i, 1)` for an index inside the array: the array without its element at `i`. */
  function Splice<T>(s: seq<T>, i: nat): (r: seq<T>)
    requires i < |s|
    ensures |r| == |s| - 1
    ensures forall k :: 0 <= k < i ==> r[k] == s[k]
    ensures forall k :: i <= k < |r| ==> r[k] == s[k + 1]
  {
    s[..i] + s[i + 1..]
  }

  lemma SpliceCons<T>(s: seq<T>, i: nat)
    requires 0 < i < |s|
    ensures Splice(s, i) == [s[0]] + Splice(s[1..], i - 1)
  {
    assert s[..i] == [s[0]] + s[1..][..i - 1];
    assert s[i + 1..] == s[1..][i..];
  }

  /** Reference definition: `s` with its first element equal to `x` left out. */
  function RemoveFirst<T(==)>(s: seq<T>, x: T): (r: seq<T>) {
    if s == [] then []
    else if s[0] == x then s[1..]
    else [s[0]] + RemoveFirst(s[1..], x)
  }

  /** `splice(indexOf(x), 1)` removes exactly the first occurrence. */
  lemma {:induction false} SpliceAtIndexOf<T>(s: seq<T>, x: T)
    requires x in s
    ensures RemoveFirst(s, x) == Splice(s, IndexOf(s, x))
  {
    if s[0] == x {
      assert s[..0] + s[1..] == s[1..];
    } else {
      var t := s[1..];
      assert x in t;
      SpliceAtIndexOf(t, x);
      SpliceCons(s, IndexOf(t, x) + 1);
    }
  }

  /** Removing the first occurrence takes exactly one copy of `x` out, when there is one. */
  lemma {:induction false} RemoveFirstMultiset<T>(s: seq<T>, x: T)
    ensures multiset(RemoveFirst(s, x)) == multiset(s) - multiset{x}
  {
    if s == [] {
    } else if s[0] == x {
      assert s == [s[0]] + s[1..];
    } else {
      RemoveFirstMultiset(s[1..], x);
      assert s == [s[0]] + s[1..];
    }
  }

  /** `set.add(x)` on a JavaScript `Set` whose elements, in insertion order, are `s`. */
  function SetAdd<T(==)>(s: seq<T>, x: T): (r: seq<T>) {
    if x in s then s else s + [x]
  }

  /** `set.add(x)`: the elements already there keep their places, `x` ends up in the set,
      a value already present is not added a second time, and a set stays duplicate-free. */
  lemma SetAddKeeps<T>(s: seq<T>, x: T)
    ensures |s| <= |SetAdd(s, x)| <= |s| + 1 && SetAdd(s, x)[..|s|] == s
    ensures x in SetAdd(s, x)
    ensures |SetAdd(s, x)| == |s| + 1 <==> x !in s
    ensures NoDuplicates(s) ==> NoDuplicates(SetAdd(s, x))
  {
    if x !in s {
      assert (s + [x])[..|s|] == s;
    }
  }

  /** The elements of `new Set(s)` in iteration order: each value once, where it first occurs. */
  function Distinct<T(==)>(s: seq<T>): (d: seq<T>)
    ensures NoDuplicates(d)
    ensures forall i :: 0 <= i < |d| ==> d[i] in s
    ensures forall i :: 0 <= i < |s| ==> s[i] in d
  {
    if s == [] then []
    else
      var p := s[..|s| - 1];
      assert s == p + [s[|s| - 1]];
      SetAdd(Distinct(p), s[|s| - 1])
  }

  /** Inserting one more value into the `Set`. */
  lemma DistinctSnoc<T>(s: seq<T>, x: T)
    ensures Distinct(s + [x]) == SetAdd(Distinct(s), x)
  {
    assert (s + [x])[..|s|] == s;
  }

  /** `Distinct` lists the values in the order of their first occurrence in `s`. */
  lemma {:induction false} DistinctFirstOccurrenceOrder<T>(s: seq<T>)
    ensures forall i, j :: 0 <= i < j < |Distinct(s)| ==>
              IndexOf(s, Distinct(s)[i]) < IndexOf(s, Distinct(s)[j])
  {
    if s != [] {
      var p, x := s[..|s| - 1], s[|s| - 1];
      assert s == p + [x];
      var d := Distinct(p);
      DistinctFirstOccurrenceOrder(p);
      DistinctSnoc(p, x);
      forall k | 0 <= k < |d| ensures IndexOf(s, d[k]) == IndexOf(p, d[k]) {
        IndexOfAppend(p, [x], d[k]);
      }
      if x !in p {
        IndexOfAppend(p, [x], x);
        var e := Distinct(s);
        assert e == d + [x];
        forall i, j | 0 <= i < j < |e| ensures IndexOf(s, e[i]) < IndexOf(s, e[j]) {
          if j < |d| {
            assert e[i] == d[i] && e[j] == d[j];
          } else {
            assert e[i] == d[i] && e[j] == x;
          }
        }
      }
    }
  }
}
