/** Sequence facts shared by the list containers: the first occurrence of a
    value (what the source's `===` scans find) and its removal. */
module Sequences {

  /** Index of the first element equal to `v`; `|s|` when there is none. */
  function FirstIndex<T(==)>(s: seq<T>, v: T): (i: nat)
    ensures i <= |s|
    ensures i < |s| <==> v in s
    ensures i < |s| ==> s[i] == v
    ensures forall j :: 0 <= j < i ==> s[j] != v
  {
    if s == [] then 0
    else if s[0] == v then 0
    else 1 + FirstIndex(s[1..], v)
  }

  /** `s` without its first occurrence of `v`; `s` itself when `v` is absent. */
  function RemoveFirst<T(==)>(s: seq<T>, v: T): seq<T>
  {
    var i := FirstIndex(s, v);
    if i < |s| then s[..i] + s[i + 1..] else s
  }

  lemma {:induction false} RemoveFirstFacts<T>(s: seq<T>, v: T)
    ensures v in s ==> |RemoveFirst(s, v)| == |s| - 1
    ensures v !in s ==> RemoveFirst(s, v) == s
    ensures multiset(RemoveFirst(s, v)) == multiset(s) - multiset{v}
  {
    var i := FirstIndex(s, v);
    if i < |s| {
      assert s == s[..i] + [s[i]] + s[i + 1..];
    }
  }

  /** Removing one element from a sequence without repetitions keeps it
      without repetitions and takes out exactly that element. */
  lemma {:induction false} RemoveFirstDistinct<T>(s: seq<T>, v: T)
    requires forall i, j :: 0 <= i < j < |s| ==> s[i] != s[j]
    ensures var r := RemoveFirst(s, v);
      && (forall i, j :: 0 <= i < j < |r| ==> r[i] != r[j])
      && (forall x :: x in r <==> x in s && x != v)
  {
    var i := FirstIndex(s, v);
    if i < |s| {
      var r := s[..i] + s[i + 1..];
      assert forall j :: 0 <= j < |r| ==> r[j] == s[if j < i then j else j + 1];
    }
  }
}
