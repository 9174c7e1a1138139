/** Options, and sequences with no regard to what is in them. */
module Sequences {

  datatype Option<+T> = None | Some(value: T)

  ghost predicate Distinct<T>(s: seq<T>) {
    forall i, j | 0 <= i < j < |s| :: s[i] != s[j]
  }

  lemma Regroup<T>(a: seq<T>, b: seq<T>, c: seq<T>)
    ensures a + (b + c) == a + b + c
  {
  }

  lemma HeadTail<T>(a: T, s: seq<T>, b: T, t: seq<T>)
    ensures [a] + s == [b] + t <==> a == b && s == t
  {
    if [a] + s == [b] + t {
      assert ([a] + s)[0] == ([b] + t)[0];
      assert ([a] + s)[1..] == ([b] + t)[1..];
    }
  }

  /** The parts, one after the other. */
  function Flatten<T>(parts: seq<seq<T>>): seq<T> {
    if parts == [] then [] else Flatten(parts[..|parts| - 1]) + parts[|parts| - 1]
  }

  /** Where part k starts in the whole. */
  function Start<T>(parts: seq<seq<T>>, k: nat): nat
    requires k <= |parts|
  {
    |Flatten(parts[..k])|
  }

  lemma FlattenNext<T>(parts: seq<seq<T>>, k: nat)
    requires k < |parts|
    ensures Flatten(parts[..k + 1]) == Flatten(parts[..k]) + parts[k]
  {
    assert parts[..k + 1][..k] == parts[..k];
  }

  lemma {:induction false} FlattenPrefix<T>(parts: seq<seq<T>>, k: nat)
    requires k <= |parts|
    ensures Flatten(parts[..k]) <= Flatten(parts)
    decreases |parts| - k
  {
    if k == |parts| {
      assert parts[..k] == parts;
    } else {
      FlattenPrefix(parts, k + 1);
      FlattenNext(parts, k);
    }
  }

  /** Element j of part k in the whole. */
  lemma FlattenAt<T>(parts: seq<seq<T>>, k: nat, j: nat)
    requires k < |parts| && j < |parts[k]|
    ensures Start(parts, k) + j < |Flatten(parts)|
    ensures Flatten(parts)[Start(parts, k) + j] == parts[k][j]
  {
    FlattenNext(parts, k);
    FlattenPrefix(parts, k + 1);
  }

  /** The whole holds what the parts hold. */
  lemma {:induction false} FlattenHolds<T>(parts: seq<seq<T>>, x: T)
    ensures x in Flatten(parts) <==> exists k :: 0 <= k < |parts| && x in parts[k]
  {
    if parts != [] {
      var front, last := parts[..|parts| - 1], parts[|parts| - 1];
      FlattenHolds(front, x);
      if x in Flatten(front) {
        var k :| 0 <= k < |front| && x in front[k];
        assert x in parts[k];
      }
      if k :| 0 <= k < |parts| && x in parts[k] {
        assert k < |front| ==> x in front[k];
      }
    }
  }

  lemma {:induction false} FlattenDistinct<T>(parts: seq<seq<T>>)
    requires forall k | 0 <= k < |parts| :: Distinct(parts[k])
    requires forall i, j, x | 0 <= i < j < |parts| && x in parts[i] :: x !in parts[j]
    ensures Distinct(Flatten(parts))
  {
    if parts != [] {
      var front, last := parts[..|parts| - 1], parts[|parts| - 1];
      FlattenDistinct(front);
      forall x | x in Flatten(front) ensures x !in last {
        FlattenHolds(front, x);
        var k :| 0 <= k < |front| && x in front[k];
        assert x in parts[k];
      }
      DistinctConcat(Flatten(front), last);
    }
  }

  lemma DistinctConcat<T>(s: seq<T>, t: seq<T>)
    requires Distinct(s) && Distinct(t) && forall x | x in s :: x !in t
    ensures Distinct(s + t)
  {
    var st := s + t;
    forall i, j | 0 <= i < j < |st| ensures st[i] != st[j] {
      if i < |s| <= j {
        assert st[i] in s && st[j] == t[j - |s|];
      }
    }
  }
}
