/** `Array.prototype.filter` on immutable sequences, with the facts the
    core relies on: membership, length and order. */
module Seqs {

  function Filter<T>(s: seq<T>, keep: T -> bool): (r: seq<T>)
    ensures |r| <= |s|
    ensures forall i :: 0 <= i < |r| ==> keep(r[i])
  {
    if s == [] then [] else (if keep(s[0]) then [s[0]] else []) + Filter(s[1..], keep)
  }

  /** Filter keeps exactly the members of s that satisfy keep. */
  lemma {:induction false} FilterMembers<T>(s: seq<T>, keep: T -> bool)
    ensures forall i :: 0 <= i < |Filter(s, keep)| ==> Filter(s, keep)[i] in s
    ensures forall i :: 0 <= i < |s| && keep(s[i]) ==> s[i] in Filter(s, keep)
  {
    if s != [] {
      FilterMembers(s[1..], keep);
      var head: seq<T> := if keep(s[0]) then [s[0]] else [];
      var rest := Filter(s[1..], keep);
      assert Filter(s, keep) == head + rest;
      forall i | 0 <= i < |head + rest|
        ensures (head + rest)[i] in s
      {
        if i >= |head| {
          assert (head + rest)[i] == rest[i - |head|];
          assert rest[i - |head|] in s[1..];
        }
      }
      forall i | 0 <= i < |s| && keep(s[i])
        ensures s[i] in head + rest
      {
        if i > 0 {
          assert s[i] == s[1..][i - 1];
        }
      }
    }
  }

  /** Filtering a concatenation filters each part in place: kept elements
      keep their relative order. */
  lemma {:induction false} FilterConcat<T>(a: seq<T>, b: seq<T>, keep: T -> bool)
    ensures Filter(a + b, keep) == Filter(a, keep) + Filter(b, keep)
  {
    if a == [] {
      assert a + b == b;
    } else {
      assert (a + b)[0] == a[0] && (a + b)[1..] == a[1..] + b;
      FilterConcat(a[1..], b, keep);
    }
  }

  /** Nothing is dropped exactly when every element is kept. */
  lemma {:induction false} FilterKeepsAll<T>(s: seq<T>, keep: T -> bool)
    ensures |Filter(s, keep)| == |s| <==> forall i :: 0 <= i < |s| ==> keep(s[i])
    ensures (forall i :: 0 <= i < |s| ==> keep(s[i])) ==> Filter(s, keep) == s
  {
    if s != [] {
      assert Filter(s, keep) == (if keep(s[0]) then [s[0]] else []) + Filter(s[1..], keep);
      FilterKeepsAll(s[1..], keep);
      assert forall i :: 1 <= i < |s| ==> s[1..][i - 1] == s[i];
    }
  }

  /** Nothing is left exactly when nothing is kept. */
  lemma FilterEmpty<T>(s: seq<T>, keep: T -> bool)
    ensures Filter(s, keep) == [] <==> forall i :: 0 <= i < |s| ==> !keep(s[i])
  {
    var r := Filter(s, keep);
    FilterMembers(s, keep);
    if r != [] {
      assert r[0] in s && keep(r[0]);
      var j :| 0 <= j < |s| && s[j] == r[0];
      assert keep(s[j]);
    }
  }

  /** The positions of s from i on whose elements are kept, in increasing order. */
  function KeptPositions<T>(s: seq<T>, keep: T -> bool, i: nat): (idx: seq<nat>)
    requires i <= |s|
    ensures forall k :: 0 <= k < |idx| ==> i <= idx[k] < |s|
    ensures forall k, l :: 0 <= k < l < |idx| ==> idx[k] < idx[l]
    decreases |s| - i
  {
    if i == |s| then []
    else if keep(s[i]) then [i] + KeptPositions(s, keep, i + 1)
    else KeptPositions(s, keep, i + 1)
  }

  /** The k-th element Filter keeps from s[i..] is the one at the k-th kept position. */
  lemma {:induction false} KeptPositionsSelect<T>(s: seq<T>, keep: T -> bool, i: nat)
    requires i <= |s|
    ensures |KeptPositions(s, keep, i)| == |Filter(s[i..], keep)|
    ensures forall k :: 0 <= k < |KeptPositions(s, keep, i)| ==>
              Filter(s[i..], keep)[k] == s[KeptPositions(s, keep, i)[k]]
    decreases |s| - i
  {
    if i < |s| {
      KeptPositionsSelect(s, keep, i + 1);
      assert s[i..][0] == s[i] && s[i..][1..] == s[i + 1..];
    }
  }

  /** A position from i on is listed exactly when its element is kept. */
  lemma {:induction false} KeptPositionsExact<T>(s: seq<T>, keep: T -> bool, i: nat)
    requires i <= |s|
    ensures forall j :: i <= j < |s| ==> (keep(s[j]) <==> j in KeptPositions(s, keep, i))
    decreases |s| - i
  {
    if i < |s| {
      KeptPositionsExact(s, keep, i + 1);
    }
  }

  /** Filter's result is s restricted to exactly the kept positions, in their
      original order. */
  lemma FilterIsKeptPositions<T>(s: seq<T>, keep: T -> bool)
    ensures var idx := KeptPositions(s, keep, 0);
            |idx| == |Filter(s, keep)| &&
            (forall k :: 0 <= k < |idx| ==> idx[k] < |s| && Filter(s, keep)[k] == s[idx[k]]) &&
            (forall k, l :: 0 <= k < l < |idx| ==> idx[k] < idx[l]) &&
            (forall i :: 0 <= i < |s| ==> (keep(s[i]) <==> i in idx))
  {
    KeptPositionsSelect(s, keep, 0);
    KeptPositionsExact(s, keep, 0);
    assert s[0..] == s;
  }
}
