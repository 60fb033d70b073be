/**
 Boolean indexing, `df[mask]`: the rows whose mask entry is true, in their
 original order. `Where` builds the mask by applying a row predicate to every
 row, as a comparison on a column does.
 */
module Masks {

  /** The elements of `s` whose mask entry is true, in order. */
  function Select<T>(s: seq<T>, mask: seq<bool>): (r: seq<T>)
    requires |mask| == |s|
    ensures |r| <= |s|
    ensures forall x :: x in r ==> x in s
  {
    if s == [] then []
    else
      var n := |s| - 1;
      Select(s[..n], mask[..n]) + (if mask[n] then [s[n]] else [])
  }

  /** The positions at which the mask is true, in increasing order. */
  function Positions(mask: seq<bool>): (r: seq<nat>)
    ensures forall k :: 0 <= k < |r| ==> r[k] < |mask| && mask[r[k]]
    ensures forall k, l :: 0 <= k < l < |r| ==> r[k] < r[l]
    ensures forall i :: 0 <= i < |mask| && mask[i] ==> i in r
  {
    if mask == [] then []
    else
      var n := |mask| - 1;
      Positions(mask[..n]) + (if mask[n] then [n] else [])
  }

  /** The mask obtained by testing every element with `p`. */
  function MaskOf<T>(s: seq<T>, p: T -> bool): (m: seq<bool>)
    ensures |m| == |s| && forall i :: 0 <= i < |s| ==> m[i] == p(s[i])
  {
    seq(|s|, i requires 0 <= i < |s| => p(s[i]))
  }

  /** `s[p(s)]`: the elements satisfying `p`, in their original order. */
  function Where<T>(s: seq<T>, p: T -> bool): (r: seq<T>)
    ensures |r| <= |s|
    ensures forall k :: 0 <= k < |r| ==> p(r[k])
  {
    var m := MaskOf(s, p);
    SelectAt(s, m);
    Select(s, m)
  }

  /** The selection is a subsequence: its `k`-th element is the element of `s`
      at the `k`-th true position of the mask. */
  lemma {:induction false} SelectAt<T>(s: seq<T>, mask: seq<bool>)
    requires |mask| == |s|
    ensures |Select(s, mask)| == |Positions(mask)|
    ensures forall k :: 0 <= k < |Positions(mask)| ==> Select(s, mask)[k] == s[Positions(mask)[k]]
  {
    if s != [] {
      var n := |s| - 1;
      SelectAt(s[..n], mask[..n]);
    }
  }

  /** An element is selected exactly when it occurs in `s` at a true position. */
  lemma {:induction false} SelectMembership<T>(s: seq<T>, mask: seq<bool>, x: T)
    requires |mask| == |s|
    ensures x in Select(s, mask) <==> exists i :: 0 <= i < |s| && mask[i] && s[i] == x
  {
    if s != [] {
      var n := |s| - 1;
      SelectMembership(s[..n], mask[..n], x);
      if x in Select(s[..n], mask[..n]) {
        var i :| 0 <= i < n && mask[..n][i] && s[..n][i] == x;
        assert mask[i] && s[i] == x;
      }
      if exists i :: 0 <= i < |s| && mask[i] && s[i] == x {
        var i :| 0 <= i < |s| && mask[i] && s[i] == x;
        if i < n {
          assert mask[..n][i] && s[..n][i] == x;
        }
      }
    }
  }

  /** An element is kept exactly when it occurs in `s` and satisfies `p`. */
  lemma WhereMembership<T>(s: seq<T>, p: T -> bool, x: T)
    ensures x in Where(s, p) <==> x in s && p(x)
  {
    SelectMembership(s, MaskOf(s, p), x);
  }

  /** Keeping every element returns the sequence unchanged. */
  lemma {:induction false} WhereAll<T>(s: seq<T>, p: T -> bool)
    requires forall i :: 0 <= i < |s| ==> p(s[i])
    ensures Where(s, p) == s
  {
    if s != [] {
      var n := |s| - 1;
      assert MaskOf(s, p)[..n] == MaskOf(s[..n], p);
      WhereAll(s[..n], p);
      assert s[..n] + [s[n]] == s;
    }
  }

  /** Keeping no element returns the empty sequence. */
  lemma {:induction false} WhereNone<T>(s: seq<T>, p: T -> bool)
    requires forall i :: 0 <= i < |s| ==> !p(s[i])
    ensures Where(s, p) == []
  {
    if s != [] {
      var n := |s| - 1;
      assert MaskOf(s, p)[..n] == MaskOf(s[..n], p);
      WhereNone(s[..n], p);
    }
  }

  /** Two predicates that agree on every element select the same elements. */
  lemma WhereAgree<T>(s: seq<T>, p: T -> bool, q: T -> bool)
    requires forall i :: 0 <= i < |s| ==> p(s[i]) == q(s[i])
    ensures Where(s, p) == Where(s, q)
  {
    assert MaskOf(s, p) == MaskOf(s, q);
  }

  /** Appending an element appends it to the result exactly when it is kept. */
  lemma WhereSnoc<T>(s: seq<T>, x: T, p: T -> bool)
    ensures Where(s + [x], p) == Where(s, p) + (if p(x) then [x] else [])
  {
    var t := s + [x];
    assert t[..|s|] == s;
    assert MaskOf(t, p)[..|s|] == MaskOf(s, p);
  }

  /** Filtering by `p` and then by `q` is filtering once by their conjunction. */
  lemma {:induction false} WhereWhere<T>(s: seq<T>, p: T -> bool, q: T -> bool, pq: T -> bool)
    requires forall x :: pq(x) == (p(x) && q(x))
    ensures Where(Where(s, p), q) == Where(s, pq)
  {
    if s != [] {
      var n := |s| - 1;
      var init := s[..n];
      assert s == init + [s[n]];
      WhereWhere(init, p, q, pq);
      WhereSnoc(init, s[n], p);
      WhereSnoc(init, s[n], pq);
      var w := Where(init, p);
      if p(s[n]) {
        WhereSnoc(w, s[n], q);
        assert Where(s, p) == w + [s[n]];
      } else {
        assert Where(s, p) == w + [] == w;
        assert Where(s, pq) == Where(init, pq) + [] == Where(init, pq);
      }
    }
  }
}
