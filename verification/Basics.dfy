/** What several parts of the model need: least elements and sizes of finite sets, the ascending enumeration
    that iterating an ordered map gives, sums, and the lanes of subwarps. */
module Basics {

  datatype Option<T> = None | Some(value: T)

  ghost predicate IsLeast(s: set<int>, m: int) {
    m in s && forall x :: x in s ==> m <= x
  }

  lemma Pick<T>(s: set<T>) returns (x: T)
    requires s != {}
    ensures x in s
  {
    x :| x in s;
  }

  lemma {:induction false} HasLeast(s: set<int>)
    requires s != {}
    ensures exists m :: IsLeast(s, m)
  {
    var x := Pick(s);
    var t := s - {x};
    assert forall y :: y in s ==> y == x || y in t;
    if t == {} {
      assert IsLeast(s, x);
    } else {
      HasLeast(t);
      var m :| IsLeast(t, m);
      assert IsLeast(s, if m < x then m else x);
    }
  }

  ghost function Least(s: set<int>): (m: int)
    requires s != {}
    ensures IsLeast(s, m)
  {
    HasLeast(s);
    var m :| IsLeast(s, m);
    m
  }

  /** The first key of an ordered map. */
  method LeastMember(s: set<nat>) returns (b: nat)
    requires s != {}
    ensures b in s && b == Least(s)
  {
    assert IsLeast(s, Least(s));
    b :| b in s && forall k :: k in s ==> b <= k;
  }

  lemma {:induction false} SubsetSize<T>(a: set<T>, b: set<T>)
    requires a <= b
    ensures |a| <= |b|
    ensures a != b ==> |a| < |b|
  {
    if a != {} {
      var x :| x in a;
      SubsetSize(a - {x}, b - {x});
    }
  }

  lemma SingletonIs<T>(s: set<T>, x: T)
    requires |s| == 1 && x in s
    ensures s == {x}
  {
    assert |s - {x}| == 0;
  }

  lemma OtherMember<T>(s: set<T>, x: T)
    requires |s| == 2 && x in s
    ensures |s - {x}| == 1
    ensures exists y :: y in s && y != x && s == {x, y}
  {
    var t := s - {x};
    assert |t| == 1;
    var y :| y in t;
    SingletonIs(t, y);
    assert s == {x} + t;
  }

  lemma SliceSnoc<T>(s: seq<T>, lo: nat, i: nat)
    requires lo <= i < |s|
    ensures s[lo..i + 1] == s[lo..i] + [s[i]]
  {
  }

  /** Subwarp number `k` of a warp in `parts` subwarps of `size` lanes. */
  lemma Subwarps(size: nat, parts: nat, k: nat, total: nat)
    requires k < parts && size * parts <= total
    ensures 0 <= size * k <= size * (k + 1) <= total
  {
    assert size * (k + 1) <= size * parts;
  }

  function Sum(s: seq<nat>): (n: nat) {
    if s == [] then 0 else Sum(s[..|s| - 1]) + s[|s| - 1]
  }

  lemma {:induction false} SumDrops(a: seq<nat>, b: seq<nat>)
    requires |a| == |b| && forall i :: 0 <= i < |a| ==> a[i] <= b[i]
    ensures Sum(a) <= Sum(b)
    ensures a != b ==> Sum(a) < Sum(b)
  {
    if a != [] {
      var m := |a| - 1;
      SumDrops(a[..m], b[..m]);
      assert a == a[..m] + [a[m]] && b == b[..m] + [b[m]];
    }
  }

  /** The members of a set of numbers in ascending order, as an ordered map yields its keys. */
  ghost function Ascending(s: set<nat>): (r: seq<nat>)
    ensures |r| == |s|
  {
    if s == {} then [] else [Least(s)] + Ascending(s - {Least(s)})
  }

  lemma {:induction false} AscendingIn(s: set<nat>, j: nat)
    requires j < |s|
    ensures Ascending(s)[j] in s
  {
    if j > 0 {
      AscendingIn(s - {Least(s)}, j - 1);
    }
  }

  lemma {:induction false} AscendingFind(s: set<nat>, x: nat) returns (j: nat)
    requires x in s
    ensures j < |s| && Ascending(s)[j] == x
  {
    if x == Least(s) {
      j := 0;
    } else {
      j := AscendingFind(s - {Least(s)}, x);
      j := j + 1;
    }
  }

  lemma {:induction false} AscendingOrder(s: set<nat>, i: nat, j: nat)
    requires i < j < |s|
    ensures Ascending(s)[i] < Ascending(s)[j]
  {
    var rest := s - {Least(s)};
    if i > 0 {
      AscendingOrder(rest, i - 1, j - 1);
    } else {
      AscendingIn(rest, j - 1);
    }
  }
}
