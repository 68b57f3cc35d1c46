/** The order the tree of programs/include/RbTree.hpp is kept in, for any comparison
    that is a strict weak order on the node indices. */
module RbOrder {
  type Less = (nat, nat) -> bool

  /** Never both less and greater; where `a` is less than `b`, every `c` is greater than `a` or less than `b`. */
  ghost predicate StrictWeak(less: Less) {
    && (forall a: nat, b: nat :: less(a, b) ==> !less(b, a))
    && (forall a: nat, b: nat, c: nat {:trigger less(a, b), less(a, c)} {:trigger less(a, b), less(c, b)} :: less(a, b) ==> less(a, c) || less(c, b))
  }

  predicate Sorted(less: Less, s: seq<nat>) {
    forall j, k :: 0 <= j < k < |s| ==> !less(s[k], s[j])
  }

  /** `z` goes after every element of `s` it is not less than. */
  predicate GoesAfter(less: Less, z: nat, s: seq<nat>) {
    forall j :: 0 <= j < |s| ==> !less(z, s[j])
  }

  predicate GoesBefore(less: Less, z: nat, s: seq<nat>) {
    forall j :: 0 <= j < |s| ==> less(z, s[j])
  }

  lemma SortedInsert(less: Less, s: seq<nat>, t: seq<nat>, z: nat)
    requires StrictWeak(less) && Sorted(less, s + t)
    requires GoesAfter(less, z, s) && GoesBefore(less, z, t)
    ensures Sorted(less, s + [z] + t)
  {
    var u, v := s + t, s + [z] + t;
    forall j, k | 0 <= j < k < |v| ensures !less(v[k], v[j]) {
      if j < |s| {
        assert v[j] == u[j];
        if k == |s| { assert v[k] == z && v[j] == s[j]; }
        else { assert v[k] == u[if k < |s| then k else k - 1]; }
      } else if j > |s| {
        assert v[j] == u[j - 1] && v[k] == u[k - 1];
      } else {
        assert v[k] == t[k - |s| - 1];
      }
    }
  }

  lemma SortedDelete(less: Less, s: seq<nat>, t: seq<nat>, z: nat)
    requires Sorted(less, s + [z] + t)
    ensures Sorted(less, s + t)
  {
    var u, v := s + t, s + [z] + t;
    forall j, k | 0 <= j < k < |u| ensures !less(u[k], u[j]) {
      assert u[j] == v[if j < |s| then j else j + 1];
      assert u[k] == v[if k < |s| then k else k + 1];
    }
  }

  /** In a sorted sequence, what follows an element that `z` precedes is preceded
      by `z`, and what comes before an element that `z` does not precede is not. */
  lemma Descend(less: Less, b: seq<nat>, l: seq<nat>, x: nat, r: seq<nat>, a: seq<nat>, z: nat)
    requires StrictWeak(less) && Sorted(less, b + (l + [x] + r) + a)
    ensures less(z, x) ==> GoesBefore(less, z, r)
    ensures !less(z, x) ==> GoesAfter(less, z, l)
  {
    var s := b + (l + [x] + r) + a;
    assert s[|b| + |l|] == x;
    forall j | 0 <= j < |r| && less(z, x) ensures less(z, r[j]) {
      assert s[|b| + |l| + 1 + j] == r[j];
    }
    forall j | 0 <= j < |l| && !less(z, x) ensures !less(z, l[j]) {
      assert s[|b| + j] == l[j];
    }
  }

  /** `z` was put into `s` after every element it is not less than, before all others. */
  ghost predicate Inserted(less: Less, s: seq<nat>, z: nat, s': seq<nat>) {
    exists k :: 0 <= k <= |s| && s' == s[..k] + [z] + s[k..] && GoesAfter(less, z, s[..k]) && GoesBefore(less, z, s[k..])
  }

  lemma InsertedHere(less: Less, s: seq<nat>, b: seq<nat>, a: seq<nat>, z: nat)
    requires s == b + a || s == b + [] + a
    requires GoesAfter(less, z, b) && GoesBefore(less, z, a)
    ensures Inserted(less, s, z, b + [z] + a)
  {
    assert s == b + a;
    var k := |b|;
    assert s[..k] == b && s[k..] == a;
  }

  /** `z` was taken out of `s`, everything else kept its place. */
  ghost predicate Removed(s: seq<nat>, z: nat, s': seq<nat>) {
    exists k :: RemovedAt(s, z, s', k)
  }

  predicate RemovedAt(s: seq<nat>, z: nat, s': seq<nat>, k: int) {
    0 <= k < |s| && s[k] == z && s' == s[..k] + s[k + 1..]
  }

  lemma RemovedSorted(less: Less, s: seq<nat>, z: nat, s': seq<nat>)
    requires Sorted(less, s) && Removed(s, z, s')
    ensures Sorted(less, s')
  {
    var k :| RemovedAt(s, z, s', k);
    assert s == s[..k] + [z] + s[k + 1..];
    SortedDelete(less, s[..k], s[k + 1..], z);
  }

  lemma RemovedFrom(s: seq<nat>, z: nat, s': seq<nat>)
    requires Removed(s, z, s')
    ensures multiset(s') == multiset(s) - multiset{z} && z in s
    ensures forall a :: a in s' ==> a in s
  {
    var k: int :| RemovedAt(s, z, s', k);
    assert s == s[..k] + [z] + s[k + 1..];
  }

  lemma InsertedInto(less: Less, s: seq<nat>, z: nat, s': seq<nat>)
    requires Inserted(less, s, z, s')
    ensures multiset(s') == multiset(s) + multiset{z}
    ensures forall a :: a in s' <==> a in s || a == z
  {
    var k :| 0 <= k <= |s| && s' == s[..k] + [z] + s[k..] && GoesAfter(less, z, s[..k]) && GoesBefore(less, z, s[k..]);
    assert s == s[..k] + s[k..];
  }

  lemma RemovedHere(s: seq<nat>, b: seq<nat>, a: seq<nat>, z: nat)
    requires s == b + [z] + a
    ensures Removed(s, z, b + a)
  {
    var k := |b|;
    assert s[..k] == b && s[k + 1..] == a && s[k] == z;
    assert RemovedAt(s, z, b + a, k);
  }

  lemma OnlyThere(s: seq<nat>, z: nat, k: nat, j: nat)
    requires z !in s && k <= |s| && j <= |s| && (s[..k] + [z] + s[k..])[j] == z
    ensures j == k
  {
    assert forall i: nat :: i < |s| ==> s[i] != z;
  }

  /** Removing a node that was just inserted gives the old order back. */
  lemma InsertRemove(less: Less, s: seq<nat>, z: nat, s': seq<nat>, s'': seq<nat>)
    requires z !in s && Inserted(less, s, z, s') && Removed(s', z, s'')
    ensures s'' == s
  {
    hide GoesAfter, GoesBefore;
    var k :| 0 <= k <= |s| && s' == s[..k] + [z] + s[k..] && GoesAfter(less, z, s[..k]) && GoesBefore(less, z, s[k..]);
    var j :| RemovedAt(s', z, s'', j);
    OnlyThere(s, z, k, j);
    assert s'[..k] == s[..k] && s'[k + 1..] == s[k..];
    assert s == s[..k] + s[k..];
  }

  type Cmp = nat -> bool

  /** `cmp` holds on a prefix of `s` and on nothing after it. */
  predicate HoldsOnPrefix(cmp: Cmp, s: seq<nat>) {
    forall j, k :: 0 <= j < k < |s| && cmp(s[k]) ==> cmp(s[j])
  }

  /** What a scan from the left finds: the first element where `cmp` is false. */
  function FirstFalse(cmp: Cmp, s: seq<nat>): int {
    if s == [] then -1 else if !cmp(s[0]) then s[0] else FirstFalse(cmp, s[1..])
  }

  /** What a scan from the right finds: the last element where `cmp` is true. */
  function LastTrue(cmp: Cmp, s: seq<nat>): int {
    if s == [] then -1 else if cmp(s[|s| - 1]) then s[|s| - 1] else LastTrue(cmp, s[..|s| - 1])
  }

  function Head(s: seq<nat>): int { if s == [] then -1 else s[0] }

  function Last(s: seq<nat>): int { if s == [] then -1 else s[|s| - 1] }

  predicate AllTrue(cmp: Cmp, s: seq<nat>) { forall j :: 0 <= j < |s| ==> cmp(s[j]) }

  predicate AllFalse(cmp: Cmp, s: seq<nat>) { forall j :: 0 <= j < |s| ==> !cmp(s[j]) }

  lemma {:induction false} FirstFalseSplit(cmp: Cmp, b: seq<nat>, a: seq<nat>)
    requires AllTrue(cmp, b) && AllFalse(cmp, a)
    ensures FirstFalse(cmp, b + a) == if a == [] then -1 else a[0]
  {
    if b == [] {
      assert b + a == a;
    } else {
      assert (b + a)[1..] == b[1..] + a;
      FirstFalseSplit(cmp, b[1..], a);
    }
  }

  lemma {:induction false} LastTrueSplit(cmp: Cmp, b: seq<nat>, a: seq<nat>)
    requires AllTrue(cmp, b) && AllFalse(cmp, a)
    ensures LastTrue(cmp, b + a) == if b == [] then -1 else b[|b| - 1]
  {
    if a == [] {
      assert b + a == b;
    } else {
      assert (b + a)[..|b + a| - 1] == b + a[..|a| - 1];
      LastTrueSplit(cmp, b, a[..|a| - 1]);
    }
  }

  lemma PrefixDescend(cmp: Cmp, b: seq<nat>, l: seq<nat>, x: nat, r: seq<nat>, a: seq<nat>)
    requires HoldsOnPrefix(cmp, b + (l + [x] + r) + a)
    ensures cmp(x) && AllTrue(cmp, b) ==> AllTrue(cmp, b + l + [x])
    ensures !cmp(x) && AllFalse(cmp, a) ==> AllFalse(cmp, [x] + r + a)
  {
    var s := b + (l + [x] + r) + a;
    assert s[|b| + |l|] == x;
    assert forall j :: 0 <= j < |l| ==> s[|b| + j] == l[j];
    assert forall j :: 0 <= j < |r| ==> s[|b| + |l| + 1 + j] == r[j];
  }
}
