/**
 * The Array.prototype.splice surgery that the drag handler performs on a
 * copied list: `splice(i, 1)` takes the item at `i` out, `splice(j, 0, x)`
 * puts `x` in before position `j`, and a start past the end is clamped to
 * the length. A reorder is the two in succession, with the destination
 * index read against the list after removal.
 */
module JsArray {

  /** `splice(i, 1)`: the list without its item at `i`. */
  function RemoveAt<T>(s: seq<T>, i: nat): (r: seq<T>)
    requires i < |s|
    ensures |r| == |s| - 1
    ensures forall k :: 0 <= k < |r| ==> r[k] == if k < i then s[k] else s[k + 1]
  {
    s[..i] + s[i + 1..]
  }

  /** `splice(i, 1)` loses exactly the item it removes. */
  lemma RemoveAtMultiset<T>(s: seq<T>, i: nat)
    requires i < |s|
    ensures multiset(RemoveAt(s, i)) + multiset{s[i]} == multiset(s)
  {
    assert s == s[..i] + [s[i]] + s[i + 1..];
  }

  /** The position `splice(j, 0, x)` inserts at in a list of length `n`. */
  function Clamp(j: nat, n: nat): (k: nat)
    ensures k <= n && (j <= n ==> k == j) && (n < j ==> k == n)
  {
    if j <= n then j else n
  }

  /** `splice(j, 0, x)`: the list with `x` inserted before position `j`, or appended when `j` is past the end. */
  function InsertAt<T>(s: seq<T>, j: nat, x: T): (r: seq<T>)
    ensures |r| == |s| + 1
    ensures r[Clamp(j, |s|)] == x
    ensures forall k :: 0 <= k < |r| && k != Clamp(j, |s|) ==>
              r[k] == if k < Clamp(j, |s|) then s[k] else s[k - 1]
  {
    var k := Clamp(j, |s|);
    s[..k] + [x] + s[k..]
  }

  /** `splice(j, 0, x)` gains exactly the item it inserts. */
  lemma InsertAtMultiset<T>(s: seq<T>, j: nat, x: T)
    ensures multiset(InsertAt(s, j, x)) == multiset(s) + multiset{x}
  {
    var k := Clamp(j, |s|);
    assert s == s[..k] + s[k..];
  }

  /** The index at which a reordered item lands in a list of length `n`. */
  function Landing(n: nat, j: nat): (d: nat)
    requires 0 < n
    ensures d < n
  {
    Clamp(j, n - 1)
  }

  /** Take the item at `i` out, then put it back in before `j` of the shortened list. */
  function Reorder<T>(s: seq<T>, i: nat, j: nat): (r: seq<T>)
    requires i < |s|
    ensures |r| == |s|
    ensures multiset(r) == multiset(s)
    ensures r[Landing(|s|, j)] == s[i]
  {
    RemoveAtMultiset(s, i);
    InsertAtMultiset(RemoveAt(s, i), j, s[i]);
    InsertAt(RemoveAt(s, i), j, s[i])
  }

  /**
   * Where the item now at `k` was before the item at `i` moved to `d`: the
   * items between the two positions shift by one towards `i`, the rest stay.
   */
  function ReorderSource(i: nat, d: nat, k: nat): nat {
    if k == d then i
    else if i < d && i <= k < d then k + 1
    else if d < i && d < k <= i then k - 1
    else k
  }

  /** Every position of a reordered list holds the old item that ReorderSource names. */
  lemma ReorderAt<T>(s: seq<T>, i: nat, j: nat, k: nat)
    requires i < |s| && k < |s|
    ensures ReorderSource(i, Landing(|s|, j), k) < |s|
    ensures Reorder(s, i, j)[k] == s[ReorderSource(i, Landing(|s|, j), k)]
  {
    var t := RemoveAt(s, i);
    var d := Landing(|s|, j);
    var r := InsertAt(t, j, s[i]);
    assert Clamp(j, |t|) == d;
    if k < d {
      assert r[k] == t[k];
      assert t[k] == if k < i then s[k] else s[k + 1];
    } else if d < k {
      assert r[k] == t[k - 1];
      assert t[k - 1] == if k - 1 < i then s[k - 1] else s[k];
    }
  }

  /** Two different positions of a list draw on two different old positions. */
  lemma ReorderSourceInjective(n: nat, i: nat, d: nat, k1: nat, k2: nat)
    requires i < n && d < n && k1 < n && k2 < n && k1 != k2
    ensures ReorderSource(i, d, k1) != ReorderSource(i, d, k2)
  {
  }

  /** Dropping an item where it was picked up leaves the list as it was. */
  lemma {:induction false} ReorderSameIndex<T>(s: seq<T>, i: nat)
    requires i < |s|
    ensures Reorder(s, i, i) == s
  {
    forall k | 0 <= k < |s| ensures Reorder(s, i, i)[k] == s[k] {
      ReorderAt(s, i, i, k);
    }
  }

  /** Moving the item back from where it landed restores the list. */
  lemma ReorderInverse<T>(s: seq<T>, i: nat, j: nat)
    requires i < |s|
    ensures Reorder(Reorder(s, i, j), Landing(|s|, j), i) == s
  {
    var d := Landing(|s|, j);
    var r := Reorder(s, i, j);
    assert Landing(|s|, i) == i;
    forall k | 0 <= k < |s| ensures Reorder(r, d, i)[k] == s[k] {
      ReorderAt(r, d, i, k);
      var m := ReorderSource(d, i, k);
      assert Reorder(r, d, i)[k] == r[m];
      ReorderAt(s, i, j, m);
      assert ReorderSource(i, d, m) == k;
    }
  }

  /** Moving index 0 to index 2 of a three-item list rotates it left. */
  lemma ReorderRotates<T>(c1: T, c2: T, c3: T)
    ensures Reorder([c1, c2, c3], 0, 2) == [c2, c3, c1]
  {
    assert RemoveAt([c1, c2, c3], 0) == [c2, c3];
  }

  /** The first index at which `s` holds an item with key `key`, or -1: `findIndex` on a key comparison. */
  function FirstIndex<T, K(==)>(s: seq<T>, key: T -> K, k: K): (r: int)
    ensures -1 <= r < |s|
    ensures r >= 0 ==> key(s[r]) == k && forall m :: 0 <= m < r ==> key(s[m]) != k
    ensures r == -1 ==> forall m :: 0 <= m < |s| ==> key(s[m]) != k
  {
    if s == [] then -1
    else if key(s[0]) == k then 0
    else
      var r := FirstIndex(s[1..], key, k);
      if r < 0 then -1 else r + 1
  }
}
