/**
 A callback queue of the event bus is a JavaScript `Map` whose keys are the
 listeners themselves. Only its keys matter, and a `Map` iterates its keys in
 the order they were first inserted, so the queue is modelled as a
 duplicate-free sequence: `Map.set` is `Insert`, `Map.delete` is `Delete`,
 `Map.size` is the length and spreading the map is the sequence itself.
 */
module OrderedSet {

  /** No element occurs twice. */
  predicate NoDup<T(==)>(s: seq<T>) {
    forall i, j :: 0 <= i < j < |s| ==> s[i] != s[j]
  }

  /** `x` occurs somewhere strictly before `y`. */
  ghost predicate Before<T>(s: seq<T>, x: T, y: T) {
    exists i, j :: 0 <= i < j < |s| && s[i] == x && s[j] == y
  }

  /** `Map.set(x, x)`: a key already present keeps its place, a new key goes last. */
  function Insert<T(==,!new)>(s: seq<T>, x: T): (r: seq<T>)
    ensures forall y :: y in r <==> y in s || y == x
    ensures |s| <= |r| && r[..|s|] == s
    ensures |r| == if x in s then |s| else |s| + 1
    ensures r[|r| - 1] == x || x in s
    ensures NoDup(s) ==> NoDup(r)
  {
    if x in s then s else s + [x]
  }

  /** `Map.delete(x)`: drop `x`, keep everything else in its order. */
  function Delete<T(==,!new)>(s: seq<T>, x: T): (r: seq<T>)
    ensures forall y :: y in r <==> y in s && y != x
    ensures x !in s ==> r == s
    ensures NoDup(s) ==> NoDup(r)
  {
    if |s| == 0 then []
    else if s[0] == x then Delete(s[1..], x)
    else
      var rest := Delete(s[1..], x);
      assert NoDup(s) ==> s[0] !in rest by {
        forall k | 0 <= k < |s| - 1
          ensures NoDup(s) ==> s[1..][k] != s[0]
        {
          assert s[1..][k] == s[k + 1];
        }
      }
      [s[0]] + rest
  }

  /** In a duplicate-free sequence, deleting removes exactly the one position holding `x`. */
  lemma {:induction false} DeleteAt<T(!new)>(s: seq<T>, x: T, i: nat)
    requires NoDup(s)
    requires i < |s| && s[i] == x
    ensures Delete(s, x) == s[..i] + s[i + 1..]
    ensures |Delete(s, x)| == |s| - 1
  {
    if i == 0 {
      assert x !in s[1..];
    } else {
      assert s[1..][i - 1] == x;
      DeleteAt(s[1..], x, i - 1);
      assert s[..i] + s[i + 1..] == [s[0]] + (s[1..][..i - 1] + s[1..][i..]);
    }
  }

  /** Inserting never reorders what was already there, and a new element comes after all of it. */
  lemma InsertKeepsOrder<T(!new)>(s: seq<T>, x: T, y: T, z: T)
    ensures Before(s, x, y) ==> Before(Insert(s, z), x, y)
    ensures z !in s && x in s ==> Before(Insert(s, z), x, z)
  {
  }

  /** Deleting `d` keeps the relative order of every other pair, in both directions. */
  lemma DeleteKeepsOrder<T(!new)>(s: seq<T>, d: T, x: T, y: T)
    requires NoDup(s)
    requires x != d && y != d
    ensures Before(Delete(s, d), x, y) <==> Before(s, x, y)
  {
    if d in s {
      var k :| 0 <= k < |s| && s[k] == d;
      DeleteAt(s, d, k);
      if Before(s, x, y) {
        DeleteShiftsDown(s, d, k, x, y);
      }
      if Before(Delete(s, d), x, y) {
        DeleteShiftsUp(s, d, k, x, y);
      }
    }
  }

  /** A pair ordered in `s` stays ordered once position `k` is cut out. */
  lemma DeleteShiftsDown<T(!new)>(s: seq<T>, d: T, k: nat, x: T, y: T)
    requires k < |s| && s[k] == d && x != d && y != d
    requires Before(s, x, y)
    ensures Before(s[..k] + s[k + 1..], x, y)
  {
    var r := s[..k] + s[k + 1..];
    var i, j :| 0 <= i < j < |s| && s[i] == x && s[j] == y;
    assert i != k && j != k;
    var i' := if i < k then i else i - 1;
    var j' := if j < k then j else j - 1;
    assert 0 <= i' < j' < |r|;
    assert r[i'] == x && r[j'] == y;
  }

  /** A pair ordered after cutting out position `k` was ordered in `s`. */
  lemma DeleteShiftsUp<T(!new)>(s: seq<T>, d: T, k: nat, x: T, y: T)
    requires k < |s| && s[k] == d
    requires Before(s[..k] + s[k + 1..], x, y)
    ensures Before(s, x, y)
  {
  }
}
