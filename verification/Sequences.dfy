/** Facts about concatenation that the solver is better told than left to find. */
module Sequences {
  lemma Associative<T>(x: seq<T>, y: seq<T>, z: seq<T>)
    ensures x + (y + z) == (x + y) + z
  {
  }

  lemma ConsAppend<T>(xs: seq<T>, ys: seq<T>)
    requires xs != []
    ensures (xs + ys)[0] == xs[0] && (xs + ys)[1..] == xs[1..] + ys
  {
  }

  /** Equal concatenations of parts of equal length have equal parts. */
  lemma SameHead<T>(a: seq<T>, x: seq<T>, b: seq<T>, y: seq<T>)
    requires |a| == |b| && a + x == b + y
    ensures a == b && x == y
  {
    assert a == (a + x)[..|a|] && b == (b + y)[..|a|];
    assert x == (a + x)[|a|..] && y == (b + y)[|a|..];
  }

  lemma TakeNext<T>(s: seq<T>, k: nat)
    requires k < |s|
    ensures s[..k + 1] == s[..k] + [s[k]]
  {
  }

  /** `chosen` has the wanted elements of `all`, in order and as often as they occur there. */
  ghost predicate Picks<T(!new)>(all: seq<T>, wanted: T -> bool, chosen: seq<T>) {
    exists at: seq<nat> :: PicksAt(all, wanted, chosen, at)
  }

  /** `at` has the places of the wanted elements of `all`, in order; `chosen` is what stands there. */
  ghost predicate PicksAt<T>(all: seq<T>, wanted: T -> bool, chosen: seq<T>, at: seq<nat>) {
    Places(all, chosen, at) && Rising(at) && forall i :: 0 <= i < |all| ==> (wanted(all[i]) <==> i in at)
  }

  ghost predicate Places<T>(all: seq<T>, chosen: seq<T>, at: seq<nat>) {
    |at| == |chosen| && forall k :: 0 <= k < |at| ==> at[k] < |all| && chosen[k] == all[at[k]]
  }

  predicate Rising(at: seq<nat>) {
    forall j, k :: 0 <= j < k < |at| ==> at[j] < at[k]
  }

  lemma PicksNone<T(!new)>(wanted: T -> bool)
    ensures Picks([], wanted, [])
  {
    assert PicksAt([], wanted, [], []);
  }

  lemma PicksNext<T(!new)>(all: seq<T>, wanted: T -> bool, chosen: seq<T>, x: T)
    requires Picks(all, wanted, chosen)
    ensures Picks(all + [x], wanted, if wanted(x) then chosen + [x] else chosen)
  {
    var at: seq<nat> :| PicksAt(all, wanted, chosen, at);
    hide Places, Rising;
    PlacesNext(all, chosen, at, x);
    var next := if wanted(x) then at + [|all|] else at;
    forall i | 0 <= i < |all + [x]| ensures wanted((all + [x])[i]) <==> i in next {
      if i == |all| { PlacesBelow(all, chosen, at); }
    }
    assert PicksAt(all + [x], wanted, if wanted(x) then chosen + [x] else chosen, next);
  }

  lemma PlacesBelow<T>(all: seq<T>, chosen: seq<T>, at: seq<nat>)
    requires Places(all, chosen, at)
    ensures |all| !in at
  {
  }

  lemma PlacesNext<T>(all: seq<T>, chosen: seq<T>, at: seq<nat>, x: T)
    requires Places(all, chosen, at) && Rising(at)
    ensures Places(all + [x], chosen, at)
    ensures Places(all + [x], chosen + [x], at + [|all|]) && Rising(at + [|all|])
  {
  }

  lemma PicksJoin<T(!new)>(a: seq<T>, b: seq<T>, wanted: T -> bool, x: seq<T>, y: seq<T>)
    requires Picks(a, wanted, x) && Picks(b, wanted, y)
    ensures Picks(a + b, wanted, x + y)
  {
    var at: seq<nat> :| PicksAt(a, wanted, x, at);
    var there: seq<nat> :| PicksAt(b, wanted, y, there);
    var moved := Moved(there, |a|);
    PlacesJoin(a, b, x, y, at, there);
    hide Places, Rising;
    forall i | 0 <= i < |a + b| ensures wanted((a + b)[i]) <==> i in at + moved {
      if i < |a| { MovedMembers(there, |a|, i); } else { PlacesInside(a, x, at, i); MovedMembers(there, |a|, i); }
    }
    assert PicksAt(a + b, wanted, x + y, at + moved);
  }

  function Moved(at: seq<nat>, n: nat): (r: seq<nat>)
    ensures |r| == |at| && forall k :: 0 <= k < |r| ==> r[k] == at[k] + n
  {
    seq(|at|, k requires 0 <= k < |at| => at[k] + n)
  }

  lemma MovedMembers(at: seq<nat>, n: nat, i: nat)
    ensures i in Moved(at, n) <==> i >= n && i - n in at
  {
    if i >= n && i - n in at {
      var k :| 0 <= k < |at| && at[k] == i - n;
      assert Moved(at, n)[k] == i;
    }
  }

  lemma PlacesInside<T>(all: seq<T>, chosen: seq<T>, at: seq<nat>, i: nat)
    requires Places(all, chosen, at) && i >= |all|
    ensures i !in at
  {
  }

  lemma PlacesJoin<T>(a: seq<T>, b: seq<T>, x: seq<T>, y: seq<T>, at: seq<nat>, there: seq<nat>)
    requires Places(a, x, at) && Places(b, y, there) && Rising(at) && Rising(there)
    ensures Places(a + b, x + y, at + Moved(there, |a|)) && Rising(at + Moved(there, |a|))
  {
  }

  lemma PicksHas<T(!new)>(all: seq<T>, wanted: T -> bool, chosen: seq<T>, x: T)
    requires Picks(all, wanted, chosen) && x in all
    ensures wanted(x) <==> x in chosen
  {
    var at: seq<nat> :| PicksAt(all, wanted, chosen, at);
    if wanted(x) {
      var i :| 0 <= i < |all| && all[i] == x;
      var k :| 0 <= k < |at| && at[k] == i;
    }
    if x in chosen {
      var k :| 0 <= k < |chosen| && chosen[k] == x;
      assert at[k] in at;
    }
  }

  lemma {:induction false} RisingUnique(a: seq<nat>, b: seq<nat>)
    requires Rising(a) && Rising(b) && forall i :: i in a <==> i in b
    ensures a == b
    decreases |a| + |b|
  {
    assert a != [] ==> a[0] in a;
    assert b != [] ==> b[0] in b;
    if a != [] && b != [] {
      var j :| 0 <= j < |b| && b[j] == a[0];
      var k :| 0 <= k < |a| && a[k] == b[0];
      assert a[0] == b[0];
      forall i ensures i in a[1..] <==> i in b[1..] {
        RisingRest(a, i);
        RisingRest(b, i);
      }
      RisingUnique(a[1..], b[1..]);
      assert a == [a[0]] + a[1..] && b == [b[0]] + b[1..];
    }
  }

  lemma RisingRest(a: seq<nat>, i: nat)
    requires a != [] && Rising(a)
    ensures i in a[1..] <==> i in a && i != a[0]
  {
    if i in a && i != a[0] {
      var k :| 0 <= k < |a| && a[k] == i;
      assert a[1..][k - 1] == i;
    }
  }

  /** A choice is unique. */
  lemma PicksAlike<T(!new)>(all: seq<T>, wanted: T -> bool, alike: T -> bool, x: seq<T>, y: seq<T>)
    requires Picks(all, wanted, x) && Picks(all, alike, y) && forall i :: 0 <= i < |all| ==> wanted(all[i]) == alike(all[i])
    ensures x == y
  {
    var at: seq<nat> :| PicksAt(all, wanted, x, at);
    var there: seq<nat> :| PicksAt(all, alike, y, there);
    forall i ensures i in at <==> i in there {
      if i >= |all| {
        PlacesInside(all, x, at, i);
        PlacesInside(all, y, there, i);
      }
    }
    RisingUnique(at, there);
  }
}
