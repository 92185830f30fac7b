/** Pruning a game's list of observers: Server/Game.cpp erases by iterators it has stored before. */
module Observers {
  import opened Bytes
  import opened Wire

  function Without<T>(v: seq<T>, d: nat): seq<T>
    requires d < |v|
  {
    v[..d] + v[d + 1..]
  }

  /** Erasing by positions noted before the first erasure. None: a position has come to lie at or past the end. */
  function EraseForward<T>(v: seq<T>, at: seq<nat>): Option<seq<T>>
    decreases |at|
  {
    if at == [] then Some(v)
    else if at[0] >= |v| then None
    else EraseForward(Without(v, at[0]), at[1..])
  }

  /** The positions of the expired among the first n, in order. */
  function ExpiredAt<T(==)>(v: seq<T>, expired: set<T>, n: nat): (at: seq<nat>)
    requires n <= |v|
  {
    if n == 0 then [] else if v[n - 1] in expired then ExpiredAt(v, expired, n - 1) + [n - 1]
    else ExpiredAt(v, expired, n - 1)
  }

  /** The others among the first n. */
  function Live<T(==)>(v: seq<T>, expired: set<T>, n: nat): (r: seq<T>)
    requires n <= |v|
  {
    if n == 0 then [] else if v[n - 1] in expired then Live(v, expired, n - 1)
    else Live(v, expired, n - 1) + [v[n - 1]]
  }

  lemma {:induction false} LiveAreLive<T>(v: seq<T>, expired: set<T>, n: nat, x: T)
    requires n <= |v| && x in Live(v, expired, n)
    ensures x !in expired && x in v[..n]
  {
    if v[n - 1] in expired || x != v[n - 1] {
      LiveAreLive(v, expired, n - 1, x);
    }
    assert v[..n] == v[..n - 1] + [v[n - 1]];
  }

  predicate Ascending<T(==)>(at: seq<nat>, v: seq<T>, expired: set<T>, n: nat)
    requires n <= |v|
  {
    && (forall i :: 0 <= i < |at| ==> at[i] < n && v[at[i]] in expired)
    && (forall i, j :: 0 <= i < j < |at| ==> at[i] < at[j])
  }

  lemma AscendOne<T>(at: seq<nat>, v: seq<T>, expired: set<T>, n: nat)
    requires 0 < n <= |v| && Ascending(at, v, expired, n - 1)
    ensures Ascending(at, v, expired, n)
    ensures v[n - 1] in expired ==> Ascending(at + [n - 1], v, expired, n)
  {}

  lemma {:induction false} ExpiredAscend<T>(v: seq<T>, expired: set<T>, n: nat)
    requires n <= |v|
    ensures Ascending(ExpiredAt(v, expired, n), v, expired, n)
  {
    if n > 0 {
      ExpiredAscend(v, expired, n - 1);
      AscendOne(ExpiredAt(v, expired, n - 1), v, expired, n);
    }
  }

  /** What lies before every erased position stays. */
  lemma {:induction false} EraseBehind<T>(v: seq<T>, at: seq<nat>, k: nat)
    requires k < |v| && forall i :: 0 <= i < |at| ==> k < at[i]
    ensures var r := EraseForward(v, at); r.Some? ==> k < |r.value| && r.value[k] == v[k]
    decreases |at|
  {
    if at != [] && at[0] < |v| {
      EraseBehind(Without(v, at[0]), at[1..], k);
    }
  }

  lemma {:induction false} NoneExpired<T>(v: seq<T>, expired: set<T>, n: nat)
    requires n <= |v| && ExpiredAt(v, expired, n) == []
    ensures Live(v, expired, n) == v[..n]
  {
    if n > 0 {
      NoneExpired(v, expired, n - 1);
    }
  }

  lemma LastOfOne(before: seq<nat>, last: nat, d: nat)
    requires before + [last] == [d]
    ensures before == [] && last == d
  {
    assert |before + [last]| == 1;
    assert (before + [last])[0] == [d][0];
  }

  lemma {:induction false} OneExpired<T>(v: seq<T>, expired: set<T>, n: nat, d: nat)
    requires n <= |v| && ExpiredAt(v, expired, n) == [d]
    ensures d < n && Live(v, expired, n) == v[..d] + v[d + 1..n]
  {
    if n == 0 {
      assert false;
    } else if v[n - 1] in expired {
      LastOfOne(ExpiredAt(v, expired, n - 1), n - 1, d);
      NoneExpired(v, expired, n - 1);
      assert v[n..n] == [];
    } else {
      OneExpired(v, expired, n - 1, d);
      assert v[d + 1..n] == v[d + 1..n - 1] + [v[n - 1]];
    }
  }

  lemma WithoutFrom<T>(v: seq<T>, d: nat, x: T)
    requires d < |v| && x in Without(v, d)
    ensures x in v
  {
    var i :| 0 <= i < |Without(v, d)| && Without(v, d)[i] == x;
    assert v[if i < d then i else i + 1] == x;
  }

  lemma {:induction false} ErasedFrom<T>(v: seq<T>, at: seq<nat>)
    ensures var r := EraseForward(v, at); r.Some? ==> forall x :: x in r.value ==> x in v
    decreases |at|
  {
    if at != [] && at[0] < |v| {
      var w := Without(v, at[0]);
      ErasedFrom(w, at[1..]);
      var r := EraseForward(w, at[1..]);
      assert r == EraseForward(v, at);
      if r.Some? {
        forall x | x in r.value ensures x in v {
          WithoutFrom(v, at[0], x);
        }
      }
    }
  }

  /** Of two expired observers the second is never erased, if the erasing comes to an end at all. */
  lemma SecondStays<T>(v: seq<T>, at: seq<nat>)
    requires |at| >= 2 && at[0] < at[1] < |v|
    requires forall i :: 1 <= i < |at| ==> at[1] <= at[i]
    ensures var r := EraseForward(v, at); r.Some? ==> v[at[1]] in r.value
  {
    var once := Without(v, at[0]);
    assert once[at[1] - 1] == v[at[1]];
    assert EraseForward(v, at) == EraseForward(once, at[1..]);
    assert forall i :: 0 <= i < |at[1..]| ==> at[1] <= at[1..][i];
    EraseBehind(once, at[1..], at[1] - 1);
  }

  /** The observers are pruned as they should be if and only if at most one of them has expired. */
  lemma EraseExactly<T>(v: seq<T>, expired: set<T>)
    ensures EraseForward(v, ExpiredAt(v, expired, |v|)) == Some(Live(v, expired, |v|)) <==>
            |ExpiredAt(v, expired, |v|)| <= 1
  {
    var at := ExpiredAt(v, expired, |v|);
    ExpiredAscend(v, expired, |v|);
    if |at| == 0 {
      NoneExpired(v, expired, |v|);
      assert at == [] && v[..|v|] == v;
    } else if |at| == 1 {
      var d := at[0];
      assert at == [d] && at[1..] == [];
      OneExpired(v, expired, |v|, d);
      assert v[d + 1..|v|] == v[d + 1..];
      assert EraseForward(v, [d]) == EraseForward(Without(v, d), [d][1..]);
      assert EraseForward(Without(v, d), []) == Some(Without(v, d));
    } else {
      assert Ascending(at, v, expired, |v|);
      SecondStays(v, at);
      if v[at[1]] in Live(v, expired, |v|) {
        LiveAreLive(v, expired, |v|, v[at[1]]);
      }
    }
  }

  /** Two expired observers: the second stays and the live one behind it is lost. */
  lemma EraseLosesLive<T>(a: T, b: T, c: T)
    requires a != c && b != c
    ensures ExpiredAt([a, b, c], {a, b}, 3) == [0, 1] && Live([a, b, c], {a, b}, 3) == [c]
    ensures EraseForward([a, b, c], [0, 1]) == Some([b])
  {
    var v, e := [a, b, c], {a, b};
    assert ExpiredAt(v, e, 1) == [0] && ExpiredAt(v, e, 2) == [0, 1];
    assert Live(v, e, 1) == [] && Live(v, e, 2) == [];
    assert Without(v, 0) == [b, c] && Without([b, c], 1) == [b];
    assert EraseForward([b, c], [1]) == EraseForward([b], []);
  }

  // ---------- whom the erasing drops ----------

  predicate Increasing(at: seq<nat>) {
    forall i, j :: 0 <= i < j < |at| ==> at[i] < at[j]
  }

  lemma IncreasingRest(at: seq<nat>)
    requires at != [] && Increasing(at)
    ensures Increasing(at[1..]) && forall i :: 0 <= i < |at[1..]| ==> at[0] < at[1..][i]
  {}

  /** The i-th position erased is that of what stood i places further on. */
  predicate Hit(at: seq<nat>, k: nat) {
    exists i :: 0 <= i < |at| && at[i] + i == k
  }

  lemma HitRest(at: seq<nat>, k: nat)
    requires at != [] && Increasing(at)
    ensures k > at[0] ==> (Hit(at, k) <==> Hit(at[1..], k - 1))
    ensures k < at[0] ==> !Hit(at, k) && !Hit(at[1..], k)
    ensures Hit(at, at[0])
  {
    assert at[0] + 0 == at[0];
    IncreasingRest(at);
    if k > at[0] {
      if i :| 0 <= i < |at| && at[i] + i == k {
        assert at[1..][i - 1] + (i - 1) == k - 1;
      }
      if i :| 0 <= i < |at[1..]| && at[1..][i] + i == k - 1 {
        assert at[i + 1] + (i + 1) == k;
      }
    }
  }

  lemma WithoutDistinct<T>(v: seq<T>, d: nat)
    requires Distinct(v) && d < |v|
    ensures Distinct(Without(v, d)) && v[d] !in Without(v, d)
    ensures forall x :: x in Without(v, d) <==> x in v && x != v[d]
  {
    var w := Without(v, d);
    forall x | x in v && x != v[d] ensures x in w {
      var i :| 0 <= i < |v| && v[i] == x;
      assert w[if i < d then i else i - 1] == x;
    }
  }

  /** Exactly: an observer is dropped if and only if its place in the list is that of the i-th expired one plus i. */
  lemma {:induction false} DroppedExactly<T>(v: seq<T>, at: seq<nat>, k: nat)
    requires Distinct(v) && Increasing(at) && k < |v| && EraseForward(v, at).Some?
    ensures v[k] in EraseForward(v, at).value <==> !Hit(at, k)
    ensures Distinct(EraseForward(v, at).value)
    ensures forall x :: x in EraseForward(v, at).value ==> x in v
    decreases |at|
  {
    if at != [] {
      var d, w := at[0], Without(v, at[0]);
      WithoutDistinct(v, d);
      IncreasingRest(at);
      HitRest(at, k);
      if k == d {
        ErasedFrom(w, at[1..]);
        if w != [] {
          DroppedExactly(w, at[1..], 0);
        }
      } else {
        var j := if k < d then k else k - 1;
        assert w[j] == v[k];
        DroppedExactly(w, at[1..], j);
      }
    }
  }

  lemma ExpiredIncrease<T>(v: seq<T>, expired: set<T>)
    ensures Increasing(ExpiredAt(v, expired, |v|))
  {
    ExpiredAscend(v, expired, |v|);
  }

  /** The others are the members that have not expired, each once. */
  lemma {:induction false} LiveDistinct<T>(v: seq<T>, expired: set<T>, n: nat)
    requires Distinct(v) && n <= |v|
    ensures Distinct(Live(v, expired, n))
    ensures forall x <- Live(v, expired, n) :: x in v[..n] && x !in expired
    ensures forall x <- v[..n] :: x !in expired ==> x in Live(v, expired, n)
  {
    if n > 0 {
      LiveDistinct(v, expired, n - 1);
      assert v[..n] == v[..n - 1] + [v[n - 1]];
    }
  }
}
