/** The order of the session listing: most recently updated first, by the time
    `new Date(updated_at).getTime()` reads from each session, with sessions of equal
    time kept in the order they were collected (`Array.prototype.sort` is stable). */
module Sorting {
  import opened Storage
  import opened Sessions

  /** The time a session sorts by. */
  function Key(env: Env, s: Session): int {
    env.timeKey(s.updatedAt)
  }

  /** Every session is at least as recent as the ones after it. */
  predicate Descending(env: Env, xs: seq<Session>) {
    forall i, j :: 0 <= i < j < |xs| ==> Key(env, xs[i]) >= Key(env, xs[j])
  }

  /** x placed into ys after every session at least as recent as x: the place a
      stable sort gives the last of the sessions seen so far. */
  function InsertBack(env: Env, ys: seq<Session>, x: Session): (r: seq<Session>)
    ensures |r| == |ys| + 1
    decreases |ys|
  {
    if ys == [] || Key(env, ys[|ys| - 1]) >= Key(env, x) then ys + [x]
    else InsertBack(env, ys[..|ys| - 1], x) + [ys[|ys| - 1]]
  }

  /** The stable descending sort: the sessions taken in order, each put in place. */
  function SortDesc(env: Env, xs: seq<Session>): (r: seq<Session>)
    ensures |r| == |xs|
    decreases |xs|
  {
    if xs == [] then [] else InsertBack(env, SortDesc(env, xs[..|xs| - 1]), xs[|xs| - 1])
  }

  lemma {:induction false} InsertBackPermutes(env: Env, ys: seq<Session>, x: Session)
    ensures multiset(InsertBack(env, ys, x)) == multiset(ys) + multiset{x}
    decreases |ys|
  {
    if ys != [] && Key(env, ys[|ys| - 1]) < Key(env, x) {
      var init, last := ys[..|ys| - 1], ys[|ys| - 1];
      assert ys == init + [last];
      InsertBackPermutes(env, init, x);
    }
  }

  /** Sorting only reorders: the same sessions, each as often. */
  lemma {:induction false} SortPermutes(env: Env, xs: seq<Session>)
    ensures multiset(SortDesc(env, xs)) == multiset(xs)
    decreases |xs|
  {
    if xs != [] {
      var init, last := xs[..|xs| - 1], xs[|xs| - 1];
      assert xs == init + [last];
      SortPermutes(env, init);
      InsertBackPermutes(env, SortDesc(env, init), last);
    }
  }

  /** What InsertBack puts last is either x or the last of ys. */
  lemma InsertBackLast(env: Env, ys: seq<Session>, x: Session)
    ensures var r := InsertBack(env, ys, x);
      r[|r| - 1] == x || (ys != [] && r[|r| - 1] == ys[|ys| - 1] && Key(env, ys[|ys| - 1]) < Key(env, x))
  {
  }

  lemma {:induction false} InsertBackSorted(env: Env, ys: seq<Session>, x: Session)
    requires Descending(env, ys)
    ensures Descending(env, InsertBack(env, ys, x))
    decreases |ys|
  {
    if ys != [] && Key(env, ys[|ys| - 1]) < Key(env, x) {
      var init, last := ys[..|ys| - 1], ys[|ys| - 1];
      assert forall k :: 0 <= k < |init| ==> init[k] == ys[k];
      assert Descending(env, init);
      assert forall k :: 0 <= k < |init| ==> Key(env, init[k]) >= Key(env, last);
      InsertBackSorted(env, init, x);
      InsertBackPermutes(env, init, x);
      var front := InsertBack(env, init, x);
      AllAbove(env, front, init, x, last);
      DescendingSnoc(env, front, last);
    }
  }

  /** What InsertBack put together from init and x is as recent as last when all of
      them are. */
  lemma AllAbove(env: Env, front: seq<Session>, init: seq<Session>, x: Session, last: Session)
    requires multiset(front) == multiset(init) + multiset{x}
    requires forall k :: 0 <= k < |init| ==> Key(env, init[k]) >= Key(env, last)
    requires Key(env, x) >= Key(env, last)
    ensures forall k :: 0 <= k < |front| ==> Key(env, front[k]) >= Key(env, last)
  {
    forall k | 0 <= k < |front|
      ensures Key(env, front[k]) >= Key(env, last)
    {
      assert front[k] in multiset(front);
      if front[k] != x {
        assert front[k] in multiset(init);
        var m :| 0 <= m < |init| && init[m] == front[k];
      }
    }
  }

  lemma DescendingSnoc(env: Env, front: seq<Session>, last: Session)
    requires Descending(env, front)
    requires forall k :: 0 <= k < |front| ==> Key(env, front[k]) >= Key(env, last)
    ensures Descending(env, front + [last])
  {
    var r := front + [last];
    assert forall k :: 0 <= k < |front| ==> r[k] == front[k];
  }

  /** The sorted listing runs from the most recent session to the oldest. */
  lemma {:induction false} SortSorted(env: Env, xs: seq<Session>)
    ensures Descending(env, SortDesc(env, xs))
    decreases |xs|
  {
    if xs != [] {
      SortSorted(env, xs[..|xs| - 1]);
      InsertBackSorted(env, SortDesc(env, xs[..|xs| - 1]), xs[|xs| - 1]);
    }
  }

  /** The sessions of xs whose time is t, in the order of xs. */
  function WithKey(env: Env, xs: seq<Session>, t: int): (r: seq<Session>)
    ensures |r| <= |xs|
    ensures forall k :: 0 <= k < |r| ==> Key(env, r[k]) == t
    decreases |xs|
  {
    if xs == [] then []
    else WithKey(env, xs[..|xs| - 1], t) + (if Key(env, xs[|xs| - 1]) == t then [xs[|xs| - 1]] else [])
  }

  lemma WithKeySnoc(env: Env, xs: seq<Session>, x: Session, t: int)
    ensures WithKey(env, xs + [x], t) == WithKey(env, xs, t) + (if Key(env, x) == t then [x] else [])
  {
    assert (xs + [x])[..|xs|] == xs;
  }

  /** Placing x changes the sessions of any one time only by adding x after them: x
      passes only sessions less recent than itself. */
  lemma {:induction false} InsertBackWithKey(env: Env, ys: seq<Session>, x: Session, t: int)
    ensures WithKey(env, InsertBack(env, ys, x), t) == WithKey(env, ys, t) + (if Key(env, x) == t then [x] else [])
    decreases |ys|
  {
    if ys == [] || Key(env, ys[|ys| - 1]) >= Key(env, x) {
      WithKeySnoc(env, ys, x, t);
    } else {
      var init, last := ys[..|ys| - 1], ys[|ys| - 1];
      assert ys == init + [last];
      InsertBackWithKey(env, init, x, t);
      WithKeySnoc(env, InsertBack(env, init, x), last, t);
      WithKeySnoc(env, init, last, t);
    }
  }

  /** The sort is stable: for every time, the sessions of that time come out in the
      order in which they were collected. */
  lemma {:induction false} SortStable(env: Env, xs: seq<Session>, t: int)
    ensures WithKey(env, SortDesc(env, xs), t) == WithKey(env, xs, t)
    decreases |xs|
  {
    if xs != [] {
      var init, last := xs[..|xs| - 1], xs[|xs| - 1];
      SortStable(env, init, t);
      InsertBackWithKey(env, SortDesc(env, init), last, t);
    }
  }

  /** Sessions already in order stay where they are. */
  lemma {:induction false} SortKeepsOrdered(env: Env, xs: seq<Session>)
    requires Descending(env, xs)
    ensures SortDesc(env, xs) == xs
    decreases |xs|
  {
    if xs != [] {
      var init := xs[..|xs| - 1];
      assert Descending(env, init) by {
        assert forall i :: 0 <= i < |init| ==> init[i] == xs[i];
      }
      SortKeepsOrdered(env, init);
      var last := xs[|xs| - 1];
      assert SortDesc(env, xs) == InsertBack(env, init, last);
      if init != [] {
        assert Key(env, init[|init| - 1]) >= Key(env, last);
      }
      assert InsertBack(env, init, last) == init + [last];
      assert xs == init + [last];
    }
  }

  /** `sessions.sort((a, b) => time(b) - time(a))` on an array: each session in turn
      moves left past the less recent ones before it. */
  method SortSessions(env: Env, a: array<Session>)
    modifies a
    ensures a[..] == SortDesc(env, old(a[..]))
  {
    ghost var input := a[..];
    var i := 0;
    while i < a.Length
      invariant 0 <= i <= a.Length
      invariant a[..i] == SortDesc(env, input[..i])
      invariant a[i..] == input[i..]
    {
      assert a[i] == input[i];
      MoveBack(env, a, i);
      SortDescSnoc(env, input, i);
      i := i + 1;
    }
    assert input[..i] == input;
  }

  /** One pass of the sort: a[i] moves left past the less recent sessions before it. */
  method MoveBack(env: Env, a: array<Session>, i: nat)
    requires i < a.Length
    modifies a
    ensures a[..i + 1] == InsertBack(env, old(a[..i]), old(a[i]))
    ensures a[i + 1..] == old(a[i + 1..])
  {
    ghost var sorted, x := a[..i], a[i];
    var j := ShiftBack(env, a, i);
    InsertBackAt(env, sorted, j, x);
    Placed(a[..i + 1], sorted, j, x);
    assert a[i + 1..] == old(a[i + 1..]);
  }

  /** The swaps of one pass: a[i] goes to j, past the less recent sessions before it,
      which each move one place right; the rest of the array stays. */
  method ShiftBack(env: Env, a: array<Session>, i: nat) returns (j: nat)
    requires i < a.Length
    modifies a
    ensures j <= i && a[j] == old(a[i])
    ensures j == 0 || Key(env, old(a[j - 1])) >= Key(env, old(a[i]))
    ensures forall k :: j <= k < i ==> Key(env, old(a[k])) < Key(env, old(a[i]))
    ensures forall k :: 0 <= k < j ==> a[k] == old(a[k])
    ensures forall k :: j < k <= i ==> a[k] == old(a[k - 1])
    ensures forall k :: i < k < a.Length ==> a[k] == old(a[k])
  {
    var x := a[i];
    j := i;
    while j > 0 && Key(env, a[j - 1]) < Key(env, x)
      invariant 0 <= j <= i
      invariant a[j] == x
      invariant forall k :: 0 <= k < j ==> a[k] == old(a[k])
      invariant forall k :: j < k <= i ==> a[k] == old(a[k - 1])
      invariant forall k :: i < k < a.Length ==> a[k] == old(a[k])
      invariant forall k :: j <= k < i ==> Key(env, old(a[k])) < Key(env, x)
    {
      a[j - 1], a[j] := a[j], a[j - 1];
      j := j - 1;
    }
  }

  /** Where the pass stops: after the sessions at least as recent as x, before those
      less recent. */
  lemma {:induction false} InsertBackAt(env: Env, sorted: seq<Session>, j: nat, x: Session)
    requires j <= |sorted| && (j == 0 || Key(env, sorted[j - 1]) >= Key(env, x))
    requires forall k :: j <= k < |sorted| ==> Key(env, sorted[k]) < Key(env, x)
    ensures InsertBack(env, sorted, x) == sorted[..j] + [x] + sorted[j..]
    decreases |sorted|
  {
    if j < |sorted| {
      var init, last := sorted[..|sorted| - 1], sorted[|sorted| - 1];
      assert Key(env, last) < Key(env, x);
      assert InsertBack(env, sorted, x) == InsertBack(env, init, x) + [last];
      assert forall k :: j <= k < |init| ==> init[k] == sorted[k];
      InsertBackAt(env, init, j, x);
      assert init[..j] == sorted[..j];
      assert init[j..] + [last] == sorted[j..];
      assert (sorted[..j] + [x] + init[j..]) + [last] == sorted[..j] + [x] + (init[j..] + [last]);
    } else {
      assert sorted[..j] == sorted && sorted[j..] == [];
    }
  }

  /** b is sorted with x put in at j. */
  lemma Placed(b: seq<Session>, sorted: seq<Session>, j: nat, x: Session)
    requires |b| == |sorted| + 1 && j < |b| && b[j] == x
    requires forall k :: 0 <= k < j ==> b[k] == sorted[k]
    requires forall k :: j < k < |b| ==> b[k] == sorted[k - 1]
    ensures b == sorted[..j] + [x] + sorted[j..]
  {
    var placed := sorted[..j] + [x] + sorted[j..];
    forall k | 0 <= k < |b|
      ensures b[k] == placed[k]
    {
      if k < j {
        assert placed[k] == sorted[..j][k];
      } else if k > j {
        assert placed[k] == sorted[j..][k - j - 1];
      }
    }
  }

  lemma SortDescSnoc(env: Env, xs: seq<Session>, n: nat)
    requires n < |xs|
    ensures SortDesc(env, xs[..n + 1]) == InsertBack(env, SortDesc(env, xs[..n]), xs[n])
  {
    assert xs[..n + 1][..n] == xs[..n];
  }

}
