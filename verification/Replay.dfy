/** Replay detection: a table of (source, sequence number) pairs with pruning. */
module Replay {
  datatype Pair = Pair(src: string, seqNo: int)

  datatype Call = Call(pair: Pair, now: real)

  function Expired(seen: map<Pair, real>, now: real, window: real): set<Pair> {
    set p | p in seen && now - seen[p] > window
  }

  function Pruned(seen: map<Pair, real>, now: real, window: real): map<Pair, real> {
    seen - Expired(seen, now, window)
  }

  predicate IsFresh(seen: map<Pair, real>, c: Call, window: real) {
    c.pair !in Pruned(seen, c.now, window)
  }

  function AfterCheck(seen: map<Pair, real>, c: Call, window: real): map<Pair, real> {
    var kept := Pruned(seen, c.now, window);
    if c.pair in kept then kept else kept[c.pair := c.now]
  }

  class ReplayDetector {
    const window: real
    var seen: map<Pair, real>

    constructor (window: real)
      ensures this.window == window && seen == map[]
    {
      this.window, seen := window, map[];
    }

    method Check(src: string, seqNo: int, now: real) returns (ok: bool)
      modifies this
      ensures ok <==> IsFresh(old(seen), Call(Pair(src, seqNo), now), window)
      ensures seen == AfterCheck(old(seen), Call(Pair(src, seqNo), now), window)
    {
      var key := Pair(src, seqNo);
      var expired := Expired(seen, now, window);
      ghost var gone: set<Pair> := {};
      while expired != {}
        invariant gone + expired == Expired(old(seen), now, window) && seen == old(seen) - gone
        decreases |expired|
      {
        var k :| k in expired;
        seen := seen - {k};
        expired, gone := expired - {k}, gone + {k};
        assert seen == old(seen) - gone;
      }
      assert gone == Expired(old(seen), now, window);
      if key in seen {
        return false;
      }
      seen := seen[key := now];
      return true;
    }
  }

  // ---- Call sequences ----

  function Seen(calls: seq<Call>, window: real): map<Pair, real> {
    if calls == [] then map[] else AfterCheck(Seen(calls[..|calls| - 1], window), calls[|calls| - 1], window)
  }

  // The verdict on the j-th call.
  predicate Accepted(calls: seq<Call>, j: nat, window: real)
    requires j < |calls|
  {
    IsFresh(Seen(calls[..j], window), calls[j], window)
  }

  // No call after the j-th read a clock that expires it.
  predicate Unexpired(calls: seq<Call>, j: nat, window: real)
    requires j < |calls|
  {
    forall i :: j < i < |calls| ==> calls[i].now - calls[j].now <= window
  }

  predicate NonDecreasing(calls: seq<Call>) {
    forall i, j :: 0 <= i <= j < |calls| ==> calls[i].now <= calls[j].now
  }

  lemma AcceptedInPrefix(calls: seq<Call>, n: nat, j: nat, window: real)
    requires j < n <= |calls|
    ensures Accepted(calls[..n], j, window) == Accepted(calls, j, window)
  {
    assert calls[..n][..j] == calls[..j];
  }

  // What the table holds comes from an accepted call that nothing has expired.
  lemma {:induction false} SeenWasAccepted(calls: seq<Call>, p: Pair, window: real) returns (j: nat)
    requires p in Seen(calls, window)
    ensures j < |calls| && Accepted(calls, j, window) && Unexpired(calls, j, window)
    ensures calls[j].pair == p && calls[j].now == Seen(calls, window)[p]
  {
    var n := |calls| - 1;
    var before, c := calls[..n], calls[n];
    var kept := Pruned(Seen(before, window), c.now, window);
    if p in kept {
      j := SeenWasAccepted(before, p, window);
      AcceptedInPrefix(calls, n, j, window);
    } else {
      j := n;
    }
  }

  // And every accepted call that nothing has expired is still in the table.
  lemma {:induction false} AcceptedIsSeen(calls: seq<Call>, j: nat, window: real)
    requires j < |calls| && Accepted(calls, j, window) && Unexpired(calls, j, window)
    ensures calls[j].pair in Seen(calls, window) && Seen(calls, window)[calls[j].pair] == calls[j].now
  {
    var n := |calls| - 1;
    if j < n {
      AcceptedInPrefix(calls, n, j, window);
      assert Unexpired(calls[..n], j, window);
      AcceptedIsSeen(calls[..n], j, window);
    }
  }

  // ---- Main results ----

  // A replay of the j-th call that the last call of `calls` meets.
  predicate IsReplayOf(calls: seq<Call>, j: nat, window: real)
    requires j < |calls|
  {
    j < |calls| - 1 && calls[j].pair == calls[|calls| - 1].pair
    && Accepted(calls, j, window) && Unexpired(calls, j, window)
  }

  // For every clock: the last call is rejected exactly when an accepted call for its pair exists and no call since,
  // this one included, read a clock more than `window` later.
  lemma RejectedIff(calls: seq<Call>, window: real)
    requires calls != []
    ensures !Accepted(calls, |calls| - 1, window) <==> exists j: nat :: j < |calls| && IsReplayOf(calls, j, window)
  {
    var n := |calls| - 1;
    var before, c := calls[..n], calls[n];
    if !Accepted(calls, n, window) {
      var j := SeenWasAccepted(before, c.pair, window);
      AcceptedInPrefix(calls, n, j, window);
      assert IsReplayOf(calls, j, window);
    }
    forall j: nat | j < |calls| && IsReplayOf(calls, j, window) ensures !Accepted(calls, n, window) {
      AcceptedInPrefix(calls, n, j, window);
      assert Unexpired(before, j, window);
      AcceptedIsSeen(before, j, window);
    }
  }

  // With a clock that never goes back, the pruned table decides as the full log of accepted calls would.
  lemma AcceptedIffFresh(calls: seq<Call>, window: real)
    requires calls != [] && NonDecreasing(calls)
    ensures var n := |calls| - 1;
      Accepted(calls, n, window) <==>
      forall j: nat :: j < n && calls[j].pair == calls[n].pair && Accepted(calls, j, window) ==>
        calls[n].now - calls[j].now > window
  {
    RejectedIff(calls, window);
    var n := |calls| - 1;
    forall j: nat | j < n ensures Unexpired(calls, j, window) <==> calls[n].now - calls[j].now <= window {
    }
    assert forall j: nat :: j < n ==> (IsReplayOf(calls, j, window) <==>
      calls[j].pair == calls[n].pair && Accepted(calls, j, window) && calls[n].now - calls[j].now <= window);
  }

  // So two accepted calls for one pair are always more than `window` apart.
  lemma AcceptsAreApart(calls: seq<Call>, i: nat, j: nat, window: real)
    requires NonDecreasing(calls) && j < i < |calls| && calls[i].pair == calls[j].pair
    requires Accepted(calls, i, window) && Accepted(calls, j, window)
    ensures calls[i].now - calls[j].now > window
  {
    var upTo := calls[..i + 1];
    AcceptedInPrefix(calls, i + 1, i, window);
    AcceptedInPrefix(calls, i + 1, j, window);
    AcceptedIffFresh(upTo, window);
  }

  // The order of the clock matters, and the code reads it before it takes the lock: here the same pair is accepted
  // twice within 10 seconds of its own readings, because a call between them read 100.
  lemma ClockOrderMatters(p: Pair, q: Pair)
    requires p != q
    ensures var calls := [Call(p, 0.0), Call(q, 100.0), Call(p, 10.0)];
      Accepted(calls, 0, 30.0) && Accepted(calls, 2, 30.0)
  {
    var calls := [Call(p, 0.0), Call(q, 100.0), Call(p, 10.0)];
    assert calls[..0] == [] && calls[..1][..0] == [] && calls[..2][..1] == calls[..1];
    assert Seen(calls[..0], 30.0) == map[];
    assert Seen(calls[..1], 30.0) == map[p := 0.0];
    assert p !in Seen(calls[..2], 30.0);
  }
}
