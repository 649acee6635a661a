/** The per-peer sliding-window limiter, over runs with non-decreasing clock readings. */
module RateLimiting {
  import opened Text
  import opened Records

  datatype Limits = Limits(maxRequests: nat, window: Time)

  ghost predicate ValidLimits(l: Limits) {
    l.maxRequests > 0 && l.window > 0
  }

  /** Every peer's remembered request times; a peer not yet seen has none. */
  type Requests = map<Text, seq<Time>>

  function Of(rs: Requests, peer: Text): seq<Time> {
    if peer in rs then rs[peer] else []
  }

  /** `while events and events[0] <= boundary: events.popleft()` */
  function Trim(events: seq<Time>, boundary: Time): seq<Time> {
    if events != [] && events[0] <= boundary then Trim(events[1..], boundary) else events
  }

  function Allow(l: Limits, rs: Requests, peer: Text, now: Time): (Requests, bool) {
    var events := Trim(Of(rs, peer), now - l.window);
    if |events| >= l.maxRequests then (rs[peer := events], false) else (rs[peer := events + [now]], true)
  }

  class FederationRequestRateLimiter {
    const limits: Limits
    var requests: Requests

    constructor (limits: Limits)
      ensures this.limits == limits && requests == map[]
    {
      this.limits, requests := limits, map[];
    }

    method AllowRequest(peer: Text, now: Time) returns (allowed: bool)
      modifies this
      ensures (requests, allowed) == Allow(limits, old(requests), peer, now)
    {
      var boundary := now - limits.window;
      var events := if peer in requests then requests[peer] else [];
      while events != [] && events[0] <= boundary
        invariant Trim(events, boundary) == Trim(Of(old(requests), peer), boundary)
        decreases |events|
      {
        events := events[1..];
      }
      allowed := |events| < limits.maxRequests;
      if allowed {
        events := events + [now];
      }
      requests := requests[peer := events];
    }
  }

  // ---------- runs ----------

  datatype Call = Call(peer: Text, now: Time)

  ghost predicate Monotone(calls: seq<Call>) {
    forall i, j | 0 <= i < j < |calls| :: calls[i].now <= calls[j].now
  }

  ghost predicate IsAllow(f: (Limits, Requests, Text, Time) -> (Requests, bool)) {
    forall l, rs, p, t {:trigger Allow(l, rs, p, t)} :: f(l, rs, p, t) == Allow(l, rs, p, t)
  }

  type AllowFunction = f: (Limits, Requests, Text, Time) -> (Requests, bool) | IsAllow(f) witness Allow

  /** `Allow`, by a name that proofs about whole runs do not unfold. */
  const Admit: AllowFunction

  function After(l: Limits, calls: seq<Call>, n: nat): Requests
    requires n <= |calls|
  {
    if n == 0 then map[] else Admit(l, After(l, calls, n - 1), calls[n - 1].peer, calls[n - 1].now).0
  }

  predicate Allowed(l: Limits, calls: seq<Call>, i: nat)
    requires i < |calls|
  {
    Admit(l, After(l, calls, i), calls[i].peer, calls[i].now).1
  }

  /** All allowed times of the peer among the first `n` calls, in order. */
  function History(l: Limits, calls: seq<Call>, n: nat, peer: Text): seq<Time>
    requires n <= |calls|
  {
    if n == 0 then []
    else if calls[n - 1].peer == peer && Allowed(l, calls, n - 1) then History(l, calls, n - 1, peer) + [calls[n - 1].now]
    else History(l, calls, n - 1, peer)
  }

  ghost predicate Ascends(ts: seq<Time>) {
    forall i, j | 0 <= i < j < |ts| :: ts[i] <= ts[j]
  }

  /** The times in (low, high]. */
  function Within(ts: seq<Time>, low: Time, high: Time): seq<Time> {
    if ts == [] then []
    else if low < ts[0] <= high then [ts[0]] + Within(ts[1..], low, high)
    else Within(ts[1..], low, high)
  }

  /** The times after `low`. */
  function Later(ts: seq<Time>, low: Time): seq<Time> {
    if ts == [] then [] else if low < ts[0] then [ts[0]] + Later(ts[1..], low) else Later(ts[1..], low)
  }

  // ---------- trimming sorted times ----------

  lemma {:induction false} LaterAll(ts: seq<Time>, low: Time)
    requires forall i | 0 <= i < |ts| :: ts[i] > low
    ensures Later(ts, low) == ts
  {
    if ts != [] {
      LaterAll(ts[1..], low);
    }
  }

  /** Of sorted times, popping from the front keeps exactly those after the boundary. */
  lemma {:induction false} TrimIsLater(ts: seq<Time>, b: Time)
    requires Ascends(ts)
    ensures Trim(ts, b) == Later(ts, b)
  {
    if ts != [] {
      if ts[0] <= b {
        TrimIsLater(ts[1..], b);
      } else {
        LaterAll(ts, b);
      }
    }
  }

  lemma {:induction false} LaterTwice(ts: seq<Time>, a: Time, b: Time)
    requires a <= b
    ensures Later(Later(ts, a), b) == Later(ts, b)
  {
    if ts != [] {
      LaterTwice(ts[1..], a, b);
      if a < ts[0] {
        assert Later(ts, a)[1..] == Later(ts[1..], a);
      } else {
        assert Later(ts, a) == Later(ts[1..], a);
      }
    }
  }

  lemma {:induction false} LaterAppend(ts: seq<Time>, t: Time, b: Time)
    ensures Later(ts + [t], b) == if b < t then Later(ts, b) + [t] else Later(ts, b)
  {
    if ts == [] {
      assert ts + [t] == [t];
    } else {
      assert (ts + [t])[1..] == ts[1..] + [t];
      LaterAppend(ts[1..], t, b);
    }
  }

  lemma {:induction false} LaterAtLeast(ts: seq<Time>, b: Time, bottom: Time)
    requires forall i | 0 <= i < |ts| :: bottom <= ts[i]
    ensures forall i | 0 <= i < |Later(ts, b)| :: bottom <= Later(ts, b)[i]
  {
    if ts != [] {
      LaterAtLeast(ts[1..], b, bottom);
    }
  }

  lemma {:induction false} LaterAtMost(ts: seq<Time>, b: Time, top: Time)
    requires forall i | 0 <= i < |ts| :: ts[i] <= top
    ensures forall i | 0 <= i < |Later(ts, b)| :: Later(ts, b)[i] <= top
  {
    if ts != [] {
      LaterAtMost(ts[1..], b, top);
    }
  }

  lemma {:induction false} LaterAscends(ts: seq<Time>, b: Time)
    requires Ascends(ts)
    ensures Ascends(Later(ts, b))
  {
    if ts != [] {
      LaterAscends(ts[1..], b);
      LaterAtLeast(ts[1..], b, ts[0]);
    }
  }

  lemma {:induction false} WithinAppend(ts: seq<Time>, t: Time, low: Time, high: Time)
    ensures Within(ts + [t], low, high) == if low < t <= high then Within(ts, low, high) + [t] else Within(ts, low, high)
  {
    if ts == [] {
      assert ts + [t] == [t];
    } else {
      assert (ts + [t])[1..] == ts[1..] + [t];
      WithinAppend(ts[1..], t, low, high);
    }
  }

  lemma {:induction false} WithinFewerThanLater(ts: seq<Time>, b: Time, low: Time, high: Time)
    requires b <= low
    ensures |Within(ts, low, high)| <= |Later(ts, b)|
  {
    if ts != [] {
      WithinFewerThanLater(ts[1..], b, low, high);
    }
  }

  lemma {:induction false} WithinIsLater(ts: seq<Time>, low: Time, high: Time)
    requires forall i | 0 <= i < |ts| :: ts[i] <= high
    ensures Within(ts, low, high) == Later(ts, low)
  {
    if ts != [] {
      WithinIsLater(ts[1..], low, high);
    }
  }

  // ---------- one call ----------

  /** The peer's times when the limit is checked. */
  function Checked(l: Limits, calls: seq<Call>, n: nat): seq<Time>
    requires n < |calls|
  {
    Trim(Of(After(l, calls, n), calls[n].peer), calls[n].now - l.window)
  }

  lemma CallEffect(l: Limits, calls: seq<Call>, n: nat, peer: Text)
    requires n < |calls|
    ensures Allowed(l, calls, n) <==> |Checked(l, calls, n)| < l.maxRequests
    ensures peer != calls[n].peer ==> Of(After(l, calls, n + 1), peer) == Of(After(l, calls, n), peer)
    ensures peer == calls[n].peer && Allowed(l, calls, n) ==>
              Of(After(l, calls, n + 1), peer) == Checked(l, calls, n) + [calls[n].now]
    ensures peer == calls[n].peer && !Allowed(l, calls, n) ==> Of(After(l, calls, n + 1), peer) == Checked(l, calls, n)
  {
    assert IsAllow(Admit);
    assert Admit(l, After(l, calls, n), calls[n].peer, calls[n].now) ==
           Allow(l, After(l, calls, n), calls[n].peer, calls[n].now);
  }

  // ---------- the main results ----------

  /** Every allowed time so far is at most `now`, and they ascend. */
  lemma {:induction false} HistoryAscends(l: Limits, calls: seq<Call>, n: nat, peer: Text, now: Time)
    requires n <= |calls| && Monotone(calls) && (n > 0 ==> calls[n - 1].now <= now)
    ensures Ascends(History(l, calls, n, peer))
    ensures forall i | 0 <= i < |History(l, calls, n, peer)| :: History(l, calls, n, peer)[i] <= now
  {
    if n > 0 {
      HistoryAscends(l, calls, n - 1, peer, calls[n - 1].now);
    }
  }

  /** The deque never loses an allowed time that is still inside the window. */
  lemma {:induction false} DequeIsRecent(l: Limits, calls: seq<Call>, n: nat, peer: Text, b: Time)
    requires n <= |calls| && ValidLimits(l) && Monotone(calls) && (n > 0 ==> calls[n - 1].now - l.window <= b)
    ensures Ascends(Of(After(l, calls, n), peer))
    ensures Later(Of(After(l, calls, n), peer), b) == Later(History(l, calls, n, peer), b)
    decreases n, 1
  {
    if n > 0 {
      var now := calls[n - 1].now;
      CallEffect(l, calls, n - 1, peer);
      assert n > 1 ==> calls[n - 2].now <= now;
      if calls[n - 1].peer != peer {
        DequeIsRecent(l, calls, n - 1, peer, b);
      } else {
        CheckedIsRecent(l, calls, n - 1, peer, now, now - l.window);
        CheckedWithin(l, calls, n - 1, peer, now, now - l.window);
        LaterAfterCall(History(l, calls, n - 1, peer), now, now - l.window, b);
      }
    }
  }

  /** What is later than `b` after a call at `now`, allowed or not, when the deque was cut at `low`. */
  lemma LaterAfterCall(before: seq<Time>, now: Time, low: Time, b: Time)
    requires low <= b
    ensures Later(Later(before, low), b) == Later(before, b)
    ensures Later(Later(before, low) + [now], b) == Later(before + [now], b)
  {
    LaterTwice(before, low, b);
    LaterAppend(before, now, b);
    LaterAppend(Later(before, low), now, b);
  }

  /** Call `n` is by `peer` at `now`, and the window ending then starts after `low`. */
  ghost predicate At(l: Limits, calls: seq<Call>, n: nat, peer: Text, now: Time, low: Time) {
    n < |calls| && calls[n] == Call(peer, now) && low == now - l.window
  }

  /** The limit is checked against exactly the allowed times after `low`. */
  lemma {:induction false} CheckedIsRecent(l: Limits, calls: seq<Call>, n: nat, peer: Text, now: Time, low: Time)
    requires At(l, calls, n, peer, now, low) && ValidLimits(l) && Monotone(calls)
    ensures Checked(l, calls, n) == Later(History(l, calls, n, peer), low)
    decreases n, 2
  {
    assert n > 0 ==> calls[n - 1].now <= now;
    DequeIsRecent(l, calls, n, peer, low);
    TrimIsLater(Of(After(l, calls, n), peer), low);
  }

  /** They are sorted, and none is later than now. */
  lemma CheckedWithin(l: Limits, calls: seq<Call>, n: nat, peer: Text, now: Time, low: Time)
    requires At(l, calls, n, peer, now, low) && ValidLimits(l) && Monotone(calls)
    ensures var ts := History(l, calls, n, peer);
      Later(ts, low) == Within(ts, low, now) && Ascends(Later(ts, low)) && Ascends(Later(ts, low) + [now])
  {
    var ts := History(l, calls, n, peer);
    assert n > 0 ==> calls[n - 1].now <= now;
    HistoryAscends(l, calls, n, peer, now);
    WithinIsLater(ts, low, now);
    LaterAscends(ts, low);
    LaterAtMost(ts, low, now);
  }

  /** After a call, the peer's deque is sorted and holds exactly its allowed times in (now - window, now]. */
  lemma DequeExact(l: Limits, calls: seq<Call>, n: nat, peer: Text, now: Time, low: Time)
    requires At(l, calls, n, peer, now, low) && ValidLimits(l) && Monotone(calls)
    ensures Ascends(Of(After(l, calls, n + 1), peer))
    ensures Of(After(l, calls, n + 1), peer) == Within(History(l, calls, n + 1, peer), low, now)
  {
    var ts := History(l, calls, n, peer);
    CheckedIsRecent(l, calls, n, peer, now, low);
    CheckedWithin(l, calls, n, peer, now, low);
    CallEffect(l, calls, n, peer);
    if Allowed(l, calls, n) {
      WithinAppend(ts, now, low, now);
      assert History(l, calls, n + 1, peer) == ts + [now];
    } else {
      assert History(l, calls, n + 1, peer) == ts;
    }
  }

  /** A call is refused exactly when the window ending now already holds the maximum. */
  lemma RefusedExactlyWhenFull(l: Limits, calls: seq<Call>, n: nat, peer: Text, now: Time, low: Time)
    requires At(l, calls, n, peer, now, low) && ValidLimits(l) && Monotone(calls)
    ensures !Allowed(l, calls, n) <==> |Within(History(l, calls, n, peer), low, now)| >= l.maxRequests
  {
    CallEffect(l, calls, n, peer);
    CheckedIsRecent(l, calls, n, peer, now, low);
    CheckedWithin(l, calls, n, peer, now, low);
  }

  /** One more allowed time never overfills a window. */
  lemma WindowAfterAllowed(l: Limits, ts: seq<Time>, now: Time, from: Time)
    requires |Later(ts, now - l.window)| < l.maxRequests
    requires |Within(ts, from, from + l.window)| <= l.maxRequests
    ensures |Within(ts + [now], from, from + l.window)| <= l.maxRequests
  {
    WithinAppend(ts, now, from, from + l.window);
    if now <= from + l.window {
      WithinFewerThanLater(ts, now - l.window, from, from + l.window);
    }
  }

  /** Every window of the limiter's length, anywhere in the run, holds at most the maximum for each peer. */
  lemma {:induction false} EveryWindowBounded(l: Limits, calls: seq<Call>, n: nat, peer: Text, from: Time)
    requires n <= |calls| && ValidLimits(l) && Monotone(calls)
    ensures |Within(History(l, calls, n, peer), from, from + l.window)| <= l.maxRequests
  {
    if n > 0 {
      EveryWindowBounded(l, calls, n - 1, peer, from);
      if calls[n - 1].peer == peer && Allowed(l, calls, n - 1) {
        CallEffect(l, calls, n - 1, peer);
        CheckedIsRecent(l, calls, n - 1, peer, calls[n - 1].now, calls[n - 1].now - l.window);
        WindowAfterAllowed(l, History(l, calls, n - 1, peer), calls[n - 1].now, from);
      }
    }
  }

  // ---------- the same, counted by calls ----------

  /** The allowed calls of the peer among the first `n`, made after `low`. */
  ghost function AllowedAfter(l: Limits, calls: seq<Call>, n: nat, peer: Text, low: Time): set<nat>
    requires n <= |calls|
  {
    set j: nat | j < n && calls[j].peer == peer && low < calls[j].now && Allowed(l, calls, j)
  }

  lemma AllowedAfterNext(l: Limits, calls: seq<Call>, n: nat, peer: Text, low: Time)
    requires n < |calls|
    ensures n !in AllowedAfter(l, calls, n, peer, low)
    ensures AllowedAfter(l, calls, n + 1, peer, low) == AllowedAfter(l, calls, n, peer, low) +
            if calls[n].peer == peer && low < calls[n].now && Allowed(l, calls, n) then {n} else {}
  {
  }

  lemma LaterNext(l: Limits, calls: seq<Call>, n: nat, peer: Text, low: Time)
    requires n < |calls|
    ensures |Later(History(l, calls, n + 1, peer), low)| == |Later(History(l, calls, n, peer), low)| +
            if calls[n].peer == peer && low < calls[n].now && Allowed(l, calls, n) then 1 else 0
  {
    LaterAppend(History(l, calls, n, peer), calls[n].now, low);
  }

  lemma {:induction false} LaterCounted(l: Limits, calls: seq<Call>, n: nat, peer: Text, low: Time)
    requires n <= |calls|
    ensures |Later(History(l, calls, n, peer), low)| == |AllowedAfter(l, calls, n, peer, low)|
  {
    if n == 0 {
      assert AllowedAfter(l, calls, 0, peer, low) == {};
    } else {
      LaterCounted(l, calls, n - 1, peer, low);
      LaterNext(l, calls, n - 1, peer, low);
      AllowedAfterNext(l, calls, n - 1, peer, low);
    }
  }

  /**
   A call is refused exactly when the peer already had the maximum of calls allowed less than a window ago; one made
   exactly a window ago no longer counts.
   */
  lemma RefusedExactlyByCount(l: Limits, calls: seq<Call>, n: nat)
    requires n < |calls| && ValidLimits(l) && Monotone(calls)
    ensures !Allowed(l, calls, n) <==>
            |set j: nat | j < n && calls[j].peer == calls[n].peer && calls[n].now - l.window < calls[j].now
                          && Allowed(l, calls, j)| >= l.maxRequests
  {
    var peer, low := calls[n].peer, calls[n].now - l.window;
    CallEffect(l, calls, n, peer);
    CheckedIsRecent(l, calls, n, peer, calls[n].now, low);
    LaterCounted(l, calls, n, peer, low);
    assert AllowedAfter(l, calls, n, peer, low) ==
           set j: nat | j < n && calls[j].peer == calls[n].peer && calls[n].now - l.window < calls[j].now
                        && Allowed(l, calls, j);
  }

  // ---------- peers are independent ----------

  function Only(calls: seq<Call>, n: nat, peer: Text): (r: seq<Call>)
    requires n <= |calls|
    ensures |r| <= n
  {
    if n == 0 then []
    else if calls[n - 1].peer == peer then Only(calls, n - 1, peer) + [calls[n - 1]]
    else Only(calls, n - 1, peer)
  }

  lemma {:induction false} SameStart(l: Limits, a: seq<Call>, b: seq<Call>, n: nat)
    requires n <= |a| && a <= b
    ensures After(l, a, n) == After(l, b, n)
  {
    if n > 0 {
      SameStart(l, a, b, n - 1);
    }
  }

  /** A peer's remembered times are those of the run with everyone else's calls left out. */
  lemma {:induction false} StateIndependent(l: Limits, calls: seq<Call>, n: nat, peer: Text)
    requires n <= |calls|
    ensures var own := Only(calls, n, peer); Of(After(l, calls, n), peer) == Of(After(l, own, |own|), peer)
  {
    if n > 0 {
      StateIndependent(l, calls, n - 1, peer);
      CallEffect(l, calls, n - 1, peer);
      if calls[n - 1].peer == peer {
        var earlier := Only(calls, n - 1, peer);
        SameStart(l, earlier, earlier + [calls[n - 1]], |earlier|);
        SameEffect(l, calls, n - 1, earlier + [calls[n - 1]], |earlier|, peer);
      }
    }
  }

  /** A call has the same effect on its peer in any run that has brought the peer to the same state. */
  lemma SameEffect(l: Limits, a: seq<Call>, i: nat, b: seq<Call>, j: nat, peer: Text)
    requires i < |a| && j < |b| && a[i] == b[j] && a[i].peer == peer
    requires Of(After(l, a, i), peer) == Of(After(l, b, j), peer)
    ensures Of(After(l, a, i + 1), peer) == Of(After(l, b, j + 1), peer)
  {
    CallEffect(l, a, i, peer);
    CallEffect(l, b, j, peer);
  }

  /** So are the answers it gets. */
  lemma PeersIndependent(l: Limits, calls: seq<Call>, n: nat)
    requires n < |calls|
    ensures var own := Only(calls, n + 1, calls[n].peer);
      own != [] && own[|own| - 1] == calls[n] && (Allowed(l, calls, n) <==> Allowed(l, own, |own| - 1))
  {
    var peer := calls[n].peer;
    var earlier, own := Only(calls, n, peer), Only(calls, n + 1, peer);
    StateIndependent(l, calls, n, peer);
    SameStart(l, earlier, own, |earlier|);
    CallEffect(l, calls, n, peer);
    CallEffect(l, own, |earlier|, peer);
  }
}
