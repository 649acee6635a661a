/** Nonce memory of the federation request authenticator, over runs with non-decreasing clock readings. */
module RequestAuthentication {
  import opened Text
  import opened Records
  import opened RequestSigning
  import opened Signing

  datatype NonceKey = NonceKey(peer: Text, nonce: Text)

  datatype Request = Request(key: NonceKey, signedAt: Time)

  type Memory = map<NonceKey, Time>

  /** All times in one unit; the source takes whole seconds. */
  datatype Limits = Limits(maxAge: Time, skew: Time, capacity: nat)

  ghost predicate ValidLimits(l: Limits) {
    l.maxAge > 0 && l.skew >= 0 && l.capacity > 0
  }

  predicate Timely(l: Limits, r: Request, now: Time) {
    now - l.maxAge <= r.signedAt <= now + l.skew
  }

  /** Entries that have not expired by `now`. */
  function Live(mem: Memory, now: Time): Memory {
    map k | k in mem && mem[k] > now :: mem[k]
  }

  predicate Fits(l: Limits, mem: Memory, r: Request, now: Time) {
    r.key !in Live(mem, now) && |Live(mem, now)| < l.capacity
  }

  /** The memory after a request whose signature a configured requester made, and whether it was accepted. */
  function Remember(l: Limits, mem: Memory, r: Request, now: Time): (Memory, bool) {
    if !Timely(l, r, now) then (mem, false)
    else if !Fits(l, mem, r, now) then (Live(mem, now), false)
    else (Live(mem, now)[r.key := now + l.maxAge], true)
  }

  function RequestOf(h: Headers): Request
    requires h.EachOnce()
  {
    Request(NonceKey(h.peers[0], h.nonces[0]), h.timestamps[0])
  }

  /** Timely, not remembered beyond `now`, and fewer nonces than the capacity remembered beyond `now`. */
  ghost predicate Fresh(l: Limits, mem: Memory, key: NonceKey, signedAt: Time, now: Time) {
    && now - l.maxAge <= signedAt <= now + l.skew
    && (key in mem ==> mem[key] <= now)
    && |set k | k in mem && mem[k] > now| < l.capacity
  }

  /** What is remembered, and when a request is accepted. */
  lemma RememberMeans(l: Limits, mem: Memory, r: Request, now: Time)
    ensures Remember(l, mem, r, now).1 <==> Fresh(l, mem, r.key, r.signedAt, now)
    ensures var after := Remember(l, mem, r, now).0;
      if r.signedAt < now - l.maxAge || now + l.skew < r.signedAt then after == mem
      else
        && (r.key in after <==> Fresh(l, mem, r.key, r.signedAt, now) || (r.key in mem && mem[r.key] > now))
        && (Fresh(l, mem, r.key, r.signedAt, now) ==> after[r.key] == now + l.maxAge)
        && (forall k | k in mem && mem[k] > now :: k in after && after[k] == mem[k])
        && (forall k | k in after :: k == r.key || (k in mem && mem[k] > now))
  {
    assert Live(mem, now).Keys == set k | k in mem && mem[k] > now;
  }

  class FederationRequestAuthenticator {
    const requesters: map<Text, Bytes>
    const limits: Limits
    var nonces: Memory

    constructor (requesters: map<Text, Bytes>, limits: Limits)
      ensures this.requesters == requesters && this.limits == limits && nonces == map[]
    {
      this.requesters, this.limits, nonces := requesters, limits, map[];
    }

    /** The peer, when its request verifies and its nonce is remembered; an unverified request changes nothing. */
    method AuthenticatePeer(h: Headers, verb: Text, path: Text, now: Time) returns (peer: Option<Text>)
      modifies this
      ensures !Verified(requesters, h, verb, path) ==> nonces == old(nonces) && peer == None
      ensures Verified(requesters, h, verb, path) ==>
        && (nonces, peer.Some?) == Remember(limits, old(nonces), RequestOf(h), now)
        && (peer.Some? ==> peer.value == h.peers[0])
      ensures peer.Some? ==> SignedAsConfigured(requesters, h, verb, path) && peer.value == h.peers[0]
      ensures SignedAsConfigured(requesters, h, verb, path) ==>
        (peer.Some? <==> Fresh(limits, old(nonces), NonceKey(h.peers[0], h.nonces[0]), h.timestamps[0], now))
    {
      VerifiedMeans(requesters, h, verb, path);
      if !Verified(requesters, h, verb, path) {
        return None;
      }
      RememberMeans(limits, nonces, RequestOf(h), now);
      var accepted := RememberNonce(RequestOf(h), now);
      return if accepted then Some(h.peers[0]) else None;
    }

    /** The checks of time and nonce. */
    method RememberNonce(r: Request, now: Time) returns (accepted: bool)
      modifies this
      ensures (nonces, accepted) == Remember(limits, old(nonces), r, now)
    {
      if r.signedAt < now - limits.maxAge || r.signedAt > now + limits.skew {
        return false;
      }
      nonces := DropExpired(nonces, now);
      if r.key in nonces || |nonces| >= limits.capacity {
        return false;
      }
      nonces := nonces[r.key := now + limits.maxAge];
      return true;
    }

    /** The comprehension over the remembered nonces. */
    static method DropExpired(mem: Memory, now: Time) returns (live: Memory)
      ensures live == Live(mem, now)
    {
      live := map[];
      var rest := mem.Keys;
      while rest != {}
        invariant rest <= mem.Keys
        invariant live == map k | k in mem && k !in rest && mem[k] > now :: mem[k]
        decreases |rest|
      {
        var k :| k in rest;
        rest := rest - {k};
        if mem[k] > now {
          live := live[k := mem[k]];
        }
      }
    }
  }

  /** A requester's own timely request with a new nonce is accepted while there is room. */
  lemma SignedIsAccepted(requesters: map<Text, Bytes>, l: Limits, mem: Memory, q: FederationRequest, seed: Bytes, now: Time)
    requires ValidRequest(q) && q.peer in requesters && requesters[q.peer] == Ed25519.publicKey(seed)
    requires now - l.maxAge <= q.timestamp <= now + l.skew
    requires NonceKey(q.peer, q.nonce) !in Live(mem, now) && |Live(mem, now)| < l.capacity
    ensures var (keyId, signature) := SignRequest(q, seed);
      var h := HeadersOf(q, keyId, signature);
      Verified(requesters, h, q.verb, q.path) && Remember(l, mem, RequestOf(h), now).1
  {
    RequesterIsVerified(requesters, q, seed);
  }

  // ---------- runs ----------

  datatype Call = Call(request: Request, now: Time)

  ghost predicate Monotone(calls: seq<Call>) {
    forall i, j | 0 <= i < j < |calls| :: calls[i].now <= calls[j].now
  }

  function After(l: Limits, calls: seq<Call>, n: nat): Memory
    requires n <= |calls|
  {
    if n == 0 then map[] else Remember(l, After(l, calls, n - 1), calls[n - 1].request, calls[n - 1].now).0
  }

  predicate Accepted(l: Limits, calls: seq<Call>, i: nat)
    requires i < |calls|
  {
    Remember(l, After(l, calls, i), calls[i].request, calls[i].now).1
  }

  /** The memory never exceeds its capacity. */
  lemma {:induction false} MemoryBounded(l: Limits, calls: seq<Call>, n: nat)
    requires n <= |calls| && ValidLimits(l)
    ensures |After(l, calls, n)| <= l.capacity
  {
    if n > 0 {
      MemoryBounded(l, calls, n - 1);
      LiveIsSmaller(After(l, calls, n - 1), calls[n - 1].now);
    }
  }

  lemma LiveIsSmaller(mem: Memory, now: Time)
    ensures |Live(mem, now)| <= |mem|
  {
    SubsetSize(Live(mem, now).Keys, mem.Keys);
  }

  lemma {:induction false} SubsetSize<T>(a: set<T>, b: set<T>)
    requires a <= b
    ensures |a| <= |b|
    decreases a
  {
    if x :| x in a {
      SubsetSize(a - {x}, b - {x});
    }
  }

  /** An acceptance that is still live at `now` is remembered, with its own expiry. */
  lemma {:induction false} LiveAcceptanceRemembered(l: Limits, calls: seq<Call>, i: nat, n: nat, now: Time)
    requires i < n <= |calls| && Accepted(l, calls, i) && Monotone(calls)
    requires calls[n - 1].now <= now < calls[i].now + l.maxAge
    ensures Expires(After(l, calls, n), calls[i].request.key, calls[i].now + l.maxAge)
    decreases n
  {
    if i < n - 1 {
      LiveAcceptanceRemembered(l, calls, i, n - 1, calls[n - 1].now);
      StaysRemembered(l, After(l, calls, n - 1), calls[n - 1].request, calls[n - 1].now, calls[i].request.key);
    }
  }

  predicate Expires(mem: Memory, key: NonceKey, at: Time) {
    key in mem && mem[key] == at
  }

  lemma StaysRemembered(l: Limits, mem: Memory, r: Request, now: Time, key: NonceKey)
    requires key in mem && mem[key] > now
    ensures key in Remember(l, mem, r, now).0 && Remember(l, mem, r, now).0[key] == mem[key]
    ensures Remember(l, mem, r, now).1 ==> r.key != key
  {
    assert key in Live(mem, now);
  }

  /** Two acceptances of one (peer, nonce) are at least `maxAge` apart. */
  lemma AcceptancesApart(l: Limits, calls: seq<Call>, i: nat, j: nat)
    requires i < j < |calls| && ValidLimits(l) && Monotone(calls)
    requires Accepted(l, calls, i) && Accepted(l, calls, j) && calls[i].request.key == calls[j].request.key
    ensures calls[j].now >= calls[i].now + l.maxAge
  {
    if calls[j].now < calls[i].now + l.maxAge {
      LiveAcceptanceRemembered(l, calls, i, j, calls[j].now);
      StaysRemembered(l, After(l, calls, j), calls[j].request, calls[j].now, calls[i].request.key);
    }
  }

  /** A request stamped strictly before its first acceptance is never accepted again. */
  lemma EarlierStampAcceptedOnce(l: Limits, calls: seq<Call>, i: nat, j: nat)
    requires i < j < |calls| && ValidLimits(l) && Monotone(calls)
    requires Accepted(l, calls, i) && calls[j].request == calls[i].request && calls[i].request.signedAt < calls[i].now
    ensures !Accepted(l, calls, j)
  {
    if Accepted(l, calls, j) {
      AcceptancesApart(l, calls, i, j);
    }
  }

  // ---------- how often one request is accepted ----------

  function AcceptancesOf(l: Limits, calls: seq<Call>, n: nat, r: Request): nat
    requires n <= |calls|
  {
    if n == 0 then 0
    else AcceptancesOf(l, calls, n - 1, r) + if calls[n - 1].request == r && Accepted(l, calls, n - 1) then 1 else 0
  }

  /** The time that `count` acceptances take up at least: a gap between each two neighbours. */
  function Gaps(count: nat, gap: int): int {
    if count <= 1 then 0 else Gaps(count - 1, gap) + gap
  }

  lemma {:induction false} GapsIsProduct(count: nat, gap: int)
    requires count > 0
    ensures Gaps(count, gap) == (count - 1) * gap
    decreases count
  {
    if count > 1 {
      GapsIsProduct(count - 1, gap);
      assert (count - 1) * gap == (count - 2) * gap + gap;
    }
  }

  /** The acceptances stretch from `first` to `last`, with a gap of `maxAge` between neighbours. */
  lemma {:induction false} AcceptancesSpread(l: Limits, calls: seq<Call>, n: nat, r: Request)
    returns (first: nat, last: nat)
    requires n <= |calls| && ValidLimits(l) && Monotone(calls) && AcceptancesOf(l, calls, n, r) > 0
    ensures first <= last < n && Accepted(l, calls, first) && Accepted(l, calls, last)
    ensures calls[first].request == r == calls[last].request
    ensures Gaps(AcceptancesOf(l, calls, n, r), l.maxAge) <= calls[last].now - calls[first].now
  {
    var here := calls[n - 1].request == r && Accepted(l, calls, n - 1);
    var before := AcceptancesOf(l, calls, n - 1, r);
    assert AcceptancesOf(l, calls, n, r) == before + if here then 1 else 0;
    if before == 0 {
      first, last := n - 1, n - 1;
    } else {
      first, last := AcceptancesSpread(l, calls, n - 1, r);
      if here {
        AcceptancesApart(l, calls, last, n - 1);
        last := n - 1;
      }
    }
  }

  lemma ProductGrows(a: int, b: int, gap: int)
    requires a >= b && gap > 0
    ensures a * gap >= b * gap
  {
  }

  lemma GapsFit(count: nat, gap: int, span: int)
    requires gap > 0 && span >= 0 && (count - 1) * gap <= span
    ensures count <= 1 + span / gap
  {
    assert span < (span / gap + 1) * gap;
    if count - 1 >= span / gap + 1 {
      ProductGrows(count - 1, span / gap + 1, gap);
    }
  }

  /** Any request is accepted at most 1 + floor((maxAge + skew) / maxAge) times. */
  lemma AcceptedAtMost(l: Limits, calls: seq<Call>, r: Request)
    requires ValidLimits(l) && Monotone(calls)
    ensures AcceptancesOf(l, calls, |calls|, r) <= 1 + (l.maxAge + l.skew) / l.maxAge
  {
    if AcceptancesOf(l, calls, |calls|, r) > 0 {
      var first, last := AcceptancesSpread(l, calls, |calls|, r);
      GapsIsProduct(AcceptancesOf(l, calls, |calls|, r), l.maxAge);
      GapsFit(AcceptancesOf(l, calls, |calls|, r), l.maxAge, l.maxAge + l.skew);
    }
  }

  // ---------- how many acceptances one window holds ----------

  /** The acceptances in [from, from + maxAge) among the first `n` calls. */
  ghost function AcceptedIn(l: Limits, calls: seq<Call>, n: nat, from: Time): set<nat>
    requires n <= |calls|
  {
    set i: nat | i < n && Accepted(l, calls, i) && from <= calls[i].now < from + l.maxAge
  }

  lemma {:induction false} DistinctKeysFit(l: Limits, calls: seq<Call>, s: set<nat>, keys: set<NonceKey>)
    requires forall i | i in s :: i < |calls| && calls[i].request.key in keys
    requires forall i, j | i in s && j in s && i != j :: calls[i].request.key != calls[j].request.key
    ensures |s| <= |keys|
    decreases s
  {
    if i :| i in s {
      DistinctKeysFit(l, calls, s - {i}, keys - {calls[i].request.key});
    }
  }

  /** Any half-open window of length `maxAge` holds at most `capacity` acceptances. */
  lemma {:induction false} WindowBounded(l: Limits, calls: seq<Call>, n: nat, from: Time)
    requires n <= |calls| && ValidLimits(l) && Monotone(calls)
    ensures |AcceptedIn(l, calls, n, from)| <= l.capacity
  {
    if n > 0 {
      var s := AcceptedIn(l, calls, n, from);
      if n - 1 !in s {
        WindowBounded(l, calls, n - 1, from);
        assert s == AcceptedIn(l, calls, n - 1, from);
      } else {
        WindowEndingHere(l, calls, n, from);
      }
    }
  }

  lemma MemberRemembered(l: Limits, calls: seq<Call>, i: nat, n: nat, from: Time)
    requires i < n <= |calls| && Monotone(calls) && Accepted(l, calls, i)
    requires from <= calls[i].now && calls[n - 1].now < from + l.maxAge
    ensures calls[i].request.key in After(l, calls, n)
  {
    LiveAcceptanceRemembered(l, calls, i, n, calls[n - 1].now);
  }

  /** When the window ends here, every acceptance in it is still remembered. */
  lemma WindowRemembered(l: Limits, calls: seq<Call>, n: nat, from: Time, s: set<nat>, keys: set<NonceKey>)
    requires 0 < n <= |calls| && Monotone(calls) && calls[n - 1].now < from + l.maxAge
    requires s == AcceptedIn(l, calls, n, from) && keys == After(l, calls, n).Keys
    ensures forall i | i in s :: calls[i].request.key in keys
  {
    forall i | i in s ensures calls[i].request.key in keys {
      MemberRemembered(l, calls, i, n, from);
    }
  }

  lemma WindowKeysDistinct(l: Limits, calls: seq<Call>, n: nat, from: Time)
    requires n <= |calls| && ValidLimits(l) && Monotone(calls)
    ensures var s := AcceptedIn(l, calls, n, from);
      forall i, j | i in s && j in s && i != j :: calls[i].request.key != calls[j].request.key
  {
    var s := AcceptedIn(l, calls, n, from);
    forall i, j | i in s && j in s && i < j ensures calls[i].request.key != calls[j].request.key {
      if calls[i].request.key == calls[j].request.key {
        AcceptancesApart(l, calls, i, j);
      }
    }
  }

  lemma WindowEndingHere(l: Limits, calls: seq<Call>, n: nat, from: Time)
    requires 0 < n <= |calls| && ValidLimits(l) && Monotone(calls) && n - 1 in AcceptedIn(l, calls, n, from)
    ensures |AcceptedIn(l, calls, n, from)| <= l.capacity
  {
    var s := AcceptedIn(l, calls, n, from);
    MemoryBounded(l, calls, n);
    WindowRemembered(l, calls, n, from, s, After(l, calls, n).Keys);
    WindowKeysDistinct(l, calls, n, from);
    DistinctKeysFit(l, calls, s, After(l, calls, n).Keys);
  }
}
