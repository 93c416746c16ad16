/**
 Single use of capabilities, over the order of commits alone. Each commit brings a verified capability and
 its own reading of the clock; nothing ties the readings to each other, or to those of the preparations.
 */
module SingleUse {
  import opened Prelude
  import opened ReplayCache

  datatype Attempt = Attempt(capability: Verified, now: nat)

  /** What the cache holds after some commits. */
  function EntriesAfter(capacity: nat, attempts: seq<Attempt>): Entries {
    if attempts == [] then map[]
    else
      var n := |attempts| - 1;
      Consumed(capacity, EntriesAfter(capacity, attempts[..n]), attempts[n].capability, attempts[n].now).0
  }

  predicate Accepted(capacity: nat, attempts: seq<Attempt>, i: nat)
    requires i < |attempts|
  {
    Consumed(capacity, EntriesAfter(capacity, attempts[..i]), attempts[i].capability, attempts[i].now).1.Ok?
  }

  /** One capability is accepted twice. */
  ghost predicate Reused(capacity: nat, attempts: seq<Attempt>) {
    exists i, k :: 0 <= i < k < |attempts| && attempts[i].capability == attempts[k].capability
                   && Accepted(capacity, attempts, i) && Accepted(capacity, attempts, k)
  }

  /** Commits at the given clock readings, with expiries that 64 bits hold. */
  ghost predicate Over(attempts: seq<Attempt>, readings: seq<nat>) {
    |attempts| == |readings|
    && forall i :: 0 <= i < |attempts| ==>
         attempts[i].now == readings[i] && attempts[i].capability.replayExpiresAt <= U64_MAX
  }

  /** The j-th reading is above an earlier and a later one. At the very last second nothing can be committed. */
  ghost predicate Peak(readings: seq<nat>, i: int, j: int, k: int) {
    0 <= i < j < k < |readings| && readings[i] < readings[j] && readings[k] < readings[j] < U64_MAX
  }

  ghost predicate HasPeak(readings: seq<nat>) {
    exists i, j, k :: Peak(readings, i, j, k)
  }

  ghost predicate NeverReused(capacity: nat, readings: seq<nat>) {
    forall attempts :: Over(attempts, readings) ==> !Reused(capacity, attempts)
  }

  /**
   Single use holds in every run over the given clock readings if and only if no reading lies above both an
   earlier and a later one, or the cache has room for one entry only.
   */
  lemma NeverReusedExactlyWhen(capacity: nat, readings: seq<nat>)
    ensures NeverReused(capacity, readings) <==> capacity <= 1 || !HasPeak(readings)
  {
    forall attempts: seq<Attempt> | Over(attempts, readings) && Reused(capacity, attempts)
      ensures capacity > 1 && HasPeak(readings)
    {
      var i, k :| 0 <= i < k < |attempts| && attempts[i].capability == attempts[k].capability
                  && Accepted(capacity, attempts, i) && Accepted(capacity, attempts, k);
      ReuseMeansPeak(capacity, attempts, readings, i, k);
    }
    if capacity > 1 && HasPeak(readings) {
      var i, j, k :| Peak(readings, i, j, k);
      PeakReuses(capacity, readings, i, j, k);
    }
  }

  /** Stepping back and forth over an expiry is enough; readings that only advance are not. */
  lemma ClockStepBackReuses()
    ensures !NeverReused(2, [5, 20, 5]) && NeverReused(2, [5, 5, 20])
  {
    var back, forth: seq<nat> := [5, 20, 5], [5, 5, 20];
    assert Peak(back, 0, 1, 2);
    NeverReusedExactlyWhen(2, back);
    AdvancingHasNoPeak(forth);
    NeverReusedExactlyWhen(2, forth);
  }

  lemma AdvancingHasNoPeak(readings: seq<nat>)
    requires forall i, j :: 0 <= i < j < |readings| ==> readings[i] <= readings[j]
    ensures !HasPeak(readings)
  {
  }

  // ---------- a reuse needs a peak ----------

  ghost predicate Cached(entries: Entries, v: Verified) {
    v.claims.nonce in entries && entries[v.claims.nonce] == v.replayExpiresAt
  }

  lemma NextEntries(capacity: nat, attempts: seq<Attempt>, n: nat)
    requires n < |attempts|
    ensures EntriesAfter(capacity, attempts[..n + 1])
         == Consumed(capacity, EntriesAfter(capacity, attempts[..n]), attempts[n].capability, attempts[n].now).0
  {
    assert attempts[..n + 1][..n] == attempts[..n];
  }

  /** An accepted capability stays cached until some commit reads a clock at or after its expiry. */
  lemma {:induction false} CachedUntilExpiry(capacity: nat, attempts: seq<Attempt>, i: nat, n: nat)
    requires i < n <= |attempts| && Accepted(capacity, attempts, i)
    requires forall x :: 0 <= x < |attempts| ==> attempts[x].capability.replayExpiresAt <= U64_MAX
    ensures Cached(EntriesAfter(capacity, attempts[..n]), attempts[i].capability)
            || exists j :: i < j < n && attempts[i].capability.replayExpiresAt <= attempts[j].now < U64_MAX
  {
    NextEntries(capacity, attempts, n - 1);
    if n == i + 1 {
      AcceptedIsCached(capacity, EntriesAfter(capacity, attempts[..i]), attempts[i]);
    } else {
      CachedUntilExpiry(capacity, attempts, i, n - 1);
      KeptOrExpired(capacity, EntriesAfter(capacity, attempts[..n - 1]), attempts[n - 1], attempts[i].capability);
    }
  }

  lemma AcceptedIsCached(capacity: nat, entries: Entries, a: Attempt)
    requires Consumed(capacity, entries, a.capability, a.now).1.Ok?
    ensures Cached(Consumed(capacity, entries, a.capability, a.now).0, a.capability)
  {
  }

  lemma KeptOrExpired(capacity: nat, entries: Entries, a: Attempt, v: Verified)
    requires a.capability.replayExpiresAt <= U64_MAX
    ensures Cached(entries, v) ==>
            Cached(Consumed(capacity, entries, a.capability, a.now).0, v)
            || v.replayExpiresAt <= a.now < U64_MAX
  {
  }

  /** With room for one entry, something that outlives an accepted capability is always in its place. */
  lemma {:induction false} PlaceStaysTaken(capacity: nat, attempts: seq<Attempt>, i: nat, n: nat)
    requires capacity <= 1 && i < n <= |attempts| && Accepted(capacity, attempts, i)
    ensures var entries := EntriesAfter(capacity, attempts[..n]);
            |entries| <= 1 && exists m :: m in entries && entries[m] >= attempts[i].capability.replayExpiresAt
  {
    NextEntries(capacity, attempts, n - 1);
    var before := EntriesAfter(capacity, attempts[..n - 1]);
    AtMostOne(capacity, attempts[..n - 1]);
    if n > i + 1 {
      PlaceStaysTaken(capacity, attempts, i, n - 1);
      var m :| m in before && before[m] >= attempts[i].capability.replayExpiresAt;
      TakenStep(capacity, before, attempts[n - 1], m);
    } else {
      var v := attempts[i].capability;
      AtMostOne(capacity, attempts[..n]);
      assert v.claims.nonce in EntriesAfter(capacity, attempts[..n]);
    }
  }

  lemma {:induction false} AtMostOne(capacity: nat, attempts: seq<Attempt>)
    requires capacity <= 1
    ensures |EntriesAfter(capacity, attempts)| <= 1
  {
    if attempts != [] {
      var n := |attempts| - 1;
      AtMostOne(capacity, attempts[..n]);
      var a, before := attempts[n], EntriesAfter(capacity, attempts[..n]);
      InsertedSize(1, before, a.capability.claims.nonce, a.capability.replayExpiresAt, a.now);
      InsertedSmaller(capacity, before, a.capability.claims.nonce, a.capability.replayExpiresAt, a.now);
    }
  }

  lemma InsertedSmaller(capacity: nat, entries: Entries, nonce: Nonce, expiresAt: nat, now: nat)
    requires capacity <= 1 && |entries| <= 1
    ensures |Inserted(capacity, entries, nonce, expiresAt, now).0| <= 1
  {
    LiveSize(entries, now);
    InsertedSize(1, entries, nonce, expiresAt, now);
  }

  lemma TakenStep(capacity: nat, entries: Entries, a: Attempt, m: Nonce)
    requires capacity == 1 && |entries| <= 1 && m in entries
    ensures var after := Consumed(capacity, entries, a.capability, a.now).0;
            |after| <= 1 && exists k :: k in after && after[k] >= entries[m]
  {
    assert entries.Keys == {m} by { OneKey(entries, m); }
    InsertedSmaller(capacity, entries, a.capability.claims.nonce, a.capability.replayExpiresAt, a.now);
    if entries[m] > a.now {
      assert Live(entries, a.now) == entries;
    } else {
      assert Live(entries, a.now) == map[];
    }
  }

  lemma OneKey(entries: Entries, m: Nonce)
    requires |entries| <= 1 && m in entries
    ensures entries.Keys == {m}
  {
    assert |entries.Keys - {m}| == |entries.Keys| - 1;
  }

  lemma OnePlace(capacity: nat, attempts: seq<Attempt>, i: nat, k: nat)
    requires capacity <= 1 && i < k < |attempts| && attempts[i].capability == attempts[k].capability
    requires Accepted(capacity, attempts, i)
    ensures !Accepted(capacity, attempts, k)
  {
    var v, entries := attempts[i].capability, EntriesAfter(capacity, attempts[..k]);
    PlaceStaysTaken(capacity, attempts, i, k);
    var m :| m in entries && entries[m] >= v.replayExpiresAt;
    if attempts[k].now < v.replayExpiresAt {
      assert m in Live(entries, attempts[k].now);
    }
  }

  lemma ReuseMeansPeak(capacity: nat, attempts: seq<Attempt>, readings: seq<nat>, i: nat, k: nat)
    requires Over(attempts, readings) && i < k < |attempts| && attempts[i].capability == attempts[k].capability
    requires Accepted(capacity, attempts, i) && Accepted(capacity, attempts, k)
    ensures capacity > 1 && HasPeak(readings)
  {
    var v := attempts[i].capability;
    if capacity <= 1 {
      OnePlace(capacity, attempts, i, k);
    }
    CachedUntilExpiry(capacity, attempts, i, k);
    var j :| i < j < k && v.replayExpiresAt <= attempts[j].now < U64_MAX;
    assert Peak(readings, i, j, k);
  }

  // ---------- a peak allows a reuse ----------

  /** What a verifier without skew makes of claims issued at 0. */
  function Granted(nonce: Nonce, expiresAt: nat): Verified {
    Verified(Claims("edge", 0, expiresAt, nonce), 0, expiresAt)
  }

  /** The cache along the run that reuses: empty, then the first capability, then the one that drove it out. */
  function Expected(peak: nat, i: nat, j: nat, n: nat): Entries {
    if n <= i then map[] else if n <= j then map[0 := peak] else map[1 := peak + 1]
  }

  /** The capability presented at position x of that run; what is presented elsewhere has long expired. */
  function Planned(peak: nat, i: nat, j: nat, k: nat, x: nat): (v: Verified)
    ensures v.replayExpiresAt <= peak + 1
  {
    if x == i || x == k then Granted(0, peak) else if x == j then Granted(1, peak + 1) else Granted(2, 0)
  }

  /** Long expired capabilities leave no trace. */
  lemma IgnoredStep(capacity: nat, entries: Entries, now: nat)
    ensures Consumed(capacity, entries, Granted(2, 0), now) == (entries, Err(Expired))
  {
  }

  lemma FirstStep(capacity: nat, peak: nat, now: nat)
    requires capacity >= 2 && now < peak
    ensures Consumed(capacity, map[], Granted(0, peak), now) == (map[0 := peak], Ok(Granted(0, peak).claims))
  {
    assert Live(map[], now) == map[];
  }

  lemma PeakStep(capacity: nat, peak: nat)
    requires capacity >= 2
    ensures Consumed(capacity, map[0 := peak], Granted(1, peak + 1), peak).0 == map[1 := peak + 1]
  {
    assert Live(map[0 := peak], peak) == map[];
  }

  lemma SecondStep(capacity: nat, peak: nat, now: nat)
    requires capacity >= 2 && now < peak
    ensures Consumed(capacity, map[1 := peak + 1], Granted(0, peak), now).1 == Ok(Granted(0, peak).claims)
  {
    assert Live(map[1 := peak + 1], now) == map[1 := peak + 1];
  }

  lemma ExpectedStep(capacity: nat, peak: nat, i: nat, j: nat, k: nat, n: nat, now: nat)
    requires capacity >= 2 && i < j < k && n < k && (n == i ==> now < peak) && (n == j ==> now == peak)
    ensures Consumed(capacity, Expected(peak, i, j, n), Planned(peak, i, j, k, n), now).0 == Expected(peak, i, j, n + 1)
  {
    if n == i {
      FirstStep(capacity, peak, now);
    } else if n == j {
      PeakStep(capacity, peak);
    } else {
      IgnoredStep(capacity, Expected(peak, i, j, n), now);
    }
  }

  /** A sequence of cache contents that every commit follows is what the run goes through. */
  lemma {:induction false} FollowedRun(capacity: nat, attempts: seq<Attempt>, states: seq<Entries>, n: nat)
    requires n <= |attempts| && n < |states| && states[0] == map[]
    requires forall x :: 0 <= x < n ==>
               Consumed(capacity, states[x], attempts[x].capability, attempts[x].now).0 == states[x + 1]
    ensures EntriesAfter(capacity, attempts[..n]) == states[n]
  {
    if n > 0 {
      FollowedRun(capacity, attempts, states, n - 1);
      NextEntries(capacity, attempts, n - 1);
    }
  }

  lemma PeakReuses(capacity: nat, readings: seq<nat>, i: nat, j: nat, k: nat)
    requires capacity >= 2 && Peak(readings, i, j, k)
    ensures exists attempts :: Over(attempts, readings) && Reused(capacity, attempts)
  {
    var peak := readings[j];
    var attempts := seq(|readings|, x requires 0 <= x < |readings| => Attempt(Planned(peak, i, j, k, x), readings[x]));
    assert Over(attempts, readings);
    ReusingEnds(capacity, attempts, peak, i, j, k);
  }

  lemma ReusingEnds(capacity: nat, attempts: seq<Attempt>, peak: nat, i: nat, j: nat, k: nat)
    requires capacity >= 2 && i < j < k < |attempts|
    requires forall x :: 0 <= x < |attempts| ==> attempts[x].capability == Planned(peak, i, j, k, x)
    requires attempts[i].now < peak == attempts[j].now && attempts[k].now < peak
    ensures Reused(capacity, attempts)
  {
    ReusingRun(capacity, attempts, peak, i, j, k);
    FirstStep(capacity, peak, attempts[i].now);
    SecondStep(capacity, peak, attempts[k].now);
    assert attempts[i].capability == Granted(0, peak) == attempts[k].capability;
    assert Accepted(capacity, attempts, i) && Accepted(capacity, attempts, k);
  }

  lemma ReusingRun(capacity: nat, attempts: seq<Attempt>, peak: nat, i: nat, j: nat, k: nat)
    requires capacity >= 2 && i < j < k < |attempts|
    requires forall x :: 0 <= x < |attempts| ==> attempts[x].capability == Planned(peak, i, j, k, x)
    requires attempts[i].now < peak == attempts[j].now
    ensures EntriesAfter(capacity, attempts[..i]) == map[]
    ensures EntriesAfter(capacity, attempts[..k]) == map[1 := peak + 1]
  {
    var states := ReusingStates(capacity, attempts, peak, i, j, k);
    FollowedRun(capacity, attempts, states, i);
    FollowedRun(capacity, attempts, states, k);
  }

  lemma ReusingStates(capacity: nat, attempts: seq<Attempt>, peak: nat, i: nat, j: nat, k: nat)
    returns (states: seq<Entries>)
    requires capacity >= 2 && i < j < k < |attempts|
    requires forall x :: 0 <= x < |attempts| ==> attempts[x].capability == Planned(peak, i, j, k, x)
    requires attempts[i].now < peak == attempts[j].now
    ensures |states| == k + 1 && states[0] == states[i] == map[] && states[k] == map[1 := peak + 1]
    ensures forall x :: 0 <= x < k ==>
              Consumed(capacity, states[x], attempts[x].capability, attempts[x].now).0 == states[x + 1]
  {
    states := seq(k + 1, x requires 0 <= x < k + 1 => Expected(peak, i, j, x));
    forall x | 0 <= x < k
      ensures Consumed(capacity, states[x], attempts[x].capability, attempts[x].now).0 == states[x + 1]
    {
      ExpectedStep(capacity, peak, i, j, k, x, attempts[x].now);
    }
  }

  // ---------- tokens ----------

  /** A call: its token, the clock its preparation read, and the clock its commit read. */
  datatype Call = Call(token: Token, prepared: nat, committed: nat)

  /** The commits of some calls, in commit order; calls whose token does not verify never commit. */
  function Attempts(v: Verifier, calls: seq<Call>): seq<Attempt> {
    if calls == [] then []
    else
      var n := |calls| - 1;
      var before := Attempts(v, calls[..n]);
      match VerifyForReplay(v, calls[n].token, calls[n].prepared)
      case Ok(verified) => before + [Attempt(verified, calls[n].committed)]
      case Err(_) => before
  }

  /** What verification makes of claims does not depend on when it looks at them. */
  ghost predicate FromClaims(v: Verifier, c: Verified) {
    c.validFrom == SatSub(c.claims.issuedAt, v.clockSkew)
    && c.replayExpiresAt == Saturated(c.claims.expiresAt + v.clockSkew)
  }

  ghost predicate Nondecreasing(attempts: seq<Attempt>) {
    forall i, j :: 0 <= i < j < |attempts| ==> attempts[i].now <= attempts[j].now
  }

  /** No claims are accepted twice. */
  ghost predicate ClaimsUsedOnce(capacity: nat, attempts: seq<Attempt>) {
    forall i, k :: 0 <= i < k < |attempts| && Accepted(capacity, attempts, i) && Accepted(capacity, attempts, k)
                   ==> attempts[i].capability.claims != attempts[k].capability.claims
  }

  ghost function Readings(attempts: seq<Attempt>): (r: seq<nat>)
    ensures |r| == |attempts| && forall i :: 0 <= i < |r| ==> r[i] == attempts[i].now
  {
    seq(|attempts|, i requires 0 <= i < |attempts| => attempts[i].now)
  }

  lemma WithoutPeak(v: Verifier, capacity: nat, attempts: seq<Attempt>)
    requires forall i :: 0 <= i < |attempts| ==> FromClaims(v, attempts[i].capability)
    requires capacity <= 1 || !HasPeak(Readings(attempts))
    ensures ClaimsUsedOnce(capacity, attempts)
  {
    assert Over(attempts, Readings(attempts));
    forall i, k | 0 <= i < k < |attempts| && Accepted(capacity, attempts, i) && Accepted(capacity, attempts, k)
                  && attempts[i].capability.claims == attempts[k].capability.claims
      ensures false
    {
      assert FromClaims(v, attempts[i].capability) && FromClaims(v, attempts[k].capability);
      ReuseMeansPeak(capacity, attempts, Readings(attempts), i, k);
    }
  }

  lemma {:induction false} AttemptsFromClaims(v: Verifier, calls: seq<Call>)
    ensures forall i :: 0 <= i < |Attempts(v, calls)| ==> FromClaims(v, Attempts(v, calls)[i].capability)
    ensures (forall i, j :: 0 <= i < j < |calls| ==> calls[i].committed <= calls[j].committed) ==>
              Nondecreasing(Attempts(v, calls))
              && forall i :: 0 <= i < |Attempts(v, calls)| ==> Attempts(v, calls)[i].now <= calls[|calls| - 1].committed
  {
    if calls != [] {
      AttemptsFromClaims(v, calls[..|calls| - 1]);
    }
  }

  /**
   Whatever tokens are presented and whatever clocks their preparations read: if the commits read clocks that
   do not go back, no claims are accepted twice.
   */
  lemma TokensUsedOnce(v: Verifier, capacity: nat, calls: seq<Call>)
    requires forall i, j :: 0 <= i < j < |calls| ==> calls[i].committed <= calls[j].committed
    ensures ClaimsUsedOnce(capacity, Attempts(v, calls))
  {
    AttemptsFromClaims(v, calls);
    WithoutPeak(v, capacity, Attempts(v, calls));
  }

  // ---------- the accepted capabilities as a list ----------

  function AcceptedList(capacity: nat, attempts: seq<Attempt>): seq<Verified> {
    if attempts == [] then []
    else
      var n := |attempts| - 1;
      AcceptedList(capacity, attempts[..n])
      + if Accepted(capacity, attempts, n) then [attempts[n].capability] else []
  }

  lemma OneMore(capacity: nat, attempts: seq<Attempt>, a: Attempt)
    ensures var (entries, r) := Consumed(capacity, EntriesAfter(capacity, attempts), a.capability, a.now);
            && EntriesAfter(capacity, attempts + [a]) == entries
            && AcceptedList(capacity, attempts + [a])
               == AcceptedList(capacity, attempts) + if r.Ok? then [a.capability] else []
  {
    assert (attempts + [a])[..|attempts|] == attempts;
  }

  lemma {:induction false} WhereAccepted(capacity: nat, attempts: seq<Attempt>, a: nat) returns (i: nat)
    requires a < |AcceptedList(capacity, attempts)|
    ensures i < |attempts| && Accepted(capacity, attempts, i)
    ensures attempts[i].capability == AcceptedList(capacity, attempts)[a]
  {
    var n := |attempts| - 1;
    var before := AcceptedList(capacity, attempts[..n]);
    if a < |before| {
      i := WhereAccepted(capacity, attempts[..n], a);
      assert attempts[..n][..i] == attempts[..i];
    } else {
      i := n;
    }
  }

  lemma {:induction false} ListUsedOnce(capacity: nat, attempts: seq<Attempt>, a: nat, b: nat)
    requires a < b < |AcceptedList(capacity, attempts)| && ClaimsUsedOnce(capacity, attempts)
    ensures AcceptedList(capacity, attempts)[a].claims != AcceptedList(capacity, attempts)[b].claims
  {
    var n := |attempts| - 1;
    var before := AcceptedList(capacity, attempts[..n]);
    if b < |before| {
      assert forall i :: 0 <= i < n ==> attempts[..n][..i] == attempts[..i];
      ListUsedOnce(capacity, attempts[..n], a, b);
    } else {
      var i := WhereAccepted(capacity, attempts[..n], a);
      assert attempts[..n][..i] == attempts[..i];
    }
  }
}
