/**
 The replay cache of the edge: a map from used nonces to their expiries plus an expiry heap, and the
 verification of a capability against the clock. Nonces are the 16 nonce bytes read as a number; the
 outcome of signature checking and decoding a token is part of the token.
 */
module ReplayCache {
  import opened Prelude

  type Nonce = nat
  type Entries = map<Nonce, nat>
  type Heap = multiset<(nat, Nonce)>

  datatype Claims = Claims(audience: string, issuedAt: nat, expiresAt: nat, nonce: Nonce)
  datatype Token = Undecodable | BadSignature | Signed(claims: Claims)
  datatype Verifier = Verifier(audience: string, maxLifetime: nat, clockSkew: nat)
  datatype Verified = Verified(claims: Claims, validFrom: nat, replayExpiresAt: nat)
  datatype CapabilityError =
    | Malformed | InvalidSignature | InvalidLifetime | LifetimeTooLong
    | NotYetValid | Expired | AudienceMismatch | Replay

  // ---------- verification ----------

  function VerifyForReplay(v: Verifier, token: Token, now: nat): Result<Verified, CapabilityError> {
    match token
    case Undecodable => Err(Malformed)
    case BadSignature => Err(InvalidSignature)
    case Signed(claims) =>
      if claims.audience != v.audience then Err(AudienceMismatch)
      else if claims.issuedAt > Saturated(now + v.clockSkew) then Err(NotYetValid)
      else if claims.expiresAt <= SatSub(now, v.clockSkew) then Err(Expired)
      else if claims.expiresAt <= claims.issuedAt then Err(InvalidLifetime)
      else if claims.expiresAt - claims.issuedAt > v.maxLifetime then Err(LifetimeTooLong)
      else Ok(Verified(claims, SatSub(claims.issuedAt, v.clockSkew), Saturated(claims.expiresAt + v.clockSkew)))
  }

  /** How long a capability verified now can stay in the cache: the retention the capacity rule budgets. */
  lemma RetentionBound(v: Verifier, token: Token, now: nat)
    requires VerifyForReplay(v, token, now).Ok?
    ensures VerifyForReplay(v, token, now).value.replayExpiresAt <= now + v.maxLifetime + 2 * v.clockSkew
  {
  }

  /**
   Verification accepts well-formed claims exactly during the seconds their skewed lifetime covers, and the
   commit-time check agrees with it on those seconds; the last second a clock can read is the one exception.
   */
  lemma AcceptedExactlyWhile(v: Verifier, claims: Claims, now: nat)
    requires claims.issuedAt <= U64_MAX && claims.expiresAt <= U64_MAX && now <= U64_MAX
    ensures VerifyForReplay(v, Signed(claims), now).Ok?
       <==> claims.audience == v.audience && claims.issuedAt < claims.expiresAt <= claims.issuedAt + v.maxLifetime
            && SatSub(claims.issuedAt, v.clockSkew) <= now < claims.expiresAt + v.clockSkew
    ensures VerifyForReplay(v, Signed(claims), now).Ok? ==>
              forall capacity: nat, entries: Entries ::
                var r := Consumed(capacity, entries, VerifyForReplay(v, Signed(claims), now).value, now).1;
                if now < U64_MAX then r == Ok(claims) || r == Err(Replay) else r == Err(Expired)
  {
  }

  /** Which refusal each fault gets, in this order. */
  lemma RefusedExactlyWhen(v: Verifier, claims: Claims, now: nat)
    requires claims.issuedAt <= U64_MAX
    ensures VerifyForReplay(v, Undecodable, now) == Err(Malformed)
    ensures VerifyForReplay(v, BadSignature, now) == Err(InvalidSignature)
    ensures var r := VerifyForReplay(v, Signed(claims), now);
            if claims.audience != v.audience then r == Err(AudienceMismatch)
            else if claims.issuedAt > now + v.clockSkew then r == Err(NotYetValid)
            else if claims.expiresAt == 0 || claims.expiresAt + v.clockSkew <= now then r == Err(Expired)
            else if claims.expiresAt <= claims.issuedAt then r == Err(InvalidLifetime)
            else if claims.expiresAt > claims.issuedAt + v.maxLifetime then r == Err(LifetimeTooLong)
            else r.Ok?
  {
  }

  // ---------- the cache on values ----------

  function Live(entries: Entries, now: nat): Entries {
    map n | n in entries && entries[n] > now :: entries[n]
  }

  /** One insertion: what the cache holds afterwards, and whether the nonce was accepted. */
  function Inserted(capacity: nat, entries: Entries, nonce: Nonce, expiresAt: nat, now: nat): (Entries, bool) {
    if nonce in entries && entries[nonce] > now then (entries, false)
    else if expiresAt <= now || |Live(entries, now)| >= capacity then (Live(entries, now), false)
    else (Live(entries, now)[nonce := expiresAt], true)
  }

  function Consumed(capacity: nat, entries: Entries, v: Verified, now: nat)
    : (Entries, Result<Claims, CapabilityError>)
  {
    if now < v.validFrom then (entries, Err(NotYetValid))
    else if v.replayExpiresAt <= now then (entries, Err(Expired))
    else
      var (after, ok) := Inserted(capacity, entries, v.claims.nonce, v.replayExpiresAt, now);
      (after, if ok then Ok(v.claims) else Err(Replay))
  }

  /** A live nonce is never dropped and never accepted again, whatever the clock does in between. */
  lemma LiveIsKept(capacity: nat, entries: Entries, nonce: Nonce, expiresAt: nat, now: nat, kept: Nonce)
    requires kept in entries && entries[kept] > now
    ensures var (after, ok) := Inserted(capacity, entries, nonce, expiresAt, now);
            kept in after && after[kept] == entries[kept] && (nonce == kept ==> !ok)
  {
  }

  lemma InsertedSize(capacity: nat, entries: Entries, nonce: Nonce, expiresAt: nat, now: nat)
    requires |entries| <= capacity
    ensures |Inserted(capacity, entries, nonce, expiresAt, now).0| <= capacity
  {
    LiveSize(entries, now);
  }

  lemma LiveSize(entries: Entries, now: nat)
    ensures |Live(entries, now)| <= |entries|
  {
    SubsetSize(Live(entries, now).Keys, entries.Keys);
  }

  // ---------- the cache as the program keeps it ----------

  /** The heap holds exactly the pairs of the map, once each. */
  ghost predicate Agree(entries: Entries, heap: Heap) {
    forall e, n :: heap[(e, n)] == if n in entries && entries[n] == e then 1 else 0
  }

  predicate HeapLe(a: (nat, Nonce), b: (nat, Nonce)) {
    a.0 < b.0 || (a.0 == b.0 && a.1 <= b.1)
  }

  predicate IsLeast(m: (nat, Nonce), heap: Heap) {
    m in heap && forall x :: x in heap ==> HeapLe(m, x)
  }

  lemma {:induction false} MinimumExists(heap: Heap)
    requires heap != multiset{}
    ensures exists m :: IsLeast(m, heap)
    decreases |heap|
  {
    var a :| a in heap;
    var rest := heap - multiset{a};
    assert forall x :: x in heap ==> x == a || x in rest;
    if rest == multiset{} {
      assert IsLeast(a, heap);
    } else {
      assert |rest| < |heap|;
      MinimumExists(rest);
      var m :| IsLeast(m, rest);
      assert IsLeast(if HeapLe(a, m) then a else m, heap);
    }
  }

  class Cache {
    const capacity: nat
    var entries: Entries
    var expirations: Heap

    ghost predicate Valid()
      reads this
    {
      1 <= capacity <= 1_000_000 && |entries| <= capacity && Agree(entries, expirations)
    }

    constructor (capacity: nat)
      requires 1 <= capacity <= 1_000_000
      ensures Valid() && this.capacity == capacity && entries == map[]
    {
      this.capacity := capacity;
      entries := map[];
      expirations := multiset{};
    }

    method Insert(nonce: Nonce, expiresAt: nat, now: nat) returns (ok: bool)
      requires Valid()
      modifies this
      ensures Valid()
      ensures (entries, ok) == Inserted(capacity, old(entries), nonce, expiresAt, now)
    {
      if nonce in entries && entries[nonce] > now {
        return false;
      }
      InsertedSize(capacity, entries, nonce, expiresAt, now);
      Prune(now);
      if expiresAt <= now || nonce in entries {
        return false;
      }
      if |entries| >= capacity {
        return false;
      }
      entries := entries[nonce := expiresAt];
      expirations := expirations + multiset{(expiresAt, nonce)};
      ok := true;
    }

    method Consume(verified: Verified, now: nat) returns (r: Result<Claims, CapabilityError>)
      requires Valid()
      modifies this
      ensures Valid()
      ensures (entries, r) == Consumed(capacity, old(entries), verified, now)
    {
      if now < verified.validFrom {
        return Err(NotYetValid);
      }
      if verified.replayExpiresAt <= now {
        return Err(Expired);
      }
      var ok := Insert(verified.claims.nonce, verified.replayExpiresAt, now);
      if !ok {
        return Err(Replay);
      }
      r := Ok(verified.claims);
    }

    /** Pops expired heap entries, each of which also removes its map entry. */
    method Prune(now: nat)
      requires Valid()
      modifies this
      ensures Valid()
      ensures entries == Live(old(entries), now)
    {
      LiveSize(entries, now);
      while expirations != multiset{}
        invariant Agree(entries, expirations)
        invariant Live(entries, now) == Live(old(entries), now)
        decreases |expirations|
      {
        MinimumExists(expirations);
        var least :| least in expirations && IsLeast(least, expirations);
        if least.0 > now {
          NothingExpired(entries, expirations, least, now);
          return;
        }
        PopExpired(entries, expirations, least, now);
        expirations := expirations - multiset{least};
        if least.1 in entries && entries[least.1] == least.0 {
          entries := entries - {least.1};
        }
      }
      EmptyHeap(entries, expirations);
    }
  }

  method NewCache(capacity: nat) returns (r: Result<Cache, CapabilityError>)
    ensures r.Err? <==> capacity == 0 || capacity > 1_000_000
    ensures r.Err? ==> r.error == Malformed
    ensures r.Ok? ==> fresh(r.value) && r.value.Valid() && r.value.capacity == capacity && r.value.entries == map[]
  {
    if capacity == 0 || capacity > 1_000_000 {
      return Err(Malformed);
    }
    var cache := new Cache(capacity);
    r := Ok(cache);
  }

  lemma EmptyHeap(entries: Entries, heap: Heap)
    requires Agree(entries, heap) && heap == multiset{}
    ensures entries == map[]
  {
    assert forall n :: n in entries ==> heap[(entries[n], n)] == 1;
  }

  lemma PopExpired(entries: Entries, heap: Heap, least: (nat, Nonce), now: nat)
    requires Agree(entries, heap) && least in heap && least.0 <= now
    ensures least.1 in entries && entries[least.1] == least.0
    ensures Agree(entries - {least.1}, heap - multiset{least})
    ensures Live(entries - {least.1}, now) == Live(entries, now)
  {
    assert heap[(least.0, least.1)] > 0;
  }

  lemma NothingExpired(entries: Entries, heap: Heap, least: (nat, Nonce), now: nat)
    requires Agree(entries, heap) && least.0 > now && IsLeast(least, heap)
    ensures Live(entries, now) == entries
  {
    forall n | n in entries
      ensures entries[n] > now
    {
      assert heap[(entries[n], n)] == 1;
    }
  }
}
