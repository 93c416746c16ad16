/**
 Rotating pre-authentication cookies: a keyed tag over the peer's address and the time epoch, under a
 current and a previous secret that rotate with the epoch.
 */
module Cookie {
  import opened Prelude
  import opened ByteCodec

  const EPOCH_SECS := 30
  const TAG_BYTES := 32

  /** A socket address: the octets are 4 for IPv4 and 16 for IPv6. */
  datatype Peer = V4(octets: Bytes, port: u16) | V6(octets: Bytes, port: u16)

  ghost predicate ValidPeer(p: Peer) {
    |p.octets| == if p.V4? then 4 else 16
  }

  function Message(p: Peer, epoch: u64): Bytes {
    Ascii("shph-preauth-cookie-v1")
    + ([if p.V4? then 4 else 6] + (p.octets + (BigEndian(p.port, 2) + BigEndian(epoch, 8))))
  }

  /** The message determines the address, the port and the epoch. */
  lemma MessageInjective(p: Peer, e: u64, q: Peer, f: u64)
    requires ValidPeer(p) && ValidPeer(q) && Message(p, e) == Message(q, f)
    ensures p == q && e == f
  {
    var x, y := BigEndian(p.port, 2) + BigEndian(e, 8), BigEndian(q.port, 2) + BigEndian(f, 8);
    var a, b := [if p.V4? then 4 else 6] + (p.octets + x), [if q.V4? then 4 else 6] + (q.octets + y);
    SplitEqual(Ascii("shph-preauth-cookie-v1"), a, Ascii("shph-preauth-cookie-v1"), b);
    SplitEqual([if p.V4? then 4 else 6], p.octets + x, [if q.V4? then 4 else 6], q.octets + y);
    assert p.V4? == q.V4?;
    SplitEqual(p.octets, x, q.octets, y);
    SplitEqual(BigEndian(p.port, 2), BigEndian(e, 8), BigEndian(q.port, 2), BigEndian(f, 8));
    assert Pow256(2) == 65536;
    BigEndianInjective(p.port, q.port, 2);
    EightBytes();
    BigEndianInjective(e, f, 8);
  }

  // ---------- the authority ----------

  type Hmac = (Bytes, Bytes) -> Bytes

  datatype State = State(current: Bytes, previous: Bytes, epoch: u64)

  datatype CookieError = ClockBeforeEpoch | NoRandomness

  /** What the system supplies to one call: the clock in seconds and a fresh secret, or their failures. */
  datatype Supply = Supply(secs: Option<u64>, secret: Option<Bytes>)

  /** The state a call answers from; a secret is drawn only when the epoch has advanced. */
  function Rotated(s: State, supply: Supply): Result<State, CookieError> {
    if supply.secs.None? then Err(ClockBeforeEpoch)
    else if supply.secs.value / EPOCH_SECS <= s.epoch then Ok(s)
    else if supply.secret.None? then Err(NoRandomness)
    else Ok(State(supply.secret.value, s.current, supply.secs.value / EPOCH_SECS))
  }

  /**
   A call fails exactly when the clock cannot be read, or its epoch is new and no secret can be drawn. One that
   does not fail answers from the later of its own epoch and the authority's, and when that is new, from the
   fresh secret and the one it replaces.
   */
  lemma RotatedExactlyWhen(s: State, supply: Supply)
    ensures Rotated(s, supply) == Err(ClockBeforeEpoch) <==> supply.secs.None?
    ensures Rotated(s, supply) == Err(NoRandomness)
       <==> supply.secs.Some? && supply.secs.value / EPOCH_SECS > s.epoch && supply.secret.None?
    ensures Rotated(s, supply).Ok? ==>
              var t, now := Rotated(s, supply).value, supply.secs.value / EPOCH_SECS;
              && t.epoch == (if now > s.epoch then now else s.epoch)
              && (t.epoch == s.epoch ==> t == s)
              && (t.epoch > s.epoch ==> supply.secret == Some(t.current) && t.previous == s.current)
  {
  }

  /** A call that fails leaves the state as it was. */
  function Next(s: State, supply: Supply): State {
    match Rotated(s, supply)
    case Ok(t) => t
    case Err(_) => s
  }

  function Tag(hmac: Hmac, secret: Bytes, p: Peer, epoch: u64): Bytes {
    hmac(secret, Message(p, epoch))
  }

  predicate Accepts(hmac: Hmac, s: State, p: Peer, epoch: u64, cookie: Bytes) {
    |cookie| == TAG_BYTES
    && (cookie == Tag(hmac, s.current, p, epoch) || cookie == Tag(hmac, s.current, p, SatSub(epoch, 1))
        || cookie == Tag(hmac, s.previous, p, epoch) || cookie == Tag(hmac, s.previous, p, SatSub(epoch, 1)))
  }

  class Authority {
    const hmac: Hmac
    var current: Bytes
    var previous: Bytes
    var epoch: u64

    function View(): State
      reads this
    {
      State(current, previous, epoch)
    }

    constructor (hmac: Hmac, current: Bytes, previous: Bytes, epoch: u64)
      ensures this.hmac == hmac && View() == State(current, previous, epoch)
    {
      this.hmac := hmac;
      this.current, this.previous, this.epoch := current, previous, epoch;
    }

    method Rotate(supply: Supply) returns (r: Result<u64, CookieError>)
      modifies this
      ensures View() == Next(old(View()), supply)
      ensures Rotated(old(View()), supply).Err? ==> r == Err(Rotated(old(View()), supply).error)
      ensures Rotated(old(View()), supply).Ok? ==> r == Ok(supply.secs.value / EPOCH_SECS)
    {
      if supply.secs.None? {
        return Err(ClockBeforeEpoch);
      }
      var to := supply.secs.value / EPOCH_SECS;
      if to <= epoch {
        return Ok(to);
      }
      if supply.secret.None? {
        return Err(NoRandomness);
      }
      previous := current;
      current := supply.secret.value;
      epoch := to;
      r := Ok(to);
    }

    method Issue(p: Peer, supply: Supply) returns (r: Result<Bytes, CookieError>)
      modifies this
      ensures View() == Next(old(View()), supply)
      ensures Rotated(old(View()), supply).Err? ==> r == Err(Rotated(old(View()), supply).error)
      ensures Rotated(old(View()), supply).Ok? ==> r == Ok(Tag(hmac, current, p, supply.secs.value / EPOCH_SECS))
    {
      var now := Rotate(supply);
      if now.Err? {
        return Err(now.error);
      }
      r := Ok(Tag(hmac, current, p, now.value));
    }

    /** A cookie of the wrong length is refused before the clock is read, so it never rotates the secrets. */
    method Verify(p: Peer, cookie: Bytes, supply: Supply) returns (r: Result<bool, CookieError>)
      modifies this
      ensures |cookie| != TAG_BYTES ==> r == Ok(false) && View() == old(View())
      ensures |cookie| == TAG_BYTES ==>
                && View() == Next(old(View()), supply)
                && (Rotated(old(View()), supply).Err? ==> r == Err(Rotated(old(View()), supply).error))
                && (Rotated(old(View()), supply).Ok? ==>
                      r == Ok(Accepts(hmac, View(), p, supply.secs.value / EPOCH_SECS, cookie)))
    {
      if |cookie| != TAG_BYTES {
        return Ok(false);
      }
      var rotated := Rotate(supply);
      if rotated.Err? {
        return Err(rotated.error);
      }
      var now := rotated.value;
      var candidates := [(current, now), (current, SatSub(now, 1)), (previous, now), (previous, SatSub(now, 1))];
      var matched := false;
      for i := 0 to |candidates|
        invariant matched <==> exists k :: 0 <= k < i && cookie == Tag(hmac, candidates[k].0, p, candidates[k].1)
      {
        var expected := Tag(hmac, candidates[i].0, p, candidates[i].1);
        matched := matched || cookie == expected;
      }
      assert matched <==> cookie == Tag(hmac, candidates[0].0, p, candidates[0].1)
                          || cookie == Tag(hmac, candidates[1].0, p, candidates[1].1)
                          || cookie == Tag(hmac, candidates[2].0, p, candidates[2].1)
                          || cookie == Tag(hmac, candidates[3].0, p, candidates[3].1);
      r := Ok(matched);
    }
  }

  method NewAuthority(hmac: Hmac, current: Option<Bytes>, previous: Option<Bytes>, secs: Option<u64>)
    returns (r: Result<Authority, CookieError>)
    ensures current.None? || previous.None? ==> r == Err(NoRandomness)
    ensures current.Some? && previous.Some? && secs.None? ==> r == Err(ClockBeforeEpoch)
    ensures current.Some? && previous.Some? && secs.Some? ==>
              && r.Ok? && fresh(r.value) && r.value.hmac == hmac
              && r.value.View() == State(current.value, previous.value, secs.value / EPOCH_SECS)
  {
    if current.None? || previous.None? {
      return Err(NoRandomness);
    }
    if secs.None? {
      return Err(ClockBeforeEpoch);
    }
    var authority := new Authority(hmac, current.value, previous.value, secs.value / EPOCH_SECS);
    r := Ok(authority);
  }

  // ---------- whole runs ----------

  /** After any calls, failed ones included. */
  function After(s: State, calls: seq<Supply>): State {
    if calls == [] then s else Next(After(s, calls[..|calls| - 1]), calls[|calls| - 1])
  }

  /** The clocks that could be read are not before `from` and do not go back. */
  ghost predicate Nondecreasing(from: u64, calls: seq<Supply>) {
    && (forall i :: 0 <= i < |calls| && calls[i].secs.Some? ==> from <= calls[i].secs.value)
    && (forall i, j :: 0 <= i < j < |calls| && calls[i].secs.Some? && calls[j].secs.Some? ==>
          calls[i].secs.value <= calls[j].secs.value)
  }

  /** Tags are 32 bytes long, and those of the given secrets and messages do not collide. */
  ghost predicate Ideal(hmac: Hmac, tagged: set<(Bytes, Bytes)>) {
    && (forall k, m :: |hmac(k, m)| == TAG_BYTES)
    && (forall a, b :: a in tagged && b in tagged && hmac(a.0, a.1) == hmac(b.0, b.1) ==> a == b)
  }

  /** What a verification at epoch `now` in state t compares for a cookie issued to p in epoch e. */
  ghost function Compared(secret: Bytes, p: Peer, e: u64, t: State, q: Peer, now: u64): set<(Bytes, Bytes)> {
    {(secret, Message(p, e)), (t.current, Message(q, now)), (t.current, Message(q, SatSub(now, 1))),
     (t.previous, Message(q, now)), (t.previous, Message(q, SatSub(now, 1)))}
  }

  /** The issuing secret is current in its own epoch and previous in the next. */
  lemma {:induction false} SecretSurvives(s: State, calls: seq<Supply>, limit: u64)
    requires forall i :: 0 <= i < |calls| && calls[i].secs.Some? ==> calls[i].secs.value / EPOCH_SECS <= limit
    requires limit <= s.epoch + 1
    ensures var t := After(s, calls);
            if t.epoch == s.epoch then t.current == s.current else t.epoch == s.epoch + 1 && t.previous == s.current
  {
    if calls != [] {
      var n := |calls| - 1;
      SecretSurvives(s, calls[..n], limit);
      assert calls[n].secs.Some? ==> calls[n].secs.value / EPOCH_SECS <= limit;
    }
  }

  /**
   Under a clock that does not go back, a cookie that was issued is accepted by a verification that can
   answer exactly for the same address and port and in its own epoch and the next, whatever the authority
   was asked in between and whichever of those calls failed. The last call is the verification.
   */
  lemma CookieLifetime(hmac: Hmac, start: State, issue: Supply, s: State, p: Peer, calls: seq<Supply>, q: Peer)
    requires ValidPeer(p) && ValidPeer(q)
    requires Rotated(start, issue) == Ok(s) && start.epoch <= issue.secs.value / EPOCH_SECS
    requires Nondecreasing(issue.secs.value, calls)
    requires calls != [] && Rotated(After(s, calls[..|calls| - 1]), calls[|calls| - 1]).Ok?
    requires Ideal(hmac, Compared(s.current, p, issue.secs.value / EPOCH_SECS, After(s, calls), q, LastEpoch(calls)))
    ensures Accepts(hmac, After(s, calls), q, LastEpoch(calls), Tag(hmac, s.current, p, issue.secs.value / EPOCH_SECS))
       <==> p == q && LastEpoch(calls) <= issue.secs.value / EPOCH_SECS + 1
  {
    IssuedInOwnEpoch(start, issue);
    SecretInReach(s, issue.secs.value, calls);
    OnlyOwnMessage(hmac, s.current, p, s.epoch, After(s, calls), q, LastEpoch(calls));
  }

  /** Issuing under a clock that has not gone back leaves the authority in the cookie's own epoch. */
  lemma IssuedInOwnEpoch(start: State, issue: Supply)
    requires Rotated(start, issue).Ok?
    ensures Rotated(start, issue).value.epoch == issue.secs.value / EPOCH_SECS
       <==> start.epoch <= issue.secs.value / EPOCH_SECS
  {
  }

  /** The epoch the last call reads. */
  function LastEpoch(calls: seq<Supply>): u64
    requires calls != [] && calls[|calls| - 1].secs.Some?
  {
    calls[|calls| - 1].secs.value / EPOCH_SECS
  }

  lemma SecretInReach(s: State, from: u64, calls: seq<Supply>)
    requires calls != [] && calls[|calls| - 1].secs.Some?
    requires Nondecreasing(from, calls) && s.epoch == from / EPOCH_SECS
    ensures var t := After(s, calls);
            && s.epoch <= LastEpoch(calls)
            && (LastEpoch(calls) <= s.epoch + 1 ==> s.current == t.current || s.current == t.previous)
  {
    var last := calls[|calls| - 1].secs.value;
    assert forall i :: 0 <= i < |calls| && calls[i].secs.Some? ==> calls[i].secs.value <= last;
    if LastEpoch(calls) <= s.epoch + 1 {
      SecretSurvives(s, calls, LastEpoch(calls));
    }
  }

  lemma OnlyOwnMessage(hmac: Hmac, secret: Bytes, p: Peer, e: u64, t: State, q: Peer, now: u64)
    requires ValidPeer(p) && ValidPeer(q) && e <= now && Ideal(hmac, Compared(secret, p, e, t, q, now))
    ensures Accepts(hmac, t, q, now, Tag(hmac, secret, p, e))
       <==> p == q && (e == now || e == SatSub(now, 1)) && (secret == t.current || secret == t.previous)
  {
    var compared := Compared(secret, p, e, t, q, now);
    assert (secret, Message(p, e)) in compared
           && (t.current, Message(q, now)) in compared && (t.current, Message(q, SatSub(now, 1))) in compared
           && (t.previous, Message(q, now)) in compared && (t.previous, Message(q, SatSub(now, 1))) in compared;
    if Message(q, now) == Message(p, e) {
      MessageInjective(q, now, p, e);
    }
    if Message(q, SatSub(now, 1)) == Message(p, e) {
      MessageInjective(q, SatSub(now, 1), p, e);
    }
  }
}
