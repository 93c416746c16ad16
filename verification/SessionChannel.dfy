/**
 The session ciphers: a sender that numbers its frames, and a receiver that checks the number against
 its replay state, opens the frame, and commits the new replay state only after authentication.

 The AEAD under one session key is a pair of functions of the counter nonce.
 */
module SessionChannel {
  import opened Prelude
  import opened ByteCodec
  import opened ReplayWindow

  const AEAD_NONCE_LIMIT: u64 := 0xFFFF_FFFF

  datatype Aead = Aead(seal: (u64, Bytes) -> Bytes, open: (u64, Bytes) -> Option<Bytes>)

  datatype CipherError = NonceLimit | TooShort | BadPrefix | Replay | AuthenticationFailed

  // ---------- the nonce prefix ----------

  function NonceBytes(nonce: u64): (b: Bytes)
    ensures |b| == 12
  {
    [0, 0, 0, 0] + BigEndian(nonce, 8)
  }

  function NonceCounter(prefix: Bytes): Result<u64, CipherError> {
    if |prefix| < 12 then Err(TooShort)
    else if prefix[..4] != [0, 0, 0, 0] then Err(BadPrefix)
    else
      FromBigEndianBound(prefix[4..12]);
      EightBytes();
      Ok(FromBigEndian(prefix[4..12]))
  }

  /** The receiver reads back the counter the sender wrote. */
  lemma NonceRoundTrip(nonce: u64)
    ensures NonceCounter(NonceBytes(nonce)) == Ok(nonce)
  {
    var b := NonceBytes(nonce);
    assert b[4..12] == BigEndian(nonce, 8);
    EightBytes();
    BigEndianRoundTrip(nonce, 8);
  }

  /** Only the sender's own form of a counter is read as one. */
  lemma NonceExactlyWhen(prefix: Bytes, nonce: u64)
    requires |prefix| == 12
    ensures NonceCounter(prefix) == Ok(nonce) <==> prefix == NonceBytes(nonce)
    ensures NonceCounter(prefix).Err? ==> NonceCounter(prefix) == Err(BadPrefix) && prefix[..4] != [0, 0, 0, 0]
  {
    NonceRoundTrip(nonce);
    FromBigEndianRoundTrip(prefix[4..12]);
    assert prefix == prefix[..4] + prefix[4..12];
  }

  // ---------- the receiver on values ----------

  datatype Receiver = Strict(last: Option<u64>) | Windowed(seen: set<nat>, size: nat)

  ghost predicate Admits(r: Receiver, nonce: u64) {
    match r
    case Strict(last) => last.Some? ==> nonce > last.value
    case Windowed(seen, size) => Fresh(seen, size, nonce)
  }

  ghost function Advance(r: Receiver, nonce: u64): Receiver {
    match r
    case Strict(_) => Strict(Some(nonce))
    case Windowed(seen, size) => Windowed(seen + {nonce}, size)
  }

  ghost function Receive(aead: Aead, r: Receiver, frame: Bytes): (Receiver, Result<Bytes, CipherError>) {
    if |frame| < 12 then (r, Err(TooShort))
    else
      match NonceCounter(frame[..12])
      case Err(e) => (r, Err(e))
      case Ok(nonce) =>
        if !Admits(r, nonce) then (r, Err(Replay))
        else
          match aead.open(nonce, frame[12..])
          case None => (r, Err(AuthenticationFailed))
          case Some(plaintext) => (Advance(r, nonce), Ok(plaintext))
  }

  /**
   What the receiver makes of every frame: one that carries a counter in the sender's form is refused as a replay
   if the replay state does not admit it, refused if it does not authenticate, and otherwise delivered, and
   only then does the state change. Any other frame is too short or has a bad prefix.
   */
  lemma ReceivedExactlyWhen(aead: Aead, r: Receiver, frame: Bytes)
    ensures |frame| < 12 ==> Receive(aead, r, frame) == (r, Err(TooShort))
    ensures |frame| >= 12 && (forall n: u64 :: frame[..12] != NonceBytes(n)) ==>
              Receive(aead, r, frame) == (r, Err(BadPrefix))
    ensures forall n: u64 :: |frame| >= 12 && frame[..12] == NonceBytes(n) ==>
              Receive(aead, r, frame)
              == if !Admits(r, n) then (r, Err(Replay))
                 else if aead.open(n, frame[12..]).None? then (r, Err(AuthenticationFailed))
                 else (Advance(r, n), Ok(aead.open(n, frame[12..]).value))
  {
    if |frame| >= 12 {
      if NonceCounter(frame[..12]).Ok? {
        NonceExactlyWhen(frame[..12], NonceCounter(frame[..12]).value);
      } else {
        NonceExactlyWhen(frame[..12], 0);
      }
      forall n: u64 | frame[..12] == NonceBytes(n)
        ensures NonceCounter(frame[..12]) == Ok(n)
      {
        NonceExactlyWhen(frame[..12], n);
      }
    }
  }

  // ---------- the ciphers as the program keeps them ----------

  class SendCipher {
    const aead: Aead
    var nonce: u64

    constructor (aead: Aead)
      ensures this.aead == aead && nonce == 0
    {
      this.aead := aead;
      nonce := 0;
    }

    method Encrypt(plaintext: Bytes) returns (r: Result<Bytes, CipherError>)
      modifies this
      ensures old(nonce) >= AEAD_NONCE_LIMIT ==> r == Err(NonceLimit) && nonce == old(nonce)
      ensures old(nonce) < AEAD_NONCE_LIMIT
              ==> r == Ok(NonceBytes(old(nonce)) + aead.seal(old(nonce), plaintext)) && nonce == old(nonce) + 1
    {
      if nonce >= AEAD_NONCE_LIMIT {
        return Err(NonceLimit);
      }
      var framed := NonceBytes(nonce) + aead.seal(nonce, plaintext);
      nonce := nonce + 1;
      r := Ok(framed);
    }
  }

  class ReceiveCipher {
    const aead: Aead
    var last: Option<u64>
    var window: Window?

    /** The replay state, strict unless a window is present. */
    ghost function State(): Receiver
      reads this, window
    {
      if window == null then Strict(last) else Windowed(window.seen, window.size)
    }

    ghost predicate Valid()
      reads this, window
    {
      window != null ==> window.Valid()
    }

    constructor (aead: Aead)
      ensures Valid() && this.aead == aead && State() == Strict(None)
    {
      this.aead := aead;
      last := None;
      window := null;
    }

    constructor WithReplayWindow(aead: Aead, size: nat)
      ensures Valid() && this.aead == aead && State().Windowed? && State().seen == {}
      ensures IsWidth(size, State().size)
    {
      this.aead := aead;
      last := None;
      window := new Window(size);
    }

    method Decrypt(frame: Bytes) returns (r: Result<Bytes, CipherError>)
      requires Valid()
      modifies this
      ensures Valid()
      ensures (State(), r) == Receive(aead, old(State()), frame)
    {
      if |frame| < 12 {
        return Err(TooShort);
      }
      var counter := NonceCounter(frame[..12]);
      if counter.Err? {
        return Err(counter.error);
      }
      var candidate: Window? := null;
      if window == null {
        if last.Some? && counter.value <= last.value {
          return Err(Replay);
        }
      } else {
        var copy := window.Clone();
        var accepted := copy.CheckAndInsert(counter.value);
        if !accepted {
          return Err(Replay);
        }
        candidate := copy;
      }
      var plaintext := aead.open(counter.value, frame[12..]);
      if plaintext.None? {
        return Err(AuthenticationFailed);
      }
      if window == null {
        last := Some(counter.value);
      } else {
        window := candidate;
      }
      r := Ok(plaintext.value);
    }
  }

  // ---------- whole runs ----------

  ghost function Final(aead: Aead, r: Receiver, frames: seq<Bytes>): Receiver
    decreases frames
  {
    if frames == [] then r else Final(aead, Receive(aead, r, frames[0]).0, frames[1..])
  }

  /** A delivery: the frame's counter and the plaintext handed to the application. */
  datatype Delivery = Delivery(nonce: u64, plaintext: Bytes)

  ghost function Deliveries(aead: Aead, r: Receiver, frames: seq<Bytes>): seq<Delivery>
    decreases frames
  {
    if frames == [] then []
    else
      var (next, result) := Receive(aead, r, frames[0]);
      var rest := Deliveries(aead, next, frames[1..]);
      if result.Ok? then [Delivery(NonceCounter(frames[0][..12]).value, result.value)] + rest else rest
  }

  /** The frames of a run that were not rejected. */
  ghost function Kept(aead: Aead, r: Receiver, frames: seq<Bytes>): seq<Bytes>
    decreases frames
  {
    if frames == [] then []
    else
      var (next, result) := Receive(aead, r, frames[0]);
      if result.Ok? then [frames[0]] + Kept(aead, next, frames[1..]) else Kept(aead, next, frames[1..])
  }

  /** Erasing every rejected frame from a run changes neither the deliveries nor the final state. */
  lemma {:induction false} RejectedFramesLeaveNoTrace(aead: Aead, r: Receiver, frames: seq<Bytes>)
    ensures Deliveries(aead, r, Kept(aead, r, frames)) == Deliveries(aead, r, frames)
    ensures Final(aead, r, Kept(aead, r, frames)) == Final(aead, r, frames)
    decreases frames
  {
    if frames != [] {
      var (next, result) := Receive(aead, r, frames[0]);
      RejectedFramesLeaveNoTrace(aead, next, frames[1..]);
      if result.Ok? {
        assert Kept(aead, r, frames)[1..] == Kept(aead, next, frames[1..]);
      }
    }
  }

  /** The receiver can no longer deliver this nonce. */
  ghost predicate Spent(r: Receiver, nonce: u64) {
    match r
    case Strict(last) => last.Some? && nonce <= last.value
    case Windowed(seen, _) => nonce in seen
  }

  lemma SpentStays(aead: Aead, r: Receiver, frame: Bytes, nonce: u64)
    ensures Spent(r, nonce) ==> !Admits(r, nonce) && Spent(Receive(aead, r, frame).0, nonce)
    ensures Spent(Advance(r, nonce), nonce)
  {
  }

  lemma {:induction false} SpentIsNotDelivered(aead: Aead, r: Receiver, frames: seq<Bytes>, nonce: u64)
    requires Spent(r, nonce)
    ensures forall i :: 0 <= i < |Deliveries(aead, r, frames)| ==> Deliveries(aead, r, frames)[i].nonce != nonce
    ensures r.Strict? ==>
              forall i :: 0 <= i < |Deliveries(aead, r, frames)| ==> Deliveries(aead, r, frames)[i].nonce > nonce
    decreases frames
  {
    if frames != [] {
      SpentStays(aead, r, frames[0], nonce);
      SpentIsNotDelivered(aead, Receive(aead, r, frames[0]).0, frames[1..], nonce);
    }
  }

  ghost predicate Opens(aead: Aead, frame: Bytes) {
    |frame| >= 12 && NonceCounter(frame[..12]).Ok?
    && aead.open(NonceCounter(frame[..12]).value, frame[12..]).Some?
  }

  ghost predicate Distinct(ds: seq<Delivery>) {
    forall i, j :: 0 <= i < j < |ds| ==> ds[i].nonce != ds[j].nonce
  }

  ghost predicate Increasing(ds: seq<Delivery>) {
    forall i, j :: 0 <= i < j < |ds| ==> ds[i].nonce < ds[j].nonce
  }

  lemma DeliveriesStep(aead: Aead, r: Receiver, frames: seq<Bytes>)
    requires frames != []
    ensures var (next, result) := Receive(aead, r, frames[0]);
            var rest := Deliveries(aead, next, frames[1..]);
            && (result.Err? ==> next == r && Deliveries(aead, r, frames) == rest)
            && (result.Ok? ==> var nonce := NonceCounter(frames[0][..12]).value;
                  && Opens(aead, frames[0]) && next == Advance(r, nonce)
                  && aead.open(nonce, frames[0][12..]) == Some(result.value)
                  && Deliveries(aead, r, frames) == [Delivery(nonce, result.value)] + rest)
  {
  }

  /**
   Whatever frames arrive, in whatever order and however often: no counter is delivered twice, and a
   strict receiver delivers in increasing order.
   */
  lemma {:induction false} DeliveredAtMostOnce(aead: Aead, r: Receiver, frames: seq<Bytes>)
    ensures Distinct(Deliveries(aead, r, frames))
    ensures r.Strict? ==> Increasing(Deliveries(aead, r, frames))
    decreases frames
  {
    if frames != [] {
      var (next, result) := Receive(aead, r, frames[0]);
      DeliveriesStep(aead, r, frames);
      DeliveredAtMostOnce(aead, next, frames[1..]);
      if result.Ok? {
        var nonce := NonceCounter(frames[0][..12]).value;
        SpentStays(aead, r, frames[0], nonce);
        SpentIsNotDelivered(aead, next, frames[1..], nonce);
      }
    }
  }

  // ---------- sender and receiver together ----------

  /** Frames the sender produced for plaintexts, from a fresh cipher. */
  ghost function Frame(aead: Aead, sent: seq<Bytes>, n: nat): Bytes
    requires n < |sent| <= AEAD_NONCE_LIMIT
  {
    NonceBytes(n) + aead.seal(n, sent[n])
  }

  ghost predicate Correct(aead: Aead) {
    forall n: u64, p: Bytes :: aead.open(n, aead.seal(n, p)) == Some(p)
  }

  /** Ideal authentication: of the frames that arrive, only those the sender produced open. */
  ghost predicate Unforged(aead: Aead, sent: seq<Bytes>, frames: seq<Bytes>)
    requires |sent| <= AEAD_NONCE_LIMIT
  {
    forall i :: 0 <= i < |frames| && Opens(aead, frames[i]) ==>
      exists n :: 0 <= n < |sent| && frames[i] == Frame(aead, sent, n)
  }

  /** Against any schedule of arrivals, what is delivered under counter n is the n-th plaintext sent. */
  lemma {:induction false} DeliveriesWereSent(aead: Aead, r: Receiver, frames: seq<Bytes>, sent: seq<Bytes>)
    requires |sent| <= AEAD_NONCE_LIMIT && Correct(aead) && Unforged(aead, sent, frames)
    ensures forall d :: d in Deliveries(aead, r, frames) ==> d.nonce < |sent| && d.plaintext == sent[d.nonce]
    decreases frames
  {
    if frames != [] {
      var (next, result) := Receive(aead, r, frames[0]);
      DeliveriesStep(aead, r, frames);
      assert forall i :: 0 <= i < |frames[1..]| ==> frames[1..][i] == frames[i + 1];
      DeliveriesWereSent(aead, next, frames[1..], sent);
      if result.Ok? {
        var n :| 0 <= n < |sent| && frames[0] == Frame(aead, sent, n);
        FrameParts(aead, sent, n);
      }
    }
  }

  lemma FrameParts(aead: Aead, sent: seq<Bytes>, n: nat)
    requires n < |sent| <= AEAD_NONCE_LIMIT
    ensures var frame := Frame(aead, sent, n);
            |frame| >= 12 && NonceCounter(frame[..12]) == Ok(n) && frame[12..] == aead.seal(n, sent[n])
  {
    var frame := Frame(aead, sent, n);
    assert frame[..12] == NonceBytes(n);
    NonceRoundTrip(n);
  }

  /** A genuine frame whose counter the replay state admits is delivered, forged frames before it or not. */
  lemma GenuineFrameDelivered(aead: Aead, r: Receiver, sent: seq<Bytes>, n: nat)
    requires Correct(aead) && n < |sent| <= AEAD_NONCE_LIMIT && Admits(r, n)
    ensures Receive(aead, r, Frame(aead, sent, n)) == (Advance(r, n), Ok(sent[n]))
  {
    FrameParts(aead, sent, n);
  }

  ghost function Frames(aead: Aead, sent: seq<Bytes>, from: nat): seq<Bytes>
    requires from <= |sent| <= AEAD_NONCE_LIMIT
  {
    seq(|sent| - from, i requires 0 <= i < |sent| - from => Frame(aead, sent, from + i))
  }

  /** Undisturbed, a strict receiver delivers exactly what was sent, in order. */
  lemma {:induction false} InOrderDelivery(aead: Aead, r: Receiver, sent: seq<Bytes>, from: nat)
    requires Correct(aead) && from <= |sent| <= AEAD_NONCE_LIMIT
    requires r.Strict? && (r.last.Some? ==> r.last.value < from)
    ensures var ds := Deliveries(aead, r, Frames(aead, sent, from));
            |ds| == |sent| - from
            && forall i :: 0 <= i < |ds| ==> ds[i].nonce == from + i && ds[i].plaintext == sent[from + i]
    decreases |sent| - from
  {
    if from < |sent| {
      var frames := Frames(aead, sent, from);
      GenuineFrameDelivered(aead, r, sent, from);
      assert frames[0] == Frame(aead, sent, from);
      assert frames[1..] == Frames(aead, sent, from + 1);
      InOrderDelivery(aead, Advance(r, from), sent, from + 1);
      FrameParts(aead, sent, from);
    }
  }

  // ---------- the windowed receiver ----------

  /** The counter of a frame that opens. */
  ghost function Counter(frame: Bytes): u64
    requires |frame| >= 12 && NonceCounter(frame[..12]).Ok?
  {
    NonceCounter(frame[..12]).value
  }

  /** Before position i, nothing that opens is more than size ahead of counter n. */
  ghost predicate InReach(aead: Aead, frames: seq<Bytes>, i: nat, n: nat, size: nat)
    requires i <= |frames|
  {
    forall j :: 0 <= j < i && Opens(aead, frames[j]) ==> Counter(frames[j]) <= n + size
  }

  /** A frame that arrives in reach is delivered, now or before. */
  lemma {:induction false} ReachedIsDelivered(
    aead: Aead, r: Receiver, frames: seq<Bytes>, sent: seq<Bytes>, n: nat, i: nat)
    requires Correct(aead) && n < |sent| <= AEAD_NONCE_LIMIT && r.Windowed?
    requires i < |frames| && frames[i] == Frame(aead, sent, n) && InReach(aead, frames, i, n, r.size)
    requires forall m :: m in r.seen ==> m <= n + r.size
    ensures n in r.seen || exists d :: d in Deliveries(aead, r, frames) && d.nonce == n
    decreases frames
  {
    var (next, result) := Receive(aead, r, frames[0]);
    DeliveriesStep(aead, r, frames);
    if i == 0 {
      FrameParts(aead, sent, n);
      if n !in r.seen {
        GenuineFrameDelivered(aead, r, sent, n);
        assert Delivery(n, sent[n]) == Deliveries(aead, r, frames)[0];
      }
    } else {
      assert forall j :: 0 <= j < |frames[1..]| ==> frames[1..][j] == frames[j + 1];
      ReachedIsDelivered(aead, next, frames[1..], sent, n, i - 1);
      if n in next.seen && n !in r.seen {
        assert Deliveries(aead, r, frames)[0].nonce == n;
      }
    }
  }

  /** Exactly one delivery carries counter n, and it is the n-th plaintext. */
  ghost predicate DeliveredOnce(ds: seq<Delivery>, sent: seq<Bytes>, n: nat)
    requires n < |sent|
  {
    exists i :: 0 <= i < |ds| && ds[i].nonce == n && ds[i].plaintext == sent[n]
                && forall j :: 0 <= j < |ds| && ds[j].nonce == n ==> j == i
  }

  /**
   Whatever is reordered, duplicated, dropped or forged: a sent frame that arrives once while nothing genuine
   before it is more than the width ahead is delivered exactly once, as it was sent.
   */
  lemma WindowedDelivery(aead: Aead, size: nat, frames: seq<Bytes>, sent: seq<Bytes>, n: nat, i: nat)
    requires |sent| <= AEAD_NONCE_LIMIT && Correct(aead) && Unforged(aead, sent, frames)
    requires n < |sent| && i < |frames| && frames[i] == Frame(aead, sent, n) && InReach(aead, frames, i, n, size)
    ensures DeliveredOnce(Deliveries(aead, Windowed({}, size), frames), sent, n)
  {
    var r := Windowed({}, size);
    var ds := Deliveries(aead, r, frames);
    ReachedIsDelivered(aead, r, frames, sent, n, i);
    var d :| d in ds && d.nonce == n;
    var k :| 0 <= k < |ds| && ds[k] == d;
    DeliveriesWereSent(aead, r, frames, sent);
    DeliveredAtMostOnce(aead, r, frames);
  }

  /** The reach is exact: the first arrival of a frame, coming too late, is refused for good. */
  lemma {:induction false} LateIsNeverDelivered(aead: Aead, r: Receiver, frames: seq<Bytes>, n: nat)
    requires r.Windowed? && n !in r.seen && exists m :: m in r.seen && m > n + r.size
    ensures forall d :: d in Deliveries(aead, r, frames) ==> d.nonce != n
    decreases frames
  {
    if frames != [] {
      var (next, result) := Receive(aead, r, frames[0]);
      DeliveriesStep(aead, r, frames);
      LateIsNeverDelivered(aead, next, frames[1..], n);
    }
  }
}
