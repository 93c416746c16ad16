/**
 The hybrid handshake: hello construction, verification of the local material and of the peer's hello,
 the two halves of the post-quantum exchange, and key derivation.

 Base64 text is modelled by what it decodes to (None when it does not decode), keys by byte strings, and
 the cryptographic primitives by a record of functions with the laws the handshake relies on.
 */
module Handshake {
  import opened Prelude
  import opened ByteCodec
  import opened Transcript

  datatype Crypto = Crypto(
    dhPublic: Bytes -> Bytes,
    dh: (Bytes, Bytes) -> Bytes,
    signPublic: Bytes -> Bytes,
    sign: (Bytes, Bytes) -> Bytes,
    verify: (Bytes, Bytes, Bytes) -> bool,
    kemPublic: Bytes -> Bytes,
    encapsulate: (Bytes, Bytes) -> Option<(Bytes, Bytes)>,
    decapsulate: (Bytes, Bytes) -> Option<Bytes>,
    hash: Bytes -> Bytes,
    hkdf: (Bytes, Bytes) -> Bytes)

  /** X25519 agreement, Ed25519 correctness, ML-KEM-768 correctness, and the fixed sizes. */
  ghost predicate Lawful(c: Crypto) {
    && (forall a, b :: c.dh(a, c.dhPublic(b)) == c.dh(b, c.dhPublic(a)))
    && (forall a :: |c.dhPublic(a)| == 32)
    && (forall a, b :: |c.dh(a, b)| == 32)
    && (forall m :: |c.hash(m)| == 32)
    && (forall k :: |c.signPublic(k)| == 32)
    && (forall k, m :: c.verify(c.signPublic(k), m, c.sign(k, m)))
    && (forall k :: |c.kemPublic(k)| == ML_KEM_768_PUBLIC_KEY_BYTES)
    && (forall k, coins :: KemWorks(c, k, coins))
  }

  ghost predicate KemWorks(c: Crypto, k: Bytes, coins: Bytes) {
    match c.encapsulate(c.kemPublic(k), coins)
    case None => false
    case Some((ct, ss)) =>
      |ct| == ML_KEM_768_CIPHERTEXT_BYTES && |ss| == 32 && c.decapsulate(k, ct) == Some(ss)
  }

  /** The laws are consistent: these stand-ins meet them all. */
  lemma LawfulExists() returns (c: Crypto)
    ensures Lawful(c)
    ensures forall a, b :: c.dh(a, b)[0] == 1
    ensures forall a, i :: 0 <= i < 32 ==> c.dhPublic(a)[i] == if a == [0] then 0 else 1
  {
    c := Crypto(a => seq(32, _ => if a == [0] then 0 else 1), (a, b) => seq(32, _ => 1),
                k => seq(32, _ => 0), (k, m) => m, (k, m, s) => m == s,
                k => seq(ML_KEM_768_PUBLIC_KEY_BYTES, _ => 0),
                (k, coins) => Some((seq(ML_KEM_768_CIPHERTEXT_BYTES, _ => 0), seq(32, _ => 0))),
                (k, ct) => Some(seq(32, _ => 0)), m => seq(32, _ => 0), (ikm, salt) => ikm + salt);
  }

  type Encoded = Option<Bytes>

  datatype Hello = Hello(
    proto: Bytes, profile: Profile, identity: Encoded, signing: Encoded, pqc: Option<Encoded>,
    ciphertext: Option<Encoded>, ephemeral: Encoded, nonce: Encoded, timestamp: u64, sig: Encoded)

  datatype Identity = Identity(dhSecret: Bytes, signSecret: Bytes)

  datatype Material = Material(
    ephemeral: Bytes, nonce: Bytes, profile: Profile, kemSecret: Option<Bytes>, hello: Hello,
    pqShared: Option<Bytes>, pqCiphertext: Option<Bytes>)

  datatype Pin = Pin(identity: Bytes, signing: Bytes)

  datatype Session = Session(peerIdentity: Bytes, peerSigning: Bytes, sendKey: Bytes, recvKey: Bytes, transcript: Bytes)

  datatype HandshakeError =
    | LocalMismatch | ProtocolMismatch | InlineCiphertext | BadEncoding | StaleTimestamp
    | PostQuantumMismatch | BadSignature | NotPinned | ZeroSharedSecret | DowngradeBlocked | NoPostQuantum | KemFailed

  // ---------- building a hello ----------

  function LocalPeer(c: Crypto, id: Identity, ephemeral: Bytes, nonce: Bytes, kem: Option<Bytes>, timestamp: u64)
    : Peer
  {
    Peer(c.dhPublic(id.dhSecret), c.signPublic(id.signSecret),
         if kem.Some? then Some(c.kemPublic(kem.value)) else None,
         c.dhPublic(ephemeral), nonce, timestamp)
  }

  function HelloOf(profile: Profile, p: Peer, sig: Bytes): Hello {
    Hello(ProtocolTag(profile), profile, Some(p.identity), Some(p.signing),
          if p.pqc.Some? then Some(Some(p.pqc.value)) else None,
          None, Some(p.ephemeral), Some(p.nonce), p.timestamp, Some(sig))
  }

  /** The fresh secrets are parameters: the ephemeral key, the nonce and the ML-KEM secret. */
  function BuildHello(c: Crypto, id: Identity, profile: Profile, ephemeral: Bytes, nonce: Bytes,
                      kemSecret: Bytes, timestamp: u64): Material
  {
    var kem := if profile.SecureDefault? then Some(kemSecret) else None;
    var p := LocalPeer(c, id, ephemeral, nonce, kem, timestamp);
    var sig := c.sign(id.signSecret, SignedPayload(profile, p));
    Material(ephemeral, nonce, profile, kem, HelloOf(profile, p, sig), None, None)
  }

  // ---------- verification ----------

  function Decode32(e: Encoded): Result<Bytes, HandshakeError> {
    if e.Some? && |e.value| == 32 then Ok(e.value) else Err(BadEncoding)
  }

  /** The decoded fields of a hello, or the first field that does not decode. */
  function DecodeHello(h: Hello): Result<Peer, HandshakeError> {
    if Decode32(h.identity).Err? || Decode32(h.ephemeral).Err? || Decode32(h.nonce).Err? || Decode32(h.signing).Err?
    then Err(BadEncoding)
    else if h.pqc.Some? && h.pqc.value.None? then Err(BadEncoding)
    else Ok(Peer(h.identity.value, h.signing.value, if h.pqc.Some? then Some(h.pqc.value.value) else None,
                 h.ephemeral.value, h.nonce.value, h.timestamp))
  }

  predicate SignatureOk(c: Crypto, profile: Profile, p: Peer, sig: Encoded) {
    |SignedPayload(profile, p)| <= MAX_SIGNED_PAYLOAD_BYTES
    && sig.Some? && c.verify(p.signing, SignedPayload(profile, p), sig.value)
  }

  /** The hello, keys and post-quantum material this side holds are consistent with each other. */
  predicate LocalMaterialOk(c: Crypto, id: Identity, m: Material) {
    var decoded := DecodeHello(m.hello);
    && m.hello.proto == ProtocolTag(m.profile) && m.hello.profile == m.profile
    && decoded.Ok?
    && decoded.value.identity == c.dhPublic(id.dhSecret)
    && decoded.value.signing == c.signPublic(id.signSecret)
    && decoded.value.ephemeral == c.dhPublic(m.ephemeral)
    && decoded.value.nonce == m.nonce
    && (if m.profile.SecureDefault?
        then m.kemSecret.Some? && decoded.value.pqc == Some(c.kemPublic(m.kemSecret.value))
        else m.kemSecret.None? && m.hello.pqc.None? && m.pqShared.None? && m.pqCiphertext.None?
             && m.hello.ciphertext.None?)
    && SignatureOk(c, m.profile, decoded.value, m.hello.sig)
    && (m.hello.ciphertext.Some? ==> m.hello.ciphertext.value.Some? && m.pqCiphertext == m.hello.ciphertext.value)
  }

  function AbsDiff(a: nat, b: nat): nat { if a < b then b - a else a - b }

  function VerifyHello(c: Crypto, id: Identity, m: Material, peer: Hello, pins: seq<Pin>, now: nat)
    : Result<Peer, HandshakeError>
  {
    if !LocalMaterialOk(c, id, m) then Err(LocalMismatch)
    else if peer.profile != m.profile || peer.proto != ProtocolTag(m.profile) then Err(ProtocolMismatch)
    else if peer.ciphertext.Some? then Err(InlineCiphertext)
    else
      match DecodeHello(peer)
      case Err(e) => Err(e)
      case Ok(p) =>
        if AbsDiff(now, peer.timestamp) > 300 then Err(StaleTimestamp)
        else if m.profile.SecureDefault? != p.pqc.Some? then Err(PostQuantumMismatch)
        else if p.pqc.Some? && |p.pqc.value| != ML_KEM_768_PUBLIC_KEY_BYTES then Err(PostQuantumMismatch)
        else if !SignatureOk(c, m.profile, p, peer.sig) then Err(BadSignature)
        else if Pin(p.identity, p.signing) !in pins then Err(NotPinned)
        else Ok(p)
  }

  /** The hello a peer with these values and this signature sends, pinned and fresh. */
  ghost predicate Authentic(c: Crypto, profile: Profile, peer: Hello, p: Peer, pins: seq<Pin>, now: nat) {
    && peer == HelloOf(profile, p, OptionalBytes(peer.sig)) && WellSized(profile, p)
    && c.verify(p.signing, SignedPayload(profile, p), OptionalBytes(peer.sig))
    && Pin(p.identity, p.signing) in pins && AbsDiff(now, p.timestamp) <= 300
  }

  /** Against consistent local material, exactly the authentic hellos are accepted, as what they say. */
  lemma AcceptedExactlyWhen(c: Crypto, id: Identity, m: Material, peer: Hello, pins: seq<Pin>, now: nat, p: Peer)
    requires LocalMaterialOk(c, id, m)
    ensures VerifyHello(c, id, m, peer, pins, now) == Ok(p) <==> Authentic(c, m.profile, peer, p, pins, now)
  {
    if Authentic(c, m.profile, peer, p, pins, now) {
      PayloadLength(m.profile, p);
      assert DecodeHello(peer) == Ok(p);
    }
  }

  /** The local check accepts exactly the hello that belongs to the secrets this side holds. */
  lemma LocalMaterialExactlyWhen(c: Crypto, id: Identity, m: Material)
    requires Lawful(c)
    ensures LocalMaterialOk(c, id, m) <==>
              var p := LocalPeer(c, id, m.ephemeral, m.nonce, m.kemSecret, m.hello.timestamp);
              && m.hello.(ciphertext := None) == HelloOf(m.profile, p, OptionalBytes(m.hello.sig))
              && WellSized(m.profile, p)
              && c.verify(p.signing, SignedPayload(m.profile, p), OptionalBytes(m.hello.sig))
              && (m.profile.ClassicalLab? ==> m.pqShared.None? && m.pqCiphertext.None?)
              && (m.hello.ciphertext.Some? ==> m.pqCiphertext.Some? && m.hello.ciphertext.value == m.pqCiphertext)
  {
    var p := LocalPeer(c, id, m.ephemeral, m.nonce, m.kemSecret, m.hello.timestamp);
    if WellSized(m.profile, p) {
      PayloadLength(m.profile, p);
    }
  }

  // ---------- the post-quantum exchange ----------

  /** What `finalize_initiator_pq` leaves in the material, and the ciphertext to send. */
  function Finalized(c: Crypto, id: Identity, m: Material, peer: Hello, pins: seq<Pin>, now: nat, coins: Bytes)
    : (Material, Result<Bytes, HandshakeError>)
  {
    if m.profile.ClassicalLab? then (m, Err(NoPostQuantum))
    else
      match VerifyHello(c, id, m, peer, pins, now)
      case Err(e) => (m, Err(e))
      case Ok(p) =>
        match c.encapsulate(OptionalBytes(p.pqc), coins)
        case None => (m, Err(KemFailed))
        case Some((ct, ss)) =>
          (m.(hello := m.hello.(ciphertext := Some(Some(ct))), pqShared := Some(ss), pqCiphertext := Some(ct)), Ok(ct))
  }

  /** What `absorb_responder_pq` leaves in the material. */
  function Absorbed(c: Crypto, id: Identity, m: Material, peer: Hello, ct: Bytes, pins: seq<Pin>, now: nat)
    : (Material, Result<(), HandshakeError>)
  {
    match VerifyHello(c, id, m, peer, pins, now)
    case Err(e) => (m, Err(e))
    case Ok(_) =>
      if m.profile.ClassicalLab? then (m, Err(NoPostQuantum))
      else if m.kemSecret.None? then (m, Err(LocalMismatch))
      else
        match c.decapsulate(m.kemSecret.value, ct)
        case None => (m, Err(KemFailed))
        case Some(ss) => (m.(pqShared := Some(ss), pqCiphertext := Some(ct)), Ok(()))
  }

  /**
   The initiator's half succeeds exactly against an authentic hello whose key can be encapsulated to; it then
   holds the secret and announces the ciphertext. Otherwise the material stays as it was.
   */
  lemma {:induction false} FinalizesExactlyWhen(c: Crypto, id: Identity, m: Material, peer: Hello, pins: seq<Pin>,
                                                now: nat, coins: Bytes, p: Peer)
    requires LocalMaterialOk(c, id, m) && Authentic(c, m.profile, peer, p, pins, now)
    ensures var (n, r) := Finalized(c, id, m, peer, pins, now, coins);
            && (r.Ok? <==> m.profile.SecureDefault? && c.encapsulate(OptionalBytes(p.pqc), coins).Some?)
            && (r.Ok? ==>
                  && c.encapsulate(p.pqc.value, coins) == Some((r.value, OptionalBytes(n.pqShared)))
                  && n.pqShared.Some? && n.pqCiphertext == Some(r.value)
                  && n == m.(hello := m.hello.(ciphertext := Some(Some(r.value))), pqShared := n.pqShared,
                             pqCiphertext := n.pqCiphertext))
  {
    AcceptedExactlyWhen(c, id, m, peer, pins, now, p);
  }

  /** The responder's half succeeds exactly against an authentic hello and a ciphertext its own key opens. */
  lemma {:induction false} AbsorbsExactlyWhen(c: Crypto, id: Identity, m: Material, peer: Hello, ct: Bytes,
                                              pins: seq<Pin>, now: nat, p: Peer)
    requires LocalMaterialOk(c, id, m) && Authentic(c, m.profile, peer, p, pins, now)
    ensures var (n, r) := Absorbed(c, id, m, peer, ct, pins, now);
            && (r.Ok? <==> m.profile.SecureDefault? && c.decapsulate(OptionalBytes(m.kemSecret), ct).Some?)
            && (r.Ok? ==> n == m.(pqShared := c.decapsulate(OptionalBytes(m.kemSecret), ct), pqCiphertext := Some(ct)))
  {
    AcceptedExactlyWhen(c, id, m, peer, pins, now, p);
  }

  /** A call that fails changes nothing, and no call succeeds against a hello that is not authentic. */
  lemma {:induction false} FailedCallsChangeNothing(c: Crypto, id: Identity, m: Material, peer: Hello, ct: Bytes,
                                                    pins: seq<Pin>, now: nat, coins: Bytes)
    ensures Finalized(c, id, m, peer, pins, now, coins).1.Err? ==> Finalized(c, id, m, peer, pins, now, coins).0 == m
    ensures Absorbed(c, id, m, peer, ct, pins, now).1.Err? ==> Absorbed(c, id, m, peer, ct, pins, now).0 == m
    ensures !LocalMaterialOk(c, id, m) || (forall p :: !Authentic(c, m.profile, peer, p, pins, now)) ==>
              Finalized(c, id, m, peer, pins, now, coins).1.Err? && Absorbed(c, id, m, peer, ct, pins, now).1.Err?
  {
    if LocalMaterialOk(c, id, m) && VerifyHello(c, id, m, peer, pins, now).Ok? {
      AcceptedExactlyWhen(c, id, m, peer, pins, now, VerifyHello(c, id, m, peer, pins, now).value);
    }
  }

  /** The handshake material as the program updates it. */
  class HandshakeMaterial {
    const profile: Profile
    const ephemeral: Bytes
    const nonce: Bytes
    const kemSecret: Option<Bytes>
    var hello: Hello
    var pqShared: Option<Bytes>
    var pqCiphertext: Option<Bytes>

    function View(): Material
      reads this
    {
      Material(ephemeral, nonce, profile, kemSecret, hello, pqShared, pqCiphertext)
    }

    constructor (m: Material)
      ensures View() == m
    {
      profile, ephemeral, nonce, kemSecret := m.profile, m.ephemeral, m.nonce, m.kemSecret;
      hello, pqShared, pqCiphertext := m.hello, m.pqShared, m.pqCiphertext;
    }

    method FinalizeInitiatorPq(c: Crypto, id: Identity, peer: Hello, pins: seq<Pin>, now: nat, coins: Bytes)
      returns (r: Result<Bytes, HandshakeError>)
      modifies this
      ensures (View(), r) == Finalized(c, id, old(View()), peer, pins, now, coins)
    {
      if profile.ClassicalLab? {
        return Err(NoPostQuantum);
      }
      var verified := VerifyHello(c, id, View(), peer, pins, now);
      if verified.Err? {
        return Err(verified.error);
      }
      var sealed := c.encapsulate(OptionalBytes(verified.value.pqc), coins);
      if sealed.None? {
        return Err(KemFailed);
      }
      hello := hello.(ciphertext := Some(Some(sealed.value.0)));
      pqShared := Some(sealed.value.1);
      pqCiphertext := Some(sealed.value.0);
      r := Ok(sealed.value.0);
    }

    method AbsorbResponderPq(c: Crypto, id: Identity, peer: Hello, ct: Bytes, pins: seq<Pin>, now: nat)
      returns (r: Result<(), HandshakeError>)
      modifies this
      ensures (View(), r) == Absorbed(c, id, old(View()), peer, ct, pins, now)
    {
      var verified := VerifyHello(c, id, View(), peer, pins, now);
      if verified.Err? {
        return Err(verified.error);
      }
      if profile.ClassicalLab? {
        return Err(NoPostQuantum);
      }
      if kemSecret.None? {
        return Err(LocalMismatch);
      }
      var unsealed := c.decapsulate(kemSecret.value, ct);
      if unsealed.None? {
        return Err(KemFailed);
      }
      pqShared := Some(unsealed.value);
      pqCiphertext := Some(ct);
      r := Ok(());
    }
  }

  // ---------- derivation ----------

  /** Rust's order on equally long byte arrays. */
  predicate LexLe(a: Bytes, b: Bytes) {
    a == [] || (b != [] && (a[0] < b[0] || (a[0] == b[0] && LexLe(a[1..], b[1..]))))
  }

  lemma {:induction false} LexTotal(a: Bytes, b: Bytes)
    requires |a| == |b| && a != b
    ensures LexLe(a, b) <==> !LexLe(b, a)
  {
    if a != [] && a[0] == b[0] {
      assert a == [a[0]] + a[1..] && b == [b[0]] + b[1..];
      LexTotal(a[1..], b[1..]);
    }
  }

  /** The first byte in which they differ decides. */
  lemma {:induction false} FirstDifference(a: Bytes, b: Bytes, k: nat)
    requires k < |a| && k < |b| && a[..k] == b[..k] && a[k] < b[k]
    ensures LexLe(a, b) && !LexLe(b, a)
  {
    if k > 0 {
      assert a[0] == a[..k][0] && b[0] == b[..k][0];
      assert a[1..][..k - 1] == a[..k][1..] && b[1..][..k - 1] == b[..k][1..];
      FirstDifference(a[1..], b[1..], k - 1);
    }
  }

  /** Both peers are in the exchange, the smaller identity first, and the initiator is named. */
  lemma ExchangeMeans(profile: Profile, local: Peer, peer: Peer, initiator: bool, ct: Option<Bytes>)
    requires |local.identity| == |peer.identity|
    ensures var e := ExchangeOf(profile, local, peer, initiator, ct);
            && ((e.first == local && e.second == peer) || (e.first == peer && e.second == local))
            && LexLe(e.first.identity, e.second.identity)
            && e.profile == profile && e.ciphertext == ct
            && e.initiator == if initiator then local.identity else peer.identity
  {
    if local.identity == peer.identity {
      LexReflexive(local.identity);
    } else {
      LexTotal(local.identity, peer.identity);
    }
  }

  /** The peers in canonical order, smaller identity first. */
  function ExchangeOf(profile: Profile, local: Peer, peer: Peer, initiator: bool, ct: Option<Bytes>): Exchange {
    var opener := if initiator then local.identity else peer.identity;
    if LexLe(local.identity, peer.identity) then Exchange(profile, opener, local, peer, ct)
    else Exchange(profile, opener, peer, local, ct)
  }

  function Salt(profile: Profile, transcript: Bytes, direction: string): Bytes {
    Ascii("shph-session-v2") + ProtocolTag(profile) + transcript + Ascii(direction)
  }

  const ZERO_SECRET: Bytes := seq(32, _ => 0)

  /** now is read for the hello check, later for the second freshness check. */
  function Derive(c: Crypto, id: Identity, m: Material, peer: Hello, initiator: bool, pins: seq<Pin>,
                  now: nat, later: nat)
    : Result<Session, HandshakeError>
  {
    match VerifyHello(c, id, m, peer, pins, now)
    case Err(e) => Err(e)
    case Ok(p) =>
      if AbsDiff(later, peer.timestamp) > 300 then Err(StaleTimestamp)
      else
        var shared := c.dh(m.ephemeral, p.ephemeral);
        if shared == ZERO_SECRET then Err(ZeroSharedSecret)
        else if m.profile.SecureDefault? && (m.pqShared.None? || m.pqCiphertext.None?) then Err(DowngradeBlocked)
        else if m.profile.SecureDefault? && |m.pqCiphertext.value| != ML_KEM_768_CIPHERTEXT_BYTES
        then Err(DowngradeBlocked)
        else Ok(Keys(c, m, p, initiator, shared))
  }

  function Keys(c: Crypto, m: Material, p: Peer, initiator: bool, shared: Bytes): Session
    requires DecodeHello(m.hello).Ok?
  {
    var exchange := ExchangeOf(m.profile, DecodeHello(m.hello).value.(nonce := m.nonce), p, initiator,
                               if m.profile.SecureDefault? then m.pqCiphertext else None);
    var transcript := c.hash(TranscriptBytes(exchange));
    var ikm := shared + if m.profile.SecureDefault? then OptionalBytes(m.pqShared) else [];
    var (mine, theirs) := if initiator then ("initiator", "responder") else ("responder", "initiator");
    Session(p.identity, p.signing, c.hkdf(ikm, Salt(m.profile, transcript, mine)),
            c.hkdf(ikm, Salt(m.profile, transcript, theirs)), transcript)
  }

  // ---------- agreement ----------

  /** One side's long-term identity and fresh secrets. */
  datatype Party = Party(id: Identity, ephemeral: Bytes, nonce: Bytes, kemSecret: Bytes, timestamp: u64)

  function HelloFrom(c: Crypto, profile: Profile, x: Party): Material {
    BuildHello(c, x.id, profile, x.ephemeral, x.nonce, x.kemSecret, x.timestamp)
  }

  function PeerOf(c: Crypto, profile: Profile, x: Party): Peer {
    LocalPeer(c, x.id, x.ephemeral, x.nonce, if profile.SecureDefault? then Some(x.kemSecret) else None, x.timestamp)
  }

  function PinOf(c: Crypto, x: Party): Pin {
    Pin(c.dhPublic(x.id.dhSecret), c.signPublic(x.id.signSecret))
  }

  lemma HelloDecodes(c: Crypto, profile: Profile, x: Party)
    requires Lawful(c) && |x.nonce| == 32
    ensures WellSized(profile, PeerOf(c, profile, x))
    ensures DecodeHello(HelloFrom(c, profile, x).hello) == Ok(PeerOf(c, profile, x))
  {
  }

  lemma HelloSignature(c: Crypto, profile: Profile, x: Party)
    requires Lawful(c) && |x.nonce| == 32
    ensures SignatureOk(c, profile, PeerOf(c, profile, x), HelloFrom(c, profile, x).hello.sig)
  {
    HelloDecodes(c, profile, x);
    PayloadLength(profile, PeerOf(c, profile, x));
  }

  lemma BuiltMaterialOk(c: Crypto, profile: Profile, x: Party)
    requires Lawful(c) && |x.nonce| == 32
    ensures LocalMaterialOk(c, x.id, HelloFrom(c, profile, x))
  {
    HelloDecodes(c, profile, x);
    HelloSignature(c, profile, x);
  }

  /** A pinned, fresh, genuine hello verifies to exactly the sender's values. */
  lemma GenuineHelloVerifies(c: Crypto, id: Identity, m: Material, y: Party, pins: seq<Pin>, now: nat)
    requires Lawful(c) && |y.nonce| == 32 && LocalMaterialOk(c, id, m)
    requires PinOf(c, y) in pins && AbsDiff(now, y.timestamp) <= 300
    ensures VerifyHello(c, id, m, HelloFrom(c, m.profile, y).hello, pins, now) == Ok(PeerOf(c, m.profile, y))
  {
    HelloDecodes(c, m.profile, y);
    HelloSignature(c, m.profile, y);
  }

  /** Adding post-quantum material that matches keeps the local side consistent. */
  lemma WithSharedOk(c: Crypto, x: Party, m: Material, ct: Bytes, ss: Bytes, announce: bool)
    requires Lawful(c) && |x.nonce| == 32 && m == HelloFrom(c, SecureDefault, x)
    ensures LocalMaterialOk(c, x.id,
              m.(hello := m.hello.(ciphertext := if announce then Some(Some(ct)) else None),
                 pqShared := Some(ss), pqCiphertext := Some(ct)))
  {
    HelloDecodes(c, SecureDefault, x);
    HelloSignature(c, SecureDefault, x);
  }

  lemma {:induction false} LexReflexive(a: Bytes)
    ensures LexLe(a, a)
  {
    if a != [] {
      LexReflexive(a[1..]);
    }
  }

  /**
   The two sides order the exchange alike exactly when their identities differ; a party talking to its
   own identity would hash two different transcripts.
   */
  lemma SameExchange(profile: Profile, a: Peer, b: Peer, ct: Option<Bytes>)
    requires |a.identity| == |b.identity|
    ensures ExchangeOf(profile, a, b, true, ct) == ExchangeOf(profile, b, a, false, ct)
       <==> a.identity != b.identity || a == b
  {
    if a.identity == b.identity {
      LexReflexive(a.identity);
    } else {
      LexTotal(a.identity, b.identity);
    }
  }

  ghost predicate Crossed(a: Result<Session, HandshakeError>, b: Result<Session, HandshakeError>) {
    a.Ok? && b.Ok? && a.value.transcript == b.value.transcript
    && a.value.sendKey == b.value.recvKey && a.value.recvKey == b.value.sendKey
  }

  /** Two parties that pin each other, read fresh clocks and do not hit the all-zero secret. */
  ghost predicate CanTalk(c: Crypto, a: Party, b: Party, pinsA: seq<Pin>, pinsB: seq<Pin>, times: seq<nat>) {
    && Lawful(c) && |a.nonce| == 32 && |b.nonce| == 32
    && PinOf(c, b) in pinsA && PinOf(c, a) in pinsB
    && (forall t :: t in times ==> AbsDiff(t, a.timestamp) <= 300 && AbsDiff(t, b.timestamp) <= 300)
    && c.dh(a.ephemeral, c.dhPublic(b.ephemeral)) != ZERO_SECRET
  }

  /** The two sides have different identities, or are one and the same in every field. */
  ghost predicate Ordered(c: Crypto, profile: Profile, a: Party, b: Party) {
    c.dhPublic(a.id.dhSecret) != c.dhPublic(b.id.dhSecret) || PeerOf(c, profile, a) == PeerOf(c, profile, b)
  }

  /**
   Both derivations succeed. They agree on the transcript and have crossed keys when the two sides are
   ordered, and only then, unless the hash collides on the two transcripts.
   */
  ghost predicate AgreeExactlyWhenOrdered(
    c: Crypto, a: Party, b: Party, ma: Material, mb: Material,
    sa: Result<Session, HandshakeError>, sb: Result<Session, HandshakeError>)
  {
    var x := HashInput(ma, HelloFrom(c, mb.profile, b).hello, true);
    var y := HashInput(mb, HelloFrom(c, ma.profile, a).hello, false);
    && sa.Ok? && sb.Ok?
    && (Ordered(c, ma.profile, a, b) ==> Crossed(sa, sb))
    && (x == y || c.hash(x) != c.hash(y) ==> (Crossed(sa, sb) <==> Ordered(c, ma.profile, a, b)))
  }

  /** Key agreement in the classical profile. */
  lemma ClassicalAgreement(c: Crypto, a: Party, b: Party, pinsA: seq<Pin>, pinsB: seq<Pin>, times: seq<nat>)
    requires |times| == 4 && CanTalk(c, a, b, pinsA, pinsB, times)
    ensures var ma, mb := HelloFrom(c, ClassicalLab, a), HelloFrom(c, ClassicalLab, b);
            AgreeExactlyWhenOrdered(c, a, b, ma, mb,
              Derive(c, a.id, ma, mb.hello, true, pinsA, times[0], times[1]),
              Derive(c, b.id, mb, ma.hello, false, pinsB, times[2], times[3]))
  {
    var ma, mb := HelloFrom(c, ClassicalLab, a), HelloFrom(c, ClassicalLab, b);
    BuiltMaterialOk(c, ClassicalLab, a);
    BuiltMaterialOk(c, ClassicalLab, b);
    DerivedKeysCross(c, a, b, ma, mb, pinsA, pinsB, times);
  }

  /**
   Key agreement in the hybrid profile. The initiator encapsulates against the responder's hello, the
   responder absorbs the ciphertext, having seen the initiator's hello as first sent; both then derive, with
   the same transcript and crossed keys. Every step reads the clock for itself.
   */
  lemma HybridAgreement(c: Crypto, a: Party, b: Party, pinsA: seq<Pin>, pinsB: seq<Pin>, times: seq<nat>, coins: Bytes)
    requires |times| == 6 && CanTalk(c, a, b, pinsA, pinsB, times)
    ensures var ma, mb := HelloFrom(c, SecureDefault, a), HelloFrom(c, SecureDefault, b);
            var (ma', ct) := Finalized(c, a.id, ma, mb.hello, pinsA, times[4], coins);
            && ct.Ok?
            && var (mb', ok) := Absorbed(c, b.id, mb, ma.hello, ct.value, pinsB, times[5]);
            && ok.Ok?
            && AgreeExactlyWhenOrdered(c, a, b, ma', mb',
                 Derive(c, a.id, ma', mb.hello, true, pinsA, times[0], times[1]),
                 Derive(c, b.id, mb', ma.hello, false, pinsB, times[2], times[3]))
  {
    var ma, mb := HelloFrom(c, SecureDefault, a), HelloFrom(c, SecureDefault, b);
    BuiltMaterialOk(c, SecureDefault, a);
    BuiltMaterialOk(c, SecureDefault, b);
    assert times[4] in times && times[5] in times;
    GenuineHelloVerifies(c, a.id, ma, b, pinsA, times[4]);
    GenuineHelloVerifies(c, b.id, mb, a, pinsB, times[5]);
    assert KemWorks(c, b.kemSecret, coins);
    var (ct, ss) := c.encapsulate(c.kemPublic(b.kemSecret), coins).value;
    WithSharedOk(c, a, ma, ct, ss, true);
    WithSharedOk(c, b, mb, ct, ss, false);
    var ma' := Finalized(c, a.id, ma, mb.hello, pinsA, times[4], coins).0;
    var mb' := Absorbed(c, b.id, mb, ma.hello, ct, pinsB, times[5]).0;
    assert mb' == mb.(hello := mb.hello.(ciphertext := None), pqShared := Some(ss), pqCiphertext := Some(ct));
    DerivedKeysCross(c, a, b, ma', mb', pinsA, pinsB, times);
  }

  /** Such parties exist, with different identities, whatever stands in for the primitives. */
  lemma SomeCanTalk() returns (c: Crypto, a: Party, b: Party, pins: seq<Pin>, times: seq<nat>)
    ensures |times| == 6 && CanTalk(c, a, b, pins, pins, times)
    ensures Ordered(c, SecureDefault, a, b) && Ordered(c, ClassicalLab, a, b)
  {
    c := LawfulExists();
    a := Party(Identity([0], []), [], seq(32, _ => 0), [], 1000);
    b := Party(Identity([1], []), [], seq(32, _ => 0), [], 1000);
    pins := [PinOf(c, a), PinOf(c, b)];
    times := seq(6, _ => 1000);
    assert c.dhPublic([0])[0] != c.dhPublic([1])[0];
  }

  /** A pinned, fresh, genuine hello leads to keys. */
  lemma DerivesKeys(c: Crypto, id: Identity, m: Material, y: Party, initiator: bool, pins: seq<Pin>,
                    now: nat, later: nat)
    requires Lawful(c) && |y.nonce| == 32 && LocalMaterialOk(c, id, m) && PinOf(c, y) in pins
    requires AbsDiff(now, y.timestamp) <= 300 && AbsDiff(later, y.timestamp) <= 300
    requires c.dh(m.ephemeral, c.dhPublic(y.ephemeral)) != ZERO_SECRET
    requires m.profile.SecureDefault? ==>
               m.pqShared.Some? && m.pqCiphertext.Some? && |m.pqCiphertext.value| == ML_KEM_768_CIPHERTEXT_BYTES
    ensures DecodeHello(m.hello).Ok?
    ensures Derive(c, id, m, HelloFrom(c, m.profile, y).hello, initiator, pins, now, later)
         == Ok(Keys(c, m, PeerOf(c, m.profile, y), initiator, c.dh(m.ephemeral, c.dhPublic(y.ephemeral))))
  {
    GenuineHelloVerifies(c, id, m, y, pins, now);
  }

  /** Whatever consistent material the two sides hold, with equal post-quantum parts they agree when ordered. */
  lemma DerivedKeysCross(c: Crypto, a: Party, b: Party, ma: Material, mb: Material,
                         pinsA: seq<Pin>, pinsB: seq<Pin>, times: seq<nat>)
    requires |times| >= 4 && CanTalk(c, a, b, pinsA, pinsB, times)
    requires LocalMaterialOk(c, a.id, ma) && LocalMaterialOk(c, b.id, mb) && ma.profile == mb.profile
    requires ma.ephemeral == a.ephemeral && mb.ephemeral == b.ephemeral
    requires DecodeHello(ma.hello) == Ok(PeerOf(c, ma.profile, a))
    requires DecodeHello(mb.hello) == Ok(PeerOf(c, mb.profile, b))
    requires ma.nonce == a.nonce && mb.nonce == b.nonce
    requires ma.pqShared == mb.pqShared && ma.pqCiphertext == mb.pqCiphertext
    requires ma.profile.SecureDefault? ==>
               ma.pqShared.Some? && ma.pqCiphertext.Some? && |ma.pqCiphertext.value| == ML_KEM_768_CIPHERTEXT_BYTES
    ensures AgreeExactlyWhenOrdered(c, a, b, ma, mb,
              Derive(c, a.id, ma, HelloFrom(c, mb.profile, b).hello, true, pinsA, times[0], times[1]),
              Derive(c, b.id, mb, HelloFrom(c, ma.profile, a).hello, false, pinsB, times[2], times[3]))
  {
    assert times[0] in times && times[1] in times && times[2] in times && times[3] in times;
    DerivesKeys(c, a.id, ma, b, true, pinsA, times[0], times[1]);
    DerivesKeys(c, b.id, mb, a, false, pinsB, times[2], times[3]);
    HelloDecodes(c, ma.profile, a);
    HelloDecodes(c, mb.profile, b);
    var ct := if ma.profile.SecureDefault? then ma.pqCiphertext else None;
    var local, remote := PeerOf(c, ma.profile, a), PeerOf(c, mb.profile, b);
    SameExchange(ma.profile, local, remote, ct);
    DerivedExchangeFits(c, a.id, ma, HelloFrom(c, mb.profile, b).hello, true, pinsA, times[0], times[1]);
    DerivedExchangeFits(c, b.id, mb, HelloFrom(c, ma.profile, a).hello, false, pinsB, times[2], times[3]);
    if TranscriptBytes(ExchangeOf(ma.profile, local, remote, true, ct))
       == TranscriptBytes(ExchangeOf(ma.profile, remote, local, false, ct)) {
      TranscriptInjective(ExchangeOf(ma.profile, local, remote, true, ct),
                          ExchangeOf(ma.profile, remote, local, false, ct));
    }
  }

  /** The responder refuses the initiator's hello as it stands after finalization. */
  lemma InlineCiphertextRefused(c: Crypto, id: Identity, m: Material, peer: Hello, ct: Encoded, initiator: bool,
                                pins: seq<Pin>, now: nat, later: nat)
    ensures Derive(c, id, m, peer.(ciphertext := Some(ct)), initiator, pins, now, later).Err?
  {
  }

  /** The hybrid profile never derives keys without the post-quantum secret and its 1088-byte ciphertext. */
  lemma NoSilentDowngrade(c: Crypto, id: Identity, m: Material, peer: Hello, initiator: bool, pins: seq<Pin>,
                          now: nat, later: nat)
    requires Derive(c, id, m, peer, initiator, pins, now, later).Ok? && m.profile.SecureDefault?
    ensures m.pqShared.Some? && m.pqCiphertext.Some? && |m.pqCiphertext.value| == ML_KEM_768_CIPHERTEXT_BYTES
    ensures peer.profile.SecureDefault? && peer.pqc.Some?
  {
  }

  /** Keys come exactly from authentic hellos that stay fresh, a nonzero secret and the profile's full material. */
  lemma DerivesExactlyWhen(c: Crypto, id: Identity, m: Material, peer: Hello, initiator: bool, pins: seq<Pin>,
                           now: nat, later: nat)
    requires LocalMaterialOk(c, id, m)
    ensures Derive(c, id, m, peer, initiator, pins, now, later).Ok? <==>
              exists p ::
                && Authentic(c, m.profile, peer, p, pins, now) && AbsDiff(later, p.timestamp) <= 300
                && c.dh(m.ephemeral, p.ephemeral) != ZERO_SECRET
                && (m.profile.SecureDefault? ==>
                      m.pqShared.Some? && m.pqCiphertext.Some?
                      && |m.pqCiphertext.value| == ML_KEM_768_CIPHERTEXT_BYTES)
  {
    var verified := VerifyHello(c, id, m, peer, pins, now);
    if verified.Ok? {
      AcceptedExactlyWhen(c, id, m, peer, pins, now, verified.value);
    }
    forall p | Authentic(c, m.profile, peer, p, pins, now)
      ensures verified == Ok(p)
    {
      AcceptedExactlyWhen(c, id, m, peer, pins, now, p);
    }
  }

  // ---------- where the post-quantum secret comes from ----------

  /** A call on the material before keys are derived. */
  datatype PqCall =
    | Finalize(peer: Hello, pins: seq<Pin>, now: nat, coins: Bytes)
    | Absorb(peer: Hello, ct: Bytes, pins: seq<Pin>, now: nat)

  function AfterCall(c: Crypto, id: Identity, m: Material, call: PqCall): Material {
    match call
    case Finalize(peer, pins, now, coins) => Finalized(c, id, m, peer, pins, now, coins).0
    case Absorb(peer, ct, pins, now) => Absorbed(c, id, m, peer, ct, pins, now).0
  }

  function AfterCalls(c: Crypto, id: Identity, m: Material, calls: seq<PqCall>): Material {
    if calls == [] then m
    else AfterCall(c, id, AfterCalls(c, id, m, calls[..|calls| - 1]), calls[|calls| - 1])
  }

  /** Call x encapsulated the secret in the ciphertext, to the key of the hello it verified. */
  ghost predicate Encapsulated(c: Crypto, call: PqCall, ct: Bytes, ss: Bytes) {
    && call.Finalize? && call.peer.pqc.Some? && call.peer.pqc.value.Some?
    && c.encapsulate(call.peer.pqc.value.value, call.coins) == Some((ct, ss))
  }

  /** The secret held is the one inside the ciphertext held: sealed here or opened with this side's own key. */
  ghost predicate SecretOfCiphertext(c: Crypto, m: Material, calls: seq<PqCall>) {
    if m.pqShared.None? then m.pqCiphertext.None?
    else
      && m.pqCiphertext.Some?
      && ((exists x :: 0 <= x < |calls| && Encapsulated(c, calls[x], m.pqCiphertext.value, m.pqShared.value))
          || (m.kemSecret.Some? && c.decapsulate(m.kemSecret.value, m.pqCiphertext.value) == m.pqShared))
  }

  /** A call leaves the post-quantum part as it was, or replaces it by a secret and its own ciphertext. */
  lemma {:induction false} CallMeans(c: Crypto, id: Identity, m: Material, call: PqCall)
    ensures var n := AfterCall(c, id, m, call);
            && n.kemSecret == m.kemSecret && n.profile == m.profile
            && ((n.pqShared == m.pqShared && n.pqCiphertext == m.pqCiphertext)
                || (n.pqShared.Some? && n.pqCiphertext.Some?
                    && (Encapsulated(c, call, n.pqCiphertext.value, n.pqShared.value)
                        || (n.kemSecret.Some?
                            && c.decapsulate(n.kemSecret.value, n.pqCiphertext.value) == n.pqShared))))
  {
  }

  lemma {:induction false} CallKeepsSecret(c: Crypto, m: Material, n: Material, calls: seq<PqCall>, call: PqCall)
    requires SecretOfCiphertext(c, m, calls) && n.kemSecret == m.kemSecret
    requires (n.pqShared == m.pqShared && n.pqCiphertext == m.pqCiphertext)
             || (n.pqShared.Some? && n.pqCiphertext.Some?
                 && (Encapsulated(c, call, n.pqCiphertext.value, n.pqShared.value)
                     || (n.kemSecret.Some? && c.decapsulate(n.kemSecret.value, n.pqCiphertext.value) == n.pqShared)))
    ensures SecretOfCiphertext(c, n, calls + [call])
  {
    var all := calls + [call];
    assert all[|calls|] == call && forall x :: 0 <= x < |calls| ==> all[x] == calls[x];
  }

  lemma {:induction false} NextCall(c: Crypto, id: Identity, m: Material, calls: seq<PqCall>)
    requires calls != []
    ensures AfterCalls(c, id, m, calls)
         == AfterCall(c, id, AfterCalls(c, id, m, calls[..|calls| - 1]), calls[|calls| - 1])
  {
  }

  lemma {:induction false} CallsKeepSecret(c: Crypto, id: Identity, m: Material, calls: seq<PqCall>)
    requires m.pqShared.None? && m.pqCiphertext.None?
    ensures SecretOfCiphertext(c, AfterCalls(c, id, m, calls), calls)
    ensures AfterCalls(c, id, m, calls).profile == m.profile && AfterCalls(c, id, m, calls).kemSecret == m.kemSecret
  {
    if calls != [] {
      var n := |calls| - 1;
      var before, last := calls[..n], calls[n];
      assert calls == before + [last];
      CallsKeepSecret(c, id, m, before);
      NextCall(c, id, m, calls);
      CallMeans(c, id, AfterCalls(c, id, m, before), last);
      CallKeepsSecret(c, AfterCalls(c, id, m, before), AfterCalls(c, id, m, calls), before, last);
    }
  }

  /**
   After any sequence of finalize and absorb calls on built material, keys derived in the hybrid profile rest
   on the secret inside exactly the ciphertext that the transcript carries.
   */
  lemma {:induction false} DerivedSecretIsTranscripts(
    c: Crypto, x: Party, calls: seq<PqCall>, peer: Hello, initiator: bool,
    pins: seq<Pin>, now: nat, later: nat)
    requires var m := AfterCalls(c, x.id, HelloFrom(c, SecureDefault, x), calls);
             Derive(c, x.id, m, peer, initiator, pins, now, later).Ok?
    ensures var m := AfterCalls(c, x.id, HelloFrom(c, SecureDefault, x), calls);
            && DecodeHello(m.hello).Ok? && DecodeHello(peer).Ok?
            && Derive(c, x.id, m, peer, initiator, pins, now, later).value.transcript
               == c.hash(TranscriptBytes(ExchangeIn(m, peer, initiator)))
            && var ct := ExchangeIn(m, peer, initiator).ciphertext;
            && ct.Some? && m.pqShared.Some?
            && ((exists i :: 0 <= i < |calls| && Encapsulated(c, calls[i], ct.value, m.pqShared.value))
                || c.decapsulate(x.kemSecret, ct.value) == m.pqShared)
  {
    var m := AfterCalls(c, x.id, HelloFrom(c, SecureDefault, x), calls);
    CallsKeepSecret(c, x.id, HelloFrom(c, SecureDefault, x), calls);
    DeriveMeans(c, x.id, m, peer, initiator, pins, now, later);
  }

  // ---------- what the keys rest on ----------

  /** One side's derivation with everything it is given. */
  datatype Derivation = Derivation(
    id: Identity, m: Material, peer: Hello, initiator: bool, pins: seq<Pin>, now: nat, later: nat)

  function Outcome(c: Crypto, d: Derivation): Result<Session, HandshakeError> {
    Derive(c, d.id, d.m, d.peer, d.initiator, d.pins, d.now, d.later)
  }

  /** The two inputs of HKDF for the key that the opener (or else the other side) sends under. */
  ghost function KeyInput(c: Crypto, d: Derivation, opener: bool): (Bytes, Bytes) {
    if DecodeHello(d.peer).Err? then ([], [])
    else
      (c.dh(d.m.ephemeral, DecodeHello(d.peer).value.ephemeral)
         + (if d.m.profile.SecureDefault? then OptionalBytes(d.m.pqShared) else []),
       Salt(d.m.profile, c.hash(HashInput(d.m, d.peer, d.initiator)), if opener then "initiator" else "responder"))
  }

  lemma {:induction false} DerivedKeys(c: Crypto, d: Derivation)
    requires Outcome(c, d).Ok?
    ensures DecodeHello(d.peer).Ok? && (d.m.profile.SecureDefault? ==> d.m.pqShared.Some?)
    ensures var s, mine, theirs := Outcome(c, d).value, KeyInput(c, d, d.initiator), KeyInput(c, d, !d.initiator);
            && s.sendKey == c.hkdf(mine.0, mine.1) && s.recvKey == c.hkdf(theirs.0, theirs.1)
            && s.transcript == c.hash(HashInput(d.m, d.peer, d.initiator))
            && s.peerIdentity == DecodeHello(d.peer).value.identity
            && s.peerSigning == DecodeHello(d.peer).value.signing
  {
  }

  /** A salt determines profile, transcript and direction. */
  lemma SaltInjective(p: Profile, t: Bytes, opener: bool, q: Profile, u: Bytes, opener': bool)
    requires |t| == |u| == 32
    requires Salt(p, t, if opener then "initiator" else "responder")
          == Salt(q, u, if opener' then "initiator" else "responder")
    ensures p == q && t == u && opener == opener'
  {
    var x, y := if opener then "initiator" else "responder", if opener' then "initiator" else "responder";
    var domain := Ascii("shph-session-v2");
    assert |ProtocolTag(SecureDefault)| != |ProtocolTag(ClassicalLab)|;
    assert |Salt(p, t, x)| == 56 + |ProtocolTag(p)| && |Salt(q, u, y)| == 56 + |ProtocolTag(q)|;
    SplitEqual(domain + ProtocolTag(p) + t, Ascii(x), domain + ProtocolTag(q) + u, Ascii(y));
    SplitEqual(domain + ProtocolTag(p), t, domain + ProtocolTag(q), u);
    assert Ascii("initiator")[0] != Ascii("responder")[0];
  }

  /** Profile, transcript, Diffie-Hellman secret and, in the hybrid profile, post-quantum secret are the same. */
  ghost predicate SameSecrets(c: Crypto, d: Derivation, d': Derivation)
    requires Outcome(c, d).Ok? && Outcome(c, d').Ok? && DecodeHello(d.peer).Ok? && DecodeHello(d'.peer).Ok?
  {
    && d.m.profile == d'.m.profile
    && Outcome(c, d).value.transcript == Outcome(c, d').value.transcript
    && c.dh(d.m.ephemeral, DecodeHello(d.peer).value.ephemeral)
       == c.dh(d'.m.ephemeral, DecodeHello(d'.peer).value.ephemeral)
    && (d.m.profile.SecureDefault? ==> d.m.pqShared == d'.m.pqShared)
  }

  ghost predicate NoCollision(c: Crypto, inputs: set<(Bytes, Bytes)>) {
    forall x, y :: x in inputs && y in inputs && c.hkdf(x.0, x.1) == c.hkdf(y.0, y.1) ==> x == y
  }

  lemma {:induction false} InputsBind(c: Crypto, d: Derivation, opener: bool, d': Derivation, opener': bool)
    requires Lawful(c) && Outcome(c, d).Ok? && Outcome(c, d').Ok?
    ensures DecodeHello(d.peer).Ok? && DecodeHello(d'.peer).Ok?
    ensures KeyInput(c, d, opener) == KeyInput(c, d', opener') <==> SameSecrets(c, d, d') && opener == opener'
  {
    DerivedKeys(c, d);
    DerivedKeys(c, d');
    var shared := c.dh(d.m.ephemeral, DecodeHello(d.peer).value.ephemeral);
    var shared' := c.dh(d'.m.ephemeral, DecodeHello(d'.peer).value.ephemeral);
    var t, t' := Outcome(c, d).value.transcript, Outcome(c, d').value.transcript;
    var pq := if d.m.profile.SecureDefault? then OptionalBytes(d.m.pqShared) else [];
    var pq' := if d'.m.profile.SecureDefault? then OptionalBytes(d'.m.pqShared) else [];
    if KeyInput(c, d, opener) == KeyInput(c, d', opener') {
      SaltInjective(d.m.profile, t, opener, d'.m.profile, t', opener');
      assert shared + pq == shared' + pq';
      SplitEqual(shared, pq, shared', pq');
    }
  }

  /**
   Two derivations end in the same key for sending if and only if they have the same role and rest on the same
   secrets, profile and transcript; one's sending key is the other's receiving key if and only if the roles
   differ and all of that is the same; and no session sends and receives under one key. HKDF is only asked
   not to collide on the inputs compared.
   */
  lemma {:induction false} KeysBindSecrets(c: Crypto, d: Derivation, d': Derivation)
    requires Lawful(c) && Outcome(c, d).Ok? && Outcome(c, d').Ok?
    requires NoCollision(c, {KeyInput(c, d, true), KeyInput(c, d, false),
                             KeyInput(c, d', true), KeyInput(c, d', false)})
    ensures DecodeHello(d.peer).Ok? && DecodeHello(d'.peer).Ok?
    ensures var s, s' := Outcome(c, d).value, Outcome(c, d').value;
            && (s.sendKey == s'.sendKey <==> SameSecrets(c, d, d') && d.initiator == d'.initiator)
            && (s.sendKey == s'.recvKey <==> SameSecrets(c, d, d') && d.initiator != d'.initiator)
            && s.sendKey != s.recvKey
  {
    DerivedKeys(c, d);
    DerivedKeys(c, d');
    InputsBind(c, d, d.initiator, d', d'.initiator);
    InputsBind(c, d, d.initiator, d', !d'.initiator);
    InputsBind(c, d, d.initiator, d, !d.initiator);
    var all := {KeyInput(c, d, true), KeyInput(c, d, false), KeyInput(c, d', true), KeyInput(c, d', false)};
    assert KeyInput(c, d, d.initiator) in all && KeyInput(c, d, !d.initiator) in all;
    assert KeyInput(c, d', d'.initiator) in all && KeyInput(c, d', !d'.initiator) in all;
  }

  // ---------- binding ----------

  /** The exchange a successful derivation hashed. */
  function ExchangeIn(m: Material, peer: Hello, initiator: bool): Exchange
    requires DecodeHello(m.hello).Ok? && DecodeHello(peer).Ok?
  {
    ExchangeOf(m.profile, DecodeHello(m.hello).value.(nonce := m.nonce), DecodeHello(peer).value, initiator,
               if m.profile.SecureDefault? then m.pqCiphertext else None)
  }

  function HashInput(m: Material, peer: Hello, initiator: bool): Bytes {
    if DecodeHello(m.hello).Ok? && DecodeHello(peer).Ok? then TranscriptBytes(ExchangeIn(m, peer, initiator)) else []
  }

  lemma DeriveMeans(c: Crypto, id: Identity, m: Material, peer: Hello, initiator: bool, pins: seq<Pin>,
                    now: nat, later: nat)
    requires Derive(c, id, m, peer, initiator, pins, now, later).Ok?
    ensures DecodeHello(m.hello).Ok? && DecodeHello(peer).Ok?
    ensures |m.nonce| == 32
    ensures Derive(c, id, m, peer, initiator, pins, now, later).value.transcript
         == c.hash(TranscriptBytes(ExchangeIn(m, peer, initiator)))
    ensures m.profile.SecureDefault? ==> m.pqCiphertext.Some? && |m.pqCiphertext.value| == ML_KEM_768_CIPHERTEXT_BYTES
    ensures peer.pqc.Some? ==> |peer.pqc.value.value| == ML_KEM_768_PUBLIC_KEY_BYTES
    ensures m.hello.pqc.Some? ==> m.kemSecret.Some? && m.hello.pqc.value.value == c.kemPublic(m.kemSecret.value)
  {
  }

  lemma DerivedExchangeFits(c: Crypto, id: Identity, m: Material, peer: Hello, initiator: bool, pins: seq<Pin>,
                            now: nat, later: nat)
    requires Lawful(c) && Derive(c, id, m, peer, initiator, pins, now, later).Ok?
    ensures DecodeHello(m.hello).Ok? && DecodeHello(peer).Ok?
    ensures FitsBuffers(ExchangeIn(m, peer, initiator))
  {
    DeriveMeans(c, id, m, peer, initiator, pins, now, later);
    var local, remote := DecodeHello(m.hello).value.(nonce := m.nonce), DecodeHello(peer).value;
    assert Small(local) && Small(remote);
    SmallItems(ExchangeIn(m, peer, initiator));
  }

  lemma SmallItems(e: Exchange)
    requires |e.initiator| == 32 && Small(e.first) && Small(e.second)
    requires e.ciphertext.Some? ==> |e.ciphertext.value| < 65536
    ensures FitsBuffers(e)
  {
    Widths();
    SmallPeerItems("peer-a-", e.first);
    SmallPeerItems("peer-b-", e.second);
    assert AllEncodable(HeadItems(e.profile, e.initiator));
    assert AllEncodable(OptionalItems(Ascii("pqc-ciphertext"), e.ciphertext));
  }

  lemma SmallPeerItems(prefix: string, p: Peer)
    requires Small(p) && |prefix| == 7
    ensures AllEncodable(PeerItems(prefix, p))
  {
    Widths();
    assert AllEncodable(OptionalItems(Ascii(prefix + "pqc"), p.pqc));
  }

  lemma Widths()
    ensures Pow256(4) >= 65536 && Pow256(8) >= 65536
  {
    EightBytes();
    assert Pow256(2) == 65536;
  }

  ghost predicate Small(p: Peer) {
    |p.identity| == 32 && |p.signing| == 32 && |p.ephemeral| == 32 && |p.nonce| == 32
    && (p.pqc.Some? ==> |p.pqc.value| < 65536)
  }

  function LocalIn(m: Material): Peer
    requires DecodeHello(m.hello).Ok?
  {
    DecodeHello(m.hello).value.(nonce := m.nonce)
  }

  /**
   If two successful derivations report the same transcript, and the hash does not collide on the two
   inputs, they agree on the profile, the initiator, the ciphertext and both peers' keys, nonces and
   timestamps; and if they are the two ends of one session, each saw exactly what the other sent.
   */
  lemma EqualTranscriptsAgree(c: Crypto, id: Identity, m: Material, peer: Hello, initiator: bool, pins: seq<Pin>,
                              now: nat, later: nat,
                              id': Identity, m': Material, peer': Hello, initiator': bool, pins': seq<Pin>,
                              now': nat, later': nat)
    requires Lawful(c)
    requires Derive(c, id, m, peer, initiator, pins, now, later).Ok?
    requires Derive(c, id', m', peer', initiator', pins', now', later').Ok?
    requires Derive(c, id, m, peer, initiator, pins, now, later).value.transcript
          == Derive(c, id', m', peer', initiator', pins', now', later').value.transcript
    requires var x, y := HashInput(m, peer, initiator), HashInput(m', peer', initiator');
             c.hash(x) == c.hash(y) ==> x == y
    ensures DecodeHello(m.hello).Ok? && DecodeHello(peer).Ok? && DecodeHello(m'.hello).Ok? && DecodeHello(peer').Ok?
    ensures ExchangeIn(m, peer, initiator) == ExchangeIn(m', peer', initiator')
    ensures m.profile == m'.profile
    ensures m.profile.SecureDefault? ==> m.pqCiphertext == m'.pqCiphertext
    ensures var local, remote, local', remote' :=
              LocalIn(m), DecodeHello(peer).value, LocalIn(m'), DecodeHello(peer').value;
            && {local, remote} == {local', remote'}
            && (local.identity == remote'.identity && local.identity != remote.identity ==>
                  local == remote' && remote == local' && initiator != initiator')
  {
    DeriveMeans(c, id, m, peer, initiator, pins, now, later);
    DeriveMeans(c, id', m', peer', initiator', pins', now', later');
    DerivedExchangeFits(c, id, m, peer, initiator, pins, now, later);
    DerivedExchangeFits(c, id', m', peer', initiator', pins', now', later');
    TranscriptInjective(ExchangeIn(m, peer, initiator), ExchangeIn(m', peer', initiator'));
    SameExchangeMeans(m.profile, LocalIn(m), DecodeHello(peer).value, initiator,
                      if m.profile.SecureDefault? then m.pqCiphertext else None,
                      m'.profile, LocalIn(m'), DecodeHello(peer').value, initiator',
                      if m'.profile.SecureDefault? then m'.pqCiphertext else None);
  }

  lemma SameExchangeMeans(profile: Profile, local: Peer, remote: Peer, initiator: bool, ct: Option<Bytes>,
                          profile': Profile, local': Peer, remote': Peer, initiator': bool, ct': Option<Bytes>)
    requires ExchangeOf(profile, local, remote, initiator, ct) == ExchangeOf(profile', local', remote', initiator', ct')
    ensures profile == profile' && ct == ct' && {local, remote} == {local', remote'}
    ensures local.identity == remote'.identity && local.identity != remote.identity ==>
              local == remote' && remote == local' && initiator != initiator'
  {
  }
}
