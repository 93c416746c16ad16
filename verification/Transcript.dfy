/**
 The byte strings a handshake authenticates: the labelled, length-prefixed transcript that keys are
 bound to, and the unprefixed payload that a hello signs. Both determine every field they carry.
 */
module Transcript {
  import opened Prelude
  import opened ByteCodec

  datatype Profile = SecureDefault | ClassicalLab

  function ProfileName(p: Profile): Bytes {
    match p
    case SecureDefault => Ascii("secure-default")
    case ClassicalLab => Ascii("classical-lab")
  }

  function ProtocolTag(p: Profile): Bytes {
    match p
    case SecureDefault => Ascii("shph/5/secure-default")
    case ClassicalLab => Ascii("shph/5/classical-lab")
  }

  // ---------- labelled items ----------

  datatype Item = Item(name: Bytes, value: Bytes)

  /** Lengths that the 4-byte and 8-byte prefixes can hold, as every in-memory buffer's can. */
  ghost predicate Encodable(item: Item) {
    |item.name| < Pow256(4) && |item.value| < Pow256(8)
  }

  function Field(item: Item): Bytes {
    BigEndian(|item.name|, 4) + (item.name + (BigEndian(|item.value|, 8) + item.value))
  }

  function Encode(items: seq<Item>): Bytes {
    if items == [] then [] else Field(items[0]) + Encode(items[1..])
  }

  /** A field is self-delimiting: what follows it can be told apart. */
  lemma FieldPrefix(a: Item, rest: Bytes, a': Item, rest': Bytes)
    requires Encodable(a) && Encodable(a') && Field(a) + rest == Field(a') + rest'
    ensures a == a' && rest == rest'
  {
    FieldAssoc(a, rest);
    FieldAssoc(a', rest');
    PrefixedEqual(4, a.name, BigEndian(|a.value|, 8) + (a.value + rest),
                  a'.name, BigEndian(|a'.value|, 8) + (a'.value + rest'));
    PrefixedEqual(8, a.value, rest, a'.value, rest');
  }

  lemma FieldAssoc(a: Item, rest: Bytes)
    ensures Field(a) + rest
         == BigEndian(|a.name|, 4) + (a.name + (BigEndian(|a.value|, 8) + (a.value + rest)))
  {
  }

  /** A length prefix tells where its value ends. */
  lemma PrefixedEqual(width: nat, v: Bytes, rest: Bytes, v': Bytes, rest': Bytes)
    requires |v| < Pow256(width) && |v'| < Pow256(width)
    requires BigEndian(|v|, width) + (v + rest) == BigEndian(|v'|, width) + (v' + rest')
    ensures v == v' && rest == rest'
  {
    SplitEqual(BigEndian(|v|, width), v + rest, BigEndian(|v'|, width), v' + rest');
    BigEndianInjective(|v|, |v'|, width);
    SplitEqual(v, rest, v', rest');
  }

  ghost predicate AllEncodable(items: seq<Item>) {
    forall i :: 0 <= i < |items| ==> Encodable(items[i])
  }

  /** The encoding of a list of items determines the list. */
  lemma {:induction false} EncodeInjective(a: seq<Item>, b: seq<Item>)
    requires AllEncodable(a) && AllEncodable(b) && Encode(a) == Encode(b)
    ensures a == b
    decreases |a|
  {
    if a == [] || b == [] {
      assert |Field(Item([], []))| == 12;
    } else {
      FieldPrefix(a[0], Encode(a[1..]), b[0], Encode(b[1..]));
      EncodeInjective(a[1..], b[1..]);
      assert a == [a[0]] + a[1..] && b == [b[0]] + b[1..];
    }
  }

  // ---------- the handshake transcript ----------

  datatype Peer = Peer(
    identity: Bytes, signing: Bytes, pqc: Option<Bytes>, ephemeral: Bytes, nonce: Bytes, timestamp: u64)

  datatype Exchange = Exchange(profile: Profile, initiator: Bytes, first: Peer, second: Peer, ciphertext: Option<Bytes>)

  function OptionalItems(name: Bytes, value: Option<Bytes>): seq<Item> {
    match value
    case None => [Item(name, [0])]
    case Some(v) => [Item(name, [1]), Item(name, v)]
  }

  function PeerItems(prefix: string, p: Peer): seq<Item> {
    [Item(Ascii(prefix + "identity"), p.identity), Item(Ascii(prefix + "signing"), p.signing)]
    + OptionalItems(Ascii(prefix + "pqc"), p.pqc)
    + [Item(Ascii(prefix + "ephemeral"), p.ephemeral), Item(Ascii(prefix + "nonce"), p.nonce),
       Item(Ascii(prefix + "timestamp"), BigEndian(p.timestamp, 8))]
  }

  function HeadItems(profile: Profile, initiator: Bytes): seq<Item> {
    [Item(Ascii("domain"), Ascii("shph/handshake-transcript-v2")),
     Item(Ascii("protocol"), ProtocolTag(profile)),
     Item(Ascii("profile"), ProfileName(profile)),
     Item(Ascii("initiator-identity"), initiator)]
  }

  function Items(e: Exchange): seq<Item> {
    HeadItems(e.profile, e.initiator) + PeerItems("peer-a-", e.first) + PeerItems("peer-b-", e.second)
    + OptionalItems(Ascii("pqc-ciphertext"), e.ciphertext)
  }

  lemma PeerItemsPrefix(prefix: string, p: Peer, rest: seq<Item>, q: Peer, rest': seq<Item>)
    requires PeerItems(prefix, p) + rest == PeerItems(prefix, q) + rest'
    ensures p == q && rest == rest'
  {
    var a, b := PeerItems(prefix, p) + rest, PeerItems(prefix, q) + rest';
    assert a[2].value == if p.pqc.Some? then [1] else [0];
    assert b[2].value == if q.pqc.Some? then [1] else [0];
    var n := |PeerItems(prefix, p)|;
    assert PeerItems(prefix, p) == a[..n] && PeerItems(prefix, q) == b[..n];
    assert rest == a[n..] && rest' == b[n..];
    var x, y := a[..n], b[..n];
    assert x[0] == y[0] && x[1] == y[1] && x[n - 3] == y[n - 3] && x[n - 2] == y[n - 2] && x[n - 1] == y[n - 1];
    assert p.pqc.Some? ==> x[3].value == p.pqc.value && y[3].value == q.pqc.value;
    EightByteTimestamps(p.timestamp, q.timestamp);
  }

  lemma EightByteTimestamps(a: u64, b: u64)
    requires BigEndian(a, 8) == BigEndian(b, 8)
    ensures a == b
  {
    EightBytes();
    BigEndianInjective(a, b, 8);
  }

  lemma ProfileNamesDiffer(p: Profile, q: Profile)
    ensures ProfileName(p) == ProfileName(q) ==> p == q
    ensures ProtocolTag(p) == ProtocolTag(q) ==> p == q
  {
    assert |ProfileName(SecureDefault)| != |ProfileName(ClassicalLab)|;
    assert |ProtocolTag(SecureDefault)| != |ProtocolTag(ClassicalLab)|;
  }

  lemma HeadPrefix(p: Profile, i: Bytes, rest: seq<Item>, q: Profile, j: Bytes, rest': seq<Item>)
    requires HeadItems(p, i) + rest == HeadItems(q, j) + rest'
    ensures p == q && i == j && rest == rest'
  {
    var a, b := HeadItems(p, i) + rest, HeadItems(q, j) + rest';
    assert a[2].value == ProfileName(p) && b[2].value == ProfileName(q);
    assert a[3].value == i && b[3].value == j;
    assert rest == a[4..] && rest' == b[4..];
    ProfileNamesDiffer(p, q);
  }

  lemma OptionalItemsInjective(name: Bytes, v: Option<Bytes>, w: Option<Bytes>)
    requires OptionalItems(name, v) == OptionalItems(name, w)
    ensures v == w
  {
    assert |OptionalItems(name, v)| == |OptionalItems(name, w)|;
    assert v.Some? ==> OptionalItems(name, v)[1] == OptionalItems(name, w)[1];
  }

  lemma ItemsAssoc(head: seq<Item>, a: seq<Item>, b: seq<Item>, c: seq<Item>)
    ensures head + a + b + c == head + (a + (b + c))
  {
  }

  lemma ItemsInjective(e: Exchange, f: Exchange)
    requires Items(e) == Items(f)
    ensures e == f
  {
    var name := Ascii("pqc-ciphertext");
    var x, y := OptionalItems(name, e.ciphertext), OptionalItems(name, f.ciphertext);
    var ea, eb := PeerItems("peer-a-", e.first), PeerItems("peer-b-", e.second);
    var fa, fb := PeerItems("peer-a-", f.first), PeerItems("peer-b-", f.second);
    ItemsAssoc(HeadItems(e.profile, e.initiator), ea, eb, x);
    ItemsAssoc(HeadItems(f.profile, f.initiator), fa, fb, y);
    HeadPrefix(e.profile, e.initiator, ea + (eb + x), f.profile, f.initiator, fa + (fb + y));
    PeerItemsPrefix("peer-a-", e.first, eb + x, f.first, fb + y);
    PeerItemsPrefix("peer-b-", e.second, x, f.second, y);
    OptionalItemsInjective(name, e.ciphertext, f.ciphertext);
  }

  function TranscriptBytes(e: Exchange): Bytes {
    Encode(Items(e))
  }

  ghost predicate FitsBuffers(e: Exchange) {
    AllEncodable(Items(e))
  }

  /** Equal transcripts force agreement on every field of the exchange. */
  lemma TranscriptInjective(e: Exchange, f: Exchange)
    requires FitsBuffers(e) && FitsBuffers(f) && TranscriptBytes(e) == TranscriptBytes(f)
    ensures e == f
  {
    EncodeInjective(Items(e), Items(f));
    ItemsInjective(e, f);
  }

  // ---------- the signed payload ----------

  const MAX_SIGNED_PAYLOAD_BYTES := 1400
  const ML_KEM_768_PUBLIC_KEY_BYTES := 1184
  const ML_KEM_768_CIPHERTEXT_BYTES := 1088

  function OptionalBytes(b: Option<Bytes>): Bytes {
    match b case None => [] case Some(v) => v
  }

  function SignedPayload(profile: Profile, p: Peer): Bytes {
    ProtocolTag(profile) + p.identity + p.signing + OptionalBytes(p.pqc) + p.ephemeral + p.nonce
    + BigEndian(p.timestamp, 8)
  }

  /** Fixed-size fields, and a post-quantum key exactly in the post-quantum profile. */
  ghost predicate WellSized(profile: Profile, p: Peer) {
    && |p.identity| == 32 && |p.signing| == 32 && |p.ephemeral| == 32 && |p.nonce| == 32
    && (profile.SecureDefault? <==> p.pqc.Some?)
    && (p.pqc.Some? ==> |p.pqc.value| == ML_KEM_768_PUBLIC_KEY_BYTES)
  }

  lemma PayloadLength(profile: Profile, p: Peer)
    requires WellSized(profile, p)
    ensures |SignedPayload(profile, p)| == if profile.SecureDefault? then 1341 else 156
  {
  }

  /** Where each field of a payload lies. */
  lemma PayloadLayout(profile: Profile, p: Peer)
    requires WellSized(profile, p)
    ensures var payload, t, k := SignedPayload(profile, p), |ProtocolTag(profile)|, |OptionalBytes(p.pqc)|;
            && |payload| == t + k + 136
            && payload[..t] == ProtocolTag(profile)
            && payload[t..t + 32] == p.identity && payload[t + 32..t + 64] == p.signing
            && payload[t + 64..t + 64 + k] == OptionalBytes(p.pqc)
            && payload[t + 64 + k..t + 96 + k] == p.ephemeral && payload[t + 96 + k..t + 128 + k] == p.nonce
            && payload[t + 128 + k..] == BigEndian(p.timestamp, 8)
  {
    var payload := SignedPayload(profile, p);
    var h1 := ProtocolTag(profile);
    var h2 := h1 + p.identity;
    var h3 := h2 + p.signing;
    var h4 := h3 + OptionalBytes(p.pqc);
    var h5 := h4 + p.ephemeral;
    var h6 := h5 + p.nonce;
    assert payload[..|payload|] == payload;
    PartOf(h6, BigEndian(p.timestamp, 8), payload);
    PartOf(h5, p.nonce, payload);
    PartOf(h4, p.ephemeral, payload);
    PartOf(h3, OptionalBytes(p.pqc), payload);
    PartOf(h2, p.signing, payload);
    PartOf(h1, p.identity, payload);
  }

  lemma PartOf(h: Bytes, part: Bytes, whole: Bytes)
    requires |h| + |part| <= |whole| && whole[..|h| + |part|] == h + part
    ensures whole[|h|..|h| + |part|] == part && whole[..|h|] == h
  {
    assert whole[|h|..|h| + |part|] == whole[..|h| + |part|][|h|..];
    assert whole[..|h|] == whole[..|h| + |part|][..|h|];
  }

  /** Although unprefixed, a signed payload determines the profile and every field, across profiles. */
  lemma SignedPayloadInjective(profile: Profile, p: Peer, profile': Profile, q: Peer)
    requires WellSized(profile, p) && WellSized(profile', q)
    requires SignedPayload(profile, p) == SignedPayload(profile', q)
    ensures profile == profile' && p == q
  {
    PayloadLength(profile, p);
    PayloadLength(profile', q);
    var h1, h1' := ProtocolTag(profile), ProtocolTag(profile');
    var h2, h2' := h1 + p.identity, h1' + q.identity;
    var h3, h3' := h2 + p.signing, h2' + q.signing;
    var h4, h4' := h3 + OptionalBytes(p.pqc), h3' + OptionalBytes(q.pqc);
    var h5, h5' := h4 + p.ephemeral, h4' + q.ephemeral;
    var h6, h6' := h5 + p.nonce, h5' + q.nonce;
    SplitEqual(h6, BigEndian(p.timestamp, 8), h6', BigEndian(q.timestamp, 8));
    SplitEqual(h5, p.nonce, h5', q.nonce);
    SplitEqual(h4, p.ephemeral, h4', q.ephemeral);
    SplitEqual(h3, OptionalBytes(p.pqc), h3', OptionalBytes(q.pqc));
    SplitEqual(h2, p.signing, h2', q.signing);
    SplitEqual(h1, p.identity, h1', q.identity);
    EightByteTimestamps(p.timestamp, q.timestamp);
  }

  /** Appends one part to the fixed buffer, or refuses it. */
  method AppendSignedPart(buffer: array<byte>, length: nat, part: Bytes) returns (end: Option<nat>)
    requires length <= buffer.Length
    modifies buffer
    ensures end == if length + |part| > buffer.Length then None else Some(length + |part|)
    ensures end.Some? ==> buffer[..end.value] == old(buffer[..length]) + part
    ensures end.None? ==> buffer[..] == old(buffer[..])
  {
    if length + |part| > buffer.Length {
      return None;
    }
    for i := 0 to |part|
      invariant buffer[..length] == old(buffer[..length])
      invariant forall k :: 0 <= k < i ==> buffer[length + k] == part[k]
    {
      buffer[length + i] := part[i];
    }
    end := Some(length + |part|);
  }

  /** The payload as the program builds it: part by part in a 1400-byte buffer. */
  method BuildSignedPayload(profile: Profile, p: Peer) returns (payload: Option<Bytes>)
    ensures |SignedPayload(profile, p)| <= MAX_SIGNED_PAYLOAD_BYTES ==> payload == Some(SignedPayload(profile, p))
    ensures |SignedPayload(profile, p)| > MAX_SIGNED_PAYLOAD_BYTES ==> payload == None
  {
    var buffer := new byte[MAX_SIGNED_PAYLOAD_BYTES](_ => 0);
    var end := AppendSignedPart(buffer, 0, ProtocolTag(profile));
    end := AppendNext(buffer, end, p.identity, ProtocolTag(profile));
    end := AppendNext(buffer, end, p.signing, ProtocolTag(profile) + p.identity);
    end := AppendNext(buffer, end, OptionalBytes(p.pqc), ProtocolTag(profile) + p.identity + p.signing);
    end := AppendNext(buffer, end, p.ephemeral,
                      ProtocolTag(profile) + p.identity + p.signing + OptionalBytes(p.pqc));
    end := AppendNext(buffer, end, p.nonce,
                      ProtocolTag(profile) + p.identity + p.signing + OptionalBytes(p.pqc) + p.ephemeral);
    end := AppendNext(buffer, end, BigEndian(p.timestamp, 8),
                      ProtocolTag(profile) + p.identity + p.signing + OptionalBytes(p.pqc) + p.ephemeral + p.nonce);
    payload := if end.None? then None else Some(buffer[..end.value]);
  }

  /** The `?` after each append: a refused part ends the construction. */
  method AppendNext(buffer: array<byte>, end: Option<nat>, part: Bytes, ghost before: Bytes) returns (next: Option<nat>)
    requires end == if |before| > buffer.Length then None else Some(|before|)
    requires end.Some? ==> buffer[..end.value] == before
    modifies buffer
    ensures next == if |before + part| > buffer.Length then None else Some(|before + part|)
    ensures next.Some? ==> buffer[..next.value] == before + part
  {
    if end.None? {
      return None;
    }
    next := AppendSignedPart(buffer, end.value, part);
  }
}
