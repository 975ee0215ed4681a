/** The envelope of a relayed broadcast: a 76-byte header with the origin, the
    message identity and the hops left, then the payload. */
module GossipEnvelope {
  import opened Machine
  import opened BigEndian

  const MAGIC: U32 := 0x4950_4742
  const VERSION: Byte := 1
  const HEADER: nat := 76

  /** An origin or message identity; all zeros means none. */
  predicate IsEmpty(c: Conv) {
    forall i :: 0 <= i < |c| ==> c[i] == 0
  }

  datatype Envelope = Envelope(origin: Conv, id: Conv, ttl: Byte, payload: seq<Byte>)

  /** What can be put on the wire. */
  predicate Encodable(e: Envelope) {
    !IsEmpty(e.origin) && !IsEmpty(e.id) && |e.payload| < WORD
  }

  function Head(e: Envelope): (r: seq<Byte>)
    requires |e.payload| < WORD
    ensures |r| == HEADER
  {
    Store32(MAGIC) + [VERSION, e.ttl, 0, 0] + e.origin + e.id + Store32(|e.payload|)
  }

  /** Nothing at all is returned for what cannot be encoded. */
  function Encode(e: Envelope): seq<Byte> {
    if !Encodable(e) then [] else Head(e) + e.payload
  }

  datatype Decoded = Plain | Invalid | Ok(e: Envelope)

  function Decode(b: seq<Byte>): Decoded {
    if |b| < 4 || Load32(b) != MAGIC then Plain
    else if |b| < HEADER || b[4] != VERSION || b[6] != 0 || b[7] != 0 then Invalid
    else if |b| - HEADER != Load32(b[72..]) then Invalid
    else
      var e := Envelope(b[8..40], b[40..72], b[5], b[HEADER..]);
      if IsEmpty(e.origin) || IsEmpty(e.id) then Invalid else Ok(e)
  }

  lemma {:induction false} HeadFields(e: Envelope)
    requires |e.payload| < WORD
    ensures var b := Head(e) + e.payload;
      && b[..4] == Store32(MAGIC) && b[4..8] == [VERSION, e.ttl, 0, 0] && b[8..40] == e.origin && b[40..72] == e.id
      && b[72..76] == Store32(|e.payload|) && b[76..] == e.payload
  {
  }

  lemma {:induction false} LoadPrefix(b: seq<Byte>, k: nat)
    requires k + 4 <= |b|
    ensures Load32(b[k..]) == Load32(b[k..k + 4])
  {
  }

  /** What was encoded is decoded again, field by field. */
  lemma {:induction false} DecodeEncode(e: Envelope)
    requires Encodable(e)
    ensures Decode(Encode(e)) == Ok(e)
  {
    var b := Head(e) + e.payload;
    HeadFields(e);
    LoadStore32(MAGIC);
    LoadStore32(|e.payload|);
    LoadPrefix(b, 0);
    LoadPrefix(b, 72);
    assert b[0..] == b;
    assert b[4] == b[4..8][0] && b[5] == b[4..8][1] && b[6] == b[4..8][2] && b[7] == b[4..8][3];
    hide Head, Store32, Load32;
  }

  /** Only what was encoded is accepted: a decoded envelope encodes to the same bytes. */
  lemma {:induction false} EncodeDecode(b: seq<Byte>)
    requires Decode(b).Ok?
    ensures Encodable(Decode(b).e) && Encode(Decode(b).e) == b
  {
    var e := Decode(b).e;
    LoadPrefix(b, 0);
    LoadPrefix(b, 72);
    assert b[0..] == b;
    StoreLoad32(b[0..4]);
    StoreLoad32(b[72..76]);
    assert b[4..8] == [VERSION, e.ttl, 0, 0];
    assert b == b[0..4] + b[4..8] + b[8..40] + b[40..72] + b[72..76] + b[76..];
    hide Store32, Load32;
  }

  /** The bytes of an envelope, one field after the other. */
  lemma {:induction false} EnvelopeLayout(e: Envelope)
    requires Encodable(e)
    ensures var b := Encode(e);
      && |b| == 76 + |e.payload| && b[..8] == [0x49, 0x50, 0x47, 0x42, 1, e.ttl, 0, 0]
      && b[8..40] == e.origin && b[40..72] == e.id && b[76..] == e.payload
      && |e.payload| == (b[72] as int) * 0x100_0000 + (b[73] as int) * 0x1_0000 + (b[74] as int) * 0x100 + b[75] as int
  {
    var b := Head(e) + e.payload;
    HeadFields(e);
    BigEndianValue(|e.payload|);
    assert Store32(MAGIC) == [0x49, 0x50, 0x47, 0x42];
    assert b[72] == b[72..76][0] && b[73] == b[72..76][1] && b[74] == b[72..76][2] && b[75] == b[72..76][3];
    assert b[..8] == b[..4] + b[4..8];
    hide Head, Store32;
  }

  /** Bytes without the magic are an ordinary message; with it they are accepted exactly
      when they are the encoding of some envelope, and invalid otherwise. */
  lemma {:induction false} DecodesExactly(b: seq<Byte>)
    ensures Decode(b).Plain? <==> !(|b| >= 4 && b[..4] == [0x49, 0x50, 0x47, 0x42])
    ensures Decode(b).Ok? <==> exists e :: Encodable(e) && Encode(e) == b
  {
    if |b| >= 4 {
      LoadPrefix(b, 0);
      assert b[0..] == b && b[0..4] == b[..4];
      StoreLoad32(b[..4]);
      assert Store32(MAGIC) == [0x49, 0x50, 0x47, 0x42];
      LoadStore32(MAGIC);
    }
    hide Store32, Load32, Encode;
    if Decode(b).Ok? { EncodeDecode(b); }
    if e :| Encodable(e) && Encode(e) == b { DecodeEncode(e); }
  }
}
