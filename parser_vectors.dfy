/** The codec's worked examples: each encodes as shown and decodes back to its packet. */
module ParserVectors {
  import opened Common
  import opened Eio
  import opened Parser
  import Base64

  /** The round trip every example checks: `p` encodes to `wire` and `wire` decodes to `p`. */
  ghost predicate RoundTripsAs(p: Packet, supportsBinary: bool, wire: PacketData)
  {
    Encode(p, supportsBinary) == wire && DecodePacket(wire) == Ok(p)
  }

  lemma AllowsNoData()
    ensures RoundTripsAs(Packet(Message, None), true, FromStr("4"))
  {
  }

  lemma OpenPacket()
    ensures RoundTripsAs(Packet(Open, Some(FromStr("{\"some\":\"json\"}"))), true, FromStr("0{\"some\":\"json\"}"))
  {
  }

  lemma ClosePacket()
    ensures RoundTripsAs(Packet(Close, None), true, FromStr("1"))
  {
  }

  lemma PingPacket()
    ensures RoundTripsAs(Packet(Ping, Some(FromStr("1"))), true, FromStr("21"))
  {
  }

  lemma MessagePacket()
    ensures RoundTripsAs(Packet(Message, Some(FromStr("aaa"))), true, FromStr("4aaa"))
  {
  }

  lemma Utf8MessagePackets()
    ensures RoundTripsAs(Packet(Message, Some(FromStr("utf8 — string"))), true, FromStr("4utf8 — string"))
    ensures RoundTripsAs(Packet(Message, Some(FromStr("€€€"))), true, FromStr("4€€€"))
  {
  }

  lemma UpgradePacket()
    ensures RoundTripsAs(Packet(Upgrade, None), true, FromStr("5"))
  {
  }

  lemma BytesToBytes()
    ensures RoundTripsAs(Packet(Message, Some(FromBytes([0, 1, 1, 2, 3, 5, 8]))), true, FromBytes([4, 0, 1, 1, 2, 3, 5, 8]))
  {
  }

  lemma VectorSymbols()
    ensures Base64.Symbol(0) == 'A' && Base64.Symbol(1) == 'B' && Base64.Symbol(2) == 'C'
    ensures Base64.Symbol(4) == 'E' && Base64.Symbol(5) == 'F' && Base64.Symbol(12) == 'M'
    ensures Base64.Symbol(32) == 'g'
  {
  }

  /** The base64 text of the example bytes, group by group. */
  lemma Base64Vector()
    ensures Base64.Encode([0, 1, 1, 2, 3, 5, 8]) == "AAEBAgMFCA=="
  {
    var b: seq<Byte> := [0, 1, 1, 2, 3, 5, 8];
    VectorSymbols();
    assert Base64.EncodeGroup(0, 1, 1) == "AAEB";
    assert Base64.EncodeGroup(2, 3, 5) == "AgMF";
    assert Base64.EncodeTailOne(8) == "CA==";
    assert b[3..] == [2, 3, 5, 8] && b[3..][3..] == [8];
    assert "AAEB" + "AgMF" + "CA==" == "AAEBAgMFCA==";
  }

  /** An example whose packet has no empty text payload round-trips once its encoding is known. */
  lemma RoundTripsFromEncoding(p: Packet, supportsBinary: bool, wire: PacketData)
    requires p.data != Some(Text("")) && Encode(p, supportsBinary) == wire
    ensures RoundTripsAs(p, supportsBinary, wire)
  {
    RoundTrip(p, supportsBinary);
  }

  lemma FallbackWirePieces()
    ensures Digit(Message) == '4'
    ensures ['b', '4'] + "AAEBAgMFCA==" == "b4AAEBAgMFCA=="
  {
  }

  lemma FallbackWire()
    ensures Encode(Packet(Message, Some(FromBytes([0, 1, 1, 2, 3, 5, 8]))), false) == FromStr("b4AAEBAgMFCA==")
  {
    Base64Vector();
    EncodeBase64Fallback(Message, [0, 1, 1, 2, 3, 5, 8]);
    FallbackWirePieces();
  }

  lemma BytesToBase64WhenBinaryNotAllowed()
    ensures RoundTripsAs(Packet(Message, Some(FromBytes([0, 1, 1, 2, 3, 5, 8]))), false, FromStr("b4AAEBAgMFCA=="))
  {
    FallbackWire();
    RoundTripsFromEncoding(Packet(Message, Some(FromBytes([0, 1, 1, 2, 3, 5, 8]))), false, FromStr("b4AAEBAgMFCA=="));
  }

  lemma DecodeDisallowsBadFormat()
    ensures DecodePacket(FromStr(":::")).Err?
  {
  }

  lemma DecodeDisallowsNonexistentTypes()
    ensures DecodePacket(FromStr("94103")).Err?
  {
  }
}
