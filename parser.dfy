/**
 * The Engine.IO packet codec: `encode_packet` and `decode_packet`.
 *
 * Text frames are `seq<char>`. `decode_packet` inspects the first one or two UTF-8
 * bytes of a text frame; every marker it accepts ('b', '0'..'6') is ASCII, and
 * the lead byte of a non-ASCII character is never one of them, so testing the
 * first one or two characters gives the same outcomes (see MarkerType).
 */
module Parser {
  import opened Common
  import opened Eio
  import Base64

  /** Why a frame could not be decoded. */
  datatype DecodeError =
    | PacketEmpty        // empty text frame
    | PacketTooShort     // "b" with no type digit, or an empty binary frame
    | InvalidPacketType  // a type marker outside 0..6
    | InvalidBase64      // the payload after "b<digit>" is not valid base64

  /** The decimal rendering of a number, as Rust's `Display` for integers writes it. */
  function DecimalString(n: nat): (s: string)
    ensures |s| >= 1
    ensures forall i :: 0 <= i < |s| ==> '0' <= s[i] <= '9'
    ensures |s| > 1 ==> s[0] != '0'
    ensures n < 10 <==> |s| == 1
    decreases n
  {
    if n < 10 then [(48 + n) as char] else DecimalString(n / 10) + [(48 + n % 10) as char]
  }

  /** The number a string of decimal digits denotes: the reference DecimalString is checked against. */
  function DecimalValue(s: string): nat
    requires forall i :: 0 <= i < |s| ==> '0' <= s[i] <= '9'
    decreases |s|
  {
    if |s| == 0 then 0 else DecimalValue(s[..|s| - 1]) * 10 + (s[|s| - 1] as int - 48)
  }

  lemma {:induction false} DecimalRoundTrip(n: nat)
    ensures DecimalValue(DecimalString(n)) == n
    decreases n
  {
    if n >= 10 {
      var s := DecimalString(n);
      DecimalRoundTrip(n / 10);
      assert s[..|s| - 1] == DecimalString(n / 10);
    }
  }

  /**
   * The packet type named by a leading character: `FromAscii` of its byte.
   * A character from 128 on has a lead UTF-8 byte of at least 0xC2, for which
   * `FromAscii` is None, as it is here.
   */
  function MarkerType(c: char): (r: Option<PacketType>)
    ensures r.Some? <==> '0' <= c <= '6'
    ensures r.Some? ==> DecimalString(Id(r.value)) == [c]
  {
    if c as int < 256 then FromAscii(c as int) else None
  }

  /** The ASCII digit of a packet type: the one character of `DecimalString(Id(t))`. */
  function Digit(t: PacketType): (c: char)
    ensures '0' <= c <= '6' && DecimalString(Id(t)) == [c]
  {
    (48 + Id(t)) as char
  }

  /** Reading a type digit back gives the type it was written for. */
  lemma MarkerTypeOfDigit(t: PacketType)
    ensures MarkerType(Digit(t)) == Some(t)
  {
    FromAsciiDigit(t);
  }

  /** What `encode_packet` produces: the wire form of `p`. */
  function Encode(p: Packet, supportsBinary: bool): (r: PacketData)
    ensures r.Bytes? <==> supportsBinary && p.data.Some? && p.data.value.Bytes?
    ensures r.Text? ==> |r.text| >= 1
  {
    var id := Id(p.typ);
    match p.data
    case Some(Text(text)) => Text(DecimalString(id) + text)
    case Some(Bytes(bytes)) =>
      if supportsBinary then Bytes([id] + bytes)
      else Text("b" + DecimalString(id) + Base64.Encode(bytes))
    case None => Text(DecimalString(id))
  }

  /**
   * `encode_packet`; the binary branch fills its output buffer step by step:
   * first the raw id, then the payload bytes.
   */
  method EncodePacket(packet: Packet, supportsBinary: bool) returns (r: PacketData)
    ensures r == Encode(packet, supportsBinary)
    ensures supportsBinary && packet.data.Some? && packet.data.value.Bytes? ==>
      var b := packet.data.value.bytes;
      r.Bytes? && |r.bytes| == |b| + 1 && r.bytes[0] == Id(packet.typ) && r.bytes[1..] == b
    ensures r.Bytes? <==> supportsBinary && packet.data.Some? && packet.data.value.Bytes?
  {
    var id := Id(packet.typ);
    match packet.data {
      case Some(Text(text)) =>
        r := Text(DecimalString(id) + text);
      case Some(Bytes(bytes)) =>
        if supportsBinary {
          var data: seq<Byte> := [];
          data := data + [id];
          data := data + bytes;
          r := Bytes(data);
        } else {
          r := Text("b" + DecimalString(id) + Base64.Encode(bytes));
        }
      case None =>
        r := Text(DecimalString(id));
    }
  }

  /**
   * `decode_packet`: a packet, or the first validation failure. A text frame
   * fails exactly in the cases listed (DecodeTextErrors gives the error of
   * each); a binary frame fails when empty or led by a byte above 6, and
   * otherwise keeps all remaining bytes as payload, even none.
   */
  function DecodePacket(data: PacketData): (r: Result<Packet, DecodeError>)
    ensures data.Text? ==> (r.Err? <==>
      || |data.text| == 0
      || (data.text[0] == 'b' && (|data.text| < 2 || !('0' <= data.text[1] <= '6') || Base64.Decode(data.text[2..]).None?))
      || (data.text[0] != 'b' && !('0' <= data.text[0] <= '6')))
    ensures data.Bytes? && |data.bytes| == 0 ==> r == Err(PacketTooShort)
    ensures data.Bytes? && |data.bytes| > 0 && data.bytes[0] > 6 ==> r == Err(InvalidPacketType)
    ensures data.Bytes? && |data.bytes| > 0 && data.bytes[0] <= 6 ==>
      r == Ok(Packet(FromRaw(data.bytes[0]).value, Some(Bytes(data.bytes[1..]))))
  {
    match data
    case Text(text) =>
      if |text| == 0 then Err(PacketEmpty)
      else if text[0] == 'b' then
        if |text| < 2 then Err(PacketTooShort)
        else
          (match MarkerType(text[1])
           case None => Err(InvalidPacketType)
           case Some(t) =>
             (match Base64.Decode(text[2..])
              case None => Err(InvalidBase64)
              case Some(bytes) => Ok(Packet(t, Some(Bytes(bytes))))))
      else
        (match MarkerType(text[0])
         case None => Err(InvalidPacketType)
         case Some(t) =>
           var rest := text[1..];
           Ok(Packet(t, if |rest| != 0 then Some(Text(rest)) else None)))
    case Bytes(bytes) =>
      if |bytes| == 0 then Err(PacketTooShort)
      else
        match FromRaw(bytes[0])
        case None => Err(InvalidPacketType)
        case Some(t) => Ok(Packet(t, Some(Bytes(bytes[1..]))))
  }

  /** A packet without a payload is sent as its type digit alone. */
  lemma EncodeNone(t: PacketType, supportsBinary: bool)
    ensures Encode(Packet(t, None), supportsBinary) == Text([Digit(t)])
  {
  }

  /** A text payload follows the type digit unchanged, whatever the channel. */
  lemma EncodeText(t: PacketType, s: string, supportsBinary: bool)
    ensures var r := Encode(Packet(t, Some(Text(s))), supportsBinary);
      r.Text? && |r.text| == |s| + 1 && r.text[0] == Digit(t) && r.text[1..] == s
  {
  }

  /** On a binary channel, bytes follow one byte holding the raw id (not its digit). */
  lemma EncodeBinary(t: PacketType, b: seq<Byte>)
    ensures var r := Encode(Packet(t, Some(Bytes(b))), true);
      r.Bytes? && |r.bytes| == |b| + 1 && r.bytes[0] == Id(t) && r.bytes[1..] == b
  {
  }

  /** On a text-only channel, bytes are sent as "b", the type digit, then their base64. */
  lemma EncodeBase64Fallback(t: PacketType, b: seq<Byte>)
    ensures Encode(Packet(t, Some(Bytes(b))), false) == Text(['b', Digit(t)] + Base64.Encode(b))
    ensures Base64.Decode(Encode(Packet(t, Some(Bytes(b))), false).text[2..]) == Some(b)
  {
    assert (['b', Digit(t)] + Base64.Encode(b))[2..] == Base64.Encode(b);
    Base64.RoundTrip(b);
  }

  /** The packet that decoding an encoded `p` gives back: an empty text payload becomes none. */
  function Collapsed(p: Packet): (q: Packet)
    ensures q.typ == p.typ
    ensures q.data != Some(Text(""))
    ensures p.data == Some(Text("")) ==> q.data.None?
    ensures p.data != Some(Text("")) ==> q == p
  {
    if p.data == Some(Text("")) then Packet(p.typ, None) else p
  }

  /** Decoding inverts encoding on both kinds of channel, up to the empty-text collapse. */
  lemma RoundTrip(p: Packet, supportsBinary: bool)
    ensures DecodePacket(Encode(p, supportsBinary)) == Ok(Collapsed(p))
  {
    var t := p.typ;
    MarkerTypeOfDigit(t);
    match p.data {
      case None =>
      case Some(Text(s)) =>
        var text := Encode(p, supportsBinary).text;
        assert text[0] == Digit(t) && text[1..] == s;
      case Some(Bytes(b)) =>
        if !supportsBinary {
          var text := Encode(p, supportsBinary).text;
          assert text[2..] == Base64.Encode(b);
          Base64.RoundTrip(b);
        }
    }
  }

  /**
   * Conversely, every frame that decodes is re-encoded exactly: a binary frame
   * for a binary channel, a "b" frame for a text-only one, any other text
   * frame for either.
   */
  lemma DecodeThenEncode(w: PacketData)
    requires DecodePacket(w).Ok?
    ensures w.Bytes? ==> Encode(DecodePacket(w).value, true) == w
    ensures w.Text? && |w.text| > 0 && w.text[0] == 'b' ==> Encode(DecodePacket(w).value, false) == w
    ensures w.Text? && |w.text| > 0 && w.text[0] != 'b' ==>
      Encode(DecodePacket(w).value, true) == w && Encode(DecodePacket(w).value, false) == w
  {
    var p := DecodePacket(w).value;
    match w {
      case Bytes(bytes) =>
        assert [bytes[0]] + bytes[1..] == bytes;
      case Text(text) =>
        if text[0] == 'b' {
          Base64.Canonical(text[2..]);
          assert "b" + [text[1]] + text[2..] == text;
        } else {
          assert [text[0]] + text[1..] == text;
        }
    }
  }

  /** Two packets share a wire form exactly when they decode to the same packet. */
  lemma EncodeInjective(p: Packet, q: Packet, supportsBinary: bool)
    ensures Encode(p, supportsBinary) == Encode(q, supportsBinary) <==> Collapsed(p) == Collapsed(q)
  {
    if Encode(p, supportsBinary) == Encode(q, supportsBinary) {
      RoundTrip(p, supportsBinary);
      RoundTrip(q, supportsBinary);
    }
    if Collapsed(p) == Collapsed(q) {
      assert Encode(p, supportsBinary) == Encode(Collapsed(p), supportsBinary);
      assert Encode(q, supportsBinary) == Encode(Collapsed(q), supportsBinary);
    }
  }

  /** The error each failing text frame gives, in the order the checks are made. */
  lemma DecodeTextErrors(text: string)
    ensures |text| == 0 ==> DecodePacket(Text(text)) == Err(PacketEmpty)
    ensures text == "b" ==> DecodePacket(Text(text)) == Err(PacketTooShort)
    ensures |text| > 0 && text[0] != 'b' && !('0' <= text[0] <= '6') ==>
      DecodePacket(Text(text)) == Err(InvalidPacketType)
    ensures |text| >= 2 && text[0] == 'b' && !('0' <= text[1] <= '6') ==>
      DecodePacket(Text(text)) == Err(InvalidPacketType)
    ensures |text| >= 2 && text[0] == 'b' && '0' <= text[1] <= '6' && Base64.Decode(text[2..]).None? ==>
      DecodePacket(Text(text)) == Err(InvalidBase64)
  {
    if text == "b" {
      assert |text| == 1;
    }
  }

  /** A text frame led by a type digit gives that type and the rest of the text, unchanged. */
  lemma DecodeTextSuccess(text: string)
    requires |text| > 0 && '0' <= text[0] <= '6'
    ensures DecodePacket(Text(text)) ==
      Ok(Packet(FromAscii(text[0] as int).value, if |text| > 1 then Some(Text(text[1..])) else None))
  {
  }

  /** A "b" frame with a valid digit and valid base64 gives that type and the decoded bytes. */
  lemma DecodeBase64Success(text: string)
    requires |text| >= 2 && text[0] == 'b' && '0' <= text[1] <= '6' && Base64.Decode(text[2..]).Some?
    ensures DecodePacket(Text(text)) ==
      Ok(Packet(FromAscii(text[1] as int).value, Some(Bytes(Base64.Decode(text[2..]).value))))
  {
  }
}
