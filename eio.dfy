/**
 * The Engine.IO packet data model: packet types and their wire ids, payloads
 * (which are also the wire form of an encoded packet), and packets.
 */
module Eio {
  import opened Common

  /** A payload, or an encoded frame: UTF-8 text or raw bytes. */
  datatype PacketData = Text(text: string) | Bytes(bytes: seq<Byte>)

  /** The seven packet types, in declaration order. */
  datatype PacketType = Open | Close | Ping | Pong | Message | Upgrade | Noop

  datatype Packet = Packet(typ: PacketType, data: Option<PacketData>)

  /** `From<&str>`: the string becomes a text payload, unchanged. */
  function FromStr(s: string): (r: PacketData)
    ensures r.Text? && r.text == s
  {
    Text(s)
  }

  /**
   * `From<[u8; N]>` and `From<&[u8]>`: the bytes become a binary payload,
   * unchanged. A fixed-size array and a slice are both a `seq<Byte>` here.
   */
  function FromBytes(b: seq<Byte>): (r: PacketData)
    ensures r.Bytes? && r.bytes == b
  {
    Bytes(b)
  }

  /** The wire id of a packet type. */
  function Id(t: PacketType): (r: Byte)
    ensures r <= 6
  {
    match t
    case Open => 0
    case Close => 1
    case Ping => 2
    case Pong => 3
    case Message => 4
    case Upgrade => 5
    case Noop => 6
  }

  /** The packet type with raw id `b`, if there is one. */
  function FromRaw(b: Byte): (r: Option<PacketType>)
    ensures r.Some? <==> b <= 6
    ensures r.Some? ==> Id(r.value) == b
  {
    match b
    case 0 => Some(Open)
    case 1 => Some(Close)
    case 2 => Some(Ping)
    case 3 => Some(Pong)
    case 4 => Some(Message)
    case 5 => Some(Upgrade)
    case 6 => Some(Noop)
    case _ => None
  }

  /** The packet type whose ASCII digit is `c` ('0' is 48), if there is one. */
  function FromAscii(c: Byte): (r: Option<PacketType>)
    ensures r.Some? <==> 48 <= c <= 54
    ensures r.Some? ==> Id(r.value) == c - 48
    ensures 48 <= c <= 54 ==> r == FromRaw(c - 48)
  {
    if 48 <= c <= 54 then FromRaw(c - 48) else None
  }

  /** Distinct types have distinct ids, so `Id` is a bijection onto 0..6. */
  lemma IdInjective(t1: PacketType, t2: PacketType)
    ensures Id(t1) == Id(t2) ==> t1 == t2
  {
  }

  lemma FromRawId(t: PacketType)
    ensures FromRaw(Id(t)) == Some(t)
  {
  }

  /** The digit encoding `48 + Id(t)` is undone by `FromAscii`. */
  lemma FromAsciiDigit(t: PacketType)
    ensures FromAscii(48 + Id(t)) == Some(t)
  {
    FromRawId(t);
  }

  /** The types as the enum declares them; the derived `Ord` follows this order. */
  const DeclarationOrder: seq<PacketType> := [Open, Close, Ping, Pong, Message, Upgrade, Noop]

  /** `t1 < t2` under the derived ordering: `t1` is declared before `t2`. */
  ghost predicate Precedes(t1: PacketType, t2: PacketType)
  {
    exists i, j :: 0 <= i < j < |DeclarationOrder| && DeclarationOrder[i] == t1 && DeclarationOrder[j] == t2
  }

  lemma DeclarationIndex(t: PacketType)
    ensures Id(t) < |DeclarationOrder| && DeclarationOrder[Id(t)] == t
  {
  }

  lemma IdOfDeclared(i: int)
    requires 0 <= i < |DeclarationOrder|
    ensures Id(DeclarationOrder[i]) == i
  {
  }

  /** The derived order and the order of the wire ids agree. */
  lemma OrderFollowsId(t1: PacketType, t2: PacketType)
    ensures Precedes(t1, t2) <==> Id(t1) < Id(t2)
  {
    DeclarationIndex(t1);
    DeclarationIndex(t2);
    if Precedes(t1, t2) {
      var i, j :| 0 <= i < j < |DeclarationOrder| && DeclarationOrder[i] == t1 && DeclarationOrder[j] == t2;
      IdOfDeclared(i);
      IdOfDeclared(j);
    }
  }
}
