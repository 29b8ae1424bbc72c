/**
 * Base64 with the standard alphabet and `=` padding (section 4 of RFC 4648).
 *
 * The encoder always pads. The decoder is strict: the input length must be a
 * multiple of four, every character must be in the alphabet, `=` may appear
 * only as the last one or two characters, and the unused low bits of the last
 * symbol before the padding must be zero. With these rules the two functions
 * are mutual inverses (RoundTrip and Canonical below).
 */
module Base64 {
  import opened Common

  /** The 64-symbol standard alphabet: A-Z, a-z, 0-9, '+', '/'. */
  function Symbol(v: int): (c: char)
    requires 0 <= v < 64
  {
    if v < 26 then ('A' as int + v) as char
    else if v < 52 then ('a' as int + (v - 26)) as char
    else if v < 62 then ('0' as int + (v - 52)) as char
    else if v == 62 then '+'
    else '/'
  }

  /** The value of an alphabet character; None for anything else (including '='). */
  function SymbolValue(c: char): (r: Option<int>)
    ensures r.Some? ==> 0 <= r.value < 64 && Symbol(r.value) == c
  {
    if 'A' <= c <= 'Z' then Some(c as int - 'A' as int)
    else if 'a' <= c <= 'z' then Some(c as int - 'a' as int + 26)
    else if '0' <= c <= '9' then Some(c as int - '0' as int + 52)
    else if c == '+' then Some(62)
    else if c == '/' then Some(63)
    else None
  }

  lemma SymbolValueOfSymbol(v: int)
    requires 0 <= v < 64
    ensures SymbolValue(Symbol(v)) == Some(v)
    ensures Symbol(v) != '='
  {
  }

  /** The four symbols of one complete 3-byte group. */
  function EncodeGroup(b0: Byte, b1: Byte, b2: Byte): seq<char>
  {
    [Symbol(b0 / 4), Symbol((b0 % 4) * 16 + b1 / 16), Symbol((b1 % 16) * 4 + b2 / 64), Symbol(b2 % 64)]
  }

  /** The final quartet for one leftover byte: two symbols and "==". */
  function EncodeTailOne(b0: Byte): seq<char>
  {
    [Symbol(b0 / 4), Symbol((b0 % 4) * 16), '=', '=']
  }

  /** The final quartet for two leftover bytes: three symbols and "=". */
  function EncodeTailTwo(b0: Byte, b1: Byte): seq<char>
  {
    [Symbol(b0 / 4), Symbol((b0 % 4) * 16 + b1 / 16), Symbol((b1 % 16) * 4), '=']
  }

  /** Standard padded base64 of `b`. */
  function Encode(b: seq<Byte>): (s: seq<char>)
    ensures |s| == 4 * ((|b| + 2) / 3)
    decreases |b|
  {
    if |b| == 0 then []
    else if |b| == 1 then EncodeTailOne(b[0])
    else if |b| == 2 then EncodeTailTwo(b[0], b[1])
    else EncodeGroup(b[0], b[1], b[2]) + Encode(b[3..])
  }

  /** Decodes four alphabet symbols into three bytes. */
  function DecodeGroup(q: seq<char>): (r: Option<seq<Byte>>)
    requires |q| == 4
    ensures r.Some? ==> |r.value| == 3
  {
    match (SymbolValue(q[0]), SymbolValue(q[1]), SymbolValue(q[2]), SymbolValue(q[3]))
    case (Some(v0), Some(v1), Some(v2), Some(v3)) =>
      Some([v0 * 4 + v1 / 16, (v1 % 16) * 16 + v2 / 4, (v2 % 4) * 64 + v3])
    case _ => None
  }

  /** Decodes the two symbols before "==" into one byte; their unused bits must be zero. */
  function DecodeTailOne(c0: char, c1: char): (r: Option<seq<Byte>>)
    ensures r.Some? ==> |r.value| == 1
  {
    match (SymbolValue(c0), SymbolValue(c1))
    case (Some(v0), Some(v1)) => if v1 % 16 == 0 then Some([v0 * 4 + v1 / 16]) else None
    case _ => None
  }

  /** Decodes the three symbols before "=" into two bytes; their unused bits must be zero. */
  function DecodeTailTwo(c0: char, c1: char, c2: char): (r: Option<seq<Byte>>)
    ensures r.Some? ==> |r.value| == 2
  {
    match (SymbolValue(c0), SymbolValue(c1), SymbolValue(c2))
    case (Some(v0), Some(v1), Some(v2)) =>
      if v2 % 4 == 0 then Some([v0 * 4 + v1 / 16, (v1 % 16) * 16 + v2 / 4]) else None
    case _ => None
  }

  /** Decodes the final quartet, which may end in "==" (one byte) or "=" (two bytes). */
  function DecodeLast(q: seq<char>): (r: Option<seq<Byte>>)
    requires |q| == 4
    ensures r.Some? ==> 1 <= |r.value| <= 3
  {
    if q[2] == '=' && q[3] == '=' then DecodeTailOne(q[0], q[1])
    else if q[3] == '=' then DecodeTailTwo(q[0], q[1], q[2])
    else DecodeGroup(q)
  }

  /** Strict decoding of padded standard base64; None when `s` is malformed. */
  function Decode(s: seq<char>): (r: Option<seq<Byte>>)
    ensures r.Some? ==> |s| % 4 == 0
    decreases |s|
  {
    if |s| == 0 then Some([])
    else if |s| < 4 then None
    else if |s| == 4 then DecodeLast(s)
    else
      match (DecodeGroup(s[..4]), Decode(s[4..]))
      case (Some(g), Some(rest)) => Some(g + rest)
      case _ => None
  }

  lemma Pack4(hi: int, lo: int)
    requires 0 <= lo < 4
    ensures (hi * 4 + lo) / 4 == hi && (hi * 4 + lo) % 4 == lo
  {
  }

  lemma Pack16(hi: int, lo: int)
    requires 0 <= lo < 16
    ensures (hi * 16 + lo) / 16 == hi && (hi * 16 + lo) % 16 == lo
  {
  }

  lemma Pack64(hi: int, lo: int)
    requires 0 <= lo < 64
    ensures (hi * 64 + lo) / 64 == hi && (hi * 64 + lo) % 64 == lo
  {
  }

  lemma GroupRoundTrip(b0: Byte, b1: Byte, b2: Byte)
    ensures DecodeLast(EncodeGroup(b0, b1, b2)) == Some([b0, b1, b2])
    ensures DecodeGroup(EncodeGroup(b0, b1, b2)) == Some([b0, b1, b2])
  {
    var v0, v1, v2, v3 := b0 / 4, (b0 % 4) * 16 + b1 / 16, (b1 % 16) * 4 + b2 / 64, b2 % 64;
    SymbolValueOfSymbol(v0);
    SymbolValueOfSymbol(v1);
    SymbolValueOfSymbol(v2);
    SymbolValueOfSymbol(v3);
    Pack16(b0 % 4, b1 / 16);
    Pack4(b1 % 16, b2 / 64);
    assert v0 * 4 + v1 / 16 == b0;
    assert (v1 % 16) * 16 + v2 / 4 == b1;
    assert (v2 % 4) * 64 + v3 == b2;
  }

  lemma TailOneRoundTrip(b0: Byte)
    ensures DecodeLast(EncodeTailOne(b0)) == Some([b0])
  {
    var v0, v1 := b0 / 4, (b0 % 4) * 16;
    SymbolValueOfSymbol(v0);
    SymbolValueOfSymbol(v1);
    Pack16(b0 % 4, 0);
    assert v1 % 16 == 0 && v0 * 4 + v1 / 16 == b0;
    assert DecodeTailOne(Symbol(v0), Symbol(v1)) == Some([b0]);
  }

  lemma TailTwoRoundTrip(b0: Byte, b1: Byte)
    ensures DecodeLast(EncodeTailTwo(b0, b1)) == Some([b0, b1])
  {
    var v0, v1, v2 := b0 / 4, (b0 % 4) * 16 + b1 / 16, (b1 % 16) * 4;
    SymbolValueOfSymbol(v0);
    SymbolValueOfSymbol(v1);
    SymbolValueOfSymbol(v2);
    Pack16(b0 % 4, b1 / 16);
    Pack4(b1 % 16, 0);
    assert v2 % 4 == 0 && v0 * 4 + v1 / 16 == b0 && (v1 % 16) * 16 + v2 / 4 == b1;
    assert DecodeTailTwo(Symbol(v0), Symbol(v1), Symbol(v2)) == Some([b0, b1]);
  }

  lemma GroupCanonical(q: seq<char>)
    requires |q| == 4 && DecodeGroup(q).Some?
    ensures var g := DecodeGroup(q).value; EncodeGroup(g[0], g[1], g[2]) == q
  {
    var v0, v1, v2, v3 := SymbolValue(q[0]).value, SymbolValue(q[1]).value, SymbolValue(q[2]).value, SymbolValue(q[3]).value;
    var g := DecodeGroup(q).value;
    assert g == [v0 * 4 + v1 / 16, (v1 % 16) * 16 + v2 / 4, (v2 % 4) * 64 + v3];
    Pack4(v0, v1 / 16);
    Pack16(v1 % 16, v2 / 4);
    Pack64(v2 % 4, v3);
    assert (g[0] % 4) * 16 + g[1] / 16 == v1;
    assert (g[1] % 16) * 4 + g[2] / 64 == v2;
  }

  lemma TailOneCanonical(c0: char, c1: char)
    requires DecodeTailOne(c0, c1).Some?
    ensures var b := DecodeTailOne(c0, c1).value; EncodeTailOne(b[0]) == [c0, c1, '=', '=']
  {
    var v0, v1 := SymbolValue(c0).value, SymbolValue(c1).value;
    var b := DecodeTailOne(c0, c1).value;
    assert b == [v0 * 4 + v1 / 16];
    Pack4(v0, v1 / 16);
    assert (b[0] % 4) * 16 == v1;
  }

  lemma TailTwoCanonical(c0: char, c1: char, c2: char)
    requires DecodeTailTwo(c0, c1, c2).Some?
    ensures var b := DecodeTailTwo(c0, c1, c2).value; EncodeTailTwo(b[0], b[1]) == [c0, c1, c2, '=']
  {
    var v0, v1, v2 := SymbolValue(c0).value, SymbolValue(c1).value, SymbolValue(c2).value;
    var b := DecodeTailTwo(c0, c1, c2).value;
    assert b == [v0 * 4 + v1 / 16, (v1 % 16) * 16 + v2 / 4];
    Pack4(v0, v1 / 16);
    Pack16(v1 % 16, v2 / 4);
    assert (b[0] % 4) * 16 + b[1] / 16 == v1;
    assert (b[1] % 16) * 4 == v2;
  }

  lemma LastCanonical(q: seq<char>)
    requires |q| == 4 && DecodeLast(q).Some?
    ensures Encode(DecodeLast(q).value) == q
  {
    var b := DecodeLast(q).value;
    if q[2] == '=' && q[3] == '=' {
      TailOneCanonical(q[0], q[1]);
    } else if q[3] == '=' {
      TailTwoCanonical(q[0], q[1], q[2]);
    } else {
      GroupCanonical(q);
      assert b[3..] == [];
    }
  }

  /** Decoding a complete group followed by a non-empty valid remainder. */
  lemma DecodeGroupThen(g: seq<char>, rest: seq<char>)
    requires |g| == 4 && |rest| > 0
    requires DecodeGroup(g).Some? && Decode(rest).Some?
    ensures Decode(g + rest) == Some(DecodeGroup(g).value + Decode(rest).value)
  {
    assert (g + rest)[..4] == g;
    assert (g + rest)[4..] == rest;
  }

  /** A single quartet is decoded as the final one. */
  lemma DecodeQuartet(q: seq<char>)
    requires |q| == 4
    ensures Decode(q) == DecodeLast(q)
  {
  }

  lemma RoundTripOneByte(b: seq<Byte>)
    requires |b| == 1
    ensures Decode(Encode(b)) == Some(b)
  {
    var q := EncodeTailOne(b[0]);
    assert Encode(b) == q;
    DecodeQuartet(q);
    TailOneRoundTrip(b[0]);
    assert [b[0]] == b;
  }

  lemma RoundTripTwoBytes(b: seq<Byte>)
    requires |b| == 2
    ensures Decode(Encode(b)) == Some(b)
  {
    var q := EncodeTailTwo(b[0], b[1]);
    assert Encode(b) == q;
    DecodeQuartet(q);
    TailTwoRoundTrip(b[0], b[1]);
    assert [b[0], b[1]] == b;
  }

  lemma RoundTripThreeBytes(b: seq<Byte>)
    requires |b| == 3
    ensures Decode(Encode(b)) == Some(b)
  {
    var q := EncodeGroup(b[0], b[1], b[2]);
    assert Encode(b[3..]) == [];
    assert Encode(b) == q;
    DecodeQuartet(q);
    GroupRoundTrip(b[0], b[1], b[2]);
    assert [b[0], b[1], b[2]] == b;
  }

  lemma SplitThree(b: seq<Byte>)
    requires |b| >= 3
    ensures b == [b[0], b[1], b[2]] + b[3..]
  {
  }

  /** One more leading group: if the rest round-trips, so does the whole. */
  lemma RoundTripStep(b: seq<Byte>)
    requires |b| > 3 && Decode(Encode(b[3..])) == Some(b[3..])
    ensures Decode(Encode(b)) == Some(b)
  {
    var g := EncodeGroup(b[0], b[1], b[2]);
    assert Encode(b) == g + Encode(b[3..]);
    GroupRoundTrip(b[0], b[1], b[2]);
    DecodeGroupThen(g, Encode(b[3..]));
    SplitThree(b);
  }

  /** Decoding undoes encoding, for every byte string. */
  lemma {:induction false} RoundTrip(b: seq<Byte>)
    ensures Decode(Encode(b)) == Some(b)
    decreases |b|
  {
    if |b| == 0 {
    } else if |b| == 1 {
      RoundTripOneByte(b);
    } else if |b| == 2 {
      RoundTripTwoBytes(b);
    } else if |b| == 3 {
      RoundTripThreeBytes(b);
    } else {
      RoundTrip(b[3..]);
      RoundTripStep(b);
    }
  }

  /** Every string the strict decoder accepts is exactly the encoding of what it decodes to. */
  lemma {:induction false} Canonical(s: seq<char>)
    requires Decode(s).Some?
    ensures Encode(Decode(s).value) == s
    decreases |s|
  {
    var b := Decode(s).value;
    if |s| == 0 {
    } else if |s| == 4 {
      LastCanonical(s);
    } else {
      var g := DecodeGroup(s[..4]).value;
      var rest := Decode(s[4..]).value;
      assert b == g + rest;
      Canonical(s[4..]);
      GroupCanonical(s[..4]);
      assert b[3..] == rest;
      assert [b[0], b[1], b[2]] == g;
      assert s == s[..4] + s[4..];
    }
  }
}
