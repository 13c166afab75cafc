/** The bytes of a rune are UTF-8: a decoder by byte ranges inverts the encoder, both ways. */
module Utf8 {
  import opened BtProgram
  import opened RegexpTree

  predicate IsTail(b: Byte) {
    0x80 <= b <= 0xBF
  }

  // The second byte's range, where the first one narrows it.
  predicate FollowsLead(lead: Byte, b: Byte) {
    && IsTail(b)
    && (lead == 0xE0 ==> b >= 0xA0) && (lead == 0xED ==> b <= 0x9F)
    && (lead == 0xF0 ==> b >= 0x90) && (lead == 0xF4 ==> b <= 0x8F)
  }

  // Six more bits.
  function More(high: int, b: Byte): int {
    high * 64 + (b as int - 0x80)
  }

  // The well-formed byte sequences of the Unicode Standard, table 3-7.
  function DecodeUtf8(b: seq<Byte>): Option<int> {
    if |b| == 1 && b[0] <= 0x7F then Some(b[0])
    else if |b| == 2 && 0xC2 <= b[0] <= 0xDF && FollowsLead(b[0], b[1]) then Some(More(b[0] as int - 0xC0, b[1]))
    else if |b| == 3 && 0xE0 <= b[0] <= 0xEF && FollowsLead(b[0], b[1]) && IsTail(b[2]) then
      Some(More(More(b[0] as int - 0xE0, b[1]), b[2]))
    else if |b| == 4 && 0xF0 <= b[0] <= 0xF4 && FollowsLead(b[0], b[1]) && IsTail(b[2]) && IsTail(b[3]) then
      Some(More(More(More(b[0] as int - 0xF0, b[1]), b[2]), b[3]))
    else None
  }

  function Decode(b: seq<Byte>, unicode: bool): Option<int> {
    if unicode then DecodeUtf8(b) else if |b| == 1 then Some(b[0]) else None
  }

  lemma Sixes(r: nat)
    ensures r == r / 64 * 64 + r % 64 && r / 4096 == r / 64 / 64 && r / 262144 == r / 4096 / 64
  {
  }

  lemma DecodeEncode(r: nat, unicode: bool)
    ensures Encode(r, unicode).Some? ==> Decode(Encode(r, unicode).value, unicode) == Some(r)
  {
    Sixes(r);
    Sixes(r / 64);
    Sixes(r / 4096);
  }

  lemma Joined(high: nat, b: Byte)
    requires IsTail(b)
    ensures More(high, b) >= 0 && More(high, b) / 64 == high && More(high, b) % 64 == b - 0x80
  {
  }

  lemma EncodeDecode(b: seq<Byte>, unicode: bool)
    requires Decode(b, unicode).Some?
    ensures Decode(b, unicode).value >= 0 && Encode(Decode(b, unicode).value, unicode) == Some(b)
  {
    if |b| == 1 {
      assert b == [b[0]];
    } else if |b| == 2 {
      assert b == [b[0], b[1]];
      Joined(b[0] - 0xC0, b[1]);
    } else if |b| == 3 {
      var one := More(b[0] - 0xE0, b[1]);
      Joined(b[0] - 0xE0, b[1]);
      Joined(one, b[2]);
      Sixes(More(one, b[2]));
      assert b == [b[0], b[1], b[2]];
    } else {
      var one := More(b[0] - 0xF0, b[1]);
      var two := More(one, b[2]);
      Joined(b[0] - 0xF0, b[1]);
      Joined(one, b[2]);
      Joined(two, b[3]);
      Sixes(More(two, b[3]));
      assert b == [b[0], b[1], b[2], b[3]];
    }
  }

  // What has no bytes: surrogates and values past the last code point, or past one byte.
  lemma EncodesIff(r: nat, unicode: bool)
    ensures Encode(r, unicode).None? <==> if unicode then 0xD800 <= r <= 0xDFFF || r > 0x10FFFF else r > 0xFF
  {
  }

  // A rune's bytes begin no other rune's.
  lemma NoPrefix(r: nat, q: nat, unicode: bool)
    requires Encode(r, unicode).Some? && Encode(q, unicode).Some?
    requires Encode(r, unicode).value <= Encode(q, unicode).value
    ensures r == q
  {
    DecodeEncode(r, unicode);
    DecodeEncode(q, unicode);
  }
}
