// UTF-8 as section 3 of RFC 3629 defines it and Python's strict decoder reads it.
module Utf8 {
  import opened Events

  type CodePoint = c: int | 0 <= c <= 0x10FFFF && !(0xD800 <= c <= 0xDFFF)
  type Characters = seq<CodePoint>

  function EncodeOne(c: CodePoint): (r: seq<Byte>)
    ensures 1 <= |r| <= 4
  {
    if c < 0x80 then [c]
    else if c < 0x800 then [0xC0 + c / 64, 0x80 + c % 64]
    else if c < 0x10000 then [0xE0 + c / 64 / 64, 0x80 + c / 64 % 64, 0x80 + c % 64]
    else [0xF0 + c / 64 / 64 / 64, 0x80 + c / 64 / 64 % 64, 0x80 + c / 64 % 64, 0x80 + c % 64]
  }

  // Six bits of an octet behind those before.
  function Behind(high: int, octet: int): int { high * 64 + octet % 64 }

  /** The octets of a character, bit by bit: how many there are for which characters, the marking bits of the first and
      of the others, and the bits of the character in what is left of them. */
  lemma EncodedOctets(c: CodePoint)
    ensures var b := EncodeOne(c);
      && |b| == (if c <= 0x7F then 1 else if c <= 0x7FF then 2 else if c <= 0xFFFF then 3 else 4)
      && (|b| == 1 ==> b[0] == c)
      && (|b| == 2 ==> b[0] / 32 == 6 && c == Behind(b[0] % 32, b[1]))
      && (|b| == 3 ==> b[0] / 16 == 14 && c == Behind(Behind(b[0] % 16, b[1]), b[2]))
      && (|b| == 4 ==> b[0] / 8 == 30 && c == Behind(Behind(Behind(b[0] % 8, b[1]), b[2]), b[3]))
      && forall i | 0 < i < |b| :: b[i] / 64 == 2
  {
    hide Behind;
    SixBits(c);
    SixBits(c / 64);
    SixBits(c / 64 / 64);
    assert c >= 0x800 ==> c / 64 / 64 == c / 4096;
    assert c >= 0x10000 ==> c / 64 / 64 / 64 == c / 262144;
  }

  lemma SixBits(c: int)
    requires c >= 0
    ensures (0x80 + c % 64) / 64 == 2 && Behind(c / 64, 0x80 + c % 64) == c
  {
  }

  function Encode(t: Characters): seq<Byte> {
    if t == [] then [] else EncodeOne(t[0]) + Encode(t[1..])
  }

  predicate Continues(bs: seq<Byte>, n: nat) {
    |bs| > n && forall i | 1 <= i <= n :: 0x80 <= bs[i] < 0xC0
  }

  // Six more bits.
  function Shifted(high: int, next: int): int { high * 64 + (next - 0x80) }

  // The first character and its length; None for what is cut short, overlong, a surrogate or beyond the range.
  function DecodeOne(bs: seq<Byte>): (r: Option<(CodePoint, nat)>)
    requires bs != []
    ensures r.Some? ==> 1 <= r.value.1 <= |bs|
  {
    if bs[0] < 0x80 then Some((bs[0], 1))
    else if 0xC0 <= bs[0] < 0xE0 && Continues(bs, 1) then
      var v := Shifted(bs[0] - 0xC0, bs[1]);
      if v >= 0x80 then Some((v, 2)) else None
    else if 0xE0 <= bs[0] < 0xF0 && Continues(bs, 2) then
      var v := Shifted(Shifted(bs[0] - 0xE0, bs[1]), bs[2]);
      if v >= 0x800 && !(0xD800 <= v <= 0xDFFF) then Some((v, 3)) else None
    else if 0xF0 <= bs[0] < 0xF8 && Continues(bs, 3) then
      var v := Shifted(Shifted(Shifted(bs[0] - 0xF0, bs[1]), bs[2]), bs[3]);
      if 0x10000 <= v <= 0x10FFFF then Some((v, 4)) else None
    else None
  }

  // None where Python raises UnicodeDecodeError.
  function Decode(bs: seq<Byte>): Option<Characters> {
    if bs == [] then Some([]) else
      match DecodeOne(bs)
      case None => None
      case Some((c, n)) =>
        match Decode(bs[n..])
        case None => None
        case Some(rest) => Some([c] + rest)
  }

  // ---- one character ------------------------------------------------------------------------------

  lemma ShiftedBack(high: int, next: int)
    requires 0x80 <= next < 0xC0
    ensures Shifted(high, next) / 64 == high && 0x80 + Shifted(high, next) % 64 == next
  {
  }

  lemma ShiftedOn(c: int)
    ensures Shifted(c / 64, 0x80 + c % 64) == c
  {
  }

  lemma EncodedReads(c: CodePoint, rest: seq<Byte>)
    ensures DecodeOne(EncodeOne(c) + rest) == Some((c, |EncodeOne(c)|))
  {
    hide Shifted;
    var bs := EncodeOne(c) + rest;
    ShiftedOn(c);
    ShiftedOn(c / 64);
    ShiftedOn(c / 64 / 64);
    assert forall i | 0 <= i < |EncodeOne(c)| :: bs[i] == EncodeOne(c)[i];
  }

  lemma ReadIsEncoded(bs: seq<Byte>)
    requires bs != [] && DecodeOne(bs).Some?
    ensures var (c, n) := DecodeOne(bs).value; bs[..n] == EncodeOne(c)
  {
    hide Shifted;
    var (c, n) := DecodeOne(bs).value;
    if n == 2 {
      ShiftedBack(bs[0] - 0xC0, bs[1]);
      assert bs[..2] == [bs[0], bs[1]];
    } else if n == 3 {
      var high := Shifted(bs[0] - 0xE0, bs[1]);
      ShiftedBack(bs[0] - 0xE0, bs[1]);
      ShiftedBack(high, bs[2]);
      assert bs[..3] == [bs[0], bs[1], bs[2]];
    } else if n == 4 {
      var high := Shifted(bs[0] - 0xF0, bs[1]);
      ShiftedBack(bs[0] - 0xF0, bs[1]);
      ShiftedBack(high, bs[2]);
      ShiftedBack(Shifted(high, bs[2]), bs[3]);
      assert bs[..4] == [bs[0], bs[1], bs[2], bs[3]];
    }
  }

  // A character without its last bytes, with nothing or an ASCII byte after it, does not read.
  lemma CutDoesNotRead(c: CodePoint, n: nat, rest: seq<Byte>)
    requires 0 < n < |EncodeOne(c)| && (rest == [] || rest[0] < 0x80)
    ensures DecodeOne(EncodeOne(c)[..n] + rest).None?
  {
    var bs := EncodeOne(c)[..n] + rest;
    assert bs[0] == EncodeOne(c)[0];
    assert |bs| > n ==> bs[n] == rest[0];
  }

  // ---- whole texts ----------------------------------------------------------------------------------

  /** The decoder accepts exactly the encodings, and gives back what was encoded. */
  lemma {:induction false} DecodeIff(bs: seq<Byte>, t: Characters)
    ensures Decode(bs) == Some(t) <==> bs == Encode(t)
  {
    hide EncodeOne, DecodeOne;
    if bs == [] {
    } else {
      if t != [] && bs == Encode(t) {
        var one := EncodeOne(t[0]);
        EncodedReads(t[0], Encode(t[1..]));
        assert bs[|one|..] == Encode(t[1..]);
        DecodeIff(bs[|one|..], t[1..]);
        assert t == [t[0]] + t[1..];
      }
      if Decode(bs) == Some(t) {
        var (c, n) := DecodeOne(bs).value;
        ReadIsEncoded(bs);
        DecodeIff(bs[n..], t[1..]);
        assert bs == bs[..n] + bs[n..];
      }
    }
  }

  lemma {:induction false} EncodeConcat(s: Characters, t: Characters)
    ensures Encode(s + t) == Encode(s) + Encode(t)
  {
    if s == [] {
      assert s + t == t;
    } else {
      assert (s + t)[1..] == s[1..] + t;
      EncodeConcat(s[1..], t);
    }
  }

  lemma EncodeSingle(c: CodePoint)
    ensures Encode([c]) == EncodeOne(c)
  {
    hide EncodeOne;
    assert [c][1..] == [];
  }

  lemma LastCharacter(t: Characters)
    requires t != []
    ensures Encode(t) == Encode(t[..|t| - 1]) + EncodeOne(t[|t| - 1])
  {
    hide EncodeOne, Encode;
    var init, c := t[..|t| - 1], t[|t| - 1];
    assert t == init + [c];
    EncodeConcat(init, [c]);
    EncodeSingle(c);
  }

  lemma DecodeBehindOne(c: CodePoint, rest: seq<Byte>)
    ensures Decode(EncodeOne(c) + rest) == match Decode(rest) case None => None case Some(u) => Some([c] + u)
  {
    hide EncodeOne, DecodeOne;
    EncodedReads(c, rest);
    assert (EncodeOne(c) + rest)[|EncodeOne(c)|..] == rest;
  }

  // Behind whole characters decoding goes on as if from there.
  lemma {:induction false} DecodeBehind(t: Characters, rest: seq<Byte>)
    ensures Decode(Encode(t) + rest) == match Decode(rest) case None => None case Some(u) => Some(t + u)
  {
    hide EncodeOne, Decode;
    if t == [] {
      assert Encode(t) + rest == rest;
      assert Decode(rest).Some? ==> t + Decode(rest).value == Decode(rest).value;
    } else {
      assert Encode(t) + rest == EncodeOne(t[0]) + (Encode(t[1..]) + rest);
      DecodeBehindOne(t[0], Encode(t[1..]) + rest);
      DecodeBehind(t[1..], rest);
      assert Decode(rest).Some? ==> t + Decode(rest).value == [t[0]] + (t[1..] + Decode(rest).value);
    }
  }

  /** A text cut within its last character, at the end or before an ASCII byte, does not decode. */
  lemma CutDoesNotDecode(t: Characters, n: nat, rest: seq<Byte>)
    requires t != [] && |Encode(t[..|t| - 1])| < n < |Encode(t)| && (rest == [] || rest[0] < 0x80)
    ensures Decode(Encode(t)[..n] + rest).None?
  {
    hide EncodeOne, DecodeOne, Encode;
    var init, c := t[..|t| - 1], t[|t| - 1];
    LastCharacter(t);
    var k := n - |Encode(init)|;
    assert Encode(t)[..n] == Encode(init) + EncodeOne(c)[..k];
    DecodeBehind(init, EncodeOne(c)[..k] + rest);
    assert Encode(init) + (EncodeOne(c)[..k] + rest) == Encode(t)[..n] + rest;
    CutDoesNotRead(c, k, rest);
  }
}
