// Base64 with the URL and filename safe alphabet (RFC 4648, section 5), with padding (section 3.2).
module Base64 {
  import opened Events

  function Char6(v: nat): char
    requires v < 64
  {
    if v < 26 then ('A' as int + v) as char
    else if v < 52 then ('a' as int + v - 26) as char
    else if v < 62 then ('0' as int + v - 52) as char
    else if v == 62 then '-' else '_'
  }

  function Value6(c: char): Option<nat> {
    if 'A' <= c <= 'Z' then Some(c as int - 'A' as int)
    else if 'a' <= c <= 'z' then Some(c as int - 'a' as int + 26)
    else if '0' <= c <= '9' then Some(c as int - '0' as int + 52)
    else if c == '-' then Some(62)
    else if c == '_' then Some(63)
    else None
  }

  lemma Alphabet(v: nat)
    requires v < 64
    ensures Value6(Char6(v)) == Some(v) && Char6(v) != '='
  {
  }

  // Three octets as one number.
  function Pack(b0: int, b1: int, b2: int): (n: nat)
    requires 0 <= b0 < 256 && 0 <= b1 < 256 && 0 <= b2 < 256
    ensures n < 0x100_0000
  {
    b0 * 0x1_0000 + b1 * 0x100 + b2
  }

  function Group(n: nat): string
    requires n < 0x100_0000
  {
    [Char6(n / 0x4_0000), Char6(n / 0x1000 % 64), Char6(n / 64 % 64), Char6(n % 64)]
  }

  function Encode(bs: seq<Byte>): string {
    if bs == [] then []
    else if |bs| == 1 then Group(Pack(bs[0], 0, 0))[..2] + "=="
    else if |bs| == 2 then Group(Pack(bs[0], bs[1], 0))[..3] + "="
    else Group(Pack(bs[0], bs[1], bs[2])) + Encode(bs[3..])
  }

  // The value of a group, '=' counting as zero.
  function GroupValue(s: string): Option<nat>
    requires |s| == 4
  {
    var v0, v1 := Value6(s[0]), Value6(s[1]);
    var v2 := if s[2] == '=' then Some(0) else Value6(s[2]);
    var v3 := if s[3] == '=' then Some(0) else Value6(s[3]);
    if v0.Some? && v1.Some? && v2.Some? && v3.Some?
    then Some(v0.value * 0x4_0000 + v1.value * 0x1000 + v2.value * 64 + v3.value) else None
  }

  function Decode(s: string): Option<seq<Byte>> {
    if s == [] then Some([])
    else if |s| < 4 || GroupValue(s[..4]).None? then None
    else
      var n := GroupValue(s[..4]).value;
      var b0, b1, b2 := n / 0x1_0000 % 256, n / 0x100 % 256, n % 256;
      if s[3] == '=' then
        if |s| > 4 then None else Some(if s[2] == '=' then [b0] else [b0, b1])
      else if s[2] == '=' then None
      else match Decode(s[4..]) case None => None case Some(rest) => Some([b0, b1, b2] + rest)
  }

  lemma Sextets(n: nat)
    requires n < 0x100_0000
    ensures n / 0x4_0000 < 64
    ensures n == n / 0x4_0000 * 0x4_0000 + n / 0x1000 % 64 * 0x1000 + n / 64 % 64 * 64 + n % 64
  {
    var a := n / 64;
    var b := a / 64;
    assert n == a * 64 + n % 64;
    assert a == b * 64 + a % 64 && b == n / 0x1000;
    assert b == b / 64 * 64 + b % 64 && b / 64 == n / 0x4_0000;
  }

  lemma GroupRoundTrip(n: nat)
    requires n < 0x100_0000
    ensures n / 0x4_0000 < 64 && |Group(n)| == 4
    ensures GroupValue(Group(n)) == Some(n)
    ensures forall i | 0 <= i < 4 :: Group(n)[i] != '='
    ensures n % 64 == 0 ==> GroupValue(Group(n)[..3] + "=") == Some(n)
    ensures n % 64 == 0 && n / 64 % 64 == 0 ==> GroupValue(Group(n)[..2] + "==") == Some(n)
  {
    hide Char6, Value6;
    Sextets(n);
    Alphabet(n / 0x4_0000);
    Alphabet(n / 0x1000 % 64);
    Alphabet(n / 64 % 64);
    Alphabet(n % 64);
  }

  lemma Octets(b0: int, b1: int, b2: int)
    requires 0 <= b0 < 256 && 0 <= b1 < 256 && 0 <= b2 < 256
    ensures var n := Pack(b0, b1, b2); n / 0x1_0000 % 256 == b0 && n / 0x100 % 256 == b1 && n % 256 == b2
    ensures b2 == 0 ==> Pack(b0, b1, b2) % 64 == 0
    ensures b1 == b2 == 0 ==> Pack(b0, b1, b2) / 64 % 64 == 0
  {
    var high := b0 * 256 + b1;
    DivModOf(256, high, b2);
    DivModOf(256, b0, b1);
    assert Pack(b0, b1, b2) / 0x1_0000 == Pack(b0, b1, b2) / 256 / 256;
    if b2 == 0 {
      DivModOf(64, high * 4, 0);
      if b1 == 0 { DivModOf(64, b0 * 16, 0); }
    }
  }

  lemma DivModOf(m: int, x: int, y: int)
    requires 0 <= y < m
    ensures (x * m + y) / m == x && (x * m + y) % m == y
  {
    var q, r := (x * m + y) / m, (x * m + y) % m;
    assert x * m + y == q * m + r;
    assert (q - x) * m == y - r;
    MultipleBound(q - x, m);
  }

  lemma MultipleBound(k: int, m: int)
    requires m > 0
    ensures (k >= 1 ==> k * m >= m) && (k <= -1 ==> k * m <= -m)
  {
  }

  lemma DecodeTail(bs: seq<Byte>)
    requires |bs| == 1 || |bs| == 2
    ensures |Encode(bs)| == 4 && Decode(Encode(bs)) == Some(bs)
  {
    hide Group, GroupValue, Pack;
    var b1 := if |bs| == 2 then bs[1] else 0;
    var n := Pack(bs[0], b1, 0);
    Octets(bs[0], b1, 0);
    GroupRoundTrip(n);
    var s := Encode(bs);
    assert s == if |bs| == 2 then Group(n)[..3] + "=" else Group(n)[..2] + "==";
    assert s[..4] == s;
    assert bs == if |bs| == 2 then [bs[0], b1] else [bs[0]];
  }

  lemma DecodeGroup(g: string, n: nat, t: string)
    requires |g| == 4 && GroupValue(g) == Some(n) && g[2] != '=' && g[3] != '=' && Decode(t).Some?
    ensures Decode(g + t) == Some([n / 0x1_0000 % 256, n / 0x100 % 256, n % 256] + Decode(t).value)
  {
    hide GroupValue;
    assert (g + t)[..4] == g && (g + t)[4..] == t;
  }

  /** Decoding undoes encoding, for every sequence of octets. */
  lemma {:induction false} DecodeEncode(bs: seq<Byte>)
    ensures Decode(Encode(bs)) == Some(bs) && |Encode(bs)| % 4 == 0
  {
    hide Group, GroupValue, Pack, Decode;
    if bs == [] {
      DecodeNothing();
    } else if |bs| <= 2 {
      DecodeTail(bs);
    } else {
      var n := Pack(bs[0], bs[1], bs[2]);
      Octets(bs[0], bs[1], bs[2]);
      GroupRoundTrip(n);
      DecodeEncode(bs[3..]);
      DecodeGroup(Group(n), n, Encode(bs[3..]));
      assert bs == [bs[0], bs[1], bs[2]] + bs[3..];
    }
  }

  lemma DecodeNothing()
    ensures Decode([]) == Some([])
  {
  }

  // ---- the encoding bit by bit -------------------------------------------------------------------

  const ALPHABET := "ABCDEFGHIJKLMNOPQRSTUVWXYZ" + "abcdefghijklmnopqrstuvwxyz" + "0123456789-_"

  lemma AlphabetAt(v: nat)
    requires v < 64
    ensures |ALPHABET| == 64 && ALPHABET[v] == Char6(v)
  {
    hide ALPHABET;
    UpperAt(v);
    LowerAt(v);
    LastAt(v);
  }

  lemma UpperAt(v: nat)
    requires v < 64
    ensures |ALPHABET| == 64
    ensures v < 26 ==> ALPHABET[v] == ('A' as int + v) as char
  {
  }

  lemma LowerAt(v: nat)
    requires v < 64
    ensures |ALPHABET| == 64
    ensures 26 <= v < 52 ==> ALPHABET[v] == ('a' as int + v - 26) as char
  {
  }

  lemma LastAt(v: nat)
    requires v < 64
    ensures |ALPHABET| == 64
    ensures 52 <= v < 62 ==> ALPHABET[v] == ('0' as int + v - 52) as char
    ensures 62 <= v ==> ALPHABET[v] == if v == 62 then '-' else '_'
  {
  }

  // The six-bit pieces of a group, by octets.
  lemma GroupBits(b0: int, b1: int, b2: int)
    requires 0 <= b0 < 256 && 0 <= b1 < 256 && 0 <= b2 < 256
    ensures var n := Pack(b0, b1, b2);
      && n / 0x4_0000 == b0 / 4 && n / 0x1000 % 64 == b0 % 4 * 16 + b1 / 16
      && n / 64 % 64 == b1 % 16 * 4 + b2 / 64 && n % 64 == b2 % 64
  {
    var n := Pack(b0, b1, b2);
    var v0, v1, v2, v3 := b0 / 4, b0 % 4 * 16 + b1 / 16, b1 % 16 * 4 + b2 / 64, b2 % 64;
    assert n == ((v0 * 64 + v1) * 64 + v2) * 64 + v3;
    DivModOf(64, (v0 * 64 + v1) * 64 + v2, v3);
    DivModOf(64, v0 * 64 + v1, v2);
    DivModOf(64, v0, v1);
    assert n / 0x1000 == n / 64 / 64 && n / 0x4_0000 == n / 64 / 64 / 64;
  }

  lemma GroupText(b0: int, b1: int, b2: int)
    requires 0 <= b0 < 256 && 0 <= b1 < 256 && 0 <= b2 < 256
    ensures |ALPHABET| == 64
    ensures Group(Pack(b0, b1, b2)) ==
      [ALPHABET[b0 / 4], ALPHABET[b0 % 4 * 16 + b1 / 16], ALPHABET[b1 % 16 * 4 + b2 / 64], ALPHABET[b2 % 64]]
  {
    hide Char6, Pack, ALPHABET;
    GroupBits(b0, b1, b2);
    AlphabetAt(b0 / 4);
    AlphabetAt(b0 % 4 * 16 + b1 / 16);
    AlphabetAt(b1 % 16 * 4 + b2 / 64);
    AlphabetAt(b2 % 64);
  }

  // Zeros stand in for octets that are missing in the last group.
  function OctetAt(bs: seq<Byte>, i: nat): Byte { if i < |bs| then bs[i] else 0 }

  lemma FirstGroup(bs: seq<Byte>)
    requires bs != []
    ensures |Encode(bs)| >= 4 && |ALPHABET| == 64
    ensures var s, b0, b1, b2 := Encode(bs), bs[0], OctetAt(bs, 1), OctetAt(bs, 2);
      && s[0] == ALPHABET[b0 / 4]
      && s[1] == ALPHABET[b0 % 4 * 16 + b1 / 16]
      && s[2] == (if 1 < |bs| then ALPHABET[b1 % 16 * 4 + b2 / 64] else '=')
      && s[3] == (if 2 < |bs| then ALPHABET[b2 % 64] else '=')
    ensures |bs| <= 3 ==> |Encode(bs)| == 4
    ensures |bs| > 3 ==> Encode(bs)[4..] == Encode(bs[3..]) && |Encode(bs)| == 4 + |Encode(bs[3..])|
  {
    hide Group, Pack, ALPHABET;
    GroupText(bs[0], OctetAt(bs, 1), OctetAt(bs, 2));
  }

  /** The text of a sequence of octets, group by group: three octets are four characters of the alphabet, six bits
      each, and the last group is filled up with the padding character. */
  lemma {:induction false} EncodeMeaning(bs: seq<Byte>, k: nat)
    requires 3 * k < |bs|
    ensures |Encode(bs)| == (|bs| + 2) / 3 * 4 && 4 * k + 4 <= |Encode(bs)| && |ALPHABET| == 64
    ensures var s, b0, b1, b2 := Encode(bs), bs[3 * k], OctetAt(bs, 3 * k + 1), OctetAt(bs, 3 * k + 2);
      && s[4 * k] == ALPHABET[b0 / 4]
      && s[4 * k + 1] == ALPHABET[b0 % 4 * 16 + b1 / 16]
      && s[4 * k + 2] == (if 3 * k + 1 < |bs| then ALPHABET[b1 % 16 * 4 + b2 / 64] else '=')
      && s[4 * k + 3] == (if 3 * k + 2 < |bs| then ALPHABET[b2 % 64] else '=')
  {
    hide Encode, ALPHABET;
    FirstGroup(bs);
    if |bs| > 3 {
      var j := if k > 0 then k - 1 else 0;
      EncodeMeaning(bs[3..], j);
      var s, t := Encode(bs), Encode(bs[3..]);
      if k > 0 {
        assert s[4 * k] == t[4 * j] && s[4 * k + 1] == t[4 * j + 1];
        assert s[4 * k + 2] == t[4 * j + 2] && s[4 * k + 3] == t[4 * j + 3];
      }
    }
  }

  // ---- stripping and restoring the padding -----------------------------------------------------

  // str.rstrip("=")
  function Stripped(s: string): string {
    if s != [] && s[|s| - 1] == '=' then Stripped(s[..|s| - 1]) else s
  }

  // "=" * (-len(s) % 4), with Python's remainder.
  function Restored(s: string): string {
    s + seq((4 - |s| % 4) % 4, _ => '=')
  }

  // A text of whole groups with padding only in the last keeps everything but that padding.
  lemma {:induction false} StrippedEncode(bs: seq<Byte>)
    ensures var s, r := Encode(bs), Stripped(Encode(bs));
      && |r| <= |s| && r == s[..|r|] && |s| - |r| <= 2
      && (forall i | |r| <= i < |s| :: s[i] == '=')
      && (r != [] ==> r[|r| - 1] != '=') && (bs != [] ==> r != [])
  {
    var s := Encode(bs);
    if |bs| == 1 {
      var g := Group(Pack(bs[0], 0, 0));
      GroupRoundTrip(Pack(bs[0], 0, 0));
      assert s[..3] == g[..2] + "=" && s[..3][..2] == g[..2];
      assert Stripped(g[..2]) == g[..2];
      assert Stripped(s[..3]) == g[..2];
    } else if |bs| == 2 {
      var g := Group(Pack(bs[0], bs[1], 0));
      GroupRoundTrip(Pack(bs[0], bs[1], 0));
      assert s[..3] == g[..3];
      assert Stripped(g[..3]) == g[..3];
    } else if |bs| >= 3 {
      var g, t := Group(Pack(bs[0], bs[1], bs[2])), Encode(bs[3..]);
      GroupRoundTrip(Pack(bs[0], bs[1], bs[2]));
      StrippedEncode(bs[3..]);
      StrippedAppend(g, t);
    }
  }

  lemma {:induction false} StrippedAppend(g: string, t: string)
    requires g != [] && g[|g| - 1] != '='
    ensures Stripped(g + t) == g + Stripped(t)
  {
    var s := g + t;
    if t != [] && t[|t| - 1] == '=' {
      StrippedAppend(g, t[..|t| - 1]);
      assert s[..|s| - 1] == g + t[..|t| - 1];
    } else if t == [] {
      assert s == g;
    }
  }

  lemma GroupSafe(bs: seq<Byte>, k: nat)
    requires 3 * k < |bs|
    ensures 4 * k + 4 <= |Encode(bs)|
    ensures var s := Encode(bs);
      && s[4 * k] in ALPHABET && s[4 * k + 1] in ALPHABET
      && (s[4 * k + 2] in ALPHABET || (s[4 * k + 2] == '=' && s[4 * k + 3] == '=' && |s| == 4 * k + 4))
      && (s[4 * k + 3] in ALPHABET || (s[4 * k + 3] == '=' && |s| == 4 * k + 4))
  {
    hide Encode, ALPHABET;
    EncodeMeaning(bs, k);
  }

  /** What is left of an encoding after stripping is made of the alphabet's characters alone, none of which needs
      escaping in a URL. */
  lemma UrlSafe(bs: seq<Byte>)
    ensures forall c | c in Stripped(Encode(bs)) :: c in ALPHABET
  {
    hide Encode, ALPHABET, Stripped;
    var s, r := Encode(bs), Stripped(Encode(bs));
    StrippedEncode(bs);
    forall i | 0 <= i < |r| ensures r[i] in ALPHABET {
      if bs == [] {
        DecodeEncode(bs);
        EncodeNothing();
      } else {
        EncodeMeaning(bs, 0);
        var k := i / 4;
        assert i == 4 * k + i % 4 && 3 * k < |bs|;
        GroupSafe(bs, k);
        assert r[|r| - 1] == s[|r| - 1];
      }
    }
  }

  lemma EncodeNothing()
    ensures Encode([]) == []
  {
  }

  /** Stripping the padding and restoring it by length gives the padded text back. */
  lemma RestoredStripped(bs: seq<Byte>)
    ensures Restored(Stripped(Encode(bs))) == Encode(bs)
  {
    hide Encode, Stripped, Decode;
    DecodeEncode(bs);
    StrippedEncode(bs);
    var s, r := Encode(bs), Stripped(Encode(bs));
    PaddingLength(|s|, |s| - |r|);
  }

  lemma PaddingLength(n: nat, d: nat)
    requires n % 4 == 0 && d <= 2 && d <= n
    ensures (4 - (n - d) % 4) % 4 == d
  {
    var q := n / 4;
    assert n == q * 4;
    if d > 0 { assert n - d == (q - 1) * 4 + (4 - d); }
  }
}
