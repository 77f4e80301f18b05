// The path as text: what the reader of the path buffer decodes, and when decoding raises.
module PathTexts {
  import opened Events
  import opened PathBuffer
  import opened Utf8

  // bytes(...).strip(b"\0").decode("utf-8"); None where it raises and the process is dropped.
  function ReadText(buf: seq<Byte>, offset: nat): Option<Characters>
    requires offset <= |buf|
  {
    Decode(ReadPath(buf, offset))
  }

  function Encoded(ts: seq<Characters>): (names: seq<Name>)
    ensures |names| == |ts| && forall i | 0 <= i < |ts| :: names[i] == Encode(ts[i])
  {
    seq(|ts|, i requires 0 <= i < |ts| => Encode(ts[i]))
  }

  function JoinedText(ts: seq<Characters>): Characters {
    if ts == [] then [] else JoinedText(ts[1..]) + [0x2F] + ts[0]
  }

  function TrueText(ts: seq<Characters>): Characters {
    if ts == [] then [0x2F] else JoinedText(ts)
  }

  // Component names are not empty and hold no NUL.
  predicate ProperTexts(ts: seq<Characters>) {
    forall t | t in ts :: t != [] && 0 !in t
  }

  lemma {:induction false} EncodedWithoutNul(t: Characters)
    requires 0 !in t
    ensures NUL !in Encode(t)
  {
    if t != [] {
      assert t[0] in t;
      EncodedWithoutNul(t[1..]);
    }
  }

  lemma EncodedProper(ts: seq<Characters>)
    requires ProperTexts(ts)
    ensures Proper(Encoded(ts))
  {
    forall n | n in Encoded(ts) ensures n != [] && NUL !in n {
      var i :| 0 <= i < |ts| && Encoded(ts)[i] == n;
      assert ts[i] in ts;
      EncodedWithoutNul(ts[i]);
    }
  }

  lemma Slash()
    ensures Encode([0x2F]) == [SLASH] && Decode([SLASH]) == Some([0x2F])
  {
    assert [0x2F as CodePoint][1..] == [];
    DecodeIff([SLASH], [0x2F]);
  }

  lemma {:induction false} EncodedJoined(ts: seq<Characters>)
    ensures Encode(JoinedText(ts)) == Joined(Encoded(ts))
  {
    hide EncodeOne;
    if ts != [] {
      EncodedJoined(ts[1..]);
      assert Encoded(ts)[1..] == Encoded(ts[1..]);
      Slash();
      EncodeConcat(JoinedText(ts[1..]), [0x2F]);
      EncodeConcat(JoinedText(ts[1..]) + [0x2F], ts[0]);
    }
  }

  /** Exactly when Python reads the whole path as text and no flag is raised: at most 16 components, each of at most
      63 bytes, that fit. */
  lemma WholeTextIff(ts: seq<Characters>, buf: seq<Byte>, pos: nat)
    requires ProperTexts(ts) && |buf| >= 2 && pos < |buf| && buf[pos..] == Shown(Encoded(ts), |buf|) + [NUL]
    ensures var names := Encoded(ts);
      ReadText(buf, pos) == Some(TrueText(ts)) && Walk(names, 0, |buf| - 1).flags == {} <==>
        |ts| <= 16 && (forall i | 0 <= i < |ts| :: |Encode(ts[i])| <= 63) && |Encode(JoinedText(ts))| < |buf|
  {
    hide Decode, Encode, Walk, Shown, ReadPath;
    var names := Encoded(ts);
    assert forall i | 0 <= i < |ts| :: names[i] in names;
    EncodedProper(ts);
    ReaderRecovers(names, buf, pos);
    DecodeIff(ReadPath(buf, pos), TrueText(ts));
    EncodedJoined(ts);
    Slash();
    WholePathIff(names, |buf|);
  }

  // Component i loses its last byte within a character.
  predicate CutInside(ts: seq<Characters>, i: nat)
    requires i < |ts|
  {
    ts[i] != [] && |Encode(ts[i])| == MAX_NAME_LENGTH && |EncodeOne(ts[i][|ts[i]| - 1])| > 1
  }

  // What is read of a name of at most 64 bytes is whole characters, or cut within the last one.
  lemma ReadWhole(t: Characters) returns (u: Characters)
    requires t != [] && 0 !in t && |Encode(t)| <= MAX_NAME_LENGTH && !CutInside([t], 0)
    ensures ReadName(Encode(t)) == Encode(u)
  {
    hide EncodeOne;
    EncodedWithoutNul(t);
    ReadShort(Encode(t), MAX_NAME_LENGTH - 1);
    if |Encode(t)| < MAX_NAME_LENGTH {
      u := t;
    } else {
      u := t[..|t| - 1];
      LastCharacter(t);
    }
  }

  lemma ReadCut(t: Characters, rest: seq<Byte>)
    requires t != [] && 0 !in t && CutInside([t], 0) && (rest == [] || rest[0] < 0x80)
    ensures Decode(ReadName(Encode(t)) + rest).None?
  {
    hide EncodeOne, Decode;
    EncodedWithoutNul(t);
    ReadShort(Encode(t), MAX_NAME_LENGTH - 1);
    LastCharacter(t);
    CutDoesNotDecode(t, MAX_NAME_LENGTH - 1, rest);
  }

  // One component behind its slash, before text that begins with an ASCII byte.
  lemma ComponentDecodes(t: Characters, rest: seq<Byte>)
    requires t != [] && 0 !in t && |Encode(t)| <= MAX_NAME_LENGTH && (rest == [] || rest[0] < 0x80)
    ensures Decode([SLASH] + (ReadName(Encode(t)) + rest)).None? <==> CutInside([t], 0) || Decode(rest).None?
  {
    hide EncodeOne, Encode, Decode, CutInside, ReadName;
    Slash();
    DecodeBehind([0x2F], ReadName(Encode(t)) + rest);
    if CutInside([t], 0) {
      ReadCut(t, rest);
    } else {
      var u := ReadWhole(t);
      DecodeBehind(u, rest);
    }
  }

  lemma {:induction false} TextDecodes(ts: seq<Characters>, k: nat)
    requires ProperTexts(ts) && k <= |ts| && forall i | 0 <= i < k :: |Encode(ts[i])| <= MAX_NAME_LENGTH
    ensures Decode(Text(Encoded(ts)[..k])).None? <==> exists i | 0 <= i < k :: CutInside(ts, i)
  {
    hide EncodeOne, Encode, Decode, CutInside, ReadName, Text;
    var names := Encoded(ts);
    NoText(names);
    if k == 0 {
      DecodeIff([], []);
      NothingEncoded();
    } else {
      var t, rest := ts[k - 1], Text(names[..k - 1]);
      assert t in ts;
      TextDecodes(ts, k - 1);
      TextGrows(names, k - 1);
      assert rest == [] || rest[0] < 0x80 by { StartsWithSlash(names[..k - 1]); }
      assert Text(names[..k]) == [SLASH] + (ReadName(Encode(t)) + rest);
      ComponentDecodes(t, rest);
      SameCut(ts, k - 1);
    }
  }

  lemma StartsWithSlash(names: seq<Name>)
    ensures Text(names) == [] || Text(names)[0] == SLASH
  {
    TextHasNoNul(names);
  }

  lemma NothingEncoded()
    ensures Encode([]) == []
  {
  }

  lemma SameCut(ts: seq<Characters>, i: nat)
    requires i < |ts|
    ensures CutInside(ts, i) <==> CutInside([ts[i]], 0)
  {
  }

  /** Exactly when reading the path raises, so that the process is dropped: when one of the components the walk takes
      has 64 bytes and ends in a character of more than one byte. */
  lemma ReadRaisesIff(ts: seq<Characters>, buf: seq<Byte>, pos: nat)
    requires ProperTexts(ts) && |buf| >= 2 && pos < |buf| && buf[pos..] == Shown(Encoded(ts), |buf|) + [NUL]
    ensures ReadText(buf, pos).None? <==>
      exists i | 0 <= i < Walk(Encoded(ts), 0, |buf| - 1).taken :: CutInside(ts, i)
  {
    hide Decode, Encode, Walk, ReadPath, CutInside, Text, ProperTexts, Proper;
    var names := Encoded(ts);
    EncodedProper(ts);
    ReaderRecovers(names, buf, pos);
    var k := TakenShort(names, |buf|);
    if k == 0 {
      Slash();
    } else {
      forall i | 0 <= i < k ensures |Encode(ts[i])| <= MAX_NAME_LENGTH { assert names[i] == Encode(ts[i]); }
      TextDecodes(ts, k);
    }
  }

  lemma TakenShort(names: seq<Name>, size: nat) returns (k: nat)
    requires Proper(names) && size >= 2
    ensures k == Walk(names, 0, size - 1).taken && k <= |names|
    ensures forall j | 0 <= j < k :: |names[j]| <= MAX_NAME_LENGTH
  {
    hide Walk, Text, Proper;
    k := Walk(names, 0, size - 1).taken;
    WalkMeaning(names, 0, size - 1);
  }
}
