// The path builder of the BPF program, which fills a buffer from its end, and the Python code
// that slices and strips the buffer.
module PathBuffer {
  import opened Events

  const MAX_DENTRY_LEVEL := 16
  const MAX_NAME_LENGTH := 64
  const SLASH: Byte := 0x2F
  const NUL: Byte := 0

  datatype ErrorFlag = DentryTooDeep | NameTooLong | ArgsTooLong

  type Name = seq<Byte>

  // bpf_probe_read_str into a buffer of MAX_NAME_LENGTH: up to the first NUL and at most 63 bytes.
  function ReadName(name: Name): (r: Name)
    ensures |r| < MAX_NAME_LENGTH && NUL !in r && r <= name
  {
    ReadUpTo(name, MAX_NAME_LENGTH - 1)
  }

  function ReadUpTo(name: Name, n: nat): (r: Name)
    ensures |r| <= n && NUL !in r && r <= name
  {
    if n == 0 || name == [] || name[0] == NUL then [] else [name[0]] + ReadUpTo(name[1..], n - 1)
  }

  // names lists the dentries from the leaf up to, and without, the root.
  // How far the walk goes from dentry i with `room` bytes free before the text so far, and its flags.
  datatype Walked = Walked(taken: nat, flags: set<ErrorFlag>)

  function Walk(names: seq<Name>, i: nat, room: int): (w: Walked)
    requires i <= |names|
    ensures i <= w.taken <= |names|
    decreases |names| - i
  {
    if i >= MAX_DENTRY_LEVEL || i == |names| then Walked(i, {})
    else if |names[i]| > MAX_NAME_LENGTH then Walked(i, {NameTooLong})
    else if ReadName(names[i]) == [] || room - |ReadName(names[i])| - 1 < 0 then Walked(i, {})
    else
      var rest := Walk(names, i + 1, room - |ReadName(names[i])| - 1);
      if i == MAX_DENTRY_LEVEL - 1 && |names| > MAX_DENTRY_LEVEL
      then Walked(rest.taken, rest.flags + {DentryTooDeep}) else rest
  }

  // The path text of some dentries, leaf first, as the buffer holds it.
  function Text(names: seq<Name>): seq<Byte> {
    if names == [] then [] else Text(names[1..]) + [SLASH] + ReadName(names[0])
  }

  function Shown(names: seq<Name>, size: nat): seq<Byte>
    requires size > 0
  {
    var w := Walk(names, 0, size - 1);
    if w.taken == 0 then [SLASH] else Text(names[..w.taken])
  }

  /** get_dentry_path: writes only at and after the offset it returns, where the text of the dentries it
      took starts, ended by a NUL; adds exactly the flags of the walk. */
  method GetDentryPath(names: seq<Name>, buf: array<Byte>, errorFlags: set<ErrorFlag>)
    returns (pos: nat, flags: set<ErrorFlag>)
    requires buf.Length >= 2
    modifies buf
    ensures pos < buf.Length && buf[..pos] == old(buf[..pos])
    ensures buf[pos..] == Shown(names, buf.Length) + [NUL]
    ensures flags == errorFlags + Walk(names, 0, buf.Length - 1).flags
  {
    hide Text, ReadName, Walk;
    flags := errorFlags;
    pos := buf.Length - 1;
    buf[pos] := NUL;
    var i := 0;
    NoText(names);
    assert buf[pos..] == [NUL];
    while i < MAX_DENTRY_LEVEL && i < |names|
      invariant i <= |names| && i <= MAX_DENTRY_LEVEL && pos < buf.Length
      invariant i == 0 <==> pos == buf.Length - 1
      invariant buf[..pos] == old(buf[..pos])
      invariant buf[pos..] == Text(names[..i]) + [NUL]
      invariant Walk(names, 0, buf.Length - 1).taken == Walk(names, i, pos).taken
      invariant errorFlags + Walk(names, 0, buf.Length - 1).flags == flags + Walk(names, i, pos).flags
    {
      WalkOnce(names, i, pos);
      var name := names[i];
      if |name| > MAX_NAME_LENGTH {
        flags := flags + {NameTooLong};
        break;
      }
      var dname := ReadName(name);
      if dname == [] {
        break;
      }
      if pos - |dname| - 1 < 0 {
        break;
      }
      pos := CopyName(buf, pos, dname, names, i);
      i := i + 1;
      ghost var rest := Walk(names, i, pos).flags;
      if i == MAX_DENTRY_LEVEL && |names| > MAX_DENTRY_LEVEL {
        assert flags + (rest + {DentryTooDeep}) == (flags + {DentryTooDeep}) + rest;
        flags := flags + {DentryTooDeep};
      } else {
        assert rest + {} == rest;
      }
    }
    WalkOver(names, i, pos);
    if pos == buf.Length - 1 {
      pos := pos - 1;
      buf[pos] := SLASH;
    }
  }

  // One round of the walk.
  lemma WalkOnce(names: seq<Name>, i: nat, room: int)
    requires i < |names| && i < MAX_DENTRY_LEVEL
    ensures var w, m := Walk(names, i, room), |ReadName(names[i])| + 1;
      if |names[i]| > MAX_NAME_LENGTH then w == Walked(i, {NameTooLong})
      else if ReadName(names[i]) == [] || room - m < 0 then w == Walked(i, {})
      else
        var rest := Walk(names, i + 1, room - m);
        w == Walked(rest.taken, rest.flags + (if i + 1 == MAX_DENTRY_LEVEL < |names| then {DentryTooDeep} else {}))
  {
    hide ReadName;
  }

  lemma WalkOver(names: seq<Name>, i: nat, room: int)
    requires i <= |names|
    ensures i >= MAX_DENTRY_LEVEL || i == |names| ==> Walk(names, i, room) == Walked(i, {})
  {
  }

  lemma NoText(names: seq<Name>)
    ensures names[..0] == [] && Text(names[..0]) == []
  {
  }

  // Copies one name before the text so far and a slash before the name.
  method CopyName(buf: array<Byte>, pos: nat, dname: Name, ghost names: seq<Name>, ghost i: nat) returns (newPos: nat)
    requires i < |names| && dname == ReadName(names[i]) && |dname| + 1 <= pos < buf.Length
    requires buf[pos..] == Text(names[..i]) + [NUL]
    modifies buf
    ensures newPos == pos - |dname| - 1
    ensures buf[..newPos] == old(buf[..newPos])
    ensures buf[newPos..] == Text(names[..i + 1]) + [NUL]
  {
    hide Text, ReadName;
    ghost var tail := buf[pos..];
    newPos := pos - |dname|;
    for k := 0 to |dname|
      invariant buf[..newPos] == old(buf[..newPos])
      invariant buf[newPos..newPos + k] == dname[..k]
      invariant buf[pos..] == tail
    {
      buf[newPos + k] := dname[k];
      assert dname[..k + 1] == dname[..k] + [dname[k]];
    }
    assert dname[..|dname|] == dname;
    newPos := newPos - 1;
    buf[newPos] := SLASH;
    TextGrows(names, i);
    assert buf[newPos..] == [SLASH] + dname + tail;
  }

  // Text lists the outermost component first, so a further dentry goes in front.
  lemma {:induction false} TextGrows(names: seq<Name>, i: nat)
    requires i < |names|
    ensures Text(names[..i + 1]) == [SLASH] + ReadName(names[i]) + Text(names[..i])
  {
    var s := names[..i + 1];
    assert s[1..] == names[1..][..i];
    if i == 0 {
      assert Text(s[1..]) == [];
    } else {
      assert names[..i][1..] == names[1..][..i - 1];
      TextGrows(names[1..], i - 1);
    }
  }

  // ---- the reader ---------------------------------------------------------------------------------

  function LeftStripped(bs: seq<Byte>): seq<Byte> {
    if bs != [] && bs[0] == NUL then LeftStripped(bs[1..]) else bs
  }

  function RightStripped(bs: seq<Byte>): seq<Byte> {
    if bs != [] && bs[|bs| - 1] == NUL then RightStripped(bs[..|bs| - 1]) else bs
  }

  // bytes(buffer[offset:]).strip(b"\0")
  function ReadPath(buf: seq<Byte>, offset: nat): seq<Byte>
    requires offset <= |buf|
  {
    RightStripped(LeftStripped(buf[offset..]))
  }

  // The path of a dentry, from its true names.
  function TruePath(names: seq<Name>): seq<Byte> {
    if names == [] then [SLASH] else Joined(names)
  }

  function Joined(names: seq<Name>): seq<Byte> {
    if names == [] then [] else Joined(names[1..]) + [SLASH] + names[0]
  }

  // What the kernel keeps of every name.
  predicate Proper(names: seq<Name>) {
    forall n | n in names :: n != [] && NUL !in n
  }

  lemma {:induction false} TextHasNoNul(names: seq<Name>)
    ensures NUL !in Text(names)
    ensures names != [] ==> Text(names) != [] && Text(names)[0] == SLASH
  {
    if names != [] { TextHasNoNul(names[1..]); }
  }

  /** Slicing the buffer at the offset and stripping NULs gives exactly the text the walk took. */
  lemma ReaderRecovers(names: seq<Name>, buf: seq<Byte>, pos: nat)
    requires |buf| >= 2 && pos < |buf| && buf[pos..] == Shown(names, |buf|) + [NUL]
    ensures ReadPath(buf, pos) == Shown(names, |buf|)
  {
    var text := Shown(names, |buf|);
    var w := Walk(names, 0, |buf| - 1);
    TextHasNoNul(names[..w.taken]);
    assert text != [] && text[0] != NUL && NUL !in text;
    assert LeftStripped(text + [NUL]) == text + [NUL];
    assert (text + [NUL])[..|text|] == text;
    assert text[|text| - 1] in text;
    assert RightStripped(text) == text;
    assert RightStripped(text + [NUL]) == text;
  }

  // ---- when the text is the path --------------------------------------------------------------------

  // The bytes the names take in the buffer, a slash each.
  function Needs(names: seq<Name>): nat {
    if names == [] then 0 else |names[0]| + 1 + Needs(names[1..])
  }

  lemma {:induction false} ReadShort(name: Name, n: nat)
    requires NUL !in name
    ensures ReadUpTo(name, n) == name[..if |name| <= n then |name| else n]
  {
    if n > 0 && name != [] {
      assert name[0] in name;
      ReadShort(name[1..], n - 1);
      assert name == [name[0]] + name[1..];
    }
  }

  predicate AllShort(names: seq<Name>) {
    forall n | n in names :: |n| < MAX_NAME_LENGTH
  }

  lemma HeadAndTail(names: seq<Name>)
    requires names != []
    ensures Proper(names) ==> names[0] != [] && NUL !in names[0] && Proper(names[1..])
    ensures AllShort(names) <==> |names[0]| < MAX_NAME_LENGTH && AllShort(names[1..])
  {
    assert names == [names[0]] + names[1..];
    assert names[0] in names;
    assert forall n :: n in names <==> n == names[0] || n in names[1..];
  }

  lemma {:induction false} TextLength(names: seq<Name>)
    requires Proper(names)
    ensures |Text(names)| <= Needs(names) && |Joined(names)| == Needs(names)
    ensures AllShort(names) <==> |Text(names)| == Needs(names)
    ensures AllShort(names) ==> Text(names) == Joined(names)
  {
    hide AllShort, Proper, ReadName;
    if names == [] {
      NothingShort();
    } else {
      HeadAndTail(names);
      NameLength(names[0]);
      TextLength(names[1..]);
    }
  }

  lemma NothingShort()
    ensures AllShort([])
  {
  }

  lemma NameLength(name: Name)
    requires NUL !in name
    ensures |ReadName(name)| <= |name| && (|name| < MAX_NAME_LENGTH <==> |ReadName(name)| == |name|)
    ensures |name| < MAX_NAME_LENGTH ==> ReadName(name) == name
  {
    ReadShort(name, MAX_NAME_LENGTH - 1);
  }

  lemma {:induction false} NeedsSplit(names: seq<Name>, k: nat)
    requires k <= |names|
    ensures Needs(names) == Needs(names[..k]) + Needs(names[k..])
    ensures k < |names| ==> Needs(names[k..]) > 0
    ensures Joined(names) == Joined(names[k..]) + Joined(names[..k])
  {
    if k > 0 {
      NeedsSplit(names[1..], k - 1);
      assert names[..k][1..] == names[1..][..k - 1] && names[1..][k - 1..] == names[k..];
    } else {
      assert names[..0] == [] && names[0..] == names;
    }
  }

  // The walk can take the first k dentries: not too many, none with an overlong name, and they fit.
  predicate CanTake(names: seq<Name>, k: nat, room: int)
    requires k <= |names|
  {
    k <= MAX_DENTRY_LEVEL && (forall n | n in names[..k] :: |n| <= MAX_NAME_LENGTH) && |Text(names[..k])| <= room
  }

  // It stops after k: it can take that many and no more.
  predicate StopsAt(names: seq<Name>, k: nat, room: int) {
    k <= |names| && CanTake(names, k, room) && (k < |names| ==> !CanTake(names, k + 1, room))
  }

  lemma TextOfSlice(names: seq<Name>, i: nat, k: nat)
    requires i < k <= |names|
    ensures |Text(names[i..k])| == |Text(names[i + 1..k])| + 1 + |ReadName(names[i])|
  {
    assert names[i..k][1..] == names[i + 1..k];
  }

  // Where the walk stops and with which flags, from any dentry on.
  lemma {:induction false} WalkMeaning(names: seq<Name>, i: nat, room: int)
    requires Proper(names) && i <= |names| && i <= MAX_DENTRY_LEVEL && room >= 0
    ensures var w := Walk(names, i, room); var k := w.taken;
      && k <= MAX_DENTRY_LEVEL && |Text(names[i..k])| <= room
      && (forall j | i <= j < k :: |names[j]| <= MAX_NAME_LENGTH)
      && (k < |names| && k < MAX_DENTRY_LEVEL && |names[k]| <= MAX_NAME_LENGTH ==> |Text(names[i..k + 1])| > room)
      && (NameTooLong in w.flags <==> k < |names| && k < MAX_DENTRY_LEVEL && |names[k]| > MAX_NAME_LENGTH)
      && (DentryTooDeep in w.flags <==> i < MAX_DENTRY_LEVEL == k < |names|)
      && ArgsTooLong !in w.flags
    decreases |names| - i
  {
    hide ReadName, Text;
    var w := Walk(names, i, room);
    assert names[i..i] == [];
    NoText(names);
    if i < |names| {
      assert names[i] in names;
      NameRead(names[i]);
      TextOfSlice(names, i, i + 1);
      if w.taken > i {
        var m := |ReadName(names[i])| + 1;
        WalkMeaning(names, i + 1, room - m);
        TextOfSlice(names, i, w.taken);
        if w.taken < |names| { TextOfSlice(names, i, w.taken + 1); }
      }
    }
  }

  lemma NameRead(name: Name)
    requires name != [] && NUL !in name
    ensures ReadName(name) != []
  {
    assert name[0] in name;
  }

  lemma {:induction false} TextMonotone(names: seq<Name>, j: nat, k: nat)
    requires j <= k <= |names|
    ensures |Text(names[..j])| <= |Text(names[..k])|
  {
    if j < k {
      TextMonotone(names, j, k - 1);
      TextGrows(names, k - 1);
    }
  }

  lemma CanTakeFewer(names: seq<Name>, j: nat, k: nat, room: int)
    requires j <= k <= |names| && CanTake(names, k, room)
    ensures CanTake(names, j, room)
  {
    hide Text;
    TextMonotone(names, j, k);
    assert forall n | n in names[..j] :: n in names[..k];
  }

  /** Where the walk of a path stops, and which flags it raises, exactly: it takes as many dentries as it can; a name
      is reported as too long when the walk reaches one of more than 64 bytes among the first 16, and
      the path as too deep when all of the first 16 are taken and more follow. */
  lemma WalkStops(names: seq<Name>, size: nat, k: nat)
    requires Proper(names) && size >= 2 && StopsAt(names, k, size - 1)
    ensures var w := Walk(names, 0, size - 1);
      && w.taken == k
      && (NameTooLong in w.flags <==> k < |names| && k < 16 && |names[k]| > 64)
      && (DentryTooDeep in w.flags <==> k == 16 < |names|)
      && ArgsTooLong !in w.flags
  {
    hide Text;
    var t := TakenStops(names, size);
    WalkMeaning(names, 0, size - 1);
    if k < t { CanTakeFewer(names, k + 1, t, size - 1); }
    if t < k { CanTakeFewer(names, t + 1, k, size - 1); }
  }

  lemma TakenStops(names: seq<Name>, size: nat) returns (k: nat)
    requires Proper(names) && size >= 2
    ensures k == Walk(names, 0, size - 1).taken && StopsAt(names, k, size - 1)
  {
    hide Text;
    WalkMeaning(names, 0, size - 1);
    k := Walk(names, 0, size - 1).taken;
    assert names[0..k] == names[..k];
    if k < |names| {
      assert names[0..k + 1] == names[..k + 1];
      assert names[k] in names[..k + 1];
    }
  }

  lemma ProperPart(names: seq<Name>, k: nat)
    requires Proper(names) && k <= |names|
    ensures Proper(names[..k])
  {
    assert forall n | n in names[..k] :: n in names;
  }

  // What is shown against the true path, from where the walk stops.
  lemma ShownIsWholeIff(names: seq<Name>, size: nat, k: nat)
    requires Proper(names) && size >= 2 && k == Walk(names, 0, size - 1).taken
    ensures Shown(names, size) == TruePath(names) <==> k == |names| && AllShort(names)
  {
    hide Text, Walk, AllShort, Proper;
    ProperPart(names, k);
    TextLength(names);
    TextLength(names[..k]);
    NeedsSplit(names, k);
    if names == [] {
      NothingShort();
    } else {
      NeedsAtLeast(names);
      assert names[..|names|] == names;
    }
  }

  lemma NoFlags(flags: set<ErrorFlag>)
    ensures flags == {} <==> NameTooLong !in flags && DentryTooDeep !in flags && ArgsTooLong !in flags
  {
    if flags != {} {
      var f :| f in flags;
      assert f == NameTooLong || f == DentryTooDeep || f == ArgsTooLong;
    }
  }

  /** Loss without a flag, exactly: when the walk takes all the dentries but one of them has a 64-byte name, or when it
      stops, short of the sixteenth, at a name that is not too long but does not fit. */
  lemma SilentLossIff(names: seq<Name>, size: nat, k: nat)
    requires Proper(names) && size >= 2 && StopsAt(names, k, size - 1)
    ensures Shown(names, size) != TruePath(names) && Walk(names, 0, size - 1).flags == {} <==>
      if k == |names| then exists n | n in names :: |n| == 64 else k < 16 && |names[k]| <= 64
  {
    hide Text, Walk, Shown, TruePath;
    WalkStops(names, size, k);
    ShownIsWholeIff(names, size, k);
    NoFlags(Walk(names, 0, size - 1).flags);
    assert names[..|names|] == names;
  }

  /** Exactly when the reader gets the whole path without an error flag: at most 16 names, each of at most
      63 bytes, that fit into the buffer with the final NUL. */
  lemma WholePathIff(names: seq<Name>, size: nat)
    requires Proper(names) && size >= 2
    ensures Shown(names, size) == TruePath(names) && Walk(names, 0, size - 1).flags == {} <==>
      |names| <= MAX_DENTRY_LEVEL && AllShort(names) && Needs(names) <= size - 1
    ensures Shown(names, size) == TruePath(names) && Walk(names, 0, size - 1).flags == {} <==>
      |names| <= 16 && (forall n | n in names :: |n| <= 63) && |Joined(names)| < size
  {
    hide Text, Walk, Shown, TruePath, Needs;
    var k := TakenStops(names, size);
    WalkStops(names, size, k);
    ShownIsWholeIff(names, size, k);
    TextLength(names);
    assert names[..|names|] == names;
    NoFlags(Walk(names, 0, size - 1).flags);
    if |names| <= MAX_DENTRY_LEVEL && AllShort(names) && Needs(names) <= size - 1 && k < |names| {
      CanTakeFewer(names, k + 1, |names|, size - 1);
    }
  }

  lemma NeedsAtLeast(names: seq<Name>)
    requires Proper(names) && names != []
    ensures Needs(names) >= 2
  {
    assert names[0] in names;
  }

  /** However the walk ends, with names of at most 63 bytes the text is the end of the true path, cut
      between components, and starts with a slash. */
  lemma ShownIsAlignedSuffix(names: seq<Name>, size: nat)
    requires Proper(names) && size >= 2 && AllShort(names)
    ensures var k := Walk(names, 0, size - 1).taken; var text := Shown(names, size);
      && text[..1] == [SLASH]
      && (k > 0 ==> TruePath(names) == Joined(names[k..]) + text)
      && |text| + 1 <= size
  {
    hide Text, Walk, Needs;
    var k := TakenStops(names, size);
    var part := names[..k];
    ProperPart(names, k);
    assert forall n | n in part :: n in names;
    TextLength(part);
    TextHasNoNul(part);
    NeedsSplit(names, k);
  }

  /** The flags alone do not tell: a name of 64 bytes loses its last byte and no flag is raised. */
  lemma TruncationIsSilent(name: Name)
    requires |name| == 64 && NUL !in name
    ensures Walk([name], 0, 255).flags == {} && Shown([name], 256) != TruePath([name])
  {
    ReadShort(name, 63);
    assert Walk([name], 1, 255 - 64) == Walked(1, {});
    assert name in [name];
    WholePathIff([name], 256);
  }

  /** Nor is one raised when a path does not fit and loses its first components. */
  lemma OverflowIsSilent(name: Name)
    requires |name| == 63 && NUL !in name
    ensures var names := [name, name, name, name, name];
      Walk(names, 0, 255).flags == {} && Shown(names, 256) != TruePath(names)
  {
    var names := [name, name, name, name, name];
    ReadShort(name, 63);
    assert ReadName(name) == name;
    assert Walk(names, 3, 63) == Walked(3, {});
    assert Walk(names, 2, 127) == Walk(names, 3, 63);
    assert Walk(names, 1, 191) == Walk(names, 2, 127);
    assert Walk(names, 0, 255) == Walk(names, 1, 191);
    assert names == seq(5, _ => name);
    NeedsOfEqual(name, 5);
    WholePathIff(names, 256);
  }

  lemma {:induction false} NeedsOfEqual(name: Name, k: nat)
    requires |name| == 63
    ensures Needs(seq(k, _ => name)) == 64 * k
  {
    if k > 0 {
      NeedsOfEqual(name, k - 1);
      assert seq(k, _ => name)[1..] == seq(k - 1, _ => name);
    }
  }

  // ---- command line arguments ---------------------------------------------------------------------

  const ARG_SIZE := 256

  // How much of [start, end) args_handler copies, and its flag.
  function ArgsCopied(start: int, end: int): (int, set<ErrorFlag>) {
    var length := if end > start then end - start else 0;
    if length > ARG_SIZE then (ARG_SIZE, {ArgsTooLong}) else (length, {})
  }

  // The kernel's argument area: each argument ended by a NUL.
  function ArgArea(args: seq<Name>): seq<Byte> {
    if args == [] then [] else args[0] + [NUL] + ArgArea(args[1..])
  }

  // bytes.split(b"\0") from the piece read so far on, empty pieces dropped.
  function Pieces(bs: seq<Byte>, piece: Name): seq<Name> {
    if bs == [] then (if piece == [] then [] else [piece])
    else if bs[0] == NUL then (if piece == [] then [] else [piece]) + Pieces(bs[1..], [])
    else Pieces(bs[1..], piece + [bs[0]])
  }

  function ReadArgs(area: seq<Byte>): seq<Name> {
    var (length, _) := ArgsCopied(0, |area|);
    Pieces(area[..length], [])
  }

  function NonEmpty(args: seq<Name>): seq<Name> {
    if args == [] then [] else (if args[0] == [] then [] else [args[0]]) + NonEmpty(args[1..])
  }

  lemma {:induction false} PieceRead(a: Name, rest: seq<Byte>, piece: Name)
    requires NUL !in a
    ensures Pieces(a + [NUL] + rest, piece) == (if piece + a == [] then [] else [piece + a]) + Pieces(rest, [])
  {
    var bs := a + [NUL] + rest;
    if a == [] {
      assert bs[1..] == rest && piece + a == piece;
    } else {
      assert bs[1..] == a[1..] + [NUL] + rest && a[0] in a;
      PieceRead(a[1..], rest, piece + [a[0]]);
      assert piece + [a[0]] + a[1..] == piece + a;
    }
  }

  lemma {:induction false} PiecesOfArea(args: seq<Name>)
    requires forall a | a in args :: NUL !in a
    ensures Pieces(ArgArea(args), []) == NonEmpty(args)
  {
    if args != [] {
      assert args[0] in args && forall a | a in args[1..] :: a in args;
      PiecesOfArea(args[1..]);
      PieceRead(args[0], ArgArea(args[1..]), []);
      assert [] + args[0] == args[0];
    }
  }

  lemma {:induction false} PiecesWithoutNul(a: Name, piece: Name)
    requires NUL !in a
    ensures Pieces(a, piece) == if piece + a == [] then [] else [piece + a]
  {
    if a == [] {
      assert piece + a == piece;
    } else {
      assert a[0] in a;
      PiecesWithoutNul(a[1..], piece + [a[0]]);
      assert piece + [a[0]] + a[1..] == piece + a;
    }
  }

  lemma CutInFirst(args: seq<Name>, n: nat)
    requires args != [] && NUL !in args[0] && n <= |args[0]|
    ensures |ArgArea(args)| > n && ArgArea(args)[..n] == args[0][..n]
    ensures Pieces(ArgArea(args)[..n], []) == if args[0][..n] == [] then [] else [args[0][..n]]
  {
    var piece := args[0][..n];
    assert ArgArea(args)[..n] == piece;
    PiecesWithoutNul(piece, []);
    assert [] + piece == piece;
  }

  lemma CutLater(args: seq<Name>, n: nat)
    requires args != [] && NUL !in args[0] && |args[0]| < n <= |ArgArea(args)|
    ensures var m, rest := n - |args[0]| - 1, ArgArea(args[1..]);
      && m <= |rest| && |ArgArea(args)| - n == |rest| - m && ArgArea(args)[..n] == args[0] + [NUL] + rest[..m]
      && Pieces(ArgArea(args)[..n], []) == (if args[0] == [] then [] else [args[0]]) + Pieces(rest[..m], [])
  {
    hide Pieces;
    var m, rest := n - |args[0]| - 1, ArgArea(args[1..]);
    assert ArgArea(args)[..n] == args[0] + [NUL] + rest[..m];
    PieceRead(args[0], rest[..m], []);
    assert [] + args[0] == args[0];
  }

  // Cut anywhere, the area is some whole arguments and a beginning of the next, and reads as such.
  lemma {:induction false} PiecesOfCut(args: seq<Name>, n: nat) returns (k: nat, piece: Name)
    requires (forall a | a in args :: NUL !in a) && n < |ArgArea(args)|
    ensures k < |args| && piece <= args[k] && ArgArea(args)[..n] == ArgArea(args[..k]) + piece
    ensures Pieces(ArgArea(args)[..n], []) == NonEmpty(args[..k]) + if piece == [] then [] else [piece]
  {
    hide Pieces;
    assert args[0] in args && forall a | a in args[1..] :: a in args;
    if n <= |args[0]| {
      CutInFirst(args, n);
      k, piece := 0, args[0][..n];
      assert args[..0] == [];
    } else {
      CutLater(args, n);
      var j;
      j, piece := PiecesOfCut(args[1..], n - |args[0]| - 1);
      k := j + 1;
      assert args[..k][1..] == args[1..][..j] && args[..k][0] == args[0];
    }
  }

  /** Arguments that fit are read back one by one, except empty ones, which are lost; the flag is raised
      exactly when they do not fit. */
  lemma ArgsRoundTrip(args: seq<Name>)
    requires forall a | a in args :: NUL !in a
    ensures |ArgArea(args)| <= 256 ==> ReadArgs(ArgArea(args)) == NonEmpty(args)
    ensures ArgsCopied(0, |ArgArea(args)|).1 == if |ArgArea(args)| <= 256 then {} else {ArgsTooLong}
  {
    PiecesOfArea(args);
    assert ArgArea(args)[..|ArgArea(args)|] == ArgArea(args);
  }

  /** Of arguments that do not fit the reader gets the non-empty ones that lie wholly in the first 256 bytes, and
      then the beginning of the next that does, if any of it does. */
  lemma ArgsCut(args: seq<Name>) returns (k: nat, piece: Name)
    requires (forall a | a in args :: NUL !in a) && |ArgArea(args)| > 256
    ensures k < |args| && piece <= args[k] && |ArgArea(args[..k])| + |piece| == 256
    ensures ReadArgs(ArgArea(args)) == NonEmpty(args[..k]) + if piece == [] then [] else [piece]
  {
    k, piece := PiecesOfCut(args, ARG_SIZE);
  }
}
