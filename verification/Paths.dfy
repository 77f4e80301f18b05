// Path texts as Python's pathlib and os.path take them apart.
module Paths {

  // The components of a path from the piece read so far on; empty ones and single dots are dropped.
  function ComponentsFrom(path: string, piece: string): seq<string> {
    var read := if piece == "" || piece == "." then [] else [piece];
    if path == [] then read
    else if path[0] == '/' then read + ComponentsFrom(path[1..], "")
    else ComponentsFrom(path[1..], piece + [path[0]])
  }

  function Components(path: string): seq<string> {
    ComponentsFrom(path, "")
  }

  function Joined(parts: seq<string>): string {
    if parts == [] then "" else if |parts| == 1 then parts[0] else parts[0] + "/" + Joined(parts[1..])
  }

  // Exactly two leading slashes stay two, any other number becomes one.
  function Root(path: string): string {
    if !("/" <= path) then "" else if "//" <= path && !("///" <= path) then "//" else "/"
  }

  // str(Path(path))
  function PathText(path: string): string {
    var text := Root(path) + Joined(Components(path));
    if text == "" then "." else text
  }

  predicate Clean(part: string) {
    part != "" && part != "." && '/' !in part
  }

  lemma {:induction false} ComponentRead(a: string, rest: string, piece: string)
    requires '/' !in a
    ensures ComponentsFrom(a + "/" + rest, piece)
      == (if piece + a == "" || piece + a == "." then [] else [piece + a]) + Components(rest)
    ensures ComponentsFrom(a, piece) == if piece + a == "" || piece + a == "." then [] else [piece + a]
  {
    var path := a + "/" + rest;
    if a == [] {
      assert path[1..] == rest && piece + a == piece;
    } else {
      assert path[1..] == a[1..] + "/" + rest && a[0] in a;
      ComponentRead(a[1..], rest, piece + [a[0]]);
      assert piece + [a[0]] + a[1..] == piece + a;
    }
  }

  // The pieces between slashes that name something.
  function Named(pieces: seq<string>): seq<string> {
    if pieces == [] then [] else (if pieces[0] == "" || pieces[0] == "." then [] else [pieces[0]]) + Named(pieces[1..])
  }

  /** The components of a path are the pieces between its slashes without the empty ones and the single dots. */
  lemma {:induction false} ComponentsOfPieces(pieces: seq<string>)
    requires forall p | p in pieces :: '/' !in p
    ensures Components(Joined(pieces)) == Named(pieces)
  {
    if pieces != [] {
      var rest := if |pieces| == 1 then "" else Joined(pieces[1..]);
      assert pieces[0] in pieces && "" + pieces[0] == pieces[0];
      ComponentRead(pieces[0], rest, "");
      if |pieces| > 1 {
        assert forall p | p in pieces[1..] :: p in pieces;
        ComponentsOfPieces(pieces[1..]);
      }
    }
  }

  /** A slash between two paths puts the components of one before those of the other. */
  lemma {:induction false} ComponentsAppend(a: string, b: string, piece: string)
    ensures ComponentsFrom(a + "/" + b, piece) == ComponentsFrom(a, piece) + Components(b)
  {
    var path := a + "/" + b;
    if a == [] {
      assert path[1..] == b;
    } else {
      assert path[0] == a[0] && path[1..] == a[1..] + "/" + b;
      ComponentsAppend(a[1..], b, if a[0] == '/' then "" else piece + [a[0]]);
    }
  }

  /** Taking a path apart undoes joining its components. */
  lemma {:induction false} ComponentsOfJoined(parts: seq<string>)
    requires forall p | p in parts :: Clean(p)
    ensures Components(Joined(parts)) == parts
  {
    if parts != [] {
      var rest := if |parts| == 1 then "" else Joined(parts[1..]);
      assert parts[0] in parts && Clean(parts[0]) && "" + parts[0] == parts[0];
      ComponentRead(parts[0], rest, "");
      if |parts| > 1 {
        assert forall p | p in parts[1..] :: p in parts;
        ComponentsOfJoined(parts[1..]);
      }
    }
  }

  lemma {:induction false} ComponentsClean(path: string, piece: string)
    requires '/' !in piece
    ensures forall p | p in ComponentsFrom(path, piece) :: Clean(p)
  {
    if path != [] {
      if path[0] == '/' { ComponentsClean(path[1..], ""); } else { ComponentsClean(path[1..], piece + [path[0]]); }
    }
  }

  lemma RootedComponents(root: string, text: string)
    requires root == "" || root == "/" || root == "//"
    ensures Components(root + text) == Components(text)
  {
    if root == "/" {
      assert (root + text)[1..] == text;
    } else if root == "//" {
      assert ("/" + text)[1..] == text;
      assert Components("/" + text) == Components(text);
      assert (root + text)[1..] == "/" + text;
    } else {
      assert root + text == text;
    }
  }

  lemma JoinedStart(parts: seq<string>)
    requires forall p | p in parts :: Clean(p)
    ensures !("/" <= Joined(parts))
  {
    if parts != [] {
      assert Clean(parts[0]) && parts[0][0] in parts[0];
      assert Joined(parts)[0] == parts[0][0];
    }
  }

  /** The text of a path is its own text: taking it again changes nothing. */
  lemma PathTextStable(path: string)
    ensures PathText(PathText(path)) == PathText(path)
  {
    TextKeeps(path);
    TextDecided(PathText(path), path);
  }

  lemma SameRoot(root: string, text: string)
    requires root == "" || root == "/" || root == "//"
    requires !("/" <= text)
    ensures Root(root + text) == root
  {
    var s := root + text;
    if root == "//" && text != [] { assert s[2] == text[0] && text[0] != '/' by { assert !("/" <= text); } }
    if root == "/" && text != [] { assert s[1] == text[0] && text[0] != '/' by { assert !("/" <= text); } }
    if root == "" { assert s == text; }
  }

  function Slashes(n: nat): string {
    seq(n, _ => '/')
  }

  /** What counts of the slashes a path begins with: whether there are none, exactly two, or another number. */
  lemma RootMeaning(n: nat, rest: string)
    requires !("/" <= rest)
    ensures Root(Slashes(n) + rest) == if n == 0 then "" else if n == 2 then "//" else "/"
  {
    var path := Slashes(n) + rest;
    assert n == 0 ==> path == rest;
    assert n == 1 && rest != [] ==> path[1] == rest[0] && rest[..1] != "/";
    assert n == 2 && rest != [] ==> path[2] == rest[0] && rest[..1] != "/";
    assert n > 2 ==> path[..3] == "///";
  }

  // Root and components of the text of a path are those of the path itself.
  lemma TextKeeps(path: string)
    ensures Root(PathText(path)) == Root(path) && Components(PathText(path)) == Components(path)
  {
    var parts, root := Components(path), Root(path);
    ComponentsClean(path, "");
    ComponentsOfJoined(parts);
    RootedComponents(root, Joined(parts));
    JoinedStart(parts);
    var text := root + Joined(parts);
    if text == "" {
      assert root == "" && Joined(parts) == "";
      ComponentRead(".", "", "");
      assert "" + "." == ".";
    } else {
      SameRoot(root, Joined(parts));
    }
  }

  /** Two paths have one text exactly when they begin alike, by the slashes that count, and have the same components. */
  lemma PathTextIff(p: string, q: string)
    ensures PathText(p) == PathText(q) <==> Root(p) == Root(q) && Components(p) == Components(q)
  {
    hide Components, Joined, Root;
    TextKeeps(p);
    TextKeeps(q);
    if Root(p) == Root(q) && Components(p) == Components(q) { TextDecided(p, q); }
  }

  lemma TextDecided(p: string, q: string)
    requires Root(p) == Root(q) && Components(p) == Components(q)
    ensures PathText(p) == PathText(q)
  {
  }

  // os.path.normpath of an absolute path drops the component before each "..", where there is one to drop.
  function Collapsed(parts: seq<string>): seq<string> {
    if parts == [] then [] else Followed(Collapsed(parts[..|parts| - 1]), parts[|parts| - 1])
  }

  function Followed(before: seq<string>, part: string): seq<string> {
    if part != ".." || (before != [] && before[|before| - 1] == "..") then before + [part]
    else if before != [] then before[..|before| - 1] else before
  }

  lemma CollapsedThen(parts: seq<string>, last: string)
    ensures Collapsed(parts + [last]) == Followed(Collapsed(parts), last)
  {
    assert (parts + [last])[..|parts|] == parts;
  }

  /** A component and the two dots behind it cancel out. */
  lemma {:induction false} CollapseBack(a: seq<string>, part: string, b: seq<string>)
    requires part != ".."
    ensures Collapsed(a + [part, ".."] + b) == Collapsed(a + b)
  {
    hide Collapsed;
    if b == [] {
      assert a + [part, ".."] + b == a + [part] + [".."] && a + b == a;
      CollapsedThen(a + [part], "..");
      CollapsedThen(a, part);
    } else {
      hide Followed;
      var init, last := b[..|b| - 1], b[|b| - 1];
      CollapseBack(a, part, init);
      assert a + [part, ".."] + b == a + [part, ".."] + init + [last] && a + b == a + init + [last];
      CollapsedThen(a + [part, ".."] + init, last);
      CollapsedThen(a + init, last);
    }
  }

  /** Above the root there is only the root. */
  lemma {:induction false} CollapseAtRoot(b: seq<string>)
    ensures Collapsed([".."] + b) == Collapsed(b)
  {
    if b == [] {
      assert [".."] + b == [] + [".."];
      CollapsedThen([], "..");
    } else {
      var init, last := b[..|b| - 1], b[|b| - 1];
      CollapseAtRoot(init);
      assert [".."] + b == [".."] + init + [last] && b == init + [last];
      CollapsedThen([".."] + init, last);
      CollapsedThen(init, last);
    }
  }

  lemma {:induction false} NothingToCollapse(parts: seq<string>)
    requires ".." !in parts
    ensures Collapsed(parts) == parts
  {
    if parts != [] {
      var init, last := parts[..|parts| - 1], parts[|parts| - 1];
      assert parts == init + [last];
      NothingToCollapse(init);
    }
  }
}
