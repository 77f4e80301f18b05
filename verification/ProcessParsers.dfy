// The host name and the path of a process: the student and the assignment they name.
module ProcessParsers {
  import opened Events
  import opened Decimal
  import opened AssignmentKey
  import opened Paths

  // The groups of the host name pattern, when it matches.
  datatype Host = Host(subject: string, classNum: string, studentId: string, suffix: Option<string>)

  // The outcome of PathParser.parse, which raises for relative paths and control characters.
  datatype Parsed = Refused | NoAssignment | Directory(name: string)

  predicate Digits(s: string) { s != [] && AllDigits(s) }

  // [1-9][0-9]*
  predicate PositiveNumeral(s: string) { Digits(s) && s[0] != '0' }

  predicate AlphaNumeric(s: string) {
    s != [] && forall c | c in s :: IsDigit(c) || 'a' <= c <= 'z' || 'A' <= c <= 'Z'
  }

  predicate SuffixText(s: string) {
    s != [] && forall c | c in s :: IsDigit(c) || 'a' <= c <= 'z' || c == '-'
  }

  predicate IsAssignmentDirectory(name: string) {
    ASSIGNMENT_PREFIX < name && PositiveNumeral(name[|ASSIGNMENT_PREFIX|..])
  }

  // What stands before the first dash and what after it.
  function CutAtDash(s: string): Option<(string, string)> {
    if s == [] then None
    else if s[0] == '-' then Some(([], s[1..]))
    else match CutAtDash(s[1..]) case None => None case Some((a, b)) => Some(([s[0]] + a, b))
  }

  lemma {:induction false} CutFound(s: string)
    ensures match CutAtDash(s) case None => '-' !in s case Some((a, b)) => '-' !in a && s == a + "-" + b
  {
    if s != [] {
      CutFound(s[1..]);
      assert s == [s[0]] + s[1..];
      if CutAtDash(s).Some? && s[0] != '-' {
        var (a, b) := CutAtDash(s[1..]).value;
        assert s == ([s[0]] + a) + "-" + b;
      }
    }
  }

  lemma {:induction false} CutThere(a: string, b: string)
    requires '-' !in a
    ensures CutAtDash(a + "-" + b) == Some((a, b))
  {
    var s := a + "-" + b;
    if a == [] {
      assert s[0] == '-' && s[1..] == b;
    } else {
      assert s[0] == a[0] && a[0] in a && s[1..] == a[1..] + "-" + b;
      CutThere(a[1..], b);
      assert a == [a[0]] + a[1..];
    }
  }

  lemma CutMeaning(s: string, a: string, b: string)
    ensures CutAtDash(s) == Some((a, b)) <==> '-' !in a && s == a + "-" + b
    ensures CutAtDash(s).None? <==> '-' !in s
  {
    CutFound(s);
    if '-' !in a { CutThere(a, b); }
  }

  // $ also matches before a final newline.
  function WithoutNewline(s: string): string {
    if s != [] && s[|s| - 1] == '\n' then s[..|s| - 1] else s
  }

  const HOST_PREFIX := "jcode-"

  function ParseHostname(hostname: string): Option<Host> {
    var text := WithoutNewline(hostname);
    if !(HOST_PREFIX <= text) then None else
      match CutAtDash(text[|HOST_PREFIX|..])
      case None => None
      case Some((subject, rest)) =>
        if !AlphaNumeric(subject) then None else
          match CutAtDash(rest)
          case None => None
          case Some((classNum, last)) => if Digits(classNum) then ParseStudent(subject, classNum, last) else None
  }

  function ParseStudent(subject: string, classNum: string, rest: string): Option<Host> {
    match CutAtDash(rest)
    case None => if Digits(rest) then Some(Host(subject, classNum, rest, None)) else None
    case Some((studentId, suffix)) =>
      if Digits(studentId) && SuffixText(suffix) then Some(Host(subject, classNum, studentId, Some(suffix))) else None
  }

  predicate HostMatched(h: Host) {
    && AlphaNumeric(h.subject) && Digits(h.classNum) && Digits(h.studentId)
    && (h.suffix.Some? ==> SuffixText(h.suffix.value))
  }

  function StudentText(h: Host): string {
    h.studentId + if h.suffix.None? then "" else "-" + h.suffix.value
  }

  function HostText(h: Host): string {
    HOST_PREFIX + (h.subject + "-" + (h.classNum + "-" + StudentText(h)))
  }

  lemma DigitsNoDash(s: string)
    requires Digits(s) || AlphaNumeric(s)
    ensures s != [] && '-' !in s
  {
  }

  lemma StudentIff(h: Host, rest: string)
    requires AlphaNumeric(h.subject) && Digits(h.classNum)
    ensures ParseStudent(h.subject, h.classNum, rest) == Some(h) <==> HostMatched(h) && rest == StudentText(h)
  {
    hide AlphaNumeric, SuffixText, Digits, CutAtDash;
    if Digits(h.studentId) { DigitsNoDash(h.studentId); }
    if h.suffix.Some? {
      CutMeaning(rest, h.studentId, h.suffix.value);
      assert StudentText(h) == h.studentId + "-" + h.suffix.value;
    } else {
      CutMeaning(rest, "", "");
      assert StudentText(h) == h.studentId;
    }
  }

  /** The parser reads exactly the host names of the pattern: a host is read from a name if and only if its parts
      have the pattern's form and the name is their text, but for a final newline. */
  lemma HostnameIff(hostname: string, h: Host)
    ensures ParseHostname(hostname) == Some(h) <==>
      && h.subject != "" && (forall c | c in h.subject :: '0' <= c <= '9' || 'a' <= c <= 'z' || 'A' <= c <= 'Z')
      && h.classNum != "" && (forall c | c in h.classNum :: '0' <= c <= '9')
      && h.studentId != "" && (forall c | c in h.studentId :: '0' <= c <= '9')
      && (h.suffix.Some? ==>
            h.suffix.value != "" && forall c | c in h.suffix.value :: '0' <= c <= '9' || 'a' <= c <= 'z' || c == '-')
      && var last := if h.suffix.Some? then "-" + h.suffix.value else "";
         var text := "jcode-" + h.subject + "-" + h.classNum + "-" + h.studentId + last;
         hostname == text || hostname == text + "\n"
  {
    hide ParseHostname, WithoutNewline;
    HostIffMatched(hostname, h);
    var last := if h.suffix.Some? then "-" + h.suffix.value else "";
    assert HostText(h) == "jcode-" + h.subject + "-" + h.classNum + "-" + h.studentId + last;
    if HostMatched(h) { NewlineLast(hostname, h); }
  }

  lemma NewlineLast(hostname: string, h: Host)
    requires HostMatched(h)
    ensures WithoutNewline(hostname) == HostText(h) <==> hostname == HostText(h) || hostname == HostText(h) + "\n"
  {
    var text := HostText(h);
    if h.suffix.Some? {
      assert text[|text| - 1] == h.suffix.value[|h.suffix.value| - 1];
      assert text[|text| - 1] in h.suffix.value;
    } else {
      assert text[|text| - 1] == h.studentId[|h.studentId| - 1];
      assert text[|text| - 1] in h.studentId;
    }
    assert text[|text| - 1] != '\n';
    assert hostname != [] ==> hostname == hostname[..|hostname| - 1] + [hostname[|hostname| - 1]];
  }

  lemma HostIffMatched(hostname: string, h: Host)
    ensures ParseHostname(hostname) == Some(h) <==> HostMatched(h) && WithoutNewline(hostname) == HostText(h)
  {
    hide AlphaNumeric, SuffixText, Digits, CutAtDash, WithoutNewline, ParseStudent;
    var text := WithoutNewline(hostname);
    if HOST_PREFIX <= text {
      var body := text[|HOST_PREFIX|..];
      var rest := h.classNum + "-" + StudentText(h);
      assert text == HOST_PREFIX + body;
      SamePrefix(HOST_PREFIX, body, h.subject + "-" + rest);
      assert text == HostText(h) <==> body == h.subject + "-" + rest;
      if AlphaNumeric(h.subject) { DigitsNoDash(h.subject); }
      if Digits(h.classNum) { DigitsNoDash(h.classNum); }
      CutMeaning(body, h.subject, rest);
      CutMeaning(rest, h.classNum, StudentText(h));
      if ParseHostname(hostname) == Some(h) {
        var after := CutAtDash(body).value.1;
        var last := CutAtDash(after).value.1;
        SubjectKept(CutAtDash(body).value.0, CutAtDash(after).value.0, last, h);
        StudentIff(h, last);
        CutMeaning(body, h.subject, after);
        CutMeaning(after, h.classNum, last);
      } else if HostMatched(h) && text == HostText(h) {
        StudentIff(h, StudentText(h));
      }
    }
  }

  lemma SubjectKept(subject: string, classNum: string, rest: string, h: Host)
    requires ParseStudent(subject, classNum, rest) == Some(h)
    ensures h.subject == subject && h.classNum == classNum
  {
  }

  lemma SamePrefix(p: string, a: string, b: string)
    ensures p + a == p + b <==> a == b
  {
    if p + a == p + b { assert a == (p + a)[|p|..] && b == (p + b)[|p|..]; }
  }

  // ---- PathParser.parse ---------------------------------------------------------------------------

  // A workspace is named by subject, class and student.
  predicate IsWorkspaceName(s: string) {
    match CutAtDash(s)
    case None => false
    case Some((subject, rest)) =>
      match CutAtDash(rest)
      case None => false
      case Some((classNum, studentId)) => AlphaNumeric(subject) && Digits(classNum) && Digits(studentId)
  }

  /** A workspace name is a subject, a class number and a student number, with dashes between. */
  lemma WorkspaceNameIff(s: string)
    ensures IsWorkspaceName(s) <==>
      exists subject, classNum, studentId :: s == subject + ("-" + (classNum + ("-" + studentId)))
        && AlphaNumeric(subject) && Digits(classNum) && Digits(studentId)
  {
    hide AlphaNumeric, Digits, CutAtDash;
    if IsWorkspaceName(s) {
      var (subject, rest) := CutAtDash(s).value;
      var (classNum, studentId) := CutAtDash(rest).value;
      CutMeaning(s, subject, rest);
      CutMeaning(rest, classNum, studentId);
      assert s == subject + ("-" + (classNum + ("-" + studentId)));
    }
    forall subject, classNum, studentId
        | s == subject + ("-" + (classNum + ("-" + studentId)))
          && AlphaNumeric(subject) && Digits(classNum) && Digits(studentId)
      ensures IsWorkspaceName(s)
    {
      var rest := classNum + ("-" + studentId);
      DigitsNoDash(subject);
      DigitsNoDash(classNum);
      assert s == subject + "-" + rest && rest == classNum + "-" + studentId;
      CutMeaning(s, subject, rest);
      CutMeaning(rest, classNum, studentId);
    }
  }

  /** An assignment directory is named by the numeral of a positive id. */
  lemma AssignmentDirectoryIff(name: string)
    ensures IsAssignmentDirectory(name) <==> exists id: nat :: id > 0 && name == "assignment-" + Numeral(id)
  {
    hide Numeral;
    if IsAssignmentDirectory(name) {
      DirectoryIdentity(name);
    }
    forall id: nat | id > 0 && name == "assignment-" + Numeral(id) ensures IsAssignmentDirectory(name) {
      PositiveHasNumeral(id);
      assert name[|ASSIGNMENT_PREFIX|..] == Numeral(id);
    }
  }

  lemma {:induction false} PositiveHasNumeral(id: nat)
    requires id > 0
    ensures PositiveNumeral(Numeral(id))
  {
    if id >= 10 { PositiveHasNumeral(id / 10); }
  }

  // The pattern on the components of a normalized path with one leading slash.
  function AssignmentOf(c: seq<string>): Parsed {
    if |c| >= 3 && c[0] == "workspace" && IsWorkspaceName(c[1]) && IsAssignmentDirectory(c[2]) then Directory(c[2])
    else if |c| >= 4 && c[..3] == ["home", "coder", "project"] && IsAssignmentDirectory(c[3]) then Directory(c[3])
    else if |c| >= 5 && c[..4] == ["home", "coder", "project", "assignments"] && IsAssignmentDirectory(c[4])
      then Directory(c[4])
    else NoAssignment
  }

  function ParsePath(path: string): Parsed {
    if '\n' in path || '\t' in path || '\r' in path || !("/" <= path) then Refused
    else if Root(path) == "//" then NoAssignment
    else AssignmentOf(Collapsed(Components(path)))
  }

  /** Which directories are read: that of an assignment right inside a workspace, the home project, or the project's
      assignments. */
  lemma AttributedIff(c: seq<string>, name: string)
    ensures AssignmentOf(c) == Directory(name) <==>
      && (exists id: nat :: id > 0 && name == "assignment-" + Numeral(id))
      && (|| (|c| > 2 && c[0] == "workspace" && c[2] == name && IsWorkspaceName(c[1]))
          || ["home", "coder", "project", name] <= c
          || ["home", "coder", "project", "assignments", name] <= c)
  {
    hide IsAssignmentDirectory, IsWorkspaceName, Numeral;
    AssignmentDirectoryIff(name);
    NotNumbered();
    assert "home"[0] != "workspace"[0];
    if |c| >= 4 && c[..3] == ["home", "coder", "project"] {
      assert c[0] == "home" && c[1] == "coder" && c[2] == "project";
      assert ["home", "coder", "project", c[3]] == c[..4];
      if |c| >= 5 { assert ["home", "coder", "project", c[3], c[4]] == c[..5]; }
    }
  }

  lemma NotNumbered()
    ensures !IsAssignmentDirectory("assignments")
  {
    assert "assignments"[10] != '-' && ASSIGNMENT_PREFIX[10] == '-';
  }

  /** What is read from a path is an assignment directory. */
  lemma ParsedIsDirectory(path: string)
    ensures ParsePath(path).Directory? ==> path != [] && IsAssignmentDirectory(ParsePath(path).name)
  {
    hide IsAssignmentDirectory, IsWorkspaceName, Components, Collapsed;
  }

  lemma DirectoryIdentity(name: string)
    requires IsAssignmentDirectory(name)
    ensures AssignmentIdFromHwName(name).Some? && AssignmentIdFromHwName(name).value > 0
    ensures name == ASSIGNMENT_PREFIX + Numeral(AssignmentIdFromHwName(name).value)
  {
    var digits := name[|ASSIGNMENT_PREFIX|..];
    NumeralOfNumber(digits);
    assert name == ASSIGNMENT_PREFIX + digits;
  }

  predicate Printable(parts: seq<string>) {
    forall p | p in parts :: Clean(p) && p != ".." && '\n' !in p && '\t' !in p && '\r' !in p
  }

  lemma {:induction false} JoinedPrintable(parts: seq<string>)
    requires forall p | p in parts :: '\n' !in p && '\t' !in p && '\r' !in p
    ensures '\n' !in Joined(parts) && '\t' !in Joined(parts) && '\r' !in Joined(parts)
  {
    if |parts| > 1 {
      assert forall p | p in parts[1..] :: p in parts;
      JoinedPrintable(parts[1..]);
    }
    if parts != [] { assert parts[0] in parts; }
  }

  lemma ParsedComponents(parts: seq<string>)
    requires forall p | p in parts :: Clean(p) && '\n' !in p && '\t' !in p && '\r' !in p
    ensures ParsePath("/" + Joined(parts)) == AssignmentOf(Collapsed(parts))
    ensures ParsePath("//" + Joined(parts)) == NoAssignment
  {
    hide AssignmentOf, Collapsed, Components;
    JoinedPrintable(parts);
    JoinedStart(parts);
    SameRoot("/", Joined(parts));
    SameRoot("//", Joined(parts));
    ComponentsOfJoined(parts);
    RootedComponents("/", Joined(parts));
  }

  /** A component followed by two dots does not count, nor do two dots right below the root, and a path with two leading
      slashes names no assignment. */
  lemma DotsAndSlashes(a: seq<string>, part: string, b: seq<string>)
    requires forall p | p in a + [part] + b :: Clean(p) && '\n' !in p && '\t' !in p && '\r' !in p
    requires part != ".."
    ensures ParsePath("/" + Joined(a + [part, ".."] + b)) == ParsePath("/" + Joined(a + b))
    ensures ParsePath("/" + Joined([".."] + b)) == ParsePath("/" + Joined(b))
    ensures ParsePath("//" + Joined(b)) == NoAssignment
  {
    hide ParsePath, AssignmentOf, Collapsed, Joined, Clean;
    assert forall p :: p in a + [part] + b <==> p in a || p == part || p in b;
    assert Clean("..") by { DotsAreClean(); }
    ParsedComponents(a + [part, ".."] + b);
    ParsedComponents(a + b);
    ParsedComponents([".."] + b);
    ParsedComponents(b);
    CollapseBack(a, part, b);
    CollapseAtRoot(b);
  }

  lemma DotsAreClean()
    ensures Clean("..")
  {
  }

  /** A path is refused exactly when it holds a line feed, a tab or a carriage return, or is not absolute. */
  lemma RefusedIff(path: string)
    ensures ParsePath(path) == Refused <==>
      (exists k | 0 <= k < |path| :: path[k] in "\n\t\r") || path == "" || path[0] != '/'
  {
    hide Components, Collapsed, AssignmentOf, Root;
    assert AssignmentOf(Collapsed(Components(path))) != Refused by { NotRefused(Collapsed(Components(path))); }
  }

  lemma NotRefused(c: seq<string>)
    ensures AssignmentOf(c) != Refused
  {
  }

  /** A path of plain components is read by its components: whatever lies inside an assignment directory of a
      workspace, however deep, is attributed to that assignment. */
  lemma PlainPath(parts: seq<string>)
    requires Printable(parts)
    ensures ParsePath("/" + Joined(parts)) == AssignmentOf(parts)
  {
    hide ParsePath, AssignmentOf, Collapsed;
    ParsedComponents(parts);
    NothingToCollapse(parts);
  }
}
