// From an observed process to the event procmon sends: labelling, filtering, identity and
// serialisation.
module ProcessPipeline {
  import opened Events
  import opened Decimal
  import opened AssignmentKey
  import opened Paths
  import opened ProcessParsers
  import opened Spool
  import opened Sender

  datatype ProcessType = Unknown | Gcc | Clang | Gpp | Python | UserBinary {
    predicate IsExecution() { UserBinary? || Python? }
    predicate IsCompilation() { Gcc? || Clang? || Gpp? }
    predicate RequiresTargetFile() { IsCompilation() || Python? }
  }

  datatype Process = Process(hostname: string, binaryPath: string, cwd: string, args: seq<string>, exitCode: int)

  datatype Student = Student(studentId: string, classDiv: string, assignmentId: Option<nat>)

  datatype ProcessEvent = ProcessEvent(
    processType: ProcessType, homeworkDir: string, studentId: string, classDiv: string, assignmentId: nat,
    sourceFile: Option<string>, exitCode: int, args: seq<string>, cwd: string, binaryPath: string)

  predicate Ends(s: string, suffix: string) {
    |suffix| <= |s| && s[|s| - |suffix|..] == suffix
  }

  lemma EndsIff(s: string, suffix: string)
    ensures Ends(s, suffix) <==> exists p :: s == p + suffix
  {
    if Ends(s, suffix) { assert s == s[..|s| - |suffix|] + suffix; }
    forall p | s == p + suffix ensures Ends(s, suffix) {
      assert s[|s| - |suffix|..] == suffix;
    }
  }

  predicate Versioned(path: string, prefix: string, suffix: string) {
    && prefix <= path && |prefix| + |suffix| <= |path| && Ends(path, suffix)
    && Digits(path[|prefix|..|path| - |suffix|])
  }

  function Classify(path: string): ProcessType {
    if Versioned(path, "/usr/bin/x86_64-linux-gnu-gcc-", "") then Gcc
    else if Versioned(path, "/usr/lib/llvm-", "/bin/clang") then Clang
    else if Versioned(path, "/usr/bin/x86_64-linux-gnu-g++-", "") then Gpp
    else if Versioned(path, "/usr/bin/python3.", "") then Python
    else Unknown
  }

  lemma VersionedIff(path: string, prefix: string, suffix: string)
    ensures Versioned(path, prefix, suffix) <==> exists d :: Digits(d) && path == prefix + d + suffix
  {
    hide Digits;
    if Versioned(path, prefix, suffix) {
      var d := path[|prefix|..|path| - |suffix|];
      assert path == prefix + d + suffix;
    }
    forall d | Digits(d) && path == prefix + d + suffix ensures Versioned(path, prefix, suffix) {
      assert path[|prefix|..|path| - |suffix|] == d;
      assert path[|path| - |suffix|..] == suffix && path[..|prefix|] == prefix;
    }
  }

  /** Which binaries count as compilers and interpreters: those of the system with a version number. */
  lemma ClassifyIff(path: string)
    ensures Classify(path) == Gcc <==> exists d :: Digits(d) && path == "/usr/bin/x86_64-linux-gnu-gcc-" + d + ""
    ensures Classify(path) == Clang <==> exists d :: Digits(d) && path == "/usr/lib/llvm-" + d + "/bin/clang"
    ensures Classify(path) == Gpp <==> exists d :: Digits(d) && path == "/usr/bin/x86_64-linux-gnu-g++-" + d + ""
    ensures Classify(path) == Python <==> exists d :: Digits(d) && path == "/usr/bin/python3." + d + ""
    ensures Classify(path) != UserBinary
  {
    hide Digits, Versioned;
    VersionedIff(path, "/usr/bin/x86_64-linux-gnu-gcc-", "");
    VersionedIff(path, "/usr/lib/llvm-", "/bin/clang");
    VersionedIff(path, "/usr/bin/x86_64-linux-gnu-g++-", "");
    VersionedIff(path, "/usr/bin/python3.", "");
    PatternsApart(path);
  }

  lemma PatternsApart(path: string)
    ensures Versioned(path, "/usr/bin/x86_64-linux-gnu-gcc-", "") ==>
      path[5] == 'b' && path[9] == 'x' && path[27] == 'c'
    ensures Versioned(path, "/usr/lib/llvm-", "/bin/clang") ==> path[5] == 'l'
    ensures Versioned(path, "/usr/bin/x86_64-linux-gnu-g++-", "") ==>
      path[5] == 'b' && path[9] == 'x' && path[27] == '+'
    ensures Versioned(path, "/usr/bin/python3.", "") ==> path[5] == 'b' && path[9] == 'p'
  {
    hide Digits, Ends;
    var gcc, gpp := "/usr/bin/x86_64-linux-gnu-gcc-", "/usr/bin/x86_64-linux-gnu-g++-";
    assert gcc[5] == 'b' && gcc[9] == 'x' && gcc[27] == 'c';
    assert gpp[5] == 'b' && gpp[9] == 'x' && gpp[27] == '+';
  }

  // ---- FileParser -----------------------------------------------------------------------------

  function FirstPython(args: seq<string>): Option<string> {
    if args == [] then None
    else if Ends(args[0], ".py") && !("-" <= args[0]) then Some(args[0]) else FirstPython(args[1..])
  }

  predicate SkipsNext(arg: string) { arg in {"-o", "-I", "-include", "-D", "-U", "-MF"} }

  predicate IsCSource(arg: string) {
    !("-" <= arg) && (Ends(arg, ".c") || Ends(arg, ".cpp") || Ends(arg, ".cc") || Ends(arg, ".cxx")
                      || Ends(arg, ".c++") || Ends(arg, ".C"))
  }

  function FirstC(args: seq<string>): Option<string> {
    if args == [] then None
    else if SkipsNext(args[0]) then (if |args| == 1 then None else FirstC(args[2..]))
    else if IsCSource(args[0]) then Some(args[0]) else FirstC(args[1..])
  }

  /** The script is the first argument that ends in .py and is no option. */
  method FindPythonFile(args: seq<string>) returns (file: Option<string>)
    ensures file == FirstPython(args)
    ensures file.None? ==> forall i | 0 <= i < |args| :: !Ends(args[i], ".py") || "-" <= args[i]
    ensures file.Some? ==> exists k | 0 <= k < |args| ::
      && file.value == args[k] && Ends(args[k], ".py") && !("-" <= args[k])
      && forall i | 0 <= i < k :: !Ends(args[i], ".py") || "-" <= args[i]
  {
    for i := 0 to |args|
      invariant FirstPython(args) == FirstPython(args[i..])
      invariant forall j | 0 <= j < i :: !Ends(args[j], ".py") || "-" <= args[j]
    {
      assert args[i..][0] == args[i] && args[i..][1..] == args[i + 1..];
      if Ends(args[i], ".py") && !("-" <= args[i]) {
        return Some(args[i]);
      }
    }
    assert args[|args|..] == [];
    file := None;
  }

  // The argument is looked at: it is not the value of an option looked at right before it.
  predicate LookedAt(args: seq<string>, k: nat)
    requires k < |args|
  {
    k == 0 || !(LookedAt(args, k - 1) && SkipsNext(args[k - 1]))
  }

  // The argument is taken for the source file.
  predicate IsSourceAt(args: seq<string>, k: nat)
    requires k < |args|
  {
    LookedAt(args, k) && !SkipsNext(args[k]) && IsCSource(args[k])
  }

  /** Which options take the next argument, and which arguments are C or C++ sources: those with one of six endings that
      do not begin with a dash. */
  lemma ArgumentMeaning(arg: string)
    ensures SkipsNext(arg) <==> arg in ["-o", "-I", "-include", "-D", "-U", "-MF"]
    ensures IsCSource(arg) <==>
      && (arg == "" || arg[0] != '-')
      && (|| (exists p :: arg == p + ".c") || (exists p :: arg == p + ".cpp") || (exists p :: arg == p + ".cc")
          || (exists p :: arg == p + ".cxx") || (exists p :: arg == p + ".c++") || (exists p :: arg == p + ".C"))
  {
    hide Ends;
    EndsIff(arg, ".c");
    EndsIff(arg, ".cpp");
    EndsIff(arg, ".cc");
    EndsIff(arg, ".cxx");
    EndsIff(arg, ".c++");
    EndsIff(arg, ".C");
  }

  /** The source file of a compilation is the first argument with a C or C++ ending that is no option, leaving out the
      values of options that take one. */
  method FindCFile(args: seq<string>) returns (file: Option<string>)
    ensures file == FirstC(args)
    ensures file.None? ==> forall i | 0 <= i < |args| :: !IsSourceAt(args, i)
    ensures file.Some? ==> exists k | 0 <= k < |args| ::
      file.value == args[k] && IsSourceAt(args, k) && forall i | 0 <= i < k :: !IsSourceAt(args, i)
  {
    hide IsCSource, SkipsNext;
    var skipNext := false;
    for i := 0 to |args|
      invariant skipNext <==> i > 0 && LookedAt(args, i - 1) && SkipsNext(args[i - 1])
      invariant forall j | 0 <= j < i :: !IsSourceAt(args, j)
      invariant FirstC(args) == if skipNext && i < |args| then FirstC(args[i + 1..])
                                else if skipNext then None else FirstC(args[i..])
    {
      assert args[i..][0] == args[i] && args[i..][1..] == args[i + 1..];
      assert i + 2 <= |args| ==> args[i..][2..] == args[i + 2..];
      if skipNext {
        skipNext := false;
      } else if SkipsNext(args[i]) {
        skipNext := true;
      } else if IsCSource(args[i]) {
        return Some(args[i]);
      }
    }
    assert args[|args|..] == [];
    file := None;
  }

  function ParseFile(t: ProcessType, args: seq<string>): Option<string> {
    if t.Python? then (if "-m" in args then None else FirstPython(args))
    else if t.IsCompilation() then FirstC(args) else None
  }

  // ---- labelling and filtering ------------------------------------------------------------------

  // os.path.join(cwd, file), which is also the absolute form of an absolute file.
  function JoinPath(cwd: string, file: string): string {
    if "/" <= file then file else if cwd == [] || Ends(cwd, "/") then cwd + file else cwd + "/" + file
  }

  /** An absolute file stands for itself; the components of any other follow those of the working directory. */
  lemma JoinMeaning(cwd: string, file: string)
    ensures "/" <= file ==> JoinPath(cwd, file) == file
    ensures !("/" <= file) ==> Components(JoinPath(cwd, file)) == Components(cwd) + Components(file)
    ensures "/" <= cwd || "/" <= file ==> "/" <= JoinPath(cwd, file)
  {
    assert Components("") == [];
    if cwd != [] && !Ends(cwd, "/") {
      ComponentsAppend(cwd, file, "");
    } else if cwd != [] {
      var init := cwd[..|cwd| - 1];
      assert cwd == init + "/" + "" && cwd + file == init + "/" + file;
      ComponentsAppend(init, "", "");
      ComponentsAppend(init, file, "");
    } else {
      assert cwd + file == file;
    }
  }

  datatype Label =
    | Raises
    | Labelled(processType: Option<ProcessType>, homeworkDir: Option<string>, sourceFile: Option<string>)

  function LabelProcess(p: Process): Label {
    var systemType := Classify(p.binaryPath);
    var binaryHw := ParsePath(p.binaryPath);
    if binaryHw.Refused? then Raises
    else if binaryHw.Directory? && systemType.Unknown? then Labelled(Some(UserBinary), Some(binaryHw.name), None)
    else if systemType.RequiresTargetFile() then
      match ParseFile(systemType, p.args)
      case None => Labelled(Some(systemType), None, None)
      case Some(file) =>
        (match ParsePath(JoinPath(p.cwd, file))
         case Refused => Raises
         case NoAssignment => Labelled(Some(systemType), None, Some(file))
         case Directory(name) => Labelled(Some(systemType), Some(name), Some(file)))
    else Labelled(None, None, None)
  }

  // re.fullmatch(r"a?([1-9][0-9]*)", suffix or "")
  function SuffixId(suffix: Option<string>): Option<nat> {
    var s := if suffix.None? then [] else suffix.value;
    var digits := if s != [] && s[0] == 'a' then s[1..] else s;
    if PositiveNumeral(digits) then Some(Number(digits)) else None
  }

  /** The assignment of a host is the positive number its last part is, alone or after the letter a. */
  lemma SuffixIff(suffix: Option<string>, id: nat)
    ensures SuffixId(suffix) == Some(id) <==>
      id > 0 && suffix.Some? && (suffix.value == Numeral(id) || suffix.value == "a" + Numeral(id))
  {
    hide Numeral, Number;
    if SuffixId(suffix) == Some(id) {
      var s := suffix.value;
      var digits := if s[0] == 'a' then s[1..] else s;
      NumeralOfNumber(digits);
      assert s[0] == 'a' ==> s == "a" + digits;
    }
    if id > 0 && suffix.Some? && (suffix.value == Numeral(id) || suffix.value == "a" + Numeral(id)) {
      PositiveHasNumeral(id);
      NumberOfNumeral(id);
      assert Numeral(id)[0] in Numeral(id);
      assert ("a" + Numeral(id))[1..] == Numeral(id);
    }
  }

  function StudentOf(h: Host): Student {
    Student(h.studentId, h.subject + "-" + h.classNum, SuffixId(h.suffix))
  }

  /** The pipeline for one process; None when it is filtered out or an exception is caught. */
  method RunPipeline(p: Process) returns (event: Option<ProcessEvent>)
    ensures event == PipelineResult(p)
  {
    var host := ParseHostname(p.hostname);
    if host.None? {
      return None;
    }
    var student := StudentOf(host.value);
    var labelled := LabelProcess(p);
    if labelled.Raises? {
      return None;
    }
    if labelled.processType.None? {
      return None;
    }
    var processType, homeworkDir := labelled.processType.value, labelled.homeworkDir;
    if processType.RequiresTargetFile() && labelled.sourceFile.None? {
      return None;
    }
    if processType.RequiresTargetFile() && homeworkDir.None? && student.assignmentId.None? {
      return None;
    }
    if processType.UserBinary? && homeworkDir.None? && student.assignmentId.None? {
      return None;
    }
    var absolute := if labelled.sourceFile.None? then None else Some(JoinPath(p.cwd, labelled.sourceFile.value));
    var assignmentId: nat;
    if student.assignmentId.Some? {
      assignmentId := student.assignmentId.value;
      homeworkDir := Some(ASSIGNMENT_PREFIX + Numeral(assignmentId));
    } else {
      if homeworkDir.None? || AssignmentIdFromHwName(homeworkDir.value).None? {
        return None;
      }
      assignmentId := AssignmentIdFromHwName(homeworkDir.value).value;
    }
    event := Some(ProcessEvent(processType, homeworkDir.value, student.studentId, student.classDiv, assignmentId,
                               absolute, p.exitCode, p.args, p.cwd, p.binaryPath));
  }

  // Which processes become events, and with which identity: the assignment of the host name wins over
  // the one of the path.
  function PipelineResult(p: Process): Option<ProcessEvent> {
    var host, labelled := ParseHostname(p.hostname), LabelProcess(p);
    if host.None? || labelled.Raises? || labelled.processType.None? then None else
      var student, t := StudentOf(host.value), labelled.processType.value;
      var fromPath := if labelled.homeworkDir.None? then None else AssignmentIdFromHwName(labelled.homeworkDir.value);
      if t.RequiresTargetFile() && labelled.sourceFile.None? then None
      else if student.assignmentId.None? && fromPath.None? then None
      else
        var id := if student.assignmentId.Some? then student.assignmentId.value else fromPath.value;
        var dir := if student.assignmentId.Some? then ASSIGNMENT_PREFIX + Numeral(id) else labelled.homeworkDir.value;
        Some(ProcessEvent(t, dir, student.studentId, student.classDiv, id,
                          if labelled.sourceFile.None? then None else Some(JoinPath(p.cwd, labelled.sourceFile.value)),
                          p.exitCode, p.args, p.cwd, p.binaryPath))
  }

  // The file a compiler or interpreter works on, from the root.
  function TargetOf(p: Process): Option<string> {
    var file := ParseFile(Classify(p.binaryPath), p.args);
    if file.None? then None else Some(JoinPath(p.cwd, file.value))
  }

  /** Which processes become events: those on a student's host that either run a program of their own inside an
      assignment directory, or a compiler or interpreter of the system on a file, where the file lies inside an
      assignment directory or the host name carries an assignment. A path that cannot be read makes none. */
  lemma EventIff(p: Process)
    ensures var host, t, binary, target :=
        ParseHostname(p.hostname), Classify(p.binaryPath), ParsePath(p.binaryPath), TargetOf(p);
      PipelineResult(p).Some? <==>
        && host.Some? && !binary.Refused?
        && (|| (t == Unknown && binary.Directory?)
            || (t != Unknown && target.Some? && !ParsePath(target.value).Refused?
                && (ParsePath(target.value).Directory? || SuffixId(host.value.suffix).Some?)))
  {
    hide Classify, FirstPython, FirstC, Numeral, IsAssignmentDirectory, AssignmentIdFromHwName, SuffixId, Digits;
    hide ParseHostname, ParsePath, JoinPath;
    ClassifyIff(p.binaryPath);
    ParsedIsDirectory(p.binaryPath);
    if ParsePath(p.binaryPath).Directory? { DirectoryIdentity(ParsePath(p.binaryPath).name); }
    if TargetOf(p).Some? {
      ParsedIsDirectory(TargetOf(p).value);
      if ParsePath(TargetOf(p).value).Directory? { DirectoryIdentity(ParsePath(TargetOf(p).value).name); }
    }
  }

  /** What the event says: the student and class of the host name; the assignment the host name carries, or else that of
      the directory of the program or of the file worked on; and the rest as it was observed. */
  lemma EventMeaning(p: Process)
    requires PipelineResult(p).Some?
    ensures var e, host, t := PipelineResult(p).value, ParseHostname(p.hostname), Classify(p.binaryPath);
      && host.Some? && e.studentId == host.value.studentId
      && e.classDiv == host.value.subject + "-" + host.value.classNum
      && e.processType == (if t == Unknown then UserBinary else t)
      && e.sourceFile == (if t == Unknown then None else TargetOf(p))
      && (t == Python ==>
            && "-m" !in p.args && FirstPython(p.args).Some?
            && e.sourceFile == Some(JoinPath(p.cwd, FirstPython(p.args).value)))
      && (t in {Gcc, Clang, Gpp} ==>
            FirstC(p.args).Some? && e.sourceFile == Some(JoinPath(p.cwd, FirstC(p.args).value)))
      && e.exitCode == p.exitCode && e.args == p.args && e.cwd == p.cwd && e.binaryPath == p.binaryPath
      && (SuffixId(host.value.suffix).Some? ==> e.assignmentId == SuffixId(host.value.suffix).value)
      && (SuffixId(host.value.suffix).None? ==>
            && (t != Unknown ==> TargetOf(p).Some?)
            && ParsePath(if t == Unknown then p.binaryPath else TargetOf(p).value)
                 == Directory("assignment-" + Numeral(e.assignmentId)))
  {
    hide Classify, FirstPython, FirstC, Numeral, IsAssignmentDirectory, AssignmentIdFromHwName, SuffixId, Digits;
    hide ParseHostname, ParsePath, JoinPath;
    ClassifyIff(p.binaryPath);
    ParsedIsDirectory(p.binaryPath);
    if ParsePath(p.binaryPath).Directory? { DirectoryIdentity(ParsePath(p.binaryPath).name); }
    if TargetOf(p).Some? {
      ParsedIsDirectory(TargetOf(p).value);
      if ParsePath(TargetOf(p).value).Directory? { DirectoryIdentity(ParsePath(TargetOf(p).value).name); }
    }
  }

  /** So a process on the host of assignment `id` is attributed to it wherever its files lie. */
  lemma HostNameWins(p: Process, subject: string, classNum: string, studentId: string, id: nat)
    requires AlphaNumeric(subject) && Digits(classNum) && Digits(studentId) && id > 0
    requires p.hostname == "jcode-" + subject + "-" + classNum + "-" + studentId + "-a" + Numeral(id)
    requires PipelineResult(p).Some?
    ensures var e := PipelineResult(p).value;
      && e.studentId == studentId && e.classDiv == subject + "-" + classNum
      && e.assignmentId == id && e.homeworkDir == "assignment-" + Numeral(id)
  {
    hide PipelineResult, AlphaNumeric, Digits, Numeral, ParseHostname;
    var h := Host(subject, classNum, studentId, Some("a" + Numeral(id)));
    SuffixIff(h.suffix, id);
    HostnameOfParts(p.hostname, h, id);
    EventMeaning(p);
    IdentityAgreement(p, 0);
  }

  lemma HostnameOfParts(hostname: string, h: Host, id: nat)
    requires AlphaNumeric(h.subject) && Digits(h.classNum) && Digits(h.studentId) && h.suffix == Some("a" + Numeral(id))
    requires hostname == "jcode-" + h.subject + "-" + h.classNum + "-" + h.studentId + "-a" + Numeral(id)
    ensures ParseHostname(hostname) == Some(h)
  {
    hide ParseHostname, Numeral;
    assert "-" + h.suffix.value == "-a" + Numeral(id);
    HostnameIff(hostname, h);
  }

  // ---- the sender ----------------------------------------------------------------------------------

  function Joined(args: seq<string>): string {
    if args == [] then [] else if |args| == 1 then args[0] else args[0] + " " + Joined(args[1..])
  }

  /** The command line is the arguments with single blanks between. */
  lemma {:induction false} JoinedMeaning(a: seq<string>, b: seq<string>)
    requires a != [] && b != []
    ensures Joined(a + b) == Joined(a) + " " + Joined(b)
    ensures Joined([]) == "" && Joined([a[0]]) == a[0]
  {
    if |a| == 1 {
      assert (a + b)[1..] == b;
    } else {
      assert (a + b)[1..] == a[1..] + b;
      JoinedMeaning(a[1..], b);
    }
  }

  predicate ValidateEvent(e: ProcessEvent) {
    e.classDiv != [] && e.studentId != [] && e.homeworkDir != []
  }

  function SerializeEvent(e: ProcessEvent, occurredAt: int): Option<(Kind, Payload)> {
    var target := if e.sourceFile.Some? && e.sourceFile.value != [] then e.sourceFile.value else e.binaryPath;
    if e.processType.IsExecution() then
      Some((Run, Payload(e.assignmentId, e.studentId, e.classDiv, e.homeworkDir, occurredAt,
                         RunDetail(e.exitCode, Joined(e.args), e.cwd, target,
                                   if e.processType.Python? then "python" else "binary"))))
    else if e.processType.IsCompilation() then
      Some((Build, Payload(e.assignmentId, e.studentId, e.classDiv, e.homeworkDir, occurredAt,
                           BuildDetail(e.exitCode, Joined(e.args), e.cwd, e.binaryPath,
                                       if e.sourceFile.Some? then e.sourceFile.value else []))))
    else None
  }

  /** What is sent of an event: the identity and time it carries, and as a run its exit code, command line, working
      directory and target, which is the source file if there is one and else the binary; or as a build
      also the binary, with the source file as target. */
  lemma SerializedMeaning(e: ProcessEvent, occurredAt: int)
    ensures SerializeEvent(e, occurredAt).None? <==> e.processType == Unknown
    ensures SerializeEvent(e, occurredAt).Some? ==>
      var (kind, p) := SerializeEvent(e, occurredAt).value;
      && p.assignmentId == e.assignmentId && p.studentKey == e.studentId && p.classDiv == e.classDiv
      && p.hwName == e.homeworkDir && p.occurredAt == occurredAt
      && p.detail.exitCode == e.exitCode && p.detail.cmdline == Joined(e.args) && p.detail.cwd == e.cwd
      && (kind == Run <==> e.processType in {UserBinary, Python})
      && (kind == Build <==> e.processType in {Gcc, Clang, Gpp})
      && (kind == Run ==>
            && p.detail.RunDetail? && p.detail.processType == (if e.processType == Python then "python" else "binary")
            && p.detail.targetPath == if e.sourceFile in {None, Some("")} then e.binaryPath else e.sourceFile.value)
      && (kind == Build ==>
            && p.detail.BuildDetail? && p.detail.binaryPath == e.binaryPath
            && p.detail.targetPath == if e.sourceFile == None then "" else e.sourceFile.value)
  {
    hide Joined;
  }

  /** send_event: False and an untouched spool when the event is invalid or of no known kind; otherwise the
      event is spooled and a flush follows, and the answer says whether it still waits. */
  method SendEvent(sender: SnapshotSender, id: EventId, e: ProcessEvent, occurredAt: int, enqueuedAt: int,
                   now: int, clock: nat -> int, courses: Courses, reply: Reply)
    returns (stored: bool, posted: seq<Item>)
    modifies sender.spool
    ensures e.classDiv == [] || e.studentId == [] || e.homeworkDir == [] || e.processType == Unknown ==>
      !stored && sender.spool.rows == old(sender.spool.rows)
    ensures ValidateEvent(e) && e.processType != Unknown && id in courses ==>
      && SerializeEvent(e, occurredAt).Some?
      && var (kind, payload) := SerializeEvent(e, occurredAt).value;
      Fits(old(sender.spool.rows), id, sender.batchSize, now) ==>
        && Item(kind, Values(id, courses[id], payload)) in posted
        && (stored <==> reply.Answer? && id in reply.acknowledged)
    ensures !ValidateEvent(e) || SerializeEvent(e, occurredAt).None? ==>
      !stored && sender.spool.rows == old(sender.spool.rows)
    ensures ValidateEvent(e) && SerializeEvent(e, occurredAt).Some? ==>
      var (kind, payload) := SerializeEvent(e, occurredAt).value;
      && sender.spool.rows == Flushed(Enqueued(old(sender.spool.rows), id, kind, payload, enqueuedAt),
                                      sender.batchSize, now, Delayed(clock, sender.retrySeconds), courses, reply)
      && (stored <==> id !in sender.spool.rows)
  {
    hide Flushed, Pending, Request, Within, Fits, SerializeEvent;
    SerializedMeaning(e, occurredAt);
    if !ValidateEvent(e) {
      return false, [];
    }
    var serialized := SerializeEvent(e, occurredAt);
    if serialized.None? {
      return false, [];
    }
    var (kind, payload) := serialized.value;
    if id in courses && Fits(sender.spool.rows, id, sender.batchSize, now) {
      FreshIsPosted(sender.spool.rows, id, kind, payload, enqueuedAt, sender.batchSize, now,
                    Delayed(clock, sender.retrySeconds), courses, reply);
    }
    sender.spool.Enqueue(id, kind, payload, enqueuedAt);
    var _, batch := sender.FlushOnce(now, clock, courses, reply);
    var waiting := sender.spool.Contains(id);
    return !waiting, batch;
  }

  // ---- identity agreement ---------------------------------------------------------------------------

  lemma SuffixPositive(suffix: Option<string>)
    ensures SuffixId(suffix).Some? ==> SuffixId(suffix).value > 0
  {
    var s := if suffix.None? then [] else suffix.value;
    var digits := if s != [] && s[0] == 'a' then s[1..] else s;
    if PositiveNumeral(digits) { NumeralOfNumber(digits); }
  }

  lemma {:induction false} FoundFile(args: seq<string>)
    ensures FirstPython(args).Some? ==> FirstPython(args).value != []
    ensures FirstC(args).Some? ==> FirstC(args).value != []
    decreases |args|
  {
    if args != [] {
      FoundFile(args[1..]);
      if |args| > 1 { FoundFile(args[2..]); }
    }
  }

  /** Identity agreement: every event of the pipeline has a positive assignment id, a directory that is
      "assignment-" followed by its numeral, which the backend reads back as that very id, and is sent:
      the sender validates it and serialises it as a run or a build that carries the same identity
      and a target path. */
  lemma IdentityAgreement(p: Process, occurredAt: int)
    requires PipelineResult(p).Some?
    ensures var e := PipelineResult(p).value;
      && e.assignmentId > 0 && e.homeworkDir == ASSIGNMENT_PREFIX + Numeral(e.assignmentId)
      && AssignmentIdFromHwName(e.homeworkDir) == Some(e.assignmentId)
      && ValidateEvent(e) && SerializeEvent(e, occurredAt).Some?
    ensures var e := PipelineResult(p).value; var (kind, payload) := SerializeEvent(e, occurredAt).value;
      && payload.assignmentId == e.assignmentId && payload.hwName == e.homeworkDir
      && (e.processType.IsExecution() ==> kind == Run && payload.detail.RunDetail? && payload.detail.targetPath != [])
      && (e.processType.IsCompilation() ==>
            kind == Build && payload.detail.BuildDetail? && payload.detail.targetPath != [])
  {
    hide Classify, FirstPython, FirstC, Numeral, IsAssignmentDirectory, AssignmentIdFromHwName, SuffixId, Digits;
    hide Joined;
    hide ParseHostname, ParsePath, HostText, HostMatched, WithoutNewline;
    var e := PipelineResult(p).value;
    var host := ParseHostname(p.hostname).value;
    var labelled, student := LabelProcess(p), StudentOf(host);
    HostHasId(p.hostname);
    ParsedIsDirectory(p.binaryPath);
    if labelled.sourceFile.Some? { ParsedIsDirectory(JoinPath(p.cwd, labelled.sourceFile.value)); }
    SuffixPositive(host.suffix);
    FoundFile(p.args);
    if student.assignmentId.Some? {
      WrittenKeyIsRead(e.assignmentId, e.classDiv);
    } else {
      DirectoryIdentity(labelled.homeworkDir.value);
    }
    assert e.processType.UserBinary? ==> p.binaryPath != [];
  }

  lemma HostHasId(hostname: string)
    ensures var host := ParseHostname(hostname); host.Some? ==> host.value.subject != [] && host.value.studentId != []
  {
    hide ParseHostname, HostText;
    var host := ParseHostname(hostname);
    if host.Some? { HostnameIff(hostname, host.value); }
  }
}
