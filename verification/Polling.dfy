// The polling observer: two scans are compared after the changes made by the assignment
// generator itself have been folded into the earlier one.
module Polling {
  import opened Order
  import opened Decimal

  datatype FileSignature = FileSignature(mtimeNs: int, size: int, inode: int)
  datatype MutationMarker = MutationMarker(signature: FileSignature, state: string)

  type Scan = map<string, FileSignature>
  type Markers = map<string, MutationMarker>

  datatype FileEvent = DeletedFile(path: string) | ModifiedFile(path: string)

  predicate Covers(root: string, path: string) {
    root + "/" <= path
  }

  // A file entry as the loop sees it for one marker: folded means the earlier scan is made to agree
  // with the current one, which for an absent file means dropping it.
  predicate Folds(previousMarkers: Markers, root: string, marker: MutationMarker, current: Scan, path: string) {
    && Covers(root, path)
    && (marker.state == "in_progress"
        || (!(root in previousMarkers && previousMarkers[root] == marker)
            && (path !in current || current[path].mtimeNs <= marker.signature.mtimeNs)))
  }

  predicate Suppressed(current: Scan, previousMarkers: Markers, currentMarkers: Markers, path: string) {
    exists root | root in currentMarkers :: Folds(previousMarkers, root, currentMarkers[root], current, path)
  }

  predicate SameEntry(a: Scan, b: Scan, path: string) {
    (path in a <==> path in b) && (path in a ==> a[path] == b[path])
  }

  // The closed form of folding: a path suppressed by some marker has its current entry, any other
  // its previous one; absent stays absent either way.
  function Folded(previous: Scan, current: Scan, previousMarkers: Markers, currentMarkers: Markers): Scan {
    map path | path in previous.Keys + current.Keys
        && (if Suppressed(current, previousMarkers, currentMarkers, path) then path in current else path in previous)
      :: if Suppressed(current, previousMarkers, currentMarkers, path) then current[path] else previous[path]
  }

  /** Folding in plain terms: a path has its current entry when a marker lies on a directory above it that is either
      in progress, or is new or changed and not older than the file's last modification; otherwise its previous one. */
  lemma FoldedMeaning(previous: Scan, current: Scan, previousMarkers: Markers, currentMarkers: Markers, path: string)
    ensures var folded := Folded(previous, current, previousMarkers, currentMarkers);
      var settled := exists root | root in currentMarkers ::
        && root + "/" <= path
        && (currentMarkers[root].state == "in_progress"
            || ((root !in previousMarkers || previousMarkers[root] != currentMarkers[root])
                && (path !in current || current[path].mtimeNs <= currentMarkers[root].signature.mtimeNs)));
      && (path in folded <==> if settled then path in current else path in previous)
      && (path in folded ==> folded[path] == if settled then current[path] else previous[path])
  {
    SuppressedMeaning(current, previousMarkers, currentMarkers, path);
  }

  lemma SuppressedMeaning(current: Scan, previousMarkers: Markers, currentMarkers: Markers, path: string)
    ensures Suppressed(current, previousMarkers, currentMarkers, path) <==>
      exists root | root in currentMarkers ::
        && root + "/" <= path
        && (currentMarkers[root].state == "in_progress"
            || ((root !in previousMarkers || previousMarkers[root] != currentMarkers[root])
                && (path !in current || current[path].mtimeNs <= currentMarkers[root].signature.mtimeNs)))
  {
    forall root | root in currentMarkers
      ensures Folds(previousMarkers, root, currentMarkers[root], current, path) <==>
        && root + "/" <= path
        && (currentMarkers[root].state == "in_progress"
            || ((root !in previousMarkers || previousMarkers[root] != currentMarkers[root])
                && (path !in current || current[path].mtimeNs <= currentMarkers[root].signature.mtimeNs)))
    {
    }
  }

  /** Folds every marker of the current scan, in whatever order the dictionary lists them, however
      their directories overlap: the result has the closed form, so it does not depend on the order. */
  method ApplySystemMutationBaselines(previous: Scan, current: Scan, previousMarkers: Markers, currentMarkers: Markers)
    returns (comparison: Scan)
    ensures comparison == Folded(previous, current, previousMarkers, currentMarkers)
    ensures forall path: string ::
      var settled := exists root | root in currentMarkers ::
        && root + "/" <= path
        && (currentMarkers[root].state == "in_progress"
            || ((root !in previousMarkers || previousMarkers[root] != currentMarkers[root])
                && (path !in current || current[path].mtimeNs <= currentMarkers[root].signature.mtimeNs)));
      && (path in comparison <==> if settled then path in current else path in previous)
      && (path in comparison ==> comparison[path] == if settled then current[path] else previous[path])
  {
    hide Folded;
    comparison := previous;
    var todo := currentMarkers.Keys;
    while todo != {}
      invariant todo <= currentMarkers.Keys
      invariant forall path: string ::
        if FoldedBy(current, previousMarkers, currentMarkers, currentMarkers.Keys - todo, path)
        then SameEntry(comparison, current, path) else SameEntry(comparison, previous, path)
      decreases todo
    {
      var root :| root in todo;
      ghost var done := currentMarkers.Keys - todo;
      ghost var before := comparison;
      todo := todo - {root};
      var marker := currentMarkers[root];
      var changed := !(root in previousMarkers && previousMarkers[root] == marker);
      if marker.state == "in_progress" {
        comparison := comparison - (set path | path in comparison && Covers(root, path));
        comparison := comparison + (map path | path in current && Covers(root, path) :: current[path]);
      } else if changed {
        comparison := comparison - (set path | path in comparison && Covers(root, path) && path !in current);
        comparison := comparison +
          (map path | path in current && Covers(root, path) && current[path].mtimeNs <= marker.signature.mtimeNs
           :: current[path]);
      }
      assert currentMarkers.Keys - todo == done + {root};
      forall path: string
        ensures if FoldedBy(current, previousMarkers, currentMarkers, done + {root}, path)
          then SameEntry(comparison, current, path) else SameEntry(comparison, previous, path)
      {
        FoldedByMore(current, previousMarkers, currentMarkers, done, root, path);
        if Folds(previousMarkers, root, marker, current, path) {
          assert SameEntry(comparison, current, path);
        } else {
          assert SameEntry(comparison, before, path);
        }
      }
    }
    assert currentMarkers.Keys - todo == currentMarkers.Keys;
    AllFolded(previous, current, previousMarkers, currentMarkers, comparison);
    forall path: string { FoldedMeaning(previous, current, previousMarkers, currentMarkers, path); }
  }

  // A scan folded by every marker has the closed form.
  lemma AllFolded(previous: Scan, current: Scan, previousMarkers: Markers, currentMarkers: Markers, comparison: Scan)
    requires forall path: string ::
      if FoldedBy(current, previousMarkers, currentMarkers, currentMarkers.Keys, path)
      then SameEntry(comparison, current, path) else SameEntry(comparison, previous, path)
    ensures comparison == Folded(previous, current, previousMarkers, currentMarkers)
  {
    forall path: string
      ensures SameEntry(comparison, Folded(previous, current, previousMarkers, currentMarkers), path)
    {
      assert FoldedBy(current, previousMarkers, currentMarkers, currentMarkers.Keys, path)
        == Suppressed(current, previousMarkers, currentMarkers, path);
    }
    SameEverywhere(comparison, Folded(previous, current, previousMarkers, currentMarkers));
  }

  lemma SameEverywhere(a: Scan, b: Scan)
    requires forall path: string :: SameEntry(a, b, path)
    ensures a == b
  {
    assert forall path | path in a :: SameEntry(a, b, path);
    assert forall path | path in b :: SameEntry(a, b, path);
  }

  predicate FoldedBy(current: Scan, previousMarkers: Markers, currentMarkers: Markers, roots: set<string>,
                     path: string) {
    exists root | root in roots ::
      root in currentMarkers && Folds(previousMarkers, root, currentMarkers[root], current, path)
  }

  lemma FoldedByMore(current: Scan, previousMarkers: Markers, currentMarkers: Markers, roots: set<string>,
                     root: string, path: string)
    requires root in currentMarkers
    ensures FoldedBy(current, previousMarkers, currentMarkers, roots + {root}, path) <==>
      FoldedBy(current, previousMarkers, currentMarkers, roots, path)
      || Folds(previousMarkers, root, currentMarkers[root], current, path)
  {
  }

  // ---- changed_events -------------------------------------------------------------------------

  predicate Changed(previous: Scan, current: Scan, path: string) {
    !SameEntry(previous, current, path)
  }

  function DeletedPaths(previous: Scan, current: Scan): seq<string> {
    StrTotal(previous.Keys - current.Keys);
    SortSet(previous.Keys - current.Keys, StrLess)
  }

  function ModifiedPaths(previous: Scan, current: Scan): seq<string> {
    var paths := set path | path in current && (path !in previous || current[path] != previous[path]);
    StrTotal(paths);
    SortSet(paths, StrLess)
  }

  function Listing(gone: seq<string>, changed: seq<string>): (r: seq<FileEvent>)
    ensures |r| == |gone| + |changed|
    ensures forall i | 0 <= i < |gone| :: r[i] == DeletedFile(gone[i])
    ensures forall i | |gone| <= i < |r| :: r[i] == ModifiedFile(changed[i - |gone|])
  {
    seq(|gone|, i requires 0 <= i < |gone| => DeletedFile(gone[i]))
    + seq(|changed|, i requires 0 <= i < |changed| => ModifiedFile(changed[i]))
  }

  function ChangedEvents(previous: Scan, current: Scan): seq<FileEvent> {
    Listing(DeletedPaths(previous, current), ModifiedPaths(previous, current))
  }

  lemma ListingMembers(gone: seq<string>, changed: seq<string>, path: string)
    ensures DeletedFile(path) in Listing(gone, changed) <==> path in gone
    ensures ModifiedFile(path) in Listing(gone, changed) <==> path in changed
  {
    var r := Listing(gone, changed);
    if path in gone {
      var i :| 0 <= i < |gone| && gone[i] == path;
      assert r[i] == DeletedFile(path);
    }
    if path in changed {
      var i :| 0 <= i < |changed| && changed[i] == path;
      assert r[|gone| + i] == ModifiedFile(path);
    }
  }

  lemma ListingOrder(gone: seq<string>, changed: seq<string>, i: nat, j: nat)
    requires Sorted(gone, StrLess) && Sorted(changed, StrLess)
    requires forall path | path in gone :: path !in changed
    requires i < j < |gone| + |changed|
    ensures var r := Listing(gone, changed);
      && r[i].path != r[j].path
      && (if r[i].DeletedFile? == r[j].DeletedFile? then StrLess(r[i].path, r[j].path) else r[i].DeletedFile?)
  {
    var r := Listing(gone, changed);
    StrIrreflexive(r[i].path);
    if i < |gone| <= j {
      assert gone[i] in gone && changed[j - |gone|] in changed;
    }
  }

  // Deletions first, each group in path order.
  predicate EmittedBefore(a: FileEvent, b: FileEvent) {
    if a.DeletedFile? == b.DeletedFile? then StrLess(a.path, b.path) else a.DeletedFile?
  }

  /** A path has an event exactly when its entries differ, deleted exactly when it is gone; no path
      has two events; deletions come first and each group is in path order. */
  lemma ChangedEventsMeaning(previous: Scan, current: Scan)
    ensures var evs := ChangedEvents(previous, current);
      && (forall path: string :: DeletedFile(path) in evs <==> path in previous && path !in current)
      && (forall path: string :: ModifiedFile(path) in evs <==>
            path in current && (path !in previous || previous[path] != current[path]))
      && (forall i, j | 0 <= i < j < |evs| :: evs[i].path != evs[j].path)
      && (forall i, j | 0 <= i < j < |evs| :: EmittedBefore(evs[i], evs[j]))
  {
    hide Listing, StrLess;
    var gone, changed := DeletedPaths(previous, current), ModifiedPaths(previous, current);
    var evs := ChangedEvents(previous, current);
    forall path: string
      ensures DeletedFile(path) in evs <==> path in previous && path !in current
      ensures ModifiedFile(path) in evs <==> path in current && (path !in previous || previous[path] != current[path])
    {
      ListingMembers(gone, changed, path);
    }
    forall i, j | 0 <= i < j < |evs|
      ensures evs[i].path != evs[j].path
      ensures EmittedBefore(evs[i], evs[j])
    {
      ListingOrder(gone, changed, i, j);
    }
  }

  // ---- whole runs -------------------------------------------------------------------------------

  datatype Round = Round(scan: Scan, markers: Markers)

  function RoundEvents(before: Round, round: Round): seq<FileEvent> {
    ChangedEvents(Folded(before.scan, round.scan, before.markers, round.markers), round.scan)
  }

  predicate SuppressedIn(before: Round, round: Round, path: string) {
    Suppressed(round.scan, before.markers, round.markers, path)
  }

  // What round k is compared with.
  function Baseline(first: Round, rounds: seq<Round>, k: nat): Round
    requires k <= |rounds|
  {
    if k == 0 then first else rounds[k - 1]
  }

  datatype Observation = Scanned(round: Round) | ScanFailed

  // One round of the loop.
  method CompareScans(before: Round, round: Round) returns (evs: seq<FileEvent>)
    ensures evs == RoundEvents(before, round)
  {
    var comparison := ApplySystemMutationBaselines(before.scan, round.scan, before.markers, round.markers);
    evs := ChangedEvents(comparison, round.scan);
  }

  // Each list of events is that of its round against the scan before.
  predicate EmittedBy(first: Round, rounds: seq<Round>, emitted: seq<seq<FileEvent>>) {
    && |emitted| == |rounds|
    && forall k | 0 <= k < |rounds| :: emitted[k] == RoundEvents(Baseline(first, rounds, k), rounds[k])
  }

  lemma OneMoreRound(first: Round, rounds: seq<Round>, emitted: seq<seq<FileEvent>>, current: Round)
    requires EmittedBy(first, rounds, emitted)
    ensures var evs := RoundEvents(Baseline(first, rounds, |rounds|), current);
      EmittedBy(first, rounds + [current], emitted + [evs])
    ensures Baseline(first, rounds + [current], |rounds| + 1) == current
  {
    hide RoundEvents;
    assert forall i | 0 <= i <= |rounds| :: Baseline(first, rounds + [current], i) == Baseline(first, rounds, i);
  }

  /** The observer loop: one list of events for each scan, up to the first scan that fails. */
  method RunObserver(first: Round, observations: seq<Observation>)
    returns (emitted: seq<seq<FileEvent>>, rounds: seq<Round>)
    ensures |rounds| <= |observations| && EmittedBy(first, rounds, emitted)
    ensures forall k | 0 <= k < |rounds| :: observations[k] == Scanned(rounds[k])
    ensures |rounds| < |observations| ==> observations[|rounds|].ScanFailed?
  {
    hide EmittedBy, RoundEvents;
    emitted, rounds := [], [];
    var previous := first;
    assert EmittedBy(first, [], []) by { NoRounds(first); }
    for k := 0 to |observations|
      invariant |rounds| == k && EmittedBy(first, rounds, emitted)
      invariant forall i | 0 <= i < k :: observations[i] == Scanned(rounds[i])
      invariant previous == Baseline(first, rounds, k)
    {
      if observations[k].ScanFailed? {
        return;
      }
      var current := observations[k].round;
      var evs := CompareScans(previous, current);
      OneMoreRound(first, rounds, emitted, current);
      emitted := emitted + [evs];
      rounds := rounds + [current];
      previous := current;
    }
  }

  /** The first list compares the first scan with the baseline, and every other list a scan with the one before. */
  lemma EmittedMeaning(first: Round, rounds: seq<Round>, emitted: seq<seq<FileEvent>>)
    requires EmittedBy(first, rounds, emitted)
    ensures |emitted| == |rounds|
    ensures rounds != [] ==> emitted[0] == RoundEvents(first, rounds[0])
    ensures forall k | 0 < k < |rounds| :: emitted[k] == RoundEvents(rounds[k - 1], rounds[k])
  {
    hide RoundEvents;
  }

  lemma NoRounds(first: Round)
    ensures EmittedBy(first, [], [])
  {
  }

  lemma RoundEventsIff(before: Round, round: Round)
    ensures var evs := RoundEvents(before, round);
      && (forall path: string :: DeletedFile(path) in evs <==>
            path in before.scan && path !in round.scan && !SuppressedIn(before, round, path))
      && (forall path: string :: ModifiedFile(path) in evs <==>
            path in round.scan && Changed(before.scan, round.scan, path) && !SuppressedIn(before, round, path))
      && (forall i, j | 0 <= i < j < |evs| :: evs[i].path != evs[j].path)
  {
    hide ChangedEvents, StrLess;
    ChangedEventsMeaning(Folded(before.scan, round.scan, before.markers, round.markers), round.scan);
  }

  /** A round emits an event for a path exactly when its entries in the two scans differ and no marker
      of the round suppresses the change: one on a directory above the path that is in progress, or that is
      new or changed and not older than the file's last modification. There are never two events for one path.
      Nothing but the two scans and their markers matters, so a suppressed change cannot come back later. */
  lemma RoundEventsMeaning(before: Round, round: Round)
    ensures var evs := RoundEvents(before, round);
      && (forall path: string ::
            var suppressed := exists root | root in round.markers ::
              && root + "/" <= path
              && (round.markers[root].state == "in_progress"
                  || ((root !in before.markers || before.markers[root] != round.markers[root])
                      && (path !in round.scan
                          || round.scan[path].mtimeNs <= round.markers[root].signature.mtimeNs)));
            && (DeletedFile(path) in evs <==> path in before.scan && path !in round.scan && !suppressed)
            && (ModifiedFile(path) in evs <==>
                  path in round.scan && (path !in before.scan || before.scan[path] != round.scan[path]) && !suppressed))
      && (forall i, j | 0 <= i < j < |evs| :: evs[i].path != evs[j].path)
  {
    hide RoundEvents, Suppressed;
    RoundEventsIff(before, round);
    forall path: string { SuppressedMeaning(round.scan, before.markers, round.markers, path); }
  }

  // ---- markers of assignment directories ----------------------------------------------------------

  // Where the marker of an assignment in a workspace below the watched directory lies.
  function AssignmentDirectory(watchRoot: string, workspace: string, id: nat): string {
    watchRoot + "/" + (workspace + ("/assignment-" + Numeral(id)))
  }

  ghost predicate OnAssignments(watchRoot: string, markers: Markers) {
    forall root | root in markers ::
      exists workspace, id: nat :: '/' !in workspace && root == AssignmentDirectory(watchRoot, workspace, id)
  }

  // The text before the first slash.
  function UpToSlash(s: string): string {
    if s == [] || s[0] == '/' then [] else [s[0]] + UpToSlash(s[1..])
  }

  lemma {:induction false} UpToSlashOf(a: string, x: string)
    requires '/' !in a
    ensures UpToSlash(a + ("/" + x)) == a
  {
    var s := a + ("/" + x);
    if a != [] {
      assert s[0] == a[0] && a[0] in a && s[1..] == a[1..] + ("/" + x);
      UpToSlashOf(a[1..], x);
    }
  }

  lemma SameUpToSlash(a: string, x: string, b: string, y: string)
    requires '/' !in a && '/' !in b && a + ("/" + x) == b + ("/" + y)
    ensures a == b && x == y
  {
    UpToSlashOf(a, x);
    UpToSlashOf(b, y);
    Cancel(a, "/" + x, b, "/" + y);
    Cancel("/", x, "/", y);
  }

  lemma PathBelow(watchRoot: string, w: string, id: nat, rest: string)
    ensures AssignmentDirectory(watchRoot, w, id) + "/" + rest
      == (watchRoot + "/") + (w + ("/" + ("assignment-" + (Numeral(id) + ("/" + rest)))))
  {
    hide Numeral;
    assert "/assignment-" == "/" + "assignment-";
  }

  // A path below one assignment directory lies below no other.
  lemma BelowOneDirectory(watchRoot: string, w: string, i: nat, v: string, j: nat, rest: string)
    requires '/' !in w && '/' !in v
    ensures AssignmentDirectory(watchRoot, v, j) + "/" <= AssignmentDirectory(watchRoot, w, i) + "/" + rest
      <==> w == v && i == j
  {
    hide Numeral, AssignmentDirectory;
    var root, path := AssignmentDirectory(watchRoot, v, j), AssignmentDirectory(watchRoot, w, i) + "/" + rest;
    if root + "/" <= path {
      var more := path[|root| + 1..];
      assert path == root + "/" + more;
      PathBelow(watchRoot, w, i, rest);
      PathBelow(watchRoot, v, j, more);
      var a, b := "assignment-" + (Numeral(i) + ("/" + rest)), "assignment-" + (Numeral(j) + ("/" + more));
      Cancel(watchRoot + "/", w + ("/" + a), watchRoot + "/", v + ("/" + b));
      SameUpToSlash(w, a, v, b);
      Cancel("assignment-", Numeral(i) + ("/" + rest), "assignment-", Numeral(j) + ("/" + more));
      SameNumber(i, rest, j, more);
    }
  }

  lemma SameNumber(i: nat, x: string, j: nat, y: string)
    requires Numeral(i) + ("/" + x) == Numeral(j) + ("/" + y)
    ensures i == j
  {
    SameUpToSlash(Numeral(i), x, Numeral(j), y);
    NumberOfNumeral(i);
    NumberOfNumeral(j);
  }

  lemma Cancel(p: string, a: string, q: string, b: string)
    requires p + a == q + b && p == q
    ensures a == b
  {
    assert a == (p + a)[|p|..] && b == (q + b)[|q|..];
  }

  /** A change below an assignment directory is emitted exactly when the marker of that very directory does not suppress
      it: the marker of another assignment, even one whose number begins alike, or of another workspace has no say. */
  lemma OnlyOwnMarkerSuppresses(before: Round, round: Round, watchRoot: string, workspace: string, id: nat,
                                rest: string)
    requires OnAssignments(watchRoot, round.markers) && '/' !in workspace
    ensures var own := AssignmentDirectory(watchRoot, workspace, id);
      var path, evs := own + "/" + rest, RoundEvents(before, round);
      var suppressed := own in round.markers
        && (round.markers[own].state == "in_progress"
            || ((own !in before.markers || before.markers[own] != round.markers[own])
                && (path !in round.scan || round.scan[path].mtimeNs <= round.markers[own].signature.mtimeNs)));
      && (DeletedFile(path) in evs <==> path in before.scan && path !in round.scan && !suppressed)
      && (ModifiedFile(path) in evs <==>
            path in round.scan && (path !in before.scan || before.scan[path] != round.scan[path]) && !suppressed)
  {
    hide RoundEvents, AssignmentDirectory;
    RoundEventsMeaning(before, round);
    var own := AssignmentDirectory(watchRoot, workspace, id);
    var path := own + "/" + rest;
    forall root | root in round.markers ensures root + "/" <= path <==> root == own {
      var v, j: nat :| '/' !in v && root == AssignmentDirectory(watchRoot, v, j);
      BelowOneDirectory(watchRoot, workspace, id, v, j, rest);
    }
  }

  /** So the edit of a file of assignment j is emitted whatever the marker of another assignment i of the same workspace
      says. */
  lemma OtherMarkerIsSilent(before: Round, round: Round, watchRoot: string, workspace: string, i: nat, j: nat,
                            rest: string)
    requires i != j && '/' !in workspace
    requires round.markers.Keys == {AssignmentDirectory(watchRoot, workspace, i)}
    ensures var path := AssignmentDirectory(watchRoot, workspace, j) + "/" + rest;
      (path in round.scan && (path !in before.scan || before.scan[path] != round.scan[path]))
        ==> ModifiedFile(path) in RoundEvents(before, round)
  {
    hide RoundEvents, AssignmentDirectory;
    OnlyOwnMarkerSuppresses(before, round, watchRoot, workspace, j, rest);
    BelowOneDirectory(watchRoot, workspace, j, workspace, i, rest);
    assert AssignmentDirectory(watchRoot, workspace, j) + "/"
      <= AssignmentDirectory(watchRoot, workspace, j) + "/" + rest;
  }

  // ---- following the events -----------------------------------------------------------------------

  // A consumer that follows the events, reading the file as the scan saw it.
  function Followed(view: Scan, evs: seq<FileEvent>, scan: Scan): Scan {
    if evs == [] then view else Applied(Followed(view, evs[..|evs| - 1], scan), evs[|evs| - 1], scan)
  }

  function Applied(view: Scan, ev: FileEvent, scan: Scan): Scan {
    match ev
    case DeletedFile(path) => view - {path}
    case ModifiedFile(path) => if path in scan then view[path := scan[path]] else view
  }

  predicate Mentioned(evs: seq<FileEvent>, path: string) {
    exists ev | ev in evs :: ev.path == path
  }

  lemma MentionedExtends(init: seq<FileEvent>, last: FileEvent, path: string)
    ensures Mentioned(init + [last], path) <==> Mentioned(init, path) || last.path == path
  {
    assert last in init + [last];
    assert forall ev :: ev in init + [last] <==> ev in init || ev == last;
  }

  // One event on a view, for the path it names and for any other.
  lemma OneFollowed(before: Scan, last: FileEvent, scan: Scan, path: string)
    requires last.ModifiedFile? <==> last.path in scan
    ensures var after := Applied(before, last, scan);
      if last.path == path then SameEntry(after, scan, path) else SameEntry(after, before, path)
  {
  }

  lemma {:induction false} FollowedMeaning(view: Scan, evs: seq<FileEvent>, scan: Scan, path: string)
    requires forall i, j | 0 <= i < j < |evs| :: evs[i].path != evs[j].path
    requires forall ev | ev in evs :: ev.ModifiedFile? <==> ev.path in scan
    ensures var after := Followed(view, evs, scan);
      if Mentioned(evs, path) then SameEntry(after, scan, path) else SameEntry(after, view, path)
  {
    hide Mentioned, Applied;
    if evs == [] {
      NothingMentioned(path);
    } else {
      var init, last := evs[..|evs| - 1], evs[|evs| - 1];
      assert evs == init + [last];
      FollowedMeaning(view, init, scan, path);
      MentionedExtends(init, last, path);
      assert last in evs;
      OneFollowed(Followed(view, init, scan), last, scan, path);
    }
  }

  lemma NothingMentioned(path: string)
    ensures !Mentioned([], path)
  {
  }

  // The view of a consumer that starts from the baseline scan and follows every round.
  function View(first: Round, rounds: seq<Round>): Scan {
    if rounds == [] then first.scan else
      var n := |rounds| - 1;
      Followed(View(first, rounds[..n]), RoundEvents(Baseline(first, rounds, n), rounds[n]), rounds[n].scan)
  }

  // The index of the last round whose change of the path, if any, was passed on; 0 is the baseline scan.
  function LastPassed(first: Round, rounds: seq<Round>, path: string): (k: nat)
    ensures k <= |rounds|
  {
    if rounds == [] then 0 else
      var n := |rounds| - 1;
      var before := Baseline(first, rounds, n);
      if Changed(before.scan, rounds[n].scan, path) && !SuppressedIn(before, rounds[n], path) then n + 1
      else LastPassed(first, rounds[..n], path)
  }

  lemma RoundPassesOn(view: Scan, before: Round, round: Round, path: string)
    ensures var after := Followed(view, RoundEvents(before, round), round.scan);
      if Changed(before.scan, round.scan, path) && !SuppressedIn(before, round, path)
      then SameEntry(after, round.scan, path) else SameEntry(after, view, path)
  {
    hide RoundEvents, SuppressedIn;
    var evs := RoundEvents(before, round);
    RoundEventsIff(before, round);
    forall ev | ev in evs ensures ev.ModifiedFile? <==> ev.path in round.scan {
      assert ev == DeletedFile(ev.path) || ev == ModifiedFile(ev.path);
    }
    FollowedMeaning(view, evs, round.scan, path);
    if Changed(before.scan, round.scan, path) && !SuppressedIn(before, round, path) {
      assert DeletedFile(path) in evs || ModifiedFile(path) in evs;
    } else {
      forall ev | ev in evs ensures ev.path != path {
        assert ev == DeletedFile(ev.path) || ev == ModifiedFile(ev.path);
      }
    }
  }

  /** Over a whole run, following the events gives for each path its entry in the scan at which it last
      changed unsuppressed: suppressed changes are never passed on, all others are, and at once. */
  lemma {:induction false} ViewIsLastPassed(first: Round, rounds: seq<Round>, path: string)
    ensures SameEntry(View(first, rounds), Baseline(first, rounds, LastPassed(first, rounds, path)).scan, path)
  {
    hide Changed, SuppressedIn, RoundEvents, Followed;
    if rounds != [] {
      var n := |rounds| - 1;
      ViewIsLastPassed(first, rounds[..n], path);
      RoundPassesOn(View(first, rounds[..n]), Baseline(first, rounds, n), rounds[n], path);
      var k := LastPassed(first, rounds[..n], path);
      assert Baseline(first, rounds[..n], k) == Baseline(first, rounds, k);
    }
  }

  lemma {:induction false} UnsuppressedReachesScan(first: Round, rounds: seq<Round>, path: string)
    requires forall k | 0 <= k < |rounds| ::
      !(Changed(Baseline(first, rounds, k).scan, rounds[k].scan, path)
        && SuppressedIn(Baseline(first, rounds, k), rounds[k], path))
    ensures SameEntry(Baseline(first, rounds, LastPassed(first, rounds, path)).scan,
                      Baseline(first, rounds, |rounds|).scan, path)
  {
    hide SuppressedIn;
    if rounds != [] {
      var n := |rounds| - 1;
      var init := rounds[..n];
      forall k | 0 <= k < n ensures Baseline(first, init, k) == Baseline(first, rounds, k) && init[k] == rounds[k] {}
      UnsuppressedReachesScan(first, init, path);
      assert !(Changed(Baseline(first, rounds, n).scan, rounds[n].scan, path)
               && SuppressedIn(Baseline(first, rounds, n), rounds[n], path));
    }
  }

  /** In a run without markers, replaying the events on the baseline scan reproduces the latest scan. */
  lemma MarkerFreeReplay(first: Round, rounds: seq<Round>)
    requires forall k | 0 <= k < |rounds| :: rounds[k].markers == map[]
    ensures View(first, rounds) == Baseline(first, rounds, |rounds|).scan
  {
    hide View;
    forall path: string ensures SameEntry(View(first, rounds), Baseline(first, rounds, |rounds|).scan, path) {
      ViewIsLastPassed(first, rounds, path);
      UnsuppressedReachesScan(first, rounds, path);
    }
    SameEverywhere(View(first, rounds), Baseline(first, rounds, |rounds|).scan);
  }
}
