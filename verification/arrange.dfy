/** `autoArrange`: every regular file directly inside the source directory
    whose name ends with a registered extension is moved into the folder
    named after its category. */
module Arrange {
  import opened Basics
  import opened FileTree
  import opened Registry

  /** A file the loop moved: its name, the category folder resolved for it,
      and the path it ended up at. */
  datatype Moved = Moved(name: Name, category: string, to: Path)

  datatype Report =
    | NoDirectorySelected
    | Arranged(moves: seq<Moved>)
    /** An exception escaped the loop (there is no try/except around it):
        the moves made so far stay, the rest of the listing is not visited. */
    | Aborted(moves: seq<Moved>, error: FsError)

  function MovesOf(r: Report): seq<Moved> {
    match r
    case NoDirectorySelected => []
    case Arranged(ms) => ms
    case Aborted(ms, _) => ms
  }

  function Prepend(m: Moved, r: Report): Report {
    match r
    case NoDirectorySelected => NoDirectorySelected
    case Arranged(ms) => Arranged([m] + ms)
    case Aborted(ms, e) => Aborted([m] + ms, e)
  }

  /** `name` is a top-level regular file that some rule classifies. */
  predicate Matched(rules: seq<Rule>, fs: FileSystem, name: Name) {
    IsFile(fs, [name]) && Resolve(rules, name).Some?
  }

  /** The loop `for file in os.listdir(source_dir)` of `autoArrange`, over
      a listing taken before the loop starts; whether an entry is a regular
      file is asked of the tree as it is when the entry's turn comes. */
  function ArrangeFiles(rules: seq<Rule>, fs: FileSystem, listing: seq<Name>): (r: Outcome<Report>)
    ensures r.report.Arranged? || r.report.Aborted?
    decreases |listing|
  {
    if listing == [] then Outcome(fs, Arranged([]))
    else
      var n := listing[0];
      if !IsFile(fs, [n]) then ArrangeFiles(rules, fs, listing[1..])
      else
        match Resolve(rules, n)
        case None => ArrangeFiles(rules, fs, listing[1..])
        case Some(c) =>
          match MakeFolder(fs, c)
          case Failure(e) => Outcome(fs, Aborted([], e))
          case Success(fs1) =>
            match MoveInto(fs1, n, c)
            case Failure(e) => Outcome(fs1, Aborted([], e))
            case Success(res) =>
              var rest := ArrangeFiles(rules, res.0, listing[1..]);
              Outcome(rest.fs, Prepend(Moved(n, c, res.1), rest.report))
  }

  /** `autoArrange(source_dir)`: an empty path returns at once without
      touching the filesystem, otherwise the loop runs over the extension
      table. */
  function AutoArrange(sourceDir: string, fs: FileSystem, listing: seq<Name>): (r: Outcome<Report>)
    ensures sourceDir == "" ==> r == Outcome(fs, NoDirectorySelected)
  {
    if sourceDir == "" then Outcome(fs, NoDirectorySelected)
    else ArrangeFiles(Extensions, fs, listing)
  }

  function Sources(ms: seq<Moved>): set<Path> {
    set m | m in ms :: [m.name]
  }

  function Destinations(ms: seq<Moved>): set<Path> {
    set m | m in ms :: m.to
  }

  /** `m` is a move the loop may make on the tree `fs` it started from:
      a top-level regular file, the category the table resolves for its
      name, and the place `shutil.move` puts it in that category's folder,
      which was free when that place is inside a folder `<category>/<name>`. */
  predicate Sound(rules: seq<Rule>, fs: FileSystem, m: Moved) {
    && IsFile(fs, [m.name])
    && Resolve(rules, m.name) == Some(m.category)
    && m.to == MoveTarget(fs, m.name, m.category)
    && (m.to == [m.category, m.name, m.name] ==> m.to !in fs)
  }

  /** After the run, the moved file is gone from the top level and its
      content sits unchanged at its destination. */
  predicate Delivered(fs: FileSystem, fs': FileSystem, m: Moved)
    requires IsFile(fs, [m.name])
  {
    !IsFile(fs', [m.name]) && m.to in fs' && fs'[m.to] == fs[[m.name]]
  }

  /** `c` is the category of some listed top-level regular file. */
  predicate CategoryOfListed(rules: seq<Rule>, fs: FileSystem, listing: seq<Name>, c: string) {
    exists x :: x in listing && IsFile(fs, [x]) && Resolve(rules, x) == Some(c)
  }

  /** Nothing but the moved files and their destinations differs between
      `fs` and `fs'`, except that folders named after the category of a
      listed file may appear at the top level. */
  predicate Frame(rules: seq<Rule>, fs: FileSystem, listing: seq<Name>, fs': FileSystem, ms: seq<Moved>) {
    && (forall p :: p in fs && p !in Sources(ms) && p !in Destinations(ms) ==> p in fs' && fs'[p] == fs[p])
    && (forall p :: p in fs' && p !in fs ==>
          || p in Destinations(ms)
          || (|p| == 1 && fs'[p] == Dir && CategoryOfListed(rules, fs, listing, p[0])))
  }

  /** What can stop the batch was in place before it started, for a listed
      file `x` of category `c`: a regular file named `c`, or a folder
      `c/x` that already holds an entry `x`. */
  predicate ObstacleBefore(rules: seq<Rule>, fs: FileSystem, listing: seq<Name>, e: FsError) {
    match e
    case FolderIsFile(p) => |p| == 1 && IsFile(fs, p) && CategoryOfListed(rules, fs, listing, p[0])
    case DestinationExists(p) =>
      && |p| == 3 && p[1] == p[2] && p in fs && IsDir(fs, [p[0], p[1]])
      && p[1] in listing && IsFile(fs, [p[1]]) && Resolve(rules, p[1]) == Some(p[0])
    case NotAFile(_) => false
  }

  /** Every reported move takes a listed, classified top-level file of `fs`
      to its category folder, where the final tree holds its content. */
  ghost predicate MovesSound(rules: seq<Rule>, fs: FileSystem, listing: seq<Name>, r: Outcome<Report>) {
    forall m :: m in MovesOf(r.report) ==> m.name in listing && Sound(rules, fs, m) && Delivered(fs, r.fs, m)
  }

  /** The properties `ArrangeFilesSound` establishes for the outcome `r` of
      running the loop over `listing` on `fs`. */
  ghost predicate ArrangeSound(rules: seq<Rule>, fs: FileSystem, listing: seq<Name>, r: Outcome<Report>) {
    && (r.report.Arranged? || r.report.Aborted?)
    && MovesSound(rules, fs, listing, r)
    && Frame(rules, fs, listing, r.fs, MovesOf(r.report))
    && (r.report.Aborted? ==> ObstacleBefore(rules, fs, listing, r.report.error))
    && (WellFormed(fs) ==> WellFormed(r.fs))
  }

  /** What one run of the loop does, for any listing: it reports moves or
      an abort; every move takes a listed, classified top-level file to its
      category folder with its content unchanged; nothing else changes
      except that folders named after the category of a listed file may
      appear; an abort is caused by an obstacle that stood in the way of a
      listed file beforehand; and a well-formed tree stays well formed. */
  lemma {:induction false} ArrangeFilesSound(rules: seq<Rule>, fs: FileSystem, listing: seq<Name>)
    ensures ArrangeSound(rules, fs, listing, ArrangeFiles(rules, fs, listing))
    decreases |listing|
  {
    if listing != [] {
      var n := listing[0];
      var r := ArrangeFiles(rules, fs, listing);
      if !IsFile(fs, [n]) || Resolve(rules, n).None? {
        ArrangeFilesSound(rules, fs, listing[1..]);
        SkipSound(rules, fs, listing, r);
      } else {
        var c := Resolve(rules, n).value;
        match MakeFolder(fs, c)
        case Failure(e) =>
          FolderAbortSound(rules, fs, listing, n, c, r);
        case Success(fs1) =>
          match MoveInto(fs1, n, c)
          case Failure(e) =>
            MoveAbortSound(rules, fs, listing, n, c, fs1, r);
          case Success(res) =>
            var (fs2, at) := res;
            StepFacts(fs, n, c, fs1, fs2, at);
            var rest := ArrangeFiles(rules, fs2, listing[1..]);
            ArrangeFilesSound(rules, fs2, listing[1..]);
            StepSound(rules, fs, listing, n, c, fs2, at, rest, r);
      }
    }
  }

  /** Neither obstacle stands in the way of the listed file `x`: no regular
      file has the name of its category `c`, and no folder `c/x` already
      holds an entry `x`. */
  predicate Unobstructed(rules: seq<Rule>, fs: FileSystem, x: Name) {
    Matched(rules, fs, x) ==>
      var c := Resolve(rules, x).value;
      !IsFile(fs, [c]) && !(IsDir(fs, [c, x]) && [c, x, x] in fs)
  }

  /** When no listed file meets an obstacle, the loop runs to the end:
      every classified file is moved. */
  lemma ArrangeFilesCompletes(rules: seq<Rule>, fs: FileSystem, listing: seq<Name>)
    requires forall x :: x in listing ==> Unobstructed(rules, fs, x)
    ensures ArrangeFiles(rules, fs, listing).report.Arranged?
  {
    var r := ArrangeFiles(rules, fs, listing);
    ArrangeFilesSound(rules, fs, listing);
    ObstacleBlocks(rules, fs, listing, r.report);
  }

  /** An obstacle of an aborted run stands in the way of a listed file. */
  lemma ObstacleBlocks(rules: seq<Rule>, fs: FileSystem, listing: seq<Name>, report: Report)
    ensures report.Aborted? && ObstacleBefore(rules, fs, listing, report.error) ==>
      exists x :: x in listing && !Unobstructed(rules, fs, x)
  {
    if report.Aborted? && ObstacleBefore(rules, fs, listing, report.error) {
      match report.error
      case FolderIsFile(p) =>
        var x :| x in listing && IsFile(fs, [x]) && Resolve(rules, x) == Some(p[0]);
        assert p == [p[0]];
        assert Matched(rules, fs, x) && IsFile(fs, [Resolve(rules, x).value]);
      case DestinationExists(p) =>
        var x := p[1];
        assert p == [p[0], x, x];
        assert Matched(rules, fs, x) && IsDir(fs, [Resolve(rules, x).value, x]);
    }
  }

  /** An entry the loop skips adds nothing to what the rest of it does. */
  lemma SkipSound(rules: seq<Rule>, fs: FileSystem, listing: seq<Name>, r: Outcome<Report>)
    requires listing != []
    requires ArrangeSound(rules, fs, listing[1..], r)
    ensures ArrangeSound(rules, fs, listing, r)
  {
    assert forall x :: x in listing[1..] ==> x in listing;
  }

  /** The batch stops at once because a regular file has the category's
      name. */
  lemma FolderAbortSound(rules: seq<Rule>, fs: FileSystem, listing: seq<Name>, n: Name, c: string, r: Outcome<Report>)
    requires listing != [] && listing[0] == n && IsFile(fs, [n]) && Resolve(rules, n) == Some(c)
    requires MakeFolder(fs, c).Failure?
    requires r == Outcome(fs, Aborted([], MakeFolder(fs, c).error))
    ensures ArrangeSound(rules, fs, listing, r)
  {
  }

  /** The batch stops because `<category>/<name>/<name>` already exists. */
  lemma MoveAbortSound(rules: seq<Rule>, fs: FileSystem, listing: seq<Name>, n: Name, c: string, fs1: FileSystem,
                       r: Outcome<Report>)
    requires listing != [] && listing[0] == n && IsFile(fs, [n]) && Resolve(rules, n) == Some(c)
    requires MakeFolder(fs, c) == Success(fs1)
    requires MoveInto(fs1, n, c).Failure?
    requires r == Outcome(fs1, Aborted([], MoveInto(fs1, n, c).error))
    ensures ArrangeSound(rules, fs, listing, r)
  {
    var p := [c, n, n];
    assert p != [c] && Agree(fs, fs1, p);
    assert [c, n] != [c] && Agree(fs, fs1, [c, n]);
    assert [n] != [c] && Agree(fs, fs1, [n]);
    assert CategoryOfListed(rules, fs, listing, c) by {
      assert n in listing;
    }
  }

  /** `fs2` is `fs` after creating the folder `c` (if needed) and moving the
      top-level file `n` to `at` inside it. */
  ghost predicate Step(fs: FileSystem, n: Name, c: string, fs2: FileSystem, at: Path) {
    && IsFile(fs, [n]) && n != c
    && at == MoveTarget(fs, n, c) && (at == [c, n, n] ==> at !in fs)
    && IsDir(fs2, [c]) && [n] !in fs2 && at in fs2 && fs2[at] == fs[[n]]
    && ([c] in fs ==> fs[[c]] == Dir)
    && (forall p :: p != [n] && p != [c] && p != at ==> Agree(fs, fs2, p))
  }

  lemma StepFacts(fs: FileSystem, n: Name, c: string, fs1: FileSystem, fs2: FileSystem, at: Path)
    requires IsFile(fs, [n])
    requires MakeFolder(fs, c) == Success(fs1)
    requires MoveInto(fs1, n, c) == Success((fs2, at))
    ensures Step(fs, n, c, fs2, at)
    ensures WellFormed(fs) ==> WellFormed(fs2)
  {
    assert [c, n] != [c] && Agree(fs, fs1, [c, n]);
    assert [c, n, n] != [c] && Agree(fs, fs1, [c, n, n]);
    if WellFormed(fs) {
      MoveIntoPreservesWellFormed(fs1, n, c);
    }
  }

  /** The inductive step of `ArrangeFilesSound` for a listing whose first
      entry `n` is moved to `at`. */
  lemma StepSound(rules: seq<Rule>, fs: FileSystem, listing: seq<Name>, n: Name, c: string, fs2: FileSystem, at: Path,
                  rest: Outcome<Report>, r: Outcome<Report>)
    requires listing != [] && listing[0] == n && Resolve(rules, n) == Some(c)
    requires Step(fs, n, c, fs2, at)
    requires WellFormed(fs) ==> WellFormed(fs2)
    requires ArrangeSound(rules, fs2, listing[1..], rest)
    requires r == Outcome(rest.fs, Prepend(Moved(n, c, at), rest.report))
    ensures ArrangeSound(rules, fs, listing, r)
  {
    var ms := MovesOf(rest.report);
    assert MovesOf(r.report) == [Moved(n, c, at)] + ms;
    StepMoves(rules, fs, listing, n, c, fs2, at, rest);
    SoundShape(rules, fs2, ms);
    StepFrame(rules, fs, listing, n, c, fs2, at, rest.fs, ms);
    if rest.report.Aborted? {
      StepObstacle(rules, fs, listing, n, c, fs2, at, rest.report.error);
    }
  }

  /** A sound move starts at a top-level file and ends below a folder. */
  lemma SoundShape(rules: seq<Rule>, fs: FileSystem, ms: seq<Moved>)
    requires forall m :: m in ms ==> Sound(rules, fs, m)
    ensures forall m :: m in ms ==> IsFile(fs, [m.name]) && |m.to| >= 2
  {
  }

  lemma StepMoves(rules: seq<Rule>, fs: FileSystem, listing: seq<Name>, n: Name, c: string, fs2: FileSystem, at: Path, rest: Outcome<Report>)
    requires listing != [] && listing[0] == n && Resolve(rules, n) == Some(c)
    requires Step(fs, n, c, fs2, at)
    requires rest.report.Arranged? || rest.report.Aborted?
    requires MovesSound(rules, fs2, listing[1..], rest)
    requires Frame(rules, fs2, listing[1..], rest.fs, MovesOf(rest.report))
    ensures MovesSound(rules, fs, listing, Outcome(rest.fs, Prepend(Moved(n, c, at), rest.report)))
  {
    var ms := MovesOf(rest.report);
    var m0 := Moved(n, c, at);
    LaterMovesSound(rules, fs, listing, n, c, fs2, at, rest);
    FirstMoveDelivered(rules, fs, listing[1..], n, c, fs2, at, rest.fs, ms);
    assert MovesOf(Prepend(m0, rest.report)) == [m0] + ms;
  }

  /** The first move stays where it was delivered: the later moves, of
      other names, neither take its destination nor bring back its name. */
  lemma FirstMoveDelivered(rules: seq<Rule>, fs: FileSystem, later: seq<Name>, n: Name, c: string, fs2: FileSystem,
                           at: Path, fs3: FileSystem, ms: seq<Moved>)
    requires Resolve(rules, n) == Some(c)
    requires Step(fs, n, c, fs2, at)
    requires forall m :: m in ms ==> m.name != n && Sound(rules, fs, m)
    requires Frame(rules, fs2, later, fs3, ms)
    ensures Sound(rules, fs, Moved(n, c, at)) && Delivered(fs, fs3, Moved(n, c, at))
  {
    UntouchedByLater(rules, fs, n, at, ms);
  }

  /** Later moves, of other names, neither read nor write the first move's
      source and destination. */
  lemma UntouchedByLater(rules: seq<Rule>, fs: FileSystem, n: Name, at: Path, ms: seq<Moved>)
    requires |at| >= 2 && at[1] == n
    requires forall m :: m in ms ==> m.name != n && Sound(rules, fs, m)
    ensures at !in Sources(ms) && at !in Destinations(ms)
    ensures [n] !in Sources(ms) && [n] !in Destinations(ms)
  {
  }

  /** The moves after the first one are sound with respect to the tree the
      loop started from, too. */
  lemma LaterMovesSound(rules: seq<Rule>, fs: FileSystem, listing: seq<Name>, n: Name, c: string, fs2: FileSystem, at: Path, rest: Outcome<Report>)
    requires listing != [] && listing[0] == n
    requires Step(fs, n, c, fs2, at)
    requires MovesSound(rules, fs2, listing[1..], rest)
    ensures forall m :: m in MovesOf(rest.report) ==>
      m.name in listing && m.name != n && Sound(rules, fs, m) && Delivered(fs, rest.fs, m)
  {
    forall m | m in MovesOf(rest.report)
      ensures m.name in listing && m.name != n && Sound(rules, fs, m) && Delivered(fs, rest.fs, m)
    {
      assert m.name in listing[1..];
      var q := [m.name];
      assert q != [c] && q != at;
      assert Agree(fs, fs2, q);
      var d1, d2 := [m.category, m.name], [m.category, m.name, m.name];
      assert d1 != [n] && d1 != [c] && d1 != at && Agree(fs, fs2, d1);
      assert d2 != [n] && d2 != [c] && d2 != at && Agree(fs, fs2, d2);
    }
  }

  /** A category of a listed file after the first step is one before it. */
  lemma CategoryBeforeStep(rules: seq<Rule>, fs: FileSystem, listing: seq<Name>, n: Name, c: string,
                           fs2: FileSystem, at: Path, c0: string)
    requires listing != [] && Step(fs, n, c, fs2, at)
    requires CategoryOfListed(rules, fs2, listing[1..], c0)
    ensures CategoryOfListed(rules, fs, listing, c0)
  {
    var x :| x in listing[1..] && IsFile(fs2, [x]) && Resolve(rules, x) == Some(c0);
    assert [x] != [n] && [x] != [c] && [x] != at;
    assert Agree(fs, fs2, [x]);
    assert x in listing;
  }

  lemma StepFrame(rules: seq<Rule>, fs: FileSystem, listing: seq<Name>, n: Name, c: string, fs2: FileSystem,
                  at: Path, fs3: FileSystem, ms: seq<Moved>)
    requires listing != [] && listing[0] == n && Resolve(rules, n) == Some(c)
    requires Step(fs, n, c, fs2, at)
    requires forall m :: m in ms ==> IsFile(fs2, [m.name]) && |m.to| >= 2
    requires Frame(rules, fs2, listing[1..], fs3, ms)
    ensures Frame(rules, fs, listing, fs3, [Moved(n, c, at)] + ms)
  {
    var m0 := Moved(n, c, at);
    var all := [m0] + ms;
    assert m0 in all;
    assert [n] in Sources(all) && at in Destinations(all);
    assert Sources(ms) <= Sources(all) && Destinations(ms) <= Destinations(all);
    assert [c] !in Sources(ms) && [c] !in Destinations(ms);
    forall p | p in fs && p !in Sources(all) && p !in Destinations(all)
      ensures p in fs3 && fs3[p] == fs[p]
    {
      if p != [c] {
        assert Agree(fs, fs2, p);
      }
    }
    forall p | p in fs3 && p !in fs
      ensures || p in Destinations(all)
              || (|p| == 1 && fs3[p] == Dir && CategoryOfListed(rules, fs, listing, p[0]))
    {
      if p == [c] {
        assert n in listing;
        assert CategoryOfListed(rules, fs, listing, c);
      } else if p != at {
        assert Agree(fs, fs2, p);
        if p !in Destinations(ms) {
          CategoryBeforeStep(rules, fs, listing, n, c, fs2, at, p[0]);
        }
      }
    }
  }

  lemma StepObstacle(rules: seq<Rule>, fs: FileSystem, listing: seq<Name>, n: Name, c: string, fs2: FileSystem,
                     at: Path, e: FsError)
    requires listing != [] && Step(fs, n, c, fs2, at)
    requires ObstacleBefore(rules, fs2, listing[1..], e)
    ensures ObstacleBefore(rules, fs, listing, e)
  {
    match e
    case FolderIsFile(p) =>
      assert p != [n] && p != [c] && p != at;
      assert Agree(fs, fs2, p);
      CategoryBeforeStep(rules, fs, listing, n, c, fs2, at, p[0]);
    case DestinationExists(p) =>
      var q := [p[1]];
      assert q != [n] && q != [c] && q != at;
      assert Agree(fs, fs2, q);
      var d := [p[0], p[1]];
      assert d != [n] && d != [c] && d != at;
      assert Agree(fs, fs2, d);
      assert p != [n] && p != [c];
      assert p != at;
      assert Agree(fs, fs2, p);
      assert p[1] in listing;
  }

  /** The names of the moved files, in order. */
  function Names(ms: seq<Moved>): seq<Name> {
    Map(ms, (m: Moved) => m.name)
  }

  /** The names `autoArrange` is meant to move: the listed top-level regular
      files that some rule classifies, in listing order. */
  function MatchedNames(rules: seq<Rule>, fs: FileSystem, listing: seq<Name>): seq<Name> {
    Filter(listing, n => Matched(rules, fs, n))
  }

  /** Moving one file and creating its folder changes no other top-level
      entry's standing as a classified regular file. */
  lemma StepKeepsMatches(rules: seq<Rule>, fs: FileSystem, n: Name, c: string, fs2: FileSystem, at: Path, x: Name)
    requires Step(fs, n, c, fs2, at)
    requires x != n
    ensures Matched(rules, fs2, x) == Matched(rules, fs, x)
  {
    assert [x] != [n] && [x] != at;
    if x != c {
      assert Agree(fs, fs2, [x]);
    }
  }

  /** `e` is what moving the classified file `x` raises on `fs`: creating
      its category folder `c` fails because a regular file is named `c`, or
      the move fails because `c/x` is a folder already holding `x`. */
  predicate RaisedAt(rules: seq<Rule>, fs: FileSystem, x: Name, e: FsError) {
    match Resolve(rules, x)
    case None => false
    case Some(c) =>
      || (e == FolderIsFile([c]) && IsFile(fs, [c]))
      || (e == DestinationExists([c, x, x]) && [c, x, x] in fs && IsDir(fs, [c, x]))
  }

  /** What `ArrangeFilesExact` establishes for the outcome `r` of the loop:
      the moved names are a prefix of the classified ones, all of them when
      the loop ran to the end, and none twice; when it aborted, the error
      is the one the first classified file not moved raises. */
  ghost predicate ArrangeExact(rules: seq<Rule>, fs: FileSystem, listing: seq<Name>, r: Outcome<Report>) {
    && Names(MovesOf(r.report)) <= MatchedNames(rules, fs, listing)
    && (r.report.Arranged? ==> Names(MovesOf(r.report)) == MatchedNames(rules, fs, listing))
    && (r.report.Aborted? ==>
          && |MovesOf(r.report)| < |MatchedNames(rules, fs, listing)|
          && RaisedAt(rules, fs, MatchedNames(rules, fs, listing)[|MovesOf(r.report)|], r.report.error))
    && NoDuplicates(Names(MovesOf(r.report)))
  }

  /** With a listing that names no entry twice, the loop moves exactly the
      classified files, in listing order, each once; an abort stops it
      before the file that raised, so what was moved is a proper prefix of
      that sequence, and the next classified file is the one whose folder
      or destination was in the way. */
  lemma {:induction false} ArrangeFilesExact(rules: seq<Rule>, fs: FileSystem, listing: seq<Name>)
    requires NoDuplicates(listing)
    ensures ArrangeExact(rules, fs, listing, ArrangeFiles(rules, fs, listing))
    decreases |listing|
  {
    var r := ArrangeFiles(rules, fs, listing);
    if listing == [] {
      assert r == Outcome(fs, Arranged([]));
    } else {
      var n := listing[0];
      var tail := listing[1..];
      assert NoDuplicates(tail);
      if !Matched(rules, fs, n) {
        ArrangeFilesExact(rules, fs, tail);
        ExactSkip(rules, fs, listing, r);
      } else {
        var c := Resolve(rules, n).value;
        assert MatchedNames(rules, fs, listing) == [n] + MatchedNames(rules, fs, tail);
        match MakeFolder(fs, c)
        case Failure(e) =>
          ExactAbort(rules, fs, listing, r);
        case Success(fs1) =>
          match MoveInto(fs1, n, c)
          case Failure(e) =>
            MoveRaisedAt(rules, fs, n, c, fs1);
            ExactAbort(rules, fs, listing, r);
          case Success(res) =>
            var (fs2, at) := res;
            StepFacts(fs, n, c, fs1, fs2, at);
            var rest := ArrangeFiles(rules, fs2, tail);
            ArrangeFilesExact(rules, fs2, tail);
            ArrangeFilesSound(rules, fs2, tail);
            ExactStep(rules, fs, listing, n, c, fs2, at, rest, r);
      }
    }
  }

  lemma ExactSkip(rules: seq<Rule>, fs: FileSystem, listing: seq<Name>, r: Outcome<Report>)
    requires listing != [] && !Matched(rules, fs, listing[0])
    requires ArrangeExact(rules, fs, listing[1..], r)
    ensures ArrangeExact(rules, fs, listing, r)
  {
    assert MatchedNames(rules, fs, listing) == MatchedNames(rules, fs, listing[1..]);
  }

  lemma ExactAbort(rules: seq<Rule>, fs: FileSystem, listing: seq<Name>, r: Outcome<Report>)
    requires listing != []
    requires MatchedNames(rules, fs, listing) == [listing[0]] + MatchedNames(rules, fs, listing[1..])
    requires r.report.Aborted? && r.report.moves == []
    requires RaisedAt(rules, fs, listing[0], r.report.error)
    ensures ArrangeExact(rules, fs, listing, r)
  {
  }

  /** A failed move of `n` into the folder `c` that `makedirs` just made or
      found raises what `RaisedAt` describes on the tree before `makedirs`. */
  lemma MoveRaisedAt(rules: seq<Rule>, fs: FileSystem, n: Name, c: string, fs1: FileSystem)
    requires IsFile(fs, [n]) && Resolve(rules, n) == Some(c)
    requires MakeFolder(fs, c) == Success(fs1)
    requires MoveInto(fs1, n, c).Failure?
    ensures RaisedAt(rules, fs, n, MoveInto(fs1, n, c).error)
  {
    assert [c, n, n] != [c] && Agree(fs, fs1, [c, n, n]);
    assert [c, n] != [c] && Agree(fs, fs1, [c, n]);
  }

  /** An error the rest of the loop raises at a later file `x` after the
      first file `n` was moved raises on the tree before that move, too:
      the move added only the folder `c` and the entry `at`, neither of
      which can be the regular file or the entry `RaisedAt` names. */
  lemma RaisedBeforeStep(rules: seq<Rule>, fs: FileSystem, n: Name, c: string, fs2: FileSystem, at: Path, x: Name, e: FsError)
    requires Step(fs, n, c, fs2, at)
    requires x != n
    requires RaisedAt(rules, fs2, x, e)
    ensures RaisedAt(rules, fs, x, e)
  {
    var cx := Resolve(rules, x).value;
    match e
    case FolderIsFile(_) =>
      assert [cx] != [n] && [cx] != at;
      if cx != c {
        assert Agree(fs, fs2, [cx]);
      }
    case DestinationExists(_) =>
      assert [cx, x, x] != [n] && [cx, x, x] != [c] && [cx, x, x] != at;
      assert Agree(fs, fs2, [cx, x, x]);
      assert [cx, x] != [n] && [cx, x] != [c] && [cx, x] != at;
      assert Agree(fs, fs2, [cx, x]);
    case NotAFile(_) =>
  }

  lemma ExactStep(rules: seq<Rule>, fs: FileSystem, listing: seq<Name>, n: Name, c: string, fs2: FileSystem, at: Path,
                  rest: Outcome<Report>, r: Outcome<Report>)
    requires NoDuplicates(listing) && listing != [] && listing[0] == n
    requires Step(fs, n, c, fs2, at)
    requires MatchedNames(rules, fs, listing) == [n] + MatchedNames(rules, fs, listing[1..])
    requires rest.report.Arranged? || rest.report.Aborted?
    requires ArrangeExact(rules, fs2, listing[1..], rest)
    requires r == Outcome(rest.fs, Prepend(Moved(n, c, at), rest.report))
    ensures ArrangeExact(rules, fs, listing, r)
  {
    var tail := listing[1..];
    forall x | x in tail
      ensures Matched(rules, fs2, x) == Matched(rules, fs, x)
    {
      StepKeepsMatches(rules, fs, n, c, fs2, at, x);
    }
    FilterCongruent(tail, x => Matched(rules, fs2, x), x => Matched(rules, fs, x));
    assert MatchedNames(rules, fs2, tail) == MatchedNames(rules, fs, tail);
    assert MovesOf(r.report) == [Moved(n, c, at)] + MovesOf(rest.report);
    assert Names(MovesOf(r.report)) == [n] + Names(MovesOf(rest.report));
    FilterNoDuplicates(listing, x => Matched(rules, fs, x));
    PrefixNoDuplicates(MatchedNames(rules, fs, listing), Names(MovesOf(r.report)));
    if rest.report.Aborted? {
      var k := |MovesOf(rest.report)|;
      var x := MatchedNames(rules, fs, tail)[k];
      assert MatchedNames(rules, fs, listing)[|MovesOf(r.report)|] == x;
      assert x in MatchedNames(rules, fs, tail);
      var j :| 0 <= j < |tail| && tail[j] == x;
      assert listing[j + 1] == x;
      RaisedBeforeStep(rules, fs, n, c, fs2, at, x, rest.report.error);
    }
  }

  /** Every destination of a sound move lies below a category folder. */
  lemma DestinationsBelowTop(rules: seq<Rule>, fs: FileSystem, ms: seq<Moved>)
    requires forall m :: m in ms ==> Sound(rules, fs, m)
    ensures forall p :: p in Destinations(ms) ==> |p| >= 2
  {
  }

  lemma NotMovedName(ms: seq<Moved>, x: Name)
    requires [x] !in Sources(ms)
    ensures x !in Names(ms)
  {
    forall i | 0 <= i < |ms|
      ensures Names(ms)[i] != x
    {
      assert ms[i] in ms;
    }
  }

  /** Top-level entries that are folders, or files no rule classifies, are
      left exactly as they were, whether the run finished or aborted. */
  lemma UnmatchedUntouched(rules: seq<Rule>, fs: FileSystem, listing: seq<Name>, x: Name)
    requires [x] in fs && !Matched(rules, fs, x)
    ensures var r := ArrangeFiles(rules, fs, listing);
      [x] in r.fs && r.fs[[x]] == fs[[x]]
  {
    ArrangeFilesSound(rules, fs, listing);
    var ms := MovesOf(ArrangeFiles(rules, fs, listing).report);
    DestinationsBelowTop(rules, fs, ms);
    assert [x] !in Sources(ms);
  }

  /** After a run that finished, no top-level regular file is left that a
      rule classifies, provided the listing named every top-level entry. */
  lemma NothingLeftToArrange(rules: seq<Rule>, fs: FileSystem, listing: seq<Name>, x: Name)
    requires Lists(fs, listing)
    requires ArrangeFiles(rules, fs, listing).report.Arranged?
    ensures !Matched(rules, ArrangeFiles(rules, fs, listing).fs, x)
  {
    var r := ArrangeFiles(rules, fs, listing);
    ArrangeFilesSound(rules, fs, listing);
    ArrangeFilesExact(rules, fs, listing);
    var ms := MovesOf(r.report);
    DestinationsBelowTop(rules, fs, ms);
    if IsFile(r.fs, [x]) {
      assert [x] !in Destinations(ms);
      assert [x] in fs && fs[[x]] == r.fs[[x]];
      assert [x] !in Sources(ms) by {
        forall m | m in ms
          ensures [m.name] != [x]
        {
          assert Delivered(fs, r.fs, m);
        }
      }
      NotMovedName(ms, x);
      assert x !in MatchedNames(rules, fs, listing);
      assert x in listing;
    }
  }

  /** With nothing left to classify, the loop visits every entry and
      changes nothing. */
  lemma {:induction false} ArrangeNothing(rules: seq<Rule>, fs: FileSystem, listing: seq<Name>)
    requires forall x :: !Matched(rules, fs, x)
    ensures ArrangeFiles(rules, fs, listing) == Outcome(fs, Arranged([]))
    decreases |listing|
  {
    if listing != [] {
      assert !Matched(rules, fs, listing[0]);
      ArrangeNothing(rules, fs, listing[1..]);
    }
  }

  /** `autoArrange` is idempotent: once a run over the full listing has
      finished, running it again, over any listing of the new tree, moves
      nothing and leaves the tree as it is. */
  lemma AutoArrangeIdempotent(sourceDir: string, fs: FileSystem, listing: seq<Name>, listing2: seq<Name>)
    requires Lists(fs, listing)
    requires AutoArrange(sourceDir, fs, listing).report.Arranged?
    ensures var r := AutoArrange(sourceDir, fs, listing);
      AutoArrange(sourceDir, r.fs, listing2) == Outcome(r.fs, Arranged([]))
  {
    var r := ArrangeFiles(Extensions, fs, listing);
    forall x
      ensures !Matched(Extensions, r.fs, x)
    {
      NothingLeftToArrange(Extensions, fs, listing, x);
    }
    ArrangeNothing(Extensions, r.fs, listing2);
  }
}
