/** `addSpecific`: every regular file directly inside the source directory
    whose name contains a user-entered word is moved into a folder named
    after that word. */
module Keyword {
  import opened Basics
  import opened Text
  import opened FileTree

  /** What happened to one file whose name contains the word: it was moved
      (to the path it ended up at), or the move raised and the error was
      caught (the file stays where it was). */
  datatype Attempt =
    | Moved(name: Name, to: Path)
    | Failed(name: Name, error: FsError)

  /** The closing message: no file was moved, or how many were. */
  datatype Summary = NoneFound | MovedSome(count: nat)

  datatype Report =
    | NoDirectorySelected
    | NoWordEntered
    /** Creating the word's folder raised; nothing else was done. */
    | Aborted(word: string, error: FsError)
    | Grouped(word: string, attempts: seq<Attempt>, summary: Summary)

  predicate IsMove(a: Attempt) {
    a.Moved?
  }

  lemma NoMovesIff(attempts: seq<Attempt>)
    ensures |Filter(attempts, IsMove)| == 0 <==> forall a :: a in attempts ==> !a.Moved?
  {
    var moves := Filter(attempts, IsMove);
    if |moves| != 0 {
      assert moves[0] in moves;
    }
  }

  /** The loop of `addSpecific` over the listing of the source directory,
      with `moved_count` as the second component of the report: files
      whose name contains `word` are moved into the folder `word`, and a
      failing move is caught and recorded without stopping the loop. */
  function GroupFiles(word: Name, fs: FileSystem, listing: seq<Name>): (r: Outcome<(seq<Attempt>, nat)>)
    requires IsDir(fs, [word])
    ensures IsDir(r.fs, [word])
    ensures r.report.1 == |Filter(r.report.0, IsMove)|
    decreases |listing|
  {
    if listing == [] then Outcome(fs, ([], 0))
    else
      var n := listing[0];
      if !IsFile(fs, [n]) || !Contains(n, word) then GroupFiles(word, fs, listing[1..])
      else
        match MoveInto(fs, n, word)
        case Failure(e) =>
          var rest := GroupFiles(word, fs, listing[1..]);
          assert ([Failed(n, e)] + rest.report.0)[1..] == rest.report.0;
          Outcome(rest.fs, ([Failed(n, e)] + rest.report.0, rest.report.1))
        case Success(res) =>
          assert [n] != [word];
          var rest := GroupFiles(word, res.0, listing[1..]);
          assert ([Moved(n, res.1)] + rest.report.0)[1..] == rest.report.0;
          Outcome(rest.fs, ([Moved(n, res.1)] + rest.report.0, rest.report.1 + 1))
  }

  /** `addSpecific(source_dir)` with the line read by `input()` as
      `keyword`. The word is the keyword with surrounding whitespace
      removed; `listing` is the listing of the source directory taken after
      the word's folder was created. */
  function AddSpecific(sourceDir: string, keyword: string, fs: FileSystem, listing: seq<Name>): (r: Outcome<Report>)
    requires Strip(keyword) == "" || ValidName(Strip(keyword))
    ensures sourceDir == "" ==> r == Outcome(fs, NoDirectorySelected)
    ensures sourceDir != "" && AllSpace(keyword) ==> r == Outcome(fs, NoWordEntered)
    ensures sourceDir != "" && !AllSpace(keyword) && IsFile(fs, [Strip(keyword)])
      ==> r == Outcome(fs, Aborted(Strip(keyword), FolderIsFile([Strip(keyword)])))
    ensures r.report.Grouped? ==>
      && r.report.word == Strip(keyword) && r.report.word != ""
      && (r.report.summary.NoneFound? <==> forall a :: a in r.report.attempts ==> !a.Moved?)
      && (r.report.summary.MovedSome? ==> r.report.summary.count == |Filter(r.report.attempts, IsMove)|)
  {
    if sourceDir == "" then Outcome(fs, NoDirectorySelected)
    else
      var word := Strip(keyword);
      if word == "" then Outcome(fs, NoWordEntered)
      else
        match MakeFolder(fs, word)
        case Failure(e) => Outcome(fs, Aborted(word, e))
        case Success(fs1) =>
          var g := GroupFiles(word, fs1, listing);
          var (attempts, movedCount) := g.report;
          NoMovesIff(attempts);
          Outcome(g.fs, Grouped(word, attempts, if movedCount == 0 then NoneFound else MovedSome(movedCount)))
  }

  /** The top-level files the moved files came from. */
  function MovedFrom(attempts: seq<Attempt>): set<Path> {
    set a | a in attempts && a.Moved? :: [a.name]
  }

  /** Where the moved files ended up. */
  function MovedTo(attempts: seq<Attempt>): set<Path> {
    set a | a in attempts && a.Moved? :: a.to
  }

  /** `x` is a top-level regular file whose name contains `word`. */
  predicate Candidate(word: Name, fs: FileSystem, x: Name) {
    IsFile(fs, [x]) && Contains(x, word)
  }

  /** The files `addSpecific` is meant to move, in listing order. */
  function Candidates(word: Name, fs: FileSystem, listing: seq<Name>): seq<Name> {
    Filter(listing, x => Candidate(word, fs, x))
  }

  /** The names of the attempted files, in order. */
  function AttemptNames(attempts: seq<Attempt>): seq<Name> {
    Map(attempts, (a: Attempt) => a.name)
  }

  /** One attempt, judged against the tree `fs` the loop started from and
      the tree `fs'` it left: the file was a candidate; a moved file is gone
      from the top level and its content sits where `shutil.move` puts it
      in the word's folder, a place that was free if it lies inside a
      folder `<word>/<name>`; a
      failed one raised because `<word>/<name>` was a folder already holding
      `<name>`, and it is still in place, unchanged. */
  ghost predicate AttemptSound(word: Name, fs: FileSystem, fs': FileSystem, a: Attempt) {
    && Candidate(word, fs, a.name)
    && (a.Moved? ==>
          && a.to == MoveTarget(fs, a.name, word)
          && (a.to == [word, a.name, a.name] ==> a.to !in fs)
          && [a.name] !in fs' && a.to in fs' && fs'[a.to] == fs[[a.name]])
    && (a.Failed? ==>
          && a.error == DestinationExists([word, a.name, a.name]) && [word, a.name, a.name] in fs
          && [a.name] in fs' && fs'[[a.name]] == fs[[a.name]])
  }

  /** What `GroupFilesSound` establishes about the outcome `r` of the loop
      over `listing` on `fs`: every attempt concerns a listed candidate and
      is sound, and nothing but the moved files and their destinations
      differs between `fs` and the final tree. */
  ghost predicate GroupSound(word: Name, fs: FileSystem, listing: seq<Name>, r: Outcome<(seq<Attempt>, nat)>) {
    var attempts := r.report.0;
    && (forall a :: a in attempts ==> a.name in listing && AttemptSound(word, fs, r.fs, a))
    && (forall p :: p in fs && p !in MovedFrom(attempts) && p !in MovedTo(attempts) ==> p in r.fs && r.fs[p] == fs[p])
    && (forall p :: p in r.fs && p !in fs ==> p in MovedTo(attempts))
  }

  /** Every attempt concerns a listed candidate; a moved file reaches the
      word's folder with its content unchanged; a failed move leaves the
      file where it was; nothing else changes. */
  lemma {:induction false} GroupFilesSound(word: Name, fs: FileSystem, listing: seq<Name>)
    requires IsDir(fs, [word]) && NoDuplicates(listing)
    ensures GroupSound(word, fs, listing, GroupFiles(word, fs, listing))
    decreases |listing|
  {
    if listing != [] {
      var n := listing[0];
      var tail := listing[1..];
      assert NoDuplicates(tail);
      var r := GroupFiles(word, fs, listing);
      if !IsFile(fs, [n]) || !Contains(n, word) {
        GroupFilesSound(word, fs, tail);
        SkipStep(word, fs, listing, r);
      } else {
        match MoveInto(fs, n, word)
        case Failure(e) =>
          GroupFilesSound(word, fs, tail);
          FailedStep(word, fs, listing, GroupFiles(word, fs, tail), r);
        case Success(res) =>
          var (fs2, at) := res;
          assert [n] != [word];
          GroupFilesSound(word, fs2, tail);
          MovedStep(word, fs, listing, fs2, at, GroupFiles(word, fs2, tail), r);
      }
    }
  }

  lemma SkipStep(word: Name, fs: FileSystem, listing: seq<Name>, r: Outcome<(seq<Attempt>, nat)>)
    requires listing != []
    requires GroupSound(word, fs, listing[1..], r)
    ensures GroupSound(word, fs, listing, r)
  {
    assert forall x :: x in listing[1..] ==> x in listing;
  }

  lemma FailedStep(word: Name, fs: FileSystem, listing: seq<Name>, rest: Outcome<(seq<Attempt>, nat)>, r: Outcome<(seq<Attempt>, nat)>)
    requires NoDuplicates(listing) && listing != []
    requires Candidate(word, fs, listing[0]) && IsDir(fs, [word])
    requires MoveInto(fs, listing[0], word).Failure?
    requires GroupSound(word, fs, listing[1..], rest)
    requires r == Outcome(rest.fs, ([Failed(listing[0], MoveInto(fs, listing[0], word).error)] + rest.report.0, rest.report.1))
    ensures GroupSound(word, fs, listing, r)
  {
    var n := listing[0];
    var a0 := Failed(n, MoveInto(fs, n, word).error);
    var attempts := rest.report.0;
    forall a | a in attempts
      ensures a.name in listing && a.name != n
    {
      assert a.name in listing[1..];
    }
    assert [n] !in MovedFrom(attempts);
    assert [n] !in MovedTo(attempts);
    MovedCons(a0, attempts);
    assert AttemptSound(word, fs, r.fs, a0);
  }

  lemma MovedStep(word: Name, fs: FileSystem, listing: seq<Name>, fs2: FileSystem, at: Path,
                  rest: Outcome<(seq<Attempt>, nat)>, r: Outcome<(seq<Attempt>, nat)>)
    requires NoDuplicates(listing) && listing != []
    requires Candidate(word, fs, listing[0]) && IsDir(fs, [word])
    requires MoveInto(fs, listing[0], word) == Success((fs2, at))
    requires GroupSound(word, fs2, listing[1..], rest)
    requires r == Outcome(rest.fs, ([Moved(listing[0], at)] + rest.report.0, rest.report.1 + 1))
    ensures GroupSound(word, fs, listing, r)
  {
    var n := listing[0];
    var a0 := Moved(n, at);
    var attempts := rest.report.0;
    var all := [a0] + attempts;
    LaterAttemptsSound(word, fs, listing, fs2, at, rest);
    assert at !in MovedFrom(attempts) && at !in MovedTo(attempts);
    assert [n] !in MovedTo(attempts);
    MovedCons(a0, attempts);
    assert AttemptSound(word, fs, r.fs, a0);
    MovedFrame(fs, fs2, n, at, rest.fs, attempts, all);
  }

  /** The moved sources and destinations of an attempt list with one more
      attempt in front. */
  lemma MovedCons(a0: Attempt, attempts: seq<Attempt>)
    ensures a0.Moved? ==> MovedFrom([a0] + attempts) == {[a0.name]} + MovedFrom(attempts)
    ensures a0.Moved? ==> MovedTo([a0] + attempts) == {a0.to} + MovedTo(attempts)
    ensures a0.Failed? ==> MovedFrom([a0] + attempts) == MovedFrom(attempts)
    ensures a0.Failed? ==> MovedTo([a0] + attempts) == MovedTo(attempts)
  {
    assert a0 in [a0] + attempts;
  }

  /** The attempts after a successful move are sound with respect to the
      tree before it, too. */
  lemma LaterAttemptsSound(word: Name, fs: FileSystem, listing: seq<Name>, fs2: FileSystem, at: Path,
                           rest: Outcome<(seq<Attempt>, nat)>)
    requires NoDuplicates(listing) && listing != []
    requires Candidate(word, fs, listing[0]) && IsDir(fs, [word])
    requires MoveInto(fs, listing[0], word) == Success((fs2, at))
    requires GroupSound(word, fs2, listing[1..], rest)
    ensures forall a :: a in rest.report.0 ==>
      a.name in listing && a.name != listing[0] && AttemptSound(word, fs, rest.fs, a)
  {
    var n := listing[0];
    forall a | a in rest.report.0
      ensures a.name in listing && a.name != n && AttemptSound(word, fs, rest.fs, a)
    {
      assert a.name in listing[1..];
      var q := [a.name];
      assert q != at && q != [n];
      assert Agree(fs, fs2, q);
      var d1, d2 := [word, a.name], [word, a.name, a.name];
      assert d1 != at && d1 != [n] && Agree(fs, fs2, d1);
      assert d2 != at && d2 != [n] && Agree(fs, fs2, d2);
    }
  }

  /** The frame of the loop after a successful first move. */
  lemma MovedFrame(fs: FileSystem, fs2: FileSystem, n: Name, at: Path, fs3: FileSystem,
                   attempts: seq<Attempt>, all: seq<Attempt>)
    requires forall p :: p != [n] && p != at ==> Agree(fs, fs2, p)
    requires [n] !in fs2
    requires MovedFrom(all) == {[n]} + MovedFrom(attempts)
    requires MovedTo(all) == {at} + MovedTo(attempts)
    requires forall p :: p in fs2 && p !in MovedFrom(attempts) && p !in MovedTo(attempts) ==> p in fs3 && fs3[p] == fs2[p]
    requires forall p :: p in fs3 && p !in fs2 ==> p in MovedTo(attempts)
    ensures forall p :: p in fs && p !in MovedFrom(all) && p !in MovedTo(all) ==> p in fs3 && fs3[p] == fs[p]
    ensures forall p :: p in fs3 && p !in fs ==> p in MovedTo(all)
  {
    forall p | p in fs && p !in MovedFrom(all) && p !in MovedTo(all)
      ensures p in fs3 && fs3[p] == fs[p]
    {
      assert Agree(fs, fs2, p);
    }
    forall p | p in fs3 && p !in fs
      ensures p in MovedTo(all)
    {
      assert p != at ==> Agree(fs, fs2, p);
    }
  }

  /** With a listing that names no entry twice, the loop attempts exactly
      the candidates, in listing order. */
  lemma {:induction false} GroupFilesExact(word: Name, fs: FileSystem, listing: seq<Name>)
    requires IsDir(fs, [word]) && NoDuplicates(listing)
    ensures AttemptNames(GroupFiles(word, fs, listing).report.0) == Candidates(word, fs, listing)
    decreases |listing|
  {
    if listing != [] {
      var n := listing[0];
      var tail := listing[1..];
      assert NoDuplicates(tail);
      var attempts := GroupFiles(word, fs, listing).report.0;
      if !Candidate(word, fs, n) {
        GroupFilesExact(word, fs, tail);
      } else if MoveInto(fs, n, word).Failure? {
        GroupFilesExact(word, fs, tail);
        assert attempts == [Failed(n, MoveInto(fs, n, word).error)] + GroupFiles(word, fs, tail).report.0;
        assert AttemptNames(attempts) == [n] + AttemptNames(GroupFiles(word, fs, tail).report.0);
      } else {
        var (fs2, at) := MoveInto(fs, n, word).value;
        assert [n] != [word];
        GroupFilesExact(word, fs2, tail);
        forall x | x in tail
          ensures Candidate(word, fs2, x) == Candidate(word, fs, x)
        {
          assert x != n;
          assert [x] != at && [x] != [n];
          assert Agree(fs, fs2, [x]);
        }
        FilterCongruent(tail, x => Candidate(word, fs2, x), x => Candidate(word, fs, x));
        assert attempts == [Moved(n, at)] + GroupFiles(word, fs2, tail).report.0;
        assert AttemptNames(attempts) == [n] + AttemptNames(GroupFiles(word, fs2, tail).report.0);
      }
    }
  }

  /** An attempt judged against the tree right after `makedirs` is judged
      the same against the tree before it: creating the word's folder
      touches no path an attempt reads. */
  lemma AttemptBeforeFolder(word: Name, fs: FileSystem, fs1: FileSystem, fs': FileSystem, a: Attempt)
    requires MakeFolder(fs, word) == Success(fs1)
    requires AttemptSound(word, fs1, fs', a)
    ensures AttemptSound(word, fs, fs', a)
  {
    assert [a.name] != [word];
    assert Agree(fs, fs1, [a.name]);
    assert Agree(fs, fs1, [word, a.name]);
    assert Agree(fs, fs1, [word, a.name, a.name]);
  }

  /** `addSpecific` with a usable word: it creates the word's folder,
      attempts exactly the top-level files whose name contains the word, in
      listing order (the folder itself is no candidate), moves each into the
      folder unless that raises, and changes nothing else except that the
      folder may appear. */
  lemma AddSpecificGroups(sourceDir: string, keyword: string, fs: FileSystem, listing: seq<Name>)
    requires sourceDir != "" && ValidName(Strip(keyword))
    requires !IsFile(fs, [Strip(keyword)]) && NoDuplicates(listing)
    ensures var word := Strip(keyword);
      var r := AddSpecific(sourceDir, keyword, fs, listing);
      && r.report.Grouped? && r.report.word == word && IsDir(r.fs, [word])
      && AttemptNames(r.report.attempts) == Candidates(word, fs, listing)
      && (forall a :: a in r.report.attempts ==> AttemptSound(word, fs, r.fs, a))
      && (forall p :: p in fs && p !in MovedFrom(r.report.attempts) && p !in MovedTo(r.report.attempts)
            ==> p in r.fs && r.fs[p] == fs[p])
      && (forall p :: p in r.fs && p !in fs ==> p in MovedTo(r.report.attempts) || p == [word])
  {
    var word := Strip(keyword);
    var fs1 := MakeFolder(fs, word).value;
    assert !AllSpace(keyword);
    GroupFilesSound(word, fs1, listing);
    GroupFilesExact(word, fs1, listing);
    forall x | x in listing
      ensures Candidate(word, fs1, x) == Candidate(word, fs, x)
    {
      if x != word {
        assert [x] != [word];
        assert Agree(fs, fs1, [x]);
      }
    }
    FilterCongruent(listing, x => Candidate(word, fs1, x), x => Candidate(word, fs, x));
    var g := GroupFiles(word, fs1, listing);
    forall a | a in g.report.0
      ensures AttemptSound(word, fs, g.fs, a)
    {
      AttemptBeforeFolder(word, fs, fs1, g.fs, a);
    }
    forall p | p in fs && p !in MovedFrom(g.report.0) && p !in MovedTo(g.report.0)
      ensures p in g.fs && g.fs[p] == fs[p]
    {
      if p != [word] {
        assert Agree(fs, fs1, p);
      }
    }
    forall p | p in g.fs && p !in fs
      ensures p in MovedTo(g.report.0) || p == [word]
    {
      assert p != [word] ==> Agree(fs, fs1, p);
    }
  }
}
