/** `deleteDuplicates`: the top-level regular files are grouped by the digest
    of their content; in every group the first file is kept and the others
    are deleted. */
module Duplicates {
  import opened Basics
  import opened FileTree

  /** A scanned file and the hex digest of its content. */
  datatype Hashed = Hashed(name: Name, digest: string)

  /** One entry of `hash_to_files`: a digest and the files that have it, in
      the order they were scanned. */
  datatype Group = Group(digest: string, members: seq<Name>)

  /** The closing message: no file was deleted, or how many were. */
  datatype Summary = NoneFound | DeletedSome(count: nat)

  datatype Report =
    | NoDirectorySelected
    | Deleted(groups: seq<Group>, deleted: seq<Name>, summary: Summary)
    /** `os.remove` raised (there is no try/except around it): the files
        deleted so far stay deleted, the rest are not visited. */
    | Aborted(groups: seq<Group>, deleted: seq<Name>, error: FsError)

  function Names(entries: seq<Hashed>): seq<Name> {
    Map(entries, (e: Hashed) => e.name)
  }

  /** The first loop of `deleteDuplicates`: every listed entry that is a
      regular file, with the digest of its content, in listing order. */
  function Scan(fs: FileSystem, listing: seq<Name>, digest: Bytes -> string): (r: seq<Hashed>)
    ensures forall i :: 0 <= i < |r| ==>
      && r[i].name in listing && IsFile(fs, [r[i].name])
      && r[i].digest == digest(fs[[r[i].name]].content)
    decreases |listing|
  {
    if listing == [] then []
    else
      var n := listing[0];
      var rest := Scan(fs, listing[1..], digest);
      if IsFile(fs, [n]) then [Hashed(n, digest(fs[[n]].content))] + rest else rest
  }

  /** The scan visits exactly the listed regular files, in listing order. */
  lemma {:induction false} ScanNames(fs: FileSystem, listing: seq<Name>, digest: Bytes -> string)
    ensures Names(Scan(fs, listing, digest)) == Filter(listing, x => IsFile(fs, [x]))
    decreases |listing|
  {
    if listing != [] {
      ScanNames(fs, listing[1..], digest);
      var n := listing[0];
      var rest := Scan(fs, listing[1..], digest);
      if IsFile(fs, [n]) {
        assert Names([Hashed(n, digest(fs[[n]].content))] + rest) == [n] + Names(rest);
      }
    }
  }

  /** Index of the group for digest `d`, or `|groups|` when there is none. */
  function FindGroup(groups: seq<Group>, d: string): (r: nat)
    ensures r <= |groups|
    ensures r < |groups| ==> groups[r].digest == d
    ensures forall k :: 0 <= k < r ==> groups[k].digest != d
  {
    if groups == [] then 0
    else if groups[0].digest == d then 0
    else 1 + FindGroup(groups[1..], d)
  }

  /** One step of the scan loop: append the file to the list of its digest,
      or start a new list at the end of the dictionary. */
  function AddToGroups(groups: seq<Group>, h: Hashed): seq<Group> {
    var k := FindGroup(groups, h.digest);
    if k < |groups| then groups[k := Group(h.digest, groups[k].members + [h.name])]
    else groups + [Group(h.digest, [h.name])]
  }

  /** `hash_to_files` after the scan loop, in dictionary (insertion) order. */
  function GroupByDigest(entries: seq<Hashed>): seq<Group>
    decreases |entries|
  {
    if entries == [] then []
    else AddToGroups(GroupByDigest(entries[..|entries| - 1]), entries[|entries| - 1])
  }

  /** `files[1:]`. */
  function Tail(members: seq<Name>): seq<Name> {
    if members == [] then [] else members[1..]
  }

  /** The files the deletion loop visits: every group's members but the
      first, group after group. */
  function Victims(groups: seq<Group>): seq<Name> {
    if groups == [] then [] else Tail(groups[0].members) + Victims(groups[1..])
  }

  /** Some entry of `entries` has digest `d`. */
  predicate Seen(entries: seq<Hashed>, d: string) {
    exists j :: 0 <= j < |entries| && entries[j].digest == d
  }

  /** Entry `i` has the digest of an earlier entry. */
  predicate Shadowed(entries: seq<Hashed>, i: nat)
    requires i < |entries|
  {
    exists j :: 0 <= j < i && entries[j].digest == entries[i].digest
  }

  /** Reference definition of what should be deleted: the names of the
      entries whose digest an earlier entry already has, in scan order. */
  function Repeats(entries: seq<Hashed>): seq<Name>
    decreases |entries|
  {
    if entries == [] then []
    else
      var init := entries[..|entries| - 1];
      var last := entries[|entries| - 1];
      Repeats(init) + (if Seen(init, last.digest) then [last.name] else [])
  }

  /** Some group has digest `d`. */
  predicate HasGroup(groups: seq<Group>, d: string) {
    exists k :: 0 <= k < |groups| && groups[k].digest == d
  }

  lemma {:induction false} VictimsAppend(groups: seq<Group>, g: Group)
    ensures Victims(groups + [g]) == Victims(groups) + Tail(g.members)
  {
    if groups != [] {
      assert (groups + [g])[1..] == groups[1..] + [g];
      VictimsAppend(groups[1..], g);
    }
  }

  /** Appending `x` to a non-empty group adds `x` to the files to delete. */
  lemma {:induction false} VictimsGrow(groups: seq<Group>, k: nat, x: Name)
    requires k < |groups| && |groups[k].members| >= 1
    ensures var grown := groups[k := Group(groups[k].digest, groups[k].members + [x])];
      && multiset(Victims(grown)) == multiset(Victims(groups)) + multiset{x}
      && |Victims(grown)| == |Victims(groups)| + 1
  {
    var grown := groups[k := Group(groups[k].digest, groups[k].members + [x])];
    if k == 0 {
      assert grown[1..] == groups[1..];
      assert Tail(grown[0].members) == Tail(groups[0].members) + [x];
    } else {
      VictimsGrow(groups[1..], k - 1, x);
      assert grown[1..] == groups[1..][k - 1 := Group(groups[k].digest, groups[k].members + [x])];
    }
  }

  /** The relation between the scanned entries and `hash_to_files` that the
      scan loop keeps: no empty list, one group per digest seen, and the
      files beyond the first of each group are exactly the repeats. */
  ghost predicate GroupedBy(entries: seq<Hashed>, groups: seq<Group>) {
    && (forall k :: 0 <= k < |groups| ==> |groups[k].members| >= 1)
    && (forall k, l :: 0 <= k < l < |groups| ==> groups[k].digest != groups[l].digest)
    && (forall d :: Seen(entries, d) <==> HasGroup(groups, d))
    && multiset(Victims(groups)) == multiset(Repeats(entries))
    && |Victims(groups)| + |groups| == |entries|
  }

  lemma SeenSnoc(init: seq<Hashed>, last: Hashed, d: string)
    ensures Seen(init + [last], d) <==> Seen(init, d) || last.digest == d
  {
    if Seen(init, d) {
      var j :| 0 <= j < |init| && init[j].digest == d;
      assert (init + [last])[j] == init[j];
    }
    if last.digest == d {
      assert (init + [last])[|init|] == last;
    }
    if Seen(init + [last], d) && !Seen(init, d) {
      var j :| 0 <= j < |init| + 1 && (init + [last])[j].digest == d;
      assert j == |init|;
    }
  }

  lemma AddStep(init: seq<Hashed>, last: Hashed, groups: seq<Group>)
    requires GroupedBy(init, groups)
    ensures GroupedBy(init + [last], AddToGroups(groups, last))
  {
    var entries := init + [last];
    assert entries[..|entries| - 1] == init;
    forall d
      ensures Seen(entries, d) <==> Seen(init, d) || last.digest == d
    {
      SeenSnoc(init, last, d);
    }
    var k := FindGroup(groups, last.digest);
    if k < |groups| {
      assert Repeats(entries) == Repeats(init) + [last.name];
      AddToExisting(init, last, groups, k);
    } else {
      assert !HasGroup(groups, last.digest);
      assert Repeats(entries) == Repeats(init);
      AddNew(init, last, groups);
    }
  }

  lemma AddToExisting(init: seq<Hashed>, last: Hashed, groups: seq<Group>, k: nat)
    requires GroupedBy(init, groups)
    requires k < |groups| && groups[k].digest == last.digest
    requires forall d :: Seen(init + [last], d) <==> Seen(init, d) || last.digest == d
    requires Repeats(init + [last]) == Repeats(init) + [last.name]
    ensures GroupedBy(init + [last], AddToGroups(groups, last))
  {
    var g1 := AddToGroups(groups, last);
    assert FindGroup(groups, last.digest) == k;
    assert g1 == groups[k := Group(groups[k].digest, groups[k].members + [last.name])];
    VictimsGrow(groups, k, last.name);
    GrowKeepsDigests(groups, g1, k, last.name);
    assert HasGroup(groups, last.digest);
  }

  /** Growing one group keeps every digest, so every lookup by digest. */
  lemma GrowKeepsDigests(groups: seq<Group>, grown: seq<Group>, k: nat, x: Name)
    requires k < |groups|
    requires grown == groups[k := Group(groups[k].digest, groups[k].members + [x])]
    ensures forall j :: 0 <= j < |grown| ==> grown[j].digest == groups[j].digest
    ensures forall j :: 0 <= j < |grown| ==> |grown[j].members| >= |groups[j].members|
    ensures forall d :: HasGroup(grown, d) <==> HasGroup(groups, d)
  {
    forall d
      ensures HasGroup(grown, d) <==> HasGroup(groups, d)
    {
      if HasGroup(groups, d) {
        var j :| 0 <= j < |groups| && groups[j].digest == d;
        assert grown[j].digest == d;
      }
    }
  }

  lemma AddNew(init: seq<Hashed>, last: Hashed, groups: seq<Group>)
    requires GroupedBy(init, groups)
    requires !HasGroup(groups, last.digest)
    requires forall d :: Seen(init + [last], d) <==> Seen(init, d) || last.digest == d
    requires Repeats(init + [last]) == Repeats(init)
    ensures GroupedBy(init + [last], AddToGroups(groups, last))
  {
    var g := Group(last.digest, [last.name]);
    NewGroupAppended(groups, last);
    VictimsAppend(groups, g);
    AppendKeepsDigests(groups, g);
    AppendDistinct(groups, g);
  }

  /** A digest without a group gets a new one at the end. */
  lemma NewGroupAppended(groups: seq<Group>, h: Hashed)
    requires !HasGroup(groups, h.digest)
    ensures AddToGroups(groups, h) == groups + [Group(h.digest, [h.name])]
  {
  }

  /** A group with a new digest keeps the digests pairwise distinct. */
  lemma AppendDistinct(groups: seq<Group>, g: Group)
    requires forall k, l :: 0 <= k < l < |groups| ==> groups[k].digest != groups[l].digest
    requires !HasGroup(groups, g.digest)
    ensures var g1 := groups + [g];
      forall k, l :: 0 <= k < l < |g1| ==> g1[k].digest != g1[l].digest
  {
  }

  /** A new group at the end adds its digest to those already present. */
  lemma AppendKeepsDigests(groups: seq<Group>, g: Group)
    ensures forall d :: HasGroup(groups + [g], d) <==> HasGroup(groups, d) || g.digest == d
  {
    var g1 := groups + [g];
    forall d
      ensures HasGroup(g1, d) <==> HasGroup(groups, d) || g.digest == d
    {
      if HasGroup(groups, d) {
        var j :| 0 <= j < |groups| && groups[j].digest == d;
        assert g1[j].digest == d;
      }
      assert g1[|groups|].digest == g.digest;
    }
  }

  /** The scan loop builds `hash_to_files` so that its lists, beyond their
      first file, hold exactly the repeated files. */
  lemma {:induction false} GroupByDigestInvariant(entries: seq<Hashed>)
    ensures GroupedBy(entries, GroupByDigest(entries))
    decreases |entries|
  {
    if entries != [] {
      var init := entries[..|entries| - 1];
      GroupByDigestInvariant(init);
      assert init + [entries[|entries| - 1]] == entries;
      AddStep(init, entries[|entries| - 1], GroupByDigest(init));
    }
  }

  /** Reference definition of a group's contents: the names of the scanned
      files with digest `d`, in scan order. */
  function WithDigest(entries: seq<Hashed>, d: string): seq<Name>
    decreases |entries|
  {
    if entries == [] then []
    else
      var init := entries[..|entries| - 1];
      var last := entries[|entries| - 1];
      WithDigest(init, d) + (if last.digest == d then [last.name] else [])
  }

  /** A digest has no files exactly when no scanned file has it. */
  lemma {:induction false} WithDigestUnseen(entries: seq<Hashed>, d: string)
    ensures WithDigest(entries, d) == [] <==> !Seen(entries, d)
    decreases |entries|
  {
    if entries != [] {
      var init := entries[..|entries| - 1];
      WithDigestUnseen(init, d);
      SeenSnoc(init, entries[|entries| - 1], d);
      assert init + [entries[|entries| - 1]] == entries;
    }
  }

  /** The first file listed for a digest is a scanned file with that
      digest that no earlier file shadows. */
  lemma {:induction false} WithDigestFirst(entries: seq<Hashed>, d: string)
    requires WithDigest(entries, d) != []
    ensures exists i ::
      && 0 <= i < |entries| && entries[i].name == WithDigest(entries, d)[0]
      && entries[i].digest == d && !Shadowed(entries, i)
    decreases |entries|
  {
    var init := entries[..|entries| - 1];
    var last := entries[|entries| - 1];
    if WithDigest(init, d) != [] {
      WithDigestFirst(init, d);
      var i :| 0 <= i < |init| && init[i].name == WithDigest(init, d)[0]
        && init[i].digest == d && !Shadowed(init, i);
      assert entries[i] == init[i];
      assert !Shadowed(entries, i) by {
        forall j | 0 <= j < i
          ensures entries[j].digest != entries[i].digest
        {
          assert entries[j] == init[j];
        }
      }
    } else {
      WithDigestUnseen(init, d);
      var i := |entries| - 1;
      assert !Shadowed(entries, i) by {
        forall j | 0 <= j < i
          ensures entries[j].digest != d
        {
          assert entries[j] == init[j];
        }
      }
    }
  }

  /** Every group of `groups` holds exactly the files of its digest, in
      scan order. */
  ghost predicate MembersInScanOrder(entries: seq<Hashed>, groups: seq<Group>) {
    forall k :: 0 <= k < |groups| ==> groups[k].members == WithDigest(entries, groups[k].digest)
  }

  /** Each list of `hash_to_files` holds the files with its digest in the
      order the scan met them, so its first file, the one kept, is the
      first scanned file with that content digest. */
  lemma {:induction false} GroupMembers(entries: seq<Hashed>)
    ensures MembersInScanOrder(entries, GroupByDigest(entries))
    decreases |entries|
  {
    if entries != [] {
      var init := entries[..|entries| - 1];
      var last := entries[|entries| - 1];
      GroupMembers(init);
      GroupByDigestInvariant(init);
      var groups := GroupByDigest(init);
      var k := FindGroup(groups, last.digest);
      if k < |groups| {
        GrowMembers(entries, groups, k);
      } else {
        assert !HasGroup(groups, last.digest);
        NewMembers(entries, groups);
      }
    }
  }

  /** The step of `GroupMembers` for a digest that already has group `k`. */
  lemma GrowMembers(entries: seq<Hashed>, groups: seq<Group>, k: nat)
    requires entries != []
    requires GroupedBy(entries[..|entries| - 1], groups)
    requires MembersInScanOrder(entries[..|entries| - 1], groups)
    requires k < |groups| && groups[k].digest == entries[|entries| - 1].digest
    ensures MembersInScanOrder(entries, AddToGroups(groups, entries[|entries| - 1]))
  {
    var init := entries[..|entries| - 1];
    var last := entries[|entries| - 1];
    var g1 := AddToGroups(groups, last);
    assert FindGroup(groups, last.digest) == k;
    assert g1 == groups[k := Group(groups[k].digest, groups[k].members + [last.name])];
    forall j | 0 <= j < |g1|
      ensures g1[j].members == WithDigest(entries, g1[j].digest)
    {
      if j != k {
        assert groups[j].digest != groups[k].digest;
      }
    }
  }

  /** The step of `GroupMembers` for a digest seen for the first time. */
  lemma NewMembers(entries: seq<Hashed>, groups: seq<Group>)
    requires entries != []
    requires GroupedBy(entries[..|entries| - 1], groups)
    requires MembersInScanOrder(entries[..|entries| - 1], groups)
    requires !HasGroup(groups, entries[|entries| - 1].digest)
    ensures MembersInScanOrder(entries, AddToGroups(groups, entries[|entries| - 1]))
  {
    var init := entries[..|entries| - 1];
    var last := entries[|entries| - 1];
    NewGroupAppended(groups, last);
    var g1 := groups + [Group(last.digest, [last.name])];
    assert !Seen(init, last.digest);
    WithDigestUnseen(init, last.digest);
    forall j | 0 <= j < |g1|
      ensures g1[j].members == WithDigest(entries, g1[j].digest)
    {
      if j < |groups| {
        assert groups[j].digest != last.digest;
      }
    }
  }

  /** Appending an entry does not change whether earlier entries are
      shadowed; the new one is shadowed when its digest was seen. */
  lemma ShadowedSnoc(init: seq<Hashed>, last: Hashed)
    ensures forall i :: 0 <= i < |init| ==> (Shadowed(init + [last], i) <==> Shadowed(init, i))
    ensures Shadowed(init + [last], |init|) <==> Seen(init, last.digest)
  {
    var entries := init + [last];
    forall i | 0 <= i < |init|
      ensures Shadowed(entries, i) <==> Shadowed(init, i)
    {
      if Shadowed(entries, i) {
        var j :| 0 <= j < i && entries[j].digest == entries[i].digest;
        assert init[j].digest == init[i].digest;
      }
      if Shadowed(init, i) {
        var j :| 0 <= j < i && init[j].digest == init[i].digest;
        assert entries[j].digest == entries[i].digest;
      }
    }
    if Seen(init, last.digest) {
      var j :| 0 <= j < |init| && init[j].digest == last.digest;
      assert entries[j].digest == entries[|init|].digest;
    }
    if Shadowed(entries, |init|) {
      var j :| 0 <= j < |init| && entries[j].digest == entries[|init|].digest;
      assert init[j].digest == last.digest;
    }
  }

  /** The reference definition means what it says: a name is a repeat
      exactly when its entry has the digest of an earlier entry. */
  lemma {:induction false} RepeatsMeans(entries: seq<Hashed>)
    ensures forall x :: x in Repeats(entries) <==>
      exists i :: 0 <= i < |entries| && entries[i].name == x && Shadowed(entries, i)
    decreases |entries|
  {
    if entries != [] {
      var init := entries[..|entries| - 1];
      var last := entries[|entries| - 1];
      assert entries == init + [last];
      RepeatsMeans(init);
      ShadowedSnoc(init, last);
      forall x
        ensures x in Repeats(entries) <==>
          exists i :: 0 <= i < |entries| && entries[i].name == x && Shadowed(entries, i)
      {
        if exists i :: 0 <= i < |entries| && entries[i].name == x && Shadowed(entries, i) {
          var i :| 0 <= i < |entries| && entries[i].name == x && Shadowed(entries, i);
          if i < |init| {
            assert init[i].name == x && Shadowed(init, i);
          }
        }
        if x in Repeats(init) {
          var i :| 0 <= i < |init| && init[i].name == x && Shadowed(init, i);
          assert entries[i].name == x && Shadowed(entries, i);
        }
      }
    }
  }

  /** When no name is scanned twice, no repeat is listed twice. */
  lemma {:induction false} RepeatsDistinct(entries: seq<Hashed>)
    requires NoDuplicates(Names(entries))
    ensures NoDuplicates(Repeats(entries))
    decreases |entries|
  {
    if entries != [] {
      var init := entries[..|entries| - 1];
      var last := entries[|entries| - 1];
      assert forall i :: 0 <= i < |init| ==> Names(init)[i] == Names(entries)[i];
      assert NoDuplicates(Names(init));
      RepeatsDistinct(init);
      RepeatsMeans(init);
      forall i | 0 <= i < |init|
        ensures init[i].name != last.name
      {
        assert Names(entries)[i] != Names(entries)[|init|];
      }
      assert last.name !in Repeats(init);
      var r := Repeats(init) + (if Seen(init, last.digest) then [last.name] else []);
      assert Repeats(entries) == r;
      assert forall i :: 0 <= i < |Repeats(init)| ==> r[i] == Repeats(init)[i];
    }
  }

  /** Without duplicates, every element occurs at most once in the
      multiset. */
  lemma {:induction false} CountAtMostOne<T>(s: seq<T>, x: T)
    requires NoDuplicates(s)
    ensures multiset(s)[x] <= 1
  {
    if s != [] {
      assert s == [s[0]] + s[1..];
      assert NoDuplicates(s[1..]);
      CountAtMostOne(s[1..], x);
      if x == s[0] {
        assert x !in s[1..];
      }
    }
  }

  lemma TwoCopies<T>(t: seq<T>, i: nat, j: nat)
    requires i < j < |t| && t[i] == t[j]
    ensures multiset(t)[t[i]] >= 2
  {
    assert t == t[..j] + [t[j]] + t[j + 1..];
    assert t[i] in t[..j];
  }

  /** A permutation of a sequence without duplicates has none either. */
  lemma DistinctPermutation<T>(s: seq<T>, t: seq<T>)
    requires NoDuplicates(s) && multiset(s) == multiset(t)
    ensures NoDuplicates(t)
  {
    forall i, j | 0 <= i < j < |t|
      ensures t[i] != t[j]
    {
      CountAtMostOne(s, t[i]);
      if t[i] == t[j] {
        TwoCopies(t, i, j);
      }
    }
  }

  /** What the deletion loop leaves behind: the tree, the files removed in
      order, and the error that ended the loop early, if any. */
  datatype Removal = Removal(fs: FileSystem, deleted: seq<Name>, error: Option<FsError>)

  /** What a run of the deletion loop over `victims` guarantees: it removed
      a prefix of them, all of it only when nothing failed, each a distinct
      regular file that is now gone; nothing else changed; and it stopped at
      a victim that was no longer a regular file. */
  ghost predicate RemovedPrefix(fs: FileSystem, victims: seq<Name>, r: Removal) {
    && r.deleted <= victims
    && (r.error.None? <==> r.deleted == victims)
    && NoDuplicates(r.deleted)
    && (forall x :: x in r.deleted ==> IsFile(fs, [x]) && [x] !in r.fs)
    && (forall p :: Agree(fs, r.fs, p) || (|p| == 1 && p[0] in r.deleted))
    && (r.error.Some? ==>
      && |r.deleted| < |victims|
      && r.error.value == NotAFile([victims[|r.deleted|]])
      && (!IsFile(fs, [victims[|r.deleted|]]) || victims[|r.deleted|] in r.deleted))
  }

  /** The deletion loop: `os.remove` on each file in turn. Nothing catches
      an error, so the first failure ends the loop; files removed before it
      stay removed. */
  function RemoveAll(fs: FileSystem, victims: seq<Name>): (r: Removal)
    ensures RemovedPrefix(fs, victims, r)
    decreases |victims|
  {
    if victims == [] then Removal(fs, [], None)
    else
      var v := victims[0];
      match Remove(fs, [v])
      case Failure(e) => Removal(fs, [], Some(e))
      case Success(fs1) =>
        var rest := RemoveAll(fs1, victims[1..]);
        var r := Removal(rest.fs, [v] + rest.deleted, rest.error);
        RemoveStep(fs, fs1, victims, rest, r);
        r
  }

  lemma RemoveStep(fs: FileSystem, fs1: FileSystem, victims: seq<Name>, rest: Removal, r: Removal)
    requires victims != [] && Remove(fs, [victims[0]]) == Success(fs1)
    requires RemovedPrefix(fs1, victims[1..], rest)
    requires r == Removal(rest.fs, [victims[0]] + rest.deleted, rest.error)
    ensures RemovedPrefix(fs, victims, r)
  {
    var v := victims[0];
    assert victims == [v] + victims[1..];
    RemoveStepDeleted(fs, fs1, victims, rest);
    RemoveStepFrame(fs, fs1, victims, rest, r);
    if r.error.Some? {
      var k := |rest.deleted|;
      assert victims[|r.deleted|] == victims[1..][k];
      assert Agree(fs, fs1, [victims[1..][k]]) || victims[1..][k] == v;
    }
  }

  /** The files removed after the first victim were files before it went. */
  lemma RemoveStepDeleted(fs: FileSystem, fs1: FileSystem, victims: seq<Name>, rest: Removal)
    requires victims != [] && Remove(fs, [victims[0]]) == Success(fs1)
    requires RemovedPrefix(fs1, victims[1..], rest)
    ensures forall x :: x in rest.deleted ==> x != victims[0] && IsFile(fs, [x])
  {
    forall x | x in rest.deleted
      ensures x != victims[0] && IsFile(fs, [x])
    {
      assert IsFile(fs1, [x]);
      assert Agree(fs, fs1, [x]);
    }
  }

  /** Only the removed files differ between the tree before and after. */
  lemma RemoveStepFrame(fs: FileSystem, fs1: FileSystem, victims: seq<Name>, rest: Removal, r: Removal)
    requires victims != [] && Remove(fs, [victims[0]]) == Success(fs1)
    requires RemovedPrefix(fs1, victims[1..], rest)
    requires r == Removal(rest.fs, [victims[0]] + rest.deleted, rest.error)
    ensures forall p :: Agree(fs, r.fs, p) || (|p| == 1 && p[0] in r.deleted)
  {
    forall p
      ensures Agree(fs, r.fs, p) || (|p| == 1 && p[0] in r.deleted)
    {
      assert Agree(fs1, rest.fs, p) || (|p| == 1 && p[0] in rest.deleted);
      assert p == [victims[0]] || Agree(fs, fs1, p);
    }
  }

  /** Removing distinct regular files one by one never fails. */
  lemma RemoveAllDistinctFiles(fs: FileSystem, victims: seq<Name>)
    requires NoDuplicates(victims)
    requires forall v :: v in victims ==> IsFile(fs, [v])
    ensures RemoveAll(fs, victims).error.None?
  {
    var r := RemoveAll(fs, victims);
    var k := |r.deleted|;
    assert r.deleted == victims[..k];
  }

  /** `deleteDuplicates(source_dir)`: without a folder nothing happens;
      otherwise the scan groups the regular files by digest, the deletion
      loop removes every group member but the first, and the count of
      removed files is reported. */
  function DeleteDuplicates(sourceDir: string, fs: FileSystem, listing: seq<Name>, digest: Bytes -> string): (r: Outcome<Report>)
    ensures sourceDir == "" ==> r == Outcome(fs, NoDirectorySelected)
    ensures sourceDir != "" ==> r.report.Deleted? || r.report.Aborted?
    ensures r.report.Deleted? ==>
      && (r.report.summary.NoneFound? <==> r.report.deleted == [])
      && (r.report.summary.DeletedSome? ==> r.report.summary.count == |r.report.deleted|)
    ensures r.report.Deleted? || r.report.Aborted? ==>
      && r.report.deleted <= Victims(r.report.groups)
      && (forall x :: x in r.report.deleted ==> IsFile(fs, [x]) && [x] !in r.fs)
      && (forall p :: Agree(fs, r.fs, p) || (|p| == 1 && p[0] in r.report.deleted))
  {
    if sourceDir == "" then Outcome(fs, NoDirectorySelected)
    else
      var groups := GroupByDigest(Scan(fs, listing, digest));
      var removal := RemoveAll(fs, Victims(groups));
      match removal.error
      case Some(e) => Outcome(removal.fs, Aborted(groups, removal.deleted, e))
      case None =>
        var count := |removal.deleted|;
        Outcome(removal.fs, Deleted(groups, removal.deleted, if count == 0 then NoneFound else DeletedSome(count)))
  }

  /** A listed regular file is among the scanned entries. */
  lemma ScannedIndex(fs: FileSystem, listing: seq<Name>, digest: Bytes -> string, x: Name)
    requires x in listing && IsFile(fs, [x])
    ensures exists i :: 0 <= i < |Scan(fs, listing, digest)| && Scan(fs, listing, digest)[i].name == x
  {
    var entries := Scan(fs, listing, digest);
    ScanNames(fs, listing, digest);
    assert x in Names(entries);
    var i :| 0 <= i < |entries| && Names(entries)[i] == x;
  }

  /** Grouping turns distinct names into distinct victims, and the
      victims are the repeats. */
  lemma VictimsMatchRepeats(entries: seq<Hashed>, groups: seq<Group>)
    requires GroupedBy(entries, groups)
    requires NoDuplicates(Names(entries))
    ensures NoDuplicates(Victims(groups))
    ensures forall x :: x in Victims(groups) <==> x in Repeats(entries)
  {
    RepeatsDistinct(entries);
    DistinctPermutation(Repeats(entries), Victims(groups));
    forall x
      ensures x in Victims(groups) <==> x in Repeats(entries)
    {
      assert x in Victims(groups) <==> x in multiset(Victims(groups));
      assert x in Repeats(entries) <==> x in multiset(Repeats(entries));
    }
  }

  /** Every repeat of a scan is a regular file. */
  lemma RepeatsAreFiles(fs: FileSystem, listing: seq<Name>, digest: Bytes -> string)
    ensures forall x :: x in Repeats(Scan(fs, listing, digest)) ==> IsFile(fs, [x])
  {
    var entries := Scan(fs, listing, digest);
    RepeatsMeans(entries);
    forall x | x in Repeats(entries)
      ensures IsFile(fs, [x])
    {
      var i :| 0 <= i < |entries| && entries[i].name == x && Shadowed(entries, i);
    }
  }

  /** The victims of the scan of a duplicate-free listing are distinct
      regular files, and they are exactly the repeats. */
  lemma VictimsAreRepeats(fs: FileSystem, listing: seq<Name>, digest: Bytes -> string)
    requires NoDuplicates(listing)
    ensures var entries := Scan(fs, listing, digest);
      var victims := Victims(GroupByDigest(entries));
      && NoDuplicates(victims)
      && (forall x :: x in victims <==> x in Repeats(entries))
      && (forall x :: x in victims ==> IsFile(fs, [x]))
  {
    var entries := Scan(fs, listing, digest);
    GroupByDigestInvariant(entries);
    ScanNames(fs, listing, digest);
    FilterNoDuplicates(listing, x => IsFile(fs, [x]));
    VictimsMatchRepeats(entries, GroupByDigest(entries));
    RepeatsAreFiles(fs, listing, digest);
  }

  /** On a duplicate-free listing the deletion loop never fails: it
      removes every victim. */
  lemma DeleteDuplicatesCompletes(sourceDir: string, fs: FileSystem, listing: seq<Name>, digest: Bytes -> string)
    requires sourceDir != "" && NoDuplicates(listing)
    ensures var r := DeleteDuplicates(sourceDir, fs, listing, digest);
      var groups := GroupByDigest(Scan(fs, listing, digest));
      && r.report.Deleted?
      && r.report.groups == groups
      && r.report.deleted == Victims(groups)
  {
    VictimsAreRepeats(fs, listing, digest);
    RemoveAllDistinctFiles(fs, Victims(GroupByDigest(Scan(fs, listing, digest))));
  }

  /** What `deleteDuplicates` does on a duplicate-free listing: the files
      deleted are exactly the scanned files whose digest an earlier scanned
      file has; their number is the number of scanned files minus the
      number of distinct digests (the sum of `len(files) - 1` over the
      groups); "no duplicates" is reported exactly when no two scanned
      files share a digest; and the groups are non-empty, one per digest
      seen. */
  lemma {:induction false} DeleteDuplicatesSound(sourceDir: string, fs: FileSystem, listing: seq<Name>, digest: Bytes -> string)
    requires sourceDir != "" && NoDuplicates(listing)
    ensures var r := DeleteDuplicates(sourceDir, fs, listing, digest);
      var entries := Scan(fs, listing, digest);
      && r.report.Deleted?
      && (forall x :: x in r.report.deleted <==>
            exists i :: 0 <= i < |entries| && entries[i].name == x && Shadowed(entries, i))
      && |r.report.deleted| + |r.report.groups| == |entries|
      && (r.report.summary.NoneFound? <==> forall i :: 0 <= i < |entries| ==> !Shadowed(entries, i))
      && (forall k :: 0 <= k < |r.report.groups| ==> |r.report.groups[k].members| >= 1)
      && (forall k, l :: 0 <= k < l < |r.report.groups| ==> r.report.groups[k].digest != r.report.groups[l].digest)
      && (forall d :: Seen(entries, d) <==> HasGroup(r.report.groups, d))
  {
    var entries := Scan(fs, listing, digest);
    var groups := GroupByDigest(entries);
    var r := DeleteDuplicates(sourceDir, fs, listing, digest);
    DeleteDuplicatesCompletes(sourceDir, fs, listing, digest);
    GroupByDigestInvariant(entries);
    VictimsAreRepeats(fs, listing, digest);
    RepeatsMeans(entries);
    DeletedIffShadowed(entries, r.report.deleted);
  }

  /** A sequence with the members of `Repeats` is empty exactly when no
      entry is shadowed. */
  lemma DeletedIffShadowed(entries: seq<Hashed>, deleted: seq<Name>)
    requires forall x :: x in deleted <==>
      exists i :: 0 <= i < |entries| && entries[i].name == x && Shadowed(entries, i)
    ensures deleted == [] <==> forall i :: 0 <= i < |entries| ==> !Shadowed(entries, i)
  {
    if deleted != [] {
      assert deleted[0] in deleted;
    }
    if exists i :: 0 <= i < |entries| && Shadowed(entries, i) {
      var i :| 0 <= i < |entries| && Shadowed(entries, i);
      assert entries[i].name in deleted;
    }
  }

  /** Every digest has a first, unshadowed occurrence. */
  lemma {:induction false} FirstOccurrence(entries: seq<Hashed>, i: nat)
    requires i < |entries|
    ensures exists i0 :: 0 <= i0 <= i && entries[i0].digest == entries[i].digest && !Shadowed(entries, i0)
    decreases i
  {
    if Shadowed(entries, i) {
      var j :| 0 <= j < i && entries[j].digest == entries[i].digest;
      FirstOccurrence(entries, j);
    } else {
      assert entries[i].digest == entries[i].digest;
    }
  }

  /** A duplicate-free listing scans every file once. */
  lemma ScanDistinct(fs: FileSystem, listing: seq<Name>, digest: Bytes -> string)
    requires NoDuplicates(listing)
    ensures NoDuplicates(Names(Scan(fs, listing, digest)))
  {
    ScanNames(fs, listing, digest);
    FilterNoDuplicates(listing, x => IsFile(fs, [x]));
  }

  /** After `deleteDuplicates`, no two listed files that remain share a
      digest. */
  lemma SurvivorsHaveDistinctDigests(sourceDir: string, fs: FileSystem, listing: seq<Name>, digest: Bytes -> string)
    requires sourceDir != "" && NoDuplicates(listing)
    ensures var r := DeleteDuplicates(sourceDir, fs, listing, digest);
      forall x, y :: x in listing && y in listing && x != y && IsFile(r.fs, [x]) && IsFile(r.fs, [y]) ==>
        digest(r.fs[[x]].content) != digest(r.fs[[y]].content)
  {
    var r := DeleteDuplicates(sourceDir, fs, listing, digest);
    var entries := Scan(fs, listing, digest);
    DeleteDuplicatesSound(sourceDir, fs, listing, digest);
    forall x, y | x in listing && y in listing && x != y && IsFile(r.fs, [x]) && IsFile(r.fs, [y])
      ensures digest(r.fs[[x]].content) != digest(r.fs[[y]].content)
    {
      assert Agree(fs, r.fs, [x]) && Agree(fs, r.fs, [y]);
      ScannedIndex(fs, listing, digest, x);
      ScannedIndex(fs, listing, digest, y);
      var i :| 0 <= i < |entries| && entries[i].name == x;
      var j :| 0 <= j < |entries| && entries[j].name == y;
      assert !Shadowed(entries, i) && !Shadowed(entries, j);
      assert i < j ==> entries[i].digest != entries[j].digest;
      assert j < i ==> entries[j].digest != entries[i].digest;
    }
  }

  /** After `deleteDuplicates`, every digest a listed file had is still the
      digest of some listed file: only surplus copies go. */
  lemma EveryDigestSurvives(sourceDir: string, fs: FileSystem, listing: seq<Name>, digest: Bytes -> string)
    requires sourceDir != "" && NoDuplicates(listing)
    ensures var r := DeleteDuplicates(sourceDir, fs, listing, digest);
      forall x :: x in listing && IsFile(fs, [x]) ==>
        exists y :: y in listing && IsFile(r.fs, [y]) && digest(r.fs[[y]].content) == digest(fs[[x]].content)
  {
    var r := DeleteDuplicates(sourceDir, fs, listing, digest);
    var entries := Scan(fs, listing, digest);
    DeleteDuplicatesSound(sourceDir, fs, listing, digest);
    ScanDistinct(fs, listing, digest);
    forall x | x in listing && IsFile(fs, [x])
      ensures exists y :: y in listing && IsFile(r.fs, [y]) && digest(r.fs[[y]].content) == digest(fs[[x]].content)
    {
      ScannedIndex(fs, listing, digest, x);
      var i :| 0 <= i < |entries| && entries[i].name == x;
      FirstOccurrence(entries, i);
      var i0 :| 0 <= i0 <= i && entries[i0].digest == entries[i].digest && !Shadowed(entries, i0);
      var y := entries[i0].name;
      forall k | 0 <= k < |entries| && entries[k].name == y
        ensures !Shadowed(entries, k)
      {
        assert Names(entries)[k] == Names(entries)[i0];
      }
      assert y !in r.report.deleted;
      assert Agree(fs, r.fs, [y]);
    }
  }

  /** With a digest that tells different contents apart, every content a
      listed file had is still held by a listed file afterwards. */
  lemma EveryContentSurvives(sourceDir: string, fs: FileSystem, listing: seq<Name>, digest: Bytes -> string)
    requires sourceDir != "" && NoDuplicates(listing)
    requires forall a, b :: digest(a) == digest(b) ==> a == b
    ensures var r := DeleteDuplicates(sourceDir, fs, listing, digest);
      forall x :: x in listing && IsFile(fs, [x]) ==>
        exists y :: y in listing && IsFile(r.fs, [y]) && r.fs[[y]] == fs[[x]]
  {
    var r := DeleteDuplicates(sourceDir, fs, listing, digest);
    EveryDigestSurvives(sourceDir, fs, listing, digest);
    forall x | x in listing && IsFile(fs, [x])
      ensures exists y :: y in listing && IsFile(r.fs, [y]) && r.fs[[y]] == fs[[x]]
    {
      var y :| y in listing && IsFile(r.fs, [y]) && digest(r.fs[[y]].content) == digest(fs[[x]].content);
      assert r.fs[[y]].content == fs[[x]].content;
    }
  }

  /** `deleteDuplicates` on a duplicate-free listing: each list of
      `hash_to_files` holds the files with its digest in scan order, and
      its first file, the first scanned file with that digest, is kept
      unchanged. */
  lemma KeepsFirstOfEachGroup(sourceDir: string, fs: FileSystem, listing: seq<Name>, digest: Bytes -> string)
    requires sourceDir != "" && NoDuplicates(listing)
    ensures var r := DeleteDuplicates(sourceDir, fs, listing, digest);
      var entries := Scan(fs, listing, digest);
      forall k :: 0 <= k < |r.report.groups| ==>
        && r.report.groups[k].members == WithDigest(entries, r.report.groups[k].digest)
        && r.report.groups[k].members != []
        && r.report.groups[k].members[0] !in r.report.deleted
        && Agree(fs, r.fs, [r.report.groups[k].members[0]])
  {
    var r := DeleteDuplicates(sourceDir, fs, listing, digest);
    var entries := Scan(fs, listing, digest);
    DeleteDuplicatesCompletes(sourceDir, fs, listing, digest);
    DeleteDuplicatesSound(sourceDir, fs, listing, digest);
    GroupMembers(entries);
    ScanDistinct(fs, listing, digest);
    forall k | 0 <= k < |r.report.groups|
      ensures r.report.groups[k].members[0] !in r.report.deleted
    {
      var g := r.report.groups[k];
      WithDigestFirst(entries, g.digest);
      var i :| 0 <= i < |entries| && entries[i].name == g.members[0]
        && entries[i].digest == g.digest && !Shadowed(entries, i);
      forall l | 0 <= l < |entries| && entries[l].name == g.members[0]
        ensures !Shadowed(entries, l)
      {
        assert Names(entries)[l] == Names(entries)[i];
      }
    }
  }
}
