/** Recreation of a missing branch of the tree: the drive, then the folders from the top down. */
module EnsurePath {
  import opened TreeStore
  import opened Wrappers

  /** The store after the call; `ok` is false when a creation was refused with 404. */
  datatype Outcome = Outcome(store: Store, ok: bool)

  /** The drive as it is created when it is missing. */
  function Bare(drive: Drive): Drive {
    drive.(metadata := "")
  }

  function EnsuredPath(s: Store, drive: Drive, folders: seq<Folder>): Outcome {
    if folders == [] then Outcome(EnsuredDrive(s, Bare(drive)), true)
    else
      var n := |folders| - 1;
      var last := folders[n];
      if last.folderId in s.folders then Outcome(s, true)
      else
        var above :=
          if n == 0 then Outcome(EnsuredDrive(s, Bare(drive)), true)
          else EnsuredPath(s, drive, folders[..n]);
        if !above.ok || GetParent(above.store, last.parentFolderId).None? then above.(ok := false)
        else Outcome(Create(above.store, OfFolder(last.folderId, last.parentFolderId, last.name, "", "")), true)
  }

  // ---------- The steps on the database ----------

  method EnsureDrive(db: TreeDb, drive: Drive)
    modifies db
    ensures db.State() == EnsuredDrive(old(db.State()), Bare(drive))
  {
    if drive.driveId !in db.drives {
      var created := db.CreateDrive(drive.groupId, drive.driveId, drive.name, "");
    }
  }

  method EnsurePath(db: TreeDb, drive: Drive, folders: seq<Folder>) returns (ok: bool)
    modifies db
    ensures Outcome(db.State(), ok) == EnsuredPath(old(db.State()), drive, folders)
    decreases |folders|
  {
    var n := |folders| - 1;
    if folders != [] {
      if folders[n].folderId in db.folders {
        return true;
      }
    } else {
      if drive.driveId in db.drives {
        return true;
      }
    }
    ok := true;
    if |folders| <= 1 {
      EnsureDrive(db, drive);
    } else {
      ok := EnsurePath(db, drive, folders[..n]);
    }
    if folders == [] || !ok {
      return;
    }
    var created := db.CreateFolder(folders[n].parentFolderId, folders[n].folderId, folders[n].name, "", "");
    ok := created.Some?;
  }

  // ---------- What the call guarantees ----------

  /** The path of a folder: each folder is the parent of the next, the first a child of the drive. */
  ghost predicate WellFormedPath(drive: Drive, folders: seq<Folder>) {
    && (folders != [] ==> folders[0].parentFolderId == drive.driveId)
    && (forall i :: 0 < i < |folders| ==> folders[i].parentFolderId == folders[i - 1].folderId)
    && (forall i, j :: 0 <= i < j < |folders| ==> folders[i].folderId != folders[j].folderId)
    && (forall f <- folders :: f.folderId != drive.driveId)
  }

  /** Path and store use an id for the same kind of entry, and for the same parent. */
  ghost predicate Agrees(s: Store, drive: Drive, folders: seq<Folder>) {
    && drive.driveId !in s.folders
    && (forall f <- folders :: f.folderId !in s.drives)
    && (forall f <- folders :: f.folderId in s.folders ==> s.folders[f.folderId].parentFolderId == f.parentFolderId)
  }

  /** The drive and all the folders of the path are there. */
  ghost predicate Present(s: Store, drive: Drive, folders: seq<Folder>) {
    drive.driveId in s.drives && forall f <- folders :: f.folderId in s.folders
  }

  /** The entries of `s'` that `s` lacks: the drive, and folders of the path as they are created. */
  ghost predicate OnlyAdds(s: Store, s': Store, drive: Drive, folders: seq<Folder>) {
    && (forall id <- s'.drives :: 
          id in s.drives || (id == drive.driveId && s'.drives[id] == Bare(drive)))
    && (forall id <- s'.folders :: id in s.folders || CreatedFor(s', drive, folders, id))
  }

  ghost predicate CreatedFor(s: Store, drive: Drive, folders: seq<Folder>, id: Id) {
    id in s.folders && drive.driveId in s.drives &&
    exists f <- folders :: f.folderId == id &&
      s.folders[id] == Folder(id, f.parentFolderId, s.drives[drive.driveId].groupId, drive.driveId, f.name, "", "")
  }

  lemma PathPrefix(s: Store, drive: Drive, folders: seq<Folder>, n: nat)
    requires n <= |folders| && WellFormedPath(drive, folders) && Agrees(s, drive, folders)
    ensures WellFormedPath(drive, folders[..n]) && Agrees(s, drive, folders[..n])
  {
    assert forall f <- folders[..n] :: f in folders;
  }

  /** In a forest a present folder of the path has the whole path above it. */
  lemma {:induction false} PresentAbove(s: Store, drive: Drive, folders: seq<Folder>)
    requires IsForest(s) && WellFormedPath(drive, folders) && Agrees(s, drive, folders)
    requires folders != [] && folders[|folders| - 1].folderId in s.folders
    ensures Present(s, drive, folders)
  {
    var n := |folders| - 1;
    var rank :| Ranked(s, rank);
    assert folders[n] in folders;
    assert WellPlaced(s, rank, folders[n].folderId);
    if n > 0 {
      assert folders[n - 1] in folders;
      PathPrefix(s, drive, folders, n);
      PresentAbove(s, drive, folders[..n]);
      assert folders == folders[..n] + [folders[n]];
    } else {
      assert folders == [folders[0]];
    }
  }

  /** A present path carries the drive's id and group down to its last folder. */
  lemma {:induction false} CarriesDownPath(s: Store, drive: Drive, folders: seq<Folder>, f: Folder)
    requires IsForest(s) && WellFormedPath(drive, folders) && Agrees(s, drive, folders) && Present(s, drive, folders)
    requires f in folders
    ensures s.folders[f.folderId].driveId == drive.driveId
    ensures s.folders[f.folderId].groupId == s.drives[drive.driveId].groupId
  {
    var n := |folders| - 1;
    if f == folders[n] {
      var rank :| Ranked(s, rank);
      assert WellPlaced(s, rank, f.folderId);
      if n > 0 {
        assert folders[n - 1] in folders;
        PathPrefix(s, drive, folders, n);
        assert folders[n - 1] in folders[..n];
        assert forall g <- folders[..n] :: g in folders;
        CarriesDownPath(s, drive, folders[..n], folders[n - 1]);
      }
    } else {
      assert f in folders[..n];
      assert forall g <- folders[..n] :: g in folders;
      PathPrefix(s, drive, folders, n);
      CarriesDownPath(s, drive, folders[..n], f);
    }
  }

  lemma DriveStep(s: Store, drive: Drive)
    requires IsForest(s) && drive.driveId !in s.folders
    ensures var s' := EnsuredDrive(s, Bare(drive));
      IsForest(s') && Extends(s, s') && Present(s', drive, []) && OnlyAdds(s, s', drive, []) && s'.folders == s.folders
  {
    if drive.driveId !in s.drives {
      CreationKeepsForest(s, OfDrive(drive.driveId, drive.groupId, drive.name, ""));
    }
  }

  /** Creating the last folder below a present path completes the path. */
  lemma FolderStep(s: Store, base: Store, drive: Drive, folders: seq<Folder>)
    requires folders != [] && WellFormedPath(drive, folders) && Agrees(s, drive, folders)
    requires var init := folders[..|folders| - 1];
      IsForest(base) && Extends(s, base) && Present(base, drive, init) && OnlyAdds(s, base, drive, init)
    requires folders[|folders| - 1].folderId !in s.folders
    ensures var last := folders[|folders| - 1];
      var s' := Create(base, OfFolder(last.folderId, last.parentFolderId, last.name, "", ""));
      && GetParent(base, last.parentFolderId).Some?
      && IsForest(s') && Extends(s, s') && Present(s', drive, folders) && OnlyAdds(s, s', drive, folders)
  {
    var n := |folders| - 1;
    var init, last := folders[..n], folders[n];
    var s' := Create(base, OfFolder(last.folderId, last.parentFolderId, last.name, "", ""));
    assert folders == init + [last];
    assert last in folders;
    LastIsFresh(s, base, drive, folders);
    CreationKeepsForest(base, OfFolder(last.folderId, last.parentFolderId, last.name, "", ""));
    ParentOfLast(s, base, drive, folders);
    forall id | id in s'.folders && id !in s.folders
      ensures CreatedFor(s', drive, folders, id)
    {
      if id != last.folderId {
        assert CreatedFor(base, drive, init, id);
        assert forall f <- init :: f in folders;
      }
    }
  }

  lemma LastIsFresh(s: Store, base: Store, drive: Drive, folders: seq<Folder>)
    requires folders != [] && WellFormedPath(drive, folders) && Agrees(s, drive, folders)
    requires OnlyAdds(s, base, drive, folders[..|folders| - 1])
    requires folders[|folders| - 1].folderId !in s.folders
    ensures Fresh(base, folders[|folders| - 1].folderId)
  {
    var n := |folders| - 1;
    var last := folders[n];
    assert last in folders;
    forall f | f in folders[..n]
      ensures f.folderId != last.folderId
    {
      var i :| 0 <= i < n && folders[i] == f;
    }
    assert !CreatedFor(base, drive, folders[..n], last.folderId);
  }

  /** The parent of the last folder is there and is in the drive and the group of the path. */
  lemma ParentOfLast(s: Store, base: Store, drive: Drive, folders: seq<Folder>)
    requires folders != [] && WellFormedPath(drive, folders) && Agrees(s, drive, folders)
    requires var init := folders[..|folders| - 1];
      IsForest(base) && Extends(s, base) && Present(base, drive, init) && OnlyAdds(s, base, drive, init)
    ensures GetParent(base, folders[|folders| - 1].parentFolderId) ==
            Some(Parent(base.drives[drive.driveId].groupId, drive.driveId))
  {
    var n := |folders| - 1;
    var init := folders[..n];
    AgreesLater(s, base, drive, folders);
    PathPrefix(base, drive, folders, n);
    if n > 0 {
      assert folders[n - 1] in init;
      CarriesDownPath(base, drive, init, folders[n - 1]);
    } else {
      var rank :| Ranked(base, rank);
    }
  }

  /** Completing the path above keeps path and store in agreement. */
  lemma AgreesLater(s: Store, base: Store, drive: Drive, folders: seq<Folder>)
    requires folders != [] && WellFormedPath(drive, folders) && Agrees(s, drive, folders)
    requires var init := folders[..|folders| - 1]; Extends(s, base) && OnlyAdds(s, base, drive, init)
    ensures Agrees(base, drive, folders)
  {
    var init := folders[..|folders| - 1];
    assert forall g <- init :: g in folders;
    forall f | f in folders && f.folderId in base.folders
      ensures base.folders[f.folderId].parentFolderId == f.parentFolderId
    {
      if f.folderId !in s.folders {
        assert CreatedFor(base, drive, init, f.folderId);
        var g :| g in init && g.folderId == f.folderId && base.folders[f.folderId].parentFolderId == g.parentFolderId;
        var i :| 0 <= i < |folders| && folders[i] == g;
        var j :| 0 <= j < |folders| && folders[j] == f;
        assert i == j;
      }
    }
    assert !CreatedFor(base, drive, init, drive.driveId);
  }

  /**
    From a forest that agrees with a well-formed path, the call succeeds: the drive and every folder
    of the path are there, the store is still a forest, no entry is changed, and what is added is
    exactly what the path was missing.
   */
  lemma {:induction false} PathIsEnsured(s: Store, drive: Drive, folders: seq<Folder>, r: Outcome)
    requires IsForest(s) && WellFormedPath(drive, folders) && Agrees(s, drive, folders)
    requires r == EnsuredPath(s, drive, folders)
    ensures r.ok && IsForest(r.store) && Extends(s, r.store)
    ensures Present(r.store, drive, folders) && OnlyAdds(s, r.store, drive, folders)
  {
    if folders == [] {
      DriveStep(s, drive);
    } else {
      var n := |folders| - 1;
      if folders[n].folderId in s.folders {
        PresentAbove(s, drive, folders);
      } else {
        PathPrefix(s, drive, folders, n);
        if n == 0 {
          DriveStep(s, drive);
          assert folders[..0] == [];
        } else {
          PathIsEnsured(s, drive, folders[..n], EnsuredPath(s, drive, folders[..n]));
        }
        var base := if n == 0 then EnsuredDrive(s, Bare(drive)) else EnsuredPath(s, drive, folders[..n]).store;
        FolderStep(s, base, drive, folders);
      }
    }
  }

  // ---------- Any store ----------

  /** The index of the last folder of the path that is there, or -1. */
  function DeepestPresent(s: Store, folders: seq<Folder>): (k: int)
    ensures -1 <= k < |folders|
    ensures k >= 0 ==> folders[k].folderId in s.folders
    ensures forall i :: k < i < |folders| ==> folders[i].folderId !in s.folders
  {
    if folders == [] then -1
    else
      var n := |folders| - 1;
      if folders[n].folderId in s.folders then n else DeepestPresent(s, folders[..n])
  }

  /** No folder of the path is there, or everything above the deepest one that is. */
  ghost predicate NothingMissingAbove(s: Store, drive: Drive, folders: seq<Folder>) {
    var k := DeepestPresent(s, folders);
    k >= 0 ==> Present(s, drive, folders[..k])
  }

  lemma PresentWithLast(s: Store, s': Store, drive: Drive, folders: seq<Folder>)
    requires folders != [] && s'.drives == s.drives && folders[|folders| - 1].folderId in s'.folders
    requires s'.folders.Keys == s.folders.Keys + {folders[|folders| - 1].folderId}
    requires forall f <- folders[..|folders| - 1] :: f.folderId != folders[|folders| - 1].folderId
    ensures Present(s', drive, folders) <==> Present(s, drive, folders[..|folders| - 1])
  {
    var n := |folders| - 1;
    assert forall f :: f in folders <==> f in folders[..n] || f == folders[n] by {
      assert folders == folders[..n] + [folders[n]];
    }
  }

  /**
    On any store the call on a well-formed path succeeds and changes no entry; it leaves the drive
    and the whole path there exactly when no folder of the path was there, or everything above the
    deepest one that was.
   */
  lemma {:induction false} PathIsEnsuredExactly(s: Store, drive: Drive, folders: seq<Folder>, r: Outcome)
    requires WellFormedPath(drive, folders) && r == EnsuredPath(s, drive, folders)
    ensures r.ok && Extends(s, r.store)
    ensures folders != [] ==> folders[|folders| - 1].folderId in r.store.folders
    ensures Present(r.store, drive, folders) <==> NothingMissingAbove(s, drive, folders)
  {
    if folders != [] {
      var n := |folders| - 1;
      var last, init := folders[n], folders[..n];
      PathInit(drive, folders);
      DeepestInit(s, drive, folders);
      if last.folderId in s.folders {
        PresentWithLast(s, s, drive, folders);
      } else {
        var above := if n == 0 then Outcome(EnsuredDrive(s, Bare(drive)), true) else EnsuredPath(s, drive, init);
        assert n == 0 ==> init == [];
        PathIsEnsuredExactly(s, drive, init, above);
        CreatedBelow(s, above.store, last, r.store);
        PresentWithLast(above.store, r.store, drive, folders);
      }
    }
  }

  lemma CreatedBelow(s: Store, above: Store, last: Folder, store: Store)
    requires Extends(s, above) && last.folderId !in s.folders && GetParent(above, last.parentFolderId).Some?
    requires store == Create(above, OfFolder(last.folderId, last.parentFolderId, last.name, "", ""))
    ensures Extends(s, store) && store.drives == above.drives &&
            store.folders.Keys == above.folders.Keys + {last.folderId}
  {
  }

  lemma PathInit(drive: Drive, folders: seq<Folder>)
    requires folders != [] && WellFormedPath(drive, folders)
    ensures WellFormedPath(drive, folders[..|folders| - 1])
    ensures forall f <- folders[..|folders| - 1] :: f.folderId != folders[|folders| - 1].folderId
  {
    var n := |folders| - 1;
    assert forall f <- folders[..n] :: f in folders;
    forall f | f in folders[..n]
      ensures f.folderId != folders[n].folderId
    {
      var i :| 0 <= i < n && folders[i] == f;
    }
  }

  lemma DeepestInit(s: Store, drive: Drive, folders: seq<Folder>)
    requires folders != []
    ensures var n := |folders| - 1;
      NothingMissingAbove(s, drive, folders) <==>
        if folders[n].folderId in s.folders then Present(s, drive, folders[..n])
        else NothingMissingAbove(s, drive, folders[..n])
  {
    var n := |folders| - 1;
    var k := DeepestPresent(s, folders[..n]);
    assert k >= 0 ==> folders[..k] == folders[..n][..k];
  }

  /** Stopping at a present last folder leaves whatever is missing above it missing. */
  lemma OrphanIsNotRepaired(s: Store, drive: Drive, folders: seq<Folder>)
    requires folders != [] && folders[|folders| - 1].folderId in s.folders && !Present(s, drive, folders)
    ensures EnsuredPath(s, drive, folders) == Outcome(s, true)
    ensures WellFormedPath(drive, folders) && Agrees(s, drive, folders) ==> !IsForest(s)
  {
    if IsForest(s) && WellFormedPath(drive, folders) && Agrees(s, drive, folders) {
      PresentAbove(s, drive, folders);
    }
  }

  /** An orphan: folder `b` of a store without drive and without its parent `a`. */
  lemma OrphanHappens() returns (s: Store, drive: Drive, folders: seq<Folder>)
    ensures WellFormedPath(drive, folders) && !NothingMissingAbove(s, drive, folders)
    ensures EnsuredPath(s, drive, folders) == Outcome(s, true) && !Present(s, drive, folders)
  {
    drive := Drive("d", "g", "", "");
    var a, b := Folder("a", "d", "g", "d", "", "", ""), Folder("b", "a", "g", "d", "", "", "");
    folders := [a, b];
    s := Store(map["b" := b], map[]);
    assert folders[1].folderId in s.folders && DeepestPresent(s, folders) == 1;
    assert drive.driveId !in s.drives;
  }
}
