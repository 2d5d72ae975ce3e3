/**
  The tree database: drives, and folders that name their parent. Created with fresh ids, the
  folders form a forest rooted at the drives.
 */
module TreeStore {
  import opened Wrappers

  type Id = string

  datatype Drive = Drive(driveId: Id, groupId: string, name: string, metadata: string)

  datatype Folder = Folder(
    folderId: Id, parentFolderId: Id, groupId: string, driveId: Id, name: string, kind: string, metadata: string)

  datatype Store = Store(folders: map<Id, Folder>, drives: map<Id, Drive>)

  /** What a creation reads of its parent, folder or drive. */
  datatype Parent = Parent(groupId: string, driveId: Id)

  /** `None` is the answer 404. A folder is preferred to a drive of the same id. */
  function GetParent(s: Store, id: Id): Option<Parent> {
    if id in s.folders then Some(Parent(s.folders[id].groupId, s.folders[id].driveId))
    else if id in s.drives then Some(Parent(s.drives[id].groupId, s.drives[id].driveId))
    else None
  }

  function NewFolder(parentId: Id, parent: Parent, id: Id, name: string, kind: string, metadata: string): Folder {
    Folder(id, parentId, parent.groupId, parent.driveId, name, kind, metadata)
  }

  function WithFolder(s: Store, f: Folder): Store {
    s.(folders := s.folders[f.folderId := f])
  }

  function WithDrive(s: Store, d: Drive): Store {
    s.(drives := s.drives[d.driveId := d])
  }

  /** The creation steps; `id` is the id asked for or a new one. */
  datatype Creation =
    | OfDrive(id: Id, groupId: string, name: string, metadata: string)
    | OfFolder(id: Id, parentId: Id, name: string, kind: string, metadata: string)

  /** A folder without parent is refused with 404 and changes nothing. */
  function Create(s: Store, c: Creation): Store {
    match c
    case OfDrive(id, groupId, name, metadata) => WithDrive(s, Drive(id, groupId, name, metadata))
    case OfFolder(id, parentId, name, kind, metadata) =>
      match GetParent(s, parentId)
      case Some(parent) => WithFolder(s, NewFolder(parentId, parent, id, name, kind, metadata))
      case None => s
  }

  /** A drive is created only if its id is not there. */
  function EnsuredDrive(s: Store, d: Drive): Store {
    if d.driveId in s.drives then s else WithDrive(s, d)
  }

  /** What a creation writes, field by field: the entry asked for, with group and drive of the parent. */
  lemma CreatedAsAsked(s: Store, c: Creation)
    ensures c.OfDrive? ==>
      Create(s, c) == s.(drives := s.drives[c.id := Drive(c.id, c.groupId, c.name, c.metadata)])
    ensures c.OfFolder? && c.parentId !in s.folders && c.parentId !in s.drives ==> Create(s, c) == s
    ensures c.OfFolder? && c.parentId in s.folders ==>
      var above := s.folders[c.parentId];
      Create(s, c) == s.(folders := s.folders[c.id :=
        Folder(c.id, c.parentId, above.groupId, above.driveId, c.name, c.kind, c.metadata)])
    ensures c.OfFolder? && c.parentId !in s.folders && c.parentId in s.drives ==>
      var above := s.drives[c.parentId];
      Create(s, c) == s.(folders := s.folders[c.id :=
        Folder(c.id, c.parentId, above.groupId, above.driveId, c.name, c.kind, c.metadata)])
  {
  }

  // ---------- Forests ----------

  /** The folder stands under a drive or a folder of smaller rank, whose drive and group it carries. */
  ghost predicate WellPlaced(s: Store, rank: map<Id, nat>, id: Id)
    requires id in s.folders
  {
    var f := s.folders[id];
    && f.folderId == id && id in rank && id !in s.drives
    && if f.parentFolderId in s.drives
       then f.driveId == f.parentFolderId && f.groupId == s.drives[f.parentFolderId].groupId
       else
         && f.parentFolderId in s.folders && f.parentFolderId in rank && rank[f.parentFolderId] < rank[id]
         && f.driveId == s.folders[f.parentFolderId].driveId && f.groupId == s.folders[f.parentFolderId].groupId
  }

  ghost predicate Ranked(s: Store, rank: map<Id, nat>) {
    && (forall id <- s.drives :: s.drives[id].driveId == id)
    && (forall id {:trigger WellPlaced(s, rank, id)} :: id in s.folders ==> WellPlaced(s, rank, id))
  }

  ghost predicate IsForest(s: Store) {
    exists rank :: Ranked(s, rank)
  }

  ghost predicate Fresh(s: Store, id: Id) {
    id !in s.folders && id !in s.drives
  }

  /** In a forest every folder carries the id and the group of a drive that exists. */
  lemma {:induction false} CarriesItsDrive(s: Store, rank: map<Id, nat>, id: Id)
    requires Ranked(s, rank) && id in s.folders
    ensures s.folders[id].driveId in s.drives
    ensures s.folders[id].groupId == s.drives[s.folders[id].driveId].groupId
    ensures id in rank
    decreases if id in rank then rank[id] else 0
  {
    assert WellPlaced(s, rank, id);
    var f := s.folders[id];
    if f.parentFolderId !in s.drives {
      CarriesItsDrive(s, rank, f.parentFolderId);
    }
  }

  /** No entry of `s` is changed or lost. */
  ghost predicate Extends(s: Store, s': Store) {
    && (forall id <- s.folders :: id in s'.folders && s'.folders[id] == s.folders[id])
    && (forall id <- s.drives :: id in s'.drives && s'.drives[id] == s.drives[id])
  }

  lemma DriveKeepsRanks(s: Store, rank: map<Id, nat>, d: Drive)
    requires Ranked(s, rank) && Fresh(s, d.driveId)
    ensures Ranked(WithDrive(s, d), rank)
  {
    var s' := WithDrive(s, d);
    forall i | i in s'.folders
      ensures WellPlaced(s', rank, i)
    {
      assert WellPlaced(s, rank, i);
    }
  }

  lemma FolderKeepsRanks(s: Store, rank: map<Id, nat>, parentId: Id, f: Folder) returns (rank': map<Id, nat>)
    requires Ranked(s, rank) && Fresh(s, f.folderId) && GetParent(s, parentId).Some?
    requires f == NewFolder(parentId, GetParent(s, parentId).value, f.folderId, f.name, f.kind, f.metadata)
    ensures Ranked(WithFolder(s, f), rank')
  {
    var s' := WithFolder(s, f);
    if parentId in s.folders {
      assert WellPlaced(s, rank, parentId);
    }
    rank' := rank[f.folderId := if parentId in s.folders then rank[parentId] + 1 else 0];
    forall i | i in s'.folders
      ensures WellPlaced(s', rank', i)
    {
      if i != f.folderId {
        assert WellPlaced(s, rank, i);
      }
    }
  }

  /** A step that uses a fresh id keeps the store a forest, and keeps its entries. */
  lemma CreationKeepsForest(s: Store, c: Creation)
    requires IsForest(s) && Fresh(s, c.id)
    ensures IsForest(Create(s, c)) && Extends(s, Create(s, c))
  {
    var rank :| Ranked(s, rank);
    match c
    case OfDrive(id, groupId, name, metadata) =>
      DriveKeepsRanks(s, rank, Drive(id, groupId, name, metadata));
    case OfFolder(id, parentId, name, kind, metadata) =>
      if GetParent(s, parentId).Some? {
        var f := NewFolder(parentId, GetParent(s, parentId).value, id, name, kind, metadata);
        var rank' := FolderKeepsRanks(s, rank, parentId, f);
      }
  }

  function Play(s: Store, run: seq<Creation>): Store {
    if run == [] then s else Create(Play(s, run[..|run| - 1]), run[|run| - 1])
  }

  /** Every step of the run uses an id no entry has at that moment. */
  ghost predicate FreshRun(s: Store, run: seq<Creation>) {
    forall i :: 0 <= i < |run| ==> Fresh(Play(s, run[..i]), run[i].id)
  }

  /** Every run of creations with fresh ids, from a forest, leaves a forest that extends it. */
  lemma {:induction false} RunsKeepForests(s: Store, run: seq<Creation>)
    requires IsForest(s) && FreshRun(s, run)
    ensures IsForest(Play(s, run)) && Extends(s, Play(s, run))
  {
    if run != [] {
      var n := |run| - 1;
      var init := run[..n];
      InitIsFresh(s, run);
      RunsKeepForests(s, init);
      CreationKeepsForest(Play(s, init), run[n]);
    }
  }

  /** In the end every entry asked for is there, but for folders whose parent was missing when asked. */
  lemma {:induction false} RunCreates(s: Store, run: seq<Creation>, i: nat)
    requires IsForest(s) && FreshRun(s, run) && i < |run|
    ensures run[i].OfDrive? ==>
      run[i].id in Play(s, run).drives &&
      Play(s, run).drives[run[i].id] == Drive(run[i].id, run[i].groupId, run[i].name, run[i].metadata)
    ensures run[i].OfFolder? && GetParent(Play(s, run[..i]), run[i].parentId).Some? ==>
      var above := GetParent(Play(s, run[..i]), run[i].parentId).value;
      run[i].id in Play(s, run).folders && Play(s, run).folders[run[i].id] == Folder(
        run[i].id, run[i].parentId, above.groupId, above.driveId, run[i].name, run[i].kind, run[i].metadata)
  {
    var n := |run| - 1;
    var init := run[..n];
    InitIsFresh(s, run);
    RunsKeepForests(s, init);
    CreationKeepsForest(Play(s, init), run[n]);
    if i < n {
      RunCreates(s, init, i);
      assert init[..i] == run[..i] && init[i] == run[i];
    }
  }

  lemma InitIsFresh(s: Store, run: seq<Creation>)
    requires FreshRun(s, run) && run != []
    ensures FreshRun(s, run[..|run| - 1])
  {
    var n := |run| - 1;
    forall i | 0 <= i < n
      ensures Fresh(Play(s, run[..n][..i]), run[..n][i].id)
    {
      assert run[..n][..i] == run[..i];
    }
  }

  /** Freshness is needed: creating a folder again under its own child closes a loop. */
  lemma RecreationCanLoop(s: Store, a: Id, b: Id, name: string)
    requires IsForest(s) && a in s.folders && b in s.folders && s.folders[b].parentFolderId == a
    ensures !IsForest(Create(s, OfFolder(a, b, name, "", "")))
  {
    var s' := Create(s, OfFolder(a, b, name, "", ""));
    forall rank
      ensures !Ranked(s', rank)
    {
      assert !(WellPlaced(s', rank, a) && WellPlaced(s', rank, b));
    }
  }

  // ---------- Creating a folder again ----------

  /** The folder `a` is `id` or stands above it. */
  ghost predicate Below(s: Store, rank: map<Id, nat>, id: Id, a: Id)
    requires Ranked(s, rank)
    decreases if id in rank then rank[id] else 0
  {
    && id in s.folders
    && assert WellPlaced(s, rank, id);
       (id == a || (s.folders[id].parentFolderId !in s.drives && Below(s, rank, s.folders[id].parentFolderId, a)))
  }

  ghost predicate HasChild(s: Store, a: Id) {
    exists id <- s.folders :: s.folders[id].parentFolderId == a
  }

  /** The folder can be created again under the parent: not under itself, and its children keep their drive. */
  ghost predicate CanMove(s: Store, rank: map<Id, nat>, a: Id, parentId: Id)
    requires Ranked(s, rank) && a in s.folders && GetParent(s, parentId).Some?
  {
    && !Below(s, rank, parentId, a)
    && (HasChild(s, a) ==> GetParent(s, parentId).value == Parent(s.folders[a].groupId, s.folders[a].driveId))
  }

  /** Two stores that differ in the folder `a` only. */
  ghost predicate SameBut(s: Store, s': Store, a: Id) {
    && s'.drives == s.drives && s'.folders.Keys == s.folders.Keys
    && forall id <- s.folders :: id != a ==> s'.folders[id] == s.folders[id]
  }

  /** Whatever stood below `a` still stands below it, in any ranking of the new store. */
  lemma {:induction false} BelowStays(s: Store, rank: map<Id, nat>, s': Store, rank': map<Id, nat>, x: Id, a: Id)
    requires Ranked(s, rank) && Ranked(s', rank') && SameBut(s, s', a) && Below(s, rank, x, a)
    ensures a in rank' && x in rank' && rank'[a] <= rank'[x]
    decreases if x in rank then rank[x] else 0
  {
    assert WellPlaced(s, rank, x) && WellPlaced(s', rank', x);
    if x != a {
      BelowStays(s, rank, s', rank', s.folders[x].parentFolderId, a);
    }
  }

  lemma ForestNeedsMove(s: Store, rank: map<Id, nat>, s': Store, rank': map<Id, nat>, a: Id, parentId: Id)
    requires Ranked(s, rank) && a in s.folders && GetParent(s, parentId).Some? && SameBut(s, s', a) && Ranked(s', rank')
    requires s'.folders[a].parentFolderId == parentId
    requires Parent(s'.folders[a].groupId, s'.folders[a].driveId) == GetParent(s, parentId).value
    ensures CanMove(s, rank, a, parentId)
  {
    assert WellPlaced(s, rank, a) && WellPlaced(s', rank', a);
    if Below(s, rank, parentId, a) {
      assert WellPlaced(s, rank, parentId);
      BelowStays(s, rank, s', rank', parentId, a);
    }
    if HasChild(s, a) {
      var x :| x in s.folders && s.folders[x].parentFolderId == a;
      assert WellPlaced(s, rank, x) && WellPlaced(s', rank', x);
    }
  }

  /** The ranks after the move: what stands below `a` goes above the new parent. */
  ghost function MovedRanks(s: Store, rank: map<Id, nat>, a: Id, parentId: Id): map<Id, nat>
    requires Ranked(s, rank)
  {
    var more := if parentId in rank then rank[parentId] + 1 else 1;
    map id | id in rank :: if Below(s, rank, id, a) then rank[id] + more else rank[id]
  }

  /** The move of `a` under the parent, as a store that differs in `a` only. */
  ghost predicate IsMove(s: Store, rank: map<Id, nat>, s': Store, a: Id, parentId: Id) {
    && Ranked(s, rank) && a in s.folders && GetParent(s, parentId).Some? && SameBut(s, s', a)
    && s'.folders[a].folderId == a && s'.folders[a].parentFolderId == parentId
    && Parent(s'.folders[a].groupId, s'.folders[a].driveId) == GetParent(s, parentId).value
    && CanMove(s, rank, a, parentId)
  }

  lemma MovedIsPlaced(s: Store, rank: map<Id, nat>, s': Store, a: Id, parentId: Id)
    requires IsMove(s, rank, s', a, parentId)
    ensures WellPlaced(s', MovedRanks(s, rank, a, parentId), a)
  {
    assert WellPlaced(s, rank, a);
    assert Below(s, rank, a, a);
    assert parentId in s.folders ==> WellPlaced(s, rank, parentId);
  }

  lemma OtherIsPlaced(s: Store, rank: map<Id, nat>, s': Store, a: Id, parentId: Id, id: Id)
    requires IsMove(s, rank, s', a, parentId) && id in s.folders && id != a
    ensures WellPlaced(s', MovedRanks(s, rank, a, parentId), id)
  {
    var q := s.folders[id].parentFolderId;
    assert WellPlaced(s, rank, id);
    if q !in s.drives {
      assert Below(s, rank, id, a) <==> Below(s, rank, q, a);
      assert q == a ==> HasChild(s, a);
    }
  }

  lemma MoveKeepsForest(s: Store, rank: map<Id, nat>, s': Store, a: Id, parentId: Id)
    requires IsMove(s, rank, s', a, parentId)
    ensures Ranked(s', MovedRanks(s, rank, a, parentId))
  {
    forall id | id in s'.folders
      ensures WellPlaced(s', MovedRanks(s, rank, a, parentId), id)
    {
      AnyIsPlaced(s, rank, s', a, parentId, id);
    }
  }

  lemma AnyIsPlaced(s: Store, rank: map<Id, nat>, s': Store, a: Id, parentId: Id, id: Id)
    requires IsMove(s, rank, s', a, parentId) && id in s'.folders
    ensures WellPlaced(s', MovedRanks(s, rank, a, parentId), id)
  {
    if id == a {
      MovedIsPlaced(s, rank, s', a, parentId);
    } else {
      OtherIsPlaced(s, rank, s', a, parentId, id);
    }
  }

  /**
    Creating an existing folder of a forest again leaves a forest exactly when the parent is missing,
    or is neither the folder nor below it and has the drive and group of the folder's children.
   */
  lemma RecreationKeepsForest(s: Store, rank: map<Id, nat>, c: Creation)
    requires Ranked(s, rank) && c.OfFolder? && c.id in s.folders
    ensures IsForest(Create(s, c)) <==> GetParent(s, c.parentId).None? || CanMove(s, rank, c.id, c.parentId)
  {
    var s' := Create(s, c);
    if GetParent(s, c.parentId).Some? {
      assert SameBut(s, s', c.id);
      if IsForest(s') {
        var rank' :| Ranked(s', rank');
        ForestNeedsMove(s, rank, s', rank', c.id, c.parentId);
      }
      if CanMove(s, rank, c.id, c.parentId) {
        MoveKeepsForest(s, rank, s', c.id, c.parentId);
      }
    }
  }

  // ---------- The way up ----------

  /**
    The folders from the drive's child down to `id`, each the parent of the next, none twice, all
    of one drive and one group.
   */
  ghost predicate IsPath(s: Store, path: seq<Folder>, id: Id) {
    && |path| > 0 && id in s.folders && path[|path| - 1] == s.folders[id]
    && path[0].parentFolderId == path[0].driveId && path[0].driveId in s.drives
    && (forall i :: 0 <= i < |path| ==> path[i].folderId in s.folders && s.folders[path[i].folderId] == path[i])
    && (forall i :: 0 < i < |path| ==> path[i].parentFolderId == path[i - 1].folderId)
    && (forall i, j :: 0 <= i < j < |path| ==> path[i].folderId != path[j].folderId)
    && (forall i :: 0 <= i < |path| ==>
          path[i].driveId == path[0].driveId && path[i].groupId == s.drives[path[0].driveId].groupId)
  }

  /** A path of more than one folder starts with the path to the parent. */
  lemma ParentPath(s: Store, path: seq<Folder>, id: Id)
    requires IsPath(s, path, id) && |path| > 1
    ensures s.folders[id].parentFolderId in s.folders
    ensures IsPath(s, path[..|path| - 1], s.folders[id].parentFolderId)
  {
    var n := |path| - 1;
    assert path[n].parentFolderId == path[n - 1].folderId;
    assert s.folders[path[n - 1].folderId] == path[n - 1];
  }

  /** Two paths to the same folder are the same path. */
  lemma {:induction false} PathIsUnique(s: Store, a: seq<Folder>, b: seq<Folder>, id: Id)
    requires IsForest(s) && IsPath(s, a, id) && IsPath(s, b, id)
    ensures a == b
    decreases |a|
  {
    var f := s.folders[id];
    if |a| > 1 && |b| > 1 {
      ParentPath(s, a, id);
      ParentPath(s, b, id);
      PathIsUnique(s, a[..|a| - 1], b[..|b| - 1], f.parentFolderId);
      assert a == a[..|a| - 1] + [f] && b == b[..|b| - 1] + [f];
    } else {
      ShortPath(s, a, id);
      ShortPath(s, b, id);
      assert a == [f] && b == [f];
    }
  }

  /** The path is the folder alone exactly for a child of a drive. */
  lemma ShortPath(s: Store, path: seq<Folder>, id: Id)
    requires IsForest(s) && IsPath(s, path, id)
    ensures |path| == 1 <==> s.folders[id].parentFolderId in s.drives
  {
    if |path| > 1 {
      var rank :| Ranked(s, rank);
      ParentPath(s, path, id);
      assert WellPlaced(s, rank, s.folders[id].parentFolderId);
    }
  }

  class TreeDb {
    var folders: map<Id, Folder>
    var drives: map<Id, Drive>

    function State(): Store
      reads this
    {
      Store(folders, drives)
    }

    constructor (s: Store)
      ensures State() == s
    {
      folders, drives := s.folders, s.drives;
    }

    method CreateDrive(groupId: string, id: Id, name: string, metadata: string) returns (drive: Drive)
      modifies this
      ensures State() == Create(old(State()), OfDrive(id, groupId, name, metadata))
      ensures drive == Drive(id, groupId, name, metadata)
    {
      drive := Drive(id, groupId, name, metadata);
      drives := drives[id := drive];
    }

    method CreateFolder(parentId: Id, id: Id, name: string, kind: string, metadata: string) returns (r: Option<Folder>)
      modifies this
      ensures State() == Create(old(State()), OfFolder(id, parentId, name, kind, metadata))
      ensures r.None? <==> GetParent(old(State()), parentId).None?
      ensures r.Some? ==> id in folders && r.value == folders[id]
    {
      var parent := GetParent(State(), parentId);
      if parent.None? {
        return None;
      }
      var folder := NewFolder(parentId, parent.value, id, name, kind, metadata);
      folders := folders[id := folder];
      r := Some(folder);
    }

    /** On a forest the walk up from a folder ends, and answers the path down to it. */
    method GetFoldersRec(folderId: Id, driveId: Id) returns (r: Option<(seq<Folder>, Drive)>)
      requires IsForest(State())
      ensures r.None? <==> driveId !in drives || folderId !in folders
      ensures r.Some? ==> IsPath(State(), r.value.0, folderId) && r.value.1 == drives[driveId]
    {
      if driveId !in drives || folderId !in folders {
        return None;
      }
      ghost var s := State();
      ghost var rank :| Ranked(s, rank);
      var path := [folders[folderId]];
      CarriesItsDrive(s, rank, folderId);
      assert WellPlaced(s, rank, folderId);
      while path[0].parentFolderId != path[0].driveId
        invariant IsPartialPath(s, rank, path, folderId)
        decreases rank[path[0].folderId]
      {
        WalkUp(s, rank, path, folderId);
        var parent := folders[path[0].parentFolderId];
        path := [parent] + path;
      }
      PartialPathEnds(s, rank, path, folderId);
      r := Some((path, drives[driveId]));
    }
  }

  /** The part of the way already walked: ranks grow along it. */
  ghost predicate IsPartialPath(s: Store, rank: map<Id, nat>, path: seq<Folder>, id: Id) {
    && Ranked(s, rank)
    && |path| > 0 && id in s.folders && path[|path| - 1] == s.folders[id]
    && (forall i :: 0 <= i < |path| ==>
          path[i].folderId in s.folders && s.folders[path[i].folderId] == path[i] && path[i].folderId in rank)
    && (forall i :: 0 < i < |path| ==> path[i].parentFolderId == path[i - 1].folderId)
    && (forall i, j :: 0 <= i < j < |path| ==> rank[path[i].folderId] < rank[path[j].folderId])
    && (forall i :: 0 <= i < |path| ==> path[i].driveId == path[0].driveId && path[i].groupId == path[0].groupId)
  }

  lemma WalkUp(s: Store, rank: map<Id, nat>, path: seq<Folder>, id: Id)
    requires IsPartialPath(s, rank, path, id) && path[0].parentFolderId != path[0].driveId
    ensures path[0].parentFolderId in s.folders
    ensures IsPartialPath(s, rank, [s.folders[path[0].parentFolderId]] + path, id)
    ensures path[0].parentFolderId in rank && rank[path[0].parentFolderId] < rank[path[0].folderId]
    ensures s.folders[path[0].parentFolderId].folderId == path[0].parentFolderId
  {
    assert WellPlaced(s, rank, path[0].folderId);
    var parent := s.folders[path[0].parentFolderId];
    assert WellPlaced(s, rank, path[0].parentFolderId);
    var longer := [parent] + path;
    assert forall i :: 0 < i < |longer| ==> longer[i] == path[i - 1];
  }

  lemma PartialPathEnds(s: Store, rank: map<Id, nat>, path: seq<Folder>, id: Id)
    requires IsPartialPath(s, rank, path, id) && path[0].parentFolderId == path[0].driveId
    ensures IsPath(s, path, id)
  {
    CarriesItsDrive(s, rank, path[0].folderId);
  }
}
