/**
  The default drive of a group: a drive and five predefined folders, created on demand by callers
  that may run at the same time.
 */
module DefaultDrive {
  import opened TreeStore
  import opened Wrappers

  // ---------- The predefined entries ----------

  datatype Node = TheDrive | Download | Home | System | Packages | Tmp

  function DriveIdOf(group: string): Id {
    group + "_default-drive"
  }

  function Suffix(n: Node): string {
    match n
    case TheDrive => ""
    case Download => "_download"
    case Home => "_home"
    case System => "_system"
    case Packages => "_system_packages"
    case Tmp => "_system_tmp"
  }

  function IdOf(group: string, n: Node): Id {
    DriveIdOf(group) + Suffix(n)
  }

  function NameOf(n: Node): string {
    match n
    case TheDrive => "Default drive"
    case Download => "Download"
    case Home => "Home"
    case System => "System"
    case Packages => "Packages"
    case Tmp => "Tmp"
  }

  function ParentOf(n: Node): Node {
    if n == Packages || n == Tmp then System else TheDrive
  }

  /** The drive comes first, its children next, the children of `System` last. */
  function Phase(n: Node): nat {
    if n == TheDrive then 0 else if ParentOf(n) == TheDrive then 1 else 2
  }

  lemma IdsAreDistinct(group: string, m: Node, n: Node)
    ensures IdOf(group, m) == IdOf(group, n) <==> m == n
  {
    assert |Suffix(Download)| == 9 && |Suffix(Home)| == 5 && |Suffix(System)| == 7;
    assert |Suffix(Packages)| == 16 && |Suffix(Tmp)| == 11 && |Suffix(TheDrive)| == 0;
    assert |IdOf(group, m)| == |DriveIdOf(group)| + |Suffix(m)|;
    assert |IdOf(group, n)| == |DriveIdOf(group)| + |Suffix(n)|;
  }

  // ---------- One caller alone ----------

  function NewDrive(group: string): Drive {
    Drive(DriveIdOf(group), group, NameOf(TheDrive), "")
  }

  function EnsuredFolder(s: Store, group: string, n: Node): Store {
    if IdOf(group, n) in s.folders then s
    else Create(s, OfFolder(IdOf(group, n), IdOf(group, ParentOf(n)), NameOf(n), "", ""))
  }

  /** The store after a call that runs alone. */
  function Target(s: Store, group: string): Store {
    var s0 := EnsuredFolder(EnsuredDrive(s, NewDrive(group)), group, Download);
    var s1 := EnsuredFolder(EnsuredFolder(s0, group, Home), group, System);
    EnsuredFolder(EnsuredFolder(s1, group, Packages), group, Tmp)
  }

  method EnsureFolder(db: TreeDb, group: string, n: Node) returns (r: Option<Folder>)
    modifies db
    ensures db.State() == EnsuredFolder(old(db.State()), group, n)
    ensures r.Some? ==> IdOf(group, n) in db.folders && r.value == db.folders[IdOf(group, n)]
    ensures r.None? ==> IdOf(group, n) !in old(db.folders) && GetParent(old(db.State()), IdOf(group, ParentOf(n))).None?
  {
    if IdOf(group, n) in db.folders {
      return Some(db.folders[IdOf(group, n)]);
    }
    r := db.CreateFolder(IdOf(group, ParentOf(n)), IdOf(group, n), NameOf(n), "", "");
  }

  /** The call, its gathered tasks in the order in which they are listed. */
  method GetDefaultDrive(db: TreeDb, group: string)
    modifies db
    ensures db.State() == Target(old(db.State()), group)
  {
    if DriveIdOf(group) !in db.drives {
      var drive := db.CreateDrive(group, DriveIdOf(group), NameOf(TheDrive), "");
    }
    var download := EnsureFolder(db, group, Download);
    var home := EnsureFolder(db, group, Home);
    var system := EnsureFolder(db, group, System);
    var packages := EnsureFolder(db, group, Packages);
    var tmp := EnsureFolder(db, group, Tmp);
  }

  /** What a folder of the group is in the end: the one there at the start, or a child of its parent. */
  ghost predicate FolderSettled(s0: Store, t: Store, group: string, n: Node) {
    && IdOf(group, n) in t.folders
    && GetParent(t, IdOf(group, ParentOf(n))).Some?
    && t.folders[IdOf(group, n)] ==
         if IdOf(group, n) in s0.folders then s0.folders[IdOf(group, n)]
         else
           var parentId := IdOf(group, ParentOf(n));
           NewFolder(parentId, GetParent(t, parentId).value, IdOf(group, n), NameOf(n), "", "")
  }

  ghost predicate IsFolderOf(group: string, nodes: set<Node>, id: Id) {
    exists n <- nodes :: n != TheDrive && id == IdOf(group, n)
  }

  /** The entries of `nodes` are there, those of the start are unchanged, nothing else is added. */
  ghost predicate SettledUpTo(s0: Store, t: Store, group: string, nodes: set<Node>) {
    && Extends(s0, t)
    && TheDrive in nodes && (forall n <- nodes :: ParentOf(n) in nodes)
    && t.drives == s0.drives[DriveIdOf(group) :=
         if DriveIdOf(group) in s0.drives then s0.drives[DriveIdOf(group)] else NewDrive(group)]
    && (forall id <- t.folders :: id in s0.folders || IsFolderOf(group, nodes, id))
    && (forall n {:trigger FolderSettled(s0, t, group, n)} :: n in nodes && n != TheDrive ==>
       FolderSettled(s0, t, group, n))
  }

  const ALL_NODES: set<Node> := {TheDrive, Download, Home, System, Packages, Tmp}

  ghost predicate Settled(s0: Store, t: Store, group: string) {
    SettledUpTo(s0, t, group, ALL_NODES)
  }

  lemma DriveSettles(s0: Store, group: string)
    ensures SettledUpTo(s0, EnsuredDrive(s0, NewDrive(group)), group, {TheDrive})
  {
  }

  /** A new folder of the group leaves the parents of the others as they were. */
  lemma ParentIsStable(s: Store, f: Folder, id: Id)
    requires f.folderId != id
    ensures GetParent(WithFolder(s, f), id) == GetParent(s, id)
  {
  }

  lemma ParentIsThere(s0: Store, t: Store, group: string, nodes: set<Node>, n: Node)
    requires SettledUpTo(s0, t, group, nodes) && n in nodes
    ensures GetParent(t, IdOf(group, n)).Some?
  {
    if n == TheDrive {
      assert IdOf(group, n) == DriveIdOf(group);
    } else {
      assert FolderSettled(s0, t, group, n);
    }
  }

  /** The other folders of the group stay settled when `n` is created, and so is `n`. */
  lemma CreatedSettles(s0: Store, s: Store, group: string, nodes: set<Node>, n: Node, m: Node)
    requires SettledUpTo(s0, s, group, nodes) && n !in nodes && ParentOf(n) in nodes
    requires IdOf(group, n) !in s.folders && GetParent(s, IdOf(group, ParentOf(n))).Some?
    requires (m in nodes || m == n) && m != TheDrive
    ensures FolderSettled(s0, EnsuredFolder(s, group, n), group, m)
  {
    var t := EnsuredFolder(s, group, n);
    var f := t.folders[IdOf(group, n)];
    assert t == WithFolder(s, f);
    IdsAreDistinct(group, n, ParentOf(m));
    IdsAreDistinct(group, n, m);
    ParentIsStable(s, f, IdOf(group, ParentOf(m)));
    assert m in nodes ==> FolderSettled(s0, s, group, m);
  }

  lemma FolderOfMore(group: string, nodes: set<Node>, n: Node, id: Id)
    requires n != TheDrive && (IsFolderOf(group, nodes, id) || id == IdOf(group, n))
    ensures IsFolderOf(group, nodes + {n}, id)
  {
    if IsFolderOf(group, nodes, id) {
      var m :| m in nodes && m != TheDrive && id == IdOf(group, m);
      assert m in nodes + {n};
    } else {
      assert n in nodes + {n};
    }
  }

  lemma NothingElseAdded(s0: Store, s: Store, group: string, nodes: set<Node>, n: Node)
    requires n != TheDrive && forall id <- s.folders :: id in s0.folders || IsFolderOf(group, nodes, id)
    ensures forall id <- EnsuredFolder(s, group, n).folders :: id in s0.folders || IsFolderOf(group, nodes + {n}, id)
  {
    forall id | id in EnsuredFolder(s, group, n).folders && id !in s0.folders
      ensures IsFolderOf(group, nodes + {n}, id)
    {
      FolderOfMore(group, nodes, n, id);
    }
  }

  lemma FolderSettles(s0: Store, s: Store, group: string, nodes: set<Node>, n: Node)
    requires SettledUpTo(s0, s, group, nodes) && n !in nodes && ParentOf(n) in nodes
    ensures SettledUpTo(s0, EnsuredFolder(s, group, n), group, nodes + {n})
  {
    var t := EnsuredFolder(s, group, n);
    EnsuredExtends(s0, s, group, n);
    AllSettle(s0, s, group, nodes, n, t);
    NothingElseAdded(s0, s, group, nodes, n);
    SettledWithMore(s0, s, t, group, nodes, n);
  }

  lemma EnsuredExtends(s0: Store, s: Store, group: string, n: Node)
    requires Extends(s0, s)
    ensures Extends(s0, EnsuredFolder(s, group, n)) && EnsuredFolder(s, group, n).drives == s.drives
  {
  }

  lemma SettledWithMore(s0: Store, s: Store, t: Store, group: string, nodes: set<Node>, n: Node)
    requires SettledUpTo(s0, s, group, nodes) && ParentOf(n) in nodes && Extends(s0, t) && t.drives == s.drives
    requires forall id <- t.folders :: id in s0.folders || IsFolderOf(group, nodes + {n}, id)
    requires forall m <- nodes + {n} :: m != TheDrive ==> FolderSettled(s0, t, group, m)
    ensures SettledUpTo(s0, t, group, nodes + {n})
  {
  }

  lemma AllSettle(s0: Store, s: Store, group: string, nodes: set<Node>, n: Node, t: Store)
    requires SettledUpTo(s0, s, group, nodes) && n !in nodes && ParentOf(n) in nodes && t == EnsuredFolder(s, group, n)
    ensures forall m <- nodes + {n} :: m != TheDrive ==> FolderSettled(s0, t, group, m)
  {
    forall m | m in nodes + {n} && m != TheDrive
      ensures FolderSettled(s0, t, group, m)
    {
      EachSettles(s0, s, group, nodes, n, m);
    }
  }

  lemma EachSettles(s0: Store, s: Store, group: string, nodes: set<Node>, n: Node, m: Node)
    requires SettledUpTo(s0, s, group, nodes) && n !in nodes && ParentOf(n) in nodes
    requires (m in nodes || m == n) && m != TheDrive
    ensures FolderSettled(s0, EnsuredFolder(s, group, n), group, m)
  {
    ParentIsThere(s0, s, group, nodes, ParentOf(n));
    if IdOf(group, n) !in s.folders {
      CreatedSettles(s0, s, group, nodes, n, m);
    } else if m == n {
      AlreadyThere(s0, s, group, nodes, n);
    } else {
      assert FolderSettled(s0, s, group, m);
    }
  }

  /** A folder of the group found before its turn was there at the start. */
  lemma AlreadyThere(s0: Store, s: Store, group: string, nodes: set<Node>, n: Node)
    requires SettledUpTo(s0, s, group, nodes) && n !in nodes && IdOf(group, n) in s.folders
    ensures IdOf(group, n) in s0.folders && s.folders[IdOf(group, n)] == s0.folders[IdOf(group, n)]
  {
    forall m | m in nodes
      ensures IdOf(group, m) != IdOf(group, n)
    {
      IdsAreDistinct(group, m, n);
    }
    assert !IsFolderOf(group, nodes, IdOf(group, n));
  }

  /** A call that runs alone settles the group's entries. */
  lemma TargetIsSettled(s0: Store, group: string)
    ensures Settled(s0, Target(s0, group), group)
  {
    DriveSettles(s0, group);
    var s1 := EnsuredDrive(s0, NewDrive(group));
    var s2 := EnsuredFolder(s1, group, Download);
    assert SettledUpTo(s0, s2, group, {TheDrive} + {Download}) by {
      FolderSettles(s0, s1, group, {TheDrive}, Download);
    }
    var s3 := EnsuredFolder(s2, group, Home);
    assert SettledUpTo(s0, s3, group, {TheDrive} + {Download} + {Home}) by {
      FolderSettles(s0, s2, group, {TheDrive} + {Download}, Home);
    }
    var s4 := EnsuredFolder(s3, group, System);
    assert SettledUpTo(s0, s4, group, {TheDrive} + {Download} + {Home} + {System}) by {
      FolderSettles(s0, s3, group, {TheDrive} + {Download} + {Home}, System);
    }
    LastFoldersSettle(s0, s4, group);
  }

  lemma LastFoldersSettle(s0: Store, s: Store, group: string)
    requires SettledUpTo(s0, s, group, {TheDrive} + {Download} + {Home} + {System})
    ensures Settled(s0, EnsuredFolder(EnsuredFolder(s, group, Packages), group, Tmp), group)
  {
    var nodes := {TheDrive} + {Download} + {Home} + {System};
    FolderSettles(s0, s, group, nodes, Packages);
    FolderSettles(s0, EnsuredFolder(s, group, Packages), group, nodes + {Packages}, Tmp);
    assert nodes + {Packages} + {Tmp} == ALL_NODES;
  }

  /** What a call that runs alone creates for a group without entries, field by field. */
  lemma FirstCallCreates(s: Store, group: string)
    requires forall n: Node :: IdOf(group, n) !in s.folders && IdOf(group, n) !in s.drives
    ensures var id := group + "_default-drive"; var t := Target(s, group);
      && t.drives == s.drives[id := Drive(id, group, "Default drive", "")]
      && t.folders.Keys == s.folders.Keys
           + {id + "_download", id + "_home", id + "_system", id + "_system_packages", id + "_system_tmp"}
      && t.folders[id + "_download"] == Folder(id + "_download", id, group, id, "Download", "", "")
      && t.folders[id + "_home"] == Folder(id + "_home", id, group, id, "Home", "", "")
      && t.folders[id + "_system"] == Folder(id + "_system", id, group, id, "System", "", "")
      && t.folders[id + "_system_packages"] ==
           Folder(id + "_system_packages", id + "_system", group, id, "Packages", "", "")
      && t.folders[id + "_system_tmp"] == Folder(id + "_system_tmp", id + "_system", group, id, "Tmp", "", "")
  {
    var t := Target(s, group);
    TargetIsSettled(s, group);
    KeysOfTarget(s, t, group);
    assert IdOf(group, TheDrive) == DriveIdOf(group);
    CreatedFolder(s, t, group, Download);
    CreatedFolder(s, t, group, Home);
    CreatedFolder(s, t, group, System);
    CreatedFolder(s, t, group, Packages);
    CreatedFolder(s, t, group, Tmp);
  }

  lemma {:induction false} CreatedFolder(s: Store, t: Store, group: string, n: Node)
    requires (forall m: Node :: IdOf(group, m) !in s.folders && IdOf(group, m) !in s.drives)
    requires Settled(s, t, group) && n != TheDrive
    ensures IdOf(group, n) in t.folders && t.folders[IdOf(group, n)] == Folder(
      IdOf(group, n), IdOf(group, ParentOf(n)), group, DriveIdOf(group), NameOf(n), "", "")
    decreases Phase(n)
  {
    var id := DriveIdOf(group);
    assert IdOf(group, TheDrive) == id;
    EveryNode(n);
    assert FolderSettled(s, t, group, n);
    if ParentOf(n) != TheDrive {
      CreatedFolder(s, t, group, ParentOf(n));
    } else {
      DriveIsNoFolder(s, t, group);
    }
  }

  lemma DriveIsNoFolder(s: Store, t: Store, group: string)
    requires Settled(s, t, group) && DriveIdOf(group) !in s.folders
    ensures DriveIdOf(group) !in t.folders
  {
    assert IdOf(group, TheDrive) == DriveIdOf(group);
    forall n: Node | n != TheDrive
      ensures IdOf(group, n) != DriveIdOf(group)
    {
      IdsAreDistinct(group, n, TheDrive);
    }
  }

  lemma KeysOfTarget(s: Store, t: Store, group: string)
    requires Settled(s, t, group)
    ensures t.folders.Keys == s.folders.Keys + {IdOf(group, Download), IdOf(group, Home), IdOf(group, System),
                                                IdOf(group, Packages), IdOf(group, Tmp)}
  {
    forall n: Node | n != TheDrive
      ensures IdOf(group, n) in t.folders
    {
      EveryNode(n);
      assert FolderSettled(s, t, group, n);
    }
  }

  // ---------- Any number of callers ----------

  /**
    Where a caller is with one entry. `Query`: the entry was missing and its parent is being looked
    up, among the folders and among the drives, each answer possibly still to come.
   */
  datatype Pc =
    | Read
    | Query(ofFolders: Option<Option<Parent>>, ofDrives: Option<Option<Parent>>)
    | CreateDrive
    | CreateFolder(folder: Folder)
    | Done
    | Failed

  /** One caller: where it is with each of the six entries. */
  datatype Call = Call(pcs: map<Node, Pc>)

  datatype World = World(store: Store, calls: seq<Call>)

  ghost predicate IsCall(c: Call) {
    forall n: Node :: n in c.pcs
  }

  function NewCall(): (c: Call)
    ensures IsCall(c)
  {
    assert forall n: Node :: n in ALL_NODES by {
      forall n: Node
        ensures n in ALL_NODES
      {
        EveryNode(n);
      }
    }
    Call(map n | n in ALL_NODES :: Read)
  }

  lemma EveryNode(n: Node)
    ensures n in ALL_NODES
  {
    match n
    case TheDrive =>
    case Download =>
    case Home =>
    case System =>
    case Packages =>
    case Tmp =>
  }

  /** The gathering of a phase starts when the phases before it are done. */
  predicate Enabled(c: Call, n: Node)
    requires IsCall(c)
  {
    forall m <- ALL_NODES :: Phase(m) < Phase(n) ==> c.pcs[m] == Done
  }

  function FolderParent(s: Store, id: Id): Option<Parent> {
    if id in s.folders then Some(Parent(s.folders[id].groupId, s.folders[id].driveId)) else None
  }

  function DriveParent(s: Store, id: Id): Option<Parent> {
    if id in s.drives then Some(Parent(s.drives[id].groupId, s.drives[id].driveId)) else None
  }

  /** Both lookups answered: the folder found is preferred, and without parent the call fails. */
  function AfterQuery(group: string, n: Node, ofFolders: Option<Option<Parent>>, ofDrives: Option<Option<Parent>>): Pc {
    if ofFolders.None? || ofDrives.None? then Query(ofFolders, ofDrives)
    else
      var parent := if ofFolders.value.Some? then ofFolders.value else ofDrives.value;
      match parent
      case None => Failed
      case Some(p) => CreateFolder(NewFolder(IdOf(group, ParentOf(n)), p, IdOf(group, n), NameOf(n), "", ""))
  }

  /** One step of a caller on entry `n`; `second` picks which of the two lookups answers. */
  function StepPc(group: string, s: Store, n: Node, pc: Pc, second: bool): (Store, Pc) {
    match pc
    case Read =>
      if n == TheDrive then (s, if DriveIdOf(group) in s.drives then Done else CreateDrive)
      else (s, if IdOf(group, n) in s.folders then Done else Query(None, None))
    case Query(ofFolders, ofDrives) =>
      var parentId := IdOf(group, ParentOf(n));
      (s, if second && ofDrives.None? then AfterQuery(group, n, ofFolders, Some(DriveParent(s, parentId)))
          else if !second && ofFolders.None? then AfterQuery(group, n, Some(FolderParent(s, parentId)), ofDrives)
          else pc)
    case CreateDrive => (WithDrive(s, NewDrive(group)), Done)
    case CreateFolder(f) => (WithFolder(s, f), Done)
    case Done => (s, Done)
    case Failed => (s, Failed)
  }

  datatype Turn = Turn(caller: nat, node: Node, second: bool)

  function Step(group: string, w: World, t: Turn): World
    requires t.caller < |w.calls| && IsCall(w.calls[t.caller])
  {
    var c := w.calls[t.caller];
    if !Enabled(c, t.node) then w
    else
      var (store, pc) := StepPc(group, w.store, t.node, c.pcs[t.node], t.second);
      World(store, w.calls[t.caller := Call(c.pcs[t.node := pc])])
  }

  ghost predicate AreCalls(calls: seq<Call>) {
    forall i :: 0 <= i < |calls| ==> IsCall(calls[i])
  }

  ghost predicate Schedules(schedule: seq<Turn>, n: nat) {
    forall k :: 0 <= k < |schedule| ==> schedule[k].caller < n
  }

  ghost function Run(group: string, w: World, schedule: seq<Turn>): (r: World)
    requires AreCalls(w.calls) && Schedules(schedule, |w.calls|)
    ensures AreCalls(r.calls) && |r.calls| == |w.calls|
  {
    if schedule == [] then w
    else
      var n := |schedule| - 1;
      Step(group, Run(group, w, schedule[..n]), schedule[n])
  }

  function Start(s0: Store, callers: nat): (r: World)
    ensures AreCalls(r.calls)
  {
    World(s0, seq(callers, i => NewCall()))
  }

  // ---------- Invariant ----------

  /** The entry of `n` is in the store. */
  ghost predicate There(s: Store, group: string, n: Node) {
    if n == TheDrive then DriveIdOf(group) in s.drives else IdOf(group, n) in s.folders
  }

  ghost predicate PcInv(s0: Store, t: Store, s: Store, group: string, c: Call, n: Node)
    requires IsCall(c)
  {
    var parentId := IdOf(group, ParentOf(n));
    && (c.pcs[n] != Read ==> Enabled(c, n))
    && match c.pcs[n]
       case Read => true
       case Query(ofFolders, ofDrives) =>
         && n != TheDrive && IdOf(group, n) !in s0.folders && (ofFolders.None? || ofDrives.None?)
         && (ofFolders.Some? ==> ofFolders.value == FolderParent(t, parentId))
         && (ofDrives.Some? ==> ofDrives.value == DriveParent(t, parentId))
       case CreateDrive => n == TheDrive && DriveIdOf(group) !in s0.drives
       case CreateFolder(f) =>
         n != TheDrive && f.folderId == IdOf(group, n) && f.folderId in t.folders && f == t.folders[f.folderId]
       case Done => There(s, group, n)
       case Failed => false
  }

  /** The store grows from the start towards the store a single call leaves. */
  ghost predicate Inv(s0: Store, t: Store, group: string, w: World) {
    && Extends(s0, w.store) && Extends(w.store, t)
    && AreCalls(w.calls)
    && forall i, n {:trigger PcInv(s0, t, w.store, group, w.calls[i], n)} ::
         0 <= i < |w.calls| ==> PcInv(s0, t, w.store, group, w.calls[i], n)
  }

  lemma StartInv(s0: Store, group: string, callers: nat)
    ensures Inv(s0, Target(s0, group), group, Start(s0, callers))
  {
    TargetIsSettled(s0, group);
  }

  /** The entry a new folder hangs from is in the store already, as it will be in the end. */
  lemma ParentLookupIsFinal(s0: Store, t: Store, s: Store, group: string, n: Node)
    requires Settled(s0, t, group) && Extends(s0, s) && Extends(s, t) && There(s, group, ParentOf(n))
    ensures FolderParent(s, IdOf(group, ParentOf(n))) == FolderParent(t, IdOf(group, ParentOf(n)))
    ensures DriveParent(s, IdOf(group, ParentOf(n))) == DriveParent(t, IdOf(group, ParentOf(n)))
  {
    var m := ParentOf(n);
    IdsAreDistinct(group, m, TheDrive);
    assert IdOf(group, TheDrive) == DriveIdOf(group);
    if m == TheDrive {
      forall k: Node
        ensures k != TheDrive ==> IdOf(group, k) != DriveIdOf(group)
      {
        IdsAreDistinct(group, k, TheDrive);
      }
      assert !IsFolderOf(group, ALL_NODES, DriveIdOf(group));
    }
  }

  /** Once both lookups have answered, the folder to create is the one of the final store. */
  lemma QueryEndsWithFinalFolder(s0: Store, t: Store, group: string, n: Node)
    requires Settled(s0, t, group) && n != TheDrive && IdOf(group, n) !in s0.folders
    ensures var parentId := IdOf(group, ParentOf(n));
      && IdOf(group, n) in t.folders
      && AfterQuery(group, n, Some(FolderParent(t, parentId)), Some(DriveParent(t, parentId))) ==
           CreateFolder(t.folders[IdOf(group, n)])
      && t.folders[IdOf(group, n)].folderId == IdOf(group, n)
  {
    assert n in ALL_NODES && FolderSettled(s0, t, group, n);
  }

  /** The step keeps the store between the start and the end. */
  lemma StepKeepsBounds(s0: Store, t: Store, group: string, s: Store, c: Call, n: Node, second: bool)
    requires Settled(s0, t, group) && Extends(s0, s) && Extends(s, t)
    requires IsCall(c) && PcInv(s0, t, s, group, c, n) && Enabled(c, n)
    ensures var s' := StepPc(group, s, n, c.pcs[n], second).0; Extends(s, s') && Extends(s', t)
  {
    match c.pcs[n]
    case CreateDrive => DriveStaysBelow(t, s, NewDrive(group));
    case CreateFolder(f) => FolderStaysBelow(t, s, f);
    case _ =>
  }

  lemma DriveStaysBelow(t: Store, s: Store, d: Drive)
    requires Extends(s, t) && d.driveId in t.drives && t.drives[d.driveId] == d
    ensures Extends(s, WithDrive(s, d)) && Extends(WithDrive(s, d), t)
  {
  }

  lemma FolderStaysBelow(t: Store, s: Store, f: Folder)
    requires Extends(s, t) && f.folderId in t.folders && t.folders[f.folderId] == f
    ensures Extends(s, WithFolder(s, f)) && Extends(WithFolder(s, f), t)
  {
  }

  lemma ParentIsDone(s0: Store, t: Store, group: string, s: Store, c: Call, n: Node)
    requires IsCall(c) && Enabled(c, n) && n != TheDrive
    requires forall m: Node :: PcInv(s0, t, s, group, c, m)
    ensures There(s, group, ParentOf(n))
  {
    var m := ParentOf(n);
    assert m in ALL_NODES && Phase(m) < Phase(n);
    assert c.pcs[m] == Done;
    assert PcInv(s0, t, s, group, c, m);
  }

  /** An answered lookup has the answer it would have in the end. */
  lemma QueryKeepsPc(s0: Store, t: Store, group: string, s: Store, c: Call, c': Call, n: Node, second: bool)
    requires Settled(s0, t, group) && Extends(s0, s) && Extends(s, t)
    requires IsCall(c) && PcInv(s0, t, s, group, c, n) && c.pcs[n].Query? && There(s, group, ParentOf(n))
    requires IsCall(c') && Enabled(c', n) && c'.pcs[n] == StepPc(group, s, n, c.pcs[n], second).1
    ensures PcInv(s0, t, s, group, c', n)
  {
    ParentLookupIsFinal(s0, t, s, group, n);
    QueryEndsWithFinalFolder(s0, t, group, n);
  }

  /** The step keeps the invariant of the entry it moves. */
  lemma StepKeepsPc(s0: Store, t: Store, group: string, s: Store, c: Call, n: Node, second: bool)
    requires Settled(s0, t, group) && Extends(s0, s) && Extends(s, t)
    requires IsCall(c) && Enabled(c, n) && forall m: Node :: PcInv(s0, t, s, group, c, m)
    ensures var (s', pc') := StepPc(group, s, n, c.pcs[n], second);
      PcInv(s0, t, s', group, Call(c.pcs[n := pc']), n)
  {
    assert PcInv(s0, t, s, group, c, n);
    var (s', pc') := StepPc(group, s, n, c.pcs[n], second);
    var c' := Call(c.pcs[n := pc']);
    assert Enabled(c', n);
    if c.pcs[n].Query? {
      ParentIsDone(s0, t, group, s, c, n);
      QueryKeepsPc(s0, t, group, s, c, c', n, second);
    } else {
      OtherKeepsPc(s0, t, group, s, c, c', n, second);
    }
  }

  lemma OtherKeepsPc(s0: Store, t: Store, group: string, s: Store, c: Call, c': Call, n: Node, second: bool)
    requires Extends(s0, s)
    requires IsCall(c) && PcInv(s0, t, s, group, c, n) && !c.pcs[n].Query?
    requires IsCall(c') && Enabled(c', n) && c'.pcs[n] == StepPc(group, s, n, c.pcs[n], second).1
    ensures PcInv(s0, t, StepPc(group, s, n, c.pcs[n], second).0, group, c', n)
  {
  }

  /** What holds of another entry still holds after the step. */
  lemma StepKeepsOthers(s0: Store, t: Store, group: string, s: Store, s': Store, c: Call, c': Call, m: Node)
    requires IsCall(c) && IsCall(c') && PcInv(s0, t, s, group, c, m) && Extends(s, s')
    requires c'.pcs[m] == c.pcs[m] && forall k: Node :: c.pcs[k] == Done ==> c'.pcs[k] == Done
    ensures PcInv(s0, t, s', group, c', m)
  {
    assert Enabled(c, m) ==> Enabled(c', m);
  }

  lemma StepKeepsInv(s0: Store, t: Store, group: string, w: World, turn: Turn)
    requires Settled(s0, t, group) && Inv(s0, t, group, w) && turn.caller < |w.calls|
    ensures Inv(s0, t, group, Step(group, w, turn))
  {
    var c, n := w.calls[turn.caller], turn.node;
    if Enabled(c, n) {
      var (s', pc') := StepPc(group, w.store, n, c.pcs[n], turn.second);
      var c' := Call(c.pcs[n := pc']);
      var w' := Step(group, w, turn);
      forall m: Node
        ensures PcInv(s0, t, w.store, group, c, m)
      {
        assert PcInv(s0, t, w.store, group, w.calls[turn.caller], m);
      }
      StepKeepsBounds(s0, t, group, w.store, c, n, turn.second);
      forall i, m: Node | 0 <= i < |w'.calls|
        ensures PcInv(s0, t, w'.store, group, w'.calls[i], m)
      {
        assert PcInv(s0, t, w.store, group, w.calls[i], m);
        if i == turn.caller && m == n {
          StepKeepsPc(s0, t, group, w.store, c, n, turn.second);
        } else {
          StepKeepsOthers(s0, t, group, w.store, w'.store, w.calls[i], w'.calls[i], m);
        }
      }
    }
  }

  lemma {:induction false} RunKeepsInv(s0: Store, t: Store, group: string, w: World, schedule: seq<Turn>)
    requires Settled(s0, t, group) && Inv(s0, t, group, w) && Schedules(schedule, |w.calls|)
    ensures Inv(s0, t, group, Run(group, w, schedule))
  {
    if schedule != [] {
      var n := |schedule| - 1;
      RunKeepsInv(s0, t, group, w, schedule[..n]);
      StepKeepsInv(s0, t, group, Run(group, w, schedule[..n]), schedule[n]);
    }
  }

  // ---------- Main results ----------

  ghost predicate HasEnded(c: Call)
    requires IsCall(c)
  {
    forall n: Node :: c.pcs[n] == Done
  }

  lemma BoundedIsTarget(s0: Store, t: Store, s: Store, group: string)
    requires Settled(s0, t, group) && Extends(s0, s) && Extends(s, t) && forall n: Node :: There(s, group, n)
    ensures s == t
  {
    forall id | id in t.drives
      ensures id in s.drives
    {
      assert There(s, group, TheDrive);
    }
    forall id | id in t.folders
      ensures id in s.folders
    {
      if id !in s0.folders {
        var n :| n in ALL_NODES && n != TheDrive && id == IdOf(group, n);
        assert There(s, group, n);
      }
    }
    assert s.drives.Keys == t.drives.Keys && s.folders.Keys == t.folders.Keys;
    assert s.drives == t.drives && s.folders == t.folders;
  }

  /**
    However the steps of any number of callers interleave, as soon as one of them has ended the
    store is the one a single call leaves: it is the same for all, the entries of the start are
    unchanged, and the drive and the five folders are there. No caller ever fails.
   */
  lemma InterleavingsAgree(s0: Store, group: string, callers: nat, schedule: seq<Turn>, w: World)
    requires Schedules(schedule, callers) && w == Run(group, Start(s0, callers), schedule)
    ensures forall i, n: Node :: 0 <= i < callers ==> w.calls[i].pcs[n] != Failed
    ensures Extends(s0, w.store) && Extends(w.store, Target(s0, group))
    ensures (exists i :: 0 <= i < callers && HasEnded(w.calls[i])) ==> w.store == Target(s0, group)
  {
    var t := Target(s0, group);
    TargetIsSettled(s0, group);
    StartInv(s0, group, callers);
    RunKeepsInv(s0, t, group, Start(s0, callers), schedule);
    forall i, n: Node | 0 <= i < callers
      ensures w.calls[i].pcs[n] != Failed
    {
      assert PcInv(s0, t, w.store, group, w.calls[i], n);
    }
    if i :| 0 <= i < callers && HasEnded(w.calls[i]) {
      forall n: Node
        ensures There(w.store, group, n)
      {
        assert PcInv(s0, t, w.store, group, w.calls[i], n);
      }
      BoundedIsTarget(s0, t, w.store, group);
    }
  }

  // ---------- Every caller can end ----------

  function Left(pc: Pc): nat {
    match pc
    case Read => 4
    case Query(ofFolders, ofDrives) => 1 + (if ofFolders.None? then 1 else 0) + (if ofDrives.None? then 1 else 0)
    case CreateDrive => 1
    case CreateFolder(_) => 1
    case Done => 0
    case Failed => 0
  }

  function CallLeft(c: Call): nat
    requires IsCall(c)
  {
    Left(c.pcs[TheDrive]) + Left(c.pcs[Download]) + Left(c.pcs[Home]) + Left(c.pcs[System]) + Left(c.pcs[Packages]) +
    Left(c.pcs[Tmp])
  }

  /** The first entry that an unfinished caller has not done. */
  function Next(c: Call): Node
    requires IsCall(c)
  {
    if c.pcs[TheDrive] != Done then TheDrive
    else if c.pcs[Download] != Done then Download
    else if c.pcs[Home] != Done then Home
    else if c.pcs[System] != Done then System
    else if c.pcs[Packages] != Done then Packages
    else Tmp
  }

  lemma NextIsOpen(c: Call)
    requires IsCall(c) && !HasEnded(c)
    ensures c.pcs[Next(c)] != Done && Enabled(c, Next(c))
  {
    if c.pcs[Next(c)] == Done {
      forall m: Node
        ensures c.pcs[m] == Done
      {
        EveryNode(m);
      }
    }
  }

  /** Wherever a run has come to, an unfinished caller has a turn that leaves it fewer steps. */
  lemma SomeTurnAdvances(s0: Store, t: Store, group: string, w: World, i: nat) returns (turn: Turn)
    requires Settled(s0, t, group) && Inv(s0, t, group, w) && i < |w.calls| && !HasEnded(w.calls[i])
    ensures turn.caller == i && Inv(s0, t, group, Step(group, w, turn))
    ensures CallLeft(Step(group, w, turn).calls[i]) < CallLeft(w.calls[i])
    ensures forall j :: 0 <= j < |w.calls| && j != i ==> Step(group, w, turn).calls[j] == w.calls[j]
  {
    var c := w.calls[i];
    var n := Next(c);
    NextIsOpen(c);
    assert PcInv(s0, t, w.store, group, c, n);
    turn := Turn(i, n, c.pcs[n].Query? && c.pcs[n].ofDrives.None?);
    PcAdvances(s0, t, w.store, group, c, n);
    StepKeepsInv(s0, t, group, w, turn);
    var pc := StepPc(group, w.store, n, c.pcs[n], turn.second).1;
    assert Step(group, w, turn).calls[i] == Call(c.pcs[n := pc]);
    OneLess(c, n, pc);
  }

  lemma OneLess(c: Call, n: Node, pc: Pc)
    requires IsCall(c) && Left(pc) < Left(c.pcs[n])
    ensures IsCall(Call(c.pcs[n := pc])) && CallLeft(Call(c.pcs[n := pc])) < CallLeft(c)
  {
  }

  lemma PcAdvances(s0: Store, t: Store, s: Store, group: string, c: Call, n: Node)
    requires IsCall(c) && PcInv(s0, t, s, group, c, n) && c.pcs[n] != Done
    ensures Left(StepPc(group, s, n, c.pcs[n], c.pcs[n].Query? && c.pcs[n].ofDrives.None?).1) < Left(c.pcs[n])
  {
  }

  lemma RunOneMore(group: string, w: World, schedule: seq<Turn>, turn: Turn)
    requires AreCalls(w.calls) && Schedules(schedule, |w.calls|) && turn.caller < |w.calls|
    ensures Schedules(schedule + [turn], |w.calls|)
    ensures Run(group, w, schedule + [turn]) == Step(group, Run(group, w, schedule), turn)
  {
    assert (schedule + [turn])[..|schedule|] == schedule;
  }

  /** Caller `i` can be brought to its end, whatever the others have done, without moving them. */
  lemma {:induction false} CallerCanEnd(s0: Store, group: string, start: World, schedule: seq<Turn>, i: nat)
    returns (more: seq<Turn>)
    requires Inv(s0, Target(s0, group), group, start) && i < |start.calls| && Schedules(schedule, |start.calls|)
    ensures Schedules(more, |start.calls|) && schedule <= more
    ensures HasEnded(Run(group, start, more).calls[i])
    ensures forall j :: 0 <= j < |start.calls| && j != i ==>
      Run(group, start, more).calls[j] == Run(group, start, schedule).calls[j]
    decreases CallLeft(Run(group, start, schedule).calls[i])
  {
    var t, w := Target(s0, group), Run(group, start, schedule);
    TargetIsSettled(s0, group);
    RunKeepsInv(s0, t, group, start, schedule);
    if HasEnded(w.calls[i]) {
      more := schedule;
    } else {
      var turn := SomeTurnAdvances(s0, t, group, w, i);
      RunOneMore(group, start, schedule, turn);
      more := CallerCanEnd(s0, group, start, schedule + [turn], i);
    }
  }

  /** Every run can be continued until the first `n` callers have ended. */
  lemma {:induction false} FirstCanEnd(s0: Store, group: string, callers: nat, schedule: seq<Turn>, n: nat)
    returns (more: seq<Turn>)
    requires Schedules(schedule, callers) && n <= callers
    ensures Schedules(more, callers) && schedule <= more
    ensures forall i :: 0 <= i < n ==> HasEnded(Run(group, Start(s0, callers), more).calls[i])
  {
    StartInv(s0, group, callers);
    if n == 0 {
      more := schedule;
    } else {
      var before := FirstCanEnd(s0, group, callers, schedule, n - 1);
      more := CallerCanEnd(s0, group, Start(s0, callers), before, n - 1);
    }
  }

  /**
    Every run of any number of callers can be continued until all have ended, and then the store is
    the one a single call leaves.
   */
  lemma EveryRunCanEnd(s0: Store, group: string, callers: nat, schedule: seq<Turn>) returns (more: seq<Turn>)
    requires Schedules(schedule, callers)
    ensures Schedules(more, callers) && schedule <= more
    ensures var w := Run(group, Start(s0, callers), more);
      && (forall i :: 0 <= i < callers ==> HasEnded(w.calls[i]))
      && (callers > 0 ==> w.store == Target(s0, group))
  {
    more := FirstCanEnd(s0, group, callers, schedule, callers);
    if callers > 0 {
      EndedIsTarget(s0, group, callers, more, 0);
    }
  }

  lemma EndedIsTarget(s0: Store, group: string, callers: nat, schedule: seq<Turn>, i: nat)
    requires Schedules(schedule, callers) && i < callers
    requires HasEnded(Run(group, Start(s0, callers), schedule).calls[i])
    ensures Run(group, Start(s0, callers), schedule).store == Target(s0, group)
  {
    InterleavingsAgree(s0, group, callers, schedule, Run(group, Start(s0, callers), schedule));
  }

  // ---------- Steps are small ----------

  /** The first step of a call: it finds the drive missing, and nothing else changes. */
  lemma FindsDriveMissing(group: string, w: World, i: nat)
    requires group + "_default-drive" !in w.store.drives && i < |w.calls| && w.calls[i] == NewCall()
    ensures var next := Step(group, w, Turn(i, TheDrive, false));
      && next.store == w.store && |next.calls| == |w.calls| && IsCall(next.calls[i])
      && next.calls[i].pcs[TheDrive] == CreateDrive
      && forall j :: 0 <= j < |w.calls| && j != i ==> next.calls[j] == w.calls[j]
  {
  }

  /** Two callers can both find the drive missing before either creates it. */
  lemma RaceOnDrive(s0: Store, group: string)
    requires group + "_default-drive" !in s0.drives
    ensures var w := Run(group, Start(s0, 2), [Turn(0, TheDrive, false), Turn(1, TheDrive, false)]);
      w.store == s0 && w.calls[0].pcs[TheDrive] == CreateDrive && w.calls[1].pcs[TheDrive] == CreateDrive
  {
    var w0, a, b := Start(s0, 2), Turn(0, TheDrive, false), Turn(1, TheDrive, false);
    assert [] + [a] == [a] && [a] + [b] == [a, b];
    RunOneMore(group, w0, [], a);
    RunOneMore(group, w0, [a], b);
    FindsDriveMissing(group, w0, 0);
    FindsDriveMissing(group, Run(group, w0, [a]), 1);
  }

  /** The creation of a missing folder takes four steps; the first three change nothing. */
  lemma FolderTakesFourSteps(s: Store, group: string, n: Node)
    requires n != TheDrive && IdOf(group, n) !in s.folders && GetParent(s, IdOf(group, ParentOf(n))).Some?
    ensures var p1 := StepPc(group, s, n, Read, false); var p2 := StepPc(group, s, n, p1.1, false);
      var p3 := StepPc(group, s, n, p2.1, true); var p4 := StepPc(group, s, n, p3.1, false);
      && p1.0 == p2.0 == p3.0 == s && p1.1.Query? && p2.1.Query? && p1.1 != p2.1 && p3.1.CreateFolder?
      && p4 == (EnsuredFolder(s, group, n), Done)
  {
  }
}
