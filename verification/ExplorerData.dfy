/**
  The explorer records of a published package: one for each directory, keyed by its path, with the
  total size and the number of the files below it.
 */
module ExplorerData {
  import opened PyDict
  import opened Wrappers

  datatype Attr = Attr(size: nat, encoding: string)

  /** An uploaded file, named by its path in the package. */
  datatype Form = Form(path: string, attr: Attr)

  datatype FileEntry = FileEntry(name: string, attr: Attr)
  datatype FolderEntry = FolderEntry(name: string, path: string, size: int)
  datatype Explorer = Explorer(size: int, filesCount: int, files: seq<FileEntry>, folders: seq<FolderEntry>)

  /** A directory on disk, as it is walked. */
  datatype Dir = Dir(files: seq<string>, folders: Folders)
  datatype Folders = NoFolder | More(name: string, dir: Dir, rest: Folders)

  type Uploads = map<string, Attr>

  const ORIGINAL_ZIP_FILE := "__original.zip"

  // ---------- Paths ----------

  /** The base path of a sub-directory; every base path but the empty one ends with a slash. */
  function Sub(base: string, name: string): string {
    base + name + "/"
  }

  /** The key of the record: the base path without its last slash. */
  function Key(base: string): string {
    if base == "" then "" else base[..|base| - 1]
  }

  /** `base.replace("./", "")`. */
  function WithoutDotSlash(s: string): string {
    if s == "" then ""
    else if |s| >= 2 && s[0] == '.' && s[1] == '/' then WithoutDotSlash(s[2..])
    else [s[0]] + WithoutDotSlash(s[1..])
  }

  ghost predicate NoDotSlash(s: string) {
    forall i :: 0 <= i < |s| - 1 ==> !(s[i] == '.' && s[i + 1] == '/')
  }

  function FilePaths(base: string, names: seq<string>): (r: seq<string>)
    ensures |r| == |names| && forall i :: 0 <= i < |names| ==> r[i] == base + names[i]
  {
    seq(|names|, i requires 0 <= i < |names| => base + names[i])
  }

  /** The paths of all the files below a directory. */
  function Paths(dir: Dir, base: string): seq<string> {
    FilePaths(base, dir.files) + FolderPaths(dir.folders, base)
  }

  function FolderPaths(folders: Folders, base: string): seq<string> {
    match folders
    case NoFolder => []
    case More(name, dir, rest) => Paths(dir, Sub(base, name)) + FolderPaths(rest, base)
  }

  // ---------- Records ----------

  function FileEntries(names: seq<string>, base: string, uploads: Uploads): (r: seq<FileEntry>)
    requires forall p <- FilePaths(base, names) :: p in uploads
    ensures |r| == |names|
    ensures forall i :: 0 <= i < |names| ==>
            base + names[i] in uploads && r[i] == FileEntry(names[i], uploads[base + names[i]])
  {
    seq(|names|, i requires 0 <= i < |names| =>
      assert FilePaths(base, names)[i] in FilePaths(base, names); FileEntry(names[i], uploads[base + names[i]]))
  }

  function FolderEntries(folders: Folders, base: string): seq<FolderEntry> {
    match folders
    case NoFolder => []
    case More(name, _, rest) => [FolderEntry(name, WithoutDotSlash(base) + name, -1)] + FolderEntries(rest, base)
  }

  predicate FilesUploaded(dir: Dir, base: string, uploads: Uploads) {
    forall p <- FilePaths(base, dir.files) :: p in uploads
  }

  /** The record of a directory before the totals, with `extra` files appended. */
  function Record(dir: Dir, base: string, uploads: Uploads, extra: seq<FileEntry>): Explorer
    requires FilesUploaded(dir, base, uploads)
  {
    Explorer(-1, -1, FileEntries(dir.files, base, uploads) + extra, FolderEntries(dir.folders, base))
  }

  /** `os.walk`, top down. */
  function WalkList(dir: Dir, base: string): seq<(string, Dir)> {
    [(base, dir)] + WalkFolders(dir.folders, base)
  }

  function WalkFolders(folders: Folders, base: string): seq<(string, Dir)> {
    match folders
    case NoFolder => []
    case More(name, dir, rest) => WalkList(dir, Sub(base, name)) + WalkFolders(rest, base)
  }

  // ---------- Totals ----------

  function SumOf(paths: seq<string>, uploads: Uploads): nat {
    if paths == [] then 0
    else (if paths[0] in uploads then uploads[paths[0]].size else 0) + SumOf(paths[1..], uploads)
  }

  function SumSizes(files: seq<FileEntry>): nat {
    if files == [] then 0 else files[0].attr.size + SumSizes(files[1..])
  }

  function SumInts(s: seq<int>): int {
    if s == [] then 0 else s[0] + SumInts(s[1..])
  }

  /** The folder entries once the totals are known. */
  function FolderTotals(folders: Folders, base: string, uploads: Uploads): seq<FolderEntry> {
    match folders
    case NoFolder => []
    case More(name, dir, rest) =>
      [FolderEntry(name, Key(Sub(base, name)), SumOf(Paths(dir, Sub(base, name)), uploads))] +
        FolderTotals(rest, base, uploads)
  }

  /** The record of a directory with its totals: the sum and the count over all the files below it. */
  function Totalled(dir: Dir, base: string, uploads: Uploads, extra: seq<FileEntry>): Explorer
    requires FilesUploaded(dir, base, uploads)
  {
    Explorer(SumOf(Paths(dir, base), uploads) + SumSizes(extra), |Paths(dir, base)| + |extra|,
             FileEntries(dir.files, base, uploads) + extra, FolderTotals(dir.folders, base, uploads))
  }

  lemma {:induction false} SumOfConcat(a: seq<string>, b: seq<string>, uploads: Uploads)
    ensures SumOf(a + b, uploads) == SumOf(a, uploads) + SumOf(b, uploads)
  {
    if a == [] {
      assert a + b == b;
    } else {
      assert (a + b)[1..] == a[1..] + b;
      SumOfConcat(a[1..], b, uploads);
    }
  }

  lemma {:induction false} SumSizesConcat(a: seq<FileEntry>, b: seq<FileEntry>)
    ensures SumSizes(a + b) == SumSizes(a) + SumSizes(b)
  {
    if a == [] {
      assert a + b == b;
    } else {
      assert (a + b)[1..] == a[1..] + b;
      SumSizesConcat(a[1..], b);
    }
  }

  lemma {:induction false} SumOfEntries(names: seq<string>, base: string, uploads: Uploads)
    requires forall p <- FilePaths(base, names) :: p in uploads
    ensures SumSizes(FileEntries(names, base, uploads)) == SumOf(FilePaths(base, names), uploads)
  {
    if names != [] {
      assert FilePaths(base, names)[0] in FilePaths(base, names);
      assert FilePaths(base, names)[1..] == FilePaths(base, names[1..]);
      assert forall p <- FilePaths(base, names[1..]) :: p in FilePaths(base, names);
      SumOfEntries(names[1..], base, uploads);
      assert FileEntries(names, base, uploads)[1..] == FileEntries(names[1..], base, uploads);
    }
  }

  // ---------- Names ----------

  /** A file or directory name; a walk lists neither `.` nor `..`. */
  predicate IsName(s: string) {
    s != "" && '/' !in s && s != "." && s != ".."
  }

  predicate HasFolder(folders: Folders, name: string) {
    folders.More? && (folders.name == name || HasFolder(folders.rest, name))
  }

  /** Names are proper and distinct in each directory. */
  ghost predicate WellNamed(dir: Dir) {
    && (forall f <- dir.files :: IsName(f) && !HasFolder(dir.folders, f))
    && NoDuplicates(dir.files)
    && WellNamedFolders(dir.folders)
  }

  ghost predicate WellNamedFolders(folders: Folders) {
    folders.More? ==>
      && IsName(folders.name)
      && !HasFolder(folders.rest, folders.name)
      && WellNamed(folders.dir) && WellNamedFolders(folders.rest)
  }

  ghost predicate IsBase(base: string) {
    base == "" || (|base| > 1 && base[|base| - 1] == '/')
  }

  lemma SubIsBase(base: string, name: string)
    requires IsBase(base) && IsName(name)
    ensures IsBase(Sub(base, name)) && Sub(base, name) != "" && Key(Sub(base, name)) == base + name
  {
  }

  predicate EndsWithDot(s: string) {
    s != "" && s[|s| - 1] == '.'
  }

  lemma NoDotSlashBelow(base: string, name: string)
    requires IsBase(base) && IsName(name)
    ensures NoDotSlash(Sub(base, name)) <==> NoDotSlash(base) && !EndsWithDot(name)
    ensures !NoDotSlash(base) ==> !NoDotSlash(base + name)
  {
    var s, n := Sub(base, name), |base| + |name|;
    assert s[n] == '/' && s[n - 1] == name[|name| - 1];
    assert forall i :: |base| <= i < n ==> s[i] == name[i - |base|] && name[i - |base|] in name;
    if !NoDotSlash(base) {
      var i :| 0 <= i < |base| - 1 && base[i] == '.' && base[i + 1] == '/';
      assert s[i] == '.' && s[i + 1] == '/';
      assert (base + name)[i] == '.' && (base + name)[i + 1] == '/';
    }
    if EndsWithDot(name) {
      assert s[n - 1] == '.' && s[n - 1 + 1] == '/';
    }
    if NoDotSlash(base) && !EndsWithDot(name) {
      forall i | 0 <= i < |s| - 1
        ensures !(s[i] == '.' && s[i + 1] == '/')
      {
        assert i < |base| - 1 ==> s[i] == base[i] && s[i + 1] == base[i + 1];
        assert |base| <= i + 1 < n ==> s[i + 1] == name[i + 1 - |base|];
      }
    }
  }

  // ---------- Trees whose folder entries name the records of their folders ----------

  /** No directory whose name ends with a dot has a sub-directory. */
  predicate NoDottedParent(folders: Folders) {
    folders.More? ==>
      && (EndsWithDot(folders.name) ==> folders.dir.folders.NoFolder?)
      && NoDottedParent(folders.dir.folders) && NoDottedParent(folders.rest)
  }

  /** Every directory with sub-directories has a base path that holds no `./`. */
  ghost predicate PathsIntact(dir: Dir, base: string) {
    (dir.folders.More? ==> NoDotSlash(base)) && FolderPathsIntact(dir.folders, base)
  }

  ghost predicate FolderPathsIntact(folders: Folders, base: string) {
    folders.More? ==> PathsIntact(folders.dir, Sub(base, folders.name)) && FolderPathsIntact(folders.rest, base)
  }

  lemma {:induction false} IntactByNames(folders: Folders, base: string)
    requires WellNamedFolders(folders) && IsBase(base) && NoDotSlash(base)
    ensures FolderPathsIntact(folders, base) <==> NoDottedParent(folders)
    decreases folders
  {
    if folders.More? {
      var sub := Sub(base, folders.name);
      SubIsBase(base, folders.name);
      NoDotSlashBelow(base, folders.name);
      IntactByNames(folders.rest, base);
      if !EndsWithDot(folders.name) {
        IntactByNames(folders.dir.folders, sub);
      } else if folders.dir.folders.NoFolder? {
        assert FolderPathsIntact(folders.dir.folders, sub) && NoDottedParent(folders.dir.folders);
      }
    }
  }

  /** The path of a folder entry is the key of the folder's record exactly when the base holds no `./`. */
  lemma {:induction false} DotSlashMatters(s: string)
    ensures |WithoutDotSlash(s)| <= |s|
    ensures WithoutDotSlash(s) == s <==> NoDotSlash(s)
  {
    if s != "" {
      if |s| >= 2 && s[0] == '.' && s[1] == '/' {
        DotSlashMatters(s[2..]);
      } else {
        DotSlashMatters(s[1..]);
        assert s == [s[0]] + s[1..];
        if NoDotSlash(s[1..]) {
          forall i | 0 <= i < |s| - 1
            ensures !(s[i] == '.' && s[i + 1] == '/')
          {
            assert i > 0 ==> s[i] == s[1..][i - 1] && s[i + 1] == s[1..][i];
          }
        } else {
          var i :| 0 <= i < |s[1..]| - 1 && s[1..][i] == '.' && s[1..][i + 1] == '/';
          assert s[i + 1] == '.' && s[i + 1 + 1] == '/';
        }
      }
    }
  }

  // ---------- Distinct directories have distinct keys ----------

  function Keys(dir: Dir, base: string): set<string> {
    {Key(base)} + FolderKeys(dir.folders, base)
  }

  function FolderKeys(folders: Folders, base: string): set<string> {
    match folders
    case NoFolder => {}
    case More(name, dir, rest) => Keys(dir, Sub(base, name)) + FolderKeys(rest, base)
  }

  /** Whatever stands below a base path starts with it. */
  lemma {:induction false} KeysStartWithBase(dir: Dir, base: string, k: string)
    requires WellNamed(dir) && IsBase(base) && base != "" && k in Keys(dir, base)
    ensures base <= k + "/"
    decreases dir, 1
  {
    if k in FolderKeys(dir.folders, base) {
      var name := FolderKeysStartWithName(dir.folders, base, k);
    }
  }

  lemma {:induction false} FolderKeysStartWithName(folders: Folders, base: string, k: string) returns (name: string)
    requires WellNamedFolders(folders) && IsBase(base) && k in FolderKeys(folders, base)
    ensures HasFolder(folders, name) && IsName(name) && Sub(base, name) <= k + "/" && |k| + 1 > |base|
    decreases folders, 0
  {
    if k in Keys(folders.dir, Sub(base, folders.name)) {
      SubIsBase(base, folders.name);
      KeysStartWithBase(folders.dir, Sub(base, folders.name), k);
      name := folders.name;
    } else {
      name := FolderKeysStartWithName(folders.rest, base, k);
    }
  }

  lemma SlashAfterName(base: string, name: string, k: string)
    requires IsName(name) && Sub(base, name) <= k
    ensures |base| + |name| < |k| && k[|base| + |name|] == '/'
    ensures forall x :: 0 <= x < |name| ==> k[|base| + x] == name[x] && k[|base| + x] != '/'
  {
    var s := Sub(base, name);
    assert s[|base| + |name|] == '/';
    assert forall x :: 0 <= x < |name| ==> s[|base| + x] == name[x] && name[x] in name;
  }

  /** Two sub-directories whose base paths start the same path are the same. */
  lemma PrefixDecidesName(base: string, m: string, n: string, k: string)
    requires IsName(m) && IsName(n) && Sub(base, m) <= k && Sub(base, n) <= k
    ensures m == n
  {
    SlashAfterName(base, m, k);
    SlashAfterName(base, n, k);
    assert |m| == |n|;
    assert forall x :: 0 <= x < |m| ==> m[x] == k[|base| + x] == n[x];
  }

  lemma KeyIsNotBelow(folders: Folders, base: string)
    requires WellNamedFolders(folders) && IsBase(base)
    ensures Key(base) !in FolderKeys(folders, base)
  {
    forall k | k in FolderKeys(folders, base)
      ensures |k| > |base|
    {
      var name := FolderKeysStartWithName(folders, base, k);
      assert |Sub(base, name)| >= |base| + 2;
    }
  }

  lemma SiblingsAreDisjoint(folders: Folders, base: string)
    requires folders.More? && WellNamedFolders(folders) && IsBase(base)
    ensures Keys(folders.dir, Sub(base, folders.name)) !! FolderKeys(folders.rest, base)
  {
    forall k | k in Keys(folders.dir, Sub(base, folders.name))
      ensures k !in FolderKeys(folders.rest, base)
    {
      SubIsBase(base, folders.name);
      KeysStartWithBase(folders.dir, Sub(base, folders.name), k);
      if k in FolderKeys(folders.rest, base) {
        var name := FolderKeysStartWithName(folders.rest, base, k);
        PrefixDecidesName(base, name, folders.name, k + "/");
      }
    }
  }

  // ---------- The records of a walked tree ----------

  type Data = map<string, Explorer>

  /** Every file below has been uploaded. */
  predicate Uploaded(dir: Dir, base: string, uploads: Uploads) {
    FilesUploaded(dir, base, uploads) && FoldersUploaded(dir.folders, base, uploads)
  }

  predicate FoldersUploaded(folders: Folders, base: string, uploads: Uploads) {
    folders.More? ==>
      Uploaded(folders.dir, Sub(base, folders.name), uploads) && FoldersUploaded(folders.rest, base, uploads)
  }

  ghost predicate Untouched(data: Data, dir: Dir, base: string, uploads: Uploads, extra: seq<FileEntry>)
    requires Uploaded(dir, base, uploads)
  {
    && Key(base) in data && data[Key(base)] == Record(dir, base, uploads, extra)
    && UntouchedFolders(data, dir.folders, base, uploads)
  }

  ghost predicate UntouchedFolders(data: Data, folders: Folders, base: string, uploads: Uploads)
    requires FoldersUploaded(folders, base, uploads)
  {
    folders.More? ==>
      && Untouched(data, folders.dir, Sub(base, folders.name), uploads, [])
      && UntouchedFolders(data, folders.rest, base, uploads)
  }

  /** Every directory from `base` down has its totals. */
  ghost predicate Finished(data: Data, dir: Dir, base: string, uploads: Uploads, extra: seq<FileEntry>)
    requires Uploaded(dir, base, uploads)
  {
    && Key(base) in data && data[Key(base)] == Totalled(dir, base, uploads, extra)
    && FinishedFolders(data, dir.folders, base, uploads)
  }

  ghost predicate FinishedFolders(data: Data, folders: Folders, base: string, uploads: Uploads)
    requires FoldersUploaded(folders, base, uploads)
  {
    folders.More? ==>
      && Finished(data, folders.dir, Sub(base, folders.name), uploads, [])
      && FinishedFolders(data, folders.rest, base, uploads)
  }

  ghost predicate SameOn(a: Data, b: Data, keys: set<string>) {
    forall k <- keys :: (k in a <==> k in b) && (k in a ==> a[k] == b[k])
  }

  lemma {:induction false} UntouchedDepends(a: Data, b: Data, dir: Dir, base: string, uploads: Uploads,
                                            extra: seq<FileEntry>)
    requires Uploaded(dir, base, uploads) && Untouched(a, dir, base, uploads, extra) && SameOn(a, b, Keys(dir, base))
    ensures Untouched(b, dir, base, uploads, extra)
    decreases dir, 1
  {
    assert Key(base) in Keys(dir, base);
    UntouchedFoldersDepends(a, b, dir.folders, base, uploads);
  }

  lemma {:induction false} UntouchedFoldersDepends(a: Data, b: Data, folders: Folders, base: string, uploads: Uploads)
    requires FoldersUploaded(folders, base, uploads) && UntouchedFolders(a, folders, base, uploads)
    requires SameOn(a, b, FolderKeys(folders, base))
    ensures UntouchedFolders(b, folders, base, uploads)
    decreases folders, 0
  {
    if folders.More? {
      UntouchedDepends(a, b, folders.dir, Sub(base, folders.name), uploads, []);
      UntouchedFoldersDepends(a, b, folders.rest, base, uploads);
    }
  }

  lemma {:induction false} FinishedDepends(a: Data, b: Data, dir: Dir, base: string, uploads: Uploads,
                                           extra: seq<FileEntry>)
    requires Uploaded(dir, base, uploads) && Finished(a, dir, base, uploads, extra) && SameOn(a, b, Keys(dir, base))
    ensures Finished(b, dir, base, uploads, extra)
    decreases dir, 1
  {
    assert Key(base) in Keys(dir, base);
    FinishedFoldersDepends(a, b, dir.folders, base, uploads);
  }

  lemma {:induction false} FinishedFoldersDepends(a: Data, b: Data, folders: Folders, base: string, uploads: Uploads)
    requires FoldersUploaded(folders, base, uploads) && FinishedFolders(a, folders, base, uploads)
    requires SameOn(a, b, FolderKeys(folders, base))
    ensures FinishedFolders(b, folders, base, uploads)
    decreases folders, 0
  {
    if folders.More? {
      FinishedDepends(a, b, folders.dir, Sub(base, folders.name), uploads, []);
      FinishedFoldersDepends(a, b, folders.rest, base, uploads);
    }
  }

  // ---------- The computation ----------

  /** The sizes and the counts of the folders, in order. */
  function FolderSizes(folders: Folders, base: string, uploads: Uploads): seq<int> {
    match folders
    case NoFolder => []
    case More(name, dir, rest) => [SumOf(Paths(dir, Sub(base, name)), uploads)] + FolderSizes(rest, base, uploads)
  }

  function FolderCounts(folders: Folders, base: string): seq<int> {
    match folders
    case NoFolder => []
    case More(name, dir, rest) => [|Paths(dir, Sub(base, name))|] + FolderCounts(rest, base)
  }

  function WithSizes(entries: seq<FolderEntry>, sizes: seq<int>): (r: seq<FolderEntry>)
    requires |entries| == |sizes|
  {
    if entries == [] then [] else [entries[0].(size := sizes[0])] + WithSizes(entries[1..], sizes[1..])
  }

  /** Filling in the sizes completes the folder entries, and their sums are the sums below the folders. */
  lemma {:induction false} SizesComplete(folders: Folders, base: string, uploads: Uploads)
    requires WellNamedFolders(folders) && IsBase(base) && (folders.More? ==> NoDotSlash(base))
    ensures |FolderEntries(folders, base)| == |FolderSizes(folders, base, uploads)|
    ensures WithSizes(FolderEntries(folders, base), FolderSizes(folders, base, uploads)) ==
            FolderTotals(folders, base, uploads)
    ensures SumInts(FolderSizes(folders, base, uploads)) == SumOf(FolderPaths(folders, base), uploads)
    ensures SumInts(FolderCounts(folders, base)) == |FolderPaths(folders, base)|
    decreases folders
  {
    if folders.More? {
      SizesComplete(folders.rest, base, uploads);
      SubIsBase(base, folders.name);
      DotSlashMatters(base);
      SumOfConcat(Paths(folders.dir, Sub(base, folders.name)), FolderPaths(folders.rest, base), uploads);
      assert FolderEntries(folders, base)[1..] == FolderEntries(folders.rest, base);
      assert FolderSizes(folders, base, uploads)[1..] == FolderSizes(folders.rest, base, uploads);
      assert FolderCounts(folders, base)[1..] == FolderCounts(folders.rest, base);
    }
  }

  lemma TotalOfDirectory(dir: Dir, base: string, uploads: Uploads, extra: seq<FileEntry>)
    requires FilesUploaded(dir, base, uploads)
    ensures SumSizes(FileEntries(dir.files, base, uploads) + extra) + SumOf(FolderPaths(dir.folders, base), uploads)
         == SumOf(Paths(dir, base), uploads) + SumSizes(extra)
  {
    SumSizesConcat(FileEntries(dir.files, base, uploads), extra);
    SumOfEntries(dir.files, base, uploads);
    SumOfConcat(FilePaths(base, dir.files), FolderPaths(dir.folders, base), uploads);
  }

  // ---------- The paths that are looked up ----------

  /** The base path of the directory recorded under a key. */
  function BaseOf(key: string): string {
    if key == "" then "" else key + "/"
  }

  /** The entry is named and placed as the walk does for a folder of the directory recorded under the key. */
  predicate IsEntryOf(key: string, entry: FolderEntry) {
    IsName(entry.name) && entry.path == WithoutDotSlash(BaseOf(key)) + entry.name
  }

  /** Every folder entry of the records is one of the walk. */
  ghost predicate WellBuilt(data: Data) {
    forall k <- data :: forall e <- data[k].folders :: IsEntryOf(k, e)
  }

  lemma {:induction false} WithoutLastSlash(s: string)
    requires NoDotSlash(s) && s != ""
    ensures WithoutDotSlash(s + "/") == if EndsWithDot(s) then s[..|s| - 1] else s + "/"
  {
    var t := s + "/";
    if |s| == 1 {
      assert t[1..] == "/" && t[2..] == "" && "/"[1..] == "";
    } else {
      assert t[1..] == s[1..] + "/";
      assert !(s[0] == '.' && s[0 + 1] == '/');
      forall i | 0 <= i < |s[1..]| - 1
        ensures !(s[1..][i] == '.' && s[1..][i + 1] == '/')
      {
        assert !(s[i + 1] == '.' && s[i + 1 + 1] == '/');
      }
      WithoutLastSlash(s[1..]);
    }
  }

  /** Bounds the recursion: it grows smaller along the paths looked up. */
  function PathsLeft(path: string, longest: nat): nat {
    if |path| <= longest then 2 * (longest - |path|) + (if EndsWithDot(path) then 1 else 0) else 0
  }

  /** A path that is looked up holds no `./`, and is longer, or as long without the final dot. */
  lemma NextPath(key: string, entry: FolderEntry, longest: nat)
    requires NoDotSlash(key) && |key| <= longest && IsEntryOf(key, entry)
    ensures NoDotSlash(entry.path)
    ensures |entry.path| <= longest ==> PathsLeft(entry.path, longest) < PathsLeft(key, longest)
  {
    var name, p := entry.name, entry.path;
    assert name[|name| - 1] == p[|p| - 1];
    assert |name| == 1 ==> name == [name[0]];
    if key != "" {
      WithoutLastSlash(key);
    }
    var start := |p| - |name|;
    forall i | 0 <= i < |p| - 1
      ensures !(p[i] == '.' && p[i + 1] == '/')
    {
      assert i + 1 >= start ==> p[i + 1] == name[i + 1 - start] && name[i + 1 - start] in name;
      assert i + 1 < start && i + 1 < |key| ==> p[i] == key[i] && p[i + 1] == key[i + 1];
    }
  }

  lemma {:induction false} EntriesAreOfWalk(folders: Folders, base: string, key: string)
    requires WellNamedFolders(folders) && base == BaseOf(key)
    ensures forall e <- FolderEntries(folders, base) :: IsEntryOf(key, e)
    decreases folders
  {
    if folders.More? {
      EntriesAreOfWalk(folders.rest, base, key);
    }
  }

  lemma {:induction false} SizesKeepEntries(key: string, entries: seq<FolderEntry>, sizes: seq<int>)
    requires |entries| == |sizes| && forall e <- entries :: IsEntryOf(key, e)
    ensures forall e <- WithSizes(entries, sizes) :: IsEntryOf(key, e)
  {
    if entries != [] {
      assert forall e <- entries[1..] :: e in entries;
      SizesKeepEntries(key, entries[1..], sizes[1..]);
      var first := entries[0].(size := sizes[0]);
      assert entries[0] in entries && IsEntryOf(key, first);
      assert forall e <- WithSizes(entries, sizes) :: e == first || e in WithSizes(entries[1..], sizes[1..]);
    }
  }

  /** Records under keys that hold `./` are out of reach. */
  ghost predicate OutOfReachKept(before: Data, after: Data) {
    after.Keys == before.Keys && forall k <- before :: !NoDotSlash(k) ==> after[k] == before[k]
  }

  /** What the recursion meets: entries of the walk under a key of bounded length, without `./`. */
  ghost predicate Reached(data: Data, key: string, longest: nat) {
    && WellBuilt(data) && (forall k <- data :: |k| <= longest)
    && key in data && NoDotSlash(key)
  }

  /** The part of the tree that the recursion stands for, when its paths are intact. */
  datatype Place = Place(dir: Dir, base: string, uploads: Uploads, extra: seq<FileEntry>)

  ghost predicate AtPlace(data: Data, key: string, place: Place) {
    && WellNamed(place.dir) && IsBase(place.base) && PathsIntact(place.dir, place.base)
    && Uploaded(place.dir, place.base, place.uploads) && key == Key(place.base)
    && Untouched(data, place.dir, place.base, place.uploads, place.extra)
  }

  ghost predicate AtFolders(data: Data, entries: seq<FolderEntry>, folders: Folders, place: Place) {
    && WellNamedFolders(folders) && IsBase(place.base) && FolderPathsIntact(folders, place.base)
    && (folders.More? ==> NoDotSlash(place.base))
    && FoldersUploaded(folders, place.base, place.uploads) && entries == FolderEntries(folders, place.base)
    && UntouchedFolders(data, folders, place.base, place.uploads)
  }

  /** Only records under the keys have changed. */
  ghost predicate FrameKept(before: Data, after: Data, keys: set<string>) {
    after.Keys == before.Keys && forall k <- after :: k in keys || after[k] == before[k]
  }

  ghost predicate TotalsOf(place: Place, size: int, count: int) {
    && size == SumOf(Paths(place.dir, place.base), place.uploads) + SumSizes(place.extra)
    && count == |Paths(place.dir, place.base)| + |place.extra|
  }

  /** The first folder of such a list of entries, and the others. */
  lemma FirstFolder(data: Data, entries: seq<FolderEntry>, folders: Folders, place: Place)
    requires AtFolders(data, entries, folders, place) && entries != []
    ensures folders.More?
    ensures var sub := Place(folders.dir, Sub(place.base, folders.name), place.uploads, []);
      AtPlace(data, entries[0].path, sub)
    ensures entries[1..] == FolderEntries(folders.rest, place.base)
  {
    SubIsBase(place.base, folders.name);
    DotSlashMatters(place.base);
  }

  /** The first folder is finished while the others are untouched. */
  lemma OtherFolders(before: Data, data: Data, entries: seq<FolderEntry>, folders: Folders, place: Place)
    requires AtFolders(before, entries, folders, place) && entries != [] && folders.More?
    requires FrameKept(before, data, Keys(folders.dir, Sub(place.base, folders.name)))
    ensures AtFolders(data, entries[1..], folders.rest, place)
  {
    FirstFolder(before, entries, folders, place);
    SiblingsAreDisjoint(folders, place.base);
    UntouchedFoldersDepends(before, data, folders.rest, place.base, place.uploads);
  }

  /** The first folder stays finished while the others are computed. */
  lemma FirstStaysFinished(before: Data, data: Data, folders: Folders, place: Place)
    requires folders.More? && WellNamedFolders(folders) && IsBase(place.base) &&
             FoldersUploaded(folders, place.base, place.uploads)
    requires FrameKept(before, data, FolderKeys(folders.rest, place.base))
    requires Finished(before, folders.dir, Sub(place.base, folders.name), place.uploads, [])
    ensures Finished(data, folders.dir, Sub(place.base, folders.name), place.uploads, [])
  {
    SiblingsAreDisjoint(folders, place.base);
    FinishedDepends(before, data, folders.dir, Sub(place.base, folders.name), place.uploads, []);
  }

  // ---------- The recursion, on any records ----------

  /** The records, the sizes and the counts after the folders of one record. */
  datatype FoldersDone = FoldersDone(data: Data, sizes: seq<int>, counts: seq<int>)

  /** The records, the size and the count after one record. */
  datatype RecordDone = RecordDone(data: Data, size: int, count: int)

  function WithTotals(content: Explorer, done: FoldersDone): Explorer
    requires |done.sizes| == |content.folders|
  {
    Explorer(SumSizes(content.files) + SumInts(done.sizes), |content.files| + SumInts(done.counts),
             content.files, WithSizes(content.folders, done.sizes))
  }

  lemma TotalsKeepReached(data: Data, key: string, longest: nat, done: FoldersDone)
    requires Reached(data, key, longest) && Reached(done.data, key, longest) && |done.sizes| == |data[key].folders|
    requires OutOfReachKept(data, done.data)
    ensures var after := done.data[key := WithTotals(data[key], done)];
      Reached(after, key, longest) && OutOfReachKept(data, after)
  {
    SizesKeepEntries(key, data[key].folders, done.sizes);
  }

  lemma StillReached(data: Data, after: Data, key: string, longest: nat)
    requires Reached(data, key, longest) && WellBuilt(after) && OutOfReachKept(data, after)
    ensures Reached(after, key, longest)
  {
  }

  /** The folder entries of one record in turn; `None` when a path names no record. */
  ghost function ComputedFolders(data: Data, entries: seq<FolderEntry>, key: string,
                                 longest: nat): (r: Option<FoldersDone>)
    requires Reached(data, key, longest) && forall e <- entries :: IsEntryOf(key, e)
    ensures r.Some? ==> WellBuilt(r.value.data) && OutOfReachKept(data, r.value.data) && |r.value.sizes| == |entries|
    decreases PathsLeft(key, longest), 0, |entries|
  {
    if entries == [] then Some(FoldersDone(data, [], []))
    else
      assert IsEntryOf(key, entries[0]);
      NextPath(key, entries[0], longest);
      if entries[0].path !in data then None
      else
        match ComputedRecord(data, entries[0].path, longest)
        case None => None
        case Some(first) =>
          StillReached(data, first.data, key, longest);
          assert forall e <- entries[1..] :: e in entries;
          match ComputedFolders(first.data, entries[1..], key, longest)
          case None => None
          case Some(others) =>
            Some(FoldersDone(others.data, [first.size] + others.sizes, [first.count] + others.counts))
  }

  /** Ends on any records: the paths looked up grow, and there are finitely many. */
  ghost function ComputedRecord(data: Data, path: string, longest: nat): (r: Option<RecordDone>)
    requires Reached(data, path, longest)
    ensures r.Some? ==> WellBuilt(r.value.data) && OutOfReachKept(data, r.value.data)
    decreases PathsLeft(path, longest), 1, 0
  {
    match ComputedFolders(data, data[path].folders, path, longest)
    case None => None
    case Some(done) =>
      StillReached(data, done.data, path, longest);
      TotalsKeepReached(data, path, longest, done);
      var content := WithTotals(data[path], done);
      Some(RecordDone(done.data[path := content], content.size, content.filesCount))
  }

  class Explorers {
    var data: Data

    constructor ()
      ensures data == map[]
    {
      data := map[];
    }

    /** The recursion over the folder entries of one record. */
    method ComputeFolders(entries: seq<FolderEntry>, ghost key: string, ghost longest: nat)
      returns (ok: bool, sizes: seq<int>, counts: seq<int>)
      requires Reached(data, key, longest) && forall e <- entries :: IsEntryOf(key, e)
      modifies this
      ensures ok <==> ComputedFolders(old(data), entries, key, longest).Some?
      ensures ok ==> ComputedFolders(old(data), entries, key, longest) == Some(FoldersDone(data, sizes, counts))
      decreases PathsLeft(key, longest), 0, |entries|
    {
      sizes, counts := [], [];
      if entries == [] {
        return true, [], [];
      }
      assert IsEntryOf(key, entries[0]);
      NextPath(key, entries[0], longest);
      if entries[0].path !in data {
        return false, [], [];
      }
      var size, count;
      ok, size, count := ComputeAttributesRec(entries[0].path, longest);
      if ok {
        StillReached(old(data), data, key, longest);
        assert forall e <- entries[1..] :: e in entries;
        ok, sizes, counts := ComputeFolders(entries[1..], key, longest);
        sizes, counts := [size] + sizes, [count] + counts;
      }
    }

    method ComputeAttributesRec(path: string, ghost longest: nat) returns (ok: bool, size: int, count: int)
      requires Reached(data, path, longest)
      modifies this
      ensures ok <==> ComputedRecord(old(data), path, longest).Some?
      ensures ok ==> ComputedRecord(old(data), path, longest) == Some(RecordDone(data, size, count))
      decreases PathsLeft(path, longest), 1, 0
    {
      size, count := 0, 0;
      var content := data[path];
      var sizeFiles := SumSizes(content.files);
      var sizes, counts;
      ok, sizes, counts := ComputeFolders(content.folders, path, longest);
      if ok {
        size := sizeFiles + SumInts(sizes);
        count := |content.files| + SumInts(counts);
        data := data[path := Explorer(size, count, content.files, WithSizes(content.folders, sizes))];
      }
    }
  }

  // ---------- The recursion, on a tree whose paths are intact ----------

  /** The recursion over the folders finishes their records and touches no other. */
  lemma {:induction false} FoldersAreFinished(data: Data, entries: seq<FolderEntry>, key: string, longest: nat,
                                              folders: Folders, place: Place, r: Option<FoldersDone>)
    requires Reached(data, key, longest) && (forall e <- entries :: IsEntryOf(key, e))
    requires AtFolders(data, entries, folders, place) && r == ComputedFolders(data, entries, key, longest)
    ensures r.Some? && r.value.sizes == FolderSizes(folders, place.base, place.uploads)
    ensures r.value.counts == FolderCounts(folders, place.base)
    ensures FinishedFolders(r.value.data, folders, place.base, place.uploads)
    ensures FrameKept(data, r.value.data, FolderKeys(folders, place.base))
    decreases folders, 0
  {
    if entries != [] {
      FirstFolder(data, entries, folders, place);
      NextPath(key, entries[0], longest);
      var sub := Place(folders.dir, Sub(place.base, folders.name), place.uploads, []);
      var first := ComputedRecord(data, entries[0].path, longest);
      RecordIsFinished(data, entries[0].path, longest, sub, first);
      StillReached(data, first.value.data, key, longest);
      OtherFolders(data, first.value.data, entries, folders, place);
      assert forall e <- entries[1..] :: e in entries;
      var others := ComputedFolders(first.value.data, entries[1..], key, longest);
      FoldersAreFinished(first.value.data, entries[1..], key, longest, folders.rest, place, others);
      FirstStaysFinished(first.value.data, others.value.data, folders, place);
    }
  }

  /** The recursion answers and records the totals of a directory, and touches no record outside it. */
  lemma {:induction false} RecordIsFinished(data: Data, path: string, longest: nat, place: Place, r: Option<RecordDone>)
    requires Reached(data, path, longest) && AtPlace(data, path, place) && r == ComputedRecord(data, path, longest)
    ensures r.Some? && TotalsOf(place, r.value.size, r.value.count)
    ensures Finished(r.value.data, place.dir, place.base, place.uploads, place.extra)
    ensures FrameKept(data, r.value.data, Keys(place.dir, place.base))
    decreases place.dir, 1
  {
    var done := ComputedFolders(data, data[path].folders, path, longest);
    FoldersAreFinished(data, data[path].folders, path, longest, place.dir.folders, place, done);
    TotalsAreRecord(data[path], done.value, place);
    FinishRecord(done.value.data, place.dir, place.base, place.uploads, place.extra);
  }

  lemma TotalsAreRecord(content: Explorer, done: FoldersDone, place: Place)
    requires WellNamed(place.dir) && IsBase(place.base) && PathsIntact(place.dir, place.base)
    requires Uploaded(place.dir, place.base, place.uploads)
    requires content == Record(place.dir, place.base, place.uploads, place.extra)
    requires done.sizes == FolderSizes(place.dir.folders, place.base, place.uploads)
    requires done.counts == FolderCounts(place.dir.folders, place.base)
    ensures |done.sizes| == |content.folders|
    ensures WithTotals(content, done) == Totalled(place.dir, place.base, place.uploads, place.extra)
  {
    SizesComplete(place.dir.folders, place.base, place.uploads);
    TotalOfDirectory(place.dir, place.base, place.uploads, place.extra);
  }

  /** Once its folders are finished, a directory is finished by writing its record. */
  lemma FinishRecord(data: Data, dir: Dir, base: string, uploads: Uploads, extra: seq<FileEntry>)
    requires WellNamed(dir) && IsBase(base) && Uploaded(dir, base, uploads)
    requires FinishedFolders(data, dir.folders, base, uploads)
    ensures Finished(data[Key(base) := Totalled(dir, base, uploads, extra)], dir, base, uploads, extra)
  {
    KeyIsNotBelow(dir.folders, base);
    FinishedFoldersDepends(data, data[Key(base) := Totalled(dir, base, uploads, extra)], dir.folders, base, uploads);
  }

  // ---------- The walk ----------

  ghost predicate WalkDistinct(walk: seq<(string, Dir)>) {
    forall i, j :: 0 <= i < j < |walk| ==> Key(walk[i].0) != Key(walk[j].0)
  }

  lemma {:induction false} WalkInKeys(dir: Dir, base: string)
    ensures forall x <- WalkList(dir, base) :: Key(x.0) in Keys(dir, base)
    ensures forall k <- Keys(dir, base) :: exists x <- WalkList(dir, base) :: Key(x.0) == k
    decreases dir, 1
  {
    WalkInFolderKeys(dir.folders, base);
    assert (base, dir) in WalkList(dir, base);
    assert forall x <- WalkFolders(dir.folders, base) :: x in WalkList(dir, base);
  }

  lemma {:induction false} WalkInFolderKeys(folders: Folders, base: string)
    ensures forall x <- WalkFolders(folders, base) :: Key(x.0) in FolderKeys(folders, base)
    ensures forall k <- FolderKeys(folders, base) :: exists x <- WalkFolders(folders, base) :: Key(x.0) == k
    decreases folders, 0
  {
    if folders.More? {
      WalkInKeys(folders.dir, Sub(base, folders.name));
      WalkInFolderKeys(folders.rest, base);
      assert forall x <- WalkList(folders.dir, Sub(base, folders.name)) :: x in WalkFolders(folders, base);
      assert forall x <- WalkFolders(folders.rest, base) :: x in WalkFolders(folders, base);
    }
  }

  lemma DistinctTogether(a: seq<(string, Dir)>, b: seq<(string, Dir)>, keysOfA: set<string>, keysOfB: set<string>)
    requires WalkDistinct(a) && WalkDistinct(b) && keysOfA !! keysOfB
    requires (forall x <- a :: Key(x.0) in keysOfA) && (forall x <- b :: Key(x.0) in keysOfB)
    ensures WalkDistinct(a + b)
  {
    var c := a + b;
    forall i, j | 0 <= i < j < |c|
      ensures Key(c[i].0) != Key(c[j].0)
    {
      assert i < |a| ==> c[i] in a;
      assert j >= |a| ==> c[j] == b[j - |a|] && c[j] in b;
      assert i >= |a| ==> c[i] == b[i - |a|];
    }
  }

  /** No two directories walked have the same key. */
  lemma {:induction false} WalkHasDistinctKeys(dir: Dir, base: string)
    requires WellNamed(dir) && IsBase(base)
    ensures WalkDistinct(WalkList(dir, base))
    decreases dir, 1
  {
    FoldersHaveDistinctKeys(dir.folders, base);
    WalkInFolderKeys(dir.folders, base);
    KeyIsNotBelow(dir.folders, base);
    DistinctTogether([(base, dir)], WalkFolders(dir.folders, base), {Key(base)}, FolderKeys(dir.folders, base));
  }

  lemma {:induction false} FoldersHaveDistinctKeys(folders: Folders, base: string)
    requires WellNamedFolders(folders) && IsBase(base)
    ensures WalkDistinct(WalkFolders(folders, base))
    decreases folders, 0
  {
    if folders.More? {
      var sub := Sub(base, folders.name);
      SubIsBase(base, folders.name);
      WalkHasDistinctKeys(folders.dir, sub);
      FoldersHaveDistinctKeys(folders.rest, base);
      WalkInKeys(folders.dir, sub);
      WalkInFolderKeys(folders.rest, base);
      SiblingsAreDisjoint(folders, base);
      DistinctTogether(WalkList(folders.dir, sub), WalkFolders(folders.rest, base),
                       Keys(folders.dir, sub), FolderKeys(folders.rest, base));
    }
  }

  lemma {:induction false} UploadedInWalk(dir: Dir, base: string, uploads: Uploads)
    ensures Uploaded(dir, base, uploads) <==> forall x <- WalkList(dir, base) :: FilesUploaded(x.1, x.0, uploads)
    decreases dir, 1
  {
    FoldersUploadedInWalk(dir.folders, base, uploads);
    assert (base, dir) in WalkList(dir, base);
    assert forall x <- WalkFolders(dir.folders, base) :: x in WalkList(dir, base);
  }

  lemma {:induction false} FoldersUploadedInWalk(folders: Folders, base: string, uploads: Uploads)
    ensures FoldersUploaded(folders, base, uploads) <==>
      forall x <- WalkFolders(folders, base) :: FilesUploaded(x.1, x.0, uploads)
    decreases folders, 0
  {
    if folders.More? {
      UploadedInWalk(folders.dir, Sub(base, folders.name), uploads);
      FoldersUploadedInWalk(folders.rest, base, uploads);
      assert forall x <- WalkList(folders.dir, Sub(base, folders.name)) :: x in WalkFolders(folders, base);
      assert forall x <- WalkFolders(folders.rest, base) :: x in WalkFolders(folders, base);
    }
  }

  /** The walked directory has its record. */
  ghost predicate HasRecord(data: Data, x: (string, Dir), uploads: Uploads) {
    FilesUploaded(x.1, x.0, uploads) && Key(x.0) in data && data[Key(x.0)] == Record(x.1, x.0, uploads, [])
  }

  lemma {:induction false} UntouchedAfterWalk(data: Data, dir: Dir, base: string, uploads: Uploads)
    requires Uploaded(dir, base, uploads) && forall x <- WalkList(dir, base) :: HasRecord(data, x, uploads)
    ensures Untouched(data, dir, base, uploads, [])
    decreases dir, 1
  {
    assert (base, dir) in WalkList(dir, base);
    assert forall x <- WalkFolders(dir.folders, base) :: x in WalkList(dir, base);
    UntouchedFoldersAfterWalk(data, dir.folders, base, uploads);
  }

  lemma {:induction false} UntouchedFoldersAfterWalk(data: Data, folders: Folders, base: string, uploads: Uploads)
    requires FoldersUploaded(folders, base, uploads) &&
             forall x <- WalkFolders(folders, base) :: HasRecord(data, x, uploads)
    ensures UntouchedFolders(data, folders, base, uploads)
    decreases folders, 0
  {
    if folders.More? {
      assert forall x <- WalkList(folders.dir, Sub(base, folders.name)) :: x in WalkFolders(folders, base);
      assert forall x <- WalkFolders(folders.rest, base) :: x in WalkFolders(folders, base);
      UntouchedAfterWalk(data, folders.dir, Sub(base, folders.name), uploads);
      UntouchedFoldersAfterWalk(data, folders.rest, base, uploads);
    }
  }

  // ---------- The whole computation ----------

  function FormPairs(forms: seq<Form>): (r: seq<(string, Attr)>)
    ensures |r| == |forms| && forall i :: 0 <= i < |forms| ==> r[i] == (forms[i].path, forms[i].attr)
  {
    seq(|forms|, i requires 0 <= i < |forms| => (forms[i].path, forms[i].attr))
  }

  function UploadsOf(forms: seq<Form>): Uploads {
    FromPairs(FormPairs(forms)).vals
  }

  function ZipEntry(uploads: Uploads): FileEntry
    requires ORIGINAL_ZIP_FILE in uploads
  {
    FileEntry(ORIGINAL_ZIP_FILE, uploads[ORIGINAL_ZIP_FILE])
  }

  /** The records hold the first directories of the walk, and no other key. */
  ghost predicate WalkedSoFar(data: Data, walk: seq<(string, Dir)>, uploads: Uploads) {
    && (forall x <- walk :: HasRecord(data, x, uploads))
    && (forall k <- data :: exists x <- walk :: Key(x.0) == k)
  }

  lemma WalkOneMore(data: Data, walk: seq<(string, Dir)>, x: (string, Dir), uploads: Uploads)
    requires WalkedSoFar(data, walk, uploads) && FilesUploaded(x.1, x.0, uploads) && WalkDistinct(walk + [x])
    ensures WalkedSoFar(data[Key(x.0) := Record(x.1, x.0, uploads, [])], walk + [x], uploads)
  {
    var data' := data[Key(x.0) := Record(x.1, x.0, uploads, [])];
    var longer := walk + [x];
    forall y | y in walk
      ensures HasRecord(data', y, uploads)
    {
      var j :| 0 <= j < |walk| && walk[j] == y;
      assert longer[j] == y && longer[|walk|] == x;
      assert HasRecord(data, y, uploads);
    }
    forall k | k in data'
      ensures exists y <- longer :: Key(y.0) == k
    {
      if k == Key(x.0) {
        assert x in longer;
      } else {
        var y :| y in walk && Key(y.0) == k;
        assert y in longer;
      }
    }
  }

  /** The loop over the walk; `false` when a file on disk has no upload. */
  method FillRecords(explorers: Explorers, walk: seq<(string, Dir)>, uploads: Uploads) returns (ok: bool)
    requires explorers.data == map[] && WalkDistinct(walk)
    modifies explorers
    ensures ok <==> forall x <- walk :: FilesUploaded(x.1, x.0, uploads)
    ensures ok ==> WalkedSoFar(explorers.data, walk, uploads)
  {
    for i := 0 to |walk|
      invariant forall x <- walk[..i] :: FilesUploaded(x.1, x.0, uploads)
      invariant WalkedSoFar(explorers.data, walk[..i], uploads)
    {
      var (base, folder) := walk[i];
      assert walk[i] in walk;
      assert walk[..i + 1] == walk[..i] + [walk[i]];
      if !FilesUploaded(folder, base, uploads) {
        return false;
      }
      WalkOneMore(explorers.data, walk[..i], walk[i], uploads);
      explorers.data := explorers.data[Key(base) := Record(folder, base, uploads, [])];
    }
    assert walk[..|walk|] == walk;
    ok := true;
  }

  /** Appending the original zip to the files of the root. */
  lemma ZipAppended(data: Data, dir: Dir, uploads: Uploads)
    requires WellNamed(dir) && Uploaded(dir, "", uploads) && ORIGINAL_ZIP_FILE in uploads
    requires Untouched(data, dir, "", uploads, [])
    ensures var root := data[""];
      Untouched(data["" := root.(files := root.files + [ZipEntry(uploads)])], dir, "", uploads, [ZipEntry(uploads)])
  {
    var root := data[""];
    KeyIsNotBelow(dir.folders, "");
    UntouchedFoldersDepends(data, data["" := root.(files := root.files + [ZipEntry(uploads)])], dir.folders, "",
      uploads);
    assert FileEntries(dir.files, "", uploads) + [] == FileEntries(dir.files, "", uploads);
  }

  lemma {:induction false} WalkedBases(dir: Dir, base: string)
    requires WellNamed(dir) && IsBase(base)
    ensures forall x <- WalkList(dir, base) :: IsBase(x.0) && WellNamedFolders(x.1.folders)
    decreases dir, 1
  {
    WalkedFolderBases(dir.folders, base);
  }

  lemma {:induction false} WalkedFolderBases(folders: Folders, base: string)
    requires WellNamedFolders(folders) && IsBase(base)
    ensures forall x <- WalkFolders(folders, base) :: IsBase(x.0) && WellNamedFolders(x.1.folders)
    decreases folders, 0
  {
    if folders.More? {
      SubIsBase(base, folders.name);
      WalkedBases(folders.dir, Sub(base, folders.name));
      WalkedFolderBases(folders.rest, base);
    }
  }

  lemma RecordIsBuilt(data: Data, x: (string, Dir), uploads: Uploads, key: string)
    requires HasRecord(data, x, uploads) && IsBase(x.0) && WellNamedFolders(x.1.folders) && key == Key(x.0)
    ensures forall e <- data[key].folders :: IsEntryOf(key, e)
  {
    EntriesAreOfWalk(x.1.folders, x.0, key);
  }

  lemma BuiltByWalk(data: Data, walk: seq<(string, Dir)>, uploads: Uploads)
    requires WalkedSoFar(data, walk, uploads)
    requires forall x <- walk :: IsBase(x.0) && WellNamedFolders(x.1.folders)
    ensures WellBuilt(data)
  {
    forall k | k in data
      ensures forall e <- data[k].folders :: IsEntryOf(k, e)
    {
      var x :| x in walk && Key(x.0) == k;
      RecordIsBuilt(data, x, uploads, k);
    }
  }

  lemma {:induction false} LongestKey(keys: set<string>) returns (longest: nat)
    ensures forall k <- keys :: |k| <= longest
    decreases |keys|
  {
    if keys == {} {
      longest := 0;
    } else {
      var k :| k in keys;
      var others := LongestKey(keys - {k});
      longest := if |k| > others then |k| else others;
    }
  }

  /** A directory whose paths are not intact has a folder out of reach, which keeps its missing size. */
  lemma {:induction false} BrokenFolder(data: Data, dir: Dir, base: string, uploads: Uploads, extra: seq<FileEntry>)
    returns (k: string)
    requires WellNamed(dir) && IsBase(base) && !PathsIntact(dir, base)
    requires Uploaded(dir, base, uploads) && Untouched(data, dir, base, uploads, extra)
    ensures k in data && !NoDotSlash(k) && data[k].size == -1
    decreases dir, 1
  {
    if dir.folders.More? && !NoDotSlash(base) {
      NoDotSlashBelow(base, dir.folders.name);
      SubIsBase(base, dir.folders.name);
      assert Untouched(data, dir.folders.dir, Sub(base, dir.folders.name), uploads, []);
      k := base + dir.folders.name;
    } else {
      k := BrokenAmongFolders(data, dir.folders, base, uploads);
    }
  }

  lemma {:induction false} BrokenAmongFolders(data: Data, folders: Folders, base: string, uploads: Uploads)
    returns (k: string)
    requires WellNamedFolders(folders) && IsBase(base) && !FolderPathsIntact(folders, base)
    requires FoldersUploaded(folders, base, uploads) && UntouchedFolders(data, folders, base, uploads)
    ensures k in data && !NoDotSlash(k) && data[k].size == -1
    decreases folders, 0
  {
    SubIsBase(base, folders.name);
    if !PathsIntact(folders.dir, Sub(base, folders.name)) {
      k := BrokenFolder(data, folders.dir, Sub(base, folders.name), uploads, []);
    } else {
      k := BrokenAmongFolders(data, folders.rest, base, uploads);
    }
  }

  lemma {:induction false} FinishedHasSizes(data: Data, dir: Dir, base: string, uploads: Uploads, extra: seq<FileEntry>)
    requires Uploaded(dir, base, uploads) && Finished(data, dir, base, uploads, extra)
    ensures forall k <- Keys(dir, base) :: k in data && data[k].size >= 0
    decreases dir, 1
  {
    FoldersHaveSizes(data, dir.folders, base, uploads);
  }

  lemma {:induction false} FoldersHaveSizes(data: Data, folders: Folders, base: string, uploads: Uploads)
    requires FoldersUploaded(folders, base, uploads) && FinishedFolders(data, folders, base, uploads)
    ensures forall k <- FolderKeys(folders, base) :: k in data && data[k].size >= 0
    decreases folders, 0
  {
    if folders.More? {
      FinishedHasSizes(data, folders.dir, Sub(base, folders.name), uploads, []);
      FoldersHaveSizes(data, folders.rest, base, uploads);
    }
  }

  /** All the files on disk and the original zip have been uploaded. */
  predicate Complete(dir: Dir, forms: seq<Form>) {
    Uploaded(dir, "", UploadsOf(forms)) && ORIGINAL_ZIP_FILE in UploadsOf(forms)
  }

  /** The records answered are those of the directories, each with its totals. */
  ghost predicate IsExplorerOf(r: Option<Data>, dir: Dir, forms: seq<Form>)
    requires Complete(dir, forms)
  {
    && r.Some? && r.value.Keys == Keys(dir, "")
    && Finished(r.value, dir, "", UploadsOf(forms),
                [FileEntry(ORIGINAL_ZIP_FILE, UploadsOf(forms)[ORIGINAL_ZIP_FILE])])
  }

  /** The recursion from the root, on the records of the walk. */
  lemma RootIsReached(data: Data, dir: Dir, uploads: Uploads, data': Data, extra: seq<FileEntry>) returns (longest: nat)
    requires WellNamed(dir) && WalkedSoFar(data, WalkList(dir, ""), uploads) && "" in data
    requires data' == data["" := data[""].(files := data[""].files + extra)]
    ensures Reached(data', "", longest)
  {
    WalkedBases(dir, "");
    BuiltByWalk(data, WalkList(dir, ""), uploads);
    longest := LongestKey(data'.Keys);
  }

  /**
    The records of a package; `None` when a file on disk, or the original zip, has no upload, or a
    folder entry names no record. Complete uploads give every directory its totals exactly when no
    directory whose name ends with a dot has a sub-directory; otherwise there is no answer, or a
    directory keeps the size -1.
   */
  method CreateExplorerData(dir: Dir, forms: seq<Form>) returns (r: Option<Data>)
    requires WellNamed(dir)
    ensures !Complete(dir, forms) ==> r == None
    ensures Complete(dir, forms) ==> (IsExplorerOf(r, dir, forms) <==> NoDottedParent(dir.folders))
    ensures r.Some? && !NoDottedParent(dir.folders) ==> exists k <- r.value :: r.value[k].size == -1
  {
    var uploads := UploadsOf(forms);
    var explorers := new Explorers();
    var walk := WalkList(dir, "");
    WalkHasDistinctKeys(dir, "");
    UploadedInWalk(dir, "", uploads);
    var ok := FillRecords(explorers, walk, uploads);
    if !ok || ORIGINAL_ZIP_FILE !in uploads {
      return None;
    }
    UntouchedAfterWalk(explorers.data, dir, "", uploads);
    KeysAfterWalk(explorers.data, dir, uploads);
    ZipAppended(explorers.data, dir, uploads);
    ghost var walked := explorers.data;
    var root := explorers.data[""];
    var zip := [ZipEntry(uploads)];
    explorers.data := explorers.data["" := root.(files := root.files + zip)];
    ghost var longest := RootIsReached(walked, dir, uploads, explorers.data, zip);
    RootOutcome(explorers.data, longest, dir, forms);
    var size, count;
    ok, size, count := explorers.ComputeAttributesRec("", longest);
    r := if ok then Some(explorers.data) else None;
  }

  /** What the recursion from the root makes of complete uploads. */
  lemma RootOutcome(data: Data, longest: nat, dir: Dir, forms: seq<Form>)
    requires WellNamed(dir) && Complete(dir, forms) && Reached(data, "", longest) && data.Keys == Keys(dir, "")
    requires Untouched(data, dir, "", UploadsOf(forms), [ZipEntry(UploadsOf(forms))])
    ensures var done := ComputedRecord(data, "", longest);
      var r := if done.Some? then Some(done.value.data) else None;
      && (IsExplorerOf(r, dir, forms) <==> NoDottedParent(dir.folders))
      && (r.Some? && !NoDottedParent(dir.folders) ==> exists k <- r.value :: r.value[k].size == -1)
  {
    var uploads := UploadsOf(forms);
    var zip := [ZipEntry(uploads)];
    var done := ComputedRecord(data, "", longest);
    IntactByNames(dir.folders, "");
    if NoDottedParent(dir.folders) {
      RecordIsFinished(data, "", longest, Place(dir, "", uploads, zip), done);
    } else if done.Some? {
      var broken := BrokenFolder(data, dir, "", uploads, zip);
      assert done.value.data[broken].size == -1;
      UnfinishedBySize(done.value.data, dir, uploads, zip, broken);
    }
  }

  lemma UnfinishedBySize(data: Data, dir: Dir, uploads: Uploads, extra: seq<FileEntry>, k: string)
    requires Uploaded(dir, "", uploads) && k in Keys(dir, "") && k in data && data[k].size == -1
    ensures !Finished(data, dir, "", uploads, extra)
  {
    if Finished(data, dir, "", uploads, extra) {
      FinishedHasSizes(data, dir, "", uploads, extra);
    }
  }

  /** Directory `v.` with the sub-directory `x`, which holds the only file. */
  function DottedTree(): Dir {
    Dir([], More("v.", Dir([], More("x", Dir(["f"], NoFolder), NoFolder)), NoFolder))
  }

  lemma DottedTreeIsUploaded(uploads: Uploads)
    requires "v./x/f" in uploads
    ensures Uploaded(DottedTree(), "", uploads)
  {
    var x := Dir(["f"], NoFolder);
    var v := Dir([], More("x", x, NoFolder));
    assert Sub("v./", "x") == "v./x/" && Sub("", "v.") == "v./";
    assert FilePaths("v./x/", ["f"]) == ["v./x/" + "f"] && "v./x/" + "f" == "v./x/f";
    assert Uploaded(x, "v./x/", uploads);
    assert Uploaded(v, "v./", uploads);
  }

  /** Such a package: complete uploads of that tree. */
  lemma DottedParentHappens() returns (forms: seq<Form>)
    ensures WellNamed(DottedTree()) && !NoDottedParent(DottedTree().folders) && Complete(DottedTree(), forms)
  {
    var attr := Attr(1, "");
    forms := [Form("v./x/f", attr), Form(ORIGINAL_ZIP_FILE, attr)];
    LastValueWins(FormPairs(forms), 0);
    LastValueWins(FormPairs(forms), 1);
    DottedTreeIsUploaded(UploadsOf(forms));
    DottedTreeIsWellNamed();
  }

  lemma DottedTreeIsWellNamed()
    ensures WellNamed(DottedTree()) && !NoDottedParent(DottedTree().folders)
  {
    assert WellNamed(Dir(["f"], NoFolder));
    assert WellNamed(Dir([], More("x", Dir(["f"], NoFolder), NoFolder)));
    assert EndsWithDot("v.");
  }

  lemma KeysAfterWalk(data: Data, dir: Dir, uploads: Uploads)
    requires WalkedSoFar(data, WalkList(dir, ""), uploads)
    ensures data.Keys == Keys(dir, "") && "" in data
  {
    WalkInKeys(dir, "");
    forall k | k in Keys(dir, "")
      ensures k in data
    {
      var x :| x in WalkList(dir, "") && Key(x.0) == k;
      assert HasRecord(data, x, uploads);
    }
    assert Key("") in Keys(dir, "");
  }

  // ---------- Conservation ----------

  function FormPaths(forms: seq<Form>): (r: seq<string>)
    ensures |r| == |forms| && forall i :: 0 <= i < |forms| ==> r[i] == forms[i].path
  {
    seq(|forms|, i requires 0 <= i < |forms| => forms[i].path)
  }

  function TotalUploaded(forms: seq<Form>): nat {
    if forms == [] then 0 else forms[0].attr.size + TotalUploaded(forms[1..])
  }

  function RemoveAt<T>(s: seq<T>, i: nat): seq<T>
    requires i < |s|
  {
    s[..i] + s[i + 1..]
  }

  /** The sum over a list without duplicates depends only on its elements. */
  lemma {:induction false} SumOfSameElements(a: seq<string>, b: seq<string>, uploads: Uploads)
    requires NoDuplicates(a) && NoDuplicates(b) && forall x :: x in a <==> x in b
    ensures SumOf(a, uploads) == SumOf(b, uploads)
  {
    SameLength(a, b);
    if a != [] {
      assert a[0] in b;
      var i :| 0 <= i < |b| && b[i] == a[0];
      var rest := RemoveAt(b, i);
      RemovedElements(a, b, i);
      SumOfSameElements(a[1..], rest, uploads);
      assert b == b[..i] + ([b[i]] + b[i + 1..]);
      SumOfConcat(b[..i], [b[i]] + b[i + 1..], uploads);
      SumOfConcat(b[..i], b[i + 1..], uploads);
      assert ([b[i]] + b[i + 1..])[1..] == b[i + 1..];
    }
  }

  lemma RemovedElements(a: seq<string>, b: seq<string>, i: nat)
    requires NoDuplicates(a) && NoDuplicates(b) && (forall x :: x in a <==> x in b)
    requires a != [] && i < |b| && b[i] == a[0]
    ensures NoDuplicates(a[1..]) && NoDuplicates(RemoveAt(b, i))
    ensures forall x :: x in a[1..] <==> x in RemoveAt(b, i)
  {
    var rest := RemoveAt(b, i);
    assert forall k :: 0 <= k < |rest| ==> rest[k] == b[if k < i then k else k + 1];
    forall x
      ensures x in a[1..] <==> x in rest
    {
      if x in a[1..] {
        var k :| 0 <= k < |a[1..]| && a[1..][k] == x;
        assert a[k + 1] == x && x in a && x in b;
        var j :| 0 <= j < |b| && b[j] == x;
        assert j != i;
        assert rest[if j < i then j else j - 1] == x;
      }
      if x in rest {
        var k :| 0 <= k < |rest| && rest[k] == x;
        assert x in b && x in a;
        var j :| 0 <= j < |a| && a[j] == x;
        assert j != 0;
        assert a[1..][j - 1] == x;
      }
    }
  }

  // ---------- Distinct files have distinct paths ----------

  lemma {:induction false} PathsStartWithBase(dir: Dir, base: string)
    ensures forall p <- Paths(dir, base) :: base <= p
    decreases dir, 1
  {
    FolderPathsStartWithName(dir.folders, base);
    assert forall p <- FilePaths(base, dir.files) :: base <= p;
  }

  ghost predicate IsBelowSome(folders: Folders, base: string, p: string) {
    exists n :: HasFolder(folders, n) && Sub(base, n) <= p
  }

  lemma {:induction false} FolderPathsStartWithName(folders: Folders, base: string)
    ensures forall p <- FolderPaths(folders, base) :: IsBelowSome(folders, base, p) && base <= p
    decreases folders, 0
  {
    if folders.More? {
      PathsStartWithBase(folders.dir, Sub(base, folders.name));
      FolderPathsStartWithName(folders.rest, base);
      forall p | p in FolderPaths(folders, base)
        ensures IsBelowSome(folders, base, p) && base <= p
      {
        if p in Paths(folders.dir, Sub(base, folders.name)) {
          assert HasFolder(folders, folders.name) && Sub(base, folders.name) <= p;
        } else {
          assert IsBelowSome(folders.rest, base, p);
          var n :| HasFolder(folders.rest, n) && Sub(base, n) <= p;
          assert HasFolder(folders, n);
        }
      }
    }
  }

  lemma {:induction false} FoldersHaveNames(folders: Folders, n: string)
    requires WellNamedFolders(folders) && HasFolder(folders, n)
    ensures IsName(n)
    decreases folders
  {
    if folders.name != n {
      FoldersHaveNames(folders.rest, n);
    }
  }

  lemma NoDuplicatesTogether(a: seq<string>, b: seq<string>)
    requires NoDuplicates(a) && NoDuplicates(b) && forall x <- a :: x !in b
    ensures NoDuplicates(a + b)
  {
    var c := a + b;
    forall i, j | 0 <= i < j < |c|
      ensures c[i] != c[j]
    {
      assert i < |a| ==> c[i] == a[i] && a[i] in a;
      assert i >= |a| ==> c[i] == b[i - |a|];
      assert j >= |a| ==> c[j] == b[j - |a|] && b[j - |a|] in b;
    }
  }

  lemma {:induction false} PathsAreDistinct(dir: Dir, base: string)
    requires WellNamed(dir)
    ensures NoDuplicates(Paths(dir, base))
    decreases dir, 1
  {
    FolderPathsAreDistinct(dir.folders, base);
    FolderPathsStartWithName(dir.folders, base);
    var files := FilePaths(base, dir.files);
    forall i, j | 0 <= i < j < |files|
      ensures files[i] != files[j]
    {
      assert files[i][|base|..] == dir.files[i] && files[j][|base|..] == dir.files[j];
    }
    forall p | p in files
      ensures p !in FolderPaths(dir.folders, base)
    {
      var i :| 0 <= i < |files| && files[i] == p;
      assert dir.files[i] in dir.files && p == base + dir.files[i];
      forall n | HasFolder(dir.folders, n)
        ensures !(Sub(base, n) <= p)
      {
        FoldersHaveNames(dir.folders, n);
        FileIsNotBelow(base, n, dir.files[i]);
      }
    }
    NoDuplicatesTogether(files, FolderPaths(dir.folders, base));
  }

  lemma FileIsNotBelow(base: string, n: string, f: string)
    requires IsName(n) && IsName(f)
    ensures !(Sub(base, n) <= base + f)
  {
    var p := base + f;
    forall x | |base| <= x < |p|
      ensures p[x] != '/'
    {
      assert p[x] == f[x - |base|] && f[x - |base|] in f;
    }
    var s := Sub(base, n);
    assert s[|base| + |n|] == '/' && |s| == |base| + |n| + 1;
    if |s| <= |p| {
      assert p[..|s|][|base| + |n|] != '/';
    }
  }

  lemma {:induction false} FolderPathsAreDistinct(folders: Folders, base: string)
    requires WellNamedFolders(folders)
    ensures NoDuplicates(FolderPaths(folders, base))
    decreases folders, 0
  {
    if folders.More? {
      var sub := Sub(base, folders.name);
      PathsAreDistinct(folders.dir, sub);
      FolderPathsAreDistinct(folders.rest, base);
      PathsStartWithBase(folders.dir, sub);
      FolderPathsStartWithName(folders.rest, base);
      forall p | p in Paths(folders.dir, sub)
        ensures p !in FolderPaths(folders.rest, base)
      {
        if p in FolderPaths(folders.rest, base) {
          assert IsBelowSome(folders.rest, base, p);
          var n :| HasFolder(folders.rest, n) && Sub(base, n) <= p;
          FoldersHaveNames(folders.rest, n);
          PrefixDecidesName(base, n, folders.name, p);
        }
      }
      NoDuplicatesTogether(Paths(folders.dir, sub), FolderPaths(folders.rest, base));
    }
  }

  lemma {:induction false} SumOfForms(forms: seq<Form>, uploads: Uploads)
    requires forall i :: 0 <= i < |forms| ==> forms[i].path in uploads && uploads[forms[i].path] == forms[i].attr
    ensures SumOf(FormPaths(forms), uploads) == TotalUploaded(forms)
  {
    if forms != [] {
      assert FormPaths(forms)[1..] == FormPaths(forms[1..]);
      SumOfForms(forms[1..], uploads);
    }
  }

  /**
    Conservation: when the uploads are the files on disk and the original zip, each once, the size
    of the root record is the total size of all the uploads, and its count their number.
   */
  lemma {:induction false} RootHoldsAllUploads(dir: Dir, forms: seq<Form>, data: Data)
    requires WellNamed(dir) && NoDuplicates(FormPaths(forms))
    requires ORIGINAL_ZIP_FILE !in Paths(dir, "") && ORIGINAL_ZIP_FILE in FormPaths(forms)
    requires forall p :: p in FormPaths(forms) <==> p in Paths(dir, "") || p == ORIGINAL_ZIP_FILE
    requires var uploads := UploadsOf(forms);
      ORIGINAL_ZIP_FILE in uploads && Uploaded(dir, "", uploads) &&
        Finished(data, dir, "", uploads, [ZipEntry(uploads)])
    ensures data[""].size == TotalUploaded(forms)
    ensures data[""].filesCount == |forms|
  {
    var uploads := UploadsOf(forms);
    var paths := Paths(dir, "") + [ORIGINAL_ZIP_FILE];
    PathsAreDistinct(dir, "");
    NoDuplicatesAppend(Paths(dir, ""), ORIGINAL_ZIP_FILE);
    SumOfSameElements(paths, FormPaths(forms), uploads);
    SameLength(paths, FormPaths(forms));
    SumOfConcat(Paths(dir, ""), [ORIGINAL_ZIP_FILE], uploads);
    forall i | 0 <= i < |forms|
      ensures forms[i].path in uploads && uploads[forms[i].path] == forms[i].attr
    {
      assert forall j :: i < j < |forms| ==> FormPaths(forms)[i] != FormPaths(forms)[j];
      LastValueWins(FormPairs(forms), i);
    }
    SumOfForms(forms, uploads);
    assert [ORIGINAL_ZIP_FILE][1..] == [] && [ZipEntry(uploads)][1..] == [];
    assert SumOf([ORIGINAL_ZIP_FILE], uploads) == SumSizes([ZipEntry(uploads)]);
  }

  lemma SameLength(a: seq<string>, b: seq<string>)
    requires NoDuplicates(a) && NoDuplicates(b) && forall x :: x in a <==> x in b
    ensures |a| == |b|
  {
    DistinctCount(a);
    DistinctCount(b);
    assert (set x <- a) == (set x <- b);
  }
}
