/** The file-only store of trees: a tree is a `.db` file under `trees/` and
    nothing else records it. */
module TreesStore {
  import opened Wrappers
  import opened Text
  import opened AppFs
  import TreeFiles
  import Sorting

  datatype StoreInfo = StoreInfo(name: string, path: string)

  /** `trees.create`: creates `trees/` if needed, refuses when an entry
      `<name>.db` is present, then initialises the tree database, which
      creates the file (`init` is the outcome of its schema and seeding). */
  function Create(fs: Fs, name: string, mkdir: Io, read: Io, init: Io): (r: (Fs, Result<StoreInfo>))
    ensures r.1.Success? <==>
      && (fs.dirExists || mkdir.Ok?) && read.Ok? && init.Ok?
      && (forall e :: e in ReadDir(fs) ==> e.name != name + TreeFiles.DbExt)
    ensures ((fs.dirExists || mkdir.Ok?) && read.Ok? && (exists e :: e in ReadDir(fs) && e.name == name + TreeFiles.DbExt))
              ==> r == (fs.(dirExists := true), Failure("Tree '" + name + "' already exists"))
    ensures r.1.Success? ==>
      && r.1.value == StoreInfo(name, DbFile(name))
      && r.0.dirExists && Exists(r.0, DbFile(name))
    ensures forall q :: q != DbFile(name) ==> (Exists(r.0, q) <==> Exists(fs, q))
  {
    if !fs.dirExists && mkdir.Err? then (fs, Failure(mkdir.msg))
    else
      var fs1 := fs.(dirExists := true);
      if read.Err? then (fs1, Failure(read.msg))
      else if exists e :: e in ReadDir(fs1) && e.name == name + TreeFiles.DbExt then
        (fs1, Failure("Tree '" + name + "' already exists"))
      else
        var fs2 := AddFile(fs1, DbFile(name));
        if init.Err? then (fs2, Failure(init.msg))
        else (fs2, Success(StoreInfo(name, DbFile(name))))
  }

  /** A directory entry `trees.list` reports: a file whose name ends in `.db`. */
  predicate IsDbFile(e: DirEntry) {
    e.isFile && EndsWith(e.name, TreeFiles.DbExt)
  }

  /** The entry reported for such a file: its stem (as written: the name
      with the first `.db` removed) and its path. */
  function InfoOf(e: DirEntry, asWritten: bool): StoreInfo
    requires IsDbFile(e)
  {
    StoreInfo(if asWritten then TreeFiles.StemAsWritten(e.name) else TreeFiles.Stem(e.name), InTrees(e.name))
  }

  /** The loop of `trees.list`: one entry per `.db` file, in directory order. */
  function Listed(entries: seq<DirEntry>, asWritten: bool): (r: seq<StoreInfo>)
    ensures |r| <= |entries|
    decreases |entries|
  {
    if |entries| == 0 then []
    else
      var e := entries[0];
      var rest := Listed(entries[1..], asWritten);
      if IsDbFile(e) then [InfoOf(e, asWritten)] + rest else rest
  }

  /** Partner of `Listed`: an entry is reported exactly when some `.db` file
      of the directory gives it. */
  lemma {:induction false} ListedMembers(entries: seq<DirEntry>, asWritten: bool, x: StoreInfo)
    ensures x in Listed(entries, asWritten) <==> exists e :: e in entries && IsDbFile(e) && x == InfoOf(e, asWritten)
    decreases |entries|
  {
    if |entries| > 0 {
      ListedMembers(entries[1..], asWritten, x);
      assert forall e :: e in entries <==> e == entries[0] || e in entries[1..];
    }
  }

  function ByName(x: StoreInfo): string { x.name }

  function ListUsing(fs: Fs, read: Io, asWritten: bool): Result<seq<StoreInfo>> {
    if !fs.dirExists then Success([])
    else if read.Err? then Failure(read.msg)
    else Success(Sorting.SortByKey(Listed(ReadDir(fs), asWritten), ByName))
  }

  /** `trees.list`, each file named by its name minus the trailing `.db`. */
  function List(fs: Fs, read: Io): (r: Result<seq<StoreInfo>>)
    ensures !fs.dirExists ==> r == Success([])
    ensures fs.dirExists ==> (r.Failure? <==> read.Err?)
    ensures r.Success? ==> forall i, j :: 0 <= i < j < |r.value| ==> LexLe(r.value[i].name, r.value[j].name)
  {
    ListUsing(fs, read, false)
  }

  /** Partner of `List`: the trees listed are exactly the `.db` files of
      `trees/`, each named by its stem. */
  lemma ListMembers(fs: Fs, read: Io, x: StoreInfo)
    requires fs.dirExists && List(fs, read).Success?
    ensures x in List(fs, read).value <==> exists e :: e in ReadDir(fs) && IsDbFile(e) && x == InfoOf(e, false)
  {
    var l := Listed(ReadDir(fs), false);
    ListedMembers(ReadDir(fs), false, x);
    assert x in List(fs, read).value <==> x in multiset(List(fs, read).value);
    assert x in l <==> x in multiset(l);
  }

  /** `trees.list` exactly as written: the FIRST `.db` is removed. */
  function ListAsWritten(fs: Fs, read: Io): (r: Result<seq<StoreInfo>>)
    ensures !fs.dirExists ==> r == Success([])
    ensures r.Success? ==> forall i, j :: 0 <= i < j < |r.value| ==> LexLe(r.value[i].name, r.value[j].name)
  {
    ListUsing(fs, read, true)
  }

  /** `trees.delete`: removes `trees/<name>.db`, which must exist. */
  function Delete(fs: Fs, name: string, remove: Io): (r: (Fs, Result<()>))
    ensures !Exists(fs, DbFile(name)) ==> r == (fs, Failure("Tree '" + name + "' does not exist"))
    ensures r.1.Success? <==> Exists(fs, DbFile(name)) && remove.Ok?
    ensures r.1.Success? ==> !Exists(r.0, DbFile(name))
    ensures forall q :: q != DbFile(name) ==> (Exists(r.0, q) <==> Exists(fs, q))
  {
    if !Exists(fs, DbFile(name)) then (fs, Failure("Tree '" + name + "' does not exist"))
    else if remove.Err? then (fs, Failure(remove.msg))
    else (AppFs.Remove(fs, DbFile(name)), Success(()))
  }

  /** A created tree is listed afterwards, under its name and path. */
  lemma CreateThenList(fs: Fs, name: string, mkdir: Io, read: Io, init: Io)
    requires '/' !in name
    requires Create(fs, name, mkdir, read, init).1.Success?
    ensures var (fs', created) := Create(fs, name, mkdir, read, init);
      created.value in List(fs', Ok).value
  {
    var (fs', created) := Create(fs, name, mkdir, read, init);
    var f := name + TreeFiles.DbExt;
    var e := DirEntry(f, true);
    assert f[..|name|] == name;
    assert '/' !in f by {
      forall k | 0 <= k < |f| ensures f[k] != '/' {
        if k < |name| { assert f[k] == name[k]; }
      }
    }
    var fs1 := fs.(dirExists := true);
    assert !Exists(fs1, InTrees(f)) by {
      if Exists(fs1, InTrees(f)) {
        var i :| 0 <= i < |fs1.nodes| && fs1.nodes[i].path == InTrees(f);
        ReadDirListsTreesPaths(fs1, DirEntry(f, fs1.nodes[i].isFile));
      }
    }
    ReadDirListsTreesPaths(fs', e);
    TreeFiles.StemOfName(name);
    assert IsDbFile(e) && created.value == InfoOf(e, false);
    ListMembers(fs', Ok, created.value);
  }

  /** Deleting a listed tree by its name removes exactly the listed file. */
  lemma ListThenDelete(fs: Fs, read: Io, x: StoreInfo)
    requires fs.dirExists && List(fs, read).Success? && x in List(fs, read).value
    ensures var (fs', deleted) := Delete(fs, x.name, Ok);
      && deleted.Success? && DbFile(x.name) == x.path && !Exists(fs', x.path)
      && forall q :: q != x.path ==> (Exists(fs', q) <==> Exists(fs, q))
  {
    ListMembers(fs, read, x);
    var e :| e in ReadDir(fs) && IsDbFile(e) && x == InfoOf(e, false);
    ReadDirEntriesExist(fs, e);
  }

  /** As written, with files `smith.db_backup.db` and `smith_backup.db.db`
      present, the first is listed as `smith_backup.db`, and deleting that
      name removes the second file while the listed one stays. */
  lemma ListAsWrittenDeletesOtherFile()
    ensures var fs := Fs(true, [Node("trees/smith.db_backup.db", true), Node("trees/smith_backup.db.db", true)]);
      var x := StoreInfo("smith_backup.db", "trees/smith.db_backup.db");
      var (fs', deleted) := Delete(fs, x.name, Ok);
      && ListAsWritten(fs, Ok).Success? && x in ListAsWritten(fs, Ok).value
      && deleted.Success? && Exists(fs', x.path) && !Exists(fs', "trees/smith_backup.db.db")
  {
    var fs := Fs(true, [Node("trees/smith.db_backup.db", true), Node("trees/smith_backup.db.db", true)]);
    var x := StoreInfo("smith_backup.db", "trees/smith.db_backup.db");
    BackupListed(fs);
    var r := ListAsWritten(fs, Ok).value;
    assert x in multiset(r);
    BackupDeleted(fs, x);
  }

  lemma BackupDeleted(fs: Fs, x: StoreInfo)
    requires fs == Fs(true, [Node("trees/smith.db_backup.db", true), Node("trees/smith_backup.db.db", true)])
    requires x == StoreInfo("smith_backup.db", "trees/smith.db_backup.db")
    ensures var (fs', deleted) := Delete(fs, x.name, Ok);
      deleted.Success? && Exists(fs', x.path) && !Exists(fs', "trees/smith_backup.db.db")
  {
    BackupPaths();
    assert fs.nodes[1].path == DbFile(x.name);
    assert fs.nodes[0].path == x.path;
  }

  lemma BackupPaths()
    ensures DbFile("smith_backup.db") == "trees/smith_backup.db.db"
    ensures DbFile("smith_backup.db") != "trees/smith.db_backup.db"
  {
    assert DbFile("smith_backup.db")[11] == '_';
  }

  lemma BackupListed(fs: Fs)
    requires fs == Fs(true, [Node("trees/smith.db_backup.db", true), Node("trees/smith_backup.db.db", true)])
    ensures StoreInfo("smith_backup.db", "trees/smith.db_backup.db") in Listed(ReadDir(fs), true)
  {
    var e := DirEntry("smith.db_backup.db", true);
    var p := "trees/smith.db_backup.db";
    assert p[..6] == TreesDir + "/";
    assert p[6..] == "smith.db_backup.db";
    assert forall k :: 0 <= k < |p[6..]| ==> p[6..][k] != '/';
    assert EntryOf(fs.nodes[0]) == Some(e);
    assert e in ReadDir(fs);
    TreeFiles.StemAsWrittenOfBackupName();
    assert e.name[|e.name| - 3..] == TreeFiles.DbExt;
    assert InTrees(e.name) == p;
    ListedMembers(ReadDir(fs), true, InfoOf(e, true));
  }
}
