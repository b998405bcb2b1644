/** The metadata-table store of trees: a `trees_metadata` table keyed by
    tree name, reconciled against the `.db` files found under `trees/`. */
module TreesMetadata {
  import opened Wrappers
  import opened Text
  import opened AppFs
  import TreeFiles
  import Sorting
  import TreeRegistry

  /** One `trees_metadata` row (creation time left out). */
  datatype Record = Record(name: string, filePath: string, description: Option<string>)

  type Metadata = seq<Record>

  /** `name` is the table's primary key. */
  ghost predicate Valid(meta: Metadata) {
    forall i, j :: 0 <= i < j < |meta| ==> meta[i].name != meta[j].name
  }

  datatype Health = Healthy | FileMissing | DbMissing

  datatype TreeInfo = TreeInfo(name: string, path: string, description: Option<string>,
                               fileExists: bool, dbEntryExists: bool, status: Health)

  /** `SELECT … WHERE name = ?`, first row. */
  function Lookup(meta: Metadata, name: string): (r: Option<Record>)
    ensures r.None? <==> forall i :: 0 <= i < |meta| ==> meta[i].name != name
    ensures r.Some? ==> r.value in meta && r.value.name == name
  {
    if |meta| == 0 then None
    else if meta[0].name == name then Some(meta[0])
    else Lookup(meta[1..], name)
  }

  /** `DELETE … WHERE name = ?`. */
  function RemoveNamed(meta: Metadata, name: string): (r: Metadata)
    ensures forall x :: x in r <==> x in meta && x.name != name
    ensures Valid(meta) ==> Valid(r)
  {
    if |meta| == 0 then []
    else
      var rest := RemoveNamed(meta[1..], name);
      RemoveNamedCons(meta, name, rest);
      (if meta[0].name == name then [] else [meta[0]]) + rest
  }

  lemma RemoveNamedCons(meta: Metadata, name: string, rest: Metadata)
    requires |meta| > 0
    requires forall x :: x in rest <==> x in meta[1..] && x.name != name
    requires Valid(meta[1..]) ==> Valid(rest)
    ensures var r := (if meta[0].name == name then [] else [meta[0]]) + rest;
      && (forall x :: x in r <==> x in meta && x.name != name)
      && (Valid(meta) ==> Valid(r))
  {
    assert forall x :: x in meta <==> x == meta[0] || x in meta[1..];
    if Valid(meta) {
      assert Valid(meta[1..]) by {
        forall i, j | 0 <= i < j < |meta[1..]| ensures meta[1..][i].name != meta[1..][j].name {
          assert meta[1..][i] == meta[i + 1] && meta[1..][j] == meta[j + 1];
        }
      }
      forall x | x in rest ensures x.name != meta[0].name {
        var k :| 0 <= k < |meta[1..]| && meta[1..][k] == x;
        assert meta[k + 1] == x;
      }
    }
  }

  /** `trees.create`: creates `trees/` if needed, refuses a name already in
      the table before touching any file, then initialises the tree database
      (which creates `trees/<name>.db`; `init` is the outcome of its schema
      and seeding) and records the tree. */
  function Create(meta: Metadata, fs: Fs, name: string, description: Option<string>, mkdir: Io, init: Io)
    : (r: (Metadata, Fs, Result<TreeInfo>))
    ensures (fs.dirExists || mkdir.Ok?) && Lookup(meta, name).Some? ==>
      r.0 == meta && r.1.nodes == fs.nodes && r.2 == Failure("Tree '" + name + "' already exists")
    ensures r.2.Success? <==> (fs.dirExists || mkdir.Ok?) && Lookup(meta, name).None? && init.Ok?
    ensures r.2.Success? ==>
      && r.0 == meta + [Record(name, DbFile(name), TreeRegistry.StoredDescription(description))]
      && r.2.value == TreeInfo(name, DbFile(name), TreeRegistry.StoredDescription(description), true, true, Healthy)
      && r.1.dirExists && Exists(r.1, DbFile(name))
    ensures r.2.Failure? ==> r.0 == meta
    ensures Valid(meta) ==> Valid(r.0)
    ensures forall q :: q != DbFile(name) ==> (Exists(r.1, q) <==> Exists(fs, q))
  {
    if !fs.dirExists && mkdir.Err? then (meta, fs, Failure(mkdir.msg))
    else
      var fs1 := fs.(dirExists := true);
      if Lookup(meta, name).Some? then (meta, fs1, Failure("Tree '" + name + "' already exists"))
      else
        var fs2 := AddFile(fs1, DbFile(name));
        if init.Err? then (meta, fs2, Failure(init.msg))
        else
          var stored := TreeRegistry.StoredDescription(description);
          (meta + [Record(name, DbFile(name), stored)], fs2,
           Success(TreeInfo(name, DbFile(name), stored, true, true, Healthy)))
  }

  /** The entry a record contributes to the listing. */
  function Info(rec: Record, fs: Fs): (t: TreeInfo)
    ensures t.name == rec.name && t.path == rec.filePath && t.dbEntryExists
    ensures t.status == Healthy <==> Exists(fs, rec.filePath)
    ensures t.status != DbMissing && t.fileExists == (t.status == Healthy)
  {
    var present := Exists(fs, rec.filePath);
    TreeInfo(rec.name, rec.filePath, TreeRegistry.StoredDescription(rec.description), present, true,
             if present then Healthy else FileMissing)
  }

  /** The entry a `.db` file without a record contributes. */
  function Orphan(stem: string): (t: TreeInfo)
    ensures t.name == stem && t.path == DbFile(stem) && !t.dbEntryExists && t.status == DbMissing
  {
    TreeInfo(stem, DbFile(stem), None, true, false, DbMissing)
  }

  predicate HasName(m: seq<TreeInfo>, name: string) {
    exists i :: 0 <= i < |m| && m[i].name == name
  }

  ghost predicate DistinctNames(m: seq<TreeInfo>) {
    forall i, j :: 0 <= i < j < |m| ==> m[i].name != m[j].name
  }

  /** Where the entry named `name` sits, if any. */
  function IndexOfName(m: seq<TreeInfo>, name: string): (r: Option<nat>)
    ensures r.Some? ==> r.value < |m| && m[r.value].name == name
    ensures r.None? ==> !HasName(m, name)
  {
    if |m| == 0 then None
    else if m[0].name == name then Some(0)
    else
      match IndexOfName(m[1..], name)
      case Some(k) => Some(k + 1)
      case None =>
        assert forall i :: 1 <= i < |m| ==> m[i] == m[1..][i - 1];
        None
  }

  /** `treeMap.set(v.name, v)`: replaces the entry of that name in place, or
      appends. */
  function Put(m: seq<TreeInfo>, v: TreeInfo): (r: seq<TreeInfo>)
    ensures v in r
    ensures forall x :: x in r ==> x == v || x in m
    ensures forall x :: x in m && x.name != v.name ==> x in r
    ensures forall n :: HasName(r, n) <==> HasName(m, n) || n == v.name
    ensures DistinctNames(m) ==> DistinctNames(r)
  {
    match IndexOfName(m, v.name)
    case Some(i) =>
      var r := m[i := v];
      assert r[i] == v;
      assert forall k :: 0 <= k < |m| && k != i ==> r[k] == m[k];
      assert forall x :: x in m && x.name != v.name ==> x in r by {
        forall x | x in m && x.name != v.name ensures x in r {
          var k :| 0 <= k < |m| && m[k] == x;
          assert r[k] == x;
        }
      }
      assert forall n :: HasName(m, n) ==> HasName(r, n) by {
        forall n | HasName(m, n) ensures HasName(r, n) {
          var k :| 0 <= k < |m| && m[k].name == n;
          assert r[k].name == n;
        }
      }
      r
    case None =>
      var r := m + [v];
      assert r[|m|] == v;
      assert forall n :: HasName(m, n) ==> HasName(r, n) by {
        forall n | HasName(m, n) ensures HasName(r, n) {
          var k :| 0 <= k < |m| && m[k].name == n;
          assert r[k].name == n;
        }
      }
      r
  }

  /** The records loop: every named record is put under its name. */
  function AddRecords(m: seq<TreeInfo>, recs: seq<Record>, fs: Fs): (r: seq<TreeInfo>)
    ensures forall x :: x in r ==> x in m || exists rec :: rec in recs && rec.name != "" && x == Info(rec, fs)
    ensures forall n :: HasName(r, n) <==> HasName(m, n) || exists rec :: rec in recs && rec.name != "" && rec.name == n
    ensures forall i :: 0 <= i < |recs| && recs[i].name != ""
              && (forall j :: i < j < |recs| ==> recs[j].name != recs[i].name)
              ==> Info(recs[i], fs) in r
    ensures forall x :: x in m && (forall rec :: rec in recs ==> rec.name == "" || rec.name != x.name) ==> x in r
    ensures DistinctNames(m) ==> DistinctNames(r)
    decreases |recs|
  {
    if |recs| == 0 then m
    else
      var m1 := if recs[0].name == "" then m else Put(m, Info(recs[0], fs));
      var r := AddRecords(m1, recs[1..], fs);
      assert forall rec :: rec in recs <==> rec == recs[0] || rec in recs[1..];
      assert forall i :: 1 <= i < |recs| ==> recs[i] == recs[1..][i - 1];
      r
  }

  /** The orphans loop: every stem not yet a key is added as `db_missing`. */
  function AddOrphans(m: seq<TreeInfo>, stems: seq<string>): (r: seq<TreeInfo>)
    ensures forall x :: x in m ==> x in r
    ensures forall x :: x in r ==> x in m || (x.name in stems && x == Orphan(x.name) && !HasName(m, x.name))
    ensures forall n :: HasName(r, n) <==> HasName(m, n) || n in stems
    ensures DistinctNames(m) ==> DistinctNames(r)
    decreases |stems|
  {
    if |stems| == 0 then m
    else
      var s := stems[0];
      var m1 := if HasName(m, s) then m else m + [Orphan(s)];
      assert forall n :: HasName(m1, n) <==> HasName(m, n) || n == s by {
        forall n ensures HasName(m1, n) <==> HasName(m, n) || n == s {
          if HasName(m1, n) && m1 != m {
            var i :| 0 <= i < |m1| && m1[i].name == n;
            if i < |m| { assert m[i].name == n; }
          }
          if HasName(m, n) {
            var i :| 0 <= i < |m| && m[i].name == n;
            assert m1[i].name == n;
          }
          if n == s && m1 != m { assert m1[|m|].name == n; }
        }
      }
      assert DistinctNames(m) ==> DistinctNames(m1) by {
        if DistinctNames(m) && m1 != m {
          forall i, j | 0 <= i < j < |m1| ensures m1[i].name != m1[j].name {
            if j == |m| { assert m1[i] == m[i]; }
          }
        }
      }
      assert forall x :: x in m1 ==> x in m || (x == Orphan(s) && !HasName(m, s));
      AddOrphans(m1, stems[1..])
  }

  /** The stems of the `.db` entries: the first `.db` removed as written, the
      trailing extension when `asWritten` is false. No `isFile` check is made. */
  function FileStems(entries: seq<DirEntry>, asWritten: bool): (r: seq<string>)
    ensures forall s :: s in r ==>
              exists e :: (e in entries && e.name != "" && EndsWith(e.name, TreeFiles.DbExt)
                           && s == (if asWritten then TreeFiles.StemAsWritten(e.name) else TreeFiles.Stem(e.name)))
    decreases |entries|
  {
    if |entries| == 0 then []
    else
      var e := entries[0];
      var rest := FileStems(entries[1..], asWritten);
      assert forall x :: x in entries[1..] ==> x in entries;
      if e.name != "" && EndsWith(e.name, TreeFiles.DbExt) then
        [if asWritten then TreeFiles.StemAsWritten(e.name) else TreeFiles.Stem(e.name)] + rest
      else rest
  }

  /** The stems found in `trees/`; a missing directory or a failed read gives none. */
  function DirStems(fs: Fs, read: Io, asWritten: bool): seq<string> {
    if fs.dirExists && read.Ok? then FileStems(ReadDir(fs), asWritten) else []
  }

  function ByName(t: TreeInfo): string { t.name }

  const ListFailurePrefix: string := "Failed to list trees: "

  /** The body of `trees.list`, with either stem rule. `system` is the
      outcome of opening the metadata table, whose failure is rethrown with a
      prefix; a failed directory read is swallowed. */
  function ListUsing(meta: Metadata, fs: Fs, system: Io, read: Io, asWritten: bool): Result<seq<TreeInfo>> {
    if system.Err? then Failure(ListFailurePrefix + system.msg)
    else
      var records := Sorting.SortByKey(meta, (rec: Record) => rec.name);
      var fromRecords := AddRecords([], records, fs);
      var all := AddOrphans(fromRecords, DirStems(fs, read, asWritten));
      Success(Sorting.SortByKey(all, ByName))
  }

  /** `trees.list` with each `.db` file's stem taken as its name minus the
      trailing extension. */
  function List(meta: Metadata, fs: Fs, system: Io, read: Io): (r: Result<seq<TreeInfo>>)
    ensures r.Failure? <==> system.Err?
    ensures r.Success? ==> forall i, j :: 0 <= i < j < |r.value| ==> LexLe(r.value[i].name, r.value[j].name)
  {
    ListUsing(meta, fs, system, read, false)
  }

  /** `trees.list` exactly as written: the FIRST `.db` is removed. */
  function ListAsWritten(meta: Metadata, fs: Fs, system: Io, read: Io): (r: Result<seq<TreeInfo>>)
    ensures r.Failure? <==> system.Err?
    ensures r.Success? ==> forall i, j :: 0 <= i < j < |r.value| ==> LexLe(r.value[i].name, r.value[j].name)
  {
    ListUsing(meta, fs, system, read, true)
  }

  /** Membership in the listing does not depend on the final sort. */
  lemma ListMembers(meta: Metadata, fs: Fs, read: Io, asWritten: bool, x: TreeInfo)
    ensures var records := Sorting.SortByKey(meta, (rec: Record) => rec.name);
      var all := AddOrphans(AddRecords([], records, fs), DirStems(fs, read, asWritten));
      && ListUsing(meta, fs, Ok, read, asWritten).Success?
      && (x in ListUsing(meta, fs, Ok, read, asWritten).value <==> x in all)
      && multiset(records) == multiset(meta)
      && |ListUsing(meta, fs, Ok, read, asWritten).value| == |all|
  {
    var records := Sorting.SortByKey(meta, (rec: Record) => rec.name);
    var all := AddOrphans(AddRecords([], records, fs), DirStems(fs, read, asWritten));
    var sorted := Sorting.SortByKey(all, ByName);
    assert x in sorted <==> x in multiset(sorted);
    assert x in all <==> x in multiset(all);
    assert |sorted| == |multiset(sorted)|;
  }

  /** Every name is listed at most once. */
  lemma ListNamesDistinct(meta: Metadata, fs: Fs, read: Io, asWritten: bool)
    ensures DistinctNames(ListUsing(meta, fs, Ok, read, asWritten).value)
  {
    var records := Sorting.SortByKey(meta, (rec: Record) => rec.name);
    var all := AddOrphans(AddRecords([], records, fs), DirStems(fs, read, asWritten));
    var sorted := ListUsing(meta, fs, Ok, read, asWritten).value;
    Sorting.PermutationKeepsDistinct(all, sorted, ByName);
  }

  /** Records are listed under their own names, whatever the directory read
      does: healthy when their file exists, file_missing otherwise. */
  lemma ListReportsRecords(meta: Metadata, fs: Fs, read: Io, rec: Record)
    requires Valid(meta) && rec in meta && rec.name != ""
    ensures Info(rec, fs) in List(meta, fs, Ok, read).value
  {
    var records := Sorting.SortByKey(meta, (rec: Record) => rec.name);
    ListMembers(meta, fs, read, false, Info(rec, fs));
    var key := (rec: Record) => rec.name;
    assert Sorting.DistinctBy(meta, key);
    Sorting.PermutationKeepsDistinct(meta, records, key);
    assert rec in multiset(records);
    var i :| 0 <= i < |records| && records[i] == rec;
    assert forall j :: i < j < |records| ==> key(records[j]) != key(records[i]);
  }

  /** Every listed entry is a record's or a file's, and the corrected stem
      makes each `db_missing` entry name a file that exists and that no record
      claims. */
  lemma ListEntriesAccounted(meta: Metadata, fs: Fs, read: Io, x: TreeInfo)
    requires x in List(meta, fs, Ok, read).value
    ensures x.dbEntryExists ==> exists rec :: rec in meta && rec.name != "" && x == Info(rec, fs)
    ensures !x.dbEntryExists ==>
      && x == Orphan(x.name) && fs.dirExists && read.Ok?
      && Exists(fs, x.path)
      && (x.name != "" ==> Lookup(meta, x.name).None?)
  {
    var records := Sorting.SortByKey(meta, (rec: Record) => rec.name);
    var fromRecords := AddRecords([], records, fs);
    ListMembers(meta, fs, read, false, x);
    assert forall rec :: rec in records <==> rec in meta by {
      forall rec ensures rec in records <==> rec in meta {
        assert rec in records <==> rec in multiset(records);
        assert rec in meta <==> rec in multiset(meta);
      }
    }
    if !x.dbEntryExists {
      assert x !in fromRecords;
      OrphanFileExists(fs, read, x.name);
    }
  }

  /** A stem taken from a readable directory names a file that exists. */
  lemma OrphanFileExists(fs: Fs, read: Io, name: string)
    requires name in DirStems(fs, read, false)
    ensures fs.dirExists && read.Ok? && Exists(fs, DbFile(name))
  {
    var e :| e in ReadDir(fs) && e.name != "" && EndsWith(e.name, TreeFiles.DbExt) && name == TreeFiles.Stem(e.name);
    ReadDirEntriesExist(fs, e);
    assert DbFile(name) == InTrees(e.name);
  }

  /** Every `.db` entry of a readable directory is listed under its stem. */
  lemma ListCoversFiles(meta: Metadata, fs: Fs, e: DirEntry)
    requires fs.dirExists && e in ReadDir(fs) && e.name != "" && EndsWith(e.name, TreeFiles.DbExt)
    ensures HasName(List(meta, fs, Ok, Ok).value, TreeFiles.Stem(e.name))
  {
    var records := Sorting.SortByKey(meta, (rec: Record) => rec.name);
    var all := AddOrphans(AddRecords([], records, fs), DirStems(fs, Ok, false));
    StemListed(ReadDir(fs), e);
    var k :| 0 <= k < |all| && all[k].name == TreeFiles.Stem(e.name);
    ListMembers(meta, fs, Ok, false, all[k]);
    var sorted := List(meta, fs, Ok, Ok).value;
    var i :| 0 <= i < |sorted| && sorted[i] == all[k];
  }

  lemma {:induction false} StemListed(entries: seq<DirEntry>, e: DirEntry)
    requires e in entries && e.name != "" && EndsWith(e.name, TreeFiles.DbExt)
    ensures TreeFiles.Stem(e.name) in FileStems(entries, false)
    decreases |entries|
  {
    if entries[0] != e {
      assert e in entries[1..];
      StemListed(entries[1..], e);
    }
  }

  /** As written, a file `smith.db_backup.db` is listed as a `db_missing`
      tree `smith_backup.db` whose path `trees/smith_backup.db.db` does not
      exist. */
  lemma ListAsWrittenMisnamesFile()
    ensures var fs := Fs(true, [Node("trees/smith.db_backup.db", true)]);
      var x := Orphan("smith_backup.db");
      && ListAsWritten([], fs, Ok, Ok).Success?
      && x in ListAsWritten([], fs, Ok, Ok).value
      && !Exists(fs, x.path)
  {
    var fs := Fs(true, [Node("trees/smith.db_backup.db", true)]);
    var x := Orphan("smith_backup.db");
    BackupDirStems();
    var records := Sorting.SortByKey([], (rec: Record) => rec.name);
    assert records == [];
    assert AddRecords([], records, fs) == [];
    assert AddOrphans([], ["smith_backup.db"]) == [x];
    ListMembers([], fs, Ok, true, x);
    BackupOrphanMissing();
  }

  lemma BackupDirStems()
    ensures DirStems(Fs(true, [Node("trees/smith.db_backup.db", true)]), Ok, true) == ["smith_backup.db"]
  {
    var fs := Fs(true, [Node("trees/smith.db_backup.db", true)]);
    var e := DirEntry("smith.db_backup.db", true);
    BackupEntry();
    assert fs.nodes[1..] == [];
    assert ReadDir(fs) == [e];
    BackupStems();
  }

  lemma BackupEntry()
    ensures EntryOf(Node("trees/smith.db_backup.db", true)) == Some(DirEntry("smith.db_backup.db", true))
  {
    var p := "trees/smith.db_backup.db";
    assert p[..6] == TreesDir + "/";
    assert p[6..] == "smith.db_backup.db";
    assert forall k :: 0 <= k < |p[6..]| ==> p[6..][k] != '/';
  }

  lemma BackupStems()
    ensures FileStems([DirEntry("smith.db_backup.db", true)], true) == ["smith_backup.db"]
  {
    var e := DirEntry("smith.db_backup.db", true);
    TreeFiles.StemAsWrittenOfBackupName();
    assert e.name[|e.name| - 3..] == TreeFiles.DbExt;
    assert [e][1..] == [];
  }

  lemma BackupOrphanMissing()
    ensures !Exists(Fs(true, [Node("trees/smith.db_backup.db", true)]), Orphan("smith_backup.db").path)
  {
    assert Orphan("smith_backup.db").path[11] == '_';
  }

  /** `trees.delete`: the file of the record, or `trees/<name>.db` when there
      is none, is removed if present; then the record, if any. A failing
      removal changes nothing. */
  function Delete(meta: Metadata, fs: Fs, name: string, remove: Io): (r: (Metadata, Fs, Result<()>))
    ensures var path := if Lookup(meta, name).Some? then Lookup(meta, name).value.filePath else DbFile(name);
      && (Exists(fs, path) && remove.Err? ==> r == (meta, fs, Failure(remove.msg)))
      && (r.2.Success? ==>
            && Lookup(r.0, name).None? && !Exists(r.1, path)
            && (forall x :: x in r.0 <==> x in meta && x.name != name)
            && (forall q :: q != path ==> (Exists(r.1, q) <==> Exists(fs, q))))
    ensures r.2.Success? <==> !(remove.Err? && Exists(fs, if Lookup(meta, name).Some? then Lookup(meta, name).value.filePath else DbFile(name)))
    ensures Valid(meta) ==> Valid(r.0)
  {
    var found := Lookup(meta, name);
    var path := if found.Some? then found.value.filePath else DbFile(name);
    if Exists(fs, path) && remove.Err? then (meta, fs, Failure(remove.msg))
    else
      var fs' := if Exists(fs, path) then AppFs.Remove(fs, path) else fs;
      var meta' := if found.Some? then RemoveNamed(meta, name) else meta;
      (meta', fs', Success(()))
  }

  /** `trees.rebuildDbEntry`: records an existing `trees/<name>.db` that has
      no record yet. */
  function RebuildDbEntry(meta: Metadata, fs: Fs, name: string): (r: (Metadata, Result<TreeInfo>))
    ensures !Exists(fs, DbFile(name)) ==> r == (meta, Failure("File not found: " + DbFile(name)))
    ensures Exists(fs, DbFile(name)) && Lookup(meta, name).Some? ==>
      r == (meta, Failure("Tree '" + name + "' already exists in database"))
    ensures r.1.Success? <==> Exists(fs, DbFile(name)) && Lookup(meta, name).None?
    ensures r.1.Success? ==>
      && r.0 == meta + [Record(name, DbFile(name), None)]
      && r.1.value == TreeInfo(name, DbFile(name), None, true, true, Healthy)
    ensures Valid(meta) ==> Valid(r.0)
  {
    var path := DbFile(name);
    if !Exists(fs, path) then (meta, Failure("File not found: " + path))
    else if Lookup(meta, name).Some? then (meta, Failure("Tree '" + name + "' already exists in database"))
    else (meta + [Record(name, path, None)], Success(TreeInfo(name, path, None, true, true, Healthy)))
  }

  /** A created tree is listed as healthy afterwards. */
  lemma CreateThenList(meta: Metadata, fs: Fs, name: string, description: Option<string>, mkdir: Io, init: Io, read: Io)
    requires Valid(meta) && name != ""
    requires Create(meta, fs, name, description, mkdir, init).2.Success?
    ensures var (meta', fs', created) := Create(meta, fs, name, description, mkdir, init);
      created.value in List(meta', fs', Ok, read).value
  {
    var (meta', fs', created) := Create(meta, fs, name, description, mkdir, init);
    var rec := Record(name, DbFile(name), TreeRegistry.StoredDescription(description));
    assert rec == meta'[|meta|];
    ListReportsRecords(meta', fs', read, rec);
  }

  /** Rebuilding a `db_missing` entry turns it healthy in the next listing. */
  lemma RebuildHealsDbMissing(meta: Metadata, fs: Fs, x: TreeInfo)
    requires Valid(meta) && x in List(meta, fs, Ok, Ok).value && x.status == DbMissing && x.name != ""
    ensures var (meta', rebuilt) := RebuildDbEntry(meta, fs, x.name);
      && rebuilt.Success?
      && Info(Record(x.name, x.path, None), fs) == rebuilt.value
      && rebuilt.value in List(meta', fs, Ok, Ok).value
  {
    ListEntriesAccounted(meta, fs, Ok, x);
    var (meta', rebuilt) := RebuildDbEntry(meta, fs, x.name);
    var rec := Record(x.name, DbFile(x.name), None);
    assert rec == meta'[|meta|];
    ListReportsRecords(meta', fs, Ok, rec);
  }
}
