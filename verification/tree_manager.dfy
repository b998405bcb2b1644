/** The tree manager: keeps the system registry and the `trees/` directory
    in step when a tree is created, renamed, deleted, adopted or listed.
    Every file-system call that can fail takes its outcome as an `Io`
    argument. */
module TreeManager {
  import opened Wrappers
  import opened Text
  import opened AppFs
  import opened TreeRegistry
  import TreeFiles
  import Sorting

  datatype World = World(reg: Registry, fs: Fs)

  /** The outcomes of the three calls a file move may make. */
  datatype MoveIo = MoveIo(rename: Io, copy: Io, remove: Io)

  /** The registered tree the id string denotes. */
  ghost function Target(reg: Registry, id: string): Option<Tree> {
    match ParseInt(id)
    case None => None
    case Some(n) => Find(reg, n)
  }

  /** `getTreeByIdOrThrow`. */
  function GetTreeByIdOrThrow(reg: Registry, id: string): (r: Result<Tree>)
    ensures r.Success? <==> Target(reg, id).Some?
    ensures r.Success? ==> r.value == Target(reg, id).value
    ensures ParseInt(id).None? ==> r.error == "Invalid tree ID: " + id
    ensures ParseInt(id).Some? && Target(reg, id).None? ==> r.error == "Tree with ID " + id + " not found"
  {
    var found :- GetTreeById(reg, id);
    match found
    case None => Failure("Tree with ID " + id + " not found")
    case Some(t) => Success(t)
  }

  /** `ensureTreesDirectoryExists`: `mkdir` runs only when the directory is
      absent; a failing `mkdir` changes nothing. */
  function EnsureTreesDirectoryExists(fs: Fs, mkdir: Io): (r: (Fs, Result<()>))
    ensures r.1.Success? ==> r.0 == fs.(dirExists := true)
    ensures r.1.Failure? ==> r.0 == fs && !fs.dirExists && mkdir == Err(r.1.error)
  {
    if fs.dirExists then (fs, Success(()))
    else match mkdir
      case Ok => (fs.(dirExists := true), Success(()))
      case Err(msg) => (fs, Failure(msg))
  }

  /** When the directory exists `mkdir` is never called: its outcome cannot matter. */
  lemma MkdirOnlyWhenAbsent(fs: Fs, m1: Io, m2: Io)
    requires fs.dirExists
    ensures EnsureTreesDirectoryExists(fs, m1) == EnsureTreesDirectoryExists(fs, m2) == (fs, Success(()))
  {
  }

  /** `renameTreeDatabaseFile`: refuses an occupied destination and a missing
      source without touching anything; otherwise renames, falling back to
      copy-then-remove when `rename` fails. */
  function RenameTreeDatabaseFile(fs: Fs, src: string, dst: string, io: MoveIo): (r: (Fs, Result<()>))
    ensures Exists(fs, dst) ==> r == (fs, Failure("Database file already exists at " + dst))
    ensures !Exists(fs, dst) && !Exists(fs, src) ==> r == (fs, Failure("Source database file not found at " + src))
    ensures (!Exists(fs, dst) && Exists(fs, src) && (io.rename.Ok? || (io.copy.Ok? && io.remove.Ok?)))
              ==> r == (Move(fs, src, dst), Success(()))
    ensures (!Exists(fs, dst) && Exists(fs, src) && io.rename.Err? && io.copy.Err?)
              ==> r == (fs, Failure(io.copy.msg))
    ensures (!Exists(fs, dst) && Exists(fs, src) && io.rename.Err? && io.copy.Ok? && io.remove.Err?)
              ==> r == (AddFile(fs, dst), Failure(io.remove.msg))
    ensures r.1.Success? ==> src != dst && r.0 == Move(fs, src, dst)
    ensures r.1.Failure? ==> Exists(r.0, src) == Exists(fs, src)
    ensures forall q :: q != dst && q != src ==> (Exists(r.0, q) <==> Exists(fs, q))
    ensures r.0.dirExists == fs.dirExists
  {
    if Exists(fs, dst) then (fs, Failure("Database file already exists at " + dst))
    else if !Exists(fs, src) then (fs, Failure("Source database file not found at " + src))
    else if io.rename.Ok? then (Move(fs, src, dst), Success(()))
    else if io.copy.Err? then (fs, Failure(io.copy.msg))
    else if io.remove.Err? then (AddFile(fs, dst), Failure(io.remove.msg))
    else (Move(fs, src, dst), Success(()))
  }

  const CreateFailurePrefix: string := "Failed to create tree database: "

  /** `createNewTree`: registers the tree, makes sure the directory exists and
      opens (thereby creates) its database file. If either of the last two
      steps fails, the registry entry is deleted again and the error is
      rethrown with a prefix. `init` is the outcome of running the schema and
      the seeding on the opened database. */
  function CreateNewTree(w: World, name: string, description: Option<string>, mkdir: Io, init: Io): (r: (World, Result<Tree>))
    ensures r.1.Success? <==> (w.fs.dirExists || mkdir.Ok?) && init.Ok?
    ensures r.1.Success? ==>
      var t := r.1.value;
      && t.name == name && t.filePath == TreeFiles.TreeFilePath(name)
      && Find(w.reg, t.id).None?
      && Find(r.0.reg, t.id) == Some(t.(description := StoredDescription(description)))
      && (forall n :: n != t.id ==> Find(r.0.reg, n) == Find(w.reg, n))
      && r.0.fs.dirExists && Exists(r.0.fs, t.filePath)
    ensures r.1.Failure? ==> r.0.reg == w.reg && StartsWith(r.1.error, CreateFailurePrefix)
    ensures forall q :: q != TreeFiles.TreeFilePath(name) ==> (Exists(r.0.fs, q) <==> Exists(w.fs, q))
  {
    var (reg1, t) := CreateTree(w.reg, name, description);
    var (fs1, dir) := EnsureTreesDirectoryExists(w.fs, mkdir);
    var fs2 := if dir.Success? then AddFile(fs1, t.filePath) else fs1;
    var outcome: Result<()> := if dir.Failure? then dir else if init.Err? then Failure(init.msg) else Success(());
    if outcome.Success? then (World(reg1, fs2), Success(t))
    else
      CreateThenDelete(w.reg, name, description);
      match DeleteTree(reg1, NatToString(t.id))
      case Success(reg2) => (World(reg2, fs2), Failure(CreateFailurePrefix + outcome.error))
      case Failure(e) => (World(reg1, fs2), Failure(e))
  }

  /** The tree with id `n` is registered and its database file is present. */
  ghost predicate Tracked(w: World, n: int) {
    Find(w.reg, n).Some? && Exists(w.fs, Find(w.reg, n).value.filePath)
  }

  /** The registry update `updateTree` relies on: `withPath` selects whether
      a supplied `file_path` is written (see `TreeRegistry.UpdateTree`). */
  function RegistryUpdate(reg: Registry, id: string, u: TreeUpdate, withPath: bool): Result<(Registry, Tree)> {
    if withPath then TreeRegistry.UpdateTreeWithPath(reg, id, u) else TreeRegistry.UpdateTree(reg, id, u)
  }

  function Forward(w: World, id: string, u: TreeUpdate, withPath: bool): (World, Result<Tree>) {
    match RegistryUpdate(w.reg, id, u, withPath)
    case Success((reg', t)) => (w.(reg := reg'), Success(t))
    case Failure(e) => (w, Failure(e))
  }

  const RenameFailurePrefix: string := "Failed to rename tree database: "

  /** The body of `updateTree`, over either registry update. */
  function UpdateTreeUsing(w: World, id: string, u: TreeUpdate, io: MoveIo, withPath: bool): (World, Result<Tree>) {
    if u.name.None? || u.name.value == "" then Forward(w, id, u, withPath)
    else match GetTreeByIdOrThrow(w.reg, id)
      case Failure(e) => (w, Failure(e))
      case Success(current) =>
        var newPath := TreeFiles.TreeFilePath(u.name.value);
        if newPath == current.filePath then Forward(w, id, u, withPath)
        else match RegistryUpdate(w.reg, id, u.(filePath := Some(newPath)), withPath)
          case Failure(e) => (w, Failure(e))
          case Success((reg1, t1)) =>
            var (fs1, moved) := RenameTreeDatabaseFile(w.fs, current.filePath, newPath, io);
            if moved.Success? then (World(reg1, fs1), Success(t1))
            else
              var reg2 := match RegistryUpdate(reg1, id, TreeUpdate(None, None, Some(current.filePath)), withPath)
                case Success((r2, _)) => r2
                case Failure(_) => reg1;
              (World(reg2, fs1), Failure(RenameFailurePrefix + moved.error))
  }

  /** `updateTree` with the registry writing `file_path`: a rename writes the
      new path and moves the file; a failed move puts the old path back. */
  function UpdateTree(w: World, id: string, u: TreeUpdate, io: MoveIo): (r: (World, Result<Tree>))
    ensures (u.name.None? || u.name == Some("")
             || (Target(w.reg, id).Some? && u.name.Some? && TreeFiles.TreeFilePath(u.name.value) == Target(w.reg, id).value.filePath))
              ==> r.0.fs == w.fs && ForwardedTo(w, r, UpdateTreeWithPath(w.reg, id, u))
    ensures Target(w.reg, id).None? ==> r.1.Failure? && r.0.fs == w.fs
    ensures Target(w.reg, id).Some? && u.name.Some? && u.name.value != "" ==>
              var cur := Target(w.reg, id).value;
              var newPath := TreeFiles.TreeFilePath(u.name.value);
              newPath != cur.filePath && RenameTreeDatabaseFile(w.fs, cur.filePath, newPath, io).1.Success? ==>
                && r.1 == Success(Apply(cur, u.(filePath := Some(newPath)), true))
                && r.1.value.name == u.name.value && r.1.value.filePath == newPath
                && r.0.fs == Move(w.fs, cur.filePath, newPath)
                && Find(r.0.reg, cur.id) == Some(r.1.value)
  {
    RenameUpdateAccepted(w, id, u);
    UpdateTreeUsing(w, id, u, io, true)
  }

  /** For a registered tree, the registry accepts the update carrying the
      new path. */
  lemma RenameUpdateAccepted(w: World, id: string, u: TreeUpdate)
    ensures Target(w.reg, id).Some? && u.name.Some? ==>
      var cur := Target(w.reg, id).value;
      var u1 := u.(filePath := Some(TreeFiles.TreeFilePath(u.name.value)));
      UpdateTreeWithPath(w.reg, id, u1) == Success((UpdateTreeWithPath(w.reg, id, u1).value.0, Apply(cur, u1, true)))
  {
  }

  /** `return await system.trees.updateTree(...)`: the registry's answer is
      passed on, and its new table kept only when it succeeded. */
  ghost predicate ForwardedTo(w: World, r: (World, Result<Tree>), answer: Result<(Registry, Tree)>) {
    match answer
    case Success((reg', t)) => r == (w.(reg := reg'), Success(t))
    case Failure(e) => r == (w, Failure(e))
  }

  /** `updateTree` exactly as the registry behaves: the `file_path` sent
      along with a rename, and the one sent back on rollback, are dropped. */
  function UpdateTreeAsWritten(w: World, id: string, u: TreeUpdate, io: MoveIo): (r: (World, Result<Tree>))
    ensures Target(w.reg, id).None? ==> r.1.Failure? && r.0.fs == w.fs
  {
    UpdateTreeUsing(w, id, u, io, false)
  }

  /** As written, a successful update never changes the tree's stored path,
      even when the file was moved. */
  lemma UpdateTreeAsWrittenKeepsPath(w: World, id: string, u: TreeUpdate, io: MoveIo)
    ensures var r := UpdateTreeAsWritten(w, id, u, io);
      r.1.Success? ==> Target(w.reg, id).Some? && r.1.value.filePath == Target(w.reg, id).value.filePath
  {
    var r := UpdateTreeAsWritten(w, id, u, io);
    if r.1.Success? {
      var n := ParseInt(id).value;
      if !(u.name.None? || u.name.value == "") {
        var cur := Target(w.reg, id).value;
        var newPath := TreeFiles.TreeFilePath(u.name.value);
        if newPath != cur.filePath {
          var u1 := u.(filePath := Some(newPath));
          assert TreeRegistry.UpdateTree(w.reg, id, u1).Success?;
        }
      }
    }
  }

  /** A renaming update that succeeds leaves the tree registered under its
      new name at the new path, with the file moved there. */
  lemma UpdateTreeRenames(w: World, id: string, u: TreeUpdate, io: MoveIo)
    requires Target(w.reg, id).Some? && u.name.Some? && u.name.value != ""
    requires TreeFiles.TreeFilePath(u.name.value) != Target(w.reg, id).value.filePath
    ensures var r := UpdateTree(w, id, u, io);
      var cur := Target(w.reg, id).value;
      var newPath := TreeFiles.TreeFilePath(u.name.value);
      r.1.Success? ==>
        && Find(r.0.reg, cur.id) == Some(r.1.value)
        && r.1.value.name == u.name.value && r.1.value.filePath == newPath
        && Exists(r.0.fs, newPath) && !Exists(r.0.fs, cur.filePath)
  {
  }

  /** A renaming update whose move fails restores the old path. */
  lemma UpdateTreeRollsBack(w: World, id: string, u: TreeUpdate, io: MoveIo)
    requires Target(w.reg, id).Some? && u.name.Some? && u.name.value != ""
    requires TreeFiles.TreeFilePath(u.name.value) != Target(w.reg, id).value.filePath
    ensures var r := UpdateTree(w, id, u, io);
      var cur := Target(w.reg, id).value;
      r.1.Failure? ==>
        && StartsWith(r.1.error, RenameFailurePrefix)
        && Find(r.0.reg, cur.id).Some? && Find(r.0.reg, cur.id).value.filePath == cur.filePath
        && Exists(r.0.fs, cur.filePath) == Exists(w.fs, cur.filePath)
  {
    var cur := Target(w.reg, id).value;
    var n := ParseInt(id).value;
    var newPath := TreeFiles.TreeFilePath(u.name.value);
    var u1 := u.(filePath := Some(newPath));
    var reg1 := UpdateTreeWithPath(w.reg, id, u1).value.0;
    assert Find(reg1, n).Some?;
    var back := TreeUpdate(None, None, Some(cur.filePath));
    var reg2 := UpdateTreeWithPath(reg1, id, back);
    assert reg2.Success?;
  }

  /** Whatever happens, a tree whose file is present keeps pointing at a
      present file after `updateTree`. */
  lemma UpdateTreeKeepsTreeTracked(w: World, id: string, u: TreeUpdate, io: MoveIo)
    requires ParseInt(id).Some? && Tracked(w, ParseInt(id).value)
    requires u.filePath.None?
    ensures Tracked(UpdateTree(w, id, u, io).0, ParseInt(id).value)
  {
    var n := ParseInt(id).value;
    var cur := Find(w.reg, n).value;
    if u.name.None? || u.name.value == "" {
      assert UpdateTreeWithPath(w.reg, id, u).Success?;
    } else {
      var newPath := TreeFiles.TreeFilePath(u.name.value);
      if newPath != cur.filePath {
        var u1 := u.(filePath := Some(newPath));
        var reg1 := UpdateTreeWithPath(w.reg, id, u1).value.0;
        var (fs1, moved) := RenameTreeDatabaseFile(w.fs, cur.filePath, newPath, io);
        if moved.Failure? {
          var back := TreeUpdate(None, None, Some(cur.filePath));
          assert UpdateTreeWithPath(reg1, id, back).Success?;
          if Exists(w.fs, newPath) {
          } else {
            assert Exists(fs1, cur.filePath);
          }
        }
      } else {
        assert UpdateTreeWithPath(w.reg, id, u).Success?;
      }
    }
  }

  /** As written, a successful rename leaves the registry pointing at the old
      path, where no file is left: renaming a tracked tree to a name whose
      path is free, with the file system's `rename` succeeding, untracks it
      (tree 1 "a" at `trees/a.db` renamed to "b" is one such case). */
  lemma RenameLeavesStalePath(w: World, id: string, u: TreeUpdate, io: MoveIo)
    requires ParseInt(id).Some? && Tracked(w, ParseInt(id).value)
    requires u.name.Some? && u.name.value != ""
    requires TreeFiles.TreeFilePath(u.name.value) != Find(w.reg, ParseInt(id).value).value.filePath
    requires !Exists(w.fs, TreeFiles.TreeFilePath(u.name.value)) && io.rename.Ok?
    ensures var r := UpdateTreeAsWritten(w, id, u, io);
      r.1.Success? && !Tracked(r.0, ParseInt(id).value)
  {
    var n := ParseInt(id).value;
    var cur := Find(w.reg, n).value;
    var newPath := TreeFiles.TreeFilePath(u.name.value);
    var u1 := u.(filePath := Some(newPath));
    UpdateFacts(w.reg, id, u1, false);
    var reg1 := TreeRegistry.UpdateTree(w.reg, id, u1);
    assert reg1.Success?;
    assert Find(reg1.value.0, n).value.filePath == cur.filePath;
  }

  /** `deleteCompleteTree`: removes the file if present, then the entry. A
      failing removal leaves both in place; for a registered tree nothing
      else can fail. */
  function DeleteCompleteTree(w: World, id: string, remove: Io): (r: (World, Result<()>))
    ensures Target(w.reg, id).None? ==> r.0 == w && r.1.Failure?
    ensures ParseInt(id).Some? && Target(w.reg, id).None? ==> r.1.error == "Tree with ID " + id + " not found"
    ensures r.1.Success? ==>
      var t := Target(w.reg, id).value;
      && Target(r.0.reg, id).None?
      && (forall m :: m != t.id ==> Find(r.0.reg, m) == Find(w.reg, m))
      && !Exists(r.0.fs, t.filePath)
      && (forall q :: q != t.filePath ==> (Exists(r.0.fs, q) <==> Exists(w.fs, q)))
    ensures (Target(w.reg, id).Some? && Exists(w.fs, Target(w.reg, id).value.filePath) && remove.Err?)
              ==> r == (w, Failure(remove.msg))
    ensures ParseInt(id).None? ==> r.1.error == "Invalid tree ID: " + id
    ensures Target(w.reg, id).Some? && (!Exists(w.fs, Target(w.reg, id).value.filePath) || remove.Ok?) ==> r.1.Success?
  {
    match GetTreeByIdOrThrow(w.reg, id)
    case Failure(e) => (w, Failure(e))
    case Success(t) =>
      var present := Exists(w.fs, t.filePath);
      if present && remove.Err? then (w, Failure(remove.msg))
      else
        var fs' := if present then AppFs.Remove(w.fs, t.filePath) else w.fs;
        match DeleteTree(w.reg, id)
        case Success(reg') => (World(reg', fs'), Success(()))
        case Failure(e) => (World(w.reg, fs'), Failure(e))
  }

  /** `checkTreeFileExists`: whether `path` exists. `probe` is the outcome
      of the `exists` call; its error is caught and read as "missing". */
  function CheckTreeFileExists(fs: Fs, path: string, probe: Io): (r: bool)
    ensures probe.Err? ==> !r
    ensures probe.Ok? ==> (r <==> Exists(fs, path))
  {
    probe.Ok? && Exists(fs, path)
  }

  /** The file of a newly created tree is found. */
  lemma CreatedTreeFileFound(w: World, name: string, description: Option<string>, mkdir: Io, init: Io)
    requires CreateNewTree(w, name, description, mkdir, init).1.Success?
    ensures var r := CreateNewTree(w, name, description, mkdir, init);
      CheckTreeFileExists(r.0.fs, r.1.value.filePath, Ok)
  {
  }

  /** The file of a deleted tree is not found. */
  lemma DeletedTreeFileGone(w: World, id: string, remove: Io)
    requires DeleteCompleteTree(w, id, remove).1.Success?
    ensures Target(w.reg, id).Some?
    ensures !CheckTreeFileExists(DeleteCompleteTree(w, id, remove).0.fs, Target(w.reg, id).value.filePath, Ok)
  {
  }

  /** The set of registered file paths. */
  function RegisteredPaths(reg: Registry): (r: set<string>)
    ensures forall p :: p in r <==> exists i :: 0 <= i < |reg| && reg[i].filePath == p
  {
    set i | 0 <= i < |reg| :: reg[i].filePath
  }

  /** Is this directory entry a `.db` file? */
  predicate IsDbFile(e: DirEntry) {
    e.isFile && EndsWith(e.name, TreeFiles.DbExt)
  }

  /** The loop of `getUnregisteredFiles`. */
  function UnregisteredIn(entries: seq<DirEntry>, registered: set<string>): (r: seq<string>)
    ensures forall p :: p in r <==> exists e :: e in entries && IsDbFile(e) && p == InTrees(e.name) && p !in registered
  {
    if |entries| == 0 then []
    else
      var e := entries[0];
      var rest := UnregisteredIn(entries[1..], registered);
      assert forall x :: x in entries <==> x == e || x in entries[1..];
      (if IsDbFile(e) && InTrees(e.name) !in registered then [InTrees(e.name)] else []) + rest
  }

  /** `getUnregisteredFiles`: any error yields the empty list. The directory
      may be created on the way. */
  function GetUnregisteredFiles(w: World, mkdir: Io, read: Io): (r: (Fs, seq<string>))
    ensures r.0.nodes == w.fs.nodes
    ensures (mkdir.Err? && !w.fs.dirExists) || read.Err? ==> r.1 == []
    ensures forall p :: p in r.1 ==> Exists(w.fs, p) && p !in RegisteredPaths(w.reg)
    ensures (w.fs.dirExists || mkdir.Ok?) && read.Ok? ==> r.1 == UnregisteredIn(ReadDir(w.fs), RegisteredPaths(w.reg))
  {
    var (fs1, dir) := EnsureTreesDirectoryExists(w.fs, mkdir);
    if dir.Failure? || !fs1.dirExists || read.Err? then (fs1, [])
    else
      var r := UnregisteredIn(ReadDir(fs1), RegisteredPaths(w.reg));
      assert forall p :: p in r ==> Exists(w.fs, p) by {
        forall p | p in r ensures Exists(w.fs, p) {
          var e :| e in ReadDir(fs1) && IsDbFile(e) && p == InTrees(e.name);
          ReadDirEntriesExist(fs1, e);
        }
      }
      (fs1, r)
  }

  /** Conversely, every unregistered `.db` file directly in `trees/` is reported. */
  lemma UnregisteredFilesComplete(w: World, mkdir: Io, name: string)
    requires w.fs.dirExists
    requires |name| > 0 && '/' !in name && EndsWith(name, TreeFiles.DbExt)
    requires exists i :: 0 <= i < |w.fs.nodes| && w.fs.nodes[i] == Node(InTrees(name), true)
    requires InTrees(name) !in RegisteredPaths(w.reg)
    ensures InTrees(name) in GetUnregisteredFiles(w, mkdir, Ok).1
  {
    ReadDirListsTreesPaths(w.fs, DirEntry(name, true));
  }

  /** `removeOrphanedTree`: a registered tree is removed exactly when its
      file is gone; every other entry stays. */
  function RemoveOrphanedTree(w: World, id: string): (r: (World, Result<()>))
    ensures r.0.fs == w.fs
    ensures r.1.Success? ==> Target(w.reg, id).Some? && !Exists(w.fs, Target(w.reg, id).value.filePath) && Target(r.0.reg, id).None?
    ensures Target(w.reg, id).Some? && Exists(w.fs, Target(w.reg, id).value.filePath) ==>
              r == (w, Failure("Tree file exists at " + Target(w.reg, id).value.filePath + ". This is not an orphaned tree."))
    ensures Target(w.reg, id).Some? && !Exists(w.fs, Target(w.reg, id).value.filePath) ==>
              var t := Target(w.reg, id).value;
              && r.1.Success?
              && (forall m :: m != t.id ==> Find(r.0.reg, m) == Find(w.reg, m))
    ensures ParseInt(id).None? ==> r == (w, Failure("Invalid tree ID: " + id))
    ensures ParseInt(id).Some? && Target(w.reg, id).None? ==> r == (w, Failure("Tree with ID " + id + " not found"))
  {
    match GetTreeByIdOrThrow(w.reg, id)
    case Failure(e) => (w, Failure(e))
    case Success(t) =>
      if CheckTreeFileExists(w.fs, t.filePath, Ok) then
        (w, Failure("Tree file exists at " + t.filePath + ". This is not an orphaned tree."))
      else match DeleteTree(w.reg, id)
        case Success(reg') => (w.(reg := reg'), Success(()))
        case Failure(e) => (w, Failure(e))
  }

  /** The body of `registerUnregisteredFile`, over either registry update. */
  function RegisterUsing(w: World, filePath: string, name: string, description: Option<string>, withPath: bool): (World, Result<Tree>) {
    if !CheckTreeFileExists(w.fs, filePath, Ok) then (w, Failure("File does not exist at " + filePath))
    else if GetTreeByName(w.reg, name).Some? then (w, Failure("Tree with name \"" + name + "\" already exists"))
    else
      var (reg1, t) := CreateTree(w.reg, name, description);
      match RegistryUpdate(reg1, NatToString(t.id), TreeUpdate(None, None, Some(filePath)), withPath)
      case Success((reg2, t2)) => (w.(reg := reg2), Success(t2))
      case Failure(e) => (w.(reg := reg1), Failure(e))
  }

  /** `registerUnregisteredFile` with the registry writing `file_path`: the
      new tree points at the adopted file. */
  function RegisterUnregisteredFile(w: World, filePath: string, name: string, description: Option<string>): (r: (World, Result<Tree>))
    ensures r.0.fs == w.fs
    ensures !Exists(w.fs, filePath) ==> r.1 == Failure("File does not exist at " + filePath)
    ensures Exists(w.fs, filePath) && GetTreeByName(w.reg, name).Some? ==> r.1 == Failure("Tree with name \"" + name + "\" already exists")
    ensures Exists(w.fs, filePath) && GetTreeByName(w.reg, name).None? ==>
      && r.1.Success? && r.1.value.name == name && r.1.value.filePath == filePath
      && Find(w.reg, r.1.value.id).None?
      && Tracked(r.0, r.1.value.id)
  {
    if Exists(w.fs, filePath) && GetTreeByName(w.reg, name).None? then
      RegisterAdopts(w, filePath, name, description);
      RegisterUsing(w, filePath, name, description, true)
    else RegisterUsing(w, filePath, name, description, true)
  }

  /** The success case of `RegisterUnregisteredFile`: a new tree, at the
      adopted path. */
  lemma RegisterAdopts(w: World, filePath: string, name: string, description: Option<string>)
    requires Exists(w.fs, filePath) && GetTreeByName(w.reg, name).None?
    ensures var r := RegisterUsing(w, filePath, name, description, true);
      && r.1.Success? && r.1.value.name == name && r.1.value.filePath == filePath
      && Find(w.reg, r.1.value.id).None?
      && Tracked(r.0, r.1.value.id)
  {
    var (reg1, t) := CreateTree(w.reg, name, description);
    ParseIntOfNatToString(t.id);
  }

  /** As written, the adopted file's path is never stored: the new tree points
      at the sanitised path of its name instead (`trees/Old.db` adopted as
      "Old" is registered at `trees/old.db`). */
  function RegisterUnregisteredFileAsWritten(w: World, filePath: string, name: string, description: Option<string>): (r: (World, Result<Tree>))
    ensures r.1.Success? ==> r.1.value.filePath == TreeFiles.TreeFilePath(name)
  {
    var r := RegisterUsing(w, filePath, name, description, false);
    if Exists(w.fs, filePath) && GetTreeByName(w.reg, name).None? then
      var (reg1, t) := CreateTree(w.reg, name, description);
      ParseIntOfNatToString(t.id);
      r
    else r
  }

  lemma RegisterKeepsSanitisedPath()
    ensures var w := World([], Fs(true, [Node("trees/Old.db", true)]));
      var r := RegisterUnregisteredFileAsWritten(w, "trees/Old.db", "Old", None);
      r.1.Success? && r.1.value.filePath != "trees/Old.db" && !Tracked(r.0, r.1.value.id)
  {
    var w := World([], Fs(true, [Node("trees/Old.db", true)]));
    OldRegisteredAtSanitisedPath();
    var r := RegisterUnregisteredFileAsWritten(w, "trees/Old.db", "Old", None);
    assert "trees/old.db" != "trees/Old.db" by { assert "trees/old.db"[6] != "trees/Old.db"[6]; }
    assert !Exists(r.0.fs, "trees/old.db") by {
      assert |w.fs.nodes| == 1;
    }
  }

  lemma OldRegisteredAtSanitisedPath()
    ensures var w := World([], Fs(true, [Node("trees/Old.db", true)]));
      var r := RegisterUnregisteredFileAsWritten(w, "trees/Old.db", "Old", None);
      && r.1.Success? && r.1.value.filePath == "trees/old.db" && r.0.fs == w.fs
      && Find(r.0.reg, r.1.value.id) == Some(r.1.value)
  {
    var w := World([], Fs(true, [Node("trees/Old.db", true)]));
    assert Exists(w.fs, "trees/Old.db") by { assert w.fs.nodes[0].path == "trees/Old.db"; }
    assert TreeFiles.Sanitise("Old") == "old";
    RegisterAsWrittenFound(w, "trees/Old.db", "Old", None);
  }

  /** As written, adopting an existing file under a free name succeeds and
      registers the tree at the path derived from the name. */
  lemma RegisterAsWrittenFound(w: World, filePath: string, name: string, description: Option<string>)
    requires Exists(w.fs, filePath) && GetTreeByName(w.reg, name).None?
    ensures var r := RegisterUnregisteredFileAsWritten(w, filePath, name, description);
      && r.1.Success? && r.1.value.filePath == TreeFiles.TreeFilePath(name) && r.0.fs == w.fs
      && Find(r.0.reg, r.1.value.id) == Some(r.1.value)
  {
    var (reg1, t) := CreateTree(w.reg, name, description);
    ParseIntOfNatToString(t.id);
    assert TreeRegistry.UpdateTree(reg1, NatToString(t.id), TreeUpdate(None, None, Some(filePath))).Success?;
  }

  /** What a listed tree is: a registered tree whose file is there or not, or
      a `.db` file no tree is registered for. */
  datatype Status = Registered(fileExists: bool) | Unregistered

  datatype TreeWithStatus = TreeWithStatus(id: string, title: string, path: string, description: Option<string>, status: Status)

  datatype TreesWithStatus = TreesWithStatus(trees: seq<TreeWithStatus>, count: nat)

  /** `filePath.split("/").pop() || ""`, then the first `.db` dropped, and
      "Unknown" for an empty result. */
  function UnregisteredLabel(filePath: string): (title: string)
    ensures title != ""
  {
    var parts := Split(filePath, '/');
    var stem := TreeFiles.StemAsWritten(parts[|parts| - 1]);
    if stem == "" then "Unknown" else stem
  }

  /** For a file directly below `trees/` the label is the file name with
      its first `.db` dropped, or "Unknown" when nothing is left. */
  lemma UnregisteredLabelOfFile(name: string)
    requires '/' !in name
    ensures UnregisteredLabel(InTrees(name)) == if TreeFiles.StemAsWritten(name) == "" then "Unknown" else TreeFiles.StemAsWritten(name)
  {
    assert '/' !in TreesDir;
    SplitPrefix(TreesDir, '/', name);
    SplitFree(name, '/');
    assert InTrees(name) == TreesDir + ['/'] + name;
  }

  const StatusFailurePrefix: string := "Failed to get trees with status: "

  /** `getAllTreesWithStatus`: registered trees in registry (name) order,
      then one entry per unregistered file. `system` is the outcome of
      initialising the system database. */
  function GetAllTreesWithStatus(w: World, system: Io, mkdir: Io, read: Io): (r: (Fs, Result<TreesWithStatus>))
    ensures system.Err? ==> r.1 == Failure(StatusFailurePrefix + system.msg)
    ensures system.Ok? ==> r.1.Success?
    ensures r.1.Success? ==>
      var all := r.1.value.trees;
      var registered := GetAllTrees(w.reg);
      var files := GetUnregisteredFiles(w, mkdir, read).1;
      && r.1.value.count == |all| == |registered| + |files|
      && (forall i :: 0 <= i < |registered| ==>
            all[i].title == registered[i].name && all[i].path == registered[i].filePath
            && all[i].id == NatToString(registered[i].id)
            && all[i].description == registered[i].description
            && all[i].status == Registered(Exists(w.fs, registered[i].filePath)))
      && (forall k :: 0 <= k < |files| ==>
            all[|registered| + k].id == "unregistered-" + NatToString(k)
            && all[|registered| + k].title == UnregisteredLabel(files[k])
            && all[|registered| + k].path == files[k]
            && all[|registered| + k].description.None?
            && all[|registered| + k].status == Unregistered)
  {
    if system.Err? then (w.fs, Failure(StatusFailurePrefix + system.msg))
    else
      var registered := GetAllTrees(w.reg);
      var (fs1, files) := GetUnregisteredFiles(w, mkdir, read);
      var regs := Sorting.Map(registered, (t: Tree) =>
        TreeWithStatus(NatToString(t.id), t.name, t.filePath, t.description, Registered(CheckTreeFileExists(fs1, t.filePath, Ok))));
      var unregs := seq(|files|, k requires 0 <= k < |files| =>
        TreeWithStatus("unregistered-" + NatToString(k), UnregisteredLabel(files[k]), files[k], None, Unregistered));
      var all := regs + unregs;
      (fs1, Success(TreesWithStatus(all, |all|)))
  }

  /** Unregistered entries get pairwise distinct ids. */
  lemma UnregisteredIdsDistinct(k: nat, l: nat)
    requires k != l
    ensures "unregistered-" + NatToString(k) != "unregistered-" + NatToString(l)
  {
    ParseIntOfNatToString(k);
    ParseIntOfNatToString(l);
    var p := "unregistered-";
    assert (p + NatToString(k))[|p|..] == NatToString(k);
    assert (p + NatToString(l))[|p|..] == NatToString(l);
  }
}
