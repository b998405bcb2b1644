/** The application-data directory as the Tauri file-system plugin shows it:
    whether the `trees` directory exists, and the paths present below the
    application-data root (files and directories), in `readDir` order. */
module AppFs {
  import opened Text
  import Sorting
  import opened Wrappers

  datatype Node = Node(path: string, isFile: bool)

  /** One entry returned by `readDir("trees")`. */
  datatype DirEntry = DirEntry(name: string, isFile: bool)

  datatype Fs = Fs(dirExists: bool, nodes: seq<Node>)

  const TreesDir: string := "trees"

  /** `trees/<name>`. */
  function InTrees(name: string): (p: string)
    ensures StartsWith(p, TreesDir + "/") && p[6..] == name
  {
    TreesDir + "/" + name
  }

  /** `trees/<name>.db`: the file of a tree whose name is used unchanged. */
  function DbFile(name: string): string {
    InTrees(name + ".db")
  }

  /** `exists(path)`. */
  predicate Exists(fs: Fs, p: string) {
    exists i :: 0 <= i < |fs.nodes| && fs.nodes[i].path == p
  }

  /** Creates an empty file at `p` (what `Database.load` does to a missing
      database file); an existing path is left as it is. */
  function AddFile(fs: Fs, p: string): (r: Fs)
    ensures Exists(r, p)
    ensures !Exists(fs, p) ==> exists i :: 0 <= i < |r.nodes| && r.nodes[i] == Node(p, true)
    ensures forall q :: q != p ==> (Exists(r, q) <==> Exists(fs, q))
    ensures r.dirExists == fs.dirExists
  {
    if Exists(fs, p) then fs
    else
      var r := fs.(nodes := fs.nodes + [Node(p, true)]);
      assert r.nodes[|fs.nodes|].path == p;
      assert forall q :: Exists(fs, q) ==> Exists(r, q) by {
        forall q | Exists(fs, q) ensures Exists(r, q) {
          var i :| 0 <= i < |fs.nodes| && fs.nodes[i].path == q;
          assert r.nodes[i] == fs.nodes[i];
        }
      }
      r
  }

  /** `remove(path)`. */
  function Remove(fs: Fs, p: string): (r: Fs)
    ensures !Exists(r, p)
    ensures forall q :: q != p ==> (Exists(r, q) <==> Exists(fs, q))
    ensures r.dirExists == fs.dirExists
  {
    var keep := (n: Node) => n.path != p;
    var r := fs.(nodes := Sorting.Filter(fs.nodes, keep));
    assert forall i :: 0 <= i < |r.nodes| ==> r.nodes[i].path != p by {
      forall i | 0 <= i < |r.nodes| ensures r.nodes[i].path != p {
        assert r.nodes[i] in r.nodes;
        assert keep(r.nodes[i]);
      }
    }
    assert forall q :: q != p && Exists(fs, q) ==> Exists(r, q) by {
      forall q | q != p && Exists(fs, q) ensures Exists(r, q) {
        var i :| 0 <= i < |fs.nodes| && fs.nodes[i].path == q;
        assert fs.nodes[i] in r.nodes;
      }
    }
    assert forall q :: Exists(r, q) ==> Exists(fs, q) by {
      forall q | Exists(r, q) ensures Exists(fs, q) {
        var i :| 0 <= i < |r.nodes| && r.nodes[i].path == q;
        assert r.nodes[i] in fs.nodes;
      }
    }
    r
  }

  /** Moving a file: `rename(old, new)`, or a `copyFile` followed by `remove`. */
  function Move(fs: Fs, src: string, dst: string): (r: Fs)
    requires src != dst
    ensures !Exists(r, src) && Exists(r, dst)
    ensures forall q :: q != src && q != dst ==> (Exists(r, q) <==> Exists(fs, q))
    ensures r.dirExists == fs.dirExists
  {
    AddFile(Remove(fs, src), dst)
  }

  /** The directory entry a path stands for, if it lies directly below `trees/`. */
  function EntryOf(n: Node): Option<DirEntry> {
    if StartsWith(n.path, TreesDir + "/") && |n.path| > 6 && '/' !in n.path[6..]
    then Some(DirEntry(n.path[6..], n.isFile))
    else None
  }

  function EntriesOf(nodes: seq<Node>): (r: seq<DirEntry>)
    ensures forall e :: e in r <==> exists i :: 0 <= i < |nodes| && EntryOf(nodes[i]) == Some(e)
  {
    if |nodes| == 0 then []
    else
      var rest := EntriesOf(nodes[1..]);
      assert forall i :: 0 < i < |nodes| ==> nodes[i] == nodes[1..][i - 1];
      (match EntryOf(nodes[0]) case Some(e) => [e] case None => []) + rest
  }

  /** `readDir("trees")`. */
  function ReadDir(fs: Fs): seq<DirEntry> {
    EntriesOf(fs.nodes)
  }

  /** A directory entry `e` is listed exactly when `trees/<e.name>` exists with
      the same kind. */
  lemma ReadDirListsTreesPaths(fs: Fs, e: DirEntry)
    requires |e.name| > 0 && '/' !in e.name
    ensures e in ReadDir(fs) <==> exists i :: 0 <= i < |fs.nodes| && fs.nodes[i] == Node(InTrees(e.name), e.isFile)
  {
    forall i | 0 <= i < |fs.nodes|
      ensures EntryOf(fs.nodes[i]) == Some(e) <==> fs.nodes[i] == Node(InTrees(e.name), e.isFile)
    {
      var n := fs.nodes[i];
      if EntryOf(n) == Some(e) {
        assert n.path == n.path[..6] + n.path[6..];
      }
    }
  }

  /** Every listed entry names an existing path. */
  lemma ReadDirEntriesExist(fs: Fs, e: DirEntry)
    requires e in ReadDir(fs)
    ensures Exists(fs, InTrees(e.name))
  {
    var i :| 0 <= i < |fs.nodes| && EntryOf(fs.nodes[i]) == Some(e);
    var n := fs.nodes[i];
    assert n.path == n.path[..6] + n.path[6..];
  }
}
