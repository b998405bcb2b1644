/** The system database's `trees` table: one row per registered family tree,
    with its numeric id (handed out as a decimal string), name, database file
    path and optional description. */
module TreeRegistry {
  import opened Wrappers
  import opened Text
  import TreeFiles
  import Sorting

  datatype Tree = Tree(id: nat, name: string, filePath: string, description: Option<string>)

  type Registry = seq<Tree>

  /** The table's primary key: ids are distinct. */
  ghost predicate Valid(reg: Registry) {
    forall i, j :: 0 <= i < j < |reg| ==> reg[i].id != reg[j].id
  }

  /** Fields for `updateTree`; an absent field is `undefined` in the input. */
  datatype TreeUpdate = TreeUpdate(name: Option<string>, description: Option<string>, filePath: Option<string>)

  /** `description || null` when writing, `description || undefined` when reading. */
  function StoredDescription(d: Option<string>): (r: Option<string>)
    ensures r.Some? <==> d.Some? && d.value != ""
  {
    if d == Some("") then None else d
  }

  /** The row with a given id, as `SELECT ... WHERE id = ?` returns it. */
  function Find(reg: Registry, id: int): (r: Option<Tree>)
    ensures r.Some? ==> r.value in reg && r.value.id == id
    ensures r.None? <==> forall i :: 0 <= i < |reg| ==> reg[i].id != id
  {
    if |reg| == 0 then None
    else if reg[0].id == id then Some(reg[0])
    else Find(reg[1..], id)
  }

  /** In a valid registry the row found for an id is the unique row with it. */
  lemma {:induction false} FindUnique(reg: Registry, k: nat)
    requires Valid(reg) && k < |reg|
    ensures Find(reg, reg[k].id) == Some(reg[k])
    decreases |reg|
  {
    if k > 0 {
      FindUnique(reg[1..], k - 1);
    }
  }

  function MaxId(reg: Registry): (m: nat)
    ensures forall i :: 0 <= i < |reg| ==> reg[i].id <= m
  {
    if |reg| == 0 then 0
    else
      var rest := MaxId(reg[1..]);
      if reg[0].id > rest then reg[0].id else rest
  }

  /** `createTree`: inserts a row for `name` at the sanitised path, with a
      fresh id, and returns the tree with the description as given. */
  function CreateTree(reg: Registry, name: string, description: Option<string>): (r: (Registry, Tree))
    ensures Find(reg, r.1.id).None?
    ensures r.1.name == name && r.1.filePath == TreeFiles.TreeFilePath(name) && r.1.description == description
    ensures Find(r.0, r.1.id) == Some(r.1.(description := StoredDescription(description)))
    ensures forall n :: n != r.1.id ==> Find(r.0, n) == Find(reg, n)
    ensures Valid(reg) ==> Valid(r.0)
  {
    var t := Tree(MaxId(reg) + 1, name, TreeFiles.TreeFilePath(name), description);
    var reg' := reg + [t.(description := StoredDescription(description))];
    FindAppend(reg, t.(description := StoredDescription(description)));
    (reg', t)
  }

  lemma {:induction false} FindAppend(reg: Registry, t: Tree)
    ensures Find(reg + [t], t.id) == (if Find(reg, t.id).Some? then Find(reg, t.id) else Some(t))
    ensures forall n :: n != t.id ==> Find(reg + [t], n) == Find(reg, n)
    decreases |reg|
  {
    if |reg| > 0 {
      FindAppend(reg[1..], t);
      assert (reg + [t])[1..] == reg[1..] + [t];
    }
  }

  /** `parseInt(id, 10)` with the `Invalid tree ID` guard every query applies. */
  function ParseTreeId(id: string): (r: Result<int>)
    ensures r.Failure? <==> ParseInt(id).None?
    ensures r.Failure? ==> r.error == "Invalid tree ID: " + id
    ensures r.Success? ==> Some(r.value) == ParseInt(id)
  {
    match ParseInt(id)
    case None => Failure("Invalid tree ID: " + id)
    case Some(n) => Success(n)
  }

  /** `getTreeById`: null when no row has the id. */
  function GetTreeById(reg: Registry, id: string): (r: Result<Option<Tree>>)
    ensures r.Failure? <==> ParseInt(id).None?
    ensures r.Success? ==> r.value == Find(reg, ParseInt(id).value)
  {
    var n :- ParseTreeId(id);
    Success(Find(reg, n))
  }

  /** A tree's own id string finds it again. */
  lemma GetTreeByOwnId(reg: Registry, k: nat)
    requires Valid(reg) && k < |reg|
    ensures GetTreeById(reg, NatToString(reg[k].id)) == Success(Some(reg[k]))
  {
    ParseIntOfNatToString(reg[k].id);
    FindUnique(reg, k);
  }

  /** `getTreeByName`: the first row with that name, or null. */
  function GetTreeByName(reg: Registry, name: string): (r: Option<Tree>)
    ensures r.Some? ==> r.value in reg && r.value.name == name
    ensures r.None? <==> forall i :: 0 <= i < |reg| ==> reg[i].name != name
  {
    if |reg| == 0 then None
    else if reg[0].name == name then Some(reg[0])
    else GetTreeByName(reg[1..], name)
  }

  /** `getAllTrees`: every row, ordered by name. */
  function GetAllTrees(reg: Registry): (r: seq<Tree>)
    ensures multiset(r) == multiset(reg)
    ensures forall i, j :: 0 <= i < j < |r| ==> LexLe(r[i].name, r[j].name)
  {
    Sorting.SortByKey(reg, (t: Tree) => t.name)
  }

  /** The row after `UPDATE trees SET ...`; `withPath` says whether a
      supplied `file_path` is written as well. */
  function Apply(t: Tree, u: TreeUpdate, withPath: bool): Tree {
    t.(name := u.name.GetOr(t.name),
       description := if u.description.Some? then StoredDescription(u.description) else t.description,
       filePath := if withPath && u.filePath.Some? then u.filePath.value else t.filePath)
  }

  function UpdateRows(reg: Registry, id: int, u: TreeUpdate, withPath: bool): (r: Registry)
    ensures |r| == |reg|
    ensures forall i :: 0 <= i < |reg| ==> r[i] == if reg[i].id == id then Apply(reg[i], u, withPath) else reg[i]
  {
    seq(|reg|, i requires 0 <= i < |reg| => if reg[i].id == id then Apply(reg[i], u, withPath) else reg[i])
  }

  function Update(reg: Registry, id: string, u: TreeUpdate, withPath: bool): Result<(Registry, Tree)> {
    var n :- ParseTreeId(id);
    if u.name.None? && u.description.None? && (!withPath || u.filePath.None?) then
      match Find(reg, n)
      case None => Failure("Tree with ID " + id + " not found")
      case Some(t) => Success((reg, t))
    else
      var reg' := UpdateRows(reg, n, u, withPath);
      match Find(reg', n)
      case None => Failure("Tree with ID " + id + " not found after update")
      case Some(t) => Success((reg', t))
  }

  lemma {:induction false} FindUpdateRows(reg: Registry, n: int, m: int, u: TreeUpdate, withPath: bool)
    ensures Find(UpdateRows(reg, n, u, withPath), m) ==
      if m == n && Find(reg, n).Some? then Some(Apply(Find(reg, n).value, u, withPath)) else Find(reg, m)
    decreases |reg|
  {
    if |reg| > 0 {
      FindUpdateRows(reg[1..], n, m, u, withPath);
      assert UpdateRows(reg, n, u, withPath)[1..] == UpdateRows(reg[1..], n, u, withPath);
    }
  }

  /** `updateTree` as written: only `name` and `description` are written; a
      supplied `file_path` is dropped, so every row keeps its path. A
      present id always succeeds and reads back the written row; an
      absent one fails with "not found", or "not found after update" once
      there was something to write. */
  function UpdateTree(reg: Registry, id: string, u: TreeUpdate): (r: Result<(Registry, Tree)>)
    ensures ParseInt(id).None? ==> r == Failure("Invalid tree ID: " + id)
    ensures (ParseInt(id).Some? && Find(reg, ParseInt(id).value).None? && u.name.None? && u.description.None?)
              ==> r == Failure("Tree with ID " + id + " not found")
    ensures r.Success? ==> (
              && |r.value.0| == |reg|
              && (forall i :: 0 <= i < |reg| ==> r.value.0[i].id == reg[i].id && r.value.0[i].filePath == reg[i].filePath)
              && ParseInt(id).Some? && Find(reg, ParseInt(id).value).Some?
              && r.value.1.filePath == Find(reg, ParseInt(id).value).value.filePath)
    ensures (ParseInt(id).Some? && Find(reg, ParseInt(id).value).None? && (u.name.Some? || u.description.Some?))
              ==> r == Failure("Tree with ID " + id + " not found after update")
    ensures ParseInt(id).Some? && Find(reg, ParseInt(id).value).Some? ==>
              var n := ParseInt(id).value;
              var t := Find(reg, n).value;
              && r.Success?
              && r.value.1.id == t.id && r.value.1.filePath == t.filePath
              && r.value.1.name == (if u.name.Some? then u.name.value else t.name)
              && r.value.1.description == (if u.description.Some? then StoredDescription(u.description) else t.description)
              && Find(r.value.0, n) == Some(r.value.1)
              && (forall m :: m != n ==> Find(r.value.0, m) == Find(reg, m))
  {
    UpdateFacts(reg, id, u, false);
    Update(reg, id, u, false)
  }

  /** `updateTree` writing every supplied field, `file_path` included; an
      update that supplies nothing returns the current row. */
  function UpdateTreeWithPath(reg: Registry, id: string, u: TreeUpdate): (r: Result<(Registry, Tree)>)
    ensures ParseInt(id).None? ==> r == Failure("Invalid tree ID: " + id)
    ensures ParseInt(id).Some? && Find(reg, ParseInt(id).value).None? ==> r.Failure?
    ensures ParseInt(id).Some? && Find(reg, ParseInt(id).value).Some? ==>
              var n := ParseInt(id).value;
              var t := Find(reg, n).value;
              r.Success? && r.value.1 == Apply(t, u, true)
              && Find(r.value.0, n) == Some(Apply(t, u, true))
              && (forall m :: m != n ==> Find(r.value.0, m) == Find(reg, m))
    ensures r.Success? && Valid(reg) ==> Valid(r.value.0)
  {
    UpdateFacts(reg, id, u, true);
    Update(reg, id, u, true)
  }

  lemma UpdateFacts(reg: Registry, id: string, u: TreeUpdate, withPath: bool)
    ensures ParseInt(id).Some? ==>
      var n := ParseInt(id).value;
      Find(UpdateRows(reg, n, u, withPath), n) == (if Find(reg, n).Some? then Some(Apply(Find(reg, n).value, u, withPath)) else None)
      && (forall m :: m != n ==> Find(UpdateRows(reg, n, u, withPath), m) == Find(reg, m))
      && (Find(reg, n).Some? && u.name.None? && u.description.None? && (!withPath || u.filePath.None?) ==> Apply(Find(reg, n).value, u, withPath) == Find(reg, n).value)
  {
    if ParseInt(id).Some? {
      var n := ParseInt(id).value;
      FindUpdateRows(reg, n, n, u, withPath);
      forall m | m != n
        ensures Find(UpdateRows(reg, n, u, withPath), m) == Find(reg, m)
      {
        FindUpdateRows(reg, n, m, u, withPath);
      }
    }
  }

  function RemoveRows(reg: Registry, n: int): (r: Registry)
    ensures |r| <= |reg|
  {
    if |reg| == 0 then []
    else (if reg[0].id != n then [reg[0]] else []) + RemoveRows(reg[1..], n)
  }

  lemma {:induction false} FindRemoveRows(reg: Registry, n: int, m: int)
    ensures Find(RemoveRows(reg, n), m) == if m == n then None else Find(reg, m)
    decreases |reg|
  {
    if |reg| > 0 {
      FindRemoveRows(reg[1..], n, m);
      if reg[0].id != n {
        assert RemoveRows(reg, n) == [reg[0]] + RemoveRows(reg[1..], n);
        assert RemoveRows(reg, n)[1..] == RemoveRows(reg[1..], n);
      } else {
        assert RemoveRows(reg, n) == RemoveRows(reg[1..], n);
      }
    }
  }

  lemma FindRemoveRowsAll(reg: Registry, n: int)
    ensures forall m :: Find(RemoveRows(reg, n), m) == if m == n then None else Find(reg, m)
  {
    forall m ensures Find(RemoveRows(reg, n), m) == if m == n then None else Find(reg, m) {
      FindRemoveRows(reg, n, m);
    }
  }

  /** `deleteTree`: removes the row with the id, if any; never fails on a
      numeric id. */
  function DeleteTree(reg: Registry, id: string): (r: Result<Registry>)
    ensures r.Failure? <==> ParseInt(id).None?
    ensures r.Failure? ==> r.error == "Invalid tree ID: " + id
    ensures r.Success? ==> (
              && Find(r.value, ParseInt(id).value).None?
              && forall m :: m != ParseInt(id).value ==> Find(r.value, m) == Find(reg, m))
  {
    var n :- ParseTreeId(id);
    FindRemoveRowsAll(reg, n);
    Success(RemoveRows(reg, n))
  }

  /** Deleting a freshly created tree by the id string it was returned with
      gives back the registry as it was. */
  lemma CreateThenDelete(reg: Registry, name: string, description: Option<string>)
    ensures var (reg', t) := CreateTree(reg, name, description);
      DeleteTree(reg', NatToString(t.id)) == Success(reg)
  {
    var (reg', t) := CreateTree(reg, name, description);
    ParseIntOfNatToString(t.id);
    RemoveAppendFresh(reg, reg'[|reg|], t.id);
  }

  lemma {:induction false} RemoveAppendFresh(reg: Registry, t: Tree, n: int)
    requires t.id == n && forall i :: 0 <= i < |reg| ==> reg[i].id != n
    ensures RemoveRows(reg + [t], n) == reg
    decreases |reg|
  {
    if |reg| == 0 {
      assert RemoveRows([t], n) == [] + RemoveRows([t][1..], n);
    } else {
      RemoveAppendFresh(reg[1..], t, n);
      assert (reg + [t])[1..] == reg[1..] + [t];
    }
  }
}
