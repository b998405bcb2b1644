/** How tree names become database file names: the registry's path
    sanitiser, and the two ways a listing turns a `.db` file name back into a
    tree name. */
module TreeFiles {
  import opened Text
  import opened Wrappers

  const DbExt: string := ".db"

  /** The characters a sanitised name may keep: `[a-z0-9]`. */
  predicate IsSafeChar(c: char) {
    IsLowerAscii(c) || IsDigit(c)
  }

  function SanitiseChar(c: char): (r: char)
    ensures IsSafeChar(r) || r == '_'
  {
    var l := LowerChar(c);
    if IsSafeChar(l) then l else '_'
  }

  /** `name.toLowerCase().replace(/[^a-z0-9]/g, "_")`. */
  function Sanitise(name: string): (r: string)
    ensures |r| == |name|
    ensures forall i :: 0 <= i < |r| ==> r[i] == SanitiseChar(name[i])
  {
    if |name| == 0 then [] else [SanitiseChar(name[0])] + Sanitise(name[1..])
  }

  /** A sanitised name is made of `[a-z0-9_]` only, keeps the length of the
      name, and sanitising it again changes nothing. */
  lemma SanitiseOutput(name: string)
    ensures forall i :: 0 <= i < |Sanitise(name)| ==> IsSafeChar(Sanitise(name)[i]) || Sanitise(name)[i] == '_'
    ensures |Sanitise(name)| == |name|
    ensures Sanitise(Sanitise(name)) == Sanitise(name)
  {
  }

  /** Names already written in `[a-z0-9_]` are their own sanitised form. */
  lemma SanitiseFixesSafeNames(name: string)
    requires forall i :: 0 <= i < |name| ==> IsSafeChar(name[i]) || name[i] == '_'
    ensures Sanitise(name) == name
  {
  }

  /** The registry's file path for a tree name: `trees/<sanitised>.db`. */
  function TreeFilePath(name: string): (p: string)
    ensures |p| == |name| + 9
    ensures StartsWith(p, "trees/") && EndsWith(p, DbExt)
    ensures p[6..|p| - 3] == Sanitise(name)
  {
    "trees/" + Sanitise(name) + DbExt
  }

  /** Two names share a file path exactly when they sanitise alike. */
  lemma TreeFilePathCollides(a: string, b: string)
    ensures TreeFilePath(a) == TreeFilePath(b) <==> Sanitise(a) == Sanitise(b)
  {
    if TreeFilePath(a) == TreeFilePath(b) {
      var p := TreeFilePath(a);
      assert Sanitise(a) == p[6..|p| - 3];
    }
  }

  /** Distinct names differing only in case and punctuation get the same file. */
  lemma CaseAndPunctuationCollide()
    ensures "My Tree" != "my-tree" && TreeFilePath("My Tree") == TreeFilePath("my-tree")
  {
    SanitiseSpaced();
    SanitiseDashed();
  }

  lemma SanitiseSpaced()
    ensures Sanitise("My Tree") == "my_tree"
  {
    assert Sanitise("My Tree") == "my_tree";
  }

  lemma SanitiseDashed()
    ensures Sanitise("my-tree") == "my_tree"
  {
    assert Sanitise("my-tree") == "my_tree";
  }

  /** `fileName.replace(".db", "")`: drops the FIRST `.db`, wherever it is. */
  function StemAsWritten(fileName: string): (r: string)
    ensures !Contains(fileName, DbExt) ==> r == fileName
  {
    ReplaceFirst(fileName, DbExt, "")
  }

  /** The tree name a `.db` file stands for: the file name without its
      trailing extension. */
  function Stem(fileName: string): (r: string)
    requires EndsWith(fileName, DbExt)
    ensures r + DbExt == fileName
  {
    assert fileName == fileName[..|fileName| - 3] + fileName[|fileName| - 3..];
    fileName[..|fileName| - 3]
  }

  /** Rebuilding `trees/<stem>.db` from `Stem` gives back the file listed, and
      different files have different stems. */
  lemma StemRoundTrip(f: string, g: string)
    requires EndsWith(f, DbExt) && EndsWith(g, DbExt)
    ensures "trees/" + Stem(f) + DbExt == "trees/" + f
    ensures Stem(f) == Stem(g) ==> f == g
  {
  }

  /** A tree name with the extension added has that name as its stem. */
  lemma StemOfName(name: string)
    ensures EndsWith(name + DbExt, DbExt) && Stem(name + DbExt) == name
  {
    assert (name + DbExt)[..|name|] == name;
  }

  /** The as-written stem loses the round trip for a file such as
      `smith.db_backup.db`: it yields `smith_backup.db`, whose rebuilt path
      `trees/smith_backup.db.db` is not the listed file, and which also is the
      stem of the different file `smith_backup.db.db`. */
  lemma StemAsWrittenBreaksRoundTrip()
    ensures var f := "smith.db_backup.db";
      EndsWith(f, DbExt)
      && StemAsWritten(f) == "smith_backup.db"
      && "trees/" + StemAsWritten(f) + DbExt != "trees/" + f
      && StemAsWritten("smith_backup.db.db") == StemAsWritten(f)
  {
    StemAsWrittenOfBackupName();
    StemAsWrittenOfDoubledName();
    BackupNameEndsWithDb();
    BackupPathsDiffer();
  }

  lemma BackupPathsDiffer()
    ensures "trees/" + "smith_backup.db" + DbExt != "trees/" + "smith.db_backup.db"
  {
    assert ("trees/" + "smith_backup.db" + DbExt)[11] == '_';
  }

  lemma BackupNameEndsWithDb()
    ensures EndsWith("smith.db_backup.db", DbExt)
  {
    var f := "smith.db_backup.db";
    assert f[|f| - 3..] == ".db";
  }

  lemma StemAsWrittenOfBackupName()
    ensures StemAsWritten("smith.db_backup.db") == "smith_backup.db"
  {
    var f := "smith.db_backup.db";
    FirstDbInBackupName();
    assert StemAsWritten(f) == f[..5] + f[8..];
  }

  lemma StemAsWrittenOfDoubledName()
    ensures StemAsWritten("smith_backup.db.db") == "smith_backup.db"
  {
    var g := "smith_backup.db.db";
    FirstDbInDoubledName();
    assert StemAsWritten(g) == g[..12] + g[15..];
  }

  lemma FirstDbInBackupName()
    ensures IndexOf("smith.db_backup.db", DbExt) == Some(5)
  {
    var f := "smith.db_backup.db";
    assert OccursAt(f, DbExt, 5);
    forall j | 0 <= j < 5
      ensures !OccursAt(f, DbExt, j)
    {
      assert f[j..j + 3][0] == f[j];
    }
  }

  lemma FirstDbInDoubledName()
    ensures IndexOf("smith_backup.db.db", DbExt) == Some(12)
  {
    var g := "smith_backup.db.db";
    assert OccursAt(g, DbExt, 12);
    forall j | 0 <= j < 12
      ensures !OccursAt(g, DbExt, j)
    {
      assert g[j..j + 3][0] == g[j] && g[j..j + 3][1] == g[j + 1];
    }
  }
}
