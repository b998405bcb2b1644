/** The earlier, metadata-based tree database set-up: a schema script split
    into statements, and the place types seeded as system rows. */
module Migrations {
  import opened Wrappers
  import opened Text
  import opened AppFs
  import Schema
  import Sorting

  /** What the loop executes: non-empty, free of `;`, and trimmed (no white
      space at either end). */
  predicate IsStatement(s: string) {
    |s| > 0 && ';' !in s && !IsWhite(s[0]) && !IsWhite(s[|s| - 1])
  }

  /** The statements the schema script runs: split on `;`, blank pieces
      dropped, the rest trimmed, in order. */
  function SplitStatements(sql: string): (r: seq<string>)
    ensures forall i :: 0 <= i < |r| ==> IsStatement(r[i])
  {
    Statements(Split(Trim(sql), ';'))
  }

  function Statements(pieces: seq<string>): (r: seq<string>)
    requires forall i :: 0 <= i < |pieces| ==> ';' !in pieces[i]
    ensures |r| <= |pieces|
    ensures forall i :: 0 <= i < |r| ==> IsStatement(r[i])
  {
    if |pieces| == 0 then []
    else
      var rest := Statements(pieces[1..]);
      if IsBlank(pieces[0]) then rest
      else
        TrimmedPiece(pieces[0], ';');
        var t := Trim(pieces[0]);
        PrependStatement(t, rest);
        [t] + rest
  }

  lemma PrependStatement(t: string, rest: seq<string>)
    requires IsStatement(t) && forall i :: 0 <= i < |rest| ==> IsStatement(rest[i])
    ensures forall i :: 0 <= i < |[t] + rest| ==> IsStatement(([t] + rest)[i])
  {
    forall i | 0 <= i < |[t] + rest| ensures IsStatement(([t] + rest)[i]) {
      if i == 0 {
        assert ([t] + rest)[0] == t;
      } else {
        assert ([t] + rest)[i] == rest[i - 1];
      }
    }
  }

  /** A non-blank piece trims to a non-empty, fully trimmed statement. */
  lemma TrimmedPiece(p: string, c: char)
    requires c !in p && !IsBlank(p)
    ensures |Trim(p)| > 0 && c !in Trim(p)
  {
    TrimEmptyIffBlank(p);
    TrimKeepsAbsentChar(p, c);
  }

  /** Every non-blank piece between semicolons is run, trimmed, in order;
      nothing else is. */
  lemma {:induction false} StatementsKeepEveryNonBlankPiece(pieces: seq<string>, i: int)
    requires forall k :: 0 <= k < |pieces| ==> ';' !in pieces[k]
    requires 0 <= i < |pieces| && !IsBlank(pieces[i])
    ensures Trim(pieces[i]) in Statements(pieces)
    decreases |pieces|
  {
    if i > 0 {
      StatementsKeepEveryNonBlankPiece(pieces[1..], i - 1);
    }
  }

  /** A script holding one statement runs exactly that statement, trimmed. */
  lemma SingleStatement(sql: string)
    requires ';' !in sql && !IsBlank(sql)
    ensures SplitStatements(sql) == [Trim(sql)]
  {
    var t := Trim(sql);
    TrimmedPiece(sql, ';');
    SplitWithoutSeparator(t, ';');
    TrimEmptyIffBlank(t);
    assert Statements([t]) == [Trim(t)] + Statements([]);
  }

  lemma {:induction false} SplitWithoutSeparator(s: string, c: char)
    requires c !in s
    ensures Split(s, c) == [s]
    decreases |s|
  {
    if |s| > 0 {
      SplitWithoutSeparator(s[1..], c);
      assert s == [s[0]] + s[1..];
    }
  }

  /** Every statement run comes from a non-blank piece, trimmed. */
  lemma {:induction false} StatementsComeFromPieces(pieces: seq<string>, i: int)
    requires forall k :: 0 <= k < |pieces| ==> ';' !in pieces[k]
    requires 0 <= i < |Statements(pieces)|
    ensures exists k :: 0 <= k < |pieces| && !IsBlank(pieces[k]) && Statements(pieces)[i] == Trim(pieces[k])
    decreases |pieces|
  {
    var tail := pieces[1..];
    if IsBlank(pieces[0]) {
      StatementsComeFromPieces(tail, i);
      var k :| 0 <= k < |tail| && !IsBlank(tail[k]) && Statements(tail)[i] == Trim(tail[k]);
      assert tail[k] == pieces[k + 1];
    } else if i > 0 {
      StatementsComeFromPieces(tail, i - 1);
      var k :| 0 <= k < |tail| && !IsBlank(tail[k]) && Statements(tail)[i - 1] == Trim(tail[k]);
      assert tail[k] == pieces[k + 1];
    } else {
      assert Statements(pieces)[0] == Trim(pieces[0]);
    }
  }

  /** The statements keep the order of the script: the statements of two
      consecutive stretches of pieces are those of the first, then those of
      the second. */
  lemma {:induction false} StatementsOfConcat(a: seq<string>, b: seq<string>)
    requires forall k :: 0 <= k < |a| ==> ';' !in a[k]
    requires forall k :: 0 <= k < |b| ==> ';' !in b[k]
    ensures Statements(a + b) == Statements(a) + Statements(b)
    decreases |a|
  {
    if |a| > 0 {
      assert (a + b)[0] == a[0];
      assert (a + b)[1..] == a[1..] + b;
      StatementsOfConcat(a[1..], b);
    } else {
      assert a + b == b;
    }
  }

  /** A `place_types` row of this schema, which marks built-in rows explicitly. */
  datatype PlaceTypeRow = PlaceTypeRow(id: nat, name: string, key: Option<string>, isSystem: bool)

  function SystemCount(rows: seq<PlaceTypeRow>): (n: nat)
    ensures n <= |rows|
    ensures n == 0 <==> forall i :: 0 <= i < |rows| ==> !rows[i].isSystem
  {
    if |rows| == 0 then 0
    else
      var rest := SystemCount(rows[1..]);
      assert forall i :: 1 <= i < |rows| ==> rows[i] == rows[1..][i - 1];
      (if rows[0].isSystem then 1 else 0) + rest
  }

  function MaxId(rows: seq<PlaceTypeRow>): (m: nat)
    ensures forall i :: 0 <= i < |rows| ==> rows[i].id <= m
  {
    if |rows| == 0 then 0
    else
      var rest := MaxId(rows[1..]);
      assert forall i :: 1 <= i < |rows| ==> rows[i] == rows[1..][i - 1];
      if rows[0].id > rest then rows[0].id else rest
  }

  /** The id an `AUTOINCREMENT` table hands out next: one past the larger of
      its `sqlite_sequence` entry and the largest id present, so it is never
      one in use or one used before. */
  function NextId(rows: seq<PlaceTypeRow>, sequence: nat): (n: nat)
    ensures n > sequence
    ensures forall i :: 0 <= i < |rows| ==> rows[i].id < n
  {
    (if sequence > MaxId(rows) then sequence else MaxId(rows)) + 1
  }

  /** The ten defaults as system rows with consecutive ids from `first`. */
  function SystemDefaults(first: nat): (t: seq<PlaceTypeRow>)
    ensures |t| == |Schema.DefaultPlaceTypes|
    ensures forall i :: 0 <= i < |t| ==>
              t[i].isSystem && t[i].id == first + i && t[i].name == Schema.DefaultPlaceTypes[i].name && t[i].key == Some(Schema.DefaultPlaceTypes[i].key)
  {
    var ds := Schema.DefaultPlaceTypes;
    seq(|ds|, i requires 0 <= i < |ds| => PlaceTypeRow(first + i, ds[i].name, Some(ds[i].key), true))
  }

  /** Some row already holds `key`, so the unique index refuses another. */
  predicate KeyTaken(rows: seq<PlaceTypeRow>, key: string) {
    exists i :: 0 <= i < |rows| && rows[i].key == Some(key)
  }

  /** SQLite's message when `place_types_key_unique` refuses an insert. */
  const UniqueKeyViolation := "UNIQUE constraint failed: place_types.key"

  /** The first default, from the k-th on, whose key a row already holds. */
  function FirstTaken(rows: seq<PlaceTypeRow>, k: nat): (r: Option<nat>)
    requires k <= |Schema.DefaultPlaceTypes|
    ensures r.Some? ==>
              && k <= r.value < |Schema.DefaultPlaceTypes|
              && KeyTaken(rows, Schema.DefaultPlaceTypes[r.value].key)
              && forall m :: k <= m < r.value ==> !KeyTaken(rows, Schema.DefaultPlaceTypes[m].key)
    ensures r.None? <==> forall m :: k <= m < |Schema.DefaultPlaceTypes| ==> !KeyTaken(rows, Schema.DefaultPlaceTypes[m].key)
    decreases |Schema.DefaultPlaceTypes| - k
  {
    var ds := Schema.DefaultPlaceTypes;
    if k == |ds| then None
    else if KeyTaken(rows, ds[k].key) then Some(k)
    else FirstTaken(rows, k + 1)
  }

  /** The insert loop from the k-th default on. Each insert takes the next
      id; one whose key is already present throws, and the rows inserted
      before it stay (there is no transaction). */
  function InsertDefaults(rows: seq<PlaceTypeRow>, first: nat, k: nat): (r: (seq<PlaceTypeRow>, Result<()>))
    requires k <= |Schema.DefaultPlaceTypes|
    ensures |rows| <= |r.0| && r.0[..|rows|] == rows
    decreases |Schema.DefaultPlaceTypes| - k
  {
    var ds := Schema.DefaultPlaceTypes;
    if k == |ds| then (rows, Success(()))
    else if KeyTaken(rows, ds[k].key) then (rows, Failure(UniqueKeyViolation))
    else
      var r := InsertDefaults(rows + [SystemDefaults(first)[k]], first, k + 1);
      assert r.0[..|rows|] == (r.0[..|rows| + 1])[..|rows|];
      r
  }

  /** A key of one of the first k defaults is none of the later defaults'
      keys, so the rows inserted so far clash with a later default exactly
      when the original rows do. */
  lemma TakenAfterPrefix(base: seq<PlaceTypeRow>, first: nat, k: nat, m: nat)
    requires k <= m < |Schema.DefaultPlaceTypes|
    ensures KeyTaken(base + SystemDefaults(first)[..k], Schema.DefaultPlaceTypes[m].key)
            <==> KeyTaken(base, Schema.DefaultPlaceTypes[m].key)
  {
    Schema.PlaceTypesWellFormed();
    var ds := Schema.DefaultPlaceTypes;
    var sd := SystemDefaults(first);
    var rows := base + sd[..k];
    forall i | |base| <= i < |rows| ensures rows[i].key != Some(ds[m].key) {
      assert rows[i] == sd[i - |base|];
      assert ds[i - |base|].key != ds[m].key;
    }
    if KeyTaken(rows, ds[m].key) {
      var i :| 0 <= i < |rows| && rows[i].key == Some(ds[m].key);
      assert rows[i] == base[i];
    }
    if KeyTaken(base, ds[m].key) {
      var i :| 0 <= i < |base| && base[i].key == Some(ds[m].key);
      assert rows[i] == base[i];
    }
  }

  /** The loop in closed form: with no default key taken all ten rows are
      appended; otherwise the defaults before the first taken key are, and
      the unique index's error is returned. */
  lemma {:induction false} InsertDefaultsClosedForm(base: seq<PlaceTypeRow>, first: nat, k: nat)
    requires k <= |Schema.DefaultPlaceTypes|
    ensures InsertDefaults(base + SystemDefaults(first)[..k], first, k) ==
              match FirstTaken(base, k)
              case None => (base + SystemDefaults(first), Success(()))
              case Some(j) => (base + SystemDefaults(first)[..j], Failure(UniqueKeyViolation))
    decreases |Schema.DefaultPlaceTypes| - k
  {
    var ds := Schema.DefaultPlaceTypes;
    var sd := SystemDefaults(first);
    if k == |ds| {
      assert sd[..k] == sd;
    } else {
      TakenAfterPrefix(base, first, k, k);
      if !KeyTaken(base, ds[k].key) {
        assert base + sd[..k] + [sd[k]] == base + sd[..k + 1];
        InsertDefaultsClosedForm(base, first, k + 1);
      }
    }
  }

  /** A default key the existing rows already hold. */
  predicate DefaultKeyTaken(rows: seq<PlaceTypeRow>) {
    exists m :: 0 <= m < |Schema.DefaultPlaceTypes| && KeyTaken(rows, Schema.DefaultPlaceTypes[m].key)
  }

  /** The seeding step: with a system row present nothing is inserted;
      otherwise the defaults are inserted in order with ids from `NextId`,
      and the first whose key a non-system row already holds fails, leaving
      the defaults before it in place. `sequence` is the table's
      `sqlite_sequence` entry. */
  function SeedPlaceTypes(rows: seq<PlaceTypeRow>, sequence: nat): (r: (seq<PlaceTypeRow>, Result<()>))
    ensures SystemCount(rows) > 0 ==> r == (rows, Success(()))
    ensures r.1.Failure? <==> SystemCount(rows) == 0 && DefaultKeyTaken(rows)
    ensures r.1.Failure? ==> r.1.error == UniqueKeyViolation
    ensures SystemCount(rows) == 0 && !DefaultKeyTaken(rows) ==> r.0 == rows + SystemDefaults(NextId(rows, sequence))
    ensures SystemCount(rows) == 0 && DefaultKeyTaken(rows) ==>
              var j := FirstTaken(rows, 0).value;
              r.0 == rows + SystemDefaults(NextId(rows, sequence))[..j]
  {
    if SystemCount(rows) == 0 then
      var first := NextId(rows, sequence);
      assert rows + SystemDefaults(first)[..0] == rows;
      InsertDefaultsClosedForm(rows, first, 0);
      InsertDefaults(rows, first, 0)
    else (rows, Success(()))
  }

  /** An empty table receives all ten defaults, numbered on from its
      `sqlite_sequence` entry. */
  lemma SeedEmptyTable(sequence: nat)
    ensures SeedPlaceTypes([], sequence) == (SystemDefaults(sequence + 1), Success(()))
  {
    assert !DefaultKeyTaken([]);
    assert NextId([], sequence) == sequence + 1;
  }

  /** `initializeDatabase(treeName)`: opening `trees/<name>.db` creates it;
      the statements run (`schema` is their outcome; a failure is rethrown);
      then the place types are seeded as above, a failed insert rethrown.
      The result is the file system, the `place_types` rows and the outcome. */
  function InitializeDatabase(fs: Fs, treeName: string, rows: seq<PlaceTypeRow>, sequence: nat, schema: Io)
    : (r: (Fs, seq<PlaceTypeRow>, Result<()>))
    ensures Exists(r.0, DbFile(treeName))
    ensures forall q :: q != DbFile(treeName) ==> (Exists(r.0, q) <==> Exists(fs, q))
    ensures schema.Err? ==> r.1 == rows && r.2 == Failure(schema.msg)
    ensures r.2.Success? <==> schema.Ok? && (SystemCount(rows) > 0 || !DefaultKeyTaken(rows))
    ensures schema.Ok? && SystemCount(rows) > 0 ==> r.1 == rows
    ensures schema.Ok? && SystemCount(rows) == 0 && !DefaultKeyTaken(rows) ==>
              r.1 == rows + SystemDefaults(NextId(rows, sequence))
    ensures schema.Ok? && SystemCount(rows) == 0 && DefaultKeyTaken(rows) ==>
              r.2 == Failure(UniqueKeyViolation) && |rows| <= |r.1| < |rows| + |Schema.DefaultPlaceTypes|
  {
    var fs' := AddFile(fs, DbFile(treeName));
    if schema.Err? then (fs', rows, Failure(schema.msg))
    else
      var (seeded, outcome) := SeedPlaceTypes(rows, sequence);
      (fs', seeded, outcome)
  }

  /** A second successful run changes nothing. */
  lemma InitializeDatabaseIdempotent(fs: Fs, treeName: string, rows: seq<PlaceTypeRow>, sequence: nat, sequence': nat)
    requires InitializeDatabase(fs, treeName, rows, sequence, Ok).2.Success?
    ensures var first := InitializeDatabase(fs, treeName, rows, sequence, Ok);
      InitializeDatabase(first.0, treeName, first.1, sequence', Ok).1 == first.1
  {
    var rows1 := InitializeDatabase(fs, treeName, rows, sequence, Ok).1;
    if SystemCount(rows) == 0 {
      var d := SystemDefaults(NextId(rows, sequence));
      assert rows1[|rows|] == d[0];
      assert SystemCount(rows1) > 0;
    }
  }

  /** A seed that fails after inserting some defaults is never completed:
      those rows are system rows, so every later run skips the inserts and
      succeeds with only part of the defaults present. */
  lemma PartialSeedIsFinal(fs: Fs, treeName: string, rows: seq<PlaceTypeRow>, sequence: nat, sequence': nat)
    requires SystemCount(rows) == 0 && DefaultKeyTaken(rows) && FirstTaken(rows, 0).value > 0
    ensures var first := InitializeDatabase(fs, treeName, rows, sequence, Ok);
      var again := InitializeDatabase(first.0, treeName, first.1, sequence', Ok);
      && first.2.Failure?
      && |first.1| < |rows| + |Schema.DefaultPlaceTypes|
      && again.1 == first.1
      && again.2.Success?
  {
    var rows1 := InitializeDatabase(fs, treeName, rows, sequence, Ok).1;
    var d := SystemDefaults(NextId(rows, sequence));
    assert rows1[|rows|] == d[0];
    assert SystemCount(rows1) > 0;
  }

  /** A seed that fails on the first default writes nothing, so every later
      run fails the same way. */
  lemma FirstKeyTakenFailsForever(fs: Fs, treeName: string, rows: seq<PlaceTypeRow>, sequence: nat)
    requires SystemCount(rows) == 0 && KeyTaken(rows, Schema.DefaultPlaceTypes[0].key)
    ensures InitializeDatabase(fs, treeName, rows, sequence, Ok).1 == rows
    ensures InitializeDatabase(fs, treeName, rows, sequence, Ok).2 == Failure(UniqueKeyViolation)
  {
    assert FirstTaken(rows, 0) == Some(0);
    assert rows + SystemDefaults(NextId(rows, sequence))[..0] == rows;
  }
}
