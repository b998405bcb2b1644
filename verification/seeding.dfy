/** Opening a tree database for the first time: the schema is created and
    each lookup table is seeded with its defaults when it is empty. */
module Seeding {
  import opened Wrappers
  import opened Schema

  /** A lookup table with its `sqlite_sequence` entry: the largest id the
      `AUTOINCREMENT` key has handed out, 0 before the first insert. Deleting
      rows never lowers it. */
  datatype Table = Table(rows: seq<TypeRow<nat>>, sequence: nat)

  /** No row holds an id above the sequence entry, as SQLite keeps it. */
  ghost predicate SequenceCovers(t: Table) {
    forall i :: 0 <= i < |t.rows| ==> t.rows[i].id <= t.sequence
  }

  /** The three seeded tables of one tree database. */
  datatype Lookups = Lookups(placeTypes: Table, eventTypes: Table, eventRoles: Table)

  /** `existing[0]?.count || 0`: the count a `COUNT(*)` query returned, or 0
      when it returned no row. */
  function CountOrZero(rows: seq<nat>): (n: nat)
    ensures |rows| == 0 ==> n == 0
    ensures |rows| > 0 ==> n == rows[0]
  {
    if |rows| == 0 then 0 else rows[0]
  }

  /** The rows the inserts of a default list produce, ids counting up from `first`. */
  function SeedRows(ds: seq<Default>, first: nat): (t: seq<TypeRow<nat>>)
    ensures |t| == |ds|
    ensures forall i :: 0 <= i < |ds| ==> t[i] == TypeRow(first + i, ds[i].name, Some(ds[i].key))
  {
    seq(|ds|, i requires 0 <= i < |ds| => TypeRow(first + i, ds[i].name, Some(ds[i].key)))
  }

  /** One seeding block: insert the defaults, in order, when the count is 0.
      Each insert leaves the id to `AUTOINCREMENT`, which numbers on from the
      sequence entry, so an emptied table never gets an id back. */
  function SeedTable(t: Table, ds: seq<Default>): (r: Table)
    ensures |t.rows| > 0 ==> r == t
    ensures |t.rows| == 0 ==>
      && |r.rows| == |ds|
      && (forall i :: 0 <= i < |ds| ==> r.rows[i].name == ds[i].name && r.rows[i].key == Some(ds[i].key))
      && (forall i :: 0 <= i < |ds| ==> r.rows[i].id == t.sequence + 1 + i)
      && r.sequence == t.sequence + |ds|
    ensures SequenceCovers(t) ==> SequenceCovers(r)
    ensures forall i :: 0 <= i < |r.rows| && r.rows[i] !in t.rows ==> r.rows[i].id > t.sequence
  {
    if CountOrZero([|t.rows|]) == 0 then Table(SeedRows(ds, t.sequence + 1), t.sequence + |ds|) else t
  }

  /** `initializeTreeDatabase`: `connect` is the outcome of opening the tree's
      database (a tree id missing from the registry fails here), `schema` the
      outcome of running the schema script. Failures are rethrown unchanged. */
  function InitializeTreeDatabase(db: Lookups, connect: Io, schema: Io): (r: Result<Lookups>)
    ensures r.Success? <==> connect.Ok? && schema.Ok?
    ensures connect.Err? ==> r == Failure(connect.msg)
    ensures r.Success? ==>
      && r.value.placeTypes == SeedTable(db.placeTypes, DefaultPlaceTypes)
      && r.value.eventTypes == SeedTable(db.eventTypes, DefaultEventTypes)
      && r.value.eventRoles == SeedTable(db.eventRoles, DefaultEventRoles)
  {
    if connect.Err? then Failure(connect.msg)
    else if schema.Err? then Failure(schema.msg)
    else Success(Lookups(
      SeedTable(db.placeTypes, DefaultPlaceTypes),
      SeedTable(db.eventTypes, DefaultEventTypes),
      SeedTable(db.eventRoles, DefaultEventRoles)))
  }

  /** A non-empty default list leaves a seeded table non-empty, so a second
      run inserts nothing. */
  lemma SeedTableIdempotent(t: Table, ds: seq<Default>)
    requires |ds| > 0
    ensures SeedTable(SeedTable(t, ds), ds) == SeedTable(t, ds)
  {
  }

  /** Running initialisation twice leaves every table as the first run did. */
  lemma InitializeIdempotent(db: Lookups)
    requires InitializeTreeDatabase(db, Ok, Ok).Success?
    ensures InitializeTreeDatabase(InitializeTreeDatabase(db, Ok, Ok).value, Ok, Ok) == InitializeTreeDatabase(db, Ok, Ok)
  {
    DefaultsWellFormed();
    SeedTableIdempotent(db.placeTypes, DefaultPlaceTypes);
    SeedTableIdempotent(db.eventTypes, DefaultEventTypes);
    SeedTableIdempotent(db.eventRoles, DefaultEventRoles);
  }

  /** The tables are decided independently: what happens to one does not
      depend on the contents of the others. */
  lemma SeedingIndependent(a: Lookups, b: Lookups)
    requires a.eventRoles == b.eventRoles
    ensures InitializeTreeDatabase(a, Ok, Ok).value.eventRoles == InitializeTreeDatabase(b, Ok, Ok).value.eventRoles
  {
  }

  /** A fresh database gets exactly the defaults, keys unique, numbered from 1. */
  lemma FreshDatabaseSeeded()
    ensures var e := Table([], 0);
      var r := InitializeTreeDatabase(Lookups(e, e, e), Ok, Ok).value;
      && |r.placeTypes.rows| == 10 && |r.eventTypes.rows| == 11 && |r.eventRoles.rows| == 14
      && (forall i, j :: 0 <= i < j < |r.eventRoles.rows| ==> r.eventRoles.rows[i].key != r.eventRoles.rows[j].key)
      && (forall i :: 0 <= i < 14 ==> r.eventRoles.rows[i].id == i + 1)
  {
    DefaultsWellFormed();
  }

  /** A role table emptied by the user after the 14 defaults were seeded is
      seeded again on the next open, with ids 15 to 28: none of the deleted
      ids comes back. */
  lemma EmptiedTableNumbersOn()
    ensures var before := Lookups(Table([], 0), Table([], 0), Table([], 14));
      var r := InitializeTreeDatabase(before, Ok, Ok).value.eventRoles;
      && |r.rows| == 14 && r.sequence == 28
      && (forall i :: 0 <= i < 14 ==> r.rows[i].id == 15 + i)
      && (forall i :: 0 <= i < 14 ==> r.rows[i].id != i + 1)
  {
    DefaultsWellFormed();
  }
}
