/** What the individuals and events tables share about their columns
    (`applyColumnConfig` in `src/components/individuals/IndividualsTable/columns.tsx`
    and in `src/components/events/EventsTable/columns.tsx`): a per-column
    configuration that can hide a column or set its width, and the step
    that turns a list of column ids into the configured columns. A column
    stands for its definition by its id and its size; header and cell
    rendering are not modelled. */
module TableColumns {
  import opened Wrappers
  import Sorting

  /** `{ visible?: boolean; width?: number }`. */
  datatype ColumnConfig = ColumnConfig(visible: Option<bool>, width: Option<int>)

  /** A column of data, or the actions column with its delete button. */
  datatype Column<Id> = DataColumn(id: Id, size: Option<int>) | ActionsColumn

  /** The size of the actions column. */
  const ActionsSize: int := 60

  /** `config?.visible === false`. */
  predicate HiddenBy(config: Option<ColumnConfig>) {
    config.Some? && config.value.visible == Some(false)
  }

  /** `config?.width` is truthy: present and not 0. */
  predicate SetsWidth(config: Option<ColumnConfig>) {
    config.Some? && config.value.width.Some? && config.value.width.value != 0
  }

  /** `applyColumnConfig`: `null` for a hidden column, else the column with
      the configured width as its size when one is set, else the column. */
  function Configure<Id>(c: Column<Id>, config: Option<ColumnConfig>): (r: Option<Column<Id>>)
    requires c.DataColumn?
    ensures r.None? <==> HiddenBy(config)
    ensures r.Some? ==> r.value.DataColumn? && r.value.id == c.id
    ensures r.Some? && !SetsWidth(config) ==> r.value == c
    ensures r.Some? && SetsWidth(config) ==> r.value.size == config.value.width
  {
    if HiddenBy(config) then None
    else if SetsWidth(config) then Some(c.(size := config.value.width))
    else Some(c)
  }

  /** Configuring a configured column again changes nothing. */
  lemma ConfigureIdempotent<Id>(c: Column<Id>, config: Option<ColumnConfig>)
    requires c.DataColumn? && !HiddenBy(config)
    ensures Configure(Configure(c, config).value, config) == Configure(c, config)
  {
  }

  /** The configuration given for a column, if any (`columnsConfig?.[id]`). */
  function ConfigOf<Id>(configs: map<Id, ColumnConfig>, id: Id): Option<ColumnConfig> {
    if id in configs then Some(configs[id]) else None
  }

  /** Whether the configuration leaves the column shown. */
  function Shown<Id>(configs: map<Id, ColumnConfig>): Id -> bool {
    (id: Id) => !HiddenBy(ConfigOf(configs, id))
  }

  /** `!hideColumns?.includes(id)`. */
  function NotHidden<Id(==)>(hidden: Option<seq<Id>>): Id -> bool {
    (id: Id) => hidden.None? || id !in hidden.value
  }

  /** The actions column appended when a delete handler is given. */
  function WithActions<Id>(columns: seq<Column<Id>>, hasDelete: bool): (r: seq<Column<Id>>)
    ensures columns <= r
    ensures |r| == |columns| + 1 <==> hasDelete
    ensures hasDelete ==> r[|columns|] == ActionsColumn
  {
    if hasDelete then columns + [ActionsColumn] else columns
  }

  /** The column of an id as the table defines it, with its default size. */
  function Base<Id>(id: Id, size: Id -> Option<int>): (r: Column<Id>)
    ensures r.DataColumn? && r.id == id
  {
    DataColumn(id, size(id))
  }

  /** `ids.map(id => allColumns[id]).filter(c => c !== null)`, each column
      taking its default size from `size` and configured. */
  function Present<Id>(ids: seq<Id>, size: Id -> Option<int>, configs: map<Id, ColumnConfig>): (r: seq<Column<Id>>)
    ensures |r| <= |ids|
    ensures forall i :: 0 <= i < |r| ==> r[i].DataColumn?
    decreases |ids|
  {
    if |ids| == 0 then []
    else
      var rest := Present(ids[1..], size, configs);
      match Configure(Base(ids[0], size), ConfigOf(configs, ids[0]))
      case None => rest
      case Some(c) => [c] + rest
  }

  /** The ids of a list of data columns. */
  function IdsOf<Id>(cs: seq<Column<Id>>): (r: seq<Id>)
    requires forall i :: 0 <= i < |cs| ==> cs[i].DataColumn?
    ensures |r| == |cs| && forall i :: 0 <= i < |cs| ==> r[i] == cs[i].id
  {
    seq(|cs|, i requires 0 <= i < |cs| => cs[i].id)
  }

  lemma IdsOfConcat<Id>(a: seq<Column<Id>>, b: seq<Column<Id>>)
    requires forall i :: 0 <= i < |a| ==> a[i].DataColumn?
    requires forall i :: 0 <= i < |b| ==> b[i].DataColumn?
    ensures IdsOf(a + b) == IdsOf(a) + IdsOf(b)
  {
  }

  /** Partner of `Present`: the columns are those of the ids the
      configuration does not hide, in order, each configured. */
  lemma {:induction false} PresentColumns<Id(!new)>(ids: seq<Id>, size: Id -> Option<int>, configs: map<Id, ColumnConfig>)
    ensures var r := Present(ids, size, configs);
      && (forall i :: 0 <= i < |r| ==> Configure(Base(r[i].id, size), ConfigOf(configs, r[i].id)) == Some(r[i]))
      && IdsOf(r) == Sorting.Filter(ids, Shown(configs))
    decreases |ids|
  {
    if |ids| > 0 {
      PresentColumns(ids[1..], size, configs);
      Sorting.FilterCons(ids[0], ids[1..], Shown(configs));
      assert [ids[0]] + ids[1..] == ids;
      var rest := Present(ids[1..], size, configs);
      match Configure(Base(ids[0], size), ConfigOf(configs, ids[0]))
      case None =>
      case Some(c) =>
        assert Present(ids, size, configs) == [c] + rest;
        assert IdsOf([c] + rest) == [c.id] + IdsOf(rest);
    }
  }
}
