/** The columns of the events table (`src/components/events/EventsTable/columns.tsx`):
    which columns are shown, in which order, and what the type, subjects and
    place cells display. */
module EventColumns {
  import opened Wrappers
  import opened Text
  import Sorting
  import opened TableColumns
  import EventsPaging

  /** `EventColumnId`. */
  datatype EventColumnId = Type | Date | Subjects | Place

  /** The order without `showColumns`. */
  const DefaultOrder: seq<EventColumnId> := [Type, Date, Subjects, Place]

  /** The sizes the column definitions set; the place column sets none. */
  function DefaultSize(id: EventColumnId): Option<int> {
    match id
    case Type => Some(150)
    case Date => Some(180)
    case Subjects => Some(300)
    case Place => None
  }

  function DefaultSizeF(): EventColumnId -> Option<int> {
    (id: EventColumnId) => DefaultSize(id)
  }

  /** The ids considered: `showColumns` in its order, or else the default
      order without the ids of `hideColumns`. */
  function ListedIds(hidden: Option<seq<EventColumnId>>, show: Option<seq<EventColumnId>>): seq<EventColumnId> {
    if show.Some? then show.value else Sorting.Filter(DefaultOrder, NotHidden(hidden))
  }

  /** The data columns: those of the ids considered that the configuration
      does not hide. */
  function DataColumns(hidden: Option<seq<EventColumnId>>, show: Option<seq<EventColumnId>>,
                       configs: map<EventColumnId, ColumnConfig>): seq<Column<EventColumnId>>
  {
    Present(ListedIds(hidden, show), DefaultSizeF(), configs)
  }

  /** `getVisibleColumns`: the data columns, then the actions column when a
      delete handler is given. */
  function VisibleColumns(hidden: Option<seq<EventColumnId>>, show: Option<seq<EventColumnId>>,
                          configs: map<EventColumnId, ColumnConfig>, hasDelete: bool): seq<Column<EventColumnId>>
  {
    WithActions(DataColumns(hidden, show, configs), hasDelete)
  }

  /** Partner of `DataColumns`: one column per id considered and not hidden
      by the configuration, in order, each configured. */
  lemma DataColumnsShape(hidden: Option<seq<EventColumnId>>, show: Option<seq<EventColumnId>>,
                         configs: map<EventColumnId, ColumnConfig>)
    ensures var d := DataColumns(hidden, show, configs);
      && (forall i :: 0 <= i < |d| ==> Configure(Base(d[i].id, DefaultSizeF()), ConfigOf(configs, d[i].id)) == Some(d[i]))
      && IdsOf(d) == Sorting.Filter(ListedIds(hidden, show), Shown(configs))
  {
    PresentColumns(ListedIds(hidden, show), DefaultSizeF(), configs);
  }

  /** The data columns come first; the actions column follows exactly when a
      delete handler is given, and is never among the data columns. */
  lemma ActionsLast(hidden: Option<seq<EventColumnId>>, show: Option<seq<EventColumnId>>,
                    configs: map<EventColumnId, ColumnConfig>, hasDelete: bool)
    ensures var d, r := DataColumns(hidden, show, configs), VisibleColumns(hidden, show, configs, hasDelete);
      && d <= r
      && (|r| == |d| + 1 <==> hasDelete)
      && (hasDelete ==> r[|d|] == ActionsColumn)
      && ActionsColumn !in d
  {
  }

  /** With no configuration, the default table shows the four columns in
      the default order. */
  lemma DefaultShowsAll()
    ensures IdsOf(DataColumns(None, None, map[])) == DefaultOrder
  {
    var empty: map<EventColumnId, ColumnConfig> := map[];
    assert forall id :: id in DefaultOrder ==> NotHidden<EventColumnId>(None)(id);
    Sorting.FilterAll(DefaultOrder, NotHidden(None));
    assert ListedIds(None, None) == DefaultOrder;
    DataColumnsShape(None, None, empty);
    assert forall id :: id in DefaultOrder ==> Shown(empty)(id) by {
      forall id | id in DefaultOrder ensures Shown(empty)(id) {
        assert ConfigOf(empty, id).None?;
      }
    }
    Sorting.FilterAll(DefaultOrder, Shown(empty));
  }

  // ---------------------------------------------------------------------
  // Cells
  // ---------------------------------------------------------------------

  /** The type cell: the capitalised type name (`capitalize`, not part of
      this model, is a parameter), or "Unknown" when the name is empty. */
  function TypeCell(e: EventsPaging.EventListItem, capitalize: string -> string): string {
    if e.eventTypeName != "" then capitalize(e.eventTypeName) else "Unknown"
  }

  /** The subjects cell: the comma-separated names with each comma shown as
      " •", or "Unknown" when there are none. */
  function SubjectsCell(e: EventsPaging.EventListItem): (r: string)
    ensures e.subjects == "" ==> r == "Unknown"
    ensures e.subjects != "" ==> ',' !in r
    ensures e.subjects != "" && ',' !in e.subjects ==> r == e.subjects
  {
    if e.subjects != "" then ReplaceAllChar(e.subjects, ',', " •") else "Unknown"
  }

  /** Partner of `SubjectsCell`: the names the procedure joined with commas
      are shown joined with " •". */
  lemma {:induction false} SubjectsCellJoins(names: seq<string>)
    requires forall i :: 0 <= i < |names| ==> ',' !in names[i]
    ensures ReplaceAllChar(Join(names, ","), ',', " •") == Join(names, " •")
    decreases |names|
  {
    if |names| == 1 {
    } else if |names| > 1 {
      SubjectsCellJoins(names[1..]);
      ReplaceAllCharConcat(names[0] + ",", Join(names[1..], ","), ',', " •");
      ReplaceAllCharConcat(names[0], ",", ',', " •");
    }
  }

  /** The place cell: `place_name || "Unknown"`. */
  function PlaceCell(e: EventsPaging.EventListItem): string {
    if e.placeName != "" then e.placeName else "Unknown"
  }

  /** Partner of the cells: none is ever blank, and "Unknown" in the type or
      place cell cannot be told apart from a type or place of that name. */
  lemma CellsNeverBlank(e: EventsPaging.EventListItem, capitalize: string -> string)
    requires forall s :: s != "" ==> capitalize(s) != ""
    ensures TypeCell(e, capitalize) != "" && PlaceCell(e) != ""
    ensures PlaceCell(e) == "Unknown" <==> e.placeName == "" || e.placeName == "Unknown"
    ensures e.eventTypeName == "" ==> TypeCell(e, capitalize) == "Unknown"
    ensures capitalize("unknown") == "Unknown" ==>
              TypeCell(e.(eventTypeName := "unknown"), capitalize) == TypeCell(e.(eventTypeName := ""), capitalize)
  {
  }
}
