/** The columns of the individuals table
    (`src/components/individuals/IndividualsTable/columns.tsx`): which
    columns are shown and in which order (the role column keeps to the
    name column), and which part of the name the name cell shows. */
module IndividualColumns {
  import opened Wrappers
  import Sorting
  import DisplayName
  import opened TableColumns

  /** `IndividualColumnId`. */
  datatype IndividualColumnId = Name | Gender | Birth | Death | Role

  /** The order without `showColumns`: the role right after the name. */
  const DefaultOrder: seq<IndividualColumnId> := [Name, Role, Gender, Birth, Death]

  /** The sizes the column definitions set. */
  function DefaultSize(id: IndividualColumnId): Option<int> {
    match id
    case Gender => Some(128)
    case Role => Some(120)
    case _ => None
  }

  function DefaultSizeF(): IndividualColumnId -> Option<int> {
    (id: IndividualColumnId) => DefaultSize(id)
  }

  /** `allColumns[id]`: the configured column, `None` when hidden. */
  function Configured(id: IndividualColumnId, configs: map<IndividualColumnId, ColumnConfig>): Option<Column<IndividualColumnId>> {
    Configure(Base(id, DefaultSizeF()), ConfigOf(configs, id))
  }

  function NeitherNameNorRole(): IndividualColumnId -> bool {
    (id: IndividualColumnId) => id != Name && id != Role
  }

  /** The data columns for a `showColumns` list: the name column first if
      listed and shown, then the role column if both are, then the other
      listed columns in their order, and the role column last when it is
      listed and shown but the name column is not. The four conditional
      pushes of the source come down to these four cases. */
  function ShownColumns(show: seq<IndividualColumnId>, configs: map<IndividualColumnId, ColumnConfig>): seq<Column<IndividualColumnId>> {
    var name, role := Configured(Name, configs), Configured(Role, configs);
    var hasName := Name in show && name.Some?;
    var hasRole := Role in show && role.Some?;
    var others := Present(Sorting.Filter(show, NeitherNameNorRole()), DefaultSizeF(), configs);
    if hasName && hasRole then [name.value, role.value] + others
    else if hasName then [name.value] + others
    else if hasRole then others + [role.value]
    else others
  }

  /** The data columns: from `showColumns` when given, else the default
      order without the ids of `hideColumns`. */
  function DataColumns(hidden: Option<seq<IndividualColumnId>>, show: Option<seq<IndividualColumnId>>,
                       configs: map<IndividualColumnId, ColumnConfig>): (r: seq<Column<IndividualColumnId>>)
    ensures forall i :: 0 <= i < |r| ==> r[i].DataColumn?
  {
    if show.Some? then ShownColumns(show.value, configs)
    else Present(Sorting.Filter(DefaultOrder, NotHidden(hidden)), DefaultSizeF(), configs)
  }

  /** `getVisibleColumns`: the data columns, then the actions column when a
      delete handler is given. */
  function VisibleColumns(hidden: Option<seq<IndividualColumnId>>, show: Option<seq<IndividualColumnId>>,
                          configs: map<IndividualColumnId, ColumnConfig>, hasDelete: bool): seq<Column<IndividualColumnId>>
  {
    WithActions(DataColumns(hidden, show, configs), hasDelete)
  }

  /** The ids of the data columns. */
  function DataIds(hidden: Option<seq<IndividualColumnId>>, show: Option<seq<IndividualColumnId>>,
                   configs: map<IndividualColumnId, ColumnConfig>): seq<IndividualColumnId>
  {
    IdsOf(DataColumns(hidden, show, configs))
  }

  /** The ids of the `showColumns` columns, spelled out. */
  lemma {:induction false} ShownIds(show: seq<IndividualColumnId>, configs: map<IndividualColumnId, ColumnConfig>)
    ensures var hasName := Name in show && Shown(configs)(Name);
      var hasRole := Role in show && Shown(configs)(Role);
      DataIds(None, Some(show), configs)
        == ArrangedIds(hasName, hasRole, Sorting.Filter(Sorting.Filter(show, NeitherNameNorRole()), Shown(configs)))
  {
    var name, role := Configured(Name, configs), Configured(Role, configs);
    var hasName := Name in show && name.Some?;
    var hasRole := Role in show && role.Some?;
    var listed := Sorting.Filter(show, NeitherNameNorRole());
    var mid := Present(listed, DefaultSizeF(), configs);
    PresentColumns(listed, DefaultSizeF(), configs);
    var m := IdsOf(mid);
    var ids := DataIds(None, Some(show), configs);
    assert ids == IdsOf(ShownColumns(show, configs));
    if hasName && hasRole {
      IdsOfConcat([name.value, role.value], mid);
      assert IdsOf([name.value, role.value]) == [Name, Role];
      assert ids == [Name, Role] + m;
    } else if hasName {
      IdsOfConcat([name.value], mid);
      assert IdsOf([name.value]) == [Name];
      assert ids == [Name] + m;
    } else if hasRole {
      IdsOfConcat(mid, [role.value]);
      assert IdsOf([role.value]) == [Role];
      assert ids == m + [Role];
    } else {
      assert ids == m;
    }
  }

  /** The list of ids a `showColumns` list gives, from whether the name
      and role columns are shown and the ids of the other columns. */
  function ArrangedIds(hasName: bool, hasRole: bool, m: seq<IndividualColumnId>): seq<IndividualColumnId> {
    if hasName && hasRole then [Name, Role] + m
    else if hasName then [Name] + m
    else if hasRole then m + [Role]
    else m
  }

  /** The name and role ids occur iff shown. */
  lemma ArrangedMembers(hasName: bool, hasRole: bool, m: seq<IndividualColumnId>)
    requires forall x :: x in m ==> NeitherNameNorRole()(x)
    ensures var ids := ArrangedIds(hasName, hasRole, m);
      (Name in ids <==> hasName) && (Role in ids <==> hasRole)
  {
    assert Name !in m && Role !in m;
  }

  /** The other ids are `m`. */
  lemma ArrangedOthers(hasName: bool, hasRole: bool, m: seq<IndividualColumnId>)
    requires forall x :: x in m ==> NeitherNameNorRole()(x)
    ensures Sorting.Filter(ArrangedIds(hasName, hasRole, m), NeitherNameNorRole()) == m
  {
    var nnr := NeitherNameNorRole();
    Sorting.FilterAll(m, nnr);
    if hasName && hasRole {
      FilterFirstTwoOut(Name, Role, m, nnr);
    } else if hasName {
      Sorting.FilterCons(Name, m, nnr);
    } else if hasRole {
      Sorting.FilterAppend(m, Role, nnr);
    }
  }

  /** The name id can only stand first, and the role id second after the
      name or else last. */
  lemma ArrangedPositions(hasName: bool, hasRole: bool, m: seq<IndividualColumnId>)
    requires forall x :: x in m ==> NeitherNameNorRole()(x)
    ensures var ids := ArrangedIds(hasName, hasRole, m);
      && (forall i :: 0 <= i < |ids| && ids[i] == Name ==> i == 0)
      && (forall i :: 0 <= i < |ids| && ids[i] == Role ==> i == (if hasName then 1 else |ids| - 1))
  {
    var ids := ArrangedIds(hasName, hasRole, m);
    assert forall i :: 0 <= i < |m| ==> NeitherNameNorRole()(m[i]);
    var k := if hasName && hasRole then 2 else if hasName then 1 else 0;
    assert ids[..k] + m == ids[..k + |m|];
    assert forall i :: k <= i < k + |m| ==> ids[i] == m[i - k];
  }

  /** Filtering drops two leading elements the predicate rejects. */
  lemma FilterFirstTwoOut(x: IndividualColumnId, y: IndividualColumnId, t: seq<IndividualColumnId>, p: IndividualColumnId -> bool)
    requires !p(x) && !p(y)
    ensures Sorting.Filter([x, y] + t, p) == Sorting.Filter(t, p)
  {
    Sorting.FilterCons(y, t, p);
    Sorting.FilterCons(x, [y] + t, p);
    assert [x] + ([y] + t) == [x, y] + t;
  }

  /** Partner of `ShownColumns`: with `showColumns`, the name column is
      shown iff listed and not hidden by the configuration, and then comes
      first; the role column likewise, right after the name column or else
      last; each at most once however often listed; and the other columns
      are those listed and not hidden, in the listed order. */
  lemma ShowColumnsOrder(show: seq<IndividualColumnId>, configs: map<IndividualColumnId, ColumnConfig>)
    ensures var ids := DataIds(None, Some(show), configs);
      var hasName := Name in show && Shown(configs)(Name);
      var hasRole := Role in show && Shown(configs)(Role);
      && (Name in ids <==> hasName)
      && (Role in ids <==> hasRole)
      && (forall i :: 0 <= i < |ids| && ids[i] == Name ==> i == 0)
      && (forall i :: 0 <= i < |ids| && ids[i] == Role ==> i == (if hasName then 1 else |ids| - 1))
      && Sorting.Filter(ids, NeitherNameNorRole()) == Sorting.Filter(Sorting.Filter(show, NeitherNameNorRole()), Shown(configs))
  {
    ShownIds(show, configs);
    var m := Sorting.Filter(Sorting.Filter(show, NeitherNameNorRole()), Shown(configs));
    var hasName, hasRole := Name in show && Shown(configs)(Name), Role in show && Shown(configs)(Role);
    ArrangedMembers(hasName, hasRole, m);
    ArrangedOthers(hasName, hasRole, m);
    ArrangedPositions(hasName, hasRole, m);
  }

  /** Without `showColumns`, the columns are those of the default order
      neither in `hideColumns` nor hidden by the configuration, in that
      order, each configured. */
  lemma DefaultColumnsOrder(hidden: Option<seq<IndividualColumnId>>, configs: map<IndividualColumnId, ColumnConfig>)
    ensures var d := DataColumns(hidden, None, configs);
      && (forall i :: 0 <= i < |d| ==> Configured(d[i].id, configs) == Some(d[i]))
      && IdsOf(d) == Sorting.Filter(Sorting.Filter(DefaultOrder, NotHidden(hidden)), Shown(configs))
  {
    PresentColumns(Sorting.Filter(DefaultOrder, NotHidden(hidden)), DefaultSizeF(), configs);
  }

  /** Filtering keeps two leading elements the predicate accepts. */
  lemma FilterFirstTwo(x: IndividualColumnId, y: IndividualColumnId, t: seq<IndividualColumnId>, p: IndividualColumnId -> bool)
    requires p(x) && p(y)
    ensures Sorting.Filter([x, y] + t, p) == [x, y] + Sorting.Filter(t, p)
  {
    Sorting.FilterCons(y, t, p);
    Sorting.FilterCons(x, [y] + t, p);
    assert [x] + ([y] + t) == [x, y] + t;
  }

  /** When neither is hidden, the default order starts with the name and
      role columns. */
  lemma DefaultStartsWithNameRole(hidden: Option<seq<IndividualColumnId>>, configs: map<IndividualColumnId, ColumnConfig>)
    requires NotHidden(hidden)(Name) && NotHidden(hidden)(Role)
    requires Shown(configs)(Name) && Shown(configs)(Role)
    ensures var ids := Sorting.Filter(Sorting.Filter(DefaultOrder, NotHidden(hidden)), Shown(configs));
      |ids| >= 2 && ids[0] == Name && ids[1] == Role
  {
    var nh := NotHidden(hidden);
    assert DefaultOrder == [Name, Role] + [Gender, Birth, Death];
    FilterFirstTwo(Name, Role, [Gender, Birth, Death], nh);
    FilterFirstTwo(Name, Role, Sorting.Filter([Gender, Birth, Death], nh), Shown(configs));
  }

  /** In the default order the role column follows the name column. */
  lemma DefaultNameThenRole(hidden: Option<seq<IndividualColumnId>>, configs: map<IndividualColumnId, ColumnConfig>)
    ensures var ids := DataIds(hidden, None, configs);
      Name in ids && Role in ids ==> |ids| >= 2 && ids[0] == Name && ids[1] == Role
  {
    DefaultColumnsOrder(hidden, configs);
    if Name in DataIds(hidden, None, configs) && Role in DataIds(hidden, None, configs) {
      DefaultStartsWithNameRole(hidden, configs);
    }
  }

  /** Whichever way the columns are chosen, when both the name and the role
      column are shown, they are the first two, name then role. */
  lemma RoleFollowsName(hidden: Option<seq<IndividualColumnId>>, show: Option<seq<IndividualColumnId>>,
                        configs: map<IndividualColumnId, ColumnConfig>)
    ensures var ids := DataIds(hidden, show, configs);
      Name in ids && Role in ids ==> |ids| >= 2 && ids[0] == Name && ids[1] == Role
  {
    if show.Some? {
      ShowColumnsOrder(show.value, configs);
      var ids := DataIds(hidden, show, configs);
      assert ids == DataIds(None, show, configs);
    } else {
      DefaultNameThenRole(hidden, configs);
    }
  }

  /** The actions column follows the data columns exactly when a delete
      handler is given. */
  lemma ActionsLast(hidden: Option<seq<IndividualColumnId>>, show: Option<seq<IndividualColumnId>>,
                    configs: map<IndividualColumnId, ColumnConfig>, hasDelete: bool)
    ensures var d, r := DataColumns(hidden, show, configs), VisibleColumns(hidden, show, configs, hasDelete);
      && d <= r
      && (|r| == |d| + 1 <==> hasDelete)
      && (hasDelete ==> r[|d|] == ActionsColumn)
      && ActionsColumn !in d
  {
  }

  // ---------------------------------------------------------------------
  // The name cell
  // ---------------------------------------------------------------------

  /** One entry of the table's sorting state. */
  datatype ColumnSort = ColumnSort(id: string, desc: bool)

  /** The part of the name the name cell shows: last name first while the
      table is sorted by last name first, the full name otherwise. */
  function NamePart(sorting: seq<ColumnSort>): (r: DisplayName.Part)
    ensures r == DisplayName.FullInverted <==> |sorting| > 0 && sorting[0].id == "last_name"
    ensures r == DisplayName.FullInverted || r == DisplayName.Full
  {
    if |sorting| > 0 && sorting[0].id == "last_name" then DisplayName.FullInverted else DisplayName.Full
  }

  /** The name cell: the individual's names shown in that part. */
  function NameCell(names: seq<DisplayName.NameParts>, sorting: seq<ColumnSort>): string {
    DisplayName.Show(DisplayName.Many(names), NamePart(sorting))
  }

  /** Partner of `NameCell`: for an individual whose chosen name has both
      parts, the cell reads "last, first" while sorted by last name first
      and "first last" otherwise; without names it is empty. */
  lemma NameCellOrder(names: seq<DisplayName.NameParts>, sorting: seq<ColumnSort>)
    ensures |names| == 0 ==> NameCell(names, sorting) == ""
    ensures |names| > 0 ==>
      var n := DisplayName.Chosen(names);
      n.firstName.Some? && DisplayName.Trimmed(n.firstName.value)
      && n.lastName.Some? && DisplayName.Trimmed(n.lastName.value) ==>
        NameCell(names, sorting)
        == if |sorting| > 0 && sorting[0].id == "last_name" then n.lastName.value + ", " + n.firstName.value
           else n.firstName.value + " " + n.lastName.value
  {
    if |names| > 0 {
      var n := DisplayName.Chosen(names);
      if n.firstName.Some? && DisplayName.Trimmed(n.firstName.value)
         && n.lastName.Some? && DisplayName.Trimmed(n.lastName.value) {
        DisplayName.FullOfBoth(n);
        DisplayName.InvertedOfBoth(n);
      }
    }
  }
}
