/** The default rows every tree database is seeded with. */
module Schema {
  import opened Wrappers

  /** A row of `place_types`, `event_types` or `event_roles` (creation time
      left out). A row with a non-empty key is a built-in ("system") row. */
  datatype TypeRow<Id> = TypeRow(id: Id, name: string, key: Option<string>)

  /** A seeded lookup row: display name and stable key. */
  datatype Default = Default(name: string, key: string)

  const DefaultPlaceTypes: seq<Default> := [
    Default("Country", "country"), Default("State", "state"), Default("City", "city"),
    Default("County", "county"), Default("Province", "province"), Default("Region", "region"),
    Default("District", "district"), Default("Village", "village"), Default("Town", "town"),
    Default("Address", "address")
  ]

  const DefaultEventTypes: seq<Default> := [
    Default("Birth", "birth"), Default("Death", "death"), Default("Marriage", "marriage"),
    Default("Baptism", "baptism"), Default("Burial", "burial"), Default("Immigration", "immigration"),
    Default("Census", "census"), Default("Engagement", "engagement"), Default("Separation", "separation"),
    Default("Retirement", "retirement"), Default("Other", "other")
  ]

  const DefaultEventRoles: seq<Default> := [
    Default("Subject", "subject"), Default("Husband", "husband"), Default("Wife", "wife"),
    Default("Mother", "mother"), Default("Father", "father"), Default("Witness", "witness"),
    Default("Godfather", "godfather"), Default("Godmother", "godmother"), Default("Officiant", "officiant"),
    Default("Father of Husband", "father_of_husband"), Default("Mother of Husband", "mother_of_husband"),
    Default("Father of Wife", "father_of_wife"), Default("Mother of Wife", "mother_of_wife"),
    Default("Other", "other")
  ]

  function Keys(ds: seq<Default>): (ks: seq<string>)
    ensures |ks| == |ds| && forall i :: 0 <= i < |ds| ==> ks[i] == ds[i].key
  {
    seq(|ds|, i requires 0 <= i < |ds| => ds[i].key)
  }

  /** The unique key indexes accept the seed: no key repeats. */
  predicate KeysDistinct(ds: seq<Default>) {
    forall i, j :: 0 <= i < j < |ds| ==> ds[i].key != ds[j].key
  }

  /** Two defaults whose keys differ in length or in their first, second or
      fourth letter have different keys; enough to separate every pair in the lists. */
  predicate Separated(a: Default, b: Default) {
    |a.key| != |b.key| || (|a.key| > 0 && |b.key| > 0 && a.key[0] != b.key[0])
      || (|a.key| > 1 && |b.key| > 1 && a.key[1] != b.key[1])
      || (|a.key| > 3 && |b.key| > 3 && a.key[3] != b.key[3])
  }

  lemma SeparatedKeysDiffer(ds: seq<Default>)
    requires forall i, j :: 0 <= i < j < |ds| ==> Separated(ds[i], ds[j])
    ensures KeysDistinct(ds)
  {
    forall i, j | 0 <= i < j < |ds| ensures ds[i].key != ds[j].key {
      assert Separated(ds[i], ds[j]);
    }
  }

  /** Ten place types with distinct keys. */
  lemma PlaceTypesWellFormed()
    ensures |DefaultPlaceTypes| == 10 && KeysDistinct(DefaultPlaceTypes)
  {
    SeparatedKeysDiffer(DefaultPlaceTypes);
  }

  /** Eleven event types with distinct keys, `marriage` among them. */
  lemma EventTypesWellFormed()
    ensures |DefaultEventTypes| == 11 && KeysDistinct(DefaultEventTypes)
    ensures "marriage" in Keys(DefaultEventTypes)
  {
    SeparatedKeysDiffer(DefaultEventTypes);
    assert Keys(DefaultEventTypes)[2] == "marriage";
  }

  /** Fourteen event roles with distinct keys, `subject`, `husband` and
      `wife` among them. */
  lemma EventRolesWellFormed()
    ensures |DefaultEventRoles| == 14 && KeysDistinct(DefaultEventRoles)
    ensures "subject" in Keys(DefaultEventRoles) && "husband" in Keys(DefaultEventRoles) && "wife" in Keys(DefaultEventRoles)
  {
    SeparatedKeysDiffer(DefaultEventRoles);
    assert Keys(DefaultEventRoles)[0] == "subject" && Keys(DefaultEventRoles)[1] == "husband";
    assert Keys(DefaultEventRoles)[2] == "wife";
  }

  /** The three lists together. */
  lemma DefaultsWellFormed()
    ensures |DefaultPlaceTypes| == 10 && |DefaultEventTypes| == 11 && |DefaultEventRoles| == 14
    ensures KeysDistinct(DefaultPlaceTypes) && KeysDistinct(DefaultEventTypes) && KeysDistinct(DefaultEventRoles)
    ensures "subject" in Keys(DefaultEventRoles) && "husband" in Keys(DefaultEventRoles) && "wife" in Keys(DefaultEventRoles)
    ensures "marriage" in Keys(DefaultEventTypes)
  {
    PlaceTypesWellFormed();
    EventTypesWellFormed();
    EventRolesWellFormed();
  }
}
