/**
 The generators of the reference-data migrations: their checks on the asset, the VALUES lists they
 print, and what the tables hold once those are inserted.
 */
module ReferenceSeed {
  import opened Wrappers
  import opened SqlLiterals

  /** Entries of the JSON assets; numbers are kept as the numerals they print as. */
  datatype Place = Place(
    i: Option<string>, n: Option<string>, t: Option<string>, p: Option<string>, c: Option<string>, hq: bool,
    lat: Option<string>, lng: Option<string>, r: Option<string>, a: seq<Option<string>>, cc: Option<string>)

  datatype Category = Category(
    i: Option<string>, n: Option<string>, icon: Option<string>, s: Option<string>, t: seq<Option<string>>)

  datatype Profession = Profession(
    i: Option<string>, n: string, icon: Option<string>, g: Option<string>, c: Option<string>,
    a: seq<Option<string>>, t: seq<Option<string>>, w: Option<string>, cc: Option<string>)

  function OrElse(v: Option<string>, fallback: string): Option<string> {
    if v.None? then Some(fallback) else v
  }

  /** The entry's country, or the asset's where it has none. */
  function CountryOf(p: Place, country: Option<string>): Option<string> {
    if StoredText(p.cc).None? then country else p.cc
  }

  function PlaceCells(p: Place, country: Option<string>): Row {
    [Text(p.i), Text(p.n), Text(p.t), Text(p.p), Text(p.c), Flag(p.hq),
     Number(p.lat), Number(p.lng), Number(OrElse(p.r, "300")), List(p.a), Text(CountryOf(p, country))]
  }

  function CategoryCells(c: Category): Row {
    [Text(c.i), Text(c.n), Text(c.icon), Number(c.s), List(c.t)]
  }

  function ProfessionCells(p: Profession): Row {
    [Text(p.i), Text(Some(p.n)), Text(p.icon), Text(p.g), Text(p.c),
     List(p.a), List(p.t), Number(OrElse(p.w, "500")), Text(p.cc)]
  }

  function PlaceRows(places: seq<Place>, country: Option<string>): seq<Row> {
    seq(|places|, k requires 0 <= k < |places| => PlaceCells(places[k], country))
  }

  function CategoryRows(categories: seq<Category>): seq<Row> {
    seq(|categories|, k requires 0 <= k < |categories| => CategoryCells(categories[k]))
  }

  function ProfessionRows(professions: seq<Profession>): seq<Row> {
    seq(|professions|, k requires 0 <= k < |professions| => ProfessionCells(professions[k]))
  }

  // ---------------------------------------------------------------- the tables

  /** A row of `locations`, its columns in the order the INSERT names them. */
  datatype Location = Location(
    id: Option<string>, name: Option<string>, kind: Option<string>, parentId: Option<string>, county: Option<string>,
    isCountyHq: bool, latitude: Option<string>, longitude: Option<string>, rank: Option<string>,
    aliases: seq<Option<string>>, countryCode: Option<string>)

  const LOCATION_KINDS := [
    TextKind, TextKind, TextKind, TextKind, TextKind, FlagKind, NumberKind, NumberKind, NumberKind, ListKind, TextKind]
  const CATEGORY_KINDS := [TextKind, TextKind, TextKind, NumberKind, ListKind]
  const PROFESSION_KINDS := [
    TextKind, TextKind, TextKind, TextKind, TextKind, ListKind, ListKind, NumberKind, TextKind]

  function LocationOf(row: Row): Option<Location> {
    if && |row| == 11 && row[0].Text? && row[1].Text? && row[2].Text? && row[3].Text? && row[4].Text? && row[5].Flag?
       && row[6].Number? && row[7].Number? && row[8].Number? && row[9].List? && row[10].Text? then
      Some(Location(row[0].text, row[1].text, row[2].text, row[3].text, row[4].text, row[5].flag,
                    row[6].numeral, row[7].numeral, row[8].numeral, row[9].items, row[10].text))
    else None
  }

  function StoredTexts(items: seq<Option<string>>): seq<Option<string>> {
    seq(|items|, k requires 0 <= k < |items| => StoredText(items[k]))
  }

  /** The location an entry of the asset stands for. */
  function LocationFor(p: Place, country: Option<string>): Location {
    Location(
      id := StoredText(p.i), name := StoredText(p.n), kind := StoredText(p.t), parentId := StoredText(p.p),
      county := StoredText(p.c), isCountyHq := p.hq, latitude := p.lat, longitude := p.lng,
      rank := OrElse(p.r, "300"), aliases := StoredTexts(p.a), countryCode := StoredText(CountryOf(p, country)))
  }

  /** What is stored where the entry leaves something out: the rank 300, the asset's country where
      the entry's is missing or empty, and NULL for an empty text. */
  lemma LocationDefaults(p: Place, country: Option<string>)
    ensures var row := LocationFor(p, country);
            && row.rank == (if p.r.None? then Some("300") else p.r)
            && (p.cc.Some? && p.cc.value != "" ==> row.countryCode == p.cc)
            && (p.cc.None? || p.cc.value == "" ==>
                  row.countryCode == if country.Some? && country.value != "" then country else None)
            && (row.parentId.Some? <==> p.p.Some? && p.p.value != "")
  {
  }

  /** A profession without a weight is stored with the weight 500, whatever else it has. */
  lemma WeightDefault(p: Profession)
    ensures var row := StoredRow(ProfessionCells(p));
            |row| == 9 && row[7] == Number(if p.w.None? then Some("500") else p.w)
  {
  }

  /** Where a number stands, its numeral is one. */
  predicate Numerals(row: Row) {
    forall k :: 0 <= k < |row| && row[k].Number? && row[k].numeral.Some? ==> IsNumeral(row[k].numeral.value)
  }

  predicate AllNumerals(rows: seq<Row>) {
    forall k :: 0 <= k < |rows| ==> Numerals(rows[k])
  }

  lemma PlaceStored(p: Place, country: Option<string>)
    ensures LocationOf(StoredRow(PlaceCells(p, country))) == Some(LocationFor(p, country))
  {
  }

  /** Inserting the printed places stores, in order, exactly the locations they stand for. */
  lemma PlacesRoundTrip(places: seq<Place>, country: Option<string>)
    requires AllNumerals(PlaceRows(places, country))
    ensures var table := ReadTable(LOCATION_KINDS, PrintRows(PlaceRows(places, country)));
            if places == [] then table.None?
            else
              && table.Some? && |table.value| == |places|
              && forall k :: 0 <= k < |places| ==> LocationOf(table.value[k]) == Some(LocationFor(places[k], country))
  {
    var rows := PlaceRows(places, country);
    TableRoundTrip(LOCATION_KINDS, rows) by {
      forall k | 0 <= k < |rows| ensures Fits(LOCATION_KINDS, rows[k]) {
        assert Numerals(rows[k]);
      }
    }
    forall k | 0 <= k < |places| ensures LocationOf(StoredRow(rows[k])) == Some(LocationFor(places[k], country)) {
      PlaceStored(places[k], country);
    }
  }

  function StoredCategory(c: Category): Row {
    [Text(StoredText(c.i)), Text(StoredText(c.n)), Text(StoredText(c.icon)), Number(c.s), List(StoredTexts(c.t))]
  }

  function StoredProfession(p: Profession): Row {
    [Text(StoredText(p.i)), Text(StoredText(Some(p.n))), Text(StoredText(p.icon)),
     Text(StoredText(p.g)), Text(StoredText(p.c)),
     List(StoredTexts(p.a)), List(StoredTexts(p.t)), Number(OrElse(p.w, "500")), Text(StoredText(p.cc))]
  }

  function StoredCategories(categories: seq<Category>): seq<Row> {
    seq(|categories|, k requires 0 <= k < |categories| => StoredCategory(categories[k]))
  }

  function StoredProfessions(professions: seq<Profession>): seq<Row> {
    seq(|professions|, k requires 0 <= k < |professions| => StoredProfession(professions[k]))
  }

  lemma CategoryStored(c: Category)
    ensures StoredRow(CategoryCells(c)) == StoredCategory(c)
  {
  }

  lemma ProfessionStored(p: Profession)
    ensures StoredRow(ProfessionCells(p)) == StoredProfession(p)
  {
  }

  lemma CategoriesRoundTrip(categories: seq<Category>)
    requires AllNumerals(CategoryRows(categories))
    ensures ReadTable(CATEGORY_KINDS, PrintRows(CategoryRows(categories))) ==
            if categories == [] then None else Some(StoredCategories(categories))
  {
    var rows := CategoryRows(categories);
    TableRoundTrip(CATEGORY_KINDS, rows) by {
      forall k | 0 <= k < |rows| ensures Fits(CATEGORY_KINDS, rows[k]) {
        assert Numerals(rows[k]);
      }
    }
    forall k | 0 <= k < |rows| ensures StoredRow(rows[k]) == StoredCategory(categories[k]) {
      CategoryStored(categories[k]);
    }
    assert StoredRows(rows) == StoredCategories(categories);
  }

  lemma ProfessionsRoundTrip(professions: seq<Profession>)
    requires AllNumerals(ProfessionRows(professions))
    ensures ReadTable(PROFESSION_KINDS, PrintRows(ProfessionRows(professions))) ==
            if professions == [] then None else Some(StoredProfessions(professions))
  {
    var rows := ProfessionRows(professions);
    TableRoundTrip(PROFESSION_KINDS, rows) by {
      forall k | 0 <= k < |rows| ensures Fits(PROFESSION_KINDS, rows[k]) {
        assert Numerals(rows[k]);
      }
    }
    forall k | 0 <= k < |rows| ensures StoredRow(rows[k]) == StoredProfession(professions[k]) {
      ProfessionStored(professions[k]);
    }
    assert StoredRows(rows) == StoredProfessions(professions);
  }

  // ---------------------------------------------------------------- the checks

  predicate Distinct<T(==)>(keys: seq<T>) {
    forall i, j :: 0 <= i < j < |keys| ==> keys[i] != keys[j]
  }

  /** `j` is the first place whose key occurred before. */
  predicate FirstRepeat<T(==)>(keys: seq<T>, j: nat) {
    j < |keys| && Distinct(keys[..j]) && keys[j] in keys[..j]
  }

  method AssertUnique<T(==)>(keys: seq<T>) returns (repeated: Option<nat>)
    ensures repeated.None? <==> Distinct(keys)
    ensures repeated.Some? ==> FirstRepeat(keys, repeated.value)
  {
    var seen: set<T> := {};
    for j := 0 to |keys|
      invariant Distinct(keys[..j])
      invariant forall x :: x in seen <==> x in keys[..j]
    {
      if keys[j] in seen {
        var i :| 0 <= i < j && keys[..j][i] == keys[j];
        assert keys[i] == keys[j];
        return Some(j);
      }
      seen := seen + {keys[j]};
      assert keys[..j + 1] == keys[..j] + [keys[j]];
    }
    assert keys[..|keys|] == keys;
    repeated := None;
  }

  datatype SeedError =
    | Duplicate(index: nat)
    | UnknownParent(index: nat)
    | UnknownCategory(index: nat)
    | DuplicateName(name: string)
    | DropsLegacy(ids: seq<string>)

  datatype Built = Built(values: string) | Refused(error: SeedError)

  function Ids(places: seq<Place>): seq<Option<string>> {
    seq(|places|, k requires 0 <= k < |places| => places[k].i)
  }

  predicate ParentKnown(p: Place, ids: seq<Option<string>>) {
    p.t == Some("area") ==> p.p in ids
  }

  /** The locations seed: ids must differ and every area's parent must be among them. */
  method BuildLocations(places: seq<Place>, country: Option<string>) returns (r: Built)
    ensures r.Built? <==>
              && Distinct(Ids(places))
              && forall k :: 0 <= k < |places| && places[k].t == Some("area") ==> places[k].p in Ids(places)
    ensures r.Built? ==> r.values == PrintRows(PlaceRows(places, country))
    ensures r.Refused? ==>
              || (r.error.Duplicate? && FirstRepeat(Ids(places), r.error.index))
              || (&& Distinct(Ids(places)) && r.error.UnknownParent? && r.error.index < |places|
                  && places[r.error.index].t == Some("area") && places[r.error.index].p !in Ids(places))
  {
    var repeated := AssertUnique(Ids(places));
    if repeated.Some? {
      return Refused(Duplicate(repeated.value));
    }
    for k := 0 to |places|
      invariant forall m :: 0 <= m < k ==> ParentKnown(places[m], Ids(places))
    {
      if places[k].t == Some("area") && places[k].p !in Ids(places) {
        return Refused(UnknownParent(k));
      }
    }
    r := Built(PrintRows(PlaceRows(places, country)));
  }

  /** The columns that may not be NULL are not, and the kind is a known one. */
  predicate Present(row: Location) {
    && row.id.Some? && row.name.Some? && row.county.Some? && row.countryCode.Some? && row.rank.Some?
    && row.kind in [Some("city"), Some("town"), Some("area")]
  }

  function StoredIds(rows: seq<Location>): seq<Option<string>> {
    seq(|rows|, k requires 0 <= k < |rows| => rows[k].id)
  }

  /** Every parent is inserted as well, or is in the table already. */
  ghost predicate ParentsExist(rows: seq<Location>, stored: set<string>) {
    forall k :: 0 <= k < |rows| && rows[k].parentId.Some? ==>
      HasId(rows, rows[k].parentId) || rows[k].parentId.value in stored
  }

  /** What the statement and the table definition ask of the rows, with the ids that are in the table
      already: a row of such an id is updated instead of inserted. */
  ghost predicate Insertable(rows: seq<Location>, stored: set<string>) {
    && rows != [] && (forall k :: 0 <= k < |rows| ==> Present(rows[k]))
    && Distinct(StoredIds(rows)) && ParentsExist(rows, stored)
  }

  ghost predicate HasId(rows: seq<Location>, id: Option<string>) {
    exists m :: 0 <= m < |rows| && rows[m].id == id
  }

  function LocationsFor(places: seq<Place>, country: Option<string>): seq<Location> {
    seq(|places|, k requires 0 <= k < |places| => LocationFor(places[k], country))
  }

  /** The columns that may not be NULL and that the generator does not look at. */
  predicate Filled(p: Place, country: Option<string>) {
    && StoredText(p.i).Some? && StoredText(p.n).Some? && StoredText(p.c).Some?
    && p.t in [Some("city"), Some("town"), Some("area")] && StoredText(CountryOf(p, country)).Some?
  }

  /** A stored parent exists among the stored rows exactly when the asset has it as an id. */
  lemma ParentStored(places: seq<Place>, country: Option<string>, k: nat)
    requires k < |places| && StoredText(places[k].p).Some?
    ensures HasId(LocationsFor(places, country), places[k].p) <==> places[k].p in Ids(places)
  {
    var rows := LocationsFor(places, country);
    if HasId(rows, places[k].p) {
      var m :| 0 <= m < |rows| && rows[m].id == places[k].p;
      assert Ids(places)[m] == places[k].p;
    }
    if places[k].p in Ids(places) {
      var m :| 0 <= m < |places| && Ids(places)[m] == places[k].p;
      assert rows[m].id == places[k].p;
    }
  }

  /** The parent is in the asset, or in the table already. */
  predicate ParentStands(p: Place, ids: seq<Option<string>>, stored: set<string>) {
    StoredText(p.p).Some? ==> p.p in ids || p.p.value in stored
  }

  lemma ParentsStored(places: seq<Place>, country: Option<string>, stored: set<string>)
    ensures ParentsExist(LocationsFor(places, country), stored) <==>
            forall k :: 0 <= k < |places| ==> ParentStands(places[k], Ids(places), stored)
  {
    var rows := LocationsFor(places, country);
    forall k | 0 <= k < |places| && StoredText(places[k].p).Some?
      ensures rows[k].parentId == places[k].p && (HasId(rows, rows[k].parentId) <==> places[k].p in Ids(places))
    {
      ParentStored(places, country, k);
    }
    assert forall k :: 0 <= k < |places| ==> rows[k].parentId == StoredText(places[k].p);
  }

  lemma KeysDiffer(places: seq<Place>, country: Option<string>)
    requires Distinct(Ids(places)) && forall k :: 0 <= k < |places| ==> Filled(places[k], country)
    ensures Distinct(StoredIds(LocationsFor(places, country)))
  {
    var ids := StoredIds(LocationsFor(places, country));
    forall j, k | 0 <= j < k < |ids| ensures ids[j] != ids[k] {
      assert Ids(places)[j] != Ids(places)[k];
    }
  }

  /** A seed that passed the checks goes into the table, whatever is stored there from earlier runs,
      exactly when it has an entry, every entry has an id, a name, a kind, a county and a country, and
      the parents of entries that are not areas, which nothing checked, are in the asset or stored. An
      empty county is one such entry: it is printed as NULL. */
  lemma BuiltIsInsertableIff(places: seq<Place>, country: Option<string>, stored: set<string>)
    requires Distinct(Ids(places)) && forall k :: 0 <= k < |places| ==> ParentKnown(places[k], Ids(places))
    ensures Insertable(LocationsFor(places, country), stored) <==>
            && places != [] && (forall k :: 0 <= k < |places| ==> Filled(places[k], country))
            && (forall k :: 0 <= k < |places| && places[k].t != Some("area") ==>
                  ParentStands(places[k], Ids(places), stored))
  {
    var rows := LocationsFor(places, country);
    forall k | 0 <= k < |places| ensures Present(rows[k]) <==> Filled(places[k], country) {
    }
    ParentsStored(places, country, stored);
    if forall k :: 0 <= k < |places| ==> Filled(places[k], country) {
      KeysDiffer(places, country);
    }
  }

  // ---------------------------------------------------------------- the professions seed

  const LEGACY: seq<string> := [
    "electrician", "plumber", "mechanic", "cleaner", "tutor", "driver", "welder", "builder", "painter", "carpenter",
    "it-technician", "photographer", "salon-beauty", "tailor", "cook", "moving-services", "other"]

  function CategoryIds(categories: seq<Category>): seq<Option<string>> {
    seq(|categories|, k requires 0 <= k < |categories| => categories[k].i)
  }

  function ProfessionIds(professions: seq<Profession>): seq<Option<string>> {
    seq(|professions|, k requires 0 <= k < |professions| => professions[k].i)
  }

  function Names(lower: string -> string, professions: seq<Profession>): seq<string> {
    seq(|professions|, k requires 0 <= k < |professions| => lower(professions[k].n))
  }

  /** The legacy ids the catalogue no longer has. */
  function Missing(legacy: seq<string>, ids: seq<Option<string>>): seq<string> {
    if legacy == [] then []
    else (if Some(legacy[0]) in ids then [] else [legacy[0]]) + Missing(legacy[1..], ids)
  }

  lemma {:induction false} MissingIff(legacy: seq<string>, ids: seq<Option<string>>, id: string)
    ensures id in Missing(legacy, ids) <==> id in legacy && Some(id) !in ids
  {
    if legacy != [] {
      MissingIff(legacy[1..], ids, id);
      assert legacy == [legacy[0]] + legacy[1..];
    }
  }

  /** Names pass when they all differ, and also when the first repeated one is empty: an empty name
      found twice does not count as found. */
  predicate NamesPass(names: seq<string>) {
    Distinct(names) || exists j :: 0 <= j < |names| && FirstRepeat(names, j) && names[j] == ""
  }

  lemma RepeatIsNotDistinct<T>(keys: seq<T>, j: nat, upTo: nat)
    requires FirstRepeat(keys, j) && j < upTo <= |keys|
    ensures !Distinct(keys[..upTo])
  {
  }

  lemma FirstRepeatIsUnique<T>(keys: seq<T>, j: nat, k: nat)
    requires FirstRepeat(keys, j) && FirstRepeat(keys, k)
    ensures j == k
  {
  }

  ghost predicate CatalogueOk(lower: string -> string, categories: seq<Category>, professions: seq<Profession>) {
    && Distinct(CategoryIds(categories)) && Distinct(ProfessionIds(professions))
    && NamesPass(Names(lower, professions))
    && (forall k :: 0 <= k < |professions| ==> professions[k].g in CategoryIds(categories))
    && (forall id :: id in LEGACY ==> Some(id) in ProfessionIds(professions))
  }

  /** The name reported as repeated, if any: the first repeated one, unless it is empty. */
  method RepeatedName(names: seq<string>) returns (name: Option<string>)
    ensures name.None? <==> Distinct(names) || exists j :: 0 <= j < |names| && FirstRepeat(names, j) && names[j] == ""
    ensures name.Some? ==>
              name.value != "" && exists j :: 0 <= j < |names| && FirstRepeat(names, j) && names[j] == name.value
  {
    var repeated := AssertUnique(names);
    if repeated.None? {
      return None;
    }
    RepeatIsNotDistinct(names, repeated.value, |names|);
    assert names[..|names|] == names;
    if names[repeated.value] == "" {
      return None;
    }
    forall j | 0 <= j < |names| && FirstRepeat(names, j) ensures names[j] != "" {
      FirstRepeatIsUnique(names, j, repeated.value);
    }
    name := Some(names[repeated.value]);
  }

  method DroppedLegacy(ids: seq<Option<string>>) returns (dropped: seq<string>)
    ensures forall id :: id in dropped <==> id in LEGACY && Some(id) !in ids
    ensures dropped == [] <==> forall id :: id in LEGACY ==> Some(id) in ids
  {
    dropped := Missing(LEGACY, ids);
    forall id ensures id in dropped <==> id in LEGACY && Some(id) !in ids {
      MissingIff(LEGACY, ids, id);
    }
    assert dropped != [] ==> dropped[0] in dropped;
  }

  /** The error is one the catalogue has. */
  ghost predicate Justified(error: SeedError, categories: seq<Category>, professions: seq<Profession>,
                            names: seq<string>) {
    match error
    case Duplicate(k) => FirstRepeat(CategoryIds(categories), k) || FirstRepeat(ProfessionIds(professions), k)
    case DuplicateName(name) => name != "" && exists j :: 0 <= j < |names| && FirstRepeat(names, j) && names[j] == name
    case UnknownCategory(k) => k < |professions| && professions[k].g !in CategoryIds(categories)
    case DropsLegacy(ids) =>
      ids != [] && forall id :: id in ids <==> id in LEGACY && Some(id) !in ProfessionIds(professions)
    case UnknownParent(_) => false
  }

  method BuildProfessions(lower: string -> string, categories: seq<Category>, professions: seq<Profession>)
    returns (categoryValues: string, r: Built)
    ensures r.Built? <==> CatalogueOk(lower, categories, professions)
    ensures r.Refused? ==> Justified(r.error, categories, professions, Names(lower, professions))
    ensures r.Built? ==> r.values == PrintRows(ProfessionRows(professions))
    ensures r.Built? ==> categoryValues == PrintRows(CategoryRows(categories))
  {
    categoryValues := "";
    var repeated := AssertUnique(CategoryIds(categories));
    if repeated.Some? {
      return "", Refused(Duplicate(repeated.value));
    }
    repeated := AssertUnique(ProfessionIds(professions));
    if repeated.Some? {
      return "", Refused(Duplicate(repeated.value));
    }
    var name := RepeatedName(Names(lower, professions));
    if name.Some? {
      return "", Refused(DuplicateName(name.value));
    }
    for k := 0 to |professions|
      invariant forall m :: 0 <= m < k ==> professions[m].g in CategoryIds(categories)
    {
      if professions[k].g !in CategoryIds(categories) {
        return "", Refused(UnknownCategory(k));
      }
    }
    var missing := DroppedLegacy(ProfessionIds(professions));
    if missing != [] {
      return "", Refused(DropsLegacy(missing));
    }
    categoryValues, r := PrintRows(CategoryRows(categories)), Built(PrintRows(ProfessionRows(professions)));
  }
}
