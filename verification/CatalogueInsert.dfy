/**
 What the two tables of the profession catalogue make of a generated seed: each statement
 inserts its rows one by one, and updates the rows whose id is in the table already.
 */
module CatalogueInsert {
  import opened Wrappers
  import opened SqlLiterals
  import opened ReferenceSeed

  /** What decides whether a row goes in: its id, its name, and whether the other columns that may not
      be NULL are present. */
  datatype Keyed = Keyed(id: Option<string>, name: Option<string>, complete: bool)

  /** Read from the stored columns: `sort` of a category, `group_id` of a profession. */
  function CategoryKey(c: Category): Keyed {
    var row := StoredCategory(c);
    Keyed(row[0].text, row[1].text, row[3].numeral.Some?)
  }

  function ProfessionKey(p: Profession): Keyed {
    var row := StoredProfession(p);
    Keyed(row[0].text, row[1].text, row[3].text.Some?)
  }

  function CategoryKeys(categories: seq<Category>): seq<Keyed> {
    seq(|categories|, k requires 0 <= k < |categories| => CategoryKey(categories[k]))
  }

  function ProfessionKeys(professions: seq<Profession>): seq<Keyed> {
    seq(|professions|, k requires 0 <= k < |professions| => ProfessionKey(professions[k]))
  }

  // ---------------------------------------------------------------- the statements

  predicate Complete(r: Keyed) {
    r.id.Some? && r.name.Some? && r.complete
  }

  /** The names in the table by id, after the rows, or none when the statement is refused: for a NULL,
      for an id met twice, or for a new row whose name must be unique and is taken. The profession
      statement leaves the name of a stored row as it is; the category statement overwrites it. */
  function Insert(table: map<string, string>, touched: set<string>, rows: seq<Keyed>, uniqueNames: bool)
    : Option<map<string, string>>
    decreases |rows|
  {
    if rows == [] then Some(table)
    else
      var r := rows[0];
      if !Complete(r) || r.id.value in touched then None
      else if r.id.value in table then
        var kept := if uniqueNames then table else table[r.id.value := r.name.value];
        Insert(kept, touched + {r.id.value}, rows[1..], uniqueNames)
      else if uniqueNames && r.name.value in table.Values then None
      else Insert(table[r.id.value := r.name.value], touched + {r.id.value}, rows[1..], uniqueNames)
  }

  /** Complete rows with ids of their own. */
  predicate Keys(touched: set<string>, rows: seq<Keyed>) {
    && (forall k :: 0 <= k < |rows| ==> Complete(rows[k]) && rows[k].id.value !in touched)
    && (forall j, k :: 0 <= j < k < |rows| ==> rows[j].id != rows[k].id)
  }

  predicate IsNew(table: map<string, string>, r: Keyed) {
    r.id.Some? && r.id.value !in table
  }

  /** The rows that are not in the table yet have names of their own. */
  predicate NamesFree(table: map<string, string>, rows: seq<Keyed>) {
    && (forall k :: 0 <= k < |rows| && IsNew(table, rows[k]) && rows[k].name.Some? ==>
          rows[k].name.value !in table.Values)
    && (forall j, k :: 0 <= j < k < |rows| && IsNew(table, rows[j]) && IsNew(table, rows[k]) ==>
          rows[j].name != rows[k].name)
  }

  lemma KeysCons(touched: set<string>, rows: seq<Keyed>)
    requires rows != [] && Complete(rows[0]) && rows[0].id.value !in touched
    ensures Keys(touched, rows) <==> Keys(touched + {rows[0].id.value}, rows[1..])
  {
    var rest := rows[1..];
    if Keys(touched + {rows[0].id.value}, rest) {
      forall k | 0 <= k < |rows| ensures Complete(rows[k]) && rows[k].id.value !in touched {
        assert k > 0 ==> rows[k] == rest[k - 1];
      }
      forall j, k | 0 <= j < k < |rows| ensures rows[j].id != rows[k].id {
        assert rows[k] == rest[k - 1] && (j > 0 ==> rows[j] == rest[j - 1]);
      }
    }
  }

  lemma ValuesGrow(table: map<string, string>, id: string, name: string)
    requires id !in table
    ensures table[id := name].Values == table.Values + {name}
  {
    var grown := table[id := name];
    assert grown[id] == name;
    forall v | v in table.Values ensures v in grown.Values {
      var i :| i in table && table[i] == v;
      assert i in grown && grown[i] == v;
    }
  }

  /** A row that is in the table already takes no name. */
  lemma NamesFreeStored(table: map<string, string>, rows: seq<Keyed>)
    requires rows != [] && !IsNew(table, rows[0])
    ensures NamesFree(table, rows) <==> NamesFree(table, rows[1..])
  {
    var rest := rows[1..];
    assert forall k :: 0 < k < |rows| ==> rows[k] == rest[k - 1];
    assert forall k :: 0 <= k < |rest| ==> rest[k] == rows[k + 1];
  }

  lemma NamesFreeNew(table: map<string, string>, rows: seq<Keyed>)
    requires rows != [] && Complete(rows[0]) && IsNew(table, rows[0]) && rows[0].name.value !in table.Values
    requires forall k :: 0 < k < |rows| ==> Complete(rows[k]) && rows[k].id != rows[0].id
    ensures NamesFree(table, rows) <==> NamesFree(table[rows[0].id.value := rows[0].name.value], rows[1..])
  {
    var rest, grown := rows[1..], table[rows[0].id.value := rows[0].name.value];
    ValuesGrow(table, rows[0].id.value, rows[0].name.value);
    assert forall k :: 0 < k < |rows| ==> rows[k] == rest[k - 1] && IsNew(table, rows[k]) == IsNew(grown, rest[k - 1]);
    if NamesFree(table, rows) {
      forall k | 0 <= k < |rest| && IsNew(grown, rest[k]) ensures rest[k].name.value !in grown.Values {
        assert rest[k] == rows[k + 1];
      }
      forall j, k | 0 <= j < k < |rest| && IsNew(grown, rest[j]) && IsNew(grown, rest[k])
        ensures rest[j].name != rest[k].name
      {
        assert rest[j] == rows[j + 1] && rest[k] == rows[k + 1];
      }
    }
    if NamesFree(grown, rest) {
      forall j, k | 0 <= j < k < |rows| && IsNew(table, rows[j]) && IsNew(table, rows[k])
        ensures rows[j].name != rows[k].name
      {
        assert rows[k] == rest[k - 1] && (j > 0 ==> rows[j] == rest[j - 1]);
      }
    }
  }

  /** A statement goes through exactly when its rows are complete, its ids differ, and, where names are
      unique, its new rows bring names of their own. */
  lemma {:induction false} InsertIff(table: map<string, string>, touched: set<string>, rows: seq<Keyed>,
                                     uniqueNames: bool)
    ensures Insert(table, touched, rows, uniqueNames).Some? <==>
            Keys(touched, rows) && (uniqueNames ==> NamesFree(table, rows))
    decreases |rows|
  {
    if rows != [] && Complete(rows[0]) && rows[0].id.value !in touched {
      var id, name := rows[0].id.value, rows[0].name.value;
      KeysCons(touched, rows);
      if id in table {
        InsertIff(if uniqueNames then table else table[id := name], touched + {id}, rows[1..], uniqueNames);
        NamesFreeStored(table, rows);
      } else if !uniqueNames || name !in table.Values {
        InsertIff(table[id := name], touched + {id}, rows[1..], uniqueNames);
        if uniqueNames && Keys(touched, rows) {
          NamesFreeNew(table, rows);
        }
      } else {
        assert IsNew(table, rows[0]);
      }
    }
  }

  // ---------------------------------------------------------------- a built catalogue

  predicate CategoryFilled(c: Category) {
    StoredText(c.i).Some? && StoredText(c.n).Some? && c.s.Some?
  }

  predicate ProfessionFilled(p: Profession) {
    StoredText(p.i).Some? && p.n != "" && StoredText(p.g).Some?
  }

  /** No profession that is not stored yet has the name of a stored one, or of another new one. */
  predicate NewNamesDiffer(professions: seq<Profession>, stored: map<string, string>) {
    && (forall k :: 0 <= k < |professions| && Unstored(professions[k], stored) ==> professions[k].n !in stored.Values)
    && (forall j, k :: 0 <= j < k < |professions| ==>
          (Unstored(professions[j], stored) && Unstored(professions[k], stored) ==>
             professions[j].n != professions[k].n))
  }

  predicate Unstored(p: Profession, stored: map<string, string>) {
    p.i.Some? && p.i.value !in stored
  }

  lemma CategoryKeysIff(categories: seq<Category>)
    requires Distinct(CategoryIds(categories))
    ensures Keys({}, CategoryKeys(categories)) <==> forall k :: 0 <= k < |categories| ==> CategoryFilled(categories[k])
  {
    var rows := CategoryKeys(categories);
    assert forall k :: 0 <= k < |rows| ==> Complete(rows[k]) == CategoryFilled(categories[k]);
    if forall k :: 0 <= k < |categories| ==> CategoryFilled(categories[k]) {
      forall j, k | 0 <= j < k < |rows| ensures rows[j].id != rows[k].id {
        assert CategoryIds(categories)[j] != CategoryIds(categories)[k];
      }
    }
  }

  lemma ProfessionKeysIff(professions: seq<Profession>)
    requires Distinct(ProfessionIds(professions))
    ensures Keys({}, ProfessionKeys(professions)) <==>
            forall k :: 0 <= k < |professions| ==> ProfessionFilled(professions[k])
  {
    var rows := ProfessionKeys(professions);
    assert forall k :: 0 <= k < |rows| ==> Complete(rows[k]) == ProfessionFilled(professions[k]);
    if forall k :: 0 <= k < |professions| ==> ProfessionFilled(professions[k]) {
      forall j, k | 0 <= j < k < |rows| ensures rows[j].id != rows[k].id {
        assert ProfessionIds(professions)[j] != ProfessionIds(professions)[k];
      }
    }
  }

  lemma NamesFreeIff(professions: seq<Profession>, stored: map<string, string>)
    requires forall k :: 0 <= k < |professions| ==> ProfessionFilled(professions[k])
    ensures NamesFree(stored, ProfessionKeys(professions)) <==> NewNamesDiffer(professions, stored)
  {
    var rows := ProfessionKeys(professions);
    forall k | 0 <= k < |rows|
      ensures rows[k].name == Some(professions[k].n) && IsNew(stored, rows[k]) == Unstored(professions[k], stored)
    {
      assert ProfessionFilled(professions[k]);
    }
  }

  /** A catalogue that passed the checks goes into tables with whatever is stored there exactly when
      every category has an id, a name and a sort number, every profession an id, a name and a category,
      and no profession that is new to the table brings a name already taken there or by another new
      one. */
  lemma BuiltIsInsertableIff(lower: string -> string, categories: seq<Category>, professions: seq<Profession>,
                             storedCategories: map<string, string>, stored: map<string, string>)
    requires CatalogueOk(lower, categories, professions)
    ensures Insert(storedCategories, {}, CategoryKeys(categories), false).Some? <==>
            forall k :: 0 <= k < |categories| ==> CategoryFilled(categories[k])
    ensures Insert(stored, {}, ProfessionKeys(professions), true).Some? <==>
            && (forall k :: 0 <= k < |professions| ==> ProfessionFilled(professions[k]))
            && NewNamesDiffer(professions, stored)
  {
    InsertIff(storedCategories, {}, CategoryKeys(categories), false);
    CategoryKeysIff(categories);
    InsertIff(stored, {}, ProfessionKeys(professions), true);
    ProfessionKeysIff(professions);
    if forall k :: 0 <= k < |professions| ==> ProfessionFilled(professions[k]) {
      NamesFreeIff(professions, stored);
    }
  }

  /** Into an empty table names need no further care, since lowercasing leaves no name empty: the
      generator's own check then sees every repeated one. */
  lemma FreshNamesDiffer(lower: string -> string, categories: seq<Category>, professions: seq<Profession>)
    requires CatalogueOk(lower, categories, professions)
    requires forall k :: 0 <= k < |professions| ==> ProfessionFilled(professions[k]) && lower(professions[k].n) != ""
    ensures NewNamesDiffer(professions, map[])
  {
    var names := Names(lower, professions);
    assert Distinct(names);
    forall j, k | 0 <= j < k < |professions| ensures professions[j].n != professions[k].n {
      assert names[j] != names[k];
    }
  }
}
