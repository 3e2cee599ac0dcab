/**
 JSON values as the settings tables hold them, and the merge of a stored document
 over compiled defaults with a guard on every field's type.
 */
module JsonDoc {
  import opened Wrappers

  datatype Number = Finite(value: real) | NotFinite

  datatype Json =
    | JNull
    | JBool(b: bool)
    | JNum(n: Number)
    | JStr(s: string)
    | JArr(items: seq<Json>)
    | JObj(fields: map<string, Json>)

  type Document = map<string, Json>

  datatype TypeName = Boolean | Numeric | Text | Object

  /** JavaScript's `typeof`: arrays and null are objects. */
  function TypeOf(v: Json): TypeName {
    match v
    case JBool(_) => Boolean
    case JNum(_) => Numeric
    case JStr(_) => Text
    case _ => Object
  }

  /** The stored value may replace the default. */
  predicate Accepts(default: Json, v: Json) {
    && default.JArr? == v.JArr?
    && (default.JArr? || TypeOf(default) == TypeOf(v))
    && v != JNum(NotFinite)
  }

  /** The stored document merged over the defaults, field by field. */
  function Merged(defaults: Document, stored: Document): Document {
    map f | f in defaults :: if f in stored && Accepts(defaults[f], stored[f]) then stored[f] else defaults[f]
  }

  /** The merge as a loop over the stored entries. */
  method Merge(defaults: Document, stored: Option<Document>) returns (out: Document)
    ensures out == Merged(defaults, if stored.Some? then stored.value else map[])
  {
    out := defaults;
    if stored.None? {
      return;
    }
    var todo := stored.value.Keys;
    while todo != {}
      invariant todo <= stored.value.Keys
      invariant out.Keys == defaults.Keys
      invariant forall f :: f in defaults ==>
        var done := f in stored.value && f !in todo && Accepts(defaults[f], stored.value[f]);
        out[f] == if done then stored.value[f] else defaults[f]
    {
      var f :| f in todo;
      todo := todo - {f};
      var value := stored.value[f];
      if f in out {
        var expected := out[f];
        var sameType := expected.JArr? == value.JArr? && (expected.JArr? || TypeOf(expected) == TypeOf(value));
        if sameType && value != JNum(NotFinite) {
          out := out[f := value];
        }
      }
    }
  }

  /** Number maps take every finite entry, also one the defaults do not have. */
  function MergedNumbers(defaults: Document, stored: Document): Document {
    defaults + FiniteOnly(stored)
  }

  function FiniteOnly(stored: Document): Document {
    map f | f in stored && stored[f].JNum? && stored[f].n.Finite? :: stored[f]
  }

  lemma OneMoreField(stored: Document, todo: set<string>, f: string)
    requires f in todo && todo <= stored.Keys
    ensures FiniteOnly(stored - (todo - {f})) ==
            if stored[f].JNum? && stored[f].n.Finite? then FiniteOnly(stored - todo)[f := stored[f]]
            else FiniteOnly(stored - todo)
  {
  }

  method MergeNumberMap(defaults: Document, stored: Json) returns (out: Document)
    ensures out == MergedNumbers(defaults, if stored.JObj? then stored.fields else map[])
  {
    out := defaults;
    if !stored.JObj? {
      return;
    }
    var todo := stored.fields.Keys;
    while todo != {}
      invariant todo <= stored.fields.Keys
      invariant out == defaults + FiniteOnly(stored.fields - todo)
    {
      var f :| f in todo;
      OneMoreField(stored.fields, todo, f);
      todo := todo - {f};
      var value := stored.fields[f];
      if value.JNum? && value.n.Finite? {
        out := out[f := value];
      }
    }
  }

  /** A stored value replaces a default of its own kind only, and a number only if it is finite. */
  lemma AcceptsIff(default: Json, v: Json)
    ensures Accepts(default, v) <==>
              || (default.JBool? && v.JBool?)
              || (default.JNum? && v.JNum? && v.n.Finite?)
              || (default.JStr? && v.JStr?)
              || (default.JArr? && v.JArr?)
              || ((default.JNull? || default.JObj?) && (v.JNull? || v.JObj?))
  {
  }

  /** Merging the merged document again changes nothing. */
  lemma MergedTwice(defaults: Document, stored: Document)
    ensures Merged(defaults, Merged(defaults, stored)) == Merged(defaults, stored)
  {
  }

  /** What a field reads after a patch is merged into the stored document: a well-typed patch
      value; the default if the patch value is ill-typed, even where a good value was stored
      before; and what it read before if the patch does not name it. */
  lemma ReadAfterPatch(defaults: Document, stored: Document, patch: Document, f: string)
    requires f in defaults
    ensures Merged(defaults, stored + patch)[f] ==
            if f !in patch then Merged(defaults, stored)[f]
            else if Accepts(defaults[f], patch[f]) then patch[f]
            else defaults[f]
  {
  }
}
