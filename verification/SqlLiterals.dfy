/**
 The generated VALUES lists: how a row of reference data is printed as SQL, and what
 a reader of string constants (section 5.3 of ISO/IEC 9075-2, doubled quotes) gets back.
 */
module SqlLiterals {
  import opened Wrappers

  /** One printed cell; the numeral of a number is the text JavaScript gives it. */
  datatype Cell =
    | Text(text: Option<string>)
    | Number(numeral: Option<string>)
    | Flag(flag: bool)
    | List(items: seq<Option<string>>)

  type Row = seq<Cell>

  // ---------------------------------------------------------------- printing

  const QUOTE := '\''

  function Doubled(s: string): string {
    if s == "" then "" else (if s[0] == QUOTE then [QUOTE, QUOTE] else [s[0]]) + Doubled(s[1..])
  }

  function Q(v: Option<string>): string {
    if v.None? || v.value == "" then "NULL" else [QUOTE] + Doubled(v.value) + [QUOTE]
  }

  function Items(items: seq<Option<string>>): string {
    if items == [] then "" else Q(items[0]) + (if |items| == 1 then "" else ", " + Items(items[1..]))
  }

  function Print(c: Cell): string {
    match c
    case Text(v) => Q(v)
    case Number(v) => if v.None? then "NULL" else v.value
    case Flag(b) => if b then "TRUE" else "FALSE"
    case List(items) => if items == [] then "'{}'" else "ARRAY[" + Items(items) + "]::TEXT[]"
  }

  function PrintCells(row: Row): string {
    if row == [] then "" else Print(row[0]) + (if |row| == 1 then "" else ", " + PrintCells(row[1..]))
  }

  function PrintRows(rows: seq<Row>): string {
    if rows == [] then "" else
      "  (" + PrintCells(rows[0]) + ")" + (if |rows| == 1 then "" else ",\n" + PrintRows(rows[1..]))
  }

  // ---------------------------------------------------------------- reading

  datatype Literal = Quoted(s: string) | Word(w: string) | Array(elements: seq<Literal>)

  datatype Parsed<T> = Parsed(value: T, rest: string)

  /** The rest of a string constant after its opening quote. */
  function ReadQuoted(s: string): (r: Option<Parsed<string>>)
    ensures r.Some? ==> |r.value.rest| < |s|
  {
    if s == "" then None
    else if s[0] != QUOTE then
      var r := ReadQuoted(s[1..]);
      if r.None? then None else Some(Parsed([s[0]] + r.value.value, r.value.rest))
    else if |s| > 1 && s[1] == QUOTE then
      var r := ReadQuoted(s[2..]);
      if r.None? then None else Some(Parsed([QUOTE] + r.value.value, r.value.rest))
    else Some(Parsed("", s[1..]))
  }

  predicate IsWordChar(c: char) {
    'A' <= c <= 'Z' || 'a' <= c <= 'z' || '0' <= c <= '9' || c == '_' || c == '.' || c == '+' || c == '-'
  }

  function WordLength(s: string): (n: nat)
    ensures n <= |s|
  {
    if s == "" || !IsWordChar(s[0]) then 0 else 1 + WordLength(s[1..])
  }

  /** A string constant or a bare word: a keyword or a numeral. */
  function ReadScalar(s: string): (r: Option<Parsed<Literal>>)
    ensures r.Some? ==> |r.value.rest| < |s|
  {
    if s == "" then None
    else if s[0] == QUOTE then
      var r := ReadQuoted(s[1..]);
      if r.None? then None else Some(Parsed(Quoted(r.value.value), r.value.rest))
    else
      var n := WordLength(s);
      if n == 0 then None else Some(Parsed(Word(s[..n]), s[n..]))
  }

  predicate IsBlank(c: char) { c == ' ' || c == '\n' }

  function SkipBlank(s: string): (r: string)
    ensures |r| <= |s|
  {
    if s != "" && IsBlank(s[0]) then SkipBlank(s[1..]) else s
  }

  /** The elements of an array constructor, up to and including its closing bracket. */
  function ReadElements(s: string): (r: Option<Parsed<seq<Literal>>>)
    ensures r.Some? ==> |r.value.rest| < |s|
    decreases |s|
  {
    var first := ReadScalar(SkipBlank(s));
    if first.None? then None
    else
      var rest := SkipBlank(first.value.rest);
      if rest == "" then None
      else if rest[0] == ']' then Some(Parsed([first.value.value], rest[1..]))
      else if rest[0] != ',' then None
      else
        var more := ReadElements(rest[1..]);
        if more.None? then None else Some(Parsed([first.value.value] + more.value.value, more.value.rest))
  }

  const TEXT_ARRAY := "::TEXT[]"

  function ReadLiteral(s: string): (r: Option<Parsed<Literal>>)
    ensures r.Some? ==> |r.value.rest| < |s|
  {
    var scalar := ReadScalar(s);
    if scalar.None? || scalar.value.value != Word("ARRAY") then scalar
    else
      var rest := scalar.value.rest;
      if rest == "" || rest[0] != '[' then None
      else
        var elements := ReadElements(rest[1..]);
        if elements.None? || !(TEXT_ARRAY <= elements.value.rest) then None
        else Some(Parsed(Array(elements.value.value), elements.value.rest[|TEXT_ARRAY|..]))
  }

  /** The cells of a row, up to and including its closing parenthesis. */
  function ReadCells(s: string): (r: Option<Parsed<seq<Literal>>>)
    ensures r.Some? ==> |r.value.rest| < |s|
    decreases |s|
  {
    var first := ReadLiteral(SkipBlank(s));
    if first.None? then None
    else
      var rest := SkipBlank(first.value.rest);
      if rest == "" then None
      else if rest[0] == ')' then Some(Parsed([first.value.value], rest[1..]))
      else if rest[0] != ',' then None
      else
        var more := ReadCells(rest[1..]);
        if more.None? then None else Some(Parsed([first.value.value] + more.value.value, more.value.rest))
  }

  /** A whole VALUES list: one row or more, and nothing after the last. */
  function ReadRows(s: string): Option<seq<seq<Literal>>>
    decreases |s|
  {
    var start := SkipBlank(s);
    if start == "" || start[0] != '(' then None
    else
      var first := ReadCells(start[1..]);
      if first.None? then None
      else
        var rest := SkipBlank(first.value.rest);
        if rest == "" then Some([first.value.value])
        else if rest[0] != ',' then None
        else
          var more := ReadRows(rest[1..]);
          if more.None? then None else Some([first.value.value] + more.value)
  }

  // ---------------------------------------------------------------- column types

  datatype Kind = TextKind | NumberKind | FlagKind | ListKind

  predicate IsNumeralChar(c: char) {
    '0' <= c <= '9' || c == '.' || c == '+' || c == '-' || c == 'e'
  }

  predicate IsNumeral(t: string) {
    t != "" && forall k :: 0 <= k < |t| ==> IsNumeralChar(t[k])
  }

  function TextOf(l: Literal): Option<Option<string>> {
    match l
    case Quoted(s) => Some(Some(s))
    case Word(w) => if w == "NULL" then Some(None) else None
    case Array(_) => None
  }

  function TextsOf(ls: seq<Literal>): Option<seq<Option<string>>> {
    if ls == [] then Some([])
    else
      var first, more := TextOf(ls[0]), TextsOf(ls[1..]);
      if first.None? || more.None? then None else Some([first.value] + more.value)
  }

  /** What a literal is worth in a column of the given type; `'{}'` is the empty array there. */
  function ValueIn(kind: Kind, l: Literal): Option<Cell> {
    match kind
    case TextKind => var t := TextOf(l); if t.None? then None else Some(Text(t.value))
    case NumberKind =>
      if l == Word("NULL") then Some(Number(None))
      else if l.Word? && IsNumeral(l.w) then Some(Number(Some(l.w))) else None
    case FlagKind =>
      if l == Word("TRUE") then Some(Flag(true)) else if l == Word("FALSE") then Some(Flag(false)) else None
    case ListKind =>
      if l == Quoted("{}") then Some(List([]))
      else if !l.Array? then None
      else var t := TextsOf(l.elements); if t.None? then None else Some(List(t.value))
  }

  function RowIn(kinds: seq<Kind>, ls: seq<Literal>): Option<Row> {
    if |kinds| != |ls| then None
    else if kinds == [] then Some([])
    else
      var first, more := ValueIn(kinds[0], ls[0]), RowIn(kinds[1..], ls[1..]);
      if first.None? || more.None? then None else Some([first.value] + more.value)
  }

  function RowsIn(kinds: seq<Kind>, rows: seq<seq<Literal>>): Option<seq<Row>> {
    if rows == [] then Some([])
    else
      var first, more := RowIn(kinds, rows[0]), RowsIn(kinds, rows[1..]);
      if first.None? || more.None? then None else Some([first.value] + more.value)
  }

  /** What a table with these column types takes in from a VALUES list. */
  function ReadTable(kinds: seq<Kind>, text: string): Option<seq<Row>> {
    var rows := ReadRows(text);
    if rows.None? then None else RowsIn(kinds, rows.value)
  }

  // ---------------------------------------------------------------- the round trip

  function StoredText(v: Option<string>): Option<string> {
    if v == Some("") then None else v
  }

  /** What the database holds for a cell: the empty string is stored as NULL. */
  function Stored(c: Cell): Cell {
    match c
    case Text(v) => Text(StoredText(v))
    case List(items) => List(seq(|items|, k requires 0 <= k < |items| => StoredText(items[k])))
    case _ => c
  }

  function StoredRow(row: Row): Row {
    seq(|row|, k requires 0 <= k < |row| => Stored(row[k]))
  }

  function StoredRows(rows: seq<Row>): seq<Row> {
    seq(|rows|, k requires 0 <= k < |rows| => StoredRow(rows[k]))
  }

  function KindOf(c: Cell): Kind {
    match c
    case Text(_) => TextKind
    case Number(_) => NumberKind
    case Flag(_) => FlagKind
    case List(_) => ListKind
  }

  predicate Fits(kinds: seq<Kind>, row: Row) {
    && |row| == |kinds|
    && forall k :: 0 <= k < |row| ==>
         KindOf(row[k]) == kinds[k] && (row[k].Number? && row[k].numeral.Some? ==> IsNumeral(row[k].numeral.value))
  }

  /** What follows a cell in the printed text. */
  predicate Delimited(rest: string) {
    rest != "" && (rest[0] == ',' || rest[0] == ']' || rest[0] == ')')
  }

  lemma QuotedShape(first: string, more: string, rest: string)
    ensures (first + more) + [QUOTE] + rest == first + (more + [QUOTE] + rest)
  {
    var x, y := (first + more) + [QUOTE] + rest, first + (more + [QUOTE] + rest);
    assert |x| == |y| && forall k :: 0 <= k < |x| ==> x[k] == y[k];
  }

  lemma DroppedBack(first: string, rest: string)
    ensures (first + rest)[|first|..] == rest
  {
  }

  lemma {:induction false} QuotedBack(s: string, rest: string)
    requires rest == "" || rest[0] != QUOTE
    ensures ReadQuoted(Doubled(s) + [QUOTE] + rest) == Some(Parsed(s, rest))
  {
    if s == "" {
      assert Doubled(s) + [QUOTE] + rest == [QUOTE] + rest;
      DroppedBack([QUOTE], rest);
    } else {
      var inner := Doubled(s[1..]) + [QUOTE] + rest;
      var first := if s[0] == QUOTE then [QUOTE, QUOTE] else [s[0]];
      QuotedShape(first, Doubled(s[1..]), rest);
      DroppedBack(first, inner);
      QuotedBack(s[1..], rest);
      assert [s[0]] + s[1..] == s;
    }
  }

  lemma {:induction false} WordBack(w: string, rest: string)
    requires (forall k :: 0 <= k < |w| ==> IsWordChar(w[k])) && (rest == "" || !IsWordChar(rest[0]))
    ensures WordLength(w + rest) == |w|
  {
    if w == "" {
      assert w + rest == rest;
    } else {
      WordBack(w[1..], rest);
      assert (w + rest)[1..] == w[1..] + rest;
    }
  }

  lemma ScalarWord(w: string, rest: string)
    requires w != "" && (forall k :: 0 <= k < |w| ==> IsWordChar(w[k])) && (rest == "" || !IsWordChar(rest[0]))
    ensures ReadScalar(w + rest) == Some(Parsed(Word(w), rest))
  {
    WordBack(w, rest);
    assert (w + rest)[..|w|] == w && (w + rest)[|w|..] == rest;
    assert (w + rest)[0] == w[0];
  }

  function LiteralOf(v: Option<string>): Literal {
    if StoredText(v).None? then Word("NULL") else Quoted(v.value)
  }

  lemma TextBack(v: Option<string>, rest: string)
    requires Delimited(rest)
    ensures ReadScalar(Q(v) + rest) == Some(Parsed(LiteralOf(v), rest))
  {
    if StoredText(v).None? {
      ScalarWord("NULL", rest);
    } else {
      ScalarQuoted(v.value, rest);
    }
  }

  lemma ScalarQuoted(s: string, rest: string)
    requires rest == "" || rest[0] != QUOTE
    ensures ReadScalar([QUOTE] + Doubled(s) + [QUOTE] + rest) == Some(Parsed(Quoted(s), rest))
  {
    var inner := Doubled(s) + [QUOTE] + rest;
    QuotedShape([QUOTE], Doubled(s), rest);
    DroppedBack([QUOTE], inner);
    QuotedBack(s, rest);
  }

  predicate Unblanked(s: string) {
    s != "" && !IsBlank(s[0])
  }

  lemma BlankSkipped(s: string)
    requires Unblanked(s)
    ensures SkipBlank(s) == s && SkipBlank(" " + s) == s
  {
    assert (" " + s)[1..] == s;
  }

  function LiteralsOf(items: seq<Option<string>>): seq<Literal> {
    if items == [] then [] else [LiteralOf(items[0])] + LiteralsOf(items[1..])
  }

  lemma ElementsStep(s: string, l: Literal, after: string)
    requires ReadScalar(SkipBlank(s)) == Some(Parsed(l, after)) && Delimited(after)
    ensures after[0] == ']' ==> ReadElements(s) == Some(Parsed([l], after[1..]))
    ensures after[0] == ',' && ReadElements(after[1..]).Some? ==>
              ReadElements(s) == Some(Parsed([l] + ReadElements(after[1..]).value.value,
                  ReadElements(after[1..]).value.rest))
  {
  }

  /** What follows the first of the items in the printed text. */
  function AfterItem(items: seq<Option<string>>, rest: string): string
    requires items != []
  {
    if |items| == 1 then "]" + rest else "," + (" " + (Items(items[1..]) + "]" + rest))
  }

  lemma Shift(first: string, more: string, close: string, rest: string)
    ensures (first + (", " + more)) + close + rest == first + ("," + (" " + (more + close + rest)))
  {
  }

  lemma ItemsShape(items: seq<Option<string>>, rest: string)
    requires items != []
    ensures Items(items) + "]" + rest == Q(items[0]) + AfterItem(items, rest)
  {
    if |items| == 1 {
      assert Items(items) == Q(items[0]);
      Regroup(Q(items[0]), "]", rest);
    } else {
      Shift(Q(items[0]), Items(items[1..]), "]", rest);
    }
  }

  lemma Regroup(a: string, b: string, c: string)
    ensures a + b + c == a + (b + c)
  {
  }

  lemma ItemsUnblanked(items: seq<Option<string>>, rest: string)
    requires items != []
    ensures Unblanked(Items(items) + "]" + rest)
  {
  }

  lemma {:induction false} ItemsBack(items: seq<Option<string>>, s: string, rest: string)
    requires items != [] && SkipBlank(s) == Items(items) + "]" + rest
    ensures ReadElements(s) == Some(Parsed(LiteralsOf(items), rest))
    decreases |items|
  {
    var after := AfterItem(items, rest);
    ItemsShape(items, rest);
    TextBack(items[0], after);
    ElementsStep(s, LiteralOf(items[0]), after);
    if |items| == 1 {
      assert after[1..] == rest;
      assert LiteralsOf(items) == [LiteralOf(items[0])];
    } else {
      var tail := Items(items[1..]) + "]" + rest;
      ItemsUnblanked(items[1..], rest);
      BlankSkipped(tail);
      assert after[1..] == " " + tail;
      ItemsBack(items[1..], after[1..], rest);
    }
  }

  lemma {:induction false} TextsBack(items: seq<Option<string>>)
    ensures TextsOf(LiteralsOf(items)) == Some(Stored(List(items)).items)
  {
    if items == [] {
      assert Stored(List(items)).items == [];
    } else {
      TextsBack(items[1..]);
      assert Stored(List(items)).items == [StoredText(items[0])] + Stored(List(items[1..])).items;
    }
  }

  lemma ArrayShape(items: string, rest: string)
    ensures "ARRAY[" + items + "]::TEXT[]" + rest == "ARRAY" + ("[" + (items + "]" + (TEXT_ARRAY + rest)))
  {
  }

  lemma ListBack(items: seq<Option<string>>, rest: string)
    requires items != []
    ensures ReadLiteral(Print(List(items)) + rest) == Some(Parsed(Array(LiteralsOf(items)), rest))
  {
    var inner := Items(items) + "]" + (TEXT_ARRAY + rest);
    ArrayShape(Items(items), rest);
    ScalarWord("ARRAY", "[" + inner);
    assert ("[" + inner)[1..] == inner;
    ItemsUnblanked(items, TEXT_ARRAY + rest);
    BlankSkipped(inner);
    ItemsBack(items, inner, TEXT_ARRAY + rest);
    assert (TEXT_ARRAY + rest)[|TEXT_ARRAY|..] == rest;
  }

  lemma EmptyListBack(rest: string)
    requires Delimited(rest)
    ensures ReadLiteral(Print(List([])) + rest) == Some(Parsed(Quoted("{}"), rest))
  {
    BracesUndoubled();
    ScalarQuoted("{}", rest);
    assert Print(List([])) == [QUOTE] + Doubled("{}") + [QUOTE];
  }

  lemma BracesUndoubled()
    ensures Doubled("{}") == "{}"
  {
    assert "{}"[1..] == "}" && "}"[1..] == "";
    assert Doubled("}") == "}";
  }

  lemma WordCellBack(c: Cell, rest: string)
    requires Delimited(rest) && Fits([KindOf(c)], [c]) && (c.Number? || c.Flag?)
    ensures ReadLiteral(Print(c) + rest) == Some(Parsed(Word(Print(c)), rest))
    ensures ValueIn(KindOf(c), Word(Print(c))) == Some(c)
  {
    assert [c][0] == c;
    if c.Number? && c.numeral.Some? {
      assert IsNumeral(c.numeral.value);
      assert forall k :: 0 <= k < |c.numeral.value| ==> IsNumeralChar(c.numeral.value[k]);
      assert Print(c)[0] != 'N' && Print(c)[0] != 'A';
    }
    ScalarWord(Print(c), rest);
  }

  /** One cell is read back as the value its column stores. */
  lemma CellBack(c: Cell, rest: string)
    requires Delimited(rest) && Fits([KindOf(c)], [c])
    ensures var r := ReadLiteral(Print(c) + rest);
            r.Some? && r.value.rest == rest && ValueIn(KindOf(c), r.value.value) == Some(Stored(c))
  {
    match c
    case Text(v) => TextBack(v, rest);
    case Number(_) => WordCellBack(c, rest);
    case Flag(_) => WordCellBack(c, rest);
    case List(items) =>
      if items == [] {
        EmptyListBack(rest);
        assert Stored(c).items == [];
      } else {
        ListBack(items, rest);
        TextsBack(items);
      }
  }

  lemma CellsStep(s: string, l: Literal, after: string)
    requires ReadLiteral(SkipBlank(s)) == Some(Parsed(l, after)) && Delimited(after)
    ensures after[0] == ')' ==> ReadCells(s) == Some(Parsed([l], after[1..]))
    ensures after[0] == ',' && ReadCells(after[1..]).Some? ==>
              ReadCells(s) == Some(Parsed([l] + ReadCells(after[1..]).value.value, ReadCells(after[1..]).value.rest))
  {
    BlankSkipped(after);
  }

  lemma CellUnblanked(c: Cell)
    requires Fits([KindOf(c)], [c])
    ensures Unblanked(Print(c))
  {
    assert [c][0] == c;
    if c.Number? && c.numeral.Some? {
      assert IsNumeralChar(c.numeral.value[0]);
    }
  }

  function AfterCell(row: Row, rest: string): string
    requires row != []
  {
    if |row| == 1 then ")" + rest else "," + (" " + (PrintCells(row[1..]) + ")" + rest))
  }

  lemma CellsShape(row: Row, rest: string)
    requires row != []
    ensures PrintCells(row) + ")" + rest == Print(row[0]) + AfterCell(row, rest)
  {
    if |row| == 1 {
      assert PrintCells(row) == Print(row[0]);
    } else {
      Shift(Print(row[0]), PrintCells(row[1..]), ")", rest);
    }
  }

  lemma CellsUnblanked(kinds: seq<Kind>, row: Row, rest: string)
    requires row != [] && Fits(kinds, row)
    ensures Unblanked(PrintCells(row) + ")" + rest)
  {
    assert Fits([KindOf(row[0])], [row[0]]);
    CellUnblanked(row[0]);
    assert Print(row[0]) <= PrintCells(row);
  }

  lemma RowInCons(kinds: seq<Kind>, l: Literal, ls: seq<Literal>, c: Cell, row: Row)
    requires kinds != [] && ValueIn(kinds[0], l) == Some(c) && RowIn(kinds[1..], ls) == Some(row)
    ensures RowIn(kinds, [l] + ls) == Some([c] + row)
  {
  }

  /** The first cell is read as its literal, and what is left follows it. */
  lemma FirstCellBack(kinds: seq<Kind>, row: Row, s: string, rest: string) returns (l: Literal)
    requires row != [] && Fits(kinds, row) && SkipBlank(s) == PrintCells(row) + ")" + rest
    ensures ReadLiteral(SkipBlank(s)) == Some(Parsed(l, AfterCell(row, rest)))
    ensures ValueIn(kinds[0], l) == Some(Stored(row[0]))
  {
    assert Fits([KindOf(row[0])], [row[0]]);
    CellsShape(row, rest);
    CellBack(row[0], AfterCell(row, rest));
    l := ReadLiteral(SkipBlank(s)).value.value;
  }

  lemma AfterCellBlank(kinds: seq<Kind>, row: Row, rest: string)
    requires |row| > 1 && Fits(kinds, row)
    ensures SkipBlank(AfterCell(row, rest)[1..]) == PrintCells(row[1..]) + ")" + rest
  {
    var tail := PrintCells(row[1..]) + ")" + rest;
    CellsUnblanked(kinds[1..], row[1..], rest);
    BlankSkipped(tail);
    assert AfterCell(row, rest)[1..] == " " + tail;
  }

  lemma {:induction false} CellsBack(kinds: seq<Kind>, row: Row, s: string, rest: string)
    requires row != [] && Fits(kinds, row) && SkipBlank(s) == PrintCells(row) + ")" + rest
    ensures var r := ReadCells(s);
            r.Some? && r.value.rest == rest && RowIn(kinds, r.value.value) == Some(StoredRow(row))
    decreases |row|
  {
    var after := AfterCell(row, rest);
    var l := FirstCellBack(kinds, row, s, rest);
    CellsStep(s, l, after);
    assert StoredRow(row) == [Stored(row[0])] + StoredRow(row[1..]);
    if |row| == 1 {
      assert after[1..] == rest;
      assert [l] + [] == [l] && StoredRow(row[1..]) == [];
      RowInCons(kinds, l, [], Stored(row[0]), []);
    } else {
      AfterCellBlank(kinds, row, rest);
      CellsBack(kinds[1..], row[1..], after[1..], rest);
      RowInCons(kinds, l, ReadCells(after[1..]).value.value, Stored(row[0]), StoredRow(row[1..]));
    }
  }

  /** What follows the cells of the first row. */
  function AfterRow(rows: seq<Row>): string
    requires rows != []
  {
    if |rows| == 1 then "" else ",\n" + PrintRows(rows[1..])
  }

  /** The printed rows from their first parenthesis on. */
  function Opened(rows: seq<Row>): string
    requires rows != []
  {
    "(" + (PrintCells(rows[0]) + ")" + AfterRow(rows))
  }

  lemma OpenedShape(cells: string, after: string)
    ensures "  (" + cells + ")" + after == "  " + ("(" + (cells + ")" + after))
  {
    var x, y := "  (" + cells + ")" + after, "  " + ("(" + (cells + ")" + after));
    assert |x| == |y| && forall k :: 0 <= k < |x| ==> x[k] == y[k];
  }

  lemma RowsShape(rows: seq<Row>)
    requires rows != []
    ensures PrintRows(rows) == "  " + Opened(rows)
  {
    OpenedShape(PrintCells(rows[0]), AfterRow(rows));
  }

  /** White space before a list of rows, and the line feed between rows, are skipped. */
  lemma RowsUnblanked(rows: seq<Row>)
    requires rows != []
    ensures SkipBlank(PrintRows(rows)) == Opened(rows) == SkipBlank("\n" + PrintRows(rows))
  {
    RowsShape(rows);
    BlanksSkipped(Opened(rows));
  }

  lemma BlanksSkipped(s: string)
    requires Unblanked(s)
    ensures SkipBlank("  " + s) == s == SkipBlank("\n" + ("  " + s))
  {
    BlankSkipped(s);
    assert ("  " + s)[1..] == " " + s;
    DroppedBack("\n", "  " + s);
  }

  lemma RowsStep(s: string, body: string, first: seq<Literal>, after: string)
    requires SkipBlank(s) == "(" + body && ReadCells(body) == Some(Parsed(first, after))
    ensures after == "" ==> ReadRows(s) == Some([first])
    ensures after != "" && after[0] == ',' && ReadRows(after[1..]).Some? ==>
              ReadRows(s) == Some([first] + ReadRows(after[1..]).value)
  {
    DroppedBack("(", body);
    if after != "" && after[0] == ',' {
      BlankSkipped(after);
    }
  }

  lemma RowBack(kinds: seq<Kind>, row: Row, after: string)
    requires row != [] && Fits(kinds, row)
    ensures var r := ReadCells(PrintCells(row) + ")" + after);
            r.Some? && r.value.rest == after && RowIn(kinds, r.value.value) == Some(StoredRow(row))
  {
    var body := PrintCells(row) + ")" + after;
    CellsUnblanked(kinds, row, after);
    BlankSkipped(body);
    CellsBack(kinds, row, body, after);
  }

  lemma RowsInCons(kinds: seq<Kind>, first: seq<Literal>, more: seq<seq<Literal>>, row: Row, rows: seq<Row>)
    requires RowIn(kinds, first) == Some(row) && RowsIn(kinds, more) == Some(rows)
    ensures RowsIn(kinds, [first] + more) == Some([row] + rows)
  {
  }

  predicate AllFit(kinds: seq<Kind>, rows: seq<Row>) {
    forall k :: 0 <= k < |rows| ==> Fits(kinds, rows[k])
  }

  lemma AfterRowTail(rows: seq<Row>)
    requires |rows| > 1
    ensures AfterRow(rows) != "" && AfterRow(rows)[0] == ','
    ensures SkipBlank(AfterRow(rows)[1..]) == Opened(rows[1..])
  {
    assert AfterRow(rows)[1..] == "\n" + PrintRows(rows[1..]);
    RowsUnblanked(rows[1..]);
  }

  lemma StoredRowsCons(rows: seq<Row>)
    requires rows != []
    ensures StoredRows(rows) == [StoredRow(rows[0])] + StoredRows(rows[1..])
  {
  }

  lemma {:induction false} RowsBack(kinds: seq<Kind>, rows: seq<Row>, s: string)
    requires kinds != [] && rows != [] && AllFit(kinds, rows) && SkipBlank(s) == Opened(rows)
    ensures ReadTable(kinds, s) == Some(StoredRows(rows))
    decreases |rows|
  {
    var row, after := rows[0], AfterRow(rows);
    var body := PrintCells(row) + ")" + after;
    RowBack(kinds, row, after);
    var first := ReadCells(body).value.value;
    RowsStep(s, body, first, after);
    StoredRowsCons(rows);
    if |rows| == 1 {
      assert [first] + [] == [first];
      RowsInCons(kinds, first, [], StoredRow(row), []);
    } else {
      AfterRowTail(rows);
      RowsBack(kinds, rows[1..], after[1..]);
      RowsInCons(kinds, first, ReadRows(after[1..]).value, StoredRow(row), StoredRows(rows[1..]));
    }
  }

  /** Reading a printed VALUES list back gives exactly the rows that were printed, the empty string
      and missing values both as NULL; only a list without rows cannot be read. */
  lemma TableRoundTrip(kinds: seq<Kind>, rows: seq<Row>)
    requires kinds != [] && AllFit(kinds, rows)
    ensures ReadTable(kinds, PrintRows(rows)) == if rows == [] then None else Some(StoredRows(rows))
  {
    if rows != [] {
      RowsUnblanked(rows);
      RowsBack(kinds, rows, PrintRows(rows));
    }
  }
}
