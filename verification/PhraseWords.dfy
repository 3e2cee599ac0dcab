/**
 Whole-word phrase matching by substring search on space-padded strings.
 */
module PhraseWords {

  const MIN_TOKEN := 3

  predicate IsWordChar(c: char) {
    'a' <= c <= 'z' || '0' <= c <= '9'
  }

  lemma WordChars(c: char)
    ensures IsWordChar(c) <==> c in "abcdefghijklmnopqrstuvwxyz0123456789"
  {
    var chars := "abcdefghijklmnopqrstuvwxyz0123456789";
    if IsWordChar(c) {
      var k := if c <= '9' then 26 + (c as int - '0' as int) else c as int - 'a' as int;
      assert chars[k] == c;
    }
  }

  predicate IsWord(w: string) {
    w != "" && forall i :: 0 <= i < |w| ==> IsWordChar(w[i])
  }

  ghost predicate Words(ws: seq<string>) {
    forall i :: 0 <= i < |ws| ==> IsWord(ws[i])
  }

  /** The length of the leading run of word characters. */
  function RunLength(s: string): (n: nat)
    ensures n <= |s|
    ensures forall i :: 0 <= i < n ==> IsWordChar(s[i])
    ensures n < |s| ==> !IsWordChar(s[n])
  {
    if s != "" && IsWordChar(s[0]) then 1 + RunLength(s[1..]) else 0
  }

  /** `split(/[^a-z0-9]+/).filter(Boolean)`: the maximal runs of word characters. */
  function Runs(s: string): (ws: seq<string>)
    ensures Words(ws)
    decreases |s|
  {
    if s == "" then []
    else if !IsWordChar(s[0]) then Runs(s[1..])
    else
      var n := RunLength(s);
      [s[..n]] + Runs(s[n..])
  }

  /** `join(" ")`. */
  function Joined(ws: seq<string>): string {
    if ws == [] then "" else if |ws| == 1 then ws[0] else ws[0] + " " + Joined(ws[1..])
  }

  function Padded(ws: seq<string>): string {
    " " + Joined(ws) + " "
  }

  predicate MatchesAt(s: string, t: string, k: nat) {
    k + |t| <= |s| && s[k..k + |t|] == t
  }

  /** JavaScript's `includes`. */
  predicate Includes(s: string, t: string) {
    exists k :: 0 <= k <= |s| && MatchesAt(s, t, k)
  }

  predicate BlockAt(ws: seq<string>, vs: seq<string>, k: nat) {
    k + |vs| <= |ws| && ws[k..k + |vs|] == vs
  }

  /** `vs` is a contiguous block of `ws`. */
  predicate Block(ws: seq<string>, vs: seq<string>) {
    exists k :: 0 <= k <= |ws| && BlockAt(ws, vs, k)
  }

  // ---------------------------------------------------------------- padded strings and word lists

  /** Every word followed by one space. */
  function Spaced(ws: seq<string>): string {
    if ws == [] then "" else ws[0] + " " + Spaced(ws[1..])
  }

  lemma {:induction false} JoinedIsSpaced(ws: seq<string>)
    requires ws != []
    ensures Joined(ws) + " " == Spaced(ws)
  {
    if |ws| == 1 {
      assert Spaced(ws[1..]) == "";
    } else {
      JoinedIsSpaced(ws[1..]);
      assert Joined(ws) + " " == ws[0] + " " + (Joined(ws[1..]) + " ");
    }
  }

  lemma PaddedIsSpaced(ws: seq<string>)
    requires ws != []
    ensures Padded(ws) == " " + Spaced(ws)
  {
    JoinedIsSpaced(ws);
    assert Padded(ws) == " " + (Joined(ws) + " ");
  }

  /** Two words, each ended by a space, that agree as far as the shorter reaches, are equal. */
  lemma SameFirstWord(v: string, w: string, p: string, q: string)
    requires IsWord(v) && IsWord(w) && v + " " + p <= w + " " + q
    ensures v == w && p <= q
  {
    var a, b := v + " " + p, w + " " + q;
    assert a[|v|] == ' ' && b[|v|] == ' ' && b[|w|] == ' ';
    assert |v| == |w|;
    assert a[..|v|] == v && b[..|w|] == w;
    assert a[|v| + 1..] == p && b[|w| + 1..] == q;
  }

  lemma {:induction false} PrefixIff(ws: seq<string>, vs: seq<string>)
    requires Words(ws) && Words(vs)
    ensures Spaced(vs) <= Spaced(ws) <==> vs <= ws
  {
    if vs != [] && ws != [] {
      assert Words(ws[1..]) && Words(vs[1..]);
      PrefixIff(ws[1..], vs[1..]);
      var p, q := Spaced(vs[1..]), Spaced(ws[1..]);
      if vs[0] + " " + p <= ws[0] + " " + q {
        SameFirstWord(vs[0], ws[0], p, q);
        assert vs == [vs[0]] + vs[1..] && ws == [ws[0]] + ws[1..];
      }
      if vs <= ws {
        assert vs[1..] <= ws[1..];
        assert vs[0] == ws[0];
        var head := vs[0] + " ";
        assert vs[0] + " " + p == head + p && ws[0] + " " + q == head + q;
      }
    }
  }

  lemma RestSlice<T>(ws: seq<T>, k: nat, n: nat)
    requires k + n < |ws|
    ensures ws[1..][k..k + n] == ws[k + 1..k + 1 + n]
  {
  }

  lemma {:induction false} BlockShift(ws: seq<string>, vs: seq<string>)
    requires ws != []
    ensures Block(ws, vs) <==> vs <= ws || Block(ws[1..], vs)
  {
    if vs <= ws {
      assert BlockAt(ws, vs, 0);
    }
    if Block(ws[1..], vs) {
      var k :| 0 <= k <= |ws[1..]| && BlockAt(ws[1..], vs, k);
      RestSlice(ws, k, |vs|);
      assert BlockAt(ws, vs, k + 1);
    }
    if Block(ws, vs) {
      var k :| 0 <= k <= |ws| && BlockAt(ws, vs, k);
      if k > 0 {
        RestSlice(ws, k - 1, |vs|);
        assert BlockAt(ws[1..], vs, k - 1);
      }
    }
  }

  lemma SuffixMatch(s: string, t: string, from: nat, k: nat)
    requires from <= |s|
    ensures MatchesAt(s[from..], t, k) <==> MatchesAt(s, t, from + k)
  {
  }

  /** A padded phrase starts with a space, so it cannot match inside a word. */
  lemma MatchAtBoundary(w: string, rest: string, p: string, k: nat)
    requires IsWord(w) && MatchesAt(" " + w + rest, " " + p, k)
    ensures k == 0 || k > |w|
  {
    var s := " " + w + rest;
    assert s[k] == s[k..k + |" " + p|][0] == ' ';
    assert forall i :: 0 < i <= |w| ==> s[i] == w[i - 1];
  }

  /** A match of a padded phrase begins at the front, or past the first word. */
  lemma MatchShift(w: string, q: string, p: string)
    requires IsWord(w)
    ensures Includes(" " + w + (" " + q), " " + p) <==> p <= w + " " + q || Includes(" " + q, " " + p)
  {
    var s, t := " " + w + (" " + q), " " + p;
    var from := |w| + 1;
    assert s[from..] == " " + q;
    assert s == " " + (w + " " + q);
    if p <= w + " " + q {
      assert MatchesAt(s, t, 0);
    }
    if Includes(" " + q, t) {
      var k :| 0 <= k <= |" " + q| && MatchesAt(" " + q, t, k);
      SuffixMatch(s, t, from, k);
    }
    if Includes(s, t) {
      var k :| 0 <= k <= |s| && MatchesAt(s, t, k);
      MatchAtBoundary(w, " " + q, p, k);
      if k == 0 {
        assert s[1..] == w + " " + q;
        assert s[1..][..|p|] == s[0..|t|][1..] == p;
      } else {
        SuffixMatch(s, t, from, k - from);
      }
    }
  }

  lemma SpacedCons(ws: seq<string>)
    requires ws != []
    ensures " " + Spaced(ws) == " " + ws[0] + (" " + Spaced(ws[1..]))
  {
  }

  lemma {:induction false} SpacedIncludesIff(ws: seq<string>, vs: seq<string>)
    requires Words(ws) && Words(vs) && vs != []
    ensures Includes(" " + Spaced(ws), " " + Spaced(vs)) <==> Block(ws, vs)
  {
    if ws == [] {
      assert |Spaced(vs)| >= 2;
    } else {
      assert Words(ws[1..]);
      MatchShift(ws[0], Spaced(ws[1..]), Spaced(vs));
      SpacedCons(ws);
      PrefixIff(ws, vs);
      BlockShift(ws, vs);
      SpacedIncludesIff(ws[1..], vs);
    }
  }

  /** Substring search on padded strings is the search for a contiguous block of words; a phrase
      without words is found only in a text without words. */
  lemma IncludesIff(ws: seq<string>, vs: seq<string>)
    requires Words(ws) && Words(vs)
    ensures Includes(Padded(ws), Padded(vs)) <==> if vs == [] then ws == [] else Block(ws, vs)
  {
    if vs == [] {
      assert Padded(vs) == "  ";
      if ws == [] {
        assert MatchesAt(Padded(ws), Padded(vs), 0);
      } else {
        PaddedIsSpaced(ws);
        NoDoubleSpace(ws);
      }
    } else {
      PaddedIsSpaced(vs);
      if ws == [] {
        assert |Spaced(vs)| >= 2;
        assert |Padded(ws)| == 2;
      } else {
        PaddedIsSpaced(ws);
        SpacedIncludesIff(ws, vs);
      }
    }
  }

  lemma {:induction false} NoDoubleSpace(ws: seq<string>)
    requires Words(ws)
    ensures !Includes(" " + Spaced(ws), "  ")
  {
    assert "  " == " " + " ";
    if ws == [] {
      assert forall k :: 0 <= k <= 1 ==> !MatchesAt(" " + Spaced(ws), "  ", k);
    } else {
      assert Words(ws[1..]);
      NoDoubleSpace(ws[1..]);
      MatchShift(ws[0], Spaced(ws[1..]), " ");
      SpacedCons(ws);
      assert (ws[0] + " " + Spaced(ws[1..]))[0] == ws[0][0];
      assert IsWordChar(ws[0][0]);
    }
  }

  // ---------------------------------------------------------------- texts

  /** White space as `trim` takes it. */
  predicate IsSpace(c: char) {
    c in {' ', '\t', '\n', '\r', '\U{000B}', '\U{000C}', '\U{00A0}', '\U{1680}', '\U{2028}', '\U{2029}',
          '\U{202F}', '\U{205F}', '\U{3000}', '\U{FEFF}'} || '\U{2000}' <= c <= '\U{200A}'
  }

  function TrimStart(s: string): string {
    if s != "" && IsSpace(s[0]) then TrimStart(s[1..]) else s
  }

  function TrimEnd(s: string): string {
    if s != "" && IsSpace(s[|s| - 1]) then TrimEnd(s[..|s| - 1]) else s
  }

  function Trim(s: string): string {
    TrimEnd(TrimStart(s))
  }

  /** How text is lowercased: a given map. */
  type Lower = string -> string

  function WordsOf(lower: Lower, text: string): string {
    Padded(Runs(lower(text)))
  }

  /** The text evidence of a token in padded request words. */
  predicate Mentions(lower: Lower, words: string, token: string) {
    var phrase := WordsOf(lower, token);
    |Trim(phrase)| >= MIN_TOKEN && Includes(words, phrase)
  }

  lemma {:induction false} JoinedEnds(ws: seq<string>)
    requires Words(ws) && ws != []
    ensures Joined(ws) != "" && IsWordChar(Joined(ws)[0]) && IsWordChar(Joined(ws)[|Joined(ws)| - 1])
  {
    assert IsWord(ws[0]);
    if |ws| > 1 {
      JoinedEnds(ws[1..]);
    }
  }

  lemma TrimPadded(ws: seq<string>)
    requires Words(ws)
    ensures Trim(Padded(ws)) == Joined(ws)
  {
    var j := Joined(ws);
    if ws == [] {
      assert Padded(ws) == "  " && "  "[1..] == " " && " "[1..] == "";
      assert TrimStart("  ") == TrimStart(" ") == TrimStart("");
    } else {
      JoinedEnds(ws);
      assert Padded(ws)[1..] == j + " ";
      assert (j + " ")[..|j|] == j;
      assert TrimStart(Padded(ws)) == TrimStart(j + " ") == j + " ";
      assert TrimEnd(j + " ") == TrimEnd(j) == j;
    }
  }

  /** A token is mentioned exactly when its words form a contiguous block of the text's words and
      its joined phrase has at least three characters. */
  lemma MentionsIff(lower: Lower, text: string, token: string)
    ensures Mentions(lower, WordsOf(lower, text), token) <==>
              |Joined(Runs(lower(token)))| >= 3 && Block(Runs(lower(text)), Runs(lower(token)))
  {
    IncludesIff(Runs(lower(text)), Runs(lower(token)));
    TrimPadded(Runs(lower(token)));
  }

  /** Splitting a padded string gives its words back. */
  lemma {:induction false} RunsOfSpaced(ws: seq<string>)
    requires Words(ws)
    ensures Runs(Spaced(ws)) == ws
  {
    if ws != [] {
      var w, rest := ws[0], Spaced(ws[1..]);
      var s := w + " " + rest;
      assert IsWord(w) && Words(ws[1..]);
      var n := RunLength(s);
      assert s[|w|] == ' ' && (n > |w| ==> IsWordChar(s[|w|]));
      assert forall i :: 0 <= i < |w| ==> s[i] == w[i];
      assert s[..n] == w && s[n..] == " " + rest;
      assert (" " + rest)[1..] == rest;
      assert s[0] == w[0];
      RunsOfSpaced(ws[1..]);
    }
  }

  lemma RunsOfPadded(ws: seq<string>)
    requires Words(ws)
    ensures Runs(Padded(ws)) == ws
  {
    if ws == [] {
      assert Padded(ws) == "  " && "  "[1..] == " " && " "[1..] == "";
      assert Runs("  ") == Runs(" ") == Runs("");
    } else {
      PaddedIsSpaced(ws);
      assert (" " + Spaced(ws))[1..] == Spaced(ws);
      RunsOfSpaced(ws);
    }
  }
}
