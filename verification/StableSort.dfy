/**
 Sorting by a comparator, as `Array.prototype.sort` does it: a sorted, stable
 permutation.
 */
module StableSort {

  type Before<!T> = (T, T) -> bool

  /** Inserts behind every leading element that is before `x`. */
  function Insert<T>(before: Before<T>, x: T, s: seq<T>): seq<T> {
    if s == [] then [x] else if !before(s[0], x) then [x] + s else [s[0]] + Insert(before, x, s[1..])
  }

  function Sort<T>(before: Before<T>, s: seq<T>): seq<T> {
    if s == [] then [] else Insert(before, s[0], Sort(before, s[1..]))
  }

  /** A strict order in which not being before either way is transitive. */
  ghost predicate StrictWeak<T(!new)>(before: Before<T>) {
    && (forall x, y :: before(x, y) ==> !before(y, x))
    && (forall x, y, z :: !before(x, y) && !before(y, z) ==> !before(x, z))
  }

  ghost predicate SortedBy<T>(before: Before<T>, s: seq<T>) {
    forall i, j :: 0 <= i < j < |s| ==> !before(s[j], s[i])
  }

  lemma FrontSorts<T(!new)>(before: Before<T>, x: T, s: seq<T>)
    requires StrictWeak(before) && SortedBy(before, s) && s != [] && !before(s[0], x)
    ensures SortedBy(before, [x] + s)
  {
    var r := [x] + s;
    forall i, j | 0 <= i < j < |r| ensures !before(r[j], r[i]) {
      assert r[j] == s[j - 1];
      if i > 0 {
        assert r[i] == s[i - 1];
      } else if j > 1 {
        assert !before(s[j - 1], s[0]);
      }
    }
  }

  /** `tail` holds the rest of a sorted list and an element the head is before. */
  lemma BehindSorts<T(!new)>(before: Before<T>, x: T, s: seq<T>, tail: seq<T>)
    requires StrictWeak(before) && SortedBy(before, s) && s != [] && before(s[0], x)
    requires SortedBy(before, tail) && multiset(tail) == multiset(s[1..]) + multiset{x}
    ensures SortedBy(before, [s[0]] + tail)
  {
    var r := [s[0]] + tail;
    forall i, j | 0 <= i < j < |r| ensures !before(r[j], r[i]) {
      assert r[j] == tail[j - 1];
      if i > 0 {
        assert r[i] == tail[i - 1];
      } else {
        assert tail[j - 1] in multiset(tail);
        if tail[j - 1] != x {
          assert tail[j - 1] in s[1..];
          var k :| 0 <= k < |s[1..]| && s[1..][k] == tail[j - 1];
          assert s[k + 1] == tail[j - 1];
        }
      }
    }
  }

  lemma {:induction false} InsertSorts<T(!new)>(before: Before<T>, x: T, s: seq<T>)
    requires StrictWeak(before) && SortedBy(before, s)
    ensures multiset(Insert(before, x, s)) == multiset(s) + multiset{x}
    ensures SortedBy(before, Insert(before, x, s))
  {
    if s != [] {
      if before(s[0], x) {
        assert s == [s[0]] + s[1..];
        InsertSorts(before, x, s[1..]);
        BehindSorts(before, x, s, Insert(before, x, s[1..]));
      } else {
        FrontSorts(before, x, s);
      }
    }
  }

  lemma {:induction false} SortSorts<T(!new)>(before: Before<T>, s: seq<T>)
    requires StrictWeak(before)
    ensures multiset(Sort(before, s)) == multiset(s)
    ensures SortedBy(before, Sort(before, s))
  {
    if s != [] {
      assert s == [s[0]] + s[1..];
      SortSorts(before, s[1..]);
      InsertSorts(before, s[0], Sort(before, s[1..]));
    }
  }

  /** The elements that tie with `x`, in their order. */
  function Ties<T>(before: Before<T>, x: T, s: seq<T>): seq<T> {
    if s == [] then []
    else (if !before(x, s[0]) && !before(s[0], x) then [s[0]] else []) + Ties(before, x, s[1..])
  }

  lemma TiesCons<T>(before: Before<T>, y: T, x: T, s: seq<T>)
    ensures Ties(before, y, [x] + s) == (if !before(y, x) && !before(x, y) then [x] else []) + Ties(before, y, s)
  {
    assert ([x] + s)[1..] == s;
  }

  lemma {:induction false} InsertIsStable<T(!new)>(before: Before<T>, x: T, s: seq<T>, y: T)
    requires StrictWeak(before)
    ensures Ties(before, y, Insert(before, x, s)) == Ties(before, y, [x] + s)
  {
    if s != [] && before(s[0], x) {
      var rest := s[1..];
      assert s == [s[0]] + rest;
      InsertIsStable(before, x, rest, y);
      TiesCons(before, y, s[0], Insert(before, x, rest));
      TiesCons(before, y, s[0], rest);
      TiesCons(before, y, x, s);
      TiesCons(before, y, x, rest);
    }
  }

  /** Elements that tie keep their order. */
  lemma {:induction false} SortIsStable<T(!new)>(before: Before<T>, s: seq<T>, y: T)
    requires StrictWeak(before)
    ensures Ties(before, y, Sort(before, s)) == Ties(before, y, s)
  {
    if s != [] {
      SortIsStable(before, s[1..], y);
      InsertIsStable(before, s[0], Sort(before, s[1..]), y);
      assert ([s[0]] + Sort(before, s[1..]))[1..] == Sort(before, s[1..]);
    }
  }

  /** On these elements the comparator never ties. */
  ghost predicate TotalOn<T>(before: Before<T>, s: seq<T>) {
    forall x, y :: x in s && y in s && x != y ==> before(x, y) || before(y, x)
  }

  lemma SameHead<T(!new)>(before: Before<T>, s: seq<T>, t: seq<T>)
    requires TotalOn(before, s) && s != [] && t != []
    requires multiset(s) == multiset(t) && SortedBy(before, s) && SortedBy(before, t)
    ensures s[0] == t[0]
  {
    assert s[0] in multiset(t) && t[0] in multiset(s);
    var i :| 0 <= i < |t| && t[i] == s[0];
    var j :| 0 <= j < |s| && s[j] == t[0];
    assert i == 0 || !before(t[i], t[0]);
    assert j == 0 || !before(s[j], s[0]);
  }

  lemma TailMultiset<T>(s: seq<T>)
    requires s != []
    ensures multiset(s[1..]) == multiset(s) - multiset{s[0]}
    ensures forall x :: x in s[1..] ==> x in s
  {
    assert s == [s[0]] + s[1..];
  }

  /** Two sorted lists of the same elements are equal when the comparator never ties on them. */
  lemma {:induction false} SortedIsUnique<T(!new)>(before: Before<T>, s: seq<T>, t: seq<T>)
    requires TotalOn(before, s)
    requires multiset(s) == multiset(t) && SortedBy(before, s) && SortedBy(before, t)
    ensures s == t
  {
    assert |s| == |multiset(s)| == |multiset(t)| == |t|;
    if s != [] {
      SameHead(before, s, t);
      TailMultiset(s);
      TailMultiset(t);
      assert SortedBy(before, s[1..]) && SortedBy(before, t[1..]);
      SortedIsUnique(before, s[1..], t[1..]);
      assert s == [s[0]] + s[1..] && t == [t[0]] + t[1..];
    }
  }
}
