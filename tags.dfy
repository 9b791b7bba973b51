/** The tag dropdown: the "All" sentinel followed by the distinct tags in
    Python's `sorted()` order. */
module Tags {
  import opened Text
  import opened Filtering

  /** Python's `a <= b` on strings: code point by code point, a proper prefix
      first. */
  predicate LexLe(a: String, b: String)
    decreases |a|
  {
    if a == [] then true
    else if b == [] then false
    else if a[0] != b[0] then a[0] < b[0]
    else LexLe(a[1..], b[1..])
  }

  lemma {:induction false} LexLeTotal(a: String, b: String)
    ensures LexLe(a, b) || LexLe(b, a)
    decreases |a|
  {
    if a != [] && b != [] && a[0] == b[0] {
      LexLeTotal(a[1..], b[1..]);
    }
  }

  lemma {:induction false} LexLeTransitive(a: String, b: String, c: String)
    requires LexLe(a, b) && LexLe(b, c)
    ensures LexLe(a, c)
    decreases |a|
  {
    if a != [] && b != [] && c != [] && a[0] == b[0] && b[0] == c[0] {
      LexLeTransitive(a[1..], b[1..], c[1..]);
    }
  }

  lemma {:induction false} LexLeAntisymmetric(a: String, b: String)
    requires LexLe(a, b) && LexLe(b, a)
    ensures a == b
    decreases |a|
  {
    if a != [] && b != [] {
      LexLeAntisymmetric(a[1..], b[1..]);
      assert a == [a[0]] + a[1..] && b == [b[0]] + b[1..];
    }
  }

  predicate Sorted(s: seq<String>) {
    forall i, j :: 0 <= i < j < |s| ==> LexLe(s[i], s[j])
  }

  /** Insertion into a list: before the first element not below `x`. */
  function Insert(x: String, s: seq<String>): (r: seq<String>)
    ensures |r| == |s| + 1
    ensures multiset(r) == multiset(s) + multiset{x}
  {
    if s == [] then [x]
    else if LexLe(x, s[0]) then
      assert s == [s[0]] + s[1..];
      [x] + s
    else
      assert s == [s[0]] + s[1..];
      [s[0]] + Insert(x, s[1..])
  }

  /** Every element of `s` is at least `lo`. */
  predicate AllAtLeast(lo: String, s: seq<String>) {
    forall j :: 0 <= j < |s| ==> LexLe(lo, s[j])
  }

  lemma SortedCons(lo: String, s: seq<String>)
    requires Sorted(s) && AllAtLeast(lo, s)
    ensures Sorted([lo] + s)
  {
    var r := [lo] + s;
    forall i, j | 0 <= i < j < |r| ensures LexLe(r[i], r[j]) {
      if i > 0 { assert r[i] == s[i - 1] && r[j] == s[j - 1]; }
      else { assert r[j] == s[j - 1]; }
    }
  }

  /** Inserting into a sorted list keeps it sorted. */
  lemma {:induction false} InsertSorted(x: String, s: seq<String>)
    requires Sorted(s)
    ensures Sorted(Insert(x, s))
    decreases |s|
  {
    if s == [] {
    } else if LexLe(x, s[0]) {
      forall j | 0 <= j < |s| ensures LexLe(x, s[j]) {
        if j > 0 { LexLeTransitive(x, s[0], s[j]); }
      }
      SortedCons(x, s);
    } else {
      LexLeTotal(x, s[0]);
      var tail := s[1..];
      var rest := Insert(x, tail);
      InsertSorted(x, tail);
      forall j | 0 <= j < |rest| ensures LexLe(s[0], rest[j]) {
        var e := rest[j];
        assert e in multiset(rest);
        if e != x {
          assert e in multiset(tail);
          var m :| 0 <= m < |tail| && tail[m] == e;
          assert s[m + 1] == e;
        }
      }
      SortedCons(s[0], rest);
    }
  }

  /** `sorted(tags)`. */
  function SortTags(tags: seq<String>): (r: seq<String>)
    ensures |r| == |tags|
    ensures Sorted(r)
    ensures multiset(r) == multiset(tags)
  {
    if tags == [] then []
    else
      assert tags == [tags[0]] + tags[1..];
      var rest := SortTags(tags[1..]);
      InsertSorted(tags[0], rest);
      Insert(tags[0], rest)
  }

  /** The smallest element of a sorted non-empty list is first. */
  lemma SortedHeadIsLeast(s: seq<String>, e: String)
    requires Sorted(s) && e in s
    ensures LexLe(s[0], e)
  {
    var j :| 0 <= j < |s| && s[j] == e;
    if j == 0 { LexLeTotal(e, e); }
  }

  /** Two sorted lists with the same elements start with the same element. */
  lemma SortedSameHead(a: seq<String>, b: seq<String>)
    requires Sorted(a) && Sorted(b) && multiset(a) == multiset(b) && a != []
    ensures b != [] && a[0] == b[0]
  {
    assert a[0] in multiset(b);
    assert b[0] in multiset(a);
    SortedHeadIsLeast(b, a[0]);
    SortedHeadIsLeast(a, b[0]);
    LexLeAntisymmetric(a[0], b[0]);
  }

  lemma SortedTail(s: seq<String>)
    requires Sorted(s) && s != []
    ensures Sorted(s[1..])
  {
    var t := s[1..];
    forall i, j | 0 <= i < j < |t| ensures LexLe(t[i], t[j]) {
      assert t[i] == s[i + 1] && t[j] == s[j + 1];
    }
  }

  lemma SameTailElements(a: seq<String>, b: seq<String>)
    requires a != [] && b != [] && a[0] == b[0] && multiset(a) == multiset(b)
    ensures multiset(a[1..]) == multiset(b[1..])
  {
    assert a == [a[0]] + a[1..] && b == [b[0]] + b[1..];
    assert multiset(a) == multiset{a[0]} + multiset(a[1..]);
    assert multiset(b) == multiset{b[0]} + multiset(b[1..]);
    forall e ensures multiset(a[1..])[e] == multiset(b[1..])[e] {
      assert multiset(a)[e] == multiset{a[0]}[e] + multiset(a[1..])[e];
      assert multiset(b)[e] == multiset{b[0]}[e] + multiset(b[1..])[e];
    }
  }

  /** A sorted arrangement of a multiset of strings is unique, so any sorting
      algorithm gives the list `sorted()` returns. */
  lemma {:induction false} SortedIsUnique(a: seq<String>, b: seq<String>)
    requires Sorted(a) && Sorted(b) && multiset(a) == multiset(b)
    ensures a == b
    decreases |a|
  {
    if a == [] {
      assert |b| == |multiset(b)| == 0;
    } else {
      SortedSameHead(a, b);
      SortedTail(a);
      SortedTail(b);
      SameTailElements(a, b);
      SortedIsUnique(a[1..], b[1..]);
      assert a == [a[0]] + a[1..] && b == [b[0]] + b[1..];
    }
  }

  /** The options of the tag select box. */
  function TagOptions(tags: seq<String>): (opts: seq<String>)
    ensures |opts| == |tags| + 1 && opts[0] == AllTags
    ensures Sorted(opts[1..]) && multiset(opts[1..]) == multiset(tags)
  {
    [AllTags] + SortTags(tags)
  }

  /** A tag literally named "All" is listed too, but choosing either "All"
      option applies no tag filter, so its rows cannot be singled out. */
  lemma TagNamedAllIsNotSelectable(tags: seq<String>, rows: seq<Articles.Article>, lang: Articles.Lang, query: String)
    requires AllTags in tags
    ensures multiset(TagOptions(tags))[AllTags] >= 2
    ensures forall a :: a in Filter(rows, lang, query, AllTags) <==>
                        a in rows && (query == "" || TextMatch(a, lang, query))
  {
    var opts := TagOptions(tags);
    assert opts == [AllTags] + opts[1..];
    assert multiset(opts) == multiset{AllTags} + multiset(tags);
  }
}
