/** The result area of the page: one card per filtered row, laid out two to a
    row, each with a description preview truncated at 100 words. */
module Layout {
  import opened Wrappers
  import opened Seqs
  import opened Text
  import opened Articles
  import opened Images
  import opened Filtering

  /** Descriptions with more words than this are truncated. */
  const PreviewWords: nat := 100

  /** The text written on the card, and the full description behind the
      "Read more" expander when there is one. */
  datatype PreviewText = PreviewText(visible: String, readMore: Option<String>)

  /** The description block of a card; a NULL description counts as "". */
  function Preview(description: Option<String>): (p: PreviewText)
    ensures var desc := description.GetOr("");
            && (p.readMore.Some? <==> |Words(desc)| > PreviewWords)
            && (p.readMore.Some? ==> p.readMore.value == desc)
            && (p.readMore.None? ==> p.visible == desc)
  {
    var desc := description.GetOr("");
    var words := Words(desc);
    if |words| > PreviewWords then
      PreviewText(JoinSpace(words[..PreviewWords]) + "...", Some(desc))
    else PreviewText(desc, None)
  }

  /** A truncated preview is the first 100 words of the description, single
      spaced, with "..." attached to the last: split again, it gives exactly
      those words, the hundredth carrying the ellipsis. */
  lemma TruncatedPreviewHoldsFirstHundredWords(description: Option<String>)
    requires |Words(description.GetOr(""))| > PreviewWords
    ensures var words := Words(description.GetOr(""));
            var p := Preview(description);
            && p.visible == JoinSpace(words[..PreviewWords]) + "..."
            && Words(p.visible) == words[..PreviewWords - 1] + [words[PreviewWords - 1] + "..."]
            && Words(p.visible[..|p.visible| - 3]) == words[..PreviewWords]
  {
    var words := Words(description.GetOr(""));
    var first := words[..PreviewWords];
    var joined := JoinSpace(first);
    WordsOfJoin(first, "...");
    WordsOfJoin(first, "");
    assert joined + "" == joined;
    assert first[PreviewWords - 1] + "" == first[PreviewWords - 1];
    assert first[..PreviewWords - 1] + [first[PreviewWords - 1]] == first;
    var visible := joined + "...";
    assert visible[..|visible| - 3] == joined;
  }

  /** One card. */
  datatype Card = Card(title: Option<String>, image: Option<seq<Byte>>, preview: PreviewText)

  /** The card for one row in the active language. */
  function RenderCard(a: Article, lang: Lang, b64decode: Base64Decoder): (c: Card)
    ensures c.title == a.Title(lang)
    ensures c.image.Some? <==> a.imageData.Some? && a.imageData.value != "" &&
                               b64decode(a.imageData.value).Success? && b64decode(a.imageData.value).value != []
    ensures c.image.Some? ==> b64decode(a.imageData.value) == Success(c.image.value)
    ensures c.preview == Preview(a.Description(lang))
    ensures c.preview.readMore.Some? <==> |Words(a.Description(lang).GetOr(""))| > PreviewWords
  {
    Card(a.Title(lang), ImageToShow(a.imageData, b64decode), Preview(a.Description(lang)))
  }

  function Cards(rows: seq<Article>, lang: Lang, b64decode: Base64Decoder): (cs: seq<Card>)
    ensures |cs| == |rows|
    ensures forall i :: 0 <= i < |rows| ==> cs[i] == RenderCard(rows[i], lang, b64decode)
  {
    seq(|rows|, i requires 0 <= i < |rows| => RenderCard(rows[i], lang, b64decode))
  }

  /** The grid: consecutive groups of two, starting at even positions, the last
      group holding one element when the count is odd. */
  function Pairs<T>(s: seq<T>): seq<seq<T>> {
    seq((|s| + 1) / 2, k requires 0 <= k < (|s| + 1) / 2 => s[2 * k .. Min(2 * k + 2, |s|)])
  }

  /** The shape of the grid: ceil(n/2) groups, each of two elements except a
      last group of one when n is odd, group k starting at position 2k. */
  lemma PairsShape<T>(s: seq<T>)
    ensures |Pairs(s)| == (|s| + 1) / 2
    ensures forall k :: 0 <= k < |Pairs(s)| ==>
              |Pairs(s)[k]| == (if 2 * k + 1 == |s| then 1 else 2) &&
              (forall j :: 0 <= j < |Pairs(s)[k]| ==> Pairs(s)[k][j] == s[2 * k + j])
  {
  }

  lemma PairsCons<T>(s: seq<T>)
    requires |s| >= 2
    ensures Pairs(s) == [s[..2]] + Pairs(s[2..])
  {
    var p, q := Pairs(s), Pairs(s[2..]);
    assert |p| == 1 + |q|;
    forall k | 1 <= k < |p| ensures p[k] == q[k - 1] {
      var lo, hi := 2 * (k - 1), Min(2 * (k - 1) + 2, |s| - 2);
      assert q[k - 1] == s[2..][lo .. hi];
      assert p[k] == s[lo + 2 .. hi + 2];
      assert s[2..][lo .. hi] == s[lo + 2 .. hi + 2];
    }
  }

  /** Reading the grid row by row, left to right, visits every element exactly
      once and in order. */
  lemma {:induction false} PairsFlatten<T>(s: seq<T>)
    ensures Flatten(Pairs(s)) == s
    decreases |s|
  {
    if |s| == 0 {
    } else if |s| == 1 {
      assert s[0 .. Min(2, 1)] == s;
      assert |Pairs(s)| == 1 && Pairs(s)[0] == s;
      assert Pairs(s) == [s];
      assert Flatten([s]) == s + Flatten([]);
    } else {
      PairsCons(s);
      PairsFlatten(s[2..]);
      var rest := Pairs(s[2..]);
      assert ([s[..2]] + rest)[1..] == rest;
      assert s[..2] + s[2..] == s;
    }
  }

  /** A grid whose groups are the consecutive pairs of `s` is `Pairs(s)`. */
  lemma PairsByGroups<T>(s: seq<T>, grid: seq<seq<T>>)
    requires |grid| == (|s| + 1) / 2
    requires forall k :: 0 <= k < |grid| ==> grid[k] == s[2 * k .. Min(2 * k + 2, |s|)]
    ensures grid == Pairs(s)
  {
  }

  /** One more column of the current group. */
  lemma GroupGrows<T>(s: seq<T>, i: nat, j: nat)
    requires i + j < |s|
    ensures s[i .. Min(i + j + 1, |s|)] == s[i .. Min(i + j, |s|)] + [s[i + j]]
  {
    assert s[i .. i + j + 1] == s[i .. i + j] + [s[i + j]];
  }

  /** One more group of the grid. */
  lemma GridGrows<T>(s: seq<T>, grid: seq<seq<T>>, group: seq<T>)
    requires 2 * |grid| <= |s|
    requires forall k :: 0 <= k < |grid| ==> grid[k] == s[2 * k .. Min(2 * k + 2, |s|)]
    requires group == s[2 * |grid| .. Min(2 * |grid| + 2, |s|)]
    ensures forall k :: 0 <= k < |grid + [group]| ==> (grid + [group])[k] == s[2 * k .. Min(2 * k + 2, |s|)]
  {
  }

  /** Once the stepped loop has passed the end, its groups are `Pairs(s)`. */
  lemma FinishedGridIsPairs<T>(s: seq<T>, grid: seq<seq<T>>)
    requires 2 * |grid| == |s| || 2 * |grid| == |s| + 1
    requires forall k :: 0 <= k < |grid| ==> grid[k] == s[2 * k .. Min(2 * k + 2, |s|)]
    ensures grid == Pairs(s) && Flatten(grid) == s
  {
    assert |grid| == (|s| + 1) / 2;
    PairsByGroups(s, grid);
    PairsFlatten(s);
  }

  /** What the result area shows. */
  datatype Page = NoResults | Grid(rows: seq<seq<Card>>)

  /** main.py:153-161: the warning for an empty result, otherwise a stepped loop
      over the rows, two columns per step, the second filled only when a row is
      left. */
  method RenderResults(rows: seq<Article>, lang: Lang, b64decode: Base64Decoder) returns (page: Page)
    ensures page.NoResults? <==> rows == []
    ensures page.Grid? ==> page.rows == Pairs(Cards(rows, lang, b64decode))
    ensures page.Grid? ==> Flatten(page.rows) == Cards(rows, lang, b64decode)
  {
    if rows == [] {
      return NoResults;
    }
    ghost var cards := Cards(rows, lang, b64decode);
    var n := |rows|;
    var grid: seq<seq<Card>> := [];
    var i := 0;
    while i < n
      invariant 0 <= i <= n + 1 && i == 2 * |grid|
      invariant forall k :: 0 <= k < |grid| ==> grid[k] == cards[2 * k .. Min(2 * k + 2, n)]
    {
      var columns: seq<Card> := [];
      for j := 0 to 2
        invariant columns == cards[i .. Min(i + j, n)]
      {
        if i + j < n {
          var card := RenderCard(rows[i + j], lang, b64decode);
          assert card == cards[i + j];
          GroupGrows(cards, i, j);
          columns := columns + [card];
        }
      }
      GridGrows(cards, grid, columns);
      grid := grid + [columns];
      i := i + 2;
    }
    FinishedGridIsPairs(cards, grid);
    page := Grid(grid);
  }

  /** main.py:134-161 together: filter the fetched rows, then lay the survivors
      out. The warning appears exactly when no fetched row meets the criteria. */
  method ShowResults(fetched: seq<Article>, lang: Lang, query: String, selected: String, b64decode: Base64Decoder)
    returns (page: Page)
    ensures page.NoResults? <==> forall i :: 0 <= i < |fetched| ==> !Kept(fetched[i], lang, query, selected)
    ensures page.Grid? ==> page.rows == Pairs(Cards(Filter(fetched, lang, query, selected), lang, b64decode))
    ensures page.Grid? ==> Flatten(page.rows) == Cards(Filter(fetched, lang, query, selected), lang, b64decode)
  {
    var filtered := Filter(fetched, lang, query, selected);
    FilterIsOrderedMask(fetched, lang, query, selected);
    page := RenderResults(filtered, lang, b64decode);
    if filtered != [] {
      var i := FilterIndices(fetched, lang, query, selected)[0];
      assert Kept(fetched[i], lang, query, selected);
    }
  }
}
