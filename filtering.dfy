/** The filter engine of the page: a free-text search over the active
    language's title and description, then an exact tag match, both applied as
    boolean masks that keep the rows' order. */
module Filtering {
  import opened Wrappers
  import opened Seqs
  import opened Text
  import opened Articles

  /** The first tag option, meaning "do not filter by tag". */
  const AllTags: String := "All"

  /** `column.str.contains(query, case=False, na=False)` on one cell: a NULL
      cell never matches. */
  predicate CellContains(cell: Option<String>, query: String) {
    cell.Some? && ContainsIgnoreCase(cell.value, query)
  }

  /** The text mask: the query occurs in the active-language title or description. */
  predicate TextMatch(a: Article, lang: Lang, query: String) {
    CellContains(a.Title(lang), query) || CellContains(a.Description(lang), query)
  }

  /** The tag mask: `df["tag"] == selected`; a NULL tag equals nothing. */
  predicate TagMatch(a: Article, selected: String) {
    a.tag == Some(selected)
  }

  /** The search step: skipped when the query is empty. */
  function TextFilter(rows: seq<Article>, lang: Lang, query: String): seq<Article> {
    if query == "" then rows else Select(rows, a => TextMatch(a, lang, query))
  }

  /** The tag step: skipped when the selection is the "All" sentinel. */
  function TagFilter(rows: seq<Article>, selected: String): seq<Article> {
    if selected == AllTags then rows else Select(rows, a => TagMatch(a, selected))
  }

  /** The criteria a row has to meet to stay on the page, stated on one row. */
  predicate Kept(a: Article, lang: Lang, query: String, selected: String) {
    && (query == "" || TextMatch(a, lang, query))
    && (selected == AllTags || TagMatch(a, selected))
  }

  function KeptBy(lang: Lang, query: String, selected: String): Article -> bool {
    a => Kept(a, lang, query, selected)
  }

  /** The two steps one after the other are a single mask with `Kept`. */
  lemma TwoStepsAreOneMask(rows: seq<Article>, lang: Lang, query: String, selected: String)
    ensures TagFilter(TextFilter(rows, lang, query), selected) == Select(rows, KeptBy(lang, query, selected))
  {
    var keep := KeptBy(lang, query, selected);
    var text := (a: Article) => TextMatch(a, lang, query);
    var tags := (a: Article) => TagMatch(a, selected);
    if query == "" && selected == AllTags {
      SelectAll(rows, keep);
    } else if query == "" {
      SelectExt(rows, tags, keep);
    } else if selected == AllTags {
      SelectExt(rows, text, keep);
    } else {
      SelectCompose(rows, text, tags, keep);
    }
  }

  /** The filtering block of the page: the rows meeting `Kept`, in their
      original order. An empty input gives an empty result. */
  function Filter(rows: seq<Article>, lang: Lang, query: String, selected: String): (r: seq<Article>)
    ensures r == Select(rows, KeptBy(lang, query, selected))
    ensures forall a :: a in r <==> a in rows && Kept(a, lang, query, selected)
  {
    TwoStepsAreOneMask(rows, lang, query, selected);
    forall a ensures a in Select(rows, KeptBy(lang, query, selected)) <==> a in rows && Kept(a, lang, query, selected) {
      SelectMembership(rows, KeptBy(lang, query, selected), a);
    }
    TagFilter(TextFilter(rows, lang, query), selected)
  }

  /** The index labels of the rows that survive, as pandas keeps them. */
  function FilterIndices(rows: seq<Article>, lang: Lang, query: String, selected: String): seq<nat> {
    SelectedIndices(rows, KeptBy(lang, query, selected))
  }

  /** The result is the subsequence of the fetched rows at exactly the positions
      whose row meets `Kept`: no row is added, repeated or moved. */
  lemma FilterIsOrderedMask(rows: seq<Article>, lang: Lang, query: String, selected: String)
    ensures var r := Filter(rows, lang, query, selected);
            var idx := FilterIndices(rows, lang, query, selected);
            && |r| == |idx|
            && IncreasingIndices(idx, |rows|)
            && (forall k :: 0 <= k < |idx| ==> r[k] == rows[idx[k]])
            && (forall i :: 0 <= i < |rows| ==> (i in idx <==> Kept(rows[i], lang, query, selected)))
  {
    SelectIsMask(rows, KeptBy(lang, query, selected));
  }

  /** With an empty query and the "All" tag the page shows every fetched row. */
  lemma NoCriteriaKeepsAll(rows: seq<Article>, lang: Lang)
    ensures Filter(rows, lang, "", AllTags) == rows
  {
    SelectAll(rows, KeptBy(lang, "", AllTags));
  }

  /** Filtering an already filtered result with the same criteria changes nothing. */
  lemma FilterIdempotent(rows: seq<Article>, lang: Lang, query: String, selected: String)
    ensures Filter(Filter(rows, lang, query, selected), lang, query, selected) == Filter(rows, lang, query, selected)
  {
    var keep := KeptBy(lang, query, selected);
    SelectCompose(rows, keep, keep, keep);
  }

  /** Two rows that agree on the active language's title and description and on
      the tag. */
  predicate SameActiveFields(a: Article, b: Article, lang: Lang) {
    a.Title(lang) == b.Title(lang) && a.Description(lang) == b.Description(lang) && a.tag == b.tag
  }

  /** Only the active language is searched: rows that differ only in the other
      language's fields (or in id, date or image) are kept at the same positions. */
  lemma OnlyActiveLanguageSearched(rows: seq<Article>, other: seq<Article>, lang: Lang, query: String, selected: String)
    requires |rows| == |other|
    requires forall i :: 0 <= i < |rows| ==> SameActiveFields(rows[i], other[i], lang)
    ensures FilterIndices(rows, lang, query, selected) == FilterIndices(other, lang, query, selected)
  {
    var keep := KeptBy(lang, query, selected);
    SelectedIndicesAgree(rows, keep, other, keep);
  }

  /** In English mode the Malayalam title and description have no effect on
      which rows are kept. */
  lemma EnglishIgnoresMalayalamFields(rows: seq<Article>, ml: seq<(Option<String>, Option<String>)>, query: String, selected: String)
    requires |ml| == |rows|
    ensures var other := seq(|rows|, i requires 0 <= i < |rows| =>
                           rows[i].(malayalamTitle := ml[i].0, malayalamDescription := ml[i].1));
            FilterIndices(rows, English, query, selected) == FilterIndices(other, English, query, selected)
  {
    var other := seq(|rows|, i requires 0 <= i < |rows| =>
                   rows[i].(malayalamTitle := ml[i].0, malayalamDescription := ml[i].1));
    OnlyActiveLanguageSearched(rows, other, English, query, selected);
  }

  /** In Malayalam mode the English (`cleaned_*`) title and description have no
      effect on which rows are kept. */
  lemma MalayalamIgnoresEnglishFields(rows: seq<Article>, en: seq<(Option<String>, Option<String>)>, query: String, selected: String)
    requires |en| == |rows|
    ensures var other := seq(|rows|, i requires 0 <= i < |rows| =>
                           rows[i].(cleanedTitle := en[i].0, cleanedDescription := en[i].1));
            FilterIndices(rows, Malayalam, query, selected) == FilterIndices(other, Malayalam, query, selected)
  {
    var other := seq(|rows|, i requires 0 <= i < |rows| =>
                   rows[i].(cleanedTitle := en[i].0, cleanedDescription := en[i].1));
    OnlyActiveLanguageSearched(rows, other, Malayalam, query, selected);
  }

  // ---------------------------------------------------------------------------
  // The filtering block as written, over a pandas DataFrame.
  // ---------------------------------------------------------------------------

  /** A DataFrame as far as the filter uses it: its column labels and its rows. */
  datatype Frame = Frame(columns: set<String>, records: seq<Article>)

  /** Looking up a column the frame does not have. */
  datatype FrameError = KeyError(column: String)

  /** `pd.DataFrame(rows)` on the fetched dictionaries: a frame built from no
      rows has no columns at all. */
  function FromRecords(rows: seq<Article>): Frame {
    Frame(if rows == [] then {} else Columns, rows)
  }

  /** The filtering block of main.py:134-148 as written: each mask first looks its column up, and a
      missing column raises. */
  function FilterFrame(df: Frame, lang: Lang, query: String, selected: String): (r: Result<Frame, FrameError>)
    ensures r.Success? ==> r.value.columns == df.columns
  {
    if query != "" && TitleColumn(lang) !in df.columns then Failure(KeyError(TitleColumn(lang)))
    else if query != "" && DescriptionColumn(lang) !in df.columns then Failure(KeyError(DescriptionColumn(lang)))
    else
      var searched := TextFilter(df.records, lang, query);
      if selected != AllTags && "tag" !in df.columns then Failure(KeyError("tag"))
      else Success(Frame(df.columns, TagFilter(searched, selected)))
  }

  /** As written, the block raises exactly when nothing was fetched and a
      criterion is active; otherwise it agrees with `Filter`. */
  lemma FilterFrameRaisesOnEmptyFetch(rows: seq<Article>, lang: Lang, query: String, selected: String)
    ensures FilterFrame(FromRecords(rows), lang, query, selected).Failure? <==>
            rows == [] && (query != "" || selected != AllTags)
    ensures FilterFrame(FromRecords(rows), lang, query, selected).Success? ==>
            FilterFrame(FromRecords(rows), lang, query, selected).value ==
            Frame(if rows == [] then {} else Columns, Filter(rows, lang, query, selected))
  {
  }

  /** The concrete input: an empty table and the search "flu". */
  lemma EmptyFetchSearchRaises()
    ensures FilterFrame(FromRecords([]), English, "flu", AllTags) == Failure(KeyError("cleaned_title"))
    ensures Filter([], English, "flu", AllTags) == []
  {
  }
}
