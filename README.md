# Medical news portal: filter, pair and truncate

A Dafny model of the page logic in `main.py` of the news-malayalam Streamlit
app. The app fetches up to 500 news rows, each with an English
(`cleaned_*`) and a Malayalam (`malayalam_*`) title and description. It then:

- filters the rows by a free-text search over the active language's fields;
- filters them by an exact tag, where the `"All"` option means no tag filter;
- shows the survivors two cards per row; a description of more than 100 words
  is cut to its first 100 words, with the full text behind a "Read more"
  expander, and a shorter one is shown in full;
- shows an image only when the row's base64 payload decodes to non-empty bytes.

Modules, one per file:

- `Wrappers` (`wrappers.dfy`): `Option` for SQL NULL / Python `None`, and `Result` for a call that may raise.
- `Seqs` (`seqs.dfy`): boolean-mask selection (`Select`), the positions it keeps (`SelectedIndices`), and `Flatten`.
- `Text` (`text.dfy`): Python's `str.isspace`, `str.split()` (`Words`) and `" ".join` (`JoinSpace`); ASCII case folding; literal substring search.
- `Articles` (`articles.dfy`): the `Article` row, the `Lang` choice, and the column names.
- `Filtering` (`filtering.dfy`): the filter engine (`Filter`), and the block as written over a DataFrame (`FilterFrame`).
- `Images` (`images.dfy`): `decode_image` and the guard for showing an image.
- `Layout` (`layout.dfy`): the description preview, the cards, the two-per-row render loop (`RenderResults`, a method with loop invariants) and filter-then-render (`ShowResults`).
- `Tags` (`tags.dfy`): `sorted(tags)` and the dropdown options `["All"] + tags`.

Inputs the model takes from outside:

- The fetched rows and the tag list are parameters. The SQL, its ordering and its `LIMIT 500` are not modelled.
- The display language is a parameter.
- `base64.b64decode` is a parameter of type `String -> Result<seq<Byte>, DecodeFailure>`, so it may fail on any input.

`main.py` does not:

- retry the database connection;
- validate images or show a "no image available" indicator (without an image the slot is simply left out);
- substitute a placeholder for a missing title;
- give its `st.cache_data` calls a time limit.

## Model

| member | source | states |
|---|---|---|
| `Seqs.SelectIsMask` | main.py:137-148 | Boolean-mask indexing keeps, in their original order, exactly the rows whose mask is true. The kept positions strictly increase, and each position is kept iff its row passes. |
| `Seqs.SelectCompose` | main.py:134-148 | Two masks applied one after the other are the same as one mask with their conjunction. |
| `Text.Words` | main.py:179 | `str.split()` returns only non-empty words with no whitespace in them. Their concatenation is exactly the input's non-whitespace characters, in order. |
| `Text.WordsSplitsAtSpace` | main.py:179 | Every whitespace character separates words: the words of `a + [c] + b`, for a whitespace `c`, are the words of `a` followed by the words of `b`. |
| `Text.WordsOfWord` | main.py:179 | A non-empty string without whitespace splits into itself alone, so words are never cut inside. |
| `Text.WordsOfJoin` | main.py:179-181 | Splitting `" ".join(ws) + t` gives back `ws`, with `t` attached to the last word. With `t == ""` this is the split/join round trip. |
| `Text.ContainsIff` | main.py:138-139 | The substring scan succeeds iff the needle occurs at some position of the text. |
| `Text.IgnoresCase` | main.py:138-139 | The `case=False` match gives the same answer when any ASCII letter of the text or of the query changes case. |
| `Text.LowerQueryFindsCapitalised` | main.py:138 | The query `"flu"` matches the title `"Flu Outbreak"`. |
| `Filtering.TwoStepsAreOneMask` | main.py:134-148 | Running the search step and then the tag step is the same as one mask with `Kept`. |
| `Filtering.Filter` | main.py:134-148 | The result is the single `Kept` mask of the fetched rows. A row is in it iff it was fetched and (the query is empty, or the active title or description contains it ignoring case; NULL never matches) and (the tag is `"All"`, or the row's tag equals it). |
| `Filtering.FilterIsOrderedMask` | main.py:134-148 | Filtering gives the order-preserving subsequence at exactly the positions whose row meets `Kept`. Nothing is added, repeated or reordered. |
| `Filtering.NoCriteriaKeepsAll` | main.py:134-135 | With an empty query and the `"All"` tag, every fetched row is shown. |
| `Filtering.FilterIdempotent` | main.py:134-148 | Filtering a filtered result again with the same criteria returns it unchanged. |
| `Filtering.OnlyActiveLanguageSearched` | main.py:136-145 | Rows that agree on the active title, active description and tag are kept at the same positions. Nothing else (the other language, id, date, image) affects membership. |
| `Filtering.EnglishIgnoresMalayalamFields` | main.py:136-140 | In English mode, replacing every Malayalam title and description leaves the kept positions unchanged. |
| `Filtering.MalayalamIgnoresEnglishFields` | main.py:141-145 | In Malayalam mode, replacing every `cleaned_*` title and description leaves the kept positions unchanged. |
| `Filtering.FilterFrame` | main.py:134-148 | The block as written, over a DataFrame. A column lookup on a frame without that column raises `KeyError`. On success the frame keeps its columns. |
| `Filtering.FilterFrameRaisesOnEmptyFetch` | main.py:37 | Over `pd.DataFrame(rows)`, the block raises iff nothing was fetched and a query or a tag other than `"All"` is active. Otherwise it returns exactly `Filter`'s rows (none for an empty fetch), with all columns when rows were fetched and none otherwise. |
| `Filtering.EmptyFetchSearchRaises` | main.py:138 | With an empty table and the query `"flu"`, the block as written raises `KeyError('cleaned_title')`. `Filter` returns the empty list. |
| `Images.DecodeImage` | main.py:55-59 | Returns nothing for a NULL or empty payload, and nothing when decoding fails. For a non-empty payload that decodes, it returns exactly the decoder's bytes (possibly empty). It never raises. |
| `Images.ImageToShow` | main.py:173-176 | An image is shown iff the payload is non-empty and decodes successfully to non-empty bytes. Those bytes are what is shown. |
| `Layout.Preview` | main.py:165-186 | A NULL description counts as `""`. The "Read more" expander exists iff the description has more than 100 words, and then it holds the full description. Otherwise the description is shown verbatim. |
| `Layout.TruncatedPreviewHoldsFirstHundredWords` | main.py:179-184 | A truncated preview is the first 100 words joined by single spaces, plus `"..."`. Split again, it gives exactly those 100 words, the last one carrying the ellipsis. Without the ellipsis it gives the 100 words themselves. |
| `Layout.RenderCard` | main.py:162-186 | A card shows the active-language title. It shows an image iff the row's payload is non-empty and decodes to non-empty bytes, and then it shows those bytes. Its text is the `Preview` of the active description, so it has an expander iff that description has more than 100 words. |
| `Layout.PairsShape` | main.py:157-161 | The grid has ceil(n/2) groups. Group k starts at position 2k and holds two rows, except a last group of one when n is odd. |
| `Layout.PairsFlatten` | main.py:157-161 | Reading the grid row by row visits every row exactly once, in order. |
| `Layout.RenderResults` | main.py:153-161 | An empty result shows the warning and no cards. Otherwise the stepped loop builds exactly the consecutive pairs of the rendered cards, and flattening them gives every card once, in order. |
| `Layout.ShowResults` | main.py:134-161 | The warning appears iff no fetched row meets the criteria. Otherwise the grid is the consecutive pairs of the cards of exactly the filtered rows, in order. |
| `Tags.SortTags` | main.py:50 | `sorted(tags)` returns a list in Python's string order with the same elements, counted with multiplicity. |
| `Tags.SortedIsUnique` | main.py:50 | Two sorted lists with the same elements are equal, so the insertion sort gives the same list as Python's `sorted()`. |
| `Tags.TagOptions` | main.py:129 | The options are `"All"` followed by the tags in sorted order: one more entry than there are tags. |
| `Tags.TagNamedAllIsNotSelectable` | main.py:147-148 | If a real tag is named `"All"`, it appears twice among the options. Choosing `"All"` applies no tag filter, so its rows cannot be singled out. |

## Findings

| source | as written | input that shows it | evidently intended | confidence | as-written member | corrected member |
|---|---|---|---|---|---|---|
| main.py:37 | Built from no rows, `pd.DataFrame(rows)` has no columns. The mask lookups `filtered_df["cleaned_title"]` (main.py:138), `["malayalam_title"]` (main.py:143) and `["tag"]` (main.py:148) then raise `KeyError`. | An empty `news_articles_four` table with the search `"flu"` | An empty result, and the "No news found" warning of main.py:153-154 | high (pandas column lookup on a column-less frame); not executed | `Filtering.FilterFrame`, shown by `Filtering.EmptyFetchSearchRaises` and `Filtering.FilterFrameRaisesOnEmptyFetch` | `Filtering.Filter` (total; `Filtering.FilterIsOrderedMask` shows the empty input gives the empty result), which `Layout.ShowResults` uses |

## Left out

- Database access (`get_connection`, `fetch_news`, `fetch_unique_tags`, main.py:9-50) is external I/O. The fetched rows and the distinct tag list are inputs. The `ORDER BY date DESC LIMIT 500` and the `DISTINCT` are not modelled. For the tag list, only `sorted(...)` is modelled.
- `st.cache_data` memoization (main.py:22, 42) is framework caching, not page logic.
- The language pop-up and sidebar radio (main.py:82-108) are UI session plumbing, so the language is a two-valued input. While no language is chosen, the script stops before the rows are filtered and shown.
- Streamlit rendering (`st.subheader`, `st.caption`, `st.image`, `st.expander`, `st.markdown`) is reduced to the data each card carries. The date/tag caption of main.py:170 is display formatting and is not modelled.
- `Filtering.CellContains`: `str.contains` defaults to `regex=True`, so the query is really a regular expression. The model matches it as a literal substring. This is exact only for queries without regex metacharacters. The model also does not capture that an invalid pattern such as `"("` raises `re.error`.
- `Text.Lower`: case folding is ASCII only. Python's `re.IGNORECASE` also folds non-ASCII letters (Latin-1, Greek, Cyrillic). This differs in both languages whenever the text or the query holds a non-ASCII cased letter (a Latin-1 or Greek letter in a name or a unit, say); Malayalam letters themselves have no case.
- `Images.DecodeImage`: base64 decoding (RFC 4648, section 4, in non-validating mode) is a library call, passed in as a possibly failing function. Its internals are not re-implemented.
- Cells are typed as strings or NULL. Non-string cell values, which pandas' `str.contains` would turn into NaN (no match under `na=False`), are not modelled.
- The `image_data` column is modelled as text. A bytes payload would behave the same under the truthiness test and `b64decode`.
