/** The string operations the page relies on: Python's `str.split()` and
    `" ".join(...)`, and the case-insensitive substring test that pandas'
    `str.contains(query, case=False)` performs. */
module Text {
  import opened Seqs

  type String = seq<char>

  /** Python's `str.isspace` for one character: the separators `str.split()`
      with no argument splits on. */
  predicate IsSpace(c: char) {
    || c == ' '
    || ('\t' <= c <= '\r')
    || ('\U{1C}' <= c <= '\U{1F}')
    || c == '\U{85}' || c == '\U{A0}' || c == '\U{1680}'
    || ('\U{2000}' <= c <= '\U{200A}')
    || c == '\U{2028}' || c == '\U{2029}' || c == '\U{202F}' || c == '\U{205F}' || c == '\U{3000}'
  }

  /** A word as `str.split()` yields it: non-empty, with no whitespace. */
  predicate IsWord(w: String) {
    w != [] && forall i :: 0 <= i < |w| ==> !IsSpace(w[i])
  }

  /** Length of the leading run of non-whitespace characters. */
  function Span(s: String): (k: nat)
    ensures k <= |s|
    ensures forall i :: 0 <= i < k ==> !IsSpace(s[i])
    ensures k < |s| ==> IsSpace(s[k])
  {
    if s == [] || IsSpace(s[0]) then 0 else 1 + Span(s[1..])
  }

  /** The non-whitespace characters of `s`, in order. */
  function NonSpace(s: String): String {
    if s == [] then [] else (if IsSpace(s[0]) then [] else [s[0]]) + NonSpace(s[1..])
  }

  lemma {:induction false} NonSpaceOfWordPrefix(s: String, k: nat)
    requires k <= |s|
    requires forall i :: 0 <= i < k ==> !IsSpace(s[i])
    ensures NonSpace(s) == s[..k] + NonSpace(s[k..])
  {
    if k > 0 {
      NonSpaceOfWordPrefix(s[1..], k - 1);
      assert s[1..][k - 1..] == s[k..];
      assert s[..k] == [s[0]] + s[1..][..k - 1];
    }
  }

  /** Python's `str.split()` with no separator: the maximal runs of
      non-whitespace characters, in order; leading, trailing and repeated
      whitespace yields no empty words. */
  function Words(s: String): (ws: seq<String>)
    ensures forall i :: 0 <= i < |ws| ==> IsWord(ws[i])
    ensures Flatten(ws) == NonSpace(s)
    decreases |s|
  {
    if s == [] then []
    else if IsSpace(s[0]) then Words(s[1..])
    else
      var k := Span(s);
      NonSpaceOfWordPrefix(s, k);
      var rest := Words(s[k..]);
      assert ([s[..k]] + rest)[1..] == rest;
      [s[..k]] + rest
  }

  /** Python's `" ".join(ws)`. */
  function JoinSpace(ws: seq<String>): String {
    if ws == [] then "" else if |ws| == 1 then ws[0] else ws[0] + " " + JoinSpace(ws[1..])
  }

  /** Over a word followed by whitespace (or by nothing), the leading run is
      exactly the word. */
  lemma {:induction false} SpanOfLeadingWord(w: String, r: String)
    requires forall i :: 0 <= i < |w| ==> !IsSpace(w[i])
    requires r == [] || IsSpace(r[0])
    ensures Span(w + r) == |w|
  {
    if w != [] {
      assert (w + r)[1..] == w[1..] + r;
      SpanOfLeadingWord(w[1..], r);
    } else {
      assert w + r == r;
    }
  }

  /** A word followed by whitespace (or by nothing) splits off as the first word. */
  lemma WordsOfLeadingWord(w: String, r: String)
    requires IsWord(w)
    requires r == [] || IsSpace(r[0])
    ensures Words(w + r) == [w] + Words(r)
  {
    var s := w + r;
    SpanOfLeadingWord(w, r);
    assert s[0] == w[0];
    assert s[..|w|] == w;
    assert s[|w|..] == r;
  }

  /** The leading run of `a` is unchanged by appending text that starts
      with whitespace. */
  lemma {:induction false} SpanOfPrefix(a: String, r: String)
    requires r == [] || IsSpace(r[0])
    ensures Span(a + r) == Span(a)
  {
    if a == [] {
      assert a + r == r;
    } else if !IsSpace(a[0]) {
      assert (a + r)[1..] == a[1..] + r;
      SpanOfPrefix(a[1..], r);
    }
  }

  /** A whitespace character separates words: the words of `a + [c] + b` are
      the words of `a` followed by the words of `b`. So `str.split()` cuts at
      every whitespace character and nowhere else. */
  lemma {:induction false} WordsSplitsAtSpace(a: String, c: char, b: String)
    requires IsSpace(c)
    ensures Words(a + [c] + b) == Words(a) + Words(b)
    decreases |a|
  {
    var s := a + [c] + b;
    if a == [] {
      assert s == [c] + b;
      assert s[1..] == b;
    } else if IsSpace(a[0]) {
      assert s[1..] == a[1..] + [c] + b;
      WordsSplitsAtSpace(a[1..], c, b);
    } else {
      var r := [c] + b;
      assert s == a + r;
      SpanOfPrefix(a, r);
      var k := Span(a);
      assert s[..k] == a[..k];
      assert s[k..] == a[k..] + [c] + b;
      WordsSplitsAtSpace(a[k..], c, b);
    }
  }

  /** A single word splits into itself. */
  lemma WordsOfWord(w: String)
    requires IsWord(w)
    ensures Words(w) == [w]
  {
    WordsOfLeadingWord(w, []);
    assert w + [] == w;
  }

  /** Leading whitespace is skipped. */
  lemma WordsOfLeadingSpace(r: String)
    requires r != [] && IsSpace(r[0])
    ensures Words(r) == Words(r[1..])
  {
  }

  lemma AppendWord(w: String, t: String)
    requires IsWord(w)
    requires forall i :: 0 <= i < |t| ==> !IsSpace(t[i])
    ensures IsWord(w + t)
  {
    assert forall i :: 0 <= i < |w + t| ==> (w + t)[i] == if i < |w| then w[i] else t[i - |w|];
  }

  /** A word with non-whitespace appended splits into itself alone. */
  lemma WordsOfOneWord(w: String, t: String)
    requires IsWord(w)
    requires forall i :: 0 <= i < |t| ==> !IsSpace(t[i])
    ensures Words(w + t) == [w + t]
  {
    AppendWord(w, t);
    WordsOfLeadingWord(w + t, []);
    assert w + t + [] == w + t;
  }

  /** One step of `" ".join`: the first word, a space, the rest. */
  lemma JoinSpaceCons(ws: seq<String>)
    requires |ws| >= 2
    ensures JoinSpace(ws) == ws[0] + " " + JoinSpace(ws[1..])
  {
  }

  /** The inductive step of `WordsOfJoin`: one more word in front. */
  lemma WordsOfJoinStep(w: String, rest: seq<String>, t: String)
    requires IsWord(w) && rest != []
    requires Words(JoinSpace(rest) + t) == rest[..|rest| - 1] + [rest[|rest| - 1] + t]
    ensures Words(JoinSpace([w] + rest) + t) == [w] + rest[..|rest| - 1] + [rest[|rest| - 1] + t]
  {
    var ws := [w] + rest;
    assert ws[1..] == rest;
    var tail := JoinSpace(rest) + t;
    var spaced := " " + tail;
    JoinSpaceCons(ws);
    assert JoinSpace(ws) + t == w + spaced;
    WordsOfLeadingWord(w, spaced);
    WordsOfLeadingSpace(spaced);
    assert spaced[1..] == tail;
  }

  /** Splitting `" ".join(ws) + t` gives back the words, with `t` glued onto the
      last one; with `t == ""` this is the round trip `split(join(ws)) == ws`. */
  lemma {:induction false} WordsOfJoin(ws: seq<String>, t: String)
    requires ws != []
    requires forall i :: 0 <= i < |ws| ==> IsWord(ws[i])
    requires forall i :: 0 <= i < |t| ==> !IsSpace(t[i])
    ensures Words(JoinSpace(ws) + t) == ws[..|ws| - 1] + [ws[|ws| - 1] + t]
  {
    var w := ws[0];
    assert IsWord(w);
    if |ws| == 1 {
      WordsOfOneWord(w, t);
    } else {
      var rest := ws[1..];
      WordsOfJoin(rest, t);
      WordsOfJoinStep(w, rest, t);
      assert [w] + rest == ws;
      assert ws[..|ws| - 1] == [w] + rest[..|rest| - 1];
    }
  }

  /** ASCII lower-casing; every other character is its own fold. */
  function Lower(c: char): char {
    if 'A' <= c <= 'Z' then (c as int + 32) as char else c
  }

  function Fold(s: String): (f: String)
    ensures |f| == |s|
    ensures forall i :: 0 <= i < |s| ==> f[i] == Lower(s[i])
  {
    seq(|s|, i requires 0 <= i < |s| => Lower(s[i]))
  }

  /** Literal substring test, scanning start positions left to right. */
  function Contains(hay: String, needle: String): bool
    decreases |hay|
  {
    needle <= hay || (hay != [] && Contains(hay[1..], needle))
  }

  /** `needle` occurs in `hay` starting at position `i`. */
  predicate OccursAt(hay: String, needle: String, i: int) {
    0 <= i <= |hay| - |needle| && hay[i..i + |needle|] == needle
  }

  /** An occurrence at any position is found by the scan. */
  lemma {:induction false} ContainsAt(hay: String, needle: String, i: int)
    requires OccursAt(hay, needle, i)
    ensures Contains(hay, needle)
    decreases i
  {
    if i == 0 {
      assert hay[..|needle|] == needle;
    } else {
      assert hay[1..][i - 1..i - 1 + |needle|] == hay[i..i + |needle|];
      ContainsAt(hay[1..], needle, i - 1);
    }
  }

  /** What the scan finds is an occurrence at some position. */
  lemma {:induction false} ContainsOccurs(hay: String, needle: String) returns (i: int)
    requires Contains(hay, needle)
    ensures OccursAt(hay, needle, i)
    decreases |hay|
  {
    if needle <= hay {
      i := 0;
    } else {
      var j := ContainsOccurs(hay[1..], needle);
      assert hay[1..][j..j + |needle|] == hay[j + 1..j + 1 + |needle|];
      i := j + 1;
    }
  }

  /** `Contains` holds exactly when `needle` occurs at some position of `hay`. */
  lemma ContainsIff(hay: String, needle: String)
    ensures Contains(hay, needle) <==> exists i :: OccursAt(hay, needle, i)
  {
    if Contains(hay, needle) {
      var i := ContainsOccurs(hay, needle);
    }
    forall i | OccursAt(hay, needle, i) ensures Contains(hay, needle) {
      ContainsAt(hay, needle, i);
    }
  }

  /** `str.contains(query, case=False)` on one value, read as a literal text. */
  predicate ContainsIgnoreCase(hay: String, query: String) {
    Contains(Fold(hay), Fold(query))
  }

  /** A query in lower case finds its capitalised occurrence in a headline. */
  lemma LowerQueryFindsCapitalised()
    ensures ContainsIgnoreCase("Flu Outbreak", "flu")
  {
    var f := Fold("Flu Outbreak");
    assert f[0] == 'f' && f[1] == 'l' && f[2] == 'u';
    assert Fold("flu") == "flu";
    assert "flu" <= f;
  }

  /** Two characters that are equal, or an ASCII capital and its small letter. */
  predicate SameCharUpToAsciiCase(c: char, d: char) {
    || c == d
    || ('A' <= c <= 'Z' && d as int == c as int + 32)
    || ('A' <= d <= 'Z' && c as int == d as int + 32)
  }

  /** Two strings that differ at most in the ASCII case of their letters. */
  predicate SameUpToAsciiCase(a: String, b: String) {
    |a| == |b| && forall i :: 0 <= i < |a| ==> SameCharUpToAsciiCase(a[i], b[i])
  }

  /** The match ignores case on both sides: changing the case of any ASCII letter
      of the text or of the query does not change the answer. */
  lemma IgnoresCase(hay: String, hay2: String, query: String, query2: String)
    requires SameUpToAsciiCase(hay, hay2) && SameUpToAsciiCase(query, query2)
    ensures ContainsIgnoreCase(hay, query) == ContainsIgnoreCase(hay2, query2)
  {
    SameCaseSameFold(hay, hay2);
    SameCaseSameFold(query, query2);
  }

  lemma SameCaseSameFold(a: String, b: String)
    requires SameUpToAsciiCase(a, b)
    ensures Fold(a) == Fold(b)
  {
    forall i | 0 <= i < |a| ensures Lower(a[i]) == Lower(b[i]) {
      assert SameCharUpToAsciiCase(a[i], b[i]);
    }
  }
}
