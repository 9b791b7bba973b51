/** Generic sequence operations shared by the filter engine and the layout. */
module Seqs {

  function Min(a: int, b: int): int {
    if a <= b then a else b
  }

  /** Boolean-mask selection: the elements of `s` for which `keep` holds, in
      their original order. Defined from the back so that the indices of a
      prefix do not move. */
  function Select<T>(s: seq<T>, keep: T -> bool): (r: seq<T>)
    ensures |r| <= |s|
  {
    if s == [] then []
    else Select(s[..|s| - 1], keep) + (if keep(s[|s| - 1]) then [s[|s| - 1]] else [])
  }

  /** The positions in `s` that `keep` selects: the index labels a boolean-mask
      indexing keeps. */
  function SelectedIndices<T>(s: seq<T>, keep: T -> bool): seq<nat>
  {
    if s == [] then []
    else SelectedIndices(s[..|s| - 1], keep) + (if keep(s[|s| - 1]) then [|s| - 1] else [])
  }

  /** `idx` lists positions of `s`, strictly increasing. */
  predicate IncreasingIndices(idx: seq<nat>, n: nat) {
    && (forall k :: 0 <= k < |idx| ==> idx[k] < n)
    && (forall k, l :: 0 <= k < l < |idx| ==> idx[k] < idx[l])
  }

  /** The selected positions are increasing positions of `s`, and a position
      is selected exactly when its element passes `keep`. */
  lemma {:induction false} SelectedIndicesExact<T>(s: seq<T>, keep: T -> bool)
    ensures IncreasingIndices(SelectedIndices(s, keep), |s|)
    ensures forall i :: 0 <= i < |s| ==> (i in SelectedIndices(s, keep) <==> keep(s[i]))
  {
    if s != [] {
      var n := |s| - 1;
      SelectedIndicesExact(s[..n], keep);
      var idx' := SelectedIndices(s[..n], keep);
      assert n !in idx';
      assert forall i :: 0 <= i < n ==> s[..n][i] == s[i];
    }
  }

  /** The k-th selected element is the element at the k-th selected position. */
  lemma {:induction false} SelectAtIndices<T>(s: seq<T>, keep: T -> bool)
    ensures |Select(s, keep)| == |SelectedIndices(s, keep)|
    ensures forall k :: 0 <= k < |SelectedIndices(s, keep)| ==>
              SelectedIndices(s, keep)[k] < |s| && Select(s, keep)[k] == s[SelectedIndices(s, keep)[k]]
  {
    if s != [] {
      var n := |s| - 1;
      var p := s[..n];
      SelectAtIndices(p, keep);
      var idx := SelectedIndices(p, keep);
      if keep(s[n]) {
        assert Select(s, keep) == Select(p, keep) + [s[n]];
        assert SelectedIndices(s, keep) == idx + [n];
      } else {
        assert Select(s, keep) == Select(p, keep);
        assert SelectedIndices(s, keep) == idx;
      }
      assert forall k :: 0 <= k < |idx| ==> p[idx[k]] == s[idx[k]];
    }
  }

  /** Selection is the order-preserving subsequence at exactly the positions
      whose element passes `keep`. */
  lemma SelectIsMask<T>(s: seq<T>, keep: T -> bool)
    ensures var idx := SelectedIndices(s, keep);
            && |Select(s, keep)| == |idx|
            && IncreasingIndices(idx, |s|)
            && (forall k :: 0 <= k < |idx| ==> Select(s, keep)[k] == s[idx[k]])
            && (forall i :: 0 <= i < |s| ==> (i in idx <==> keep(s[i])))
  {
    SelectedIndicesExact(s, keep);
    SelectAtIndices(s, keep);
  }

  /** An element is selected exactly when it occurs in `s` and passes `keep`. */
  lemma {:induction false} SelectMembership<T>(s: seq<T>, keep: T -> bool, x: T)
    ensures x in Select(s, keep) <==> x in s && keep(x)
  {
    if s != [] {
      var n := |s| - 1;
      SelectMembership(s[..n], keep, x);
      assert s == s[..n] + [s[n]];
    }
  }

  /** Selecting with a predicate that holds everywhere keeps everything. */
  lemma {:induction false} SelectAll<T>(s: seq<T>, keep: T -> bool)
    requires forall x :: keep(x)
    ensures Select(s, keep) == s
  {
    if s != [] {
      SelectAll(s[..|s| - 1], keep);
    }
  }

  /** Selection depends only on the values of `keep`, not on how it is written. */
  lemma {:induction false} SelectExt<T>(s: seq<T>, p: T -> bool, q: T -> bool)
    requires forall x :: p(x) == q(x)
    ensures Select(s, p) == Select(s, q)
  {
    if s != [] {
      SelectExt(s[..|s| - 1], p, q);
    }
  }

  /** Two masks applied one after the other are one mask with their conjunction. */
  lemma {:induction false} SelectCompose<T>(s: seq<T>, p: T -> bool, q: T -> bool, both: T -> bool)
    requires forall x :: both(x) == (p(x) && q(x))
    ensures Select(Select(s, p), q) == Select(s, both)
  {
    if s != [] {
      var n := |s| - 1;
      SelectCompose(s[..n], p, q, both);
      var sp := Select(s[..n], p);
      if p(s[n]) {
        assert Select(s, p) == sp + [s[n]];
        assert (sp + [s[n]])[..|sp|] == sp;
      } else {
        assert Select(s, p) == sp;
      }
    }
  }

  /** Masks that agree position by position on two sequences of the same length
      select the same positions. */
  lemma {:induction false} SelectedIndicesAgree<T, U>(s: seq<T>, p: T -> bool, t: seq<U>, q: U -> bool)
    requires |s| == |t|
    requires forall i :: 0 <= i < |s| ==> p(s[i]) == q(t[i])
    ensures SelectedIndices(s, p) == SelectedIndices(t, q)
  {
    if s != [] {
      var n := |s| - 1;
      SelectedIndicesAgree(s[..n], p, t[..n], q);
    }
  }

  /** Concatenation of a sequence of sequences. */
  function Flatten<T>(ss: seq<seq<T>>): seq<T> {
    if ss == [] then [] else ss[0] + Flatten(ss[1..])
  }
}
