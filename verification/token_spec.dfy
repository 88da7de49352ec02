/** What the tokenizer computes, stated without reference to its scan: the
    tokens of a text are the non-empty pieces left when the text is cut at
    every delimiter, i.e. its maximal runs of non-delimiter units, in order.
    A unit is a delimiter when it occurs anywhere in `delimiters`. */
module TokenSpec {

  /** No unit of `w` is a delimiter. */
  predicate DelimiterFree<C(==)>(w: seq<C>, delimiters: seq<C>)
  {
    forall i :: 0 <= i < |w| ==> w[i] !in delimiters
  }

  /** The pieces of `s` between delimiters, empty pieces included: a text
      with k delimiters has k + 1 fields. */
  function Fields<C(==)>(s: seq<C>, delimiters: seq<C>): (r: seq<seq<C>>)
    ensures |r| >= 1
    decreases |s|
  {
    if s == [] then [[]] else PrependUnit(s[0], Fields(s[1..], delimiters), delimiters)
  }

  /** The fields of `[c] + s` from the fields `f` of `s`: a delimiter opens a
      new, empty first field; any other unit joins the first field. */
  function PrependUnit<C(==)>(c: C, f: seq<seq<C>>, delimiters: seq<C>): (r: seq<seq<C>>)
    requires |f| >= 1
    ensures |r| >= 1
  {
    if c in delimiters then [[]] + f else [[c] + f[0]] + f[1..]
  }

  /** The non-empty elements of `xs`, in order. */
  function NonEmpty<C>(xs: seq<seq<C>>): (r: seq<seq<C>>)
    ensures |r| <= |xs|
  {
    if xs == [] then []
    else if |xs[0]| == 0 then NonEmpty(xs[1..])
    else [xs[0]] + NonEmpty(xs[1..])
  }

  /** The tokens of `s`: its non-empty fields. */
  function Tokens<C(==)>(s: seq<C>, delimiters: seq<C>): (r: seq<seq<C>>)
  {
    NonEmpty(Fields(s, delimiters))
  }

  /** The concatenation of a sequence of texts. */
  function Flatten<C>(xs: seq<seq<C>>): seq<C>
  {
    if xs == [] then [] else xs[0] + Flatten(xs[1..])
  }

  /** `s` with every delimiter unit removed. */
  function Filter<C(==)>(s: seq<C>, delimiters: seq<C>): seq<C>
  {
    if s == [] then []
    else (if s[0] in delimiters then [] else [s[0]]) + Filter(s[1..], delimiters)
  }

  /** The number of indices i >= 1 where a delimiter at i - 1 is followed by
      a non-delimiter at i. */
  function Boundaries<C(==)>(s: seq<C>, delimiters: seq<C>): nat
  {
    if |s| < 2 then 0
    else (if s[0] in delimiters && s[1] !in delimiters then 1 else 0) + Boundaries(s[1..], delimiters)
  }

  /** The number of maximal runs of non-delimiters in `s`: a run starts at
      index 0 when `s[0]` is not a delimiter, and after every boundary. */
  function RunCount<C(==)>(s: seq<C>, delimiters: seq<C>): nat
  {
    (if s != [] && s[0] !in delimiters then 1 else 0) + Boundaries(s, delimiters)
  }

  /** The texts of `ts` joined with one `sep` unit between neighbours. */
  function Join<C>(ts: seq<seq<C>>, sep: C): seq<C>
  {
    if ts == [] then []
    else if |ts| == 1 then ts[0]
    else ts[0] + [sep] + Join(ts[1..], sep)
  }

  // ---------------------------------------------------------------------
  // Fields

  /** Prepending a unit only touches the first field. */
  lemma PrependUnitAppend<C>(c: C, fa: seq<seq<C>>, fb: seq<seq<C>>, delimiters: seq<C>)
    requires |fa| >= 1
    ensures PrependUnit(c, fa + fb, delimiters) == PrependUnit(c, fa, delimiters) + fb
  {
    assert (fa + fb)[0] == fa[0];
    assert (fa + fb)[1..] == fa[1..] + fb;
  }

  /** Cutting at a delimiter at index `p` splits the fields in two. */
  lemma {:induction false} FieldsSplit<C>(s: seq<C>, p: nat, delimiters: seq<C>)
    requires p < |s| && s[p] in delimiters
    ensures Fields(s, delimiters) == Fields(s[..p], delimiters) + Fields(s[p + 1..], delimiters)
    decreases p
  {
    var fb := Fields(s[p + 1..], delimiters);
    if p == 0 {
      assert s[..p] == [];
    } else {
      var r := s[1..];
      var fa := Fields(r[..p - 1], delimiters);
      FieldsSplit(r, p - 1, delimiters);
      assert r[p..] == s[p + 1..];
      assert s[..p][1..] == r[..p - 1];
      assert Fields(s[..p], delimiters) == PrependUnit(s[0], fa, delimiters);
      PrependUnitAppend(s[0], fa, fb, delimiters);
    }
  }

  /** A text without delimiters is its own single field. */
  lemma {:induction false} FieldsOfDelimiterFree<C>(w: seq<C>, delimiters: seq<C>)
    requires DelimiterFree(w, delimiters)
    ensures Fields(w, delimiters) == [w]
    decreases |w|
  {
    if w != [] {
      FieldsOfDelimiterFree(w[1..], delimiters);
      assert [w[0]] + w[1..] == w;
    }
  }

  /** Every field is free of delimiters. */
  lemma {:induction false} FieldsDelimiterFree<C>(s: seq<C>, delimiters: seq<C>)
    ensures forall i :: 0 <= i < |Fields(s, delimiters)| ==> DelimiterFree(Fields(s, delimiters)[i], delimiters)
    decreases |s|
  {
    if s != [] {
      var f := Fields(s[1..], delimiters);
      FieldsDelimiterFree(s[1..], delimiters);
      if s[0] !in delimiters {
        var head := [s[0]] + f[0];
        assert DelimiterFree(f[0], delimiters);
        assert forall k :: 1 <= k < |head| ==> head[k] == f[0][k - 1];
      }
    }
  }

  // ---------------------------------------------------------------------
  // NonEmpty and Flatten

  /** `NonEmpty` keeps only non-empty elements of `xs`. */
  lemma {:induction false} NonEmptyElements<C>(xs: seq<seq<C>>)
    ensures forall i :: 0 <= i < |NonEmpty(xs)| ==> |NonEmpty(xs)[i]| > 0 && NonEmpty(xs)[i] in xs
  {
    if xs != [] {
      NonEmptyElements(xs[1..]);
      var r := NonEmpty(xs[1..]);
      assert forall i :: 0 <= i < |r| ==> r[i] in xs by {
        forall i | 0 <= i < |r| ensures r[i] in xs {
          var j :| 0 <= j < |xs[1..]| && xs[1..][j] == r[i];
          assert xs[j + 1] == r[i];
        }
      }
    }
  }

  lemma {:induction false} NonEmptyAppend<C>(xs: seq<seq<C>>, ys: seq<seq<C>>)
    ensures NonEmpty(xs + ys) == NonEmpty(xs) + NonEmpty(ys)
    decreases |xs|
  {
    if xs == [] {
      assert xs + ys == ys;
    } else {
      assert (xs + ys)[0] == xs[0];
      assert (xs + ys)[1..] == xs[1..] + ys;
      NonEmptyAppend(xs[1..], ys);
    }
  }

  lemma {:induction false} FlattenNonEmpty<C>(xs: seq<seq<C>>)
    ensures Flatten(NonEmpty(xs)) == Flatten(xs)
  {
    if xs != [] {
      FlattenNonEmpty(xs[1..]);
      if |xs[0]| == 0 {
        assert xs[0] + Flatten(xs[1..]) == Flatten(xs[1..]);
      } else {
        assert ([xs[0]] + NonEmpty(xs[1..]))[1..] == NonEmpty(xs[1..]);
      }
    }
  }

  lemma {:induction false} FlattenFields<C>(s: seq<C>, delimiters: seq<C>)
    ensures Flatten(Fields(s, delimiters)) == Filter(s, delimiters)
    decreases |s|
  {
    if s != [] {
      var rest := Fields(s[1..], delimiters);
      FlattenFields(s[1..], delimiters);
      if s[0] in delimiters {
        assert ([[]] + rest)[1..] == rest;
      } else {
        assert rest == [rest[0]] + rest[1..];
        assert Flatten(rest) == rest[0] + Flatten(rest[1..]);
        assert ([[s[0]] + rest[0]] + rest[1..])[1..] == rest[1..];
      }
    }
  }

  // ---------------------------------------------------------------------
  // Tokens: the characterisation by three equations

  /** Cutting at a delimiter: the tokens of `a` followed by those of `b`. */
  lemma TokensSplit<C>(a: seq<C>, x: C, b: seq<C>, delimiters: seq<C>)
    requires x in delimiters
    ensures Tokens(a + [x] + b, delimiters) == Tokens(a, delimiters) + Tokens(b, delimiters)
  {
    FieldsSplit(a + [x] + b, |a|, delimiters);
    assert (a + [x] + b)[..|a|] == a && (a + [x] + b)[|a| + 1..] == b;
    NonEmptyAppend(Fields(a, delimiters), Fields(b, delimiters));
  }

  /** The same cut, at index `p` of `s`. */
  lemma TokensSplitAt<C>(s: seq<C>, p: nat, delimiters: seq<C>)
    requires p < |s| && s[p] in delimiters
    ensures Tokens(s, delimiters) == Tokens(s[..p], delimiters) + Tokens(s[p + 1..], delimiters)
  {
    assert s == s[..p] + [s[p]] + s[p + 1..];
    TokensSplit(s[..p], s[p], s[p + 1..], delimiters);
  }

  /** A delimiter-free text is one token, or none when it is empty. */
  lemma TokensOfDelimiterFree<C>(w: seq<C>, delimiters: seq<C>)
    requires DelimiterFree(w, delimiters)
    ensures Tokens(w, delimiters) == if w == [] then [] else [w]
  {
    FieldsOfDelimiterFree(w, delimiters);
    assert [w][1..] == [];
  }

  /** An empty text, or one made only of delimiters, has no tokens. */
  lemma {:induction false} TokensOfDelimitersOnly<C>(s: seq<C>, delimiters: seq<C>)
    requires forall i :: 0 <= i < |s| ==> s[i] in delimiters
    ensures Tokens(s, delimiters) == []
    decreases |s|
  {
    if s != [] {
      assert s == [] + [s[0]] + s[1..];
      TokensSplit([], s[0], s[1..], delimiters);
      TokensOfDelimitersOnly(s[1..], delimiters);
      TokensOfDelimiterFree([], delimiters);
    }
  }

  /** With no delimiters at all, a non-empty text is a single token. */
  lemma TokensWithoutDelimiters<C>(s: seq<C>)
    requires s != []
    ensures Tokens(s, []) == [s]
  {
    TokensOfDelimiterFree(s, []);
  }

  // ---------------------------------------------------------------------
  // Further properties of Tokens

  /** The tokens, concatenated, are exactly the non-delimiter units of `s`
      in order: nothing is lost, duplicated or reordered. */
  lemma TokensCover<C>(s: seq<C>, delimiters: seq<C>)
    ensures Flatten(Tokens(s, delimiters)) == Filter(s, delimiters)
  {
    FlattenNonEmpty(Fields(s, delimiters));
    FlattenFields(s, delimiters);
  }

  /** There is one token per maximal run of non-delimiters. */
  lemma {:induction false} TokenCountIsRunCount<C>(s: seq<C>, delimiters: seq<C>)
    ensures |Tokens(s, delimiters)| == RunCount(s, delimiters)
    decreases |s|
  {
    if s != [] {
      var r := s[1..];
      var f := Fields(r, delimiters);
      TokenCountIsRunCount(r, delimiters);
      assert |f[0]| == 0 <==> r == [] || r[0] in delimiters;
      if s[0] in delimiters {
        assert ([[]] + f)[1..] == f;
      } else {
        assert ([[s[0]] + f[0]] + f[1..])[1..] == f[1..];
        assert f == [f[0]] + f[1..];
      }
    }
  }

  /** Every token is non-empty and contains no delimiter. */
  lemma TokensWellFormed<C>(s: seq<C>, delimiters: seq<C>)
    ensures forall i :: 0 <= i < |Tokens(s, delimiters)| ==>
      |Tokens(s, delimiters)[i]| > 0 && DelimiterFree(Tokens(s, delimiters)[i], delimiters)
  {
    FieldsDelimiterFree(s, delimiters);
    NonEmptyElements(Fields(s, delimiters));
  }

  /** A text that ends in a non-delimiter has a last token reaching to its
      end. */
  lemma {:induction false} LastTokenReachesEnd<C>(s: seq<C>, delimiters: seq<C>)
    requires s != [] && s[|s| - 1] !in delimiters
    ensures var t := Tokens(s, delimiters);
      t != [] && |t[|t| - 1]| <= |s| && t[|t| - 1] == s[|s| - |t[|t| - 1]|..]
    decreases |s|
  {
    if DelimiterFree(s, delimiters) {
      TokensOfDelimiterFree(s, delimiters);
    } else {
      var p :| 0 <= p < |s| && s[p] in delimiters;
      assert p < |s| - 1;
      var tail := s[p + 1..];
      assert tail != [] && tail[|tail| - 1] == s[|s| - 1];
      LastTokenReachesEnd(tail, delimiters);
      var t := Tokens(tail, delimiters);
      var last := t[|t| - 1];
      TokensSplitAt(s, p, delimiters);
      LastOfAppend(Tokens(s[..p], delimiters), t);
      SuffixOfTail(s, p + 1, |last|);
    }
  }

  /** The last element of `a + b` is that of `b`. */
  lemma LastOfAppend<T>(a: seq<T>, b: seq<T>)
    requires b != []
    ensures (a + b)[|a + b| - 1] == b[|b| - 1]
  {
  }

  /** A suffix of `s[q..]` is a suffix of `s`. */
  lemma SuffixOfTail<T>(s: seq<T>, q: nat, n: nat)
    requires q <= |s| && n <= |s| - q
    ensures s[q..][|s| - q - n..] == s[|s| - n..]
  {
  }

  /** Joining delimiter-free, non-empty texts with a delimiter and tokenizing
      gives the texts back. */
  lemma {:induction false} TokensOfJoin<C>(ts: seq<seq<C>>, sep: C, delimiters: seq<C>)
    requires sep in delimiters
    requires forall i :: 0 <= i < |ts| ==> |ts[i]| > 0 && DelimiterFree(ts[i], delimiters)
    ensures Tokens(Join(ts, sep), delimiters) == ts
  {
    if ts == [] {
      TokensOfDelimiterFree([], delimiters);
    } else if |ts| == 1 {
      TokensOfDelimiterFree(ts[0], delimiters);
    } else {
      TokensSplit(ts[0], sep, Join(ts[1..], sep), delimiters);
      TokensOfDelimiterFree(ts[0], delimiters);
      TokensOfJoin(ts[1..], sep, delimiters);
      assert ts == [ts[0]] + ts[1..];
    }
  }

  /** Re-tokenizing the tokens joined by any delimiter reproduces them. */
  lemma RetokenizeJoined<C>(s: seq<C>, sep: C, delimiters: seq<C>)
    requires sep in delimiters
    ensures Tokens(Join(Tokens(s, delimiters), sep), delimiters) == Tokens(s, delimiters)
  {
    TokensWellFormed(s, delimiters);
    TokensOfJoin(Tokens(s, delimiters), sep, delimiters);
  }
}
