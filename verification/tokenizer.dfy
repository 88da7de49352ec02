/** The three `tokenize` overloads. Each runs the same two-pointer scan over
    `str`: `lastPos` is the first non-delimiter of the next token (or `NPOS`)
    and `pos` the first delimiter at or after it (or `NPOS`); each maximal
    run `str.substr(lastPos, pos - lastPos)` is absorbed into the
    caller-owned collector. The overloads differ only in how a token is
    absorbed. */
module Tokenizer {
  import opened StdString
  import opened TokenSpec
  import opened Collectors

  /** The part of `s` the scan has still to look at, from `p` on; nothing
      once `p` is at or past the end (in particular when `p` is `NPOS`). */
  function Rest<C>(s: seq<C>, p: SizeT): seq<C>
  {
    if p < |s| then s[p..] else []
  }

  /** Skipping delimiters from `p` with `find_first_not_of` loses no token. */
  lemma {:induction false} SkipDelimiters<C>(s: seq<C>, delimiters: seq<C>, p: SizeT)
    requires |s| < NPOS
    ensures Tokens(Rest(s, p), delimiters) == Tokens(Rest(s, FindFirstNotOf(s, delimiters, p)), delimiters)
    decreases |s| - p
  {
    if p < |s| && s[p] in delimiters {
      assert Rest(s, p) == [] + [s[p]] + Rest(s, p + 1);
      TokensSplit([], s[p], Rest(s, p + 1), delimiters);
      TokensOfDelimiterFree([], delimiters);
      SkipDelimiters(s, delimiters, p + 1);
    }
  }

  /** The last token: from a non-delimiter with no delimiter after it, the
      rest of the text is one token. */
  lemma TokenAtEnd<C>(s: seq<C>, delimiters: seq<C>, lastPos: nat)
    requires lastPos < |s|
    requires DelimiterFree(s[lastPos..], delimiters)
    ensures Tokens(s[lastPos..], delimiters) == [s[lastPos..]]
  {
    TokensOfDelimiterFree(s[lastPos..], delimiters);
  }

  /** A token followed by a delimiter at `pos`: the tokens after it are those
      from `pos` on. */
  lemma TokenBeforeDelimiter<C>(s: seq<C>, delimiters: seq<C>, lastPos: nat, pos: nat)
    requires lastPos < pos < |s| && s[pos] in delimiters
    requires DelimiterFree(s[lastPos..pos], delimiters)
    ensures Tokens(s[lastPos..], delimiters) == [s[lastPos..pos]] + Tokens(s[pos..], delimiters)
  {
    var u := s[lastPos..];
    var k := pos - lastPos;
    assert u[..k] == s[lastPos..pos];
    assert u[k + 1..] == s[pos + 1..];
    TokensSplitAt(u, k, delimiters);
    TokensOfDelimiterFree(s[lastPos..pos], delimiters);
    var v := s[pos..];
    assert v[..0] == [];
    assert v[1..] == s[pos + 1..];
    TokensSplitAt(v, 0, delimiters);
    TokensOfDelimiterFree([], delimiters);
  }

  /** One iteration of the scan: when `lastPos` is a non-delimiter and `pos`
      the next delimiter after it (or `NPOS`), the substring the loop emits is
      the first token of the rest, and the tokens after it are those from
      `pos` on. `pos` always lies beyond `lastPos`, so `pos - lastPos` never
      wraps around; with `pos == NPOS` it is a count past the end of `s`,
      which `substr` clamps. */
  lemma TakeToken<C>(s: seq<C>, delimiters: seq<C>, lastPos: SizeT, pos: SizeT)
    requires |s| < NPOS
    requires lastPos < |s| && s[lastPos] !in delimiters
    requires pos == FindFirstOf(s, delimiters, lastPos)
    ensures lastPos < pos && SizeSub(pos, lastPos) == pos - lastPos
    ensures pos == NPOS ==> SizeSub(pos, lastPos) > |s| - lastPos
    ensures Tokens(Rest(s, lastPos), delimiters)
         == [Substr(s, lastPos, SizeSub(pos, lastPos))] + Tokens(Rest(s, pos), delimiters)
  {
    var end := if pos == NPOS then |s| else pos;
    assert DelimiterFree(s[lastPos..end], delimiters) by {
      forall k | 0 <= k < end - lastPos ensures s[lastPos..end][k] !in delimiters {
        assert s[lastPos..end][k] == s[lastPos + k];
      }
    }
    if pos == NPOS {
      assert Substr(s, lastPos, SizeSub(pos, lastPos)) == s[lastPos..];
      TokenAtEnd(s, delimiters, lastPos);
    } else {
      assert Substr(s, lastPos, SizeSub(pos, lastPos)) == s[lastPos..pos];
      TokenBeforeDelimiter(s, delimiters, lastPos, pos);
    }
  }

  /** A whole iteration: the emitted substring followed by the tokens from
      the next `lastPos` on are the tokens from the current `lastPos` on, and
      the next `lastPos` lies further right (or is `NPOS`). */
  lemma ScanStep<C>(s: seq<C>, delimiters: seq<C>, lastPos: SizeT, pos: SizeT)
    requires |s| < NPOS
    requires lastPos < |s| && s[lastPos] !in delimiters
    requires pos == FindFirstOf(s, delimiters, lastPos)
    ensures var next := FindFirstNotOf(s, delimiters, pos);
      && lastPos < next
      && Tokens(Rest(s, lastPos), delimiters)
         == [Substr(s, lastPos, SizeSub(pos, lastPos))] + Tokens(Rest(s, next), delimiters)
  {
    TakeToken(s, delimiters, lastPos, pos);
    SkipDelimiters(s, delimiters, pos);
  }

  /** The loop guard `pos != npos || last_pos != npos` is `last_pos != npos`:
      searching from `npos` finds nothing. */
  lemma GuardIsLastPos<C>(s: seq<C>, delimiters: seq<C>, lastPos: SizeT)
    requires |s| < NPOS
    ensures (FindFirstOf(s, delimiters, lastPos) != NPOS || lastPos != NPOS) <==> lastPos != NPOS
  {
  }

  /** With an empty `str`, or one made only of delimiters, the first
      `find_first_not_of` already gives `npos` and the loop guard fails at
      once; otherwise it gives a position and the loop runs. */
  lemma DelimitersOnlySkipsLoop<C>(s: seq<C>, delimiters: seq<C>)
    requires |s| < NPOS
    ensures var lastPos := FindFirstNotOf(s, delimiters, 0);
      var pos := FindFirstOf(s, delimiters, lastPos);
      !(pos != NPOS || lastPos != NPOS) <==> forall i :: 0 <= i < |s| ==> s[i] in delimiters
  {
    var lastPos := FindFirstNotOf(s, delimiters, 0);
    GuardIsLastPos(s, delimiters, lastPos);
  }

  /** Appending the first of the pending tokens leaves the concatenation of
      the vector and the pending tokens as it was. */
  lemma AppendFirst<T>(elems: seq<T>, x: T, xs: seq<T>)
    ensures (elems + [x]) + xs == elems + ([x] + xs)
  {
  }

  /** Inserting the first of the pending tokens leaves the union of the set
      and the pending tokens as it was. */
  lemma InsertFirst<T>(elems: set<T>, x: T, xs: seq<T>)
    ensures (elems + {x}) + (set t | t in xs) == elems + (set t | t in [x] + xs)
  {
    assert (set t | t in [x] + xs) == {x} + set t | t in xs;
  }

  /** `tokenize(str, delimiters, std::vector<T>&)`: appends the tokens of
      `str`, in order, after the vector's existing elements. */
  method TokenizeVector<C(==)>(str: seq<C>, delimiters: seq<C>, tokens: TokenVector<C>)
    requires |str| < NPOS
    modifies tokens
    ensures tokens.elems == old(tokens.elems) + Tokens(str, delimiters)
  {
    var lastPos: SizeT := FindFirstNotOf(str, delimiters, 0);
    var pos: SizeT := FindFirstOf(str, delimiters, lastPos);
    ghost var all := Tokens(str, delimiters);
    ghost var start := tokens.elems;
    SkipDelimiters(str, delimiters, 0);
    while pos != NPOS || lastPos != NPOS
      invariant lastPos == NPOS || (lastPos < |str| && str[lastPos] !in delimiters)
      invariant pos == FindFirstOf(str, delimiters, lastPos)
      invariant tokens.elems + Tokens(Rest(str, lastPos), delimiters) == start + all
      decreases NPOS - lastPos
    {
      var token := Substr(str, lastPos, SizeSub(pos, lastPos));
      ScanStep(str, delimiters, lastPos, pos);
      AppendFirst(tokens.elems, token, Tokens(Rest(str, FindFirstNotOf(str, delimiters, pos)), delimiters));
      tokens.EmplaceBack(token);
      lastPos := FindFirstNotOf(str, delimiters, pos);
      pos := FindFirstOf(str, delimiters, lastPos);
    }
    TokensOfDelimiterFree([], delimiters);
  }

  /** `tokenize(str, delimiters, std::unordered_set<T>&)`: inserts every
      token of `str`; tokens already present, and repeated ones, leave the
      set as it is. */
  method TokenizeSet<C(==)>(str: seq<C>, delimiters: seq<C>, tokens: TokenSet<C>)
    requires |str| < NPOS
    modifies tokens
    ensures tokens.elems == old(tokens.elems) + set t | t in Tokens(str, delimiters)
  {
    var lastPos: SizeT := FindFirstNotOf(str, delimiters, 0);
    var pos: SizeT := FindFirstOf(str, delimiters, lastPos);
    ghost var all := set t | t in Tokens(str, delimiters);
    ghost var start := tokens.elems;
    SkipDelimiters(str, delimiters, 0);
    while pos != NPOS || lastPos != NPOS
      invariant lastPos == NPOS || (lastPos < |str| && str[lastPos] !in delimiters)
      invariant pos == FindFirstOf(str, delimiters, lastPos)
      invariant tokens.elems + (set t | t in Tokens(Rest(str, lastPos), delimiters)) == start + all
      decreases NPOS - lastPos
    {
      var token := Substr(str, lastPos, SizeSub(pos, lastPos));
      ScanStep(str, delimiters, lastPos, pos);
      InsertFirst(tokens.elems, token, Tokens(Rest(str, FindFirstNotOf(str, delimiters, pos)), delimiters));
      tokens.Emplace(token);
      lastPos := FindFirstNotOf(str, delimiters, pos);
      pos := FindFirstOf(str, delimiters, lastPos);
    }
    TokensOfDelimiterFree([], delimiters);
  }

  /** `tokenize(str, delimiters, std::unordered_map<T, size_t>&)`: for every
      token of `str`, in order, `tokens[token]++`. */
  method TokenizeMap<C(==)>(str: seq<C>, delimiters: seq<C>, tokens: TokenCounter<C>)
    requires |str| < NPOS
    modifies tokens
    ensures tokens.counts == Tally(old(tokens.counts), Tokens(str, delimiters))
  {
    var lastPos: SizeT := FindFirstNotOf(str, delimiters, 0);
    var pos: SizeT := FindFirstOf(str, delimiters, lastPos);
    ghost var all := Tally(tokens.counts, Tokens(str, delimiters));
    SkipDelimiters(str, delimiters, 0);
    while pos != NPOS || lastPos != NPOS
      invariant lastPos == NPOS || (lastPos < |str| && str[lastPos] !in delimiters)
      invariant pos == FindFirstOf(str, delimiters, lastPos)
      invariant Tally(tokens.counts, Tokens(Rest(str, lastPos), delimiters)) == all
      decreases NPOS - lastPos
    {
      var token := Substr(str, lastPos, SizeSub(pos, lastPos));
      ScanStep(str, delimiters, lastPos, pos);
      tokens.Increment(token);
      lastPos := FindFirstNotOf(str, delimiters, pos);
      pos := FindFirstOf(str, delimiters, lastPos);
    }
    TokensOfDelimiterFree([], delimiters);
  }
}
