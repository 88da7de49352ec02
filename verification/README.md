# tokenizepp20 in Dafny

A model of the header-only C++20 tokenizer `tokenizepp20.h`. Its three
`tokenize(str, delimiters, tokens)` overloads cut a string into tokens:
the maximal runs of characters that do not occur in `delimiters`. Each token
goes into a caller-owned collector:

- the `std::vector<T>` overload appends every token, in order;
- the `std::unordered_set<T>` overload inserts every token;
- the `std::unordered_map<T, size_t>` overload does `tokens[token]++`.

All three run the same two-pointer scan. `find_first_not_of` moves
`last_pos` past delimiters. `find_first_of` finds the delimiter `pos` that
ends the token. `str.substr(last_pos, pos - last_pos)` is the token.

The project has four modules:

- `StdString` (`std_string.dfy`) holds the parts of `std::basic_string` the
  scan uses: the `size_t` type, `npos`, subtraction modulo 2^64,
  `find_first_of`, `find_first_not_of`, and `substr` with its clamping
  count. A string is a `seq<C>` over any character type with equality.
- `TokenSpec` (`token_spec.dfy`) gives the reference meaning of "the tokens
  of `s`" without any scan. `Fields` are the pieces between delimiters, and
  `Tokens` are the non-empty fields. It proves the equations that pin
  `Tokens` down:
  - cutting at a delimiter splits the tokens;
  - a delimiter-free text is one token;
  - a text of delimiters only has none.

  It also proves further facts about the result: coverage, the count of
  tokens, well-formedness, the last token, and re-tokenizing a joined
  result.
- `Collectors` (`collectors.dfy`) holds the three collectors as classes that
  are updated in place, holding a `seq`, a `set` and a `map`. It also
  proves what absorbing a token sequence does to a set and to a count map.
  `Tally` is the counts after repeated `operator[]` then `++`.
- `Tokenizer` (`tokenizer.dfy`) holds the three overloads as methods with
  the source's `while` loop. Each is proved against `Tokens`, with a loop
  invariant: the collector, combined with the tokens still ahead of
  `lastPos`, equals the final result.

The loop guard `pos != npos || last_pos != npos` is kept exactly as written.
`GuardIsLastPos` shows that it amounts to `last_pos != npos`. The length
`pos - last_pos` is computed as `size_t` subtraction, as written. It never
wraps around, because `pos` always lies beyond `last_pos`. When `pos` is
`npos` the difference is a count past the end of the string, and `Substr`
clamps it to the end (`TakeToken`).

## Model

| member | source | states |
|---|---|---|
| StdString.SizeSub | tokenizepp20.h:31 | `pos - last_pos` on `size_t`: the true difference when `b <= a`, otherwise the difference plus 2^64 |
| StdString.Substr | tokenizepp20.h:31 | `substr(pos, count)` is the slice starting at `pos` whose length is `count`, or whatever remains of the string when `count` reaches past its end |
| StdString.FindFirstOf | tokenizepp20.h:26 | returns the first index at or after `pos` holding a delimiter; returns `npos` exactly when there is none, including when `pos` is at or past the end |
| StdString.FindFirstNotOf | tokenizepp20.h:23 | returns the first index at or after `pos` holding a non-delimiter; returns `npos` exactly when there is none |
| TokenSpec.TokensSplit | tokenizepp20.h:28-37 | a delimiter between `a` and `b` separates their tokens: the tokens of `a + [x] + b` are those of `a` followed by those of `b` |
| TokenSpec.TokensSplitAt | tokenizepp20.h:28-37 | the same cut, at a delimiter index `p` of `s` |
| TokenSpec.FieldsSplit | tokenizepp20.h:28-37 | a lemma about the reference definition, which the source has no counterpart for: the fields (pieces between delimiters, empty ones included) of `s` cut at a delimiter at `p` are the fields before `p` followed by those after it; `TokensSplit` rests on it |
| TokenSpec.TokensOfDelimiterFree | tokenizepp20.h:31 | a text without delimiters is one token when non-empty, and yields nothing when empty |
| TokenSpec.TokensOfDelimitersOnly | tokenizepp20.h:23-28 | an empty text, or one made only of delimiters, has no tokens, so each overload's `ensures` leaves its collector unchanged |
| TokenSpec.TokensWithoutDelimiters | tokenizepp20.h:26-31 | with an empty delimiter set, a non-empty `str` is exactly one token, the whole of `str` |
| TokenSpec.TokensWellFormed | tokenizepp20.h:23-31 | every token is non-empty and contains no delimiter |
| TokenSpec.TokensCover | tokenizepp20.h:28-37 | the tokens, concatenated, are the non-delimiter characters of `str` in order; nothing is lost, duplicated or reordered |
| TokenSpec.TokenCountIsRunCount | tokenizepp20.h:28-37 | the number of tokens is the number of maximal runs of non-delimiters; leading, trailing and repeated delimiters add no empty tokens |
| TokenSpec.LastTokenReachesEnd | tokenizepp20.h:28-37 | when `str` ends in a non-delimiter, it has a last token, and that token is a suffix of `str` |
| TokenSpec.TokensOfJoin | tokenizepp20.h:28-37 | non-empty, delimiter-free texts joined by a delimiter tokenize back to the same texts |
| TokenSpec.RetokenizeJoined | tokenizepp20.h:28-37 | tokenizing the tokens of `str` joined by a delimiter gives the same tokens: tokenizing is idempotent in that sense |
| TokenSpec.NonEmptyElements | tokenizepp20.h:28-37 | a lemma about the reference definition, which the source has no counterpart for: every element kept by the filter that drops empty fields is a non-empty element of its input; `TokensWellFormed` rests on it |
| Collectors.TokenVector.constructor | tokenizepp20.h:20 | a new vector is empty |
| Collectors.TokenVector.EmplaceBack | tokenizepp20.h:31 | `emplace_back` appends the token after the existing elements and changes nothing else |
| Collectors.TokenSet.constructor | tokenizepp20.h:41 | a new set is empty |
| Collectors.TokenSet.Emplace | tokenizepp20.h:52 | `emplace` adds the token; the set is unchanged when the token is already present |
| Collectors.TokenCounter.constructor | tokenizepp20.h:62 | a new map is empty |
| Collectors.TokenCounter.Increment | tokenizepp20.h:73 | `tokens[t]++` makes the new map `Incremented(old map, t)` |
| Collectors.Incremented | tokenizepp20.h:73 | the key set gains `t`, the count of `t` is one more than before (0 when absent), and other keys keep their counts |
| Collectors.DistinctCount | tokenizepp20.h:41-59 | inserting a token sequence into an empty set gives at most one element per token, and exactly one per token iff no token repeats |
| Collectors.InsertAllCount | tokenizepp20.h:41-59 | inserting a token sequence into a set that may already hold elements adds at most one element per token, and exactly one per token iff no token repeats and none was already present |
| Collectors.TallyCounts | tokenizepp20.h:62-80 | after absorbing a token sequence, each key's count has grown by the number of times that key occurs in it; absent keys start from 0; keys that are not tokens keep their counts; a key is present afterwards iff it was before or it is a token |
| Collectors.TallyTotal | tokenizepp20.h:62-80 | the sum of all counts grows by the number of tokens |
| Collectors.IncrementedTotal | tokenizepp20.h:73 | one `tokens[t]++` raises the sum of all counts by one |
| Collectors.TotalRemove | tokenizepp20.h:62-80 | a lemma about the sum of counts, which the source does not compute: the sum is independent of the order in which keys are taken; `TallyTotal` rests on it |
| Tokenizer.SkipDelimiters | tokenizepp20.h:23 | skipping delimiters with `find_first_not_of` loses no token |
| Tokenizer.TakeToken | tokenizepp20.h:26-31 | `pos` lies beyond `last_pos`, so `pos - last_pos` is the plain difference and never wraps around; with `pos == npos` that difference reaches past the end of the string; the `substr` the loop emits is the first token still ahead |
| Tokenizer.ScanStep | tokenizepp20.h:28-37 | each iteration emits the first remaining token, and the tokens after it start at the new `last_pos`; `last_pos` grows strictly, so the loop terminates |
| Tokenizer.DelimitersOnlySkipsLoop | tokenizepp20.h:23-28 | the loop guard fails on entry exactly when `str` is empty or made only of delimiters: the first `find_first_not_of` gives `npos`, and `find_first_of` from `npos` gives `npos` |
| Tokenizer.GuardIsLastPos | tokenizepp20.h:28 | the loop guard, which asks whether either position differs from `npos`, holds exactly when `last_pos != npos` |
| Tokenizer.TokenAtEnd | tokenizepp20.h:31 | when no delimiter follows `last_pos`, the rest of the string is the single remaining token |
| Tokenizer.TokenBeforeDelimiter | tokenizepp20.h:31-34 | a token ended by a delimiter at `pos` is followed by the tokens from `pos` on |
| Tokenizer.TokenizeVector | tokenizepp20.h:19-39 | the vector becomes its old elements followed by exactly the tokens of `str`, in order; with no tokens it is unchanged |
| Tokenizer.TokenizeSet | tokenizepp20.h:40-60 | the set becomes the old set united with the set of tokens of `str`; duplicates collapse and nothing is removed |
| Tokenizer.TokenizeMap | tokenizepp20.h:61-81 | the map becomes the old counts after `tokens[t]++` for each token `t` of `str`, in order (see `TallyCounts`, `TallyTotal`) |

## Left out

- `test.cpp` is a demonstration driver that prints with `std::cout` and
  `std::wcout`. It is console I/O and is not part of this model.
- The `string` concept (`tokenizepp20.h:12-16`) is replaced by a generic
  character type `C` with equality. Character width and encoding play no
  part in the scan.
- The hash-table internals and iteration order of `unordered_set` and
  `unordered_map` are left out. The collectors are a mathematical `set` and
  `map`.
- Collectors.TokenCounter.Increment: counts are unbounded `nat`s. The
  wrap-around of the `size_t` counter after 2^64 increments is not modelled.
- Allocation failure, and any exception thrown by `substr`, `emplace_back`,
  `emplace` or `operator[]`, are not modelled. `Substr` requires
  `pos <= |s|`, which is `substr`'s condition for not throwing
  `out_of_range`. The scan only calls it with a `last_pos` inside the string.
- Tokenizer.TokenizeVector, Tokenizer.TokenizeSet and Tokenizer.TokenizeMap
  require `|str| < NPOS`. This stands for `max_size() < npos`, which every
  `std::basic_string` satisfies. The `find` functions carry the same
  condition.
- The three overloads repeat one scan loop, and the model keeps three
  separate loops rather than a shared one.
