/** The three members of `std::basic_string` the tokenizer relies on:
    `find_first_of`, `find_first_not_of` and `substr`, together with the
    unsigned `size_t` arithmetic and the `npos` sentinel they use.
    A string is a `seq<C>` over any character type with equality. */
module StdString {

  /** `std::basic_string::npos`: the largest `size_t` value, returned by the
      find members when no position is found. */
  const NPOS: nat := 0xFFFF_FFFF_FFFF_FFFF

  /** A value of the 64-bit unsigned type `size_t`. */
  type SizeT = n: nat | n <= NPOS

  /** `a - b` on `size_t`: subtraction modulo 2^64. */
  function SizeSub(a: SizeT, b: SizeT): (r: SizeT)
    ensures b <= a ==> r + b == a
    ensures a < b ==> r + b == a + NPOS + 1
  {
    (a - b) % (NPOS + 1)
  }

  /** `s.substr(pos, count)`: the units from `pos` on, at most `count` of them;
      a `count` reaching past the end (such as `npos - pos`) is clamped to the
      end of `s`. */
  function Substr<C>(s: seq<C>, pos: SizeT, count: SizeT): (r: seq<C>)
    requires pos <= |s|
    ensures |r| <= count && pos + |r| <= |s|
    ensures |r| == count || pos + |r| == |s|
    ensures r == s[pos..pos + |r|]
  {
    if count < |s| - pos then s[pos..pos + count] else s[pos..]
  }

  /** `s.find_first_of(delimiters, pos)`: the first index at or after `pos`
      whose unit occurs in `delimiters`, or `NPOS` when there is none
      (in particular when `pos` is at or beyond the end of `s`). */
  function FindFirstOf<C(==)>(s: seq<C>, delimiters: seq<C>, pos: SizeT): (r: SizeT)
    requires |s| < NPOS
    ensures r == NPOS || (pos <= r < |s| && s[r] in delimiters)
    ensures forall i :: pos <= i < |s| && (r == NPOS || i < r) ==> s[i] !in delimiters
    decreases |s| - pos
  {
    if pos >= |s| then NPOS
    else if s[pos] in delimiters then pos
    else FindFirstOf(s, delimiters, pos + 1)
  }

  /** `s.find_first_not_of(delimiters, pos)`: the first index at or after
      `pos` whose unit does not occur in `delimiters`, or `NPOS`. */
  function FindFirstNotOf<C(==)>(s: seq<C>, delimiters: seq<C>, pos: SizeT): (r: SizeT)
    requires |s| < NPOS
    ensures r == NPOS || (pos <= r < |s| && s[r] !in delimiters)
    ensures forall i :: pos <= i < |s| && (r == NPOS || i < r) ==> s[i] in delimiters
    decreases |s| - pos
  {
    if pos >= |s| then NPOS
    else if s[pos] !in delimiters then pos
    else FindFirstNotOf(s, delimiters, pos + 1)
  }
}
