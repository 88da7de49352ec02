/** The three caller-owned result containers the tokenizer fills in place:
    `std::vector<T>`, `std::unordered_set<T>` and
    `std::unordered_map<T, size_t>`, modelled as objects holding a `seq`, a
    `set` and a `map`, and the facts about what absorbing a sequence of
    tokens does to each of them. */
module Collectors {

  /** `std::vector<T>`: tokens in insertion order, duplicates kept. */
  class TokenVector<C> {
    var elems: seq<seq<C>>

    constructor ()
      ensures elems == []
    {
      elems := [];
    }

    /** `emplace_back(t)`. */
    method EmplaceBack(t: seq<C>)
      modifies this
      ensures elems == old(elems) + [t]
    {
      elems := elems + [t];
    }
  }

  /** `std::unordered_set<T>`: distinct tokens, order not observable. */
  class TokenSet<C(==)> {
    var elems: set<seq<C>>

    constructor ()
      ensures elems == {}
    {
      elems := {};
    }

    /** `emplace(t)`: a no-op when `t` is already present. */
    method Emplace(t: seq<C>)
      modifies this
      ensures elems == old(elems) + {t}
    {
      elems := elems + {t};
    }
  }

  /** `std::unordered_map<T, size_t>`: a count per distinct token. */
  class TokenCounter<C(==)> {
    var counts: map<seq<C>, nat>

    constructor ()
      ensures counts == map[]
    {
      counts := map[];
    }

    /** `(*this)[t]++`: `operator[]` first inserts `t` with count 0 when it
        is absent. */
    method Increment(t: seq<C>)
      modifies this
      ensures counts == Incremented(old(counts), t)
    {
      if t !in counts {
        counts := counts[t := 0];
      }
      counts := counts[t := counts[t] + 1];
    }
  }

  // ---------------------------------------------------------------------
  // Set collector

  /** No element of `xs` occurs twice. */
  predicate Distinct<T(==)>(xs: seq<T>)
  {
    forall i, j :: 0 <= i < j < |xs| ==> xs[i] != xs[j]
  }

  /** Inserting a sequence into a set adds at most one element per entry of
      the sequence, and exactly one each iff its entries are distinct. */
  lemma {:induction false} DistinctCount<T>(xs: seq<T>)
    ensures |set x | x in xs| <= |xs|
    ensures |set x | x in xs| == |xs| <==> Distinct(xs)
  {
    if xs != [] {
      var r := xs[1..];
      DistinctCount(r);
      var sr := set x | x in r;
      assert (set x | x in xs) == {xs[0]} + sr by {
        assert xs == [xs[0]] + r;
      }
      if xs[0] in sr {
        var j :| 0 <= j < |r| && r[j] == xs[0];
        assert xs[j + 1] == xs[0];
        assert !Distinct(xs);
      } else {
        assert Distinct(xs) <==> Distinct(r) by {
          if Distinct(r) {
            forall i, j | 0 <= i < j < |xs| ensures xs[i] != xs[j] {
              if i > 0 {
                assert xs[i] == r[i - 1] && xs[j] == r[j - 1];
              } else {
                assert xs[j] == r[j - 1] && r[j - 1] in sr;
              }
            }
          }
          if Distinct(xs) {
            forall i, j | 0 <= i < j < |r| ensures r[i] != r[j] {
              assert r[i] == xs[i + 1] && r[j] == xs[j + 1];
            }
          }
        }
      }
    }
  }

  /** Inserting a sequence into a set `elems` that may already hold
      elements adds at most one element per entry, and exactly one each iff
      the entries are distinct and none was present before. */
  lemma {:induction false} InsertAllCount<T>(elems: set<T>, xs: seq<T>)
    ensures |elems + set x | x in xs| <= |elems| + |xs|
    ensures |elems + set x | x in xs| == |elems| + |xs| <==> Distinct(xs) && Unseen(elems, xs)
    decreases |xs|
  {
    if xs == [] {
      assert elems + (set x | x in xs) == elems;
    } else {
      var r := xs[1..];
      var e := elems + {xs[0]};
      InsertAllCount(e, r);
      InsertFirstUnion(elems, xs);
      AddOneCount(elems, xs[0]);
      DistinctUnseenCons(elems, xs);
    }
  }

  /** No entry of `xs` is already in `elems`. */
  predicate Unseen<T(==)>(elems: set<T>, xs: seq<T>)
  {
    forall i :: 0 <= i < |xs| ==> xs[i] !in elems
  }

  /** Inserting the entries of `xs` is inserting its first, then the rest. */
  lemma InsertFirstUnion<T>(elems: set<T>, xs: seq<T>)
    requires xs != []
    ensures elems + (set x | x in xs) == (elems + {xs[0]}) + (set x | x in xs[1..])
  {
    assert xs == [xs[0]] + xs[1..];
  }

  /** Inserting one element grows a set by one unless it was present. */
  lemma AddOneCount<T>(elems: set<T>, x: T)
    ensures |elems + {x}| == |elems| + (if x in elems then 0 else 1)
  {
    if x in elems {
      assert elems + {x} == elems;
    }
  }

  /** `xs` is distinct and new to `elems` iff its first entry is new to
      `elems` and the rest is distinct and new to `elems` plus that entry. */
  lemma DistinctUnseenCons<T>(elems: set<T>, xs: seq<T>)
    requires xs != []
    ensures Distinct(xs) && Unseen(elems, xs) <==>
      xs[0] !in elems && Distinct(xs[1..]) && Unseen(elems + {xs[0]}, xs[1..])
  {
    var r := xs[1..];
    if Distinct(xs) && Unseen(elems, xs) {
      forall i, j | 0 <= i < j < |r| ensures r[i] != r[j] {
        assert r[i] == xs[i + 1] && r[j] == xs[j + 1];
      }
      forall i | 0 <= i < |r| ensures r[i] !in elems + {xs[0]} {
        assert r[i] == xs[i + 1];
      }
    }
    if xs[0] !in elems && Distinct(r) && Unseen(elems + {xs[0]}, r) {
      forall i, j | 0 <= i < j < |xs| ensures xs[i] != xs[j] {
        assert xs[j] == r[j - 1];
        if i > 0 {
          assert xs[i] == r[i - 1];
        }
      }
      forall i | 0 <= i < |xs| ensures xs[i] !in elems {
        if i > 0 {
          assert xs[i] == r[i - 1];
        }
      }
    }
  }

  // ---------------------------------------------------------------------
  // Frequency collector

  /** `m[k]` as a read that treats an absent key as 0. */
  function Get<K>(m: map<K, nat>, k: K): nat
  {
    if k in m then m[k] else 0
  }

  /** `m[k]++`: `operator[]` inserts the key with count 0 when it is absent,
      then the count is incremented. */
  function Incremented<K>(m: map<K, nat>, k: K): (r: map<K, nat>)
    ensures r.Keys == m.Keys + {k}
    ensures r[k] == Get(m, k) + 1
    ensures forall j :: j in m && j != k ==> r[j] == m[j]
  {
    var m0 := if k in m then m else m[k := 0];
    m0[k := m0[k] + 1]
  }

  /** The counts after absorbing `ts`, first to last, into `m`. */
  function Tally<K>(m: map<K, nat>, ts: seq<K>): map<K, nat>
    decreases |ts|
  {
    if ts == [] then m else Tally(Incremented(m, ts[0]), ts[1..])
  }

  /** Absorbing `ts` adds to each key's count the number of times that key
      occurs in `ts`; a key is present afterwards iff it was before or it
      occurs in `ts`. */
  lemma {:induction false} TallyCounts<K>(m: map<K, nat>, ts: seq<K>, k: K)
    ensures k in Tally(m, ts) <==> k in m || k in ts
    ensures Get(Tally(m, ts), k) == Get(m, k) + multiset(ts)[k]
    decreases |ts|
  {
    if ts != [] {
      TallyCounts(Incremented(m, ts[0]), ts[1..], k);
      assert ts == [ts[0]] + ts[1..];
      assert multiset(ts) == multiset{ts[0]} + multiset(ts[1..]);
    }
  }

  /** The sum of all counts. */
  ghost function Total<K>(m: map<K, nat>): nat
    decreases |m.Keys|
  {
    if m == map[] then 0
    else
      var k :| k in m;
      assert |(m - {k}).Keys| < |m.Keys| by {
        assert (m - {k}).Keys == m.Keys - {k};
      }
      m[k] + Total(m - {k})
  }

  /** The sum may be taken with any key first. */
  lemma {:induction false} TotalRemove<K>(m: map<K, nat>, k: K)
    requires k in m
    ensures Total(m) == m[k] + Total(m - {k})
    decreases |m.Keys|
  {
    var j :| j in m && Total(m) == m[j] + Total(m - {j});
    if j != k {
      var mj, mk := m - {j}, m - {k};
      assert (mj - {k}) == (mk - {j});
      assert (mj).Keys == m.Keys - {j} && (mk).Keys == m.Keys - {k};
      TotalRemove(mj, k);
      TotalRemove(mk, j);
    }
  }

  /** One increment raises the sum of counts by one. */
  lemma IncrementedTotal<K>(m: map<K, nat>, k: K)
    ensures Total(Incremented(m, k)) == Total(m) + 1
  {
    var r := Incremented(m, k);
    TotalRemove(r, k);
    if k in m {
      TotalRemove(m, k);
      assert r - {k} == m - {k};
    } else {
      assert r - {k} == m;
    }
  }

  /** Absorbing `ts` raises the sum of counts by the number of tokens. */
  lemma {:induction false} TallyTotal<K>(m: map<K, nat>, ts: seq<K>)
    ensures Total(Tally(m, ts)) == Total(m) + |ts|
    decreases |ts|
  {
    if ts != [] {
      TallyTotal(Incremented(m, ts[0]), ts[1..]);
      IncrementedTotal(m, ts[0]);
    }
  }
}
