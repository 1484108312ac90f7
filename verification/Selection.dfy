/**
 Hash sortition of reviewers: review/selection.py and rust/mdp2p-core/src/selection.rs. The digest of
 content key, zero byte and reviewer key is a parameter `rank`, which may collide.
 */
module Selection {
  import opened Ordering
  import opened Text

  type Rank = string -> bytes

  // Rust orders (digest, key) pairs; the key decides between equal digests.
  predicate Before(rank: Rank, a: string, b: string)
  {
    LexLess(rank(a), rank(b)) || (rank(a) == rank(b) && ByteLess(a, b))
  }

  ghost predicate Ranked(rank: Rank, s: seq<string>)
  {
    forall i, j | 0 <= i < j < |s| :: Before(rank, s[i], s[j])
  }

  lemma BeforeIsStrictTotal(rank: Rank, a: string, b: string)
    ensures !Before(rank, a, a)
    ensures Before(rank, a, b) ==> !Before(rank, b, a)
    ensures Before(rank, a, b) || a == b || Before(rank, b, a)
  {
    LexIrreflexive(rank(a));
    LexTotal(rank(a), rank(b));
    ByteOrderIsStrictTotal(a, b);
    if LexLess(rank(a), rank(b)) {
      LexAsymmetric(rank(a), rank(b));
      if rank(a) == rank(b) { LexIrreflexive(rank(a)); }
    }
  }

  lemma BeforeTransitive(rank: Rank, a: string, b: string, c: string)
    requires Before(rank, a, b) && Before(rank, b, c)
    ensures Before(rank, a, c)
  {
    hide LexLess;
    if LexLess(rank(a), rank(b)) && LexLess(rank(b), rank(c)) {
      LexTransitive(rank(a), rank(b), rank(c));
    } else if rank(a) == rank(b) && rank(b) == rank(c) {
      ByteOrderTransitive(a, b, c);
    }
  }

  // There is only one ranked listing of a set of keys.
  lemma {:induction false} RankedUnique(rank: Rank, a: seq<string>, b: seq<string>)
    requires Ranked(rank, a) && Ranked(rank, b) && |a| == |b|
    requires forall k :: k in a <==> k in b
    ensures a == b
  {
    hide Before;
    if a != [] {
      assert a[0] in b && b[0] in a;
      BeforeIsStrictTotal(rank, a[0], b[0]);
      assert a[0] == b[0];
      assert a == [a[0]] + a[1..] && b == [b[0]] + b[1..];
      RankedDistinct(rank, a);
      RankedDistinct(rank, b);
      assert a[0] !in a[1..] && b[0] !in b[1..];
      forall k ensures k in a[1..] <==> k in b[1..] {
        assert k in a[1..] ==> k in a;
        assert k in b[1..] ==> k in b;
      }
      RankedUnique(rank, a[1..], b[1..]);
    }
  }

  lemma RankedDistinct(rank: Rank, s: seq<string>)
    requires Ranked(rank, s)
    ensures forall i, j | 0 <= i < j < |s| :: s[i] != s[j]
  {
    hide Before;
    forall i, j | 0 <= i < j < |s| ensures s[i] != s[j] {
      BeforeIsStrictTotal(rank, s[i], s[j]);
    }
  }

  // ---- Python: a stable sort, by rank alone, of the keys in code point order

  // Stable: an element goes in front of those that rank no lower.
  function StableInsert(rank: Rank, x: string, s: seq<string>): seq<string>
  {
    if s == [] || !LexLess(rank(s[0]), rank(x)) then [x] + s else [s[0]] + StableInsert(rank, x, s[1..])
  }

  function StableSort(rank: Rank, s: seq<string>): seq<string>
  {
    if s == [] then [] else StableInsert(rank, s[0], StableSort(rank, s[1..]))
  }

  function Take<T>(s: seq<T>, n: nat): seq<T>
  {
    if n < |s| then s[..n] else s
  }

  function PySelect(rank: Rank, pool: set<string>, n: int): seq<string>
  {
    if n <= 0 then [] else Take(StableSort(rank, SortedKeys(pool)), n)
  }

  // The ranking both programs compute.
  function Ranking(rank: Rank, pool: set<string>): seq<string>
  {
    StableSort(rank, SortedKeys(pool))
  }

  // `sorted(set(pool))` is in code point order, the same as Rust's byte order.
  lemma SortedInCodePointOrder(pool: set<string>)
    ensures var s := SortedKeys(pool); forall i, j | 0 <= i < j < |s| :: CodePointLess(s[i], s[j])
  {
    var s := SortedKeys(pool);
    forall i, j | 0 <= i < j < |s| ensures CodePointLess(s[i], s[j]) {
      ByteOrderIsCodePointOrder(s[i], s[j]);
    }
  }

  lemma {:induction false} StableInsertElements(rank: Rank, x: string, s: seq<string>)
    ensures |StableInsert(rank, x, s)| == |s| + 1
    ensures forall k :: k in StableInsert(rank, x, s) <==> k == x || k in s
  {
    hide LexLess;
    if s != [] && LexLess(rank(s[0]), rank(x)) {
      StableInsertElements(rank, x, s[1..]);
      assert s == [s[0]] + s[1..];
    }
  }

  lemma {:induction false} StableInsertRanked(rank: Rank, x: string, s: seq<string>)
    requires Ranked(rank, s) && forall k | k in s :: ByteLess(x, k)
    ensures Ranked(rank, StableInsert(rank, x, s))
  {
    hide LexLess;
    hide ByteLess;
    if s != [] && LexLess(rank(s[0]), rank(x)) {
      assert s == [s[0]] + s[1..];
      StableInsertRanked(rank, x, s[1..]);
      StableInsertElements(rank, x, s[1..]);
      var rest := StableInsert(rank, x, s[1..]);
      forall j | 0 <= j < |rest| ensures Before(rank, s[0], rest[j]) {
        assert rest[j] in rest;
      }
    } else {
      forall j | 0 <= j < |s| ensures Before(rank, x, s[j]) {
        assert s[j] in s;
        LexTotal(rank(x), rank(s[0]));
        assert s[0] in s;
        if j > 0 { BeforeTransitive(rank, x, s[0], s[j]); }
      }
    }
  }

  lemma {:induction false} StableSortRanks(rank: Rank, s: seq<string>)
    requires Increasing(s)
    ensures Ranked(rank, StableSort(rank, s)) && |StableSort(rank, s)| == |s|
    ensures forall k :: k in StableSort(rank, s) <==> k in s
  {
    hide LexLess;
    hide ByteLess;
    if s != [] {
      assert s == [s[0]] + s[1..];
      StableSortRanks(rank, s[1..]);
      var rest := StableSort(rank, s[1..]);
      forall k | k in rest ensures ByteLess(s[0], k) {
        assert k in s[1..];
        var i :| 0 <= i < |s[1..]| && s[1..][i] == k;
        assert s[i + 1] == k;
      }
      StableInsertElements(rank, s[0], rest);
      StableInsertRanked(rank, s[0], rest);
    }
  }

  lemma RankingRanks(rank: Rank, pool: set<string>)
    ensures Ranked(rank, Ranking(rank, pool)) && |Ranking(rank, pool)| == |pool|
    ensures forall k :: k in Ranking(rank, pool) <==> k in pool
  {
    StableSortRanks(rank, SortedKeys(pool));
  }

  // ---- Rust: sort, drop repeats, sort the (digest, key) pairs

  function InsertKey(x: string, s: seq<string>): seq<string>
  {
    if s == [] || !ByteLess(s[0], x) then [x] + s else [s[0]] + InsertKey(x, s[1..])
  }

  // `unique.sort()`
  function SortKeys(s: seq<string>): seq<string>
  {
    if s == [] then [] else InsertKey(s[0], SortKeys(s[1..]))
  }

  function InsertPair(rank: Rank, x: string, s: seq<string>): seq<string>
  {
    if s == [] || Before(rank, x, s[0]) then [x] + s else [s[0]] + InsertPair(rank, x, s[1..])
  }

  // `ranked.sort()`: a pair is known by its key.
  function SortPairs(rank: Rank, s: seq<string>): seq<string>
  {
    if s == [] then [] else InsertPair(rank, s[0], SortPairs(rank, s[1..]))
  }

  ghost predicate NonDecreasing(s: seq<string>)
  {
    forall i, j | 0 <= i < j < |s| :: !ByteLess(s[j], s[i])
  }

  lemma {:induction false} InsertKeyElements(x: string, s: seq<string>)
    ensures forall k :: k in InsertKey(x, s) <==> k == x || k in s
  {
    hide ByteLess;
    if s != [] && ByteLess(s[0], x) {
      InsertKeyElements(x, s[1..]);
      assert s == [s[0]] + s[1..];
    }
  }

  lemma NotLessTransitive(a: string, b: string, c: string)
    requires !ByteLess(b, a) && !ByteLess(c, b)
    ensures !ByteLess(c, a)
  {
    hide ByteLess;
    ByteOrderIsStrictTotal(a, b);
    ByteOrderIsStrictTotal(b, c);
    if ByteLess(c, a) && a != b { ByteOrderTransitive(c, a, b); }
  }

  lemma {:induction false} SortKeysSorts(s: seq<string>)
    ensures NonDecreasing(SortKeys(s))
    ensures forall k :: k in SortKeys(s) <==> k in s
  {
    hide ByteLess;
    if s != [] {
      assert s == [s[0]] + s[1..];
      SortKeysSorts(s[1..]);
      InsertKeyElements(s[0], SortKeys(s[1..]));
      InsertKeySorts(s[0], SortKeys(s[1..]));
    }
  }

  lemma {:induction false} InsertKeySorts(x: string, s: seq<string>)
    requires NonDecreasing(s)
    ensures NonDecreasing(InsertKey(x, s))
  {
    hide ByteLess;
    if s != [] && ByteLess(s[0], x) {
      assert s == [s[0]] + s[1..];
      InsertKeySorts(x, s[1..]);
      InsertKeyElements(x, s[1..]);
      var rest := InsertKey(x, s[1..]);
      ByteOrderIsStrictTotal(s[0], x);
      forall j | 0 <= j < |rest| ensures !ByteLess(rest[j], s[0]) {
        assert rest[j] in rest;
      }
    } else if s != [] {
      forall j | 0 <= j < |s| ensures !ByteLess(s[j], x) {
        if j > 0 { NotLessTransitive(x, s[0], s[j]); }
      }
    }
  }

  lemma {:induction false} InsertPairElements(rank: Rank, x: string, s: seq<string>)
    ensures |InsertPair(rank, x, s)| == |s| + 1
    ensures forall k :: k in InsertPair(rank, x, s) <==> k == x || k in s
  {
    hide Before;
    if s != [] && !Before(rank, x, s[0]) {
      InsertPairElements(rank, x, s[1..]);
      assert s == [s[0]] + s[1..];
    }
  }

  lemma {:induction false} InsertPairRanks(rank: Rank, x: string, s: seq<string>)
    requires Ranked(rank, s) && x !in s
    ensures Ranked(rank, InsertPair(rank, x, s))
  {
    hide Before;
    if s != [] && !Before(rank, x, s[0]) {
      assert s == [s[0]] + s[1..];
      InsertPairRanks(rank, x, s[1..]);
      InsertPairElements(rank, x, s[1..]);
      BeforeIsStrictTotal(rank, x, s[0]);
      var rest := InsertPair(rank, x, s[1..]);
      forall j | 0 <= j < |rest| ensures Before(rank, s[0], rest[j]) {
        assert rest[j] in rest;
      }
    } else if s != [] {
      forall j | 0 <= j < |s| ensures Before(rank, x, s[j]) {
        if j > 0 { BeforeTransitive(rank, x, s[0], s[j]); }
      }
    }
  }

  lemma {:induction false} SortPairsRanks(rank: Rank, s: seq<string>)
    requires forall i, j | 0 <= i < j < |s| :: s[i] != s[j]
    ensures Ranked(rank, SortPairs(rank, s)) && |SortPairs(rank, s)| == |s|
    ensures forall k :: k in SortPairs(rank, s) <==> k in s
  {
    hide Before;
    if s != [] {
      assert s == [s[0]] + s[1..];
      SortPairsRanks(rank, s[1..]);
      InsertPairElements(rank, s[0], SortPairs(rank, s[1..]));
      assert s[0] !in s[1..];
      InsertPairRanks(rank, s[0], SortPairs(rank, s[1..]));
    }
  }

  lemma IncreasingAppend(s: seq<string>, x: string)
    requires Increasing(s) && (s != [] ==> ByteLess(s[|s| - 1], x))
    ensures Increasing(s + [x])
  {
    hide ByteLess;
    forall j | 0 <= j < |s| ensures ByteLess(s[j], x) {
      if j < |s| - 1 { ByteOrderTransitive(s[j], s[|s| - 1], x); }
    }
  }

  // `dedup()` on a sorted vector: drops an element equal to the one before it.
  method Dedup(s: seq<string>) returns (unique: seq<string>)
    requires NonDecreasing(s)
    ensures Increasing(unique)
    ensures forall k :: k in unique <==> k in s
  {
    hide ByteLess;
    unique := [];
    for i := 0 to |s|
      invariant Increasing(unique)
      invariant forall k :: k in unique <==> k in s[..i]
      invariant if i == 0 then unique == [] else unique != [] && unique[|unique| - 1] == s[i - 1]
    {
      assert s[..i + 1] == s[..i] + [s[i]];
      if i == 0 || s[i] != s[i - 1] {
        if i > 0 { ByteOrderIsStrictTotal(s[i - 1], s[i]); }
        IncreasingAppend(unique, s[i]);
        unique := unique + [s[i]];
      }
    }
    assert s[..|s|] == s;
  }

  // Whatever the digests, colliding or not, Rust selects what Python selects, from a pool in any order and
  // with any repeats.
  method RustSelect(rank: Rank, pool: seq<string>, n: nat) returns (r: seq<string>)
    ensures r == Take(Ranking(rank, (set k | k in pool)), n)
    ensures r == PySelect(rank, (set k | k in pool), n)
  {
    hide Before;
    hide StableSort;
    ghost var members := set k | k in pool;
    var unique := SortKeys(pool);
    SortKeysSorts(pool);
    unique := Dedup(unique);
    IncreasingDistinct(unique);
    DistinctLength(unique, members);
    var ranked := SortPairs(rank, unique);
    SortPairsRanks(rank, unique);
    RankingRanks(rank, members);
    RankedUnique(rank, ranked, Ranking(rank, members));
    r := Take(ranked, n);
  }

  // ---- What a selection is

  // The chosen reviewers are members of the pool, as many as asked for if there are that many, and every
  // member left out ranks behind every chosen one: nobody can be picked or passed over at will.
  lemma SelectionIsTheBest(rank: Rank, pool: set<string>, n: nat)
    ensures var chosen := Take(Ranking(rank, pool), n);
      && |chosen| == (if n < |pool| then n else |pool|)
      && (forall i | 0 <= i < |chosen| :: chosen[i] in pool)
      && (forall i, j | 0 <= i < j < |chosen| :: chosen[i] != chosen[j])
      && forall i, k | 0 <= i < |chosen| && k in pool && k !in chosen :: Before(rank, chosen[i], k)
  {
    hide Before;
    hide StableSort;
    RankingRanks(rank, pool);
    var all := Ranking(rank, pool);
    var chosen := Take(all, n);
    RankedDistinct(rank, all);
    forall i | 0 <= i < |chosen| ensures chosen[i] in pool {
      assert chosen[i] == all[i] && all[i] in all;
    }
    assert forall j | 0 <= j < |chosen| :: all[j] == chosen[j] && chosen[j] in chosen;
    forall i, k | 0 <= i < |chosen| && k in pool && k !in chosen ensures Before(rank, chosen[i], k) {
      assert k in all;
      var j :| 0 <= j < |all| && all[j] == k;
      assert |chosen| <= j;
    }
  }

  lemma LongerSelectionExtends(rank: Rank, pool: set<string>, n: nat)
    ensures Take(Ranking(rank, pool), n) <= Take(Ranking(rank, pool), n + 1)
  {
  }

  // Adding a reviewer puts it at its place in the ranking and leaves the order of the others alone.
  lemma NewcomerIsInserted(rank: Rank, pool: set<string>, x: string) returns (p: nat)
    requires x !in pool
    ensures p <= |Ranking(rank, pool)|
    ensures Ranking(rank, pool + {x}) == Ranking(rank, pool)[..p] + [x] + Ranking(rank, pool)[p..]
  {
    hide Before;
    hide StableSort;
    RankingRanks(rank, pool);
    RankingRanks(rank, pool + {x});
    var all := Ranking(rank, pool);
    var more := InsertPair(rank, x, all);
    InsertPairRanks(rank, x, all);
    InsertPairElements(rank, x, all);
    RankedUnique(rank, more, Ranking(rank, pool + {x}));
    p := InsertPairSplits(rank, x, all);
  }

  lemma {:induction false} InsertPairSplits(rank: Rank, x: string, s: seq<string>) returns (p: nat)
    ensures p <= |s| && InsertPair(rank, x, s) == s[..p] + [x] + s[p..]
  {
    hide Before;
    if s == [] || Before(rank, x, s[0]) {
      p := 0;
    } else {
      var q := InsertPairSplits(rank, x, s[1..]);
      p := q + 1;
      assert s[..p] == [s[0]] + s[1..][..q] && s[p..] == s[1..][q..];
    }
  }

  // One more reviewer in the pool displaces at most the last one chosen.
  lemma NewcomerDisplacesAtMostOne(rank: Rank, pool: set<string>, x: string, n: nat)
    requires x !in pool
    ensures var earlier, now := Take(Ranking(rank, pool), n), Take(Ranking(rank, pool + {x}), n);
      && (forall k | k in now :: k == x || k in earlier)
      && (forall i | 0 <= i < |earlier| && earlier[i] !in now :: i == n - 1 && x in now)
  {
    hide Ranking;
    var p := NewcomerIsInserted(rank, pool, x);
    var a, b := Ranking(rank, pool), Ranking(rank, pool + {x});
    var earlier, now := Take(a, n), Take(b, n);
    forall k | k in now ensures k == x || k in earlier {
      var i :| 0 <= i < |now| && now[i] == k;
      assert b[i] == k;
      if i < p { assert k == a[i] == earlier[i]; }
      else if i > p { assert k == a[i - 1] == earlier[i - 1]; }
    }
    assert forall m | 0 <= m < |now| :: b[m] == now[m] && now[m] in now;
    forall i | 0 <= i < |earlier| && earlier[i] !in now ensures i == n - 1 && x in now {
      assert earlier[i] == a[i] == b[if i < p then i else i + 1];
      assert b[p] == x;
    }
  }
}
