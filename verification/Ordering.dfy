/** Lexicographic order on sequences of numbers, and the one increasing listing of a finite set of keys. */
module Ordering {

  function Max(a: int, b: int): int { if a < b then b else a }

  // The order every string comparison in the program reduces to: first difference decides,
  // a proper prefix comes first.
  predicate LexLess(a: seq<int>, b: seq<int>)
  {
    |b| > 0 && (|a| == 0 || a[0] < b[0] || (a[0] == b[0] && LexLess(a[1..], b[1..])))
  }

  lemma LexIrreflexive(a: seq<int>)
    ensures !LexLess(a, a)
  {
  }

  lemma LexTransitive(a: seq<int>, b: seq<int>, c: seq<int>)
    requires LexLess(a, b) && LexLess(b, c)
    ensures LexLess(a, c)
  {
  }

  lemma {:induction false} LexTotal(a: seq<int>, b: seq<int>)
    ensures LexLess(a, b) || a == b || LexLess(b, a)
  {
    if |a| > 0 && |b| > 0 && a[0] == b[0] {
      LexTotal(a[1..], b[1..]);
      assert a == [a[0]] + a[1..] && b == [b[0]] + b[1..];
    }
  }

  // A common prefix never influences the comparison.
  lemma {:induction false} LexCommonPrefix(p: seq<int>, a: seq<int>, b: seq<int>)
    ensures LexLess(p + a, p + b) <==> LexLess(a, b)
  {
    if p == [] {
      assert p + a == a && p + b == b;
    } else {
      assert (p + a)[1..] == p[1..] + a && (p + b)[1..] == p[1..] + b;
      LexCommonPrefix(p[1..], a, b);
    }
  }

  // The first difference decides, whatever follows it.
  lemma LexFirstDifference(a: seq<int>, b: seq<int>, i: nat, x: seq<int>, y: seq<int>)
    requires i < |a| && i < |b| && a[..i] == b[..i] && a[i] < b[i]
    ensures LexLess(a + x, b + y)
  {
    var p := a[..i];
    assert a + x == p + (a[i..] + x);
    assert b + y == p + (b[i..] + y);
    LexCommonPrefix(p, a[i..] + x, b[i..] + y);
  }

  lemma {:induction false} DistinctLength(keys: seq<string>, ks: set<string>)
    requires forall i, j | 0 <= i < j < |keys| :: keys[i] != keys[j]
    requires forall k :: k in keys <==> k in ks
    ensures |keys| == |ks|
  {
    if keys == [] {
      assert ks == {};
    } else {
      assert keys == [keys[0]] + keys[1..];
      DistinctLength(keys[1..], ks - {keys[0]});
    }
  }
}
