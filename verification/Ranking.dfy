/** First-wins argmax per key: the pattern `best[key] = f` over an insertion-ordered dict that
    `merge_findings`, `summarize_deprecated_apis`, `summarize_compatibility`,
    `gather_components` and `collect_software_inventory` all follow. */
module Ranking {
  import opened Wrappers

  // ---------------------------------------------------------------- specification

  /** The keys of `items` in order of first appearance. */
  function Keys<T, K(==)>(items: seq<T>, key: T -> K): seq<K> {
    if |items| == 0 then []
    else
      var before := Keys(items[..|items|-1], key);
      var k := key(items[|items|-1]);
      if k in before then before else before + [k]
  }

  /** The better of two candidates; the earlier one wins a tie. */
  function Better<T>(a: Option<T>, b: Option<T>, score: T -> int): Option<T> {
    if a.None? then b
    else if b.None? || score(b.value) <= score(a.value) then a
    else b
  }

  function Only<T, K(==)>(x: T, key: T -> K, k: K): Option<T> {
    if key(x) == k then Some(x) else None
  }

  /** The item of highest score among those with key `k`, the first of them on a tie. */
  function Best<T, K(==)>(items: seq<T>, key: T -> K, score: T -> int, k: K): Option<T> {
    if |items| == 0 then None
    else Better(Best(items[..|items|-1], key, score, k), Only(items[|items|-1], key, k), score)
  }

  lemma {:induction false} KeyHasBest<T, K>(items: seq<T>, key: T -> K, score: T -> int, k: K)
    ensures k in Keys(items, key) <==> Best(items, key, score, k).Some?
    ensures Best(items, key, score, k).Some? ==>
      key(Best(items, key, score, k).value) == k && Best(items, key, score, k).value in items
  {
    if |items| == 0 {
    } else {
      KeyHasBest(items[..|items|-1], key, score, k);
    }
  }

  function BestOf<T, K(==)>(items: seq<T>, key: T -> K, score: T -> int, k: K): T
    requires k in Keys(items, key)
  {
    KeyHasBest(items, key, score, k);
    Best(items, key, score, k).value
  }

  /** One row per key, in order of first appearance: `list(best.values())`. */
  function Rows<T, K(==)>(items: seq<T>, key: T -> K, score: T -> int): (rows: seq<T>)
    ensures |rows| == |Keys(items, key)|
  {
    var ks := Keys(items, key);
    seq(|ks|, i requires 0 <= i < |ks| => BestOf(items, key, score, ks[i]))
  }

  // ---------------------------------------------------------------- the specification is the right one

  /** Position `i` holds the first item of maximal score among those with key `k`. */
  ghost predicate FirstArgmax<T, K>(items: seq<T>, key: T -> K, score: T -> int, k: K, i: int) {
    && 0 <= i < |items| && key(items[i]) == k
    && (forall j :: 0 <= j < |items| && key(items[j]) == k ==> score(items[j]) <= score(items[i]))
    && (forall j :: 0 <= j < i && key(items[j]) == k ==> score(items[j]) < score(items[i]))
  }

  lemma {:induction false} BestAt<T, K>(items: seq<T>, key: T -> K, score: T -> int, k: K) returns (i: int)
    requires Best(items, key, score, k).Some?
    ensures FirstArgmax(items, key, score, k, i)
    ensures Best(items, key, score, k) == Some(items[i])
  {
    var init, x := items[..|items|-1], items[|items|-1];
    i := |items| - 1;
    if Best(init, key, score, k).Some? {
      var j := BestAt(init, key, score, k);
      if key(x) != k || score(x) <= score(init[j]) {
        i := j;
      }
    } else {
      forall j | 0 <= j < |init| && key(items[j]) == k
        ensures false
      {
        KeyCovers(init, key, j);
        KeyHasBest(init, key, score, k);
      }
    }
  }

  lemma {:induction false} KeyCovers<T, K>(items: seq<T>, key: T -> K, j: nat)
    requires j < |items|
    ensures key(items[j]) in Keys(items, key)
  {
    if j < |items| - 1 {
      KeyCovers(items[..|items|-1], key, j);
    }
  }

  /** The specification against its definition: an item is the best for `k` exactly when it
      stands at the first position of maximal score among the items with that key. */
  lemma BestIsFirstArgmax<T, K>(items: seq<T>, key: T -> K, score: T -> int, k: K, x: T)
    ensures Best(items, key, score, k) == Some(x) <==>
      exists i :: FirstArgmax(items, key, score, k, i) && items[i] == x
  {
    if Best(items, key, score, k) == Some(x) {
      var i := BestAt(items, key, score, k);
    }
    forall i | FirstArgmax(items, key, score, k, i)
      ensures Best(items, key, score, k) == Some(items[i])
    {
      KeyCovers(items, key, i);
      KeyHasBest(items, key, score, k);
      var j := BestAt(items, key, score, k);
      assert i == j;
    }
  }

  lemma {:induction false} KeysDistinct<T, K>(items: seq<T>, key: T -> K)
    ensures forall i, j :: 0 <= i < j < |Keys(items, key)| ==> Keys(items, key)[i] != Keys(items, key)[j]
  {
    if |items| == 0 {
    } else {
      KeysDistinct(items[..|items|-1], key);
    }
  }

  /** The rows: distinct keys, no key lost, no row invented, each row the best for its key. */
  lemma RowsExact<T, K>(items: seq<T>, key: T -> K, score: T -> int)
    ensures forall i :: 0 <= i < |Rows(items, key, score)| ==>
      && key(Rows(items, key, score)[i]) == Keys(items, key)[i]
      && Rows(items, key, score)[i] in items
    ensures forall i, j :: 0 <= i < j < |Rows(items, key, score)| ==>
      key(Rows(items, key, score)[i]) != key(Rows(items, key, score)[j])
    ensures forall j :: 0 <= j < |items| ==> key(items[j]) in Keys(items, key)
  {
    KeysDistinct(items, key);
    forall i | 0 <= i < |Rows(items, key, score)|
      ensures key(Rows(items, key, score)[i]) == Keys(items, key)[i]
      ensures Rows(items, key, score)[i] in items
    {
      KeyHasBest(items, key, score, Keys(items, key)[i]);
    }
    forall j | 0 <= j < |items|
      ensures key(items[j]) in Keys(items, key)
    {
      KeyCovers(items, key, j);
    }
  }

  lemma RowsStayIn<T, K>(items: seq<T>, key: T -> K, score: T -> int)
    ensures forall x :: x in Rows(items, key, score) ==> x in items
  {
    RowsExact(items, key, score);
  }

  /** The row of an item's key: it exists, and no item with that key scores higher. */
  lemma RowAbove<T, K>(items: seq<T>, key: T -> K, score: T -> int, j: nat) returns (i: nat)
    requires j < |items|
    ensures i < |Rows(items, key, score)|
    ensures key(Rows(items, key, score)[i]) == key(items[j])
    ensures score(items[j]) <= score(Rows(items, key, score)[i])
  {
    KeyCovers(items, key, j);
    var k := key(items[j]);
    i :| 0 <= i < |Keys(items, key)| && Keys(items, key)[i] == k;
    KeyHasBest(items, key, score, k);
    var at := BestAt(items, key, score, k);
  }

  // ---------------------------------------------------------------- order of the rows

  /** No earlier item shares the key of the item at `p`. */
  ghost predicate FirstWithKey<T, K>(items: seq<T>, key: T -> K, p: int) {
    0 <= p < |items| && forall r :: 0 <= r < p ==> key(items[r]) != key(items[p])
  }

  /** Keys stand in the order in which they first occur. */
  lemma {:induction false} KeysInOrder<T, K>(items: seq<T>, key: T -> K, i: nat, j: nat) returns (p: nat, q: nat)
    requires i < j < |Keys(items, key)|
    ensures p < q < |items|
    ensures FirstWithKey(items, key, p) && key(items[p]) == Keys(items, key)[i]
    ensures FirstWithKey(items, key, q) && key(items[q]) == Keys(items, key)[j]
  {
    var n := |items| - 1;
    if j < |Keys(items[..n], key)| {
      p, q := KeysInOrder(items[..n], key, i, j);
    } else {
      q := n;
      p := KeyFirst(items[..n], key, i);
      forall r | 0 <= r < n
        ensures key(items[r]) != key(items[n])
      {
        KeyCovers(items[..n], key, r);
      }
    }
  }

  lemma {:induction false} KeyFirst<T, K>(items: seq<T>, key: T -> K, i: nat) returns (p: nat)
    requires i < |Keys(items, key)|
    ensures p < |items| && FirstWithKey(items, key, p) && key(items[p]) == Keys(items, key)[i]
  {
    var n := |items| - 1;
    if i < |Keys(items[..n], key)| {
      p := KeyFirst(items[..n], key, i);
    } else {
      p := n;
      forall r | 0 <= r < n
        ensures key(items[r]) != key(items[n])
      {
        KeyCovers(items[..n], key, r);
      }
    }
  }

  // ---------------------------------------------------------------- laws

  /** What is best in a concatenation is the better of the two halves' best. */
  lemma {:induction false} BestConcat<T, K>(a: seq<T>, b: seq<T>, key: T -> K, score: T -> int, k: K)
    ensures Best(a + b, key, score, k) == Better(Best(a, key, score, k), Best(b, key, score, k), score)
  {
    if |b| == 0 {
      assert a + b == a;
    } else {
      BestConcat(a, b[..|b|-1], key, score, k);
      assert (a + b)[..|a + b|-1] == a + b[..|b|-1];
    }
  }

  lemma {:induction false} BestOfDistinct<T, K>(rows: seq<T>, key: T -> K, score: T -> int, i: nat)
    requires i < |rows|
    requires forall m, n :: 0 <= m < n < |rows| ==> key(rows[m]) != key(rows[n])
    ensures Best(rows, key, score, key(rows[i])) == Some(rows[i])
  {
    assert FirstArgmax(rows, key, score, key(rows[i]), i);
    BestIsFirstArgmax(rows, key, score, key(rows[i]), rows[i]);
  }

  lemma BestOfRows<T, K>(items: seq<T>, key: T -> K, score: T -> int, k: K)
    ensures Best(Rows(items, key, score), key, score, k) == Best(items, key, score, k)
  {
    var rows := Rows(items, key, score);
    RowsExact(items, key, score);
    KeyHasBest(items, key, score, k);
    KeyHasBest(rows, key, score, k);
    if k in Keys(items, key) {
      var i :| 0 <= i < |rows| && Keys(items, key)[i] == k;
      BestOfDistinct(rows, key, score, i);
    } else {
      forall i | 0 <= i < |rows|
        ensures key(rows[i]) != k
      {
        assert key(rows[i]) == Keys(items, key)[i];
      }
      if Best(rows, key, score, k).Some? {
        var i := BestAt(rows, key, score, k);
      }
    }
  }

  lemma {:induction false} KeysAbsorbRight<T, K>(a: seq<T>, b: seq<T>, c: seq<T>, key: T -> K)
    requires |c| == |Keys(b, key)|
    requires forall i :: 0 <= i < |c| ==> key(c[i]) == Keys(b, key)[i]
    ensures Keys(a + c, key) == Keys(a + b, key)
    decreases |b|
  {
    if |b| == 0 {
      assert a + c == a && a + b == a;
    } else {
      var init, k := b[..|b|-1], key(b[|b|-1]);
      assert (a + b)[..|a + b|-1] == a + init;
      if k in Keys(init, key) {
        KeysAbsorbRight(a, init, c, key);
        var j :| 0 <= j < |c| && Keys(init, key)[j] == k;
        KeyCovers(a + c, key, |a| + j);
      } else {
        KeysAbsorbRight(a, init, c[..|c|-1], key);
        assert (a + c)[..|a + c|-1] == a + c[..|c|-1];
      }
    }
  }

  /** A block of items with one key adds that key, unless it is there or the block is empty. */
  lemma {:induction false} KeysOfBlock<T, K>(a: seq<T>, block: seq<T>, key: T -> K, k: K)
    requires forall i :: 0 <= i < |block| ==> key(block[i]) == k
    ensures Keys(a + block, key) ==
      if |block| == 0 || k in Keys(a, key) then Keys(a, key) else Keys(a, key) + [k]
    decreases |block|
  {
    if |block| == 0 {
      assert a + block == a;
    } else {
      KeysOfBlock(a, block[..|block|-1], key, k);
      assert (a + block)[..|a + block|-1] == a + block[..|block|-1];
    }
  }

  lemma {:induction false} KeysAbsorbLeft<T, K>(a: seq<T>, c: seq<T>, b: seq<T>, key: T -> K)
    requires Keys(a, key) == Keys(c, key)
    ensures Keys(a + b, key) == Keys(c + b, key)
    decreases |b|
  {
    if |b| == 0 {
      assert a + b == a && c + b == c;
    } else {
      KeysAbsorbLeft(a, c, b[..|b|-1], key);
      assert (a + b)[..|a + b|-1] == a + b[..|b|-1];
      assert (c + b)[..|c + b|-1] == c + b[..|b|-1];
    }
  }

  lemma RowsExtensional<T, K>(a: seq<T>, b: seq<T>, key: T -> K, score: T -> int)
    requires Keys(a, key) == Keys(b, key)
    requires forall i :: 0 <= i < |Keys(a, key)| ==>
      Best(a, key, score, Keys(a, key)[i]) == Best(b, key, score, Keys(a, key)[i])
    ensures Rows(a, key, score) == Rows(b, key, score)
  {
  }

  lemma RowsKeys<T, K>(a: seq<T>, key: T -> K, score: T -> int)
    ensures Keys(Rows(a, key, score), key) == Keys(a, key)
  {
    RowsExact(a, key, score);
    KeysOf(a, Rows(a, key, score), key);
  }

  lemma KeysOf<T, K>(a: seq<T>, rows: seq<T>, key: T -> K)
    requires |rows| == |Keys(a, key)|
    requires forall i :: 0 <= i < |rows| ==> key(rows[i]) == Keys(a, key)[i]
    ensures Keys(rows, key) == Keys(a, key)
  {
    var none: seq<T> := a[..0];
    KeysAbsorbRight(none, a, rows, key);
    assert none + a == a && none + rows == rows;
  }

  lemma RowsAbsorbLeft<T, K>(a: seq<T>, b: seq<T>, key: T -> K, score: T -> int)
    ensures Rows(Rows(a, key, score) + b, key, score) == Rows(a + b, key, score)
  {
    var ra := Rows(a, key, score);
    RowsKeys(a, key, score);
    KeysAbsorbLeft(ra, a, b, key);
    forall i | 0 <= i < |Keys(a + b, key)|
      ensures Best(ra + b, key, score, Keys(a + b, key)[i]) == Best(a + b, key, score, Keys(a + b, key)[i])
    {
      var k := Keys(a + b, key)[i];
      BestConcat(ra, b, key, score, k);
      BestConcat(a, b, key, score, k);
      BestOfRows(a, key, score, k);
    }
    RowsExtensional(ra + b, a + b, key, score);
  }

  lemma RowsAbsorbRight<T, K>(a: seq<T>, b: seq<T>, key: T -> K, score: T -> int)
    ensures Rows(a + Rows(b, key, score), key, score) == Rows(a + b, key, score)
  {
    var rb := Rows(b, key, score);
    RowsExact(b, key, score);
    KeysAbsorbRight(a, b, rb, key);
    forall i | 0 <= i < |Keys(a + b, key)|
      ensures Best(a + rb, key, score, Keys(a + b, key)[i]) == Best(a + b, key, score, Keys(a + b, key)[i])
    {
      var k := Keys(a + b, key)[i];
      BestConcat(a, rb, key, score, k);
      BestConcat(a, b, key, score, k);
      BestOfRows(b, key, score, k);
    }
    RowsExtensional(a + rb, a + b, key, score);
  }

  lemma RowsIdempotent<T, K>(a: seq<T>, key: T -> K, score: T -> int)
    ensures Rows(Rows(a, key, score), key, score) == Rows(a, key, score)
  {
    var none: seq<T> := a[..0];
    RowsAbsorbRight(none, a, key, score);
    assert none + a == a && none + Rows(a, key, score) == Rows(a, key, score);
  }

  lemma RowsAssociative<T, K>(a: seq<T>, b: seq<T>, c: seq<T>, key: T -> K, score: T -> int)
    ensures Rows(Rows(a + b, key, score) + c, key, score) == Rows(a + Rows(b + c, key, score), key, score)
  {
    RowsAbsorbLeft(a + b, c, key, score);
    RowsAbsorbRight(a, b + c, key, score);
    Associative(a, b, c);
  }

  lemma Associative<T>(a: seq<T>, b: seq<T>, c: seq<T>)
    ensures (a + b) + c == a + (b + c)
  {
  }

  /** Ranking part of the input beforehand, on either side, changes nothing: ranking is
      idempotent, and associative over groups. */
  lemma RowsAbsorb<T, K>(a: seq<T>, b: seq<T>, c: seq<T>, key: T -> K, score: T -> int)
    ensures Rows(Rows(a, key, score), key, score) == Rows(a, key, score)
    ensures Rows(Rows(a + b, key, score) + c, key, score) == Rows(a + Rows(b + c, key, score), key, score)
  {
    RowsIdempotent(a, key, score);
    RowsAssociative(a, b, c, key, score);
  }

  lemma RowsOne<T, K>(x: T, key: T -> K, score: T -> int)
    ensures Rows([x], key, score) == [x]
  {
    var none: seq<T> := [x][..0];
    assert Keys(none, key) == [] && Keys([x], key) == [] + [key(x)];
    assert Best([x], key, score, key(x)) == Some(x);
  }

  /** Order independence: with the same items in any order or grouping, the same keys get a
      row, and the row of each key has the same score. */
  lemma OrderFree<T, K>(a: seq<T>, b: seq<T>, key: T -> K, score: T -> int, k: K)
    requires forall x :: x in a <==> x in b
    ensures Best(a, key, score, k).Some? <==> Best(b, key, score, k).Some?
    ensures Best(a, key, score, k).Some? ==>
      score(Best(a, key, score, k).value) == score(Best(b, key, score, k).value)
  {
    ScoreGrows(a, b, key, score, k);
    ScoreGrows(b, a, key, score, k);
  }

  /** More items never lower the row of a key. */
  lemma ScoreGrows<T, K>(a: seq<T>, b: seq<T>, key: T -> K, score: T -> int, k: K)
    requires forall x :: x in a ==> x in b
    ensures Best(a, key, score, k).Some? ==>
      && Best(b, key, score, k).Some?
      && score(Best(a, key, score, k).value) <= score(Best(b, key, score, k).value)
  {
    KeyHasBest(a, key, score, k);
    if Best(a, key, score, k).Some? {
      var x := Best(a, key, score, k).value;
      var j :| 0 <= j < |b| && b[j] == x;
      KeyCovers(b, key, j);
      KeyHasBest(b, key, score, k);
      var i := BestAt(b, key, score, k);
    }
  }

  // ---------------------------------------------------------------- weights

  function Sum<T>(rows: seq<T>, weight: T -> nat): nat {
    if |rows| == 0 then 0 else Sum(rows[..|rows|-1], weight) + weight(rows[|rows|-1])
  }

  lemma {:induction false} SumConcat<T>(a: seq<T>, b: seq<T>, weight: T -> nat)
    ensures Sum(a + b, weight) == Sum(a, weight) + Sum(b, weight)
  {
    if |b| == 0 {
      assert a + b == a;
    } else {
      SumConcat(a, b[..|b|-1], weight);
      assert (a + b)[..|a + b|-1] == a + b[..|b|-1];
    }
  }

  lemma {:induction false} SubsetSum<T>(a: seq<T>, b: seq<T>, weight: T -> nat)
    requires multiset(a) <= multiset(b)
    ensures Sum(a, weight) <= Sum(b, weight)
    decreases |a|
  {
    if |a| == 0 {
    } else {
      var n := |a| - 1;
      assert a[n] in multiset(a);
      assert a[n] in multiset(b);
      var i :| 0 <= i < |b| && b[i] == a[n];
      DropBelow(a, b, i);
      SubsetSum(a[..n], b[..i] + b[i+1..], weight);
      SumWithout(b, i, weight);
    }
  }

  lemma DropBelow<T>(a: seq<T>, b: seq<T>, i: nat)
    requires |a| > 0 && multiset(a) <= multiset(b) && i < |b| && b[i] == a[|a|-1]
    ensures multiset(a[..|a|-1]) <= multiset(b[..i] + b[i+1..])
  {
    Without(b, i);
    Without(a, |a| - 1);
    assert a[..|a|-1] + a[|a|-1+1..] == a[..|a|-1];
    LessOne(multiset(a), multiset(b), b[i]);
  }

  lemma SplitAt<T>(s: seq<T>, i: nat)
    requires i < |s|
    ensures s == s[..i] + ([s[i]] + s[i+1..])
  {
  }

  lemma Middle<T>(front: seq<T>, x: T, back: seq<T>)
    ensures multiset(front + ([x] + back)) - multiset{x} == multiset(front + back)
  {
  }

  lemma Without<T>(s: seq<T>, i: nat)
    requires i < |s|
    ensures multiset(s[..i] + s[i+1..]) == multiset(s) - multiset{s[i]}
  {
    SplitAt(s, i);
    Middle(s[..i], s[i], s[i+1..]);
  }

  lemma LessOne<T>(a: multiset<T>, b: multiset<T>, x: T)
    requires a <= b
    ensures a - multiset{x} <= b - multiset{x}
  {
  }

  lemma SumPermutes<T>(a: seq<T>, b: seq<T>, weight: T -> nat)
    requires multiset(a) == multiset(b)
    ensures Sum(a, weight) == Sum(b, weight)
  {
    SubsetSum(a, b, weight);
    SubsetSum(b, a, weight);
  }

  lemma {:induction false} SumWithout<T>(b: seq<T>, i: nat, weight: T -> nat)
    requires i < |b|
    ensures Sum(b, weight) == Sum(b[..i] + b[i+1..], weight) + weight(b[i])
    decreases |b|
  {
    var n := |b| - 1;
    if i == n {
      assert b[..i] + b[i+1..] == b[..n];
    } else {
      SumWithout(b[..n], i, weight);
      var rest := b[..i] + b[i+1..];
      assert rest[..|rest|-1] == b[..n][..i] + b[..n][i+1..];
    }
  }

  lemma SumOne<T>(x: T, weight: T -> nat)
    ensures Sum([x], weight) == weight(x)
  {
    assert [x][..0] == [];
  }

  /** `b` has a row at least as heavy for row `i` of `a`. */
  ghost predicate Outweighed<T, K>(a: seq<T>, b: seq<T>, key: T -> K, weight: T -> nat, i: int) {
    0 <= i < |a| ==> exists j :: 0 <= j < |b| && key(b[j]) == key(a[i]) && weight(a[i]) <= weight(b[j])
  }

  /** Rows with distinct keys, each outweighed by a row with the same key, weigh less in all. */
  lemma {:induction false} DominatedSum<T, K>(a: seq<T>, b: seq<T>, key: T -> K, weight: T -> nat)
    requires forall i, j :: 0 <= i < j < |a| ==> key(a[i]) != key(a[j])
    requires forall i :: Outweighed(a, b, key, weight, i)
    ensures Sum(a, weight) <= Sum(b, weight)
    decreases |a|
  {
    if |a| == 0 {
    } else {
      var n := |a| - 1;
      assert Outweighed(a, b, key, weight, n);
      var j :| 0 <= j < |b| && key(b[j]) == key(a[n]) && weight(a[n]) <= weight(b[j]);
      var rest := b[..j] + b[j+1..];
      forall i
        ensures Outweighed(a[..n], rest, key, weight, i)
      {
        if 0 <= i < n {
          assert Outweighed(a, b, key, weight, i);
          var m :| 0 <= m < |b| && key(b[m]) == key(a[i]) && weight(a[i]) <= weight(b[m]);
          assert m != j;
          assert rest[if m < j then m else m - 1] == b[m];
        }
      }
      DominatedSum(a[..n], rest, key, weight);
      SumWithout(b, j, weight);
    }
  }

  /** With a weight that grows with the score, evidence added anywhere never makes the ranked
      rows weigh less. */
  lemma MoreWeighsMore<T(!new), K>(a: seq<T>, b: seq<T>, key: T -> K, score: T -> int, weight: T -> nat)
    requires forall x :: x in a ==> x in b
    requires forall x, y :: score(x) <= score(y) ==> weight(x) <= weight(y)
    ensures Sum(Rows(a, key, score), weight) <= Sum(Rows(b, key, score), weight)
  {
    var ra, rb := Rows(a, key, score), Rows(b, key, score);
    RowsExact(a, key, score);
    forall i
      ensures Outweighed(ra, rb, key, weight, i)
    {
      if 0 <= i < |ra| {
        assert ra[i] in b;
        var j :| 0 <= j < |b| && b[j] == ra[i];
        var r := RowAbove(b, key, score, j);
        assert weight(b[j]) <= weight(rb[r]);
      }
    }
    DominatedSum(ra, rb, key, weight);
  }

  // ---------------------------------------------------------------- the dict

  /** A dict with Python's insertion order: overwriting a value keeps its place. */
  datatype Dict<K(==), V> = Dict(order: seq<K>, at: map<K, V>)

  function Empty<K, V>(): Dict<K, V> {
    Dict([], map[])
  }

  function Put<K(==), V>(d: Dict<K, V>, k: K, v: V): Dict<K, V> {
    Dict(if k in d.at then d.order else d.order + [k], d.at[k := v])
  }

  ghost predicate Listed<K, V>(d: Dict<K, V>) {
    forall i :: 0 <= i < |d.order| ==> d.order[i] in d.at
  }

  function Values<K(==), V>(d: Dict<K, V>): seq<V>
    requires Listed(d)
  {
    seq(|d.order|, i requires 0 <= i < |d.order| => d.at[d.order[i]])
  }

  /** The dict after a run over `items`: their keys in order, the best item at each. */
  ghost predicate Holds<T, K(!new)>(d: Dict<K, T>, items: seq<T>, key: T -> K, score: T -> int) {
    && d.order == Keys(items, key)
    && forall k :: Best(items, key, score, k) == if k in d.at then Some(d.at[k]) else None
  }

  lemma HoldsEmpty<T, K(!new)>(key: T -> K, score: T -> int)
    ensures Holds(Empty<K, T>(), [], key, score)
  {
  }

  /** One round of the loop: overwrite on a new key or a strictly better item, else skip. */
  lemma HoldsNext<T, K(!new)>(d: Dict<K, T>, items: seq<T>, x: T, key: T -> K, score: T -> int)
    requires Holds(d, items, key, score)
    ensures key(x) !in d.at || score(x) > score(d.at[key(x)]) ==>
      Holds(Put(d, key(x), x), items + [x], key, score)
    ensures key(x) in d.at && score(x) <= score(d.at[key(x)]) ==> Holds(d, items + [x], key, score)
  {
    assert (items + [x])[..|items|] == items;
    KeyHasBest(items, key, score, key(x));
  }

  lemma HoldsRows<T, K(!new)>(d: Dict<K, T>, items: seq<T>, key: T -> K, score: T -> int)
    requires Holds(d, items, key, score)
    ensures Listed(d) && Values(d) == Rows(items, key, score)
  {
    forall i | 0 <= i < |d.order|
      ensures d.order[i] in d.at && d.at[d.order[i]] == Rows(items, key, score)[i]
    {
      KeyHasBest(items, key, score, d.order[i]);
    }
  }
}
