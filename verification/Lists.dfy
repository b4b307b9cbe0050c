/** List comprehensions, and what is left of a list that several of them share out. */
module Lists {
  import opened Traces

  /** `[x for x in items if keep(x)]`. */
  function Filter<T>(items: seq<T>, keep: T -> bool): (kept: seq<T>)
    ensures |kept| > 0 ==> keep(kept[0])
    ensures |kept| == 0 <==> forall i :: 0 <= i < |items| ==> !keep(items[i])
  {
    if |items| == 0 then []
    else if keep(items[0]) then [items[0]] + Filter(items[1..], keep)
    else Filter(items[1..], keep)
  }

  lemma {:induction false} FilterTwice<T>(items: seq<T>, first: T -> bool, second: T -> bool, both: T -> bool)
    requires forall i :: 0 <= i < |items| ==> (both(items[i]) <==> first(items[i]) && second(items[i]))
    ensures Filter(Filter(items, first), second) == Filter(items, both)
  {
    if |items| == 0 {
    } else {
      FilterTwice(items[1..], first, second, both);
      var rest := Filter(items[1..], first);
      assert ([items[0]] + rest)[1..] == rest;
    }
  }

  lemma {:induction false} FilterAll<T>(items: seq<T>, keep: T -> bool)
    requires forall i :: 0 <= i < |items| ==> keep(items[i])
    ensures Filter(items, keep) == items
  {
    if |items| == 0 {
    } else {
      FilterAll(items[1..], keep);
    }
  }

  lemma {:induction false} FilterFirst<T>(items: seq<T>, keep: T -> bool, i: nat)
    requires i < |items| && keep(items[i]) && forall j :: 0 <= j < i ==> !keep(items[j])
    ensures Filter(items, keep) != [] && Filter(items, keep)[0] == items[i]
  {
    if i == 0 {
    } else {
      FilterFirst(items[1..], keep, i - 1);
    }
  }

  lemma {:induction false} FilterKeeps<T>(items: seq<T>, keep: T -> bool, i: nat)
    requires i < |Filter(items, keep)|
    ensures keep(Filter(items, keep)[i])
  {
    if !keep(items[0]) {
      FilterKeeps(items[1..], keep, i);
    } else if i > 0 {
      FilterKeeps(items[1..], keep, i - 1);
    }
  }

  lemma {:induction false} FilterSnoc<T>(items: seq<T>, x: T, keep: T -> bool)
    ensures Filter(items + [x], keep) == Filter(items, keep) + if keep(x) then [x] else []
  {
    if |items| == 0 {
      assert [x][1..] == [];
    } else {
      FilterSnoc(items[1..], x, keep);
      assert (items + [x])[1..] == items[1..] + [x];
    }
  }

  /** Filtering keeps or drops all the copies of an item. */
  lemma {:induction false} FilterMultiplicity<T>(items: seq<T>, keep: T -> bool, x: T)
    ensures multiset(Filter(items, keep))[x] == if keep(x) then multiset(items)[x] else 0
  {
    if |items| == 0 {
    } else {
      FilterMultiplicity(items[1..], keep, x);
      assert items == [items[0]] + items[1..];
    }
  }

  /** One filtered copy of the list per tag. */
  function Shares<T, L>(items: seq<T>, belongs: L -> T -> bool, tags: seq<L>): (shares: seq<seq<T>>)
    ensures |shares| == |tags|
    ensures forall i :: 0 <= i < |shares| ==> shares[i] == Filter(items, belongs(tags[i]))
  {
    seq(|tags|, i requires 0 <= i < |tags| => Filter(items, belongs(tags[i])))
  }

  /** How many copies of `x` the shares hold, if the list holds `copies` of it. */
  function Dealt<T, L>(belongs: L -> T -> bool, tags: seq<L>, x: T, copies: nat): nat {
    if |tags| == 0 then 0
    else Dealt(belongs, tags[..|tags|-1], x, copies) + if belongs(tags[|tags|-1])(x) then copies else 0
  }

  lemma {:induction false} SharesDealt<T, L>(items: seq<T>, belongs: L -> T -> bool, tags: seq<L>, x: T)
    ensures multiset(Join(Shares(items, belongs, tags)))[x] == Dealt(belongs, tags, x, multiset(items)[x])
    decreases |tags|
  {
    if |tags| > 0 {
      SharesDealt(items, belongs, tags[..|tags|-1], x);
      SharesSplit(items, belongs, tags, x);
    } else {
      assert Join(Shares(items, belongs, tags)) == [];
    }
  }

  lemma SharesSplit<T, L>(items: seq<T>, belongs: L -> T -> bool, tags: seq<L>, x: T)
    requires |tags| > 0
    ensures multiset(Join(Shares(items, belongs, tags)))[x] ==
      multiset(Join(Shares(items, belongs, tags[..|tags|-1])))[x] + if belongs(tags[|tags|-1])(x) then multiset(items)[x] else 0
  {
    var n := |tags| - 1;
    var all, front, last := Shares(items, belongs, tags), Shares(items, belongs, tags[..n]), Filter(items, belongs(tags[n]));
    assert all[..n] == front && all[n] == last;
    assert Join(all) == Join(front) + last;
    FilterMultiplicity(items, belongs(tags[n]), x);
    assert multiset(Join(front) + last)[x] == multiset(Join(front))[x] + multiset(last)[x];
  }

  /** An item that belongs to no tag is not dealt out; to one tag, once; to all, once per tag. */
  lemma {:induction false} DealtExactly<T, L>(belongs: L -> T -> bool, tags: seq<L>, x: T, copies: nat)
    ensures (forall i :: 0 <= i < |tags| ==> !belongs(tags[i])(x)) ==> Dealt(belongs, tags, x, copies) == 0
    ensures (forall i :: 0 <= i < |tags| ==> belongs(tags[i])(x)) ==> Dealt(belongs, tags, x, copies) == |tags| * copies
    decreases |tags|
  {
    if |tags| == 0 {
    } else {
      DealtExactly(belongs, tags[..|tags|-1], x, copies);
      OneMore(|tags| - 1, copies);
    }
  }

  lemma OneMore(h: nat, m: nat)
    ensures (h + 1) * m == h * m + m
  {
  }

  lemma {:induction false} DealtOnce<T, L>(belongs: L -> T -> bool, tags: seq<L>, x: T, copies: nat, at: nat)
    requires at < |tags| && forall i :: 0 <= i < |tags| ==> (belongs(tags[i])(x) <==> i == at)
    ensures Dealt(belongs, tags, x, copies) == copies
    decreases |tags|
  {
    var init := tags[..|tags|-1];
    if at == |tags| - 1 {
      DealtExactly(belongs, init, x, copies);
    } else {
      DealtOnce(belongs, init, x, copies, at);
    }
  }
}
