/** Word frequencies as `Counter(words)` computes them, and the top-n
    selection of `Counter.most_common(n)`. */
module Frequency {

  /** Number of occurrences of `w` in `ws`. */
  function Count(ws: seq<string>, w: string): (n: nat)
    ensures n == multiset(ws)[w]
  {
    if ws == [] then 0
    else
      assert ws == [ws[0]] + ws[1..];
      (if ws[0] == w then 1 else 0) + Count(ws[1..], w)
  }

  predicate NoDuplicates<T(==)>(s: seq<T>) {
    forall i, j :: 0 <= i < j < |s| ==> s[i] != s[j]
  }

  /** The distinct words of `ws` in the order they are first met: the key order
      of the counter. */
  function Distinct(ws: seq<string>): (d: seq<string>)
    ensures forall w :: w in d <==> w in ws
    ensures NoDuplicates(d)
  {
    if ws == [] then []
    else
      var d := Distinct(ws[..|ws| - 1]);
      var w := ws[|ws| - 1];
      assert ws == ws[..|ws| - 1] + [w];
      if w in d then d else d + [w]
  }

  /** Position of the first occurrence of `w` in `ws`. */
  function FirstIndex(ws: seq<string>, w: string): (k: nat)
    requires w in ws
    ensures k < |ws| && ws[k] == w && w !in ws[..k]
  {
    if ws[0] == w then 0
    else
      var k := FirstIndex(ws[1..], w);
      assert ws[..k + 1] == [ws[0]] + ws[1..][..k];
      k + 1
  }

  /** An occurrence with no earlier one is the first occurrence. */
  lemma FirstIndexUnique(ws: seq<string>, w: string, k: nat)
    requires k < |ws| && ws[k] == w && w !in ws[..k]
    ensures FirstIndex(ws, w) == k
  {
  }

  /** The keys come in the order of their first occurrences. */
  lemma {:induction false} DistinctOrder(ws: seq<string>)
    ensures forall i, j :: 0 <= i < j < |Distinct(ws)| ==>
              FirstIndex(ws, Distinct(ws)[i]) < FirstIndex(ws, Distinct(ws)[j])
  {
    if ws != [] {
      var front, w := ws[..|ws| - 1], ws[|ws| - 1];
      var d := Distinct(front);
      DistinctOrder(front);
      assert ws == front + [w];
      forall x | x in front ensures FirstIndex(ws, x) == FirstIndex(front, x) {
        var k := FirstIndex(front, x);
        assert ws[..k] == front[..k];
        FirstIndexUnique(ws, x, k);
      }
      if w !in d {
        assert ws[..|front|] == front;
        FirstIndexUnique(ws, w, |front|);
      }
    }
  }

  /** (word, count) for the words of `keys`, in that order. */
  function Pairs(ws: seq<string>, keys: seq<string>): (r: seq<(string, nat)>)
    ensures |r| == |keys|
    ensures forall k :: 0 <= k < |r| ==> r[k] == (keys[k], Count(ws, keys[k]))
  {
    if keys == [] then [] else [(keys[0], Count(ws, keys[0]))] + Pairs(ws, keys[1..])
  }

  /** The items of `Counter(ws)`: each distinct word with its count, in
      first-occurrence order. Every word of the list has its item, every item
      is a word of the list with its number of occurrences, and no word has
      two items. */
  function CounterItems(ws: seq<string>): (r: seq<(string, nat)>)
    ensures forall k :: 0 <= k < |r| ==> r[k].0 in ws && r[k].1 == multiset(ws)[r[k].0]
    ensures forall w :: w in ws ==> (w, multiset(ws)[w]) in r
    ensures forall i, j :: 0 <= i < j < |r| ==> r[i].0 != r[j].0
  {
    var keys := Distinct(ws);
    var r := Pairs(ws, keys);
    assert forall w :: w in ws ==> (w, multiset(ws)[w]) in r by {
      forall w | w in ws ensures (w, multiset(ws)[w]) in r {
        var k :| 0 <= k < |keys| && keys[k] == w;
        assert r[k] == (w, multiset(ws)[w]);
      }
    }
    r
  }

  function SumCounts(ps: seq<(string, nat)>): nat {
    if ps == [] then 0 else ps[0].1 + SumCounts(ps[1..])
  }

  // ----- Counts sum to the number of words -----

  lemma {:induction false} NoDuplicatesOnce(keys: seq<string>, x: string)
    requires NoDuplicates(keys) && x in keys
    ensures Count(keys, x) == 1
  {
    if keys[0] != x {
      NoDuplicatesOnce(keys[1..], x);
    } else {
      assert x !in keys[1..] by {
        forall k | 0 <= k < |keys[1..]| ensures keys[1..][k] != x {
          assert keys[1..][k] == keys[k + 1];
        }
      }
    }
  }

  lemma {:induction false} SumOfNothing(keys: seq<string>)
    ensures SumCounts(Pairs([], keys)) == 0
  {
    if keys != [] {
      SumOfNothing(keys[1..]);
    }
  }

  /** Counting one more word adds one to the total over `keys` per time the
      word occurs in `keys`. */
  lemma {:induction false} SumOfCons(x: string, ws: seq<string>, keys: seq<string>)
    ensures SumCounts(Pairs([x] + ws, keys)) == Count(keys, x) + SumCounts(Pairs(ws, keys))
  {
    if keys != [] {
      SumOfCons(x, ws, keys[1..]);
      assert ([x] + ws)[1..] == ws;
    }
  }

  lemma {:induction false} SumOverKeys(ws: seq<string>, keys: seq<string>)
    requires NoDuplicates(keys)
    requires forall w :: w in ws ==> w in keys
    ensures SumCounts(Pairs(ws, keys)) == |ws|
  {
    if ws == [] {
      SumOfNothing(keys);
    } else {
      assert ws == [ws[0]] + ws[1..];
      SumOfCons(ws[0], ws[1..], keys);
      NoDuplicatesOnce(keys, ws[0]);
      SumOverKeys(ws[1..], keys);
    }
  }

  /** The counter's counts add up to the number of words. */
  lemma CounterTotal(ws: seq<string>)
    ensures SumCounts(CounterItems(ws)) == |ws|
  {
    SumOverKeys(ws, Distinct(ws));
  }

  // ----- Stable sort by descending count -----

  predicate SortedByCount(s: seq<(string, nat)>) {
    forall i, j :: 0 <= i < j < |s| ==> s[i].1 >= s[j].1
  }

  /** Place `p` in front of the first item whose count is not larger than its
      own: after every more frequent item, before every equally frequent one. */
  function Insert(p: (string, nat), s: seq<(string, nat)>): seq<(string, nat)> {
    if s == [] then [p]
    else if s[0].1 > p.1 then [s[0]] + Insert(p, s[1..])
    else [p] + s
  }

  /** Inserting adds exactly the one item. */
  lemma {:induction false} InsertPermutes(p: (string, nat), s: seq<(string, nat)>)
    ensures multiset(Insert(p, s)) == multiset(s) + multiset{p}
  {
    if s != [] && s[0].1 > p.1 {
      assert s == [s[0]] + s[1..];
      InsertPermutes(p, s[1..]);
    }
  }

  lemma {:induction false} InsertSorted(p: (string, nat), s: seq<(string, nat)>)
    requires SortedByCount(s)
    ensures SortedByCount(Insert(p, s))
  {
    if s != [] && s[0].1 > p.1 {
      var tail := Insert(p, s[1..]);
      InsertSorted(p, s[1..]);
      InsertPermutes(p, s[1..]);
      var r := [s[0]] + tail;
      forall j | 0 < j < |r| ensures r[0].1 >= r[j].1 {
        assert r[j] in multiset(tail);
        assert r[j] in multiset(s[1..]) + multiset{p};
        if r[j] != p {
          assert r[j] in s[1..];
        }
      }
    }
  }

  /** The items by descending count; items with equal counts keep their order. */
  function SortByCount(ps: seq<(string, nat)>): (r: seq<(string, nat)>)
    ensures multiset(r) == multiset(ps)
    ensures SortedByCount(r)
  {
    if ps == [] then []
    else
      assert ps == [ps[0]] + ps[1..];
      InsertSorted(ps[0], SortByCount(ps[1..]));
      InsertPermutes(ps[0], SortByCount(ps[1..]));
      Insert(ps[0], SortByCount(ps[1..]))
  }

  /** The items with count `c`, in order. */
  function WithCount(s: seq<(string, nat)>, c: nat): seq<(string, nat)> {
    if s == [] then [] else (if s[0].1 == c then [s[0]] else []) + WithCount(s[1..], c)
  }

  lemma WithCountCons(x: (string, nat), t: seq<(string, nat)>, c: nat)
    ensures WithCount([x] + t, c) == (if x.1 == c then [x] else []) + WithCount(t, c)
  {
    assert ([x] + t)[0] == x && ([x] + t)[1..] == t;
  }

  lemma {:induction false} InsertWithCount(p: (string, nat), s: seq<(string, nat)>, c: nat)
    ensures WithCount(Insert(p, s), c) == (if p.1 == c then [p] else []) + WithCount(s, c)
  {
    if s == [] {
      assert Insert(p, s) == [p] + s;
      WithCountCons(p, s, c);
    } else if s[0].1 > p.1 {
      var tail := Insert(p, s[1..]);
      assert Insert(p, s) == [s[0]] + tail;
      assert s == [s[0]] + s[1..];
      WithCountCons(s[0], tail, c);
      WithCountCons(s[0], s[1..], c);
      InsertWithCount(p, s[1..], c);
      // A count above p's cannot equal c when p's does, so one side is empty.
      if p.1 == c {
        assert WithCount(Insert(p, s), c) == WithCount(tail, c);
        assert WithCount(s, c) == WithCount(s[1..], c);
      } else {
        assert WithCount(tail, c) == WithCount(s[1..], c);
      }
    } else {
      assert Insert(p, s) == [p] + s;
      WithCountCons(p, s, c);
    }
  }

  /** The sort is stable: for each count, the items having it appear in the
      same order before and after sorting. */
  lemma {:induction false} SortStable(ps: seq<(string, nat)>, c: nat)
    ensures WithCount(SortByCount(ps), c) == WithCount(ps, c)
  {
    if ps != [] {
      SortStable(ps[1..], c);
      InsertWithCount(ps[0], SortByCount(ps[1..]), c);
    }
  }

  lemma {:induction false} WithCountPrefix(s: seq<(string, nat)>, m: nat, c: nat)
    requires m <= |s|
    ensures WithCount(s[..m], c) <= WithCount(s, c)
  {
    if m > 0 {
      assert s[..m][1..] == s[1..][..m - 1];
      WithCountPrefix(s[1..], m - 1, c);
    }
  }

  // ----- most_common -----

  /** `Counter(ws).most_common(n)`: no items for n <= 0, otherwise the first n
      items (all of them when there are fewer) by descending count, ties in
      first-occurrence order. */
  function MostCommon(ws: seq<string>, n: int): (r: seq<(string, nat)>)
    ensures SortedByCount(r)
    ensures multiset(r) <= multiset(CounterItems(ws))
  {
    Take(SortByCount(CounterItems(ws)), n)
  }

  /** The first n items of `s`; all of them when there are fewer, none when n <= 0. */
  function Take<T>(s: seq<T>, n: int): (r: seq<T>)
    ensures |r| == if n <= 0 then 0 else if n < |s| then n else |s|
    ensures r == s[..|r|]
    ensures multiset(r) <= multiset(s)
  {
    if n <= 0 then []
    else if n < |s| then
      assert s == s[..n] + s[n..];
      s[..n]
    else s
  }

  lemma MultisetTwice<T>(s: seq<T>, i: nat, j: nat)
    requires i < j < |s| && s[i] == s[j]
    ensures multiset(s)[s[i]] >= 2
  {
    assert s == s[..j] + [s[j]] + s[j + 1..];
    assert s[..j][i] == s[i];
  }

  lemma {:induction false} NoDuplicatesMultiset<T>(s: seq<T>, x: T)
    requires NoDuplicates(s)
    ensures multiset(s)[x] <= 1
  {
    if s != [] {
      assert s == [s[0]] + s[1..];
      NoDuplicatesMultiset(s[1..], x);
      if s[0] == x {
        assert x !in s[1..] by {
          forall k | 0 <= k < |s[1..]| ensures s[1..][k] != x {
            assert s[1..][k] == s[k + 1];
          }
        }
      }
    }
  }

  /** The length of `most_common(n)`: min(n, number of distinct words), and
      nothing when n <= 0. */
  lemma MostCommonLength(ws: seq<string>, n: int)
    ensures |MostCommon(ws, n)| == (if n <= 0 then 0 else if n < |Distinct(ws)| then n else |Distinct(ws)|)
  {
    var sorted := SortByCount(CounterItems(ws));
    assert |sorted| == |CounterItems(ws)| by {
      assert |multiset(sorted)| == |multiset(CounterItems(ws))|;
    }
  }

  /** Every item of `most_common(n)` is an item of the counter. */
  lemma MostCommonItems(ws: seq<string>, n: int, k: nat)
    requires k < |MostCommon(ws, n)|
    ensures MostCommon(ws, n)[k] in CounterItems(ws)
  {
    var sorted := SortByCount(CounterItems(ws));
    assert MostCommon(ws, n)[k] == sorted[k];
    assert sorted[k] in multiset(sorted);
  }

  /** Each item of `most_common(n)` is a word of the list with its number of
      occurrences. */
  lemma MostCommonCounts(ws: seq<string>, n: int)
    ensures forall k :: 0 <= k < |MostCommon(ws, n)| ==>
              MostCommon(ws, n)[k].0 in ws && MostCommon(ws, n)[k].1 == multiset(ws)[MostCommon(ws, n)[k].0]
  {
    var items := CounterItems(ws);
    forall k | 0 <= k < |MostCommon(ws, n)|
      ensures MostCommon(ws, n)[k].0 in ws && MostCommon(ws, n)[k].1 == multiset(ws)[MostCommon(ws, n)[k].0]
    {
      MostCommonItems(ws, n, k);
      var i :| 0 <= i < |items| && items[i] == MostCommon(ws, n)[k];
    }
  }

  /** No word is listed twice by `most_common(n)`. */
  lemma MostCommonDistinct(ws: seq<string>, n: int)
    ensures forall i, j :: 0 <= i < j < |MostCommon(ws, n)| ==> MostCommon(ws, n)[i].0 != MostCommon(ws, n)[j].0
  {
    var items := CounterItems(ws);
    var sorted := SortByCount(items);
    var r := MostCommon(ws, n);
    assert NoDuplicates(items) by {
      forall a, b | 0 <= a < b < |items| ensures items[a] != items[b] {
        assert items[a].0 == Distinct(ws)[a] && items[b].0 == Distinct(ws)[b];
      }
    }
    forall i, j | 0 <= i < j < |r| ensures r[i].0 != r[j].0 {
      if r[i].0 == r[j].0 {
        MostCommonCounts(ws, n);
        assert r[i] == r[j] && sorted[i] == r[i] && sorted[j] == r[j];
        MultisetTwice(sorted, i, j);
        NoDuplicatesMultiset(items, sorted[i]);
        assert false;
      }
    }
  }

  /** `most_common(n)` is a top-n: a word it leaves out occurs no more often
      than any word it lists. */
  lemma MostCommonTop(ws: seq<string>, n: int, w: string, k: nat)
    requires w in ws && k < |MostCommon(ws, n)|
    requires forall i :: 0 <= i < |MostCommon(ws, n)| ==> MostCommon(ws, n)[i].0 != w
    ensures MostCommon(ws, n)[k].1 >= multiset(ws)[w]
  {
    var sorted := SortByCount(CounterItems(ws));
    var r := MostCommon(ws, n);
    var b := PositionInSorted(ws, w);
    assert r == sorted[..|r|];
    forall i | 0 <= i < |r| ensures sorted[i].0 != w {
      assert r[i] == sorted[i];
    }
    assert sorted[b].0 == w;
    assert k < |r| <= b;
    assert r[k] == sorted[k] && sorted[k].1 >= sorted[b].1;
  }

  /** Where a word's counter item sits in the sorted items. */
  lemma PositionInSorted(ws: seq<string>, w: string) returns (b: nat)
    requires w in ws
    ensures b < |SortByCount(CounterItems(ws))|
    ensures SortByCount(CounterItems(ws))[b] == (w, multiset(ws)[w])
  {
    var items := CounterItems(ws);
    var a :| 0 <= a < |Distinct(ws)| && Distinct(ws)[a] == w;
    var x := items[a];
    assert x == (w, multiset(ws)[w]);
    assert x in multiset(items);
    assert x in multiset(SortByCount(items));
    b :| 0 <= b < |SortByCount(items)| && SortByCount(items)[b] == x;
  }

  /** Words with equal counts are listed by `most_common(n)` in
      first-occurrence order, and those listed are the first ones met. */
  lemma MostCommonTies(ws: seq<string>, n: int, c: nat)
    ensures WithCount(MostCommon(ws, n), c) <= WithCount(CounterItems(ws), c)
  {
    var items := CounterItems(ws);
    var sorted := SortByCount(items);
    var r := MostCommon(ws, n);
    assert r == sorted[..|r|];
    WithCountPrefix(sorted, |r|, c);
    SortStable(items, c);
  }
}
