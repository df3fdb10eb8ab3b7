/** Sequence pipelines shared by the JavaScript `filter`/`Set` code and the
    Laravel collection code: filtering, counting, and keeping the first
    occurrence of each value. */
module Seqs {
  import opened Values

  /** `a` is `b` with some elements left out, the rest in their order. */
  predicate IsSubsequence<T(==)>(a: seq<T>, b: seq<T>)
    decreases |b|
  {
    if |a| == 0 then true
    else if |b| == 0 then false
    else (a[0] == b[0] && IsSubsequence(a[1..], b[1..])) || IsSubsequence(a, b[1..])
  }

  lemma {:induction false} SubsequenceRefl<T>(s: seq<T>)
    ensures IsSubsequence(s, s)
    decreases |s|
  {
    if |s| > 0 {
      SubsequenceRefl(s[1..]);
    }
  }

  lemma {:induction false} SubsequenceTrans<T>(a: seq<T>, b: seq<T>, c: seq<T>)
    requires IsSubsequence(a, b) && IsSubsequence(b, c)
    ensures IsSubsequence(a, c)
    decreases |c|
  {
    if |a| > 0 {
      assert |b| > 0 && |c| > 0;
      if IsSubsequence(b, c[1..]) {
        SubsequenceTrans(a, b, c[1..]);
      } else if a[0] == b[0] && IsSubsequence(a[1..], b[1..]) {
        SubsequenceTrans(a[1..], b[1..], c[1..]);
      } else {
        SubsequenceTrans(a, b[1..], c[1..]);
      }
    }
  }

  /** `s.filter(p)`: the elements satisfying `p`, in their order. */
  function Filter<T(==,!new)>(p: T -> bool, s: seq<T>): (r: seq<T>)
    ensures |r| <= |s|
    ensures forall x :: x in r <==> x in s && p(x)
    ensures IsSubsequence(r, s)
    decreases |s|
  {
    if |s| == 0 then []
    else
      var rest := Filter(p, s[1..]);
      assert forall x :: x in s <==> x == s[0] || x in s[1..] by {
        assert s == [s[0]] + s[1..];
      }
      if p(s[0]) then [s[0]] + rest else rest
  }

  /** Filtering keeps everything exactly when every element passes. */
  lemma {:induction false} FilterAll<T(!new)>(p: T -> bool, s: seq<T>)
    requires forall i :: 0 <= i < |s| ==> p(s[i])
    ensures Filter(p, s) == s
    decreases |s|
  {
    if |s| > 0 {
      FilterAll(p, s[1..]);
    }
  }

  /** Filtering with `p` and then with `q` is filtering with both. */
  lemma {:induction false} FilterFilter<T(!new)>(p: T -> bool, q: T -> bool, s: seq<T>)
    ensures Filter(q, Filter(p, s)) == Filter(x => p(x) && q(x), s)
    decreases |s|
  {
    if |s| > 0 {
      FilterFilter(p, q, s[1..]);
      if p(s[0]) {
        assert Filter(p, s)[1..] == Filter(p, s[1..]);
      }
    }
  }

  /** What passes `p` and what passes its complement `q` add up to `s`. */
  lemma {:induction false} FilterSplitsCount<T(!new)>(p: T -> bool, q: T -> bool, s: seq<T>)
    requires forall i :: 0 <= i < |s| ==> q(s[i]) == !p(s[i])
    ensures |Filter(p, s)| + |Filter(q, s)| == |s|
    decreases |s|
  {
    if |s| > 0 {
      FilterSplitsCount(p, q, s[1..]);
    }
  }

  /** Filtering distributes over concatenation. */
  lemma {:induction false} FilterAppend<T(!new)>(p: T -> bool, a: seq<T>, b: seq<T>)
    ensures Filter(p, a + b) == Filter(p, a) + Filter(p, b)
    decreases |a|
  {
    if |a| == 0 {
      assert a + b == b;
    } else {
      var ab := a + b;
      assert ab[0] == a[0] && ab[1..] == a[1..] + b;
      FilterAppend(p, a[1..], b);
      if p(a[0]) {
        calc {
          Filter(p, ab);
          [a[0]] + Filter(p, a[1..] + b);
          [a[0]] + (Filter(p, a[1..]) + Filter(p, b));
          ([a[0]] + Filter(p, a[1..])) + Filter(p, b);
        }
      } else {
        calc {
          Filter(p, ab);
          Filter(p, a[1..] + b);
        }
      }
    }
  }

  /** Filtering out the one element that fails the test removes just it. */
  lemma {:induction false} FilterDropsOne<T(!new)>(p: T -> bool, s: seq<T>, k: nat)
    requires k < |s| && !p(s[k])
    requires forall j :: 0 <= j < |s| && j != k ==> p(s[j])
    ensures Filter(p, s) == s[..k] + s[k + 1..]
    decreases |s|
  {
    var tail := s[1..];
    if k == 0 {
      assert forall j :: 0 <= j < |tail| ==> p(tail[j]) by {
        forall j | 0 <= j < |tail| ensures p(tail[j]) {
          assert tail[j] == s[j + 1];
        }
      }
      FilterAll(p, tail);
      assert s[..0] + s[1..] == tail;
    } else {
      assert forall j :: 0 <= j < |tail| && j != k - 1 ==> p(tail[j]) by {
        forall j | 0 <= j < |tail| && j != k - 1 ensures p(tail[j]) {
          assert tail[j] == s[j + 1];
        }
      }
      FilterDropsOne(p, tail, k - 1);
      assert [s[0]] + (tail[..k - 1] + tail[k..]) == s[..k] + s[k + 1..];
    }
  }

  /** Two tests that agree on every element filter alike. */
  lemma {:induction false} FilterCongruent<T(!new)>(p: T -> bool, q: T -> bool, s: seq<T>)
    requires forall i :: 0 <= i < |s| ==> p(s[i]) == q(s[i])
    ensures Filter(p, s) == Filter(q, s)
    decreases |s|
  {
    if |s| > 0 {
      FilterCongruent(p, q, s[1..]);
    }
  }

  /** A filter applied only when `b` holds is a filter by `!b || p`. */
  lemma ConditionalFilter<T(!new)>(b: bool, p: T -> bool, s: seq<T>)
    ensures (if b then Filter(p, s) else s) == Filter(x => !b || p(x), s)
  {
    if b {
      FilterCongruent(p, x => !b || p(x), s);
    } else {
      FilterAll(x => !b || p(x), s);
    }
  }

  /** The test `r[column] === value` (and Laravel's `where($column, $value)`). */
  function FieldIs(column: string, value: Val): map<string, Val> -> bool {
    r => Get(r, column) == value
  }

  /** How many rows hold `value` in `column`: Laravel's
      `->where($column, $value)->count()` and JavaScript's
      `rows.filter((r) => r[column] === value).length`. */
  function CountField(rows: seq<map<string, Val>>, column: string, value: Val): (n: nat)
    ensures n == |Filter(FieldIs(column, value), rows)|
    ensures n <= |rows|
    ensures n == 0 <==> forall i :: 0 <= i < |rows| ==> Get(rows[i], column) != value
    decreases |rows|
  {
    if |rows| == 0 then 0
    else
      var init, last := rows[..|rows| - 1], rows[|rows| - 1];
      assert rows == init + [last];
      FilterAppend(FieldIs(column, value), init, [last]);
      CountField(init, column, value) + if Get(last, column) == value then 1 else 0
  }

  /** How often `x` occurs in `s`. */
  function Count<T(==)>(s: seq<T>, x: T): (n: nat)
    ensures n <= |s|
    ensures n == 0 <==> x !in s
    decreases |s|
  {
    if |s| == 0 then 0
    else
      assert x in s <==> x in s[..|s| - 1] || x == s[|s| - 1] by {
        assert s == s[..|s| - 1] + [s[|s| - 1]];
      }
      Count(s[..|s| - 1], x) + if s[|s| - 1] == x then 1 else 0
  }

  lemma CountAppendOne<T>(s: seq<T>, y: T, x: T)
    ensures Count(s + [y], x) == Count(s, x) + if y == x then 1 else 0
  {
    assert (s + [y])[..|s|] == s;
  }

  predicate NoDuplicates<T(==)>(s: seq<T>) {
    forall i, j :: 0 <= i < j < |s| ==> s[i] != s[j]
  }

  /** The position of the first occurrence of `x` in `s`. */
  function FirstIndex<T(==)>(s: seq<T>, x: T): (k: nat)
    requires x in s
    ensures k < |s| && s[k] == x
    ensures forall j :: 0 <= j < k ==> s[j] != x
    decreases |s|
  {
    if s[0] == x then 0 else 1 + FirstIndex(s[1..], x)
  }

  /** `[...new Set(s)]` and Laravel's `unique()->values()`: each value once, at
      the place of its first occurrence. */
  function Dedup<T(==,!new)>(s: seq<T>): (r: seq<T>)
    ensures NoDuplicates(r)
    ensures forall x :: x in r <==> x in s
    decreases |s|
  {
    if |s| == 0 then []
    else
      var init, last := s[..|s| - 1], s[|s| - 1];
      assert forall x :: x in s <==> x in init || x == last by {
        assert s == init + [last];
      }
      var d := Dedup(init);
      if last in init then d else d + [last]
  }

  /** A first occurrence in a prefix is the first occurrence in the whole. */
  lemma {:induction false} FirstIndexPrefix<T>(s: seq<T>, n: nat, x: T)
    requires n <= |s| && x in s[..n]
    ensures x in s && FirstIndex(s, x) == FirstIndex(s[..n], x)
  {
    var k := FirstIndex(s[..n], x);
    assert s[k] == x;
  }

  /** The order of `Dedup` is the order of first occurrences, which
      determines it together with its two ensures clauses. */
  lemma {:induction false} DedupFirstOccurrenceOrder<T(!new)>(s: seq<T>)
    ensures forall i, j :: 0 <= i < j < |Dedup(s)| ==>
      FirstIndex(s, Dedup(s)[i]) < FirstIndex(s, Dedup(s)[j])
    decreases |s|
  {
    if |s| > 0 {
      var init, last := s[..|s| - 1], s[|s| - 1];
      var d := Dedup(init);
      DedupFirstOccurrenceOrder(init);
      assert s[..|s| - 1] == init;
      forall i, j | 0 <= i < j < |Dedup(s)|
        ensures FirstIndex(s, Dedup(s)[i]) < FirstIndex(s, Dedup(s)[j])
      {
        var r := Dedup(s);
        FirstIndexPrefix(s, |s| - 1, r[i]);
        if j < |d| {
          FirstIndexPrefix(s, |s| - 1, r[j]);
        } else {
          assert r[j] == last && last !in init;
          assert FirstIndex(s, last) == |s| - 1;
        }
      }
    }
  }

  /** The index of the first element satisfying `p`: `users.find(p)` in
      JavaScript and `->first()` on a filtered query in Laravel. */
  function FirstWhere<T>(s: seq<T>, p: T -> bool): (r: Option<nat>)
    ensures r.Some? ==> r.value < |s| && p(s[r.value])
    ensures r.Some? ==> forall j :: 0 <= j < r.value ==> !p(s[j])
    ensures r.None? ==> forall j :: 0 <= j < |s| ==> !p(s[j])
    decreases |s|
  {
    if |s| == 0 then None
    else if p(s[0]) then Some(0)
    else
      var rest := FirstWhere(s[1..], p);
      if rest.None? then None else Some(rest.value + 1)
  }

  /** Two tests that agree on every element find the same element. */
  lemma {:induction false} FirstWhereCongruent<T>(s: seq<T>, p: T -> bool, q: T -> bool)
    requires forall j :: 0 <= j < |s| ==> p(s[j]) == q(s[j])
    ensures FirstWhere(s, p) == FirstWhere(s, q)
    decreases |s|
  {
    if |s| > 0 {
      FirstWhereCongruent(s[1..], p, q);
    }
  }

  /** The occurrences in `ks` of each of `keys`, added up. */
  function CountsOf<T(==)>(keys: seq<T>, ks: seq<T>): nat
    decreases |keys|
  {
    if |keys| == 0 then 0 else CountsOf(keys[..|keys| - 1], ks) + Count(ks, keys[|keys| - 1])
  }

  /** One more element of `ks` adds one exactly when it is among the
      distinct `keys`. */
  lemma {:induction false} CountsOfAppendOne<T>(keys: seq<T>, ks: seq<T>, x: T)
    requires NoDuplicates(keys)
    ensures CountsOf(keys, ks + [x]) == CountsOf(keys, ks) + if x in keys then 1 else 0
    decreases |keys|
  {
    if |keys| > 0 {
      var init, k := keys[..|keys| - 1], keys[|keys| - 1];
      assert keys == init + [k];
      CountsOfAppendOne(init, ks, x);
      CountAppendOne(ks, x, k);
      assert x in keys <==> x in init || x == k;
      assert x == k ==> x !in init;
    }
  }

  /** Counting each distinct element once accounts for every element. */
  lemma {:induction false} CountsOfDedup<T(!new)>(ks: seq<T>)
    ensures CountsOf(Dedup(ks), ks) == |ks|
    decreases |ks|
  {
    if |ks| > 0 {
      var init, last := ks[..|ks| - 1], ks[|ks| - 1];
      assert ks == init + [last];
      var d := Dedup(init);
      CountsOfDedup(init);
      CountsOfAppendOne(d, init, last);
      if last !in init {
        var d2 := d + [last];
        assert d2[..|d2| - 1] == d;
        CountAppendOne(init, last, last);
      }
    }
  }
}
