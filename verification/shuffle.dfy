/** `shuffle(xs)` of resources/main.js: every element is paired with a sort
    key, the pairs are sorted by key with `Array.prototype.sort` (a stable
    sort), and the values are read back out in the new order. The random
    float keys become a sequence of integers supplied by the caller. */
module Shuffling {

  /** The `{sort, value}` record built for each element. */
  datatype Keyed<T> = Keyed(sort: int, value: T)

  /** The key-tagging map: each element becomes a record with its key,
      the i-th key going to the i-th element. */
  function Tag<T>(xs: seq<T>, keys: seq<int>): (r: seq<Keyed<T>>)
    requires |keys| == |xs|
    ensures |r| == |xs|
  {
    if |xs| == 0 then [] else [Keyed(keys[0], xs[0])] + Tag(xs[1..], keys[1..])
  }

  /** The final map, which reads each record's value back out. */
  function Values<T>(es: seq<Keyed<T>>): (r: seq<T>)
    ensures |r| == |es|
  {
    if |es| == 0 then [] else [es[0].value] + Values(es[1..])
  }

  /** Element i is tagged with key i. */
  lemma {:induction false} TagAt<T>(xs: seq<T>, keys: seq<int>, i: nat)
    requires |keys| == |xs| && i < |xs|
    ensures Tag(xs, keys)[i] == Keyed(keys[i], xs[i])
  {
    if i > 0 {
      TagAt(xs[1..], keys[1..], i - 1);
    }
  }

  /** Value i read back is the value of entry i. */
  lemma {:induction false} ValuesAt<T>(es: seq<Keyed<T>>, i: nat)
    requires i < |es|
    ensures Values(es)[i] == es[i].value
  {
    if i > 0 {
      ValuesAt(es[1..], i - 1);
    }
  }

  /** Keys never decrease from left to right. */
  ghost predicate SortedByKey<T>(es: seq<Keyed<T>>) {
    forall i, j :: 0 <= i < j < |es| ==> es[i].sort <= es[j].sort
  }

  /** The entries carrying key `k`, in their order in `es`. */
  function WithKey<T>(es: seq<Keyed<T>>, k: int): (r: seq<Keyed<T>>)
    ensures |r| <= |es|
  {
    if |es| == 0 then []
    else (if es[0].sort == k then [es[0]] else []) + WithKey(es[1..], k)
  }

  /** A stable sort keeps the relative order of the entries of every key. */
  ghost predicate StableFor<T>(sorted: seq<Keyed<T>>, original: seq<Keyed<T>>) {
    forall k :: WithKey(sorted, k) == WithKey(original, k)
  }

  /** Places `e` in front of the first entry whose key is not smaller, so
      that `e` stays ahead of the entries with its own key. */
  function Insert<T>(e: Keyed<T>, es: seq<Keyed<T>>): (r: seq<Keyed<T>>)
    ensures |r| == |es| + 1 && multiset(r) == multiset(es) + multiset{e}
  {
    if |es| == 0 then [e]
    else if e.sort <= es[0].sort then [e] + es
    else
      assert es == [es[0]] + es[1..];
      [es[0]] + Insert(e, es[1..])
  }

  lemma ValuesCons<T>(x: Keyed<T>, es: seq<Keyed<T>>)
    ensures Values([x] + es) == [x.value] + Values(es)
  {
    assert ([x] + es)[1..] == es;
  }

  /** Inserting an entry adds its value to the values. */
  lemma {:induction false} InsertValues<T>(e: Keyed<T>, es: seq<Keyed<T>>)
    ensures multiset(Values(Insert(e, es))) == multiset(Values(es)) + multiset{e.value}
  {
    if |es| == 0 || e.sort <= es[0].sort {
      assert Insert(e, es) == [e] + es;
      ValuesCons(e, es);
      assert multiset([e.value] + Values(es)) == multiset{e.value} + multiset(Values(es));
    } else {
      var head, tail := es[0], es[1..];
      var rest := Insert(e, tail);
      InsertValues(e, tail);
      calc {
        multiset(Values(Insert(e, es)));
        multiset(Values([head] + rest));
        { ValuesCons(head, rest); }
        multiset{head.value} + multiset(Values(rest));
        multiset{head.value} + multiset(Values(tail)) + multiset{e.value};
        { assert Values(es) == [head.value] + Values(tail); }
        multiset(Values(es)) + multiset{e.value};
      }
    }
  }

  /** Putting an entry no greater than the head in front keeps a sorted
      sequence sorted. */
  lemma SortedCons<T>(x: Keyed<T>, es: seq<Keyed<T>>)
    requires SortedByKey(es) && (|es| > 0 ==> x.sort <= es[0].sort)
    ensures SortedByKey([x] + es)
  {
    var r := [x] + es;
    forall i, j | 0 <= i < j < |r| ensures r[i].sort <= r[j].sort {
      if i == 0 {
        assert r[j] == es[j - 1];
      } else {
        assert r[i] == es[i - 1] && r[j] == es[j - 1];
      }
    }
  }

  /** Inserting into a sorted sequence keeps it sorted. */
  lemma {:induction false} InsertSorted<T>(e: Keyed<T>, es: seq<Keyed<T>>)
    requires SortedByKey(es)
    ensures SortedByKey(Insert(e, es))
  {
    if |es| == 0 {
    } else if e.sort <= es[0].sort {
      SortedCons(e, es);
    } else {
      var tail := es[1..];
      assert SortedByKey(tail);
      InsertSorted(e, tail);
      var rest := Insert(e, tail);
      // the head of `rest` is `e` or `es[1]`, neither below `es[0]`
      assert |tail| > 0 && e.sort > tail[0].sort ==> rest == [tail[0]] + Insert(e, tail[1..]);
      assert es[0].sort <= rest[0].sort;
      SortedCons(es[0], rest);
    }
  }

  /** The stable `Array.prototype.sort` under the key comparator: an
      insertion sort that inserts each entry ahead of the entries with the
      same key that came after it. */
  function Sort<T>(es: seq<Keyed<T>>): (r: seq<Keyed<T>>)
    ensures |r| == |es| && multiset(r) == multiset(es)
    ensures SortedByKey(r)
  {
    if |es| == 0 then []
    else
      assert es == [es[0]] + es[1..];
      InsertSorted(es[0], Sort(es[1..]));
      Insert(es[0], Sort(es[1..]))
  }

  /** Sorting moves values around without adding or losing any. */
  lemma {:induction false} SortValues<T>(es: seq<Keyed<T>>)
    ensures multiset(Values(Sort(es))) == multiset(Values(es))
  {
    if |es| > 0 {
      var head, tail := es[0], es[1..];
      var sortedTail := Sort(tail);
      SortValues(tail);
      InsertValues(head, sortedTail);
      calc {
        multiset(Values(Sort(es)));
        multiset(Values(Insert(head, sortedTail)));
        multiset(Values(sortedTail)) + multiset{head.value};
        multiset(Values(tail)) + multiset{head.value};
        { assert Values(es) == [head.value] + Values(tail); }
        multiset(Values(es));
      }
    }
  }

  /** `shuffle(xs)`, with `keys[i]` in place of the random key of `xs[i]`. */
  function Shuffle<T>(xs: seq<T>, keys: seq<int>): (r: seq<T>)
    requires |keys| == |xs|
    ensures |r| == |xs|
    ensures multiset(r) == multiset(xs)
  {
    var tagged := Tag(xs, keys);
    ValuesOfTag(xs, keys);
    SortValues(tagged);
    Values(Sort(tagged))
  }

  /** Reading the values back out of the tagged sequence gives the input. */
  lemma {:induction false} ValuesOfTag<T>(xs: seq<T>, keys: seq<int>)
    requires |keys| == |xs|
    ensures Values(Tag(xs, keys)) == xs
  {
    if |xs| > 0 {
      ValuesOfTag(xs[1..], keys[1..]);
      assert xs == [xs[0]] + xs[1..];
    }
  }

  lemma WithKeyCons<T>(x: Keyed<T>, es: seq<Keyed<T>>, k: int)
    ensures WithKey([x] + es, k) == (if x.sort == k then [x] else []) + WithKey(es, k)
  {
    assert ([x] + es)[1..] == es;
  }

  /** Inserting `e` adds it to the run of its own key, in front; the runs
      of the other keys are untouched. */
  lemma {:induction false} InsertWithKey<T>(e: Keyed<T>, es: seq<Keyed<T>>, k: int)
    ensures WithKey(Insert(e, es), k) == (if e.sort == k then [e] else []) + WithKey(es, k)
  {
    if |es| == 0 {
      WithKeyCons(e, [], k);
    } else if e.sort <= es[0].sort {
      WithKeyCons(e, es, k);
    } else {
      var head, tail := es[0], es[1..];
      var rest := Insert(e, tail);
      var mine := if e.sort == k then [e] else [];
      var theirs := if head.sort == k then [head] else [];
      InsertWithKey(e, tail, k);
      calc {
        WithKey(Insert(e, es), k);
        WithKey([head] + rest, k);
        { WithKeyCons(head, rest, k); }
        theirs + WithKey(rest, k);
        theirs + (mine + WithKey(tail, k));
        { assert theirs == [] || mine == []; }
        mine + (theirs + WithKey(tail, k));
        { assert WithKey(es, k) == theirs + WithKey(tail, k); }
        mine + WithKey(es, k);
      }
    }
  }

  /** The sort is stable: the entries of each key keep their input order. */
  lemma {:induction false} SortStable<T>(es: seq<Keyed<T>>)
    ensures StableFor(Sort(es), es)
  {
    forall k ensures WithKey(Sort(es), k) == WithKey(es, k) {
      SortStableFor(es, k);
    }
  }

  lemma {:induction false} SortStableFor<T>(es: seq<Keyed<T>>, k: int)
    ensures WithKey(Sort(es), k) == WithKey(es, k)
  {
    if |es| > 0 {
      SortStableFor(es[1..], k);
      InsertWithKey(es[0], Sort(es[1..]), k);
    }
  }

  /** The run of key `k` holds entries of `es` with key `k` only. */
  lemma {:induction false} WithKeyMember<T>(es: seq<Keyed<T>>, k: int, e: Keyed<T>)
    requires e in WithKey(es, k)
    ensures e in es && e.sort == k
  {
    if |es| > 0 {
      if e != es[0] || es[0].sort != k {
        WithKeyMember(es[1..], k, e);
      }
    }
  }

  /** The first entry of a sequence heads the run of its key. */
  lemma {:induction false} HeadOfOwnRun<T>(es: seq<Keyed<T>>)
    requires |es| > 0
    ensures WithKey(es, es[0].sort) != [] && WithKey(es, es[0].sort)[0] == es[0]
  {
  }

  /** Sortedness and stability pin the result down: two sorted sequences
      whose runs agree key by key are equal. So any stable sort by key
      returns `Sort(es)`. */
  lemma {:induction false} StableSortUnique<T>(a: seq<Keyed<T>>, b: seq<Keyed<T>>)
    requires SortedByKey(a) && SortedByKey(b) && StableFor(a, b)
    ensures a == b
  {
    if |a| == 0 && |b| == 0 {
    } else if |a| == 0 {
      HeadOfOwnRun(b);
    } else if |b| == 0 {
      HeadOfOwnRun(a);
    } else {
      var ka, kb := a[0].sort, b[0].sort;
      HeadOfOwnRun(a);
      HeadOfOwnRun(b);
      assert WithKey(a, kb) == WithKey(b, kb);
      assert WithKey(a, ka) == WithKey(b, ka);
      // b's head key occurs in a, whose head key is its least
      WithKeyMember(a, kb, WithKey(a, kb)[0]);
      WithKeyMember(b, ka, WithKey(b, ka)[0]);
      assert ka == kb;
      assert a[0] == b[0];
      forall k ensures WithKey(a[1..], k) == WithKey(b[1..], k) {
        var h := if a[0].sort == k then [a[0]] else [];
        assert WithKey(a, k) == h + WithKey(a[1..], k);
        assert WithKey(b, k) == h + WithKey(b[1..], k);
        assert WithKey(a[1..], k) == WithKey(a, k)[|h|..];
      }
      StableSortUnique(a[1..], b[1..]);
      assert a == [a[0]] + a[1..];
      assert b == [b[0]] + b[1..];
    }
  }

  /** What `shuffle` returns: the values of a sequence that holds every
      element paired with its own key, ordered by key, with the elements of
      equal keys in input order. Each of these is true of the tagged,
      sorted sequence, and together they determine it. */
  lemma ShuffleOrderedByKey<T>(xs: seq<T>, keys: seq<int>)
    requires |keys| == |xs|
    ensures
      var t := Sort(Tag(xs, keys));
      && Values(t) == Shuffle(xs, keys)
      && multiset(t) == multiset(Tag(xs, keys))
      && SortedByKey(t)
      && StableFor(t, Tag(xs, keys))
  {
    SortStable(Tag(xs, keys));
  }
}
