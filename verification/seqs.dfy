/** Sequence helpers that mirror the JavaScript array idioms of the publisher:
    `indexOf`, `splice(indexOf(x), 1)`, push-if-absent, `filter`, and the
    "start a new batch when the current one is full" chunking loop. */
module Seqs {

  /** No element occurs twice. */
  ghost predicate NoDup<T>(s: seq<T>) {
    forall i, j :: 0 <= i < j < |s| ==> s[i] != s[j]
  }

  /** The elements of `s`, as the `Set` built from an array. */
  function Elems<T(!new)>(s: seq<T>): (r: set<T>)
    ensures forall x :: x in r <==> x in s
  {
    set x | x in s
  }

  lemma ElemsSnoc<T(!new)>(s: seq<T>, x: T)
    ensures Elems(s + [x]) == Elems(s) + {x}
  {
    assert forall y :: y in s + [x] <==> y in s || y == x;
  }

  lemma ElemsTakeSnoc<T(!new)>(s: seq<T>, i: nat)
    requires i < |s|
    ensures Elems(s[..i + 1]) == Elems(s[..i]) + {s[i]}
  {
    TakeSnoc(s, i + 1);
    ElemsSnoc(s[..i], s[i]);
  }

  /** Maps with the same keys and the same value at every key are equal. */
  lemma MapExt<K, V>(a: map<K, V>, b: map<K, V>)
    requires a.Keys == b.Keys
    requires forall k :: k in a ==> a[k] == b[k]
    ensures a == b
  {
  }

  lemma ElemsTakeEnds<T(!new)>(s: seq<T>)
    ensures Elems(s[..0]) == {}
    ensures Elems(s[..|s|]) == Elems(s)
  {
    assert s[..|s|] == s;
  }

  lemma ElemsEmpty<T(!new)>(s: seq<T>)
    ensures Elems(s) == {} <==> s == []
  {
    if |s| > 0 {
      assert s[0] in Elems(s);
    }
  }

  /** `s.indexOf(x)`: the first position of `x`, or -1. */
  function IndexOf<T(==)>(s: seq<T>, x: T): (i: int)
    ensures -1 <= i < |s|
    ensures i >= 0 ==> s[i] == x && x !in s[..i]
    ensures i < 0 <==> x !in s
  {
    if |s| == 0 then -1
    else if s[0] == x then 0
    else
      var k := IndexOf(s[1..], x);
      assert s[1..][..if k < 0 then 0 else k] == s[1..1 + if k < 0 then 0 else k];
      if k < 0 then -1 else k + 1
  }

  /** `if ((i = s.indexOf(x)) >= 0) s.splice(i, 1)`: drops the first occurrence. */
  function RemoveFirst<T(==,!new)>(s: seq<T>, x: T): (r: seq<T>)
    ensures x !in s ==> r == s
    ensures x in s ==> multiset(r) == multiset(s) - multiset{x}
    ensures multiset(r) <= multiset(s)
    ensures forall y :: y != x ==> (y in r <==> y in s)
    ensures NoDup(s) ==> NoDup(r) && x !in r
  {
    var i := IndexOf(s, x);
    if i < 0 then s
    else
      RemoveAtFacts(s, i);
      s[..i] + s[i + 1..]
  }

  lemma RemoveAtFacts<T(!new)>(s: seq<T>, i: nat)
    requires i < |s|
    ensures multiset(s[..i] + s[i + 1..]) == multiset(s) - multiset{s[i]}
    ensures forall y :: y != s[i] ==> (y in s[..i] + s[i + 1..] <==> y in s)
    ensures NoDup(s) ==> NoDup(s[..i] + s[i + 1..]) && s[i] !in s[..i] + s[i + 1..]
  {
    RemoveAtMultiset(s, i);
    if NoDup(s) {
      RemoveAtNoDup(s, i);
    }
  }

  lemma RemoveAtMultiset<T>(s: seq<T>, i: nat)
    requires i < |s|
    ensures multiset(s[..i] + s[i + 1..]) == multiset(s) - multiset{s[i]}
  {
    assert s == s[..i] + [s[i]] + s[i + 1..];
  }

  lemma RemoveAtNoDup<T>(s: seq<T>, i: nat)
    requires i < |s| && NoDup(s)
    ensures NoDup(s[..i] + s[i + 1..]) && s[i] !in s[..i] + s[i + 1..]
  {
    var r := s[..i] + s[i + 1..];
    forall a, b | 0 <= a < b < |r| ensures r[a] != r[b] {
      var a' := if a < i then a else a + 1;
      var b' := if b < i then b else b + 1;
      assert r[a] == s[a'] && r[b] == s[b'];
    }
    forall a | 0 <= a < |r| ensures r[a] != s[i] {
      var a' := if a < i then a else a + 1;
      assert r[a] == s[a'];
    }
  }

  /** `if (s.indexOf(x) < 0) s.push(x)`. */
  function AppendIfAbsent<T(==)>(s: seq<T>, x: T): (r: seq<T>)
    ensures x in r
    ensures x in s ==> r == s
    ensures x !in s ==> r == s + [x]
    ensures NoDup(s) ==> NoDup(r)
  {
    if IndexOf(s, x) < 0 then s + [x] else s
  }

  /** `s.filter(p)`. */
  function Filter<T(!new)>(s: seq<T>, p: T -> bool): (r: seq<T>)
    ensures |r| <= |s|
    ensures forall x :: x in r <==> x in s && p(x)
    ensures forall i :: 0 <= i < |r| ==> p(r[i])
    ensures NoDup(s) ==> NoDup(r)
  {
    if |s| == 0 then []
    else
      var rest := Filter(s[1..], p);
      assert forall x :: x in s <==> x == s[0] || x in s[1..];
      if p(s[0]) then [s[0]] + rest else rest
  }

  lemma SnocSplit<T>(s: seq<T>)
    requires |s| > 0
    ensures s == s[..|s| - 1] + [s[|s| - 1]]
  {
  }

  lemma TakeSnoc<T>(s: seq<T>, n: nat)
    requires 0 < n <= |s|
    ensures s[..n] == s[..n - 1] + [s[n - 1]]
  {
  }

  lemma AppendAssoc<T>(a: seq<T>, b: seq<T>, c: seq<T>)
    ensures a + b + c == a + (b + c)
  {
  }

  /** Concatenation of a sequence of sequences. */
  function Flatten<T>(ss: seq<seq<T>>): seq<T> {
    if |ss| == 0 then [] else ss[0] + Flatten(ss[1..])
  }

  lemma {:induction false} FlattenAppend<T>(ss: seq<seq<T>>, s: seq<T>)
    ensures Flatten(ss + [s]) == Flatten(ss) + s
  {
    if |ss| == 0 {
      assert ss + [s] == [s];
    } else {
      assert (ss + [s])[1..] == ss[1..] + [s];
      FlattenAppend(ss[1..], s);
    }
  }

  lemma {:induction false} FlattenNil<T>(ss: seq<seq<T>>)
    requires forall i :: 0 <= i < |ss| ==> ss[i] == []
    ensures Flatten(ss) == []
  {
    if |ss| > 0 {
      FlattenNil(ss[1..]);
    }
  }

  /** The batches the source's chunking loop produces: it starts with one
      empty batch and opens a new batch only when the current one is full,
      so an empty input yields one empty batch. */
  function Chunk<T>(xs: seq<T>, n: nat): (bs: seq<seq<T>>)
    requires n > 0
    ensures |bs| >= 1
    ensures Flatten(bs) == xs
    ensures forall i :: 0 <= i < |bs| ==> |bs[i]| <= n
    ensures forall i :: 0 <= i < |bs| - 1 ==> |bs[i]| == n
    ensures |xs| > 0 ==> forall i :: 0 <= i < |bs| ==> |bs[i]| > 0
    ensures |xs| == 0 ==> bs == [[]]
    decreases |xs|
  {
    if |xs| <= n then [xs]
    else
      var rest := Chunk(xs[n..], n);
      assert xs == xs[..n] + xs[n..];
      [xs[..n]] + rest
  }

  /** Every batch but the last holds exactly `n`, the last at most `n`. */
  ghost predicate Batched<T>(bs: seq<seq<T>>, n: nat) {
    && |bs| >= 1
    && (forall i :: 0 <= i < |bs| - 1 ==> |bs[i]| == n)
    && |bs[|bs| - 1]| <= n
  }

  /** Any split of `xs` into a non-empty sequence of batches in which every
      batch but the last is full, the last holds at most `n` and is non-empty
      unless `xs` is, is the one `Chunk` computes. */
  lemma {:induction false} ChunkUnique<T>(bs: seq<seq<T>>, xs: seq<T>, n: nat)
    requires n > 0
    requires Batched(bs, n)
    requires Flatten(bs) == xs
    requires |xs| > 0 ==> |bs[|bs| - 1]| > 0
    ensures bs == Chunk(xs, n)
    decreases |bs|
  {
    if |bs| == 1 {
      assert Flatten(bs) == bs[0] + Flatten(bs[1..]);
      assert bs[0] == xs;
    } else {
      var rest := bs[1..];
      assert Flatten(bs) == bs[0] + Flatten(rest);
      assert rest[|rest| - 1] == bs[|bs| - 1];
      FlattenLastNonEmpty(rest);
      assert |xs| > n;
      assert xs[..n] == bs[0];
      assert xs[n..] == Flatten(rest);
      assert forall i :: 0 <= i < |rest| - 1 ==> rest[i] == bs[i + 1];
      ChunkUnique(rest, xs[n..], n);
    }
  }

  lemma {:induction false} FlattenLastNonEmpty<T>(bs: seq<seq<T>>)
    requires |bs| >= 1 && |bs[|bs| - 1]| > 0
    ensures |Flatten(bs)| > 0
    decreases |bs|
  {
    if |bs| > 1 {
      FlattenLastNonEmpty(bs[1..]);
    }
  }

  /** One step of the source's batching loop: push `x` into the current
      batch, opening a new one first when the current one holds `n`. */
  function PushItem<T>(batches: seq<seq<T>>, x: T, n: nat): (r: seq<seq<T>>)
    requires n > 0 && Batched(batches, n)
    ensures Batched(r, n) && |r[|r| - 1]| > 0
    ensures Flatten(r) == Flatten(batches) + [x]
  {
    if |batches[|batches| - 1]| == n then
      FlattenAppend(batches, [x]);
      batches + [[x]]
    else
      var front := batches[..|batches| - 1];
      var last := batches[|batches| - 1];
      assert batches == front + [last];
      FlattenAppend(front, last);
      FlattenAppend(front, last + [x]);
      front + [last + [x]]
  }

  /** The batching loop of the source, step for step. */
  method SplitBatches<T>(xs: seq<T>, n: nat) returns (batches: seq<seq<T>>)
    requires n > 0
    ensures batches == Chunk(xs, n)
  {
    batches := [[]];
    var i := 0;
    while i < |xs|
      invariant 0 <= i <= |xs|
      invariant Batched(batches, n)
      invariant Flatten(batches) == xs[..i]
      invariant i > 0 ==> |batches[|batches| - 1]| > 0
    {
      assert xs[..i + 1] == xs[..i] + [xs[i]];
      batches := PushItem(batches, xs[i], n);
      i := i + 1;
    }
    assert xs[..i] == xs;
    ChunkUnique(batches, xs, n);
  }
}
