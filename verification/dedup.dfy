/** Order-of-first-appearance bookkeeping shared by both schema tools: the
    distinct values of a sequence in the order they first occur (a Python
    `dict`/`Counter`'s key order, or the fields a `seen` set lets through), the
    later occurrences a `seen` set turns away, and how often each value occurs. */
module Dedup {

  predicate Distinct<T(==)>(xs: seq<T>) {
    forall i, j :: 0 <= i < j < |xs| ==> xs[i] != xs[j]
  }

  /** Number of occurrences of `x` in `xs`. */
  function Count<T(==)>(xs: seq<T>, x: T): (n: nat)
    ensures n <= |xs|
    ensures n > 0 <==> x in xs
  {
    if |xs| == 0 then 0
    else
      var p := xs[..|xs| - 1];
      assert xs == p + [xs[|xs| - 1]];
      (if xs[|xs| - 1] == x then 1 else 0) + Count(p, x)
  }

  /** Position of the first occurrence of `x`. */
  function FirstIndex<T(==)>(xs: seq<T>, x: T): (i: nat)
    requires x in xs
    ensures i < |xs| && xs[i] == x && x !in xs[..i]
  {
    if xs[0] == x then 0
    else
      assert x in xs[1..];
      var j := FirstIndex(xs[1..], x);
      assert xs[..j + 1] == [xs[0]] + xs[1..][..j];
      1 + j
  }

  /** The first occurrence is the only position holding `x` with no `x` before it. */
  lemma FirstIndexUnique<T>(xs: seq<T>, x: T, i: nat)
    requires i < |xs| && xs[i] == x && x !in xs[..i]
    ensures FirstIndex(xs, x) == i
  {
    var j := FirstIndex(xs, x);
    assert forall k :: 0 <= k < i ==> xs[..i][k] == xs[k];
    assert forall k :: 0 <= k < j ==> xs[..j][k] == xs[k];
  }

  /** Appending never moves the first occurrence of a value already present. */
  lemma FirstIndexAppend<T>(xs: seq<T>, ys: seq<T>, x: T)
    requires x in xs
    ensures FirstIndex(xs + ys, x) == FirstIndex(xs, x)
  {
    var i := FirstIndex(xs, x);
    assert (xs + ys)[..i] == xs[..i];
    FirstIndexUnique(xs + ys, x, i);
  }

  /** A value first seen in the last position has its first occurrence there. */
  lemma FirstIndexLast<T>(xs: seq<T>, x: T)
    requires x !in xs
    ensures FirstIndex(xs + [x], x) == |xs|
  {
    assert (xs + [x])[..|xs|] == xs;
    FirstIndexUnique(xs + [x], x, |xs|);
  }

  /** The distinct values of `xs`, each at the position of its first occurrence. */
  function FirstSeen<T(==)>(xs: seq<T>): (r: seq<T>)
    ensures Distinct(r)
    ensures forall x :: x in r ==> x in xs
    ensures forall x :: x in xs ==> x in r
  {
    if |xs| == 0 then []
    else
      var p := xs[..|xs| - 1];
      var x := xs[|xs| - 1];
      assert xs == p + [x];
      var q := FirstSeen(p);
      if x in q then q else q + [x]
  }

  /** `r` lists values of `xs` in the order of their first occurrences in `xs`. */
  ghost predicate ByFirstIndex<T>(xs: seq<T>, r: seq<T>)
    requires forall y :: y in r ==> y in xs
  {
    forall i, j :: 0 <= i < j < |r| ==> FirstIndex(xs, r[i]) < FirstIndex(xs, r[j])
  }

  /** Values ordered by first occurrence in `p` stay so in `p + [x]`, and a new `x` comes last. */
  lemma OrderSnoc<T>(p: seq<T>, x: T, q: seq<T>)
    requires forall y :: y in q ==> y in p
    requires ByFirstIndex(p, q)
    ensures forall y :: y in q ==> y in p + [x]
    ensures ByFirstIndex(p + [x], q)
    ensures x !in p ==> ByFirstIndex(p + [x], q + [x])
  {
    var xs := p + [x];
    forall y | y in p
      ensures FirstIndex(xs, y) == FirstIndex(p, y)
    {
      FirstIndexAppend(p, [x], y);
    }
    if x !in p {
      FirstIndexLast(p, x);
      var r := q + [x];
      forall i, j | 0 <= i < j < |r|
        ensures FirstIndex(xs, r[i]) < FirstIndex(xs, r[j])
      {
        assert r[i] == q[i] && r[i] in p;
        if j < |q| {
          assert r[j] == q[j];
        }
      }
    }
  }

  /** The distinct values come in the order of their first occurrences. */
  lemma {:induction false} FirstSeenOrder<T>(xs: seq<T>)
    ensures ByFirstIndex(xs, FirstSeen(xs))
  {
    if |xs| > 0 {
      var p := xs[..|xs| - 1];
      var x := xs[|xs| - 1];
      assert xs == p + [x];
      FirstSeenOrder(p);
      FirstSeenSnoc(p, x);
      OrderSnoc(p, x, FirstSeen(p));
    }
  }

  /** One more value: appended to the distinct values when new, to the repeats otherwise. */
  lemma FirstSeenSnoc<T>(xs: seq<T>, x: T)
    ensures FirstSeen(xs + [x]) == if x in xs then FirstSeen(xs) else FirstSeen(xs) + [x]
  {
    assert (xs + [x])[..|xs|] == xs;
  }

  /** The later occurrences of values already seen, in input order. */
  function Repeats<T(==)>(xs: seq<T>): (r: seq<T>)
    ensures |FirstSeen(xs)| + |r| == |xs|
    ensures multiset(FirstSeen(xs)) + multiset(r) == multiset(xs)
    ensures forall x :: x in r ==> Count(xs, x) >= 2
  {
    if |xs| == 0 then []
    else
      var p := xs[..|xs| - 1];
      var x := xs[|xs| - 1];
      assert xs == p + [x];
      var q := Repeats(p);
      FirstSeenSnoc(p, x);
      RepeatsTurn(p, x, FirstSeen(p), q);
      if x in p then q + [x] else q
  }

  /** One more value keeps the accounting of `Repeats`: it is either new or a repeat. */
  lemma RepeatsTurn<T>(p: seq<T>, x: T, f: seq<T>, q: seq<T>)
    requires |f| + |q| == |p|
    requires multiset(f) + multiset(q) == multiset(p)
    requires forall y :: y in q ==> Count(p, y) >= 2
    ensures var f', r := if x in p then f else f + [x], if x in p then q + [x] else q;
      && |f'| + |r| == |p| + 1
      && multiset(f') + multiset(r) == multiset(p + [x])
      && forall y :: y in r ==> Count(p + [x], y) >= 2
  {
    if x in p {
      RepeatsTurnCounts(p, x, q + [x]);
    } else {
      RepeatsTurnCounts(p, x, q);
    }
  }

  lemma RepeatsTurnCounts<T>(p: seq<T>, x: T, r: seq<T>)
    requires forall y :: y in r ==> (y == x && x in p) || Count(p, y) >= 2
    ensures forall y :: y in r ==> Count(p + [x], y) >= 2
  {
    forall y | y in r
      ensures Count(p + [x], y) >= 2
    {
      CountSnoc(p, x, y);
    }
  }

  lemma RepeatsSnoc<T>(xs: seq<T>, x: T)
    ensures Repeats(xs + [x]) == if x in xs then Repeats(xs) + [x] else Repeats(xs)
  {
    assert (xs + [x])[..|xs|] == xs;
  }

  /** A sequence without repeated values passes through unchanged and yields no repeats. */
  lemma {:induction false} DistinctFixpoint<T>(xs: seq<T>)
    requires Distinct(xs)
    ensures FirstSeen(xs) == xs
    ensures Repeats(xs) == []
  {
    if |xs| > 0 {
      var p := xs[..|xs| - 1];
      var x := xs[|xs| - 1];
      assert Distinct(p);
      DistinctFixpoint(p);
      assert x !in p;
      assert x !in FirstSeen(p);
      assert FirstSeen(xs) == FirstSeen(p) + [x];
      assert Repeats(xs) == Repeats(p);
      assert p + [x] == xs;
    }
  }

  /** Conversely, no repeats means every value occurs once. */
  lemma NoRepeatsDistinct<T>(xs: seq<T>)
    requires Repeats(xs) == []
    ensures Distinct(xs)
  {
    assert |FirstSeen(xs)| == |xs|;
    DistinctLength(FirstSeen(xs), xs);
  }

  /** A repetition-free sequence holding every value of `xs` is at least as long as
      `xs` only when `xs` is itself repetition-free. */
  lemma {:induction false} DistinctLength<T>(d: seq<T>, xs: seq<T>)
    requires Distinct(d)
    requires forall x :: x in d ==> x in xs
    requires forall x :: x in xs ==> x in d
    requires |d| >= |xs|
    ensures Distinct(xs)
  {
    if !Distinct(xs) {
      var i, j :| 0 <= i < j < |xs| && xs[i] == xs[j];
      var s := set x | x in xs;
      var rest := xs[..j] + xs[j + 1..];
      assert forall x :: x in xs ==> x in rest by {
        forall x | x in xs ensures x in rest {
          var k :| 0 <= k < |xs| && xs[k] == x;
          if k < j { assert rest[k] == x; }
          else if k == j { assert rest[i] == x; }
          else { assert rest[k - 1] == x; }
        }
      }
      SetOfSeqSize(rest);
      SetOfSeqSize(d);
      assert (set x | x in rest) == s;
      assert (set x | x in d) == s;
      DistinctSetSize(d);
      assert false;
    }
  }

  lemma {:induction false} SetOfSeqSize<T>(xs: seq<T>)
    ensures |set x | x in xs| <= |xs|
  {
    if |xs| > 0 {
      var p := xs[..|xs| - 1];
      SetOfSeqSize(p);
      assert (set x | x in xs) == (set x | x in p) + {xs[|xs| - 1]} by {
        assert xs == p + [xs[|xs| - 1]];
      }
    }
  }

  lemma {:induction false} DistinctSetSize<T>(xs: seq<T>)
    requires Distinct(xs)
    ensures |set x | x in xs| == |xs|
  {
    if |xs| > 0 {
      var p := xs[..|xs| - 1];
      var x := xs[|xs| - 1];
      assert Distinct(p);
      DistinctSetSize(p);
      assert x !in p;
      assert (set y | y in xs) == (set y | y in p) + {x} by {
        assert xs == p + [x];
      }
    }
  }

  /** Distinctness of a sequence is equivalent to the guard turning nothing away. */
  lemma DistinctIffNoRepeats<T>(xs: seq<T>)
    ensures Distinct(xs) <==> Repeats(xs) == []
  {
    if Distinct(xs) {
      DistinctFixpoint(xs);
    }
    if Repeats(xs) == [] {
      NoRepeatsDistinct(xs);
    }
  }

  /** Running the first-seen filter a second time changes nothing. */
  lemma FirstSeenIdempotent<T>(xs: seq<T>)
    ensures FirstSeen(FirstSeen(xs)) == FirstSeen(xs)
    ensures Repeats(FirstSeen(xs)) == []
  {
    DistinctFixpoint(FirstSeen(xs));
  }

  /** Reading more input only extends both lists: a value accepted or turned away
      earlier stays where it was. */
  lemma {:induction false} PrefixStable<T>(xs: seq<T>, ys: seq<T>)
    ensures FirstSeen(xs) <= FirstSeen(xs + ys)
    ensures Repeats(xs) <= Repeats(xs + ys)
    decreases |ys|
  {
    if |ys| == 0 {
      assert xs + ys == xs;
    } else {
      var ws := xs + ys[..|ys| - 1];
      assert xs + ys == ws + [ys[|ys| - 1]];
      PrefixStable(xs, ys[..|ys| - 1]);
      StepStable(ws, ys[|ys| - 1]);
    }
  }

  lemma StepStable<T>(ws: seq<T>, y: T)
    ensures FirstSeen(ws) <= FirstSeen(ws + [y])
    ensures Repeats(ws) <= Repeats(ws + [y])
  {
    var zs := ws + [y];
    assert zs[..|zs| - 1] == ws;
    assert zs[|zs| - 1] == y;
  }

  // ---------------------------------------------------------------------------
  // Occurrence counts of the distinct values (a `Counter` in key order)
  // ---------------------------------------------------------------------------

  function Sum(ns: seq<nat>): nat {
    if |ns| == 0 then 0 else Sum(ns[..|ns| - 1]) + ns[|ns| - 1]
  }

  /** Occurrence count of each key, position by position. */
  function CountsOf<T(==)>(keys: seq<T>, xs: seq<T>): (r: seq<nat>)
    ensures |r| == |keys|
    ensures forall k :: 0 <= k < |keys| ==> r[k] == Count(xs, keys[k])
  {
    seq(|keys|, k requires 0 <= k < |keys| => Count(xs, keys[k]))
  }

  function Indicator<T(==)>(keys: seq<T>, x: T): (r: seq<nat>)
    ensures |r| == |keys|
    ensures forall k :: 0 <= k < |keys| ==> r[k] == if keys[k] == x then 1 else 0
  {
    seq(|keys|, k requires 0 <= k < |keys| => if keys[k] == x then 1 else 0)
  }

  lemma {:induction false} SumPointwise(a: seq<nat>, b: seq<nat>, c: seq<nat>)
    requires |a| == |b| == |c|
    requires forall k :: 0 <= k < |a| ==> c[k] == a[k] + b[k]
    ensures Sum(c) == Sum(a) + Sum(b)
  {
    if |a| > 0 {
      var n := |a| - 1;
      SumPointwise(a[..n], b[..n], c[..n]);
    }
  }

  lemma {:induction false} SumIndicator<T>(keys: seq<T>, x: T)
    requires Distinct(keys)
    ensures Sum(Indicator(keys, x)) == if x in keys then 1 else 0
  {
    if |keys| > 0 {
      var n := |keys| - 1;
      var p := keys[..n];
      assert Distinct(p);
      SumIndicator(p, x);
      assert Indicator(keys, x)[..n] == Indicator(p, x);
      assert keys == p + [keys[n]];
      if keys[n] == x {
        assert x !in p;
      }
    }
  }

  /** The counts of distinct keys covering every value of `xs` add up to `|xs|`. */
  lemma {:induction false} SumCountsOf<T>(keys: seq<T>, xs: seq<T>)
    requires Distinct(keys)
    requires forall x :: x in xs ==> x in keys
    ensures Sum(CountsOf(keys, xs)) == |xs|
  {
    if |xs| > 0 {
      var p := xs[..|xs| - 1];
      var x := xs[|xs| - 1];
      assert xs == p + [x];
      SumCountsOf(keys, p);
      SumIndicator(keys, x);
      SumPointwise(CountsOf(keys, p), Indicator(keys, x), CountsOf(keys, xs));
    } else {
      assert CountsOf(keys, xs) == seq(|keys|, k => 0);
      ZeroSum(|keys|);
    }
  }

  lemma {:induction false} ZeroSum(n: nat)
    ensures Sum(seq(n, k => 0)) == 0
  {
    if n > 0 {
      assert seq(n, k => 0)[..n - 1] == seq(n - 1, k => 0);
      ZeroSum(n - 1);
    }
  }

  /** Every value is counted exactly once: the counts of the distinct values
      of `xs`, in first-seen order, add up to the length of `xs`. */
  lemma CounterTotal<T>(xs: seq<T>)
    ensures Sum(CountsOf(FirstSeen(xs), xs)) == |xs|
  {
    SumCountsOf(FirstSeen(xs), xs);
  }

  // ---------------------------------------------------------------------------
  // Blocks of equal values
  // ---------------------------------------------------------------------------

  /** Equal values are adjacent: between two equal values there are only equal values. */
  predicate Contiguous<T(==)>(xs: seq<T>) {
    forall i, m, j :: 0 <= i <= m <= j < |xs| && xs[i] == xs[j] ==> xs[m] == xs[i]
  }

  /** Position `p` lies in the `k`-th block when consecutive blocks have the sizes `counts`. */
  predicate InBlock(counts: seq<nat>, k: nat, p: nat)
    requires k < |counts|
  {
    Sum(counts[..k]) <= p < Sum(counts[..k + 1])
  }

  lemma SumSnoc(ns: seq<nat>, n: nat)
    ensures Sum(ns + [n]) == Sum(ns) + n
  {
    assert (ns + [n])[..|ns|] == ns;
  }

  lemma CountSnoc<T>(xs: seq<T>, x: T, y: T)
    ensures Count(xs + [x], y) == Count(xs, y) + if x == y then 1 else 0
  {
    assert (xs + [x])[..|xs|] == xs;
  }

  lemma ContiguousPrefix<T>(xs: seq<T>, n: nat)
    requires Contiguous(xs) && n <= |xs|
    ensures Contiguous(xs[..n])
  {
    var p := xs[..n];
    forall i, m, j | 0 <= i <= m <= j < |p| && p[i] == p[j]
      ensures p[m] == p[i]
    {
      assert p[i] == xs[i] && p[m] == xs[m] && p[j] == xs[j];
    }
  }

  /** In a contiguous sequence the last value is the last one first seen. */
  lemma {:induction false} LastFirstSeen<T>(xs: seq<T>)
    requires Contiguous(xs) && |xs| > 0
    ensures |FirstSeen(xs)| > 0 && FirstSeen(xs)[|FirstSeen(xs)| - 1] == xs[|xs| - 1]
  {
    var p, x := xs[..|xs| - 1], xs[|xs| - 1];
    assert xs == p + [x];
    FirstSeenSnoc(p, x);
    if x in p {
      RepeatEndsBlock(xs);
      ContiguousPrefix(xs, |xs| - 1);
      LastFirstSeen(p);
    }
  }

  /** In a contiguous sequence a value seen before repeats the one just before it. */
  lemma RepeatEndsBlock<T>(xs: seq<T>)
    requires Contiguous(xs) && |xs| > 0 && xs[|xs| - 1] in xs[..|xs| - 1]
    ensures |xs| >= 2 && xs[|xs| - 2] == xs[|xs| - 1]
  {
    var p := xs[..|xs| - 1];
    var i := FirstIndex(p, xs[|xs| - 1]);
    assert xs[i] == xs[|xs| - 1];
  }

  /** A new value opens a block of one. */
  lemma CountsSnocNew<T>(keys: seq<T>, xs: seq<T>, x: T)
    requires x !in xs && x !in keys
    ensures CountsOf(keys + [x], xs + [x]) == CountsOf(keys, xs) + [1]
  {
    var l, r := CountsOf(keys + [x], xs + [x]), CountsOf(keys, xs) + [1];
    forall k | 0 <= k < |keys| + 1
      ensures l[k] == r[k]
    {
      CountSnoc(xs, x, (keys + [x])[k]);
    }
  }

  /** A value equal to the last key grows the last block. */
  lemma CountsSnocLast<T>(keys: seq<T>, xs: seq<T>, x: T)
    requires Distinct(keys) && |keys| > 0 && x == keys[|keys| - 1]
    ensures var c := CountsOf(keys, xs);
      CountsOf(keys, xs + [x]) == c[..|c| - 1] + [c[|c| - 1] + 1]
  {
    var c := CountsOf(keys, xs);
    var l, r := CountsOf(keys, xs + [x]), c[..|c| - 1] + [c[|c| - 1] + 1];
    forall k | 0 <= k < |keys|
      ensures l[k] == r[k]
    {
      CountSnoc(xs, x, keys[k]);
    }
  }

  /** Consecutive blocks of the sizes `counts`, covering `xs`, the `k`-th holding only `keys[k]`. */
  ghost predicate Blocked<T>(xs: seq<T>, keys: seq<T>, counts: seq<nat>) {
    && |counts| == |keys|
    && Sum(counts) == |xs|
    && forall k: nat, p: nat :: k < |keys| && InBlock(counts, k, p) ==> p < |xs| && xs[p] == keys[k]
  }

  lemma BlockedNew<T>(xs: seq<T>, keys: seq<T>, counts: seq<nat>, x: T)
    requires Blocked(xs, keys, counts)
    ensures Blocked(xs + [x], keys + [x], counts + [1])
  {
    var c := counts + [1];
    SumSnoc(counts, 1);
    forall k: nat, p: nat | k < |keys| + 1 && InBlock(c, k, p)
      ensures p < |xs| + 1 && (xs + [x])[p] == (keys + [x])[k]
    {
      if k < |keys| {
        assert c[..k] == counts[..k];
        assert c[..k + 1] == counts[..k + 1];
        assert InBlock(counts, k, p);
      } else {
        assert c[..k] == counts;
        assert c[..k + 1] == c;
      }
    }
  }

  lemma BlockedGrow<T>(xs: seq<T>, keys: seq<T>, counts: seq<nat>, x: T)
    requires Blocked(xs, keys, counts) && |keys| > 0 && x == keys[|keys| - 1]
    ensures var n := |counts|; Blocked(xs + [x], keys, counts[..n - 1] + [counts[n - 1] + 1])
  {
    var n := |counts|;
    var c := counts[..n - 1] + [counts[n - 1] + 1];
    SumSnoc(counts[..n - 1], counts[n - 1] + 1);
    SumSnoc(counts[..n - 1], counts[n - 1]);
    assert counts[..n - 1] + [counts[n - 1]] == counts;
    forall k: nat, p: nat | k < |keys| && InBlock(c, k, p)
      ensures p < |xs| + 1 && (xs + [x])[p] == keys[k]
    {
      assert c[..k] == counts[..k];
      if k < n - 1 {
        assert c[..k + 1] == counts[..k + 1];
        assert InBlock(counts, k, p);
      } else {
        assert c[..k + 1] == c;
        assert counts[..k + 1] == counts;
        if p < |xs| {
          assert InBlock(counts, k, p);
        }
      }
    }
  }

  /** Cutting a contiguous sequence into blocks of the sizes its Counter reports, in
      first-seen order, gives blocks of one value each: the `k`-th block holds only the
      `k`-th value first seen. */
  lemma {:induction false} ContiguousBlocked<T>(xs: seq<T>)
    requires Contiguous(xs)
    ensures Blocked(xs, FirstSeen(xs), CountsOf(FirstSeen(xs), xs))
  {
    if |xs| == 0 {
      assert CountsOf(FirstSeen(xs), xs) == [];
    } else {
      var ys, x := xs[..|xs| - 1], xs[|xs| - 1];
      assert xs == ys + [x];
      ContiguousPrefix(xs, |xs| - 1);
      ContiguousBlocked(ys);
      if x in ys {
        RepeatIsLastKey(ys, x);
        BlockedRepeat(ys, x);
      } else {
        BlockedFresh(ys, x);
      }
    }
  }

  /** In a contiguous sequence a value seen before repeats the last value first seen. */
  lemma RepeatIsLastKey<T>(ys: seq<T>, x: T)
    requires Contiguous(ys + [x]) && x in ys
    ensures |FirstSeen(ys)| > 0 && FirstSeen(ys)[|FirstSeen(ys)| - 1] == x
  {
    FirstSeenSnoc(ys, x);
    LastFirstSeen(ys + [x]);
    assert (ys + [x])[|ys|] == x;
  }

  lemma BlockedRepeat<T>(ys: seq<T>, x: T)
    requires x in ys && |FirstSeen(ys)| > 0 && FirstSeen(ys)[|FirstSeen(ys)| - 1] == x
    requires Blocked(ys, FirstSeen(ys), CountsOf(FirstSeen(ys), ys))
    ensures Blocked(ys + [x], FirstSeen(ys + [x]), CountsOf(FirstSeen(ys + [x]), ys + [x]))
  {
    FirstSeenSnoc(ys, x);
    var keys := FirstSeen(ys);
    CountsSnocLast(keys, ys, x);
    BlockedGrow(ys, keys, CountsOf(keys, ys), x);
  }

  lemma BlockedFresh<T>(ys: seq<T>, x: T)
    requires x !in ys
    requires Blocked(ys, FirstSeen(ys), CountsOf(FirstSeen(ys), ys))
    ensures Blocked(ys + [x], FirstSeen(ys + [x]), CountsOf(FirstSeen(ys + [x]), ys + [x]))
  {
    FirstSeenSnoc(ys, x);
    var keys := FirstSeen(ys);
    CountsSnocNew(keys, ys, x);
    BlockedNew(ys, keys, CountsOf(keys, ys), x);
  }

  /** The block that holds position `p`, when blocks of the sizes `counts` follow each other. */
  function BlockOf(counts: seq<nat>, p: nat): (k: nat)
    requires p < Sum(counts)
    ensures k < |counts| && InBlock(counts, k, p)
    decreases |counts|
  {
    var n := |counts| - 1;
    var init := counts[..n];
    assert counts[..n + 1] == counts;
    if p >= Sum(init) then n
    else
      var k := BlockOf(init, p);
      assert init[..k] == counts[..k] && init[..k + 1] == counts[..k + 1];
      k
  }

  /** Later blocks start no earlier. */
  lemma {:induction false} PrefixSumMono(counts: seq<nat>, a: nat, b: nat)
    requires a <= b <= |counts|
    ensures Sum(counts[..a]) <= Sum(counts[..b])
    decreases b - a
  {
    if a < b {
      assert counts[..b][..b - 1] == counts[..b - 1];
      PrefixSumMono(counts, a, b - 1);
    }
  }

  /** A later position never lies in an earlier block. */
  lemma BlockMonotone(counts: seq<nat>, k1: nat, k2: nat, p1: nat, p2: nat)
    requires k1 < |counts| && k2 < |counts|
    requires InBlock(counts, k1, p1) && InBlock(counts, k2, p2) && p1 <= p2
    ensures k1 <= k2
  {
    if k1 > k2 {
      PrefixSumMono(counts, k2 + 1, k1);
    }
  }

  /** Conversely, a sequence cut into consecutive blocks of distinct values is
      contiguous. */
  lemma BlockedContiguous<T>(xs: seq<T>, keys: seq<T>, counts: seq<nat>)
    requires Distinct(keys) && Blocked(xs, keys, counts)
    ensures Contiguous(xs)
  {
    forall i, m, j | 0 <= i <= m <= j < |xs| && xs[i] == xs[j]
      ensures xs[m] == xs[i]
    {
      var ki, km, kj := BlockOf(counts, i), BlockOf(counts, m), BlockOf(counts, j);
      BlockMonotone(counts, ki, km, i, m);
      BlockMonotone(counts, km, kj, m, j);
      assert xs[i] == keys[ki] && xs[m] == keys[km] && xs[j] == keys[kj];
    }
  }
}
