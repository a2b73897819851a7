/**
Why an in-order traversal of a hash table meets the packets of a heap in payload order: the bucket index is in range and
monotone in the offset, and a large enough table gives every packet a bucket of its own.
 */
module TableOrder {
  import opened Bits
  import opened HeapStore

  /** Quotients follow their dividends; a whole divisor more gives a larger quotient. */
  lemma QuotOrder(x: nat, y: nat, d: nat)
    requires d > 0 && x <= y
    ensures Quot(x, d) <= Quot(y, d)
    ensures x + d <= y ==> Quot(x, d) < Quot(y, d)
  {
    hide *;
    QuotRem(x, d);
    QuotRem(y, d);
    if Quot(y, d) < Quot(x, d) {
      MulMonotone(d, Quot(y, d) + 1, Quot(x, d));
    } else if Quot(x, d) < Quot(y, d) {
      MulMonotone(d, Quot(x, d) + 1, Quot(y, d));
    }
  }

  /** Every offset up to the heap length has a bucket. */
  lemma IndexInRange(off: nat, heapLen: nat, tLen: nat)
    requires off <= heapLen && tLen > 0
    ensures 0 <= HashIndex(off, heapLen, tLen) < tLen
  {
    if heapLen > 0 {
      hide Quot;
      MulMonotone(tLen - 1, off, heapLen);
      QuotOrder(off * (tLen - 1), heapLen * (tLen - 1), heapLen);
      QuotRemOf(heapLen, tLen - 1, 0);
    }
  }

  /** A later offset is never in an earlier bucket. */
  lemma IndexMonotone(a: nat, b: nat, heapLen: nat, tLen: nat)
    requires a <= b && tLen > 0
    ensures HashIndex(a, heapLen, tLen) <= HashIndex(b, heapLen, tLen)
  {
    if heapLen > 0 {
      hide Quot;
      MulMonotone(tLen - 1, a, b);
      QuotOrder(a * (tLen - 1), b * (tLen - 1), heapLen);
    }
  }

  /** Offsets at least size apart are in different buckets if size * (tLen - 1) reaches the heap length. */
  lemma IndexSeparates(a: nat, b: nat, size: nat, heapLen: nat, tLen: nat)
    requires heapLen > 0 && tLen > 0 && a + size <= b && size * (tLen - 1) >= heapLen
    ensures HashIndex(a, heapLen, tLen) < HashIndex(b, heapLen, tLen)
  {
    hide Quot;
    var x, y := a * (tLen - 1), b * (tLen - 1);
    MulMonotone(tLen - 1, a + size, b);
    assert (a + size) * (tLen - 1) == x + size * (tLen - 1);
    QuotOrder(x, y, heapLen);
  }

  // ---- chains laid end to end

  lemma {:induction false} ConcatEmpty<T>(ss: seq<seq<T>>)
    requires forall i :: 0 <= i < |ss| ==> ss[i] == []
    ensures Concat(ss) == []
  {
    if ss != [] { ConcatEmpty(ss[..|ss| - 1]); }
  }

  /** Element j of list i stands j places after the lists before it. */
  lemma {:induction false} ConcatAt<T>(ss: seq<seq<T>>, i: nat, j: nat)
    requires i < |ss| && j < |ss[i]|
    ensures |Concat(ss[..i])| + j < |Concat(ss)| && Concat(ss)[|Concat(ss[..i])| + j] == ss[i][j]
  {
    var n := |ss| - 1;
    if i < n {
      ConcatAt(ss[..n], i, j);
      assert ss[..n][..i] == ss[..i];
    }
  }

  /** An object appended to a bucket with only empty buckets after it comes last. */
  lemma {:induction false} ConcatAppend<T>(ss: seq<seq<T>>, i: nat, x: T)
    requires i < |ss| && forall j :: i < j < |ss| ==> ss[j] == []
    ensures Concat(ss[i := ss[i] + [x]]) == Concat(ss) + [x]
  {
    var n, tt := |ss| - 1, ss[i := ss[i] + [x]];
    if i == n {
      assert tt[..n] == ss[..n];
      assert Concat(ss[..n]) + (ss[n] + [x]) == (Concat(ss[..n]) + ss[n]) + [x];
    } else {
      ConcatAppend(ss[..n], i, x);
      assert tt[..n] == ss[..n][i := ss[i] + [x]];
      assert tt[n] == [];
      assert Concat(tt) == Concat(tt[..n]) + [] == Concat(tt[..n]);
      assert Concat(ss) == Concat(ss[..n]) + [] == Concat(ss[..n]);
    }
  }

  /** Buckets that hold xs one by one at increasing places, and nothing else. */
  ghost predicate OnePerBucket<T>(ss: seq<seq<T>>, xs: seq<T>, at: seq<int>) {
    && |at| == |xs|
    && (forall k :: 0 <= k < |at| ==> 0 <= at[k] < |ss| && ss[at[k]] == [xs[k]])
    && (forall k, l :: 0 <= k < l < |at| ==> at[k] < at[l])
    && (forall i :: 0 <= i < |ss| && i !in at ==> ss[i] == [])
  }

  lemma LastBucketFull<T>(ss: seq<seq<T>>, xs: seq<T>, at: seq<int>)
    requires OnePerBucket(ss, xs, at) && ss != [] && at != [] && at[|at| - 1] == |ss| - 1
    ensures OnePerBucket(ss[..|ss| - 1], xs[..|xs| - 1], at[..|at| - 1]) && ss[|ss| - 1] == [xs[|xs| - 1]]
  {
    var n, m := |ss| - 1, |at| - 1;
    var tt, bt := ss[..n], at[..m];
    assert at == bt + [n];
  }

  lemma LastBucketEmpty<T>(ss: seq<seq<T>>, xs: seq<T>, at: seq<int>)
    requires OnePerBucket(ss, xs, at) && ss != [] && (at == [] || at[|at| - 1] != |ss| - 1)
    ensures OnePerBucket(ss[..|ss| - 1], xs, at) && ss[|ss| - 1] == []
  {
    var n := |ss| - 1;
    forall k | 0 <= k < |at| ensures at[k] < n {
      assert at[k] <= at[|at| - 1] && at[|at| - 1] < |ss|;
    }
  }

  lemma SomeBucket<T>(ss: seq<seq<T>>, xs: seq<T>, at: seq<int>)
    requires OnePerBucket(ss, xs, at)
    ensures xs == [] || ss != []
  {
    if at != [] { assert at[0] < |ss|; }
  }

  lemma DropLastBucket<T>(ss: seq<seq<T>>, xs: seq<T>, at: seq<int>) returns (xs': seq<T>, at': seq<int>)
    requires OnePerBucket(ss, xs, at) && ss != []
    ensures OnePerBucket(ss[..|ss| - 1], xs', at') && xs == xs' + ss[|ss| - 1]
  {
    if at != [] && at[|at| - 1] == |ss| - 1 {
      LastBucketFull(ss, xs, at);
      xs', at' := xs[..|xs| - 1], at[..|at| - 1];
    } else {
      LastBucketEmpty(ss, xs, at);
      xs', at' := xs, at;
    }
  }

  /** Then an in-order traversal meets xs. */
  lemma {:induction false} ConcatOnePerBucket<T>(ss: seq<seq<T>>, xs: seq<T>, at: seq<int>)
    requires OnePerBucket(ss, xs, at)
    ensures Concat(ss) == xs
  {
    SomeBucket(ss, xs, at);
    hide OnePerBucket;
    if ss != [] {
      var xs', at' := DropLastBucket(ss, xs, at);
      ConcatOnePerBucket(ss[..|ss| - 1], xs', at');
    }
  }
}
