/** Breakdown buckets as ledgers: a bucket map is what a list of postings leaves behind. */
module Ledger {
  import opened Money

  datatype Column = PlannedCol | ActualCol

  /** A `[planned, actual]` pair. */
  datatype Pair = Pair(planned: real, actual: real) {
    function At(c: Column): real {
      if c.PlannedCol? then planned else actual
    }

    function Plus(c: Column, x: real): Pair {
      if c.PlannedCol? then Pair(planned + x, actual) else Pair(planned, actual + x)
    }
  }

  const ZERO_PAIR := Pair(0.0, 0.0)

  datatype Posting<K> = Posting(key: K, column: Column, amount: real)

  function Lookup<K>(b: map<K, Pair>, k: K): Pair {
    if k in b then b[k] else ZERO_PAIR
  }

  /** `bucket[key][column] += amount` on a default dict. */
  function Credit<K>(b: map<K, Pair>, p: Posting<K>): map<K, Pair> {
    b[p.key := Lookup(b, p.key).Plus(p.column, p.amount)]
  }

  function CreditAll<K>(b: map<K, Pair>, ps: seq<Posting<K>>): map<K, Pair> {
    if ps == [] then b else Credit(CreditAll(b, ps[..|ps| - 1]), ps[|ps| - 1])
  }

  /** The buckets that `ps` leaves behind when it is posted to an empty map. */
  function Buckets<K>(ps: seq<Posting<K>>): map<K, Pair> {
    CreditAll(map[], ps)
  }

  /** What `ps` posts to one key and column. */
  function Balance<K(==)>(ps: seq<Posting<K>>, k: K, c: Column): real {
    if ps == [] then 0.0
    else
      var p := ps[|ps| - 1];
      Balance(ps[..|ps| - 1], k, c) + if p.key == k && p.column == c then p.amount else 0.0
  }

  /** What `ps` posts to one column, over all keys. */
  function Volume<K>(ps: seq<Posting<K>>, c: Column): real {
    if ps == [] then 0.0
    else
      var p := ps[|ps| - 1];
      Volume(ps[..|ps| - 1], c) + if p.column == c then p.amount else 0.0
  }

  ghost predicate Posted<K>(ps: seq<Posting<K>>, k: K) {
    exists i :: 0 <= i < |ps| && ps[i].key == k
  }

  lemma CreditAllAppend<K>(b: map<K, Pair>, ps: seq<Posting<K>>, p: Posting<K>)
    ensures CreditAll(b, ps + [p]) == Credit(CreditAll(b, ps), p)
  {
    assert (ps + [p])[..|ps|] == ps;
  }

  lemma {:induction false} CreditAllConcat<K>(b: map<K, Pair>, ps: seq<Posting<K>>, qs: seq<Posting<K>>)
    ensures CreditAll(CreditAll(b, ps), qs) == CreditAll(b, ps + qs)
    decreases |qs|
  {
    if qs == [] {
      assert ps + qs == ps;
    } else {
      var front, q := qs[..|qs| - 1], qs[|qs| - 1];
      CreditAllConcat(b, ps, front);
      assert ps + qs == (ps + front) + [q];
      CreditAllAppend(b, ps + front, q);
    }
  }

  lemma {:induction false} BalanceConcat<K>(ps: seq<Posting<K>>, qs: seq<Posting<K>>, k: K, c: Column)
    ensures Balance(ps + qs, k, c) == Balance(ps, k, c) + Balance(qs, k, c)
    decreases |qs|
  {
    if qs == [] {
      assert ps + qs == ps;
    } else {
      var front := qs[..|qs| - 1];
      BalanceConcat(ps, front, k, c);
      assert (ps + qs)[..|ps + qs| - 1] == ps + front;
    }
  }

  lemma {:induction false} VolumeConcat<K>(ps: seq<Posting<K>>, qs: seq<Posting<K>>, c: Column)
    ensures Volume(ps + qs, c) == Volume(ps, c) + Volume(qs, c)
    decreases |qs|
  {
    if qs == [] {
      assert ps + qs == ps;
    } else {
      var front := qs[..|qs| - 1];
      VolumeConcat(ps, front, c);
      assert (ps + qs)[..|ps + qs| - 1] == ps + front;
    }
  }

  /** A bucket exists exactly for the keys posted to, and holds exactly what was posted. */
  lemma {:induction false} BucketMeaning<K>(ps: seq<Posting<K>>, k: K)
    ensures k in Buckets(ps) <==> Posted(ps, k)
    ensures Lookup(Buckets(ps), k) == Pair(Balance(ps, k, PlannedCol), Balance(ps, k, ActualCol))
  {
    if ps != [] {
      var n := |ps| - 1;
      BucketMeaning(ps[..n], k);
      BucketMeaning(ps[..n], ps[n].key);
      assert forall i :: 0 <= i < n ==> ps[i] == ps[..n][i];
      assert Posted(ps, k) <==> Posted(ps[..n], k) || ps[n].key == k;
    }
  }

  ghost function Pick<K>(b: map<K, Pair>): (k: K)
    requires b != map[]
    ensures k in b
  {
    assert |b| != 0 && |b.Keys| != 0;
    var k :| k in b.Keys; k
  }

  /** The sum of one column over all buckets. */
  ghost function Total<K>(b: map<K, Pair>, c: Column): real
    decreases |b|
  {
    if b == map[] then 0.0
    else
      var k := Pick(b);
      assert (b - {k}).Keys == b.Keys - {k};
      b[k].At(c) + Total(b - {k}, c)
  }

  /** The sum does not depend on the order in which buckets are taken. */
  lemma {:induction false} TotalWithout<K>(b: map<K, Pair>, k: K, c: Column)
    requires k in b
    ensures Total(b, c) == b[k].At(c) + Total(b - {k}, c)
    decreases |b|
  {
    var j := Pick(b);
    if j != k {
      assert (b - {j}).Keys == b.Keys - {j} && (b - {k}).Keys == b.Keys - {k};
      assert (b - {j}) - {k} == (b - {k}) - {j};
      TotalWithout(b - {j}, k, c);
      TotalWithout(b - {k}, j, c);
    }
  }

  lemma TotalCredit<K>(b: map<K, Pair>, p: Posting<K>, c: Column)
    ensures Total(Credit(b, p), c) == Total(b, c) + if p.column == c then p.amount else 0.0
  {
    var after := Credit(b, p);
    TotalWithout(after, p.key, c);
    if p.key in b {
      TotalWithout(b, p.key, c);
      assert after - {p.key} == b - {p.key};
    } else {
      assert after - {p.key} == b;
    }
  }

  /** Conservation: the buckets re-add exactly to what was posted, whatever the keys. */
  lemma {:induction false} Conservation<K>(ps: seq<Posting<K>>, c: Column)
    ensures Total(Buckets(ps), c) == Volume(ps, c)
  {
    if ps != [] {
      var n := |ps| - 1;
      Conservation(ps[..n], c);
      TotalCredit(Buckets(ps[..n]), ps[n], c);
    }
  }

  datatype CentPair = CentPair(planned: int, actual: int) {
    function AsPair(): Pair {
      Pair(Chf(planned), Chf(actual))
    }
  }

  /** _quant_pairs */
  function QuantPairs<K>(b: map<K, Pair>): (q: map<K, CentPair>)
    ensures q.Keys == b.Keys
    ensures forall k :: k in b ==> IsNearestCent(b[k].planned, q[k].planned) && IsNearestCent(b[k].actual, q[k].actual)
  {
    map k | k in b :: CentPair(Quantise(b[k].planned), Quantise(b[k].actual))
  }

  function AsPairs<K>(q: map<K, CentPair>): map<K, Pair> {
    map k | k in q :: q[k].AsPair()
  }

  lemma {:induction false} TotalsClose<K>(b: map<K, Pair>, d: map<K, Pair>, c: Column)
    requires b.Keys == d.Keys
    requires forall k :: k in b ==> Abs(d[k].At(c) - b[k].At(c)) <= HALF_CENT
    ensures Abs(Total(d, c) - Total(b, c)) <= HALF_CENT * |b| as real
    decreases |b|
  {
    if b == map[] {
      assert d == map[];
    } else {
      var k := Pick(b);
      TotalWithout(d, k, c);
      assert (b - {k}).Keys == b.Keys - {k} && (d - {k}).Keys == d.Keys - {k};
      TotalsClose(b - {k}, d - {k}, c);
      assert |b| == |b - {k}| + 1;
      assert HALF_CENT * |b| as real == HALF_CENT * |b - {k}| as real + HALF_CENT;
    }
  }

  /** Rounding every bucket on its own moves their sum by at most half a cent a bucket. */
  lemma RoundedBucketsBound<K>(b: map<K, Pair>, c: Column)
    ensures Abs(Total(AsPairs(QuantPairs(b)), c) - Total(b, c)) <= HALF_CENT * |b| as real
  {
    TotalsClose(b, AsPairs(QuantPairs(b)), c);
  }
}
