/** `IntHistogram`: a fixed-width histogram over `[min, max]` split into
    `buckets` buckets, each a counter in a map keyed by bucket index. */
module Histogram {
  import opened Common

  /** `Math.ceil(a * 1.0 / b)` for integers: the least `q` with `a <= b * q`. */
  function CeilDiv(a: int, b: int): (q: int)
    requires b > 0
    ensures b * (q - 1) < a <= b * q
  {
    -((-a) / b)
  }

  /** The bucket width for `[min, max]` and `buckets` buckets. */
  function Width(buckets: int, min: int, max: int): (w: int)
    requires buckets > 0
    ensures buckets * (w - 1) < max - min + 1 <= buckets * w
  {
    CeilDiv(max - min + 1, buckets)
  }

  /** `buckets` buckets of the width cover the whole range, with less
      than one bucket's worth of slack. */
  lemma WidthCovers(buckets: int, min: int, max: int)
    requires buckets > 0 && min <= max
    ensures var w := Width(buckets, min, max);
      && w >= 1
      && w * buckets >= max - min + 1
      && w * buckets < max - min + 1 + buckets
  {
    var w := Width(buckets, min, max);
    assert buckets * (w - 1) == buckets * w - buckets;
    FactorLess(buckets, 0, w);
  }

  /** `getBucketIndex`: the truncated quotient of `v - min` by the width,
      clamped to the last bucket. */
  function BucketIndex(min: int, width: int, buckets: int, v: int): (index: int)
    requires width > 0
    ensures index <= buckets - 1
    ensures buckets >= 1 && min <= v ==> index >= 0
  {
    var index := JavaDiv(v - min, width);
    if index >= buckets then buckets - 1 else index
  }

  /** `getBucketOffset`: with `o = (v - min + 1) % width`, `width - 1` when
      `o` is 0, else `o - 1`. */
  function BucketOffset(min: int, width: int, v: int): (o: int)
    requires width > 0
    ensures o < width
    ensures min <= v ==> 0 <= o
  {
    var offset := JavaRem(v - min + 1, width);
    if offset == 0 then width - 1 else offset - 1
  }

  /** For a value of the range, the index is the floor of `(v - min) /
      width`, always a valid bucket, so the clamp never applies. */
  lemma BucketIndexInRange(buckets: int, min: int, max: int, v: int)
    requires buckets > 0 && min <= v <= max
    ensures var w := Width(buckets, min, max);
      && w >= 1
      && BucketIndex(min, w, buckets, v) == (v - min) / w
      && 0 <= BucketIndex(min, w, buckets, v) < buckets
  {
    var w := Width(buckets, min, max);
    WidthCovers(buckets, min, max);
    var q := (v - min) / w;
    assert w * q <= v - min;
    FactorLess(w, q, buckets);
  }

  /** From `min` on, the offset is `(v - min) mod width`. */
  lemma BucketOffsetIsRemainder(min: int, width: int, v: int)
    requires width > 0 && min <= v
    ensures BucketOffset(min, width, v) == (v - min) % width
    ensures 0 <= BucketOffset(min, width, v) < width
  {
    var r := (v - min) % width;
    var q := (v - min) / width;
    assert JavaRem(v - min + 1, width) == (v - min + 1) % width;
    if r == width - 1 {
      DivModUnique(v - min + 1, width, q + 1, 0);
    } else {
      DivModUnique(v - min + 1, width, q, r + 1);
    }
  }

  /** Index and offset locate a value of the range: it is the offset-th
      value of its bucket. */
  lemma IndexAndOffsetLocate(buckets: int, min: int, max: int, v: int)
    requires buckets > 0 && min <= v <= max
    ensures var w := Width(buckets, min, max);
      w >= 1 && v == min + w * BucketIndex(min, w, buckets, v) + BucketOffset(min, w, v)
  {
    var w := Width(buckets, min, max);
    BucketIndexInRange(buckets, min, max, v);
    BucketOffsetIsRemainder(min, w, v);
  }

  /** Total of buckets `0 .. n - 1`. */
  function BucketSum(bucket: map<int, int>, n: nat): int
    requires forall i | 0 <= i < n :: i in bucket
  {
    if n == 0 then 0 else BucketSum(bucket, n - 1) + bucket[n - 1]
  }

  /** Adding one to a single bucket adds one to the total. */
  lemma {:induction false} BucketSumIncrement(bucket: map<int, int>, n: nat, index: int)
    requires forall i | 0 <= i < n :: i in bucket
    requires 0 <= index < n
    ensures BucketSum(bucket[index := bucket[index] + 1], n) == BucketSum(bucket, n) + 1
  {
    var b := bucket[index := bucket[index] + 1];
    if index < n - 1 {
      BucketSumIncrement(bucket, n - 1, index);
    } else {
      BucketSumSame(b, bucket, n - 1);
    }
  }

  lemma {:induction false} BucketSumSame(b: map<int, int>, c: map<int, int>, n: nat)
    requires forall i | 0 <= i < n :: i in b && i in c && b[i] == c[i]
    ensures BucketSum(b, n) == BucketSum(c, n)
  {
    if n > 0 {
      BucketSumSame(b, c, n - 1);
    }
  }

  /** How many of `values` fall in bucket `index`. */
  function InBucket(values: seq<int>, min: int, width: int, buckets: int, index: int): nat
    requires width > 0
  {
    if values == [] then 0
    else
      InBucket(values[..|values| - 1], min, width, buckets, index)
      + (if BucketIndex(min, width, buckets, values[|values| - 1]) == index then 1 else 0)
  }

  class IntHistogram {
    const buckets: int
    const minValue: int
    const maxValue: int
    var count: int
    const width: int
    var bucket: map<int, int>
    /** The values added so far, oldest first. */
    ghost var added: seq<int>

    /** One counter per bucket index, each the number of added values in
        that bucket, and `count` their total. */
    ghost predicate Valid()
      reads this
    {
      && buckets > 0
      && width == Width(buckets, minValue, maxValue)
      && (forall i :: i in bucket <==> 0 <= i < buckets)
      && (width > 0 ==> forall i | 0 <= i < buckets :: bucket[i] == InBucket(added, minValue, width, buckets, i))
      && (forall v | v in added :: minValue <= v <= maxValue)
      && count == |added|
      && count == BucketSum(bucket, buckets)
    }

    constructor (buckets: int, min: int, max: int)
      requires buckets > 0
      ensures Valid() && added == []
      ensures this.buckets == buckets && minValue == min && maxValue == max
      ensures count == 0 && forall i | 0 <= i < buckets :: bucket[i] == 0
    {
      this.buckets := buckets;
      minValue := min;
      maxValue := max;
      count := 0;
      width := CeilDiv(max - min + 1, buckets);
      var m: map<int, int> := map[];
      for i := 0 to buckets
        invariant forall j :: j in m <==> 0 <= j < i
        invariant forall j | 0 <= j < i :: m[j] == 0
        invariant BucketSum(m, i) == 0
      {
        BucketSumSame(m[i := 0], m, i);
        m := m[i := 0];
      }
      bucket := m;
      added := [];
    }

    /** `addValue`: one more value in its bucket, and in the total. */
    method AddValue(v: int)
      requires Valid() && minValue <= v <= maxValue
      modifies this`bucket, this`count, this`added
      ensures Valid() && added == old(added) + [v]
      ensures var index := BucketIndex(minValue, width, buckets, v);
        && 0 <= index < buckets
        && bucket == old(bucket)[index := old(bucket)[index] + 1]
        && count == old(count) + 1
    {
      BucketIndexInRange(buckets, minValue, maxValue, v);
      var index := BucketIndex(minValue, width, buckets, v);
      BucketSumIncrement(bucket, buckets, index);
      bucket := bucket[index := bucket[index] + 1];
      count := count + 1;
      ghost var before := added;
      added := before + [v];
      assert added[..|added| - 1] == before;
    }
  }
}
