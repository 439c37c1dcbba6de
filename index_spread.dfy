/**
 * `get_index_spread(extra, slots)`, which `justify` calls (src/lib.rs:133) to
 * choose the gaps that receive one space more than the others. Its source is
 * not part of this model; what `justify` relies on is stated as
 * `SpreadContract`, and `IndexSpread` is one function that meets it, chosen
 * as a stand-in: it splits the `slots` gaps into `extra` equal buckets and
 * picks the middle of each, `i * slots / extra + slots / (2 * extra)`, which
 * gives the picks the crate's tests and example need.
 */
module IndexSpread {
  import opened Wrappers

  predicate Distinct(ix: seq<nat>) {
    forall i, j :: 0 <= i < j < |ix| ==> ix[i] != ix[j]
  }

  /** What `justify` needs of one answer: `None` only when nothing is to be spread,
      otherwise exactly `extra` distinct gap indices, each a valid index (an index
      past the last gap would panic at src/lib.rs:135). */
  predicate SpreadOk(r: Option<seq<nat>>, extra: nat, slots: nat)
    ensures SpreadOk(r, extra, slots) && extra > 0 ==> r.Some? && |r.value| == extra && r.value[0] < slots
  {
    match r
    case None => extra == 0
    case Some(ix) => |ix| == extra && Distinct(ix) && forall k :: 0 <= k < |ix| ==> ix[k] < slots
  }

  /** The contract of `get_index_spread`, for every remainder it can be asked about. */
  ghost predicate SpreadContract(spread: (nat, nat) -> Option<seq<nat>>)
    ensures SpreadContract(spread) ==> forall slots: nat :: 0 < slots ==> spread(0, slots) == None || spread(0, slots).value == []
  {
    forall extra: nat, slots: nat :: extra < slots ==> SpreadOk(spread(extra, slots), extra, slots)
  }

  /** Where bucket `i` of `extra` equal buckets over `slots` gaps starts. */
  function BucketStart(i: nat, extra: nat, slots: nat): nat
    requires extra > 0
  {
    i * slots / extra
  }

  /** The gap chosen in bucket `i`: its start plus half a bucket. */
  function BucketIndex(i: nat, extra: nat, slots: nat): nat
    requires extra > 0
  {
    BucketStart(i, extra, slots) + slots / (extra + extra)
  }

  /** The chosen gaps of the first `count` of the `extra` buckets. */
  function Buckets(count: nat, extra: nat, slots: nat): (ix: seq<nat>)
    requires extra > 0
    ensures |ix| == count
  {
    if count == 0 then [] else Buckets(count - 1, extra, slots) + [BucketIndex(count - 1, extra, slots)]
  }

  lemma {:induction false} BucketsAt(count: nat, extra: nat, slots: nat, i: nat)
    requires extra > 0 && i < count
    ensures Buckets(count, extra, slots)[i] == BucketIndex(i, extra, slots)
  {
    if i < count - 1 {
      BucketsAt(count - 1, extra, slots, i);
    }
  }

  function IndexSpread(extra: nat, slots: nat): (r: Option<seq<nat>>)
    ensures extra < slots ==> SpreadOk(r, extra, slots)
  {
    if extra == 0 || slots == 0 then None
    else if slots <= extra then Some(seq(slots, i => i))
    else
      BucketsOk(extra, slots);
      Some(Buckets(extra, extra, slots))
  }

  /** `IndexSpread` meets the contract `justify` relies on. */
  lemma IndexSpreadMeetsContract()
    ensures SpreadContract(IndexSpread)
  {
    forall extra: nat, slots: nat | extra < slots
      ensures SpreadOk(IndexSpread(extra, slots), extra, slots)
    {
      var r := IndexSpread(extra, slots);
    }
  }

  /** With fewer extra spaces than gaps, the buckets give distinct gaps, in order. */
  lemma BucketsOk(extra: nat, slots: nat)
    requires 0 < extra < slots
    ensures SpreadOk(Some(Buckets(extra, extra, slots)), extra, slots)
    ensures forall i, j :: 0 <= i < j < extra ==> Buckets(extra, extra, slots)[i] < Buckets(extra, extra, slots)[j]
  {
    var ix := Buckets(extra, extra, slots);
    forall i, j | 0 <= i < j < extra ensures ix[i] < ix[j] {
      BucketsAt(extra, extra, slots, i);
      BucketsAt(extra, extra, slots, j);
      BucketBounds(i, extra, slots);
      BucketBounds(j, extra, slots);
      BucketStartMonotone(i + 1, j, extra, slots);
    }
    forall k | 0 <= k < extra ensures ix[k] < slots {
      BucketsAt(extra, extra, slots, k);
      BucketBounds(k, extra, slots);
      BucketStartMonotone(k + 1, extra, extra, slots);
      DivAddMultiple(0, slots, extra);
      assert BucketStart(extra, extra, slots) == slots;
    }
  }

  /** The rule is even: the chosen gap of every bucket lies inside that bucket. */
  lemma BucketBounds(i: nat, extra: nat, slots: nat)
    requires 0 < extra <= slots
    ensures BucketStart(i, extra, slots) <= BucketIndex(i, extra, slots) < BucketStart(i + 1, extra, slots)
  {
    var a := i * slots;
    var q := slots / (extra + extra);
    assert (i + 1) * slots == a + slots;
    assert (extra + extra) * q <= slots;
    if q == 0 {
      DivMonotone(a + extra, a + slots, extra);
      DivAddMultiple(a, 1, extra);
    } else {
      DivMonotone(a + (2 * q) * extra, a + slots, extra);
      DivAddMultiple(a, 2 * q, extra);
    }
  }

  lemma BucketStartMonotone(i: nat, j: nat, extra: nat, slots: nat)
    requires 0 < extra && i <= j
    ensures BucketStart(i, extra, slots) <= BucketStart(j, extra, slots)
  {
    MulMonotone(i, j, slots);
    DivMonotone(i * slots, j * slots, extra);
  }

  lemma MulMonotone(a: nat, b: nat, c: nat)
    requires a <= b
    ensures a * c <= b * c
  {
    assert b * c == a * c + (b - a) * c;
  }

  lemma DivMonotone(a: nat, b: nat, d: nat)
    requires 0 < d && a <= b
    ensures a / d <= b / d
  {
    if b / d < a / d {
      MulMonotone(b / d + 1, a / d, d);
      assert false;
    }
  }

  lemma DivAddMultiple(a: nat, k: nat, d: nat)
    requires 0 < d
    ensures (a + k * d) / d == a / d + k
  {
    var q, r := a / d, a % d;
    assert a + k * d == (q + k) * d + r;
    DivUnique(a + k * d, d, q + k, r);
  }

  lemma DivUnique(x: nat, d: nat, q: nat, r: nat)
    requires 0 <= r < d && x == q * d + r
    ensures x / d == q && x % d == r
  {
    var q0, r0 := x / d, x % d;
    assert x == q0 * d + r0;
    if q0 < q {
      MulMonotone(q0 + 1, q, d);
      assert false;
    } else if q < q0 {
      MulMonotone(q + 1, q0, d);
      assert false;
    }
  }

  /** The two calls the inline tests and the crate-level example make. */
  lemma IndexSpreadExamples()
    ensures IndexSpread(1, 2) == Some([1])
    ensures IndexSpread(2, 3) == Some([0, 1])
  {
    OneBucketOverTwo();
    TwoBucketsOverThree();
  }

  /** The second example, for arguments that are not written as literals. */
  lemma SpreadTwoOverThree(extra: nat, slots: nat)
    requires extra == 2 && slots == 3
    ensures IndexSpread(extra, slots) == Some([0, 1])
  {
    IndexSpreadExamples();
  }

  /** The first example, for arguments that are not written as literals. */
  lemma SpreadOneOverTwo(extra: nat, slots: nat)
    requires extra == 1 && slots == 2
    ensures IndexSpread(extra, slots) == Some([1])
  {
    IndexSpreadExamples();
  }

  lemma OneBucketOverTwo()
    ensures Buckets(1, 1, 2) == [1]
  {
    FirstOfOneBucketOverTwo();
  }

  lemma TwoBucketsOverThree()
    ensures Buckets(2, 2, 3) == [0, 1]
  {
    assert Buckets(2, 2, 3) == [BucketIndex(0, 2, 3), BucketIndex(1, 2, 3)] by {
      assert Buckets(1, 2, 3) == [BucketIndex(0, 2, 3)];
    }
    FirstOfTwoBucketsOverThree();
    SecondOfTwoBucketsOverThree();
  }

  lemma FirstOfOneBucketOverTwo()
    ensures BucketIndex(0, 1, 2) == 1
  {
    DivUnique(0, 1, 0, 0);
    DivUnique(2, 2, 1, 0);
  }

  lemma FirstOfTwoBucketsOverThree()
    ensures BucketIndex(0, 2, 3) == 0
  {
    DivUnique(0, 2, 0, 0);
    DivUnique(3, 4, 0, 3);
  }

  lemma SecondOfTwoBucketsOverThree()
    ensures BucketIndex(1, 2, 3) == 1
  {
    DivUnique(3, 2, 1, 1);
    DivUnique(3, 4, 0, 3);
  }
}
