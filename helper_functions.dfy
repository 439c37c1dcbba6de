/**
 * The index helper of src/helper_functions.rs. In this version of the crate
 * `get_evenly_seleted_indices` wraps every index in `Some` and flattens the
 * options again, so it returns every index below `items_count` whatever the
 * distribution value; the count of `None`s it computes is never used.
 */
module HelperFunctions {
  import opened Wrappers

  /** `Iterator::flatten` over options: the values of the `Some`s, in order. */
  function Flatten(xs: seq<Option<nat>>): (r: seq<nat>)
    ensures |r| <= |xs|
    ensures forall v :: v in r ==> Some(v) in xs
  {
    if xs == [] then []
    else
      var rest := Flatten(xs[1..]);
      assert forall v :: v in rest ==> Some(v) in xs by {
        assert forall x :: x in xs[1..] ==> x in xs;
      }
      match xs[0]
      case None => rest
      case Some(v) => [v] + rest
  }

  /** Options that are all present flatten to their values: nothing is dropped or reordered. */
  lemma {:induction false} FlattenSomes(xs: seq<Option<nat>>, values: seq<nat>)
    requires |xs| == |values| && forall i :: 0 <= i < |xs| ==> xs[i] == Some(values[i])
    ensures Flatten(xs) == values
  {
    if xs != [] {
      FlattenSomes(xs[1..], values[1..]);
      assert values == [values[0]] + values[1..];
    }
  }

  /** A `None` anywhere is dropped: flattening keeps exactly the values that are present. */
  lemma {:induction false} FlattenSkipsNone(xs: seq<Option<nat>>, ys: seq<Option<nat>>)
    ensures Flatten(xs + [None] + ys) == Flatten(xs) + Flatten(ys)
    decreases |xs|
  {
    var all := xs + [None] + ys;
    if xs == [] {
      assert all[0] == None && all[1..] == ys;
    } else {
      assert all[0] == xs[0] && all[1..] == xs[1..] + [None] + ys;
      FlattenSkipsNone(xs[1..], ys);
      var head := match xs[0] case None => [] case Some(v) => [v];
      calc {
        Flatten(all);
        head + Flatten(all[1..]);
        head + (Flatten(xs[1..]) + Flatten(ys));
        (head + Flatten(xs[1..])) + Flatten(ys);
        Flatten(xs) + Flatten(ys);
      }
    }
  }

  /**
   * `get_evenly_seleted_indices(items_count, distribution_value)`: every index
   * below `items_count`, in increasing order. The `usize` subtraction
   * `items_count - distribution_value` panics when the distribution value is
   * larger, hence the precondition; nothing else depends on the distribution value.
   */
  function EvenlySelectedIndices(itemsCount: nat, distributionValue: nat): (indices: seq<nat>)
    requires distributionValue <= itemsCount
    ensures |indices| == itemsCount
    ensures forall i :: 0 <= i < itemsCount ==> indices[i] == i
  {
    var options := seq(itemsCount, i => Some(i));
    FlattenSomes(options, seq(itemsCount, i => i));
    Flatten(options)
  }

  /** The selection is strictly increasing and in range, and the same for every distribution value. */
  lemma EvenlySelectedIndicesShape(itemsCount: nat, a: nat, b: nat)
    requires a <= itemsCount && b <= itemsCount
    ensures var indices := EvenlySelectedIndices(itemsCount, a);
      && (forall i, j :: 0 <= i < j < |indices| ==> indices[i] < indices[j])
      && (forall i :: 0 <= i < |indices| ==> indices[i] < itemsCount)
      && indices == EvenlySelectedIndices(itemsCount, b)
  {
    var x, y := EvenlySelectedIndices(itemsCount, a), EvenlySelectedIndices(itemsCount, b);
    assert forall i :: 0 <= i < itemsCount ==> x[i] == y[i];
  }

  /** The commented-out test's call: all eight indices, not the three its assertion expects. */
  lemma EvenlySelectedIndicesOfEight()
    ensures EvenlySelectedIndices(8, 3) == [0, 1, 2, 3, 4, 5, 6, 7]
  {
    var r := EvenlySelectedIndices(8, 3);
    assert r[0] == 0 && r[1] == 1 && r[2] == 2 && r[3] == 3 && r[4] == 4 && r[5] == 5 && r[6] == 6 && r[7] == 7;
  }
}
