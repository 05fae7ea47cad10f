/** The depth-to-color classifier of the earthquake map: every event's depth
    (kilometres, negative above sea level) selects one of six color buckets. */
module DepthColor {

  /** A CSS hex color as the map renders it, e.g. "#98EE00". */
  type Color = string

  /** The upper bounds the classifier tests against, in the order it tests them. */
  const UpperBounds: seq<real> := [10.0, 30.0, 50.0, 70.0, 90.0]

  /** One color per bucket: bucket i holds the depths in
      [UpperBounds[i-1], UpperBounds[i]), the first and last bucket being unbounded. */
  const Palette: seq<Color> := ["#98EE00", "#D4EE00", "#EECC00", "#EE9C00", "#EA822C", "#EA2C2C"]

  const BucketCount: nat := 6

  /** Index of the first bound in `bounds` that lies strictly above `depth`, or
      |bounds| when there is none: a linear search over the bounds in order. */
  function FirstAbove(bounds: seq<real>, depth: real): (k: nat)
    ensures k <= |bounds|
    ensures forall j :: 0 <= j < k ==> bounds[j] <= depth
    ensures k < |bounds| ==> depth < bounds[k]
  {
    if bounds == [] || depth < bounds[0] then 0
    else 1 + FirstAbove(bounds[1..], depth)
  }

  /** The bucket a depth belongs to. */
  function Bucket(depth: real): (b: nat)
    ensures b < BucketCount
  {
    FirstAbove(UpperBounds, depth)
  }

  /** getColor: the if/else-if chain with strict `<` tests. */
  function GetColor(depth: real): (c: Color)
    ensures c in Palette
  {
    if depth < 10.0 then "#98EE00"
    else if depth < 30.0 then "#D4EE00"
    else if depth < 50.0 then "#EECC00"
    else if depth < 70.0 then "#EE9C00"
    else if depth < 90.0 then "#EA822C"
    else "#EA2C2C"
  }

  /** The bounds are strictly ascending. */
  predicate StrictlyAscending(s: seq<real>) {
    forall i, j :: 0 <= i < j < |s| ==> s[i] < s[j]
  }

  lemma UpperBoundsAscending()
    ensures StrictlyAscending(UpperBounds)
  {
  }

  /** A depth is in bucket i exactly when it lies at or above the bucket's lower
      bound (none for bucket 0) and strictly below its upper bound (none for the
      last bucket): a bound itself belongs to the higher bucket. */
  lemma BucketInterval(depth: real, i: nat)
    requires i < BucketCount
    ensures Bucket(depth) == i <==>
              (i == 0 || UpperBounds[i - 1] <= depth) &&
              (i == BucketCount - 1 || depth < UpperBounds[i])
  {
    var b := Bucket(depth);
    if b < i {
      assert depth < UpperBounds[b] <= UpperBounds[i - 1];
    } else if b > i {
      assert UpperBounds[i] <= depth;
    }
  }

  /** getColor agrees with the bucket search: the color of a depth is its
      bucket's color. */
  lemma GetColorIsBucketColor(depth: real)
    ensures GetColor(depth) == Palette[Bucket(depth)]
  {
    var i := if depth < 10.0 then 0 else if depth < 30.0 then 1
             else if depth < 50.0 then 2 else if depth < 70.0 then 3
             else if depth < 90.0 then 4 else 5;
    BucketInterval(depth, i);
  }

  /** Larger depths never get a lower bucket, for any list of bounds. */
  lemma {:induction false} FirstAboveMonotone(bounds: seq<real>, d1: real, d2: real)
    requires d1 <= d2
    ensures FirstAbove(bounds, d1) <= FirstAbove(bounds, d2)
  {
    if bounds != [] && !(d1 < bounds[0]) {
      FirstAboveMonotone(bounds[1..], d1, d2);
    }
  }

  lemma BucketMonotone(d1: real, d2: real)
    requires d1 <= d2
    ensures Bucket(d1) <= Bucket(d2)
  {
    FirstAboveMonotone(UpperBounds, d1, d2);
  }

  /** The six colors are pairwise different, so the color identifies the bucket. */
  lemma PaletteDistinct()
    ensures |Palette| == BucketCount
    ensures forall i, j :: 0 <= i < j < |Palette| ==> Palette[i] != Palette[j]
  {
  }

  /** Two depths get the same color exactly when they are in the same bucket. */
  lemma SameColorIffSameBucket(d1: real, d2: real)
    ensures GetColor(d1) == GetColor(d2) <==> Bucket(d1) == Bucket(d2)
  {
    PaletteDistinct();
    GetColorIsBucketColor(d1);
    GetColorIsBucketColor(d2);
  }

  /** Shallow depths, negative ones included, are green; depths of 90 km or more are red. */
  lemma ShallowAndDeep(depth: real)
    ensures depth < 10.0 ==> GetColor(depth) == "#98EE00"
    ensures 90.0 <= depth ==> GetColor(depth) == "#EA2C2C"
  {
  }

  /** Bounds belong to the higher bucket. */
  lemma BoundaryDepths()
    ensures GetColor(9.999) == "#98EE00"
    ensures GetColor(10.0) == "#D4EE00"
    ensures GetColor(30.0) == "#EECC00"
    ensures GetColor(50.0) == "#EE9C00"
    ensures GetColor(70.0) == "#EA822C"
    ensures GetColor(90.0) == "#EA2C2C"
  {
  }
}
