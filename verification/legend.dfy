/** The map legend: the fixed depth limits, the color of each limit, and the
    loop that emits one (swatch color, interval label) entry per limit. */
module Legend {
  import opened DepthColor
  import opened Decimal

  /** The depth limits the legend walks, in kilometres. */
  const Limits: seq<int> := [-10, 10, 30, 50, 70, 90]

  /** The character the legend writes between the two ends of an interval
      (the HTML entity `&ndash;`). */
  const EnDash: char := '\U{2013}'

  /** A JavaScript value read from the limits array: an index past the end
      reads `undefined`. */
  datatype JsValue = Undefined | Number(value: int)

  function At(limits: seq<int>, j: nat): JsValue
  {
    if j < |limits| then Number(limits[j]) else Undefined
  }

  /** JavaScript truthiness of such a value: `undefined` and 0 are falsy. */
  predicate Truthy(v: JsValue) {
    v.Number? && v.value != 0
  }

  /** What a legend label says: a half-open interval [lo, hi), or "lo and deeper". */
  datatype Interval = Between(lo: int, hi: int) | AtLeast(lo: int)

  /** One legend line, without its markup. */
  datatype Entry = Entry(color: Color, caption: string)

  /** `limits.map(getColor)`: the color of each limit. */
  function Colors(limits: seq<int>): (cs: seq<Color>)
    ensures |cs| == |limits|
    ensures forall i :: 0 <= i < |limits| ==> cs[i] == Palette[Bucket(limits[i] as real)]
  {
    var cs := seq(|limits|, i requires 0 <= i < |limits| => GetColor(limits[i] as real));
    assert forall i :: 0 <= i < |limits| ==> cs[i] == Palette[Bucket(limits[i] as real)] by {
      forall i | 0 <= i < |limits| {
        GetColorIsBucketColor(limits[i] as real);
      }
    }
    cs
  }

  /** The interval the i-th label describes: it runs up to the next limit when
      that limit is truthy, and is open-ended otherwise. */
  function IntervalOf(limits: seq<int>, i: nat): Interval
    requires i < |limits|
  {
    if Truthy(At(limits, i + 1)) then Between(limits[i], limits[i + 1])
    else AtLeast(limits[i])
  }

  /** The text of an interval: "lo–hi" or "lo+". */
  function FormatInterval(iv: Interval): (s: string)
  {
    match iv
    case Between(lo, hi) => IntToDecimal(lo) + ([EnDash] + IntToDecimal(hi))
    case AtLeast(lo) => IntToDecimal(lo) + "+"
  }

  /** The label of the i-th legend entry. */
  function Label(limits: seq<int>, i: nat): (s: string)
    requires i < |limits|
  {
    FormatInterval(IntervalOf(limits, i))
  }

  /** Position of the first `c` in `s`, or |s| when there is none. */
  function IndexOf(s: string, c: char): (k: nat)
    ensures k <= |s|
    ensures forall j :: 0 <= j < k ==> s[j] != c
    ensures k < |s| ==> s[k] == c
  {
    if s == [] || s[0] == c then 0 else 1 + IndexOf(s[1..], c)
  }

  /** Reads a label back into the interval it describes. */
  function ParseLabel(s: string): (r: Option<Interval>)
  {
    var k := IndexOf(s, EnDash);
    if k < |s| then
      match (ParseInt(s[..k]), ParseInt(s[k + 1..]))
      case (Some(lo), Some(hi)) => Some(Between(lo, hi))
      case _ => None
    else if |s| >= 1 && s[|s| - 1] == '+' then
      match ParseInt(s[..|s| - 1])
      case Some(lo) => Some(AtLeast(lo))
      case None => None
    else None
  }

  /** The number text of a limit contains neither the dash nor a plus sign. */
  lemma IntToDecimalHasNoSeparator(n: int)
    ensures forall j :: 0 <= j < |IntToDecimal(n)| ==>
              IntToDecimal(n)[j] != EnDash && IntToDecimal(n)[j] != '+'
  {
    IntToDecimalCharacters(n);
  }

  /** A label reads back as exactly the interval it was made from. */
  lemma FormatIntervalRoundTrip(iv: Interval)
    ensures ParseLabel(FormatInterval(iv)) == Some(iv)
  {
    match iv
    case Between(lo, hi) => BetweenRoundTrip(lo, hi);
    case AtLeast(lo) => AtLeastRoundTrip(lo);
  }

  lemma BetweenRoundTrip(lo: int, hi: int)
    ensures ParseLabel(FormatInterval(Between(lo, hi))) == Some(Between(lo, hi))
  {
    var a, b := IntToDecimal(lo), IntToDecimal(hi);
    var s := a + ([EnDash] + b);
    assert FormatInterval(Between(lo, hi)) == s;
    IntToDecimalHasNoSeparator(lo);
    var k := IndexOf(s, EnDash);
    assert s[|a|] == EnDash;
    assert forall j :: 0 <= j < |a| ==> s[j] == a[j];
    assert k == |a|;
    assert s[..k] == a;
    assert s[k + 1..] == b;
    IntToDecimalRoundTrip(lo);
    IntToDecimalRoundTrip(hi);
  }

  lemma AtLeastRoundTrip(lo: int)
    ensures ParseLabel(FormatInterval(AtLeast(lo))) == Some(AtLeast(lo))
  {
    var a := IntToDecimal(lo);
    var s := a + "+";
    assert FormatInterval(AtLeast(lo)) == s;
    IntToDecimalHasNoSeparator(lo);
    var k := IndexOf(s, EnDash);
    assert forall j :: 0 <= j < |a| ==> s[j] == a[j];
    assert k == |s|;
    assert s[|s| - 1] == '+';
    assert s[..|s| - 1] == a;
    IntToDecimalRoundTrip(lo);
  }

  /** The legend line for limit k: getColor(limits[k]) with label k. */
  function LegendEntry(limits: seq<int>, k: nat): Entry
    requires k < |limits|
  {
    Entry(GetColor(limits[k] as real), Label(limits, k))
  }

  /** The entries the legend loop has written after its first n rounds. */
  function LegendPrefix(limits: seq<int>, n: nat): (r: seq<Entry>)
    requires n <= |limits|
    ensures |r| == n
  {
    if n == 0 then [] else LegendPrefix(limits, n - 1) + [LegendEntry(limits, n - 1)]
  }

  /** Entry k of the legend is the line for limit k, whatever rounds follow it. */
  lemma {:induction false} LegendPrefixAt(limits: seq<int>, n: nat, k: nat)
    requires k < n <= |limits|
    ensures LegendPrefix(limits, n)[k] == LegendEntry(limits, k)
  {
    if k < n - 1 {
      LegendPrefixAt(limits, n - 1, k);
    }
  }

  /** The legend loop: one entry per limit, in the order of the limits, each
      pairing the color of the limit with its label. */
  method BuildLegend(limits: seq<int>) returns (entries: seq<Entry>)
    ensures |entries| == |limits|
    ensures forall k :: 0 <= k < |limits| ==> entries[k] == Entry(GetColor(limits[k] as real), Label(limits, k))
  {
    entries := [];
    for i := 0 to |limits|
      invariant entries == LegendPrefix(limits, i)
    {
      var swatch := GetColor(limits[i] as real);
      var next := At(limits, i + 1);
      var text := IntToDecimal(limits[i]) +
                  (if Truthy(next) then [EnDash] + IntToDecimal(next.value) else "+");
      LegendLineParts(limits, i);
      entries := entries + [Entry(swatch, text)];
    }
    forall k | 0 <= k < |limits|
      ensures entries[k] == Entry(GetColor(limits[k] as real), Label(limits, k))
    {
      LegendPrefixAt(limits, |limits|, k);
      assert entries[k] == LegendEntry(limits, k);
    }
  }

  /** The swatch and caption the loop writes for limit i are colors[i] and
      the label of entry i. */
  lemma LegendLineParts(limits: seq<int>, i: nat)
    requires i < |limits|
    ensures GetColor(limits[i] as real) == Colors(limits)[i]
    ensures Label(limits, i) == IntToDecimal(limits[i]) +
              (if Truthy(At(limits, i + 1)) then [EnDash] + IntToDecimal(At(limits, i + 1).value) else "+")
  {
  }

  /** The limits ascend strictly, and the five upper ones are the bounds
      getColor tests against. */
  lemma LimitsMatchClassifier()
    ensures |Limits| == BucketCount
    ensures forall i, j :: 0 <= i < j < |Limits| ==> Limits[i] < Limits[j]
    ensures forall i :: 1 <= i < |Limits| ==> Limits[i] as real == UpperBounds[i - 1]
  {
  }

  /** Limit i lies in bucket i, so the colors table lists the six bucket
      colors in order, each once. */
  lemma ColorsArePalette()
    ensures Colors(Limits) == Palette
  {
    var cs := Colors(Limits);
    forall i | 0 <= i < |Limits|
      ensures cs[i] == Palette[i]
    {
      LimitsMatchClassifier();
      BucketInterval(Limits[i] as real, i);
    }
  }

  /** The legend's i-th swatch, getColor(limits[i]), is bucket i's color. */
  lemma LegendColorIsBucketColor(i: nat)
    requires i < |Limits|
    ensures GetColor(Limits[i] as real) == Palette[i]
  {
    LimitsMatchClassifier();
    BucketInterval(Limits[i] as real, i);
    GetColorIsBucketColor(Limits[i] as real);
  }

  /** Only the last limit gets the open-ended label, because no upper limit is 0. */
  lemma LimitLabels(i: nat)
    requires i < |Limits|
    ensures i + 1 < |Limits| ==> IntervalOf(Limits, i) == Between(Limits[i], Limits[i + 1])
    ensures i + 1 == |Limits| ==> IntervalOf(Limits, i) == AtLeast(Limits[i])
  {
  }

  lemma FirstAndLastLabel()
    ensures Label(Limits, 0) == "-10" + [EnDash] + "10"
    ensures Label(Limits, 5) == "90+"
  {
    SmallIntegers();
  }

  /** In general the label is an interval exactly when a non-zero limit
      follows; a 0 among the upper limits would end that label with "+". */
  lemma LabelIsIntervalIff(limits: seq<int>, i: nat)
    requires i < |limits|
    ensures ParseLabel(Label(limits, i)).Some?
    ensures ParseLabel(Label(limits, i)).value.Between? <==>
              i + 1 < |limits| && limits[i + 1] != 0
  {
    FormatIntervalRoundTrip(IntervalOf(limits, i));
  }

  /** Whether a depth lies in the interval a label states. */
  predicate Covers(iv: Interval, depth: real) {
    match iv
    case Between(lo, hi) => lo as real <= depth < hi as real
    case AtLeast(lo) => lo as real <= depth
  }

  /** Legend and markers agree: every depth in the interval of entry i is drawn
      with the swatch color of entry i, and depths in no other bucket are. */
  lemma SwatchMatchesMarker(i: nat, depth: real)
    requires i < |Limits|
    ensures Covers(IntervalOf(Limits, i), depth) ==> GetColor(depth) == Colors(Limits)[i]
    ensures GetColor(depth) == Colors(Limits)[i] <==> Bucket(depth) == i
  {
    ColorsArePalette();
    GetColorIsBucketColor(depth);
    var b := Bucket(depth);
    assert Colors(Limits)[i] == Palette[i];
    assert Palette[b] == Palette[i] <==> b == i by {
      PaletteDistinct();
    }
    if Covers(IntervalOf(Limits, i), depth) {
      CoveredDepthInBucket(i, depth);
    }
  }

  /** A depth inside the interval of entry i lies in bucket i. */
  lemma CoveredDepthInBucket(i: nat, depth: real)
    requires i < |Limits|
    requires Covers(IntervalOf(Limits, i), depth)
    ensures Bucket(depth) == i
  {
    LimitLabels(i);
    assert i == 0 || Limits[i] as real == UpperBounds[i - 1];
    assert i == BucketCount - 1 || Limits[i + 1] as real == UpperBounds[i];
    BucketInterval(depth, i);
  }

  /** The converse, and where it stops: a depth in bucket i lies inside the
      interval of entry i, except for bucket 0, whose caption starts at the
      first limit, -10, while getColor gives its color to every depth below
      10, however far above sea level. */
  lemma CaptionIffBucket(i: nat, depth: real)
    requires i < |Limits|
    ensures Covers(IntervalOf(Limits, i), depth) <==>
              Bucket(depth) == i && (i > 0 || Limits[0] as real <= depth)
  {
    LimitLabels(i);
    assert i == 0 || Limits[i] as real == UpperBounds[i - 1];
    assert i == BucketCount - 1 || Limits[i + 1] as real == UpperBounds[i];
    BucketInterval(depth, i);
  }

  /** A depth of -20 km is drawn in the first swatch's color, yet no caption
      of the legend covers it. */
  lemma UncaptionedShallowDepth()
    ensures GetColor(-20.0) == Colors(Limits)[0]
    ensures forall i :: 0 <= i < |Limits| ==> !Covers(IntervalOf(Limits, i), -20.0)
  {
    ColorsArePalette();
    forall i | 0 <= i < |Limits|
      ensures !Covers(IntervalOf(Limits, i), -20.0)
    {
      CaptionIffBucket(i, -20.0);
    }
  }
}
