/** The helpers of the left-padded layout: alignment round-up, resolution of
    the actual padding stride, substitution of one extent, construction of the
    padded ("inner") extents and of the retained unpadded extent. */
module PaddedDetail {
  import opened MdExtents
  import LayoutLeft

  // ---------------------------------------------------------------------
  // Alignment round-up (`__find_aligned_offset`)
  // ---------------------------------------------------------------------

  /** The least multiple of `alignment` that is at least `offset`; 0 when the
      alignment is 0. */
  function FindAlignedOffset(alignment: nat, offset: nat): (r: nat)
    ensures alignment == 0 ==> r == 0
    ensures alignment > 0 ==> r % alignment == 0 && offset <= r < offset + alignment
  {
    if alignment == 0 then
      0
    else
      RoundUpWindow(alignment, offset);
      ((offset + alignment - 1) / alignment) * alignment
  }

  lemma MultipleMod(a: nat, q: nat)
    requires a > 0
    ensures (q * a) % a == 0
  {
    LayoutLeft.DivUnique(a, 0, q, (q * a) % a, (q * a) / a);
  }

  lemma RoundUpWindow(a: nat, offset: nat)
    requires a > 0
    ensures var r := ((offset + a - 1) / a) * a;
      r % a == 0 && offset <= r < offset + a
  {
    var n := offset + a - 1;
    assert n == (n / a) * a + n % a;
    MultipleMod(a, n / a);
  }

  /** Two multiples of `a` less than `a` apart are equal. */
  lemma MultiplesApart(a: nat, lo: nat, hi: nat)
    requires a > 0 && lo % a == 0 && hi % a == 0 && lo <= hi < lo + a
    ensures lo == hi
  {
    assert lo == (lo / a) * a && hi == (hi / a) * a;
    LayoutLeft.DivUnique(a, hi - lo, lo / a, 0, hi / a);
  }

  /** The round-up leaves a value unchanged exactly when it is already aligned. */
  lemma AlignedUnchangedIff(alignment: nat, offset: nat)
    requires alignment > 0
    ensures FindAlignedOffset(alignment, offset) == offset <==> offset % alignment == 0
  {
    if offset % alignment == 0 {
      MultiplesApart(alignment, offset, FindAlignedOffset(alignment, offset));
    }
  }

  /** Rounding up twice is rounding up once. */
  lemma AlignedIdempotent(alignment: nat, offset: nat)
    ensures FindAlignedOffset(alignment, FindAlignedOffset(alignment, offset))
         == FindAlignedOffset(alignment, offset)
  {
    if alignment > 0 {
      AlignedUnchangedIff(alignment, FindAlignedOffset(alignment, offset));
    }
  }

  /** No multiple of the alignment at least `offset` lies below the round-up. */
  lemma AlignedIsLeast(alignment: nat, offset: nat, m: nat)
    requires alignment > 0 && m % alignment == 0 && offset <= m
    ensures FindAlignedOffset(alignment, offset) <= m
  {
    var r := FindAlignedOffset(alignment, offset);
    if m < r {
      MultiplesApart(alignment, m, r);
    }
  }

  // ---------------------------------------------------------------------
  // Padding-stride resolution (`__get_actual_padding_stride`)
  // ---------------------------------------------------------------------

  /** The `static_assert` of the class: a padding stride of 0 is allowed only
      when `static_extent(0)` is 0. */
  predicate PaddingStrideAllowed(padding: StaticExtent, statics: seq<StaticExtent>) {
    padding != Static(0) || (|statics| > 0 && statics[0] == Static(0))
  }

  /** The `static_assert` inside the resolver, on the branch where both the
      padding stride and `static_extent(0)` are static. */
  predicate StaticPaddingAllowed(padding: StaticExtent, statics: seq<StaticExtent>) {
    |statics| >= 2 && padding.Static? && statics[0].Static? ==>
      padding.value != 0 || statics[0].value == 0
  }

  /** The padding stride known at configuration time: the configured one for
      rank <= 1, the aligned static extent 0 when both inputs are static,
      otherwise dynamic. */
  function ActualPaddingStride(padding: StaticExtent, statics: seq<StaticExtent>): (r: StaticExtent)
    requires StaticPaddingAllowed(padding, statics)
    ensures |statics| <= 1 ==> r == padding
    ensures |statics| >= 2 ==> (r.Static? <==> padding.Static? && statics[0].Static?)
    ensures |statics| >= 2 && r.Static? ==>
      && statics[0].value <= r.value
      && (padding.value == 0 ==> r.value == 0)
      && (padding.value > 0 ==> r.value % padding.value == 0 && r.value < statics[0].value + padding.value)
  {
    if |statics| <= 1 then
      padding
    else if padding.Static? && statics[0].Static? then
      Static(FindAlignedOffset(padding.value, statics[0].value))
    else
      Dynamic
  }

  // ---------------------------------------------------------------------
  // Extent substitution (`__substitute_extents_impl`)
  // ---------------------------------------------------------------------

  /** `s` with the entry at index `k` replaced by `x` (unchanged when `k` is
      not an index of `s`). */
  function Substitute<T>(s: seq<T>, k: nat, x: T): (r: seq<T>)
    ensures |r| == |s|
    ensures forall i :: 0 <= i < |s| ==> r[i] == if i == k then x else s[i]
  {
    if k < |s| then s[..k] + [x] + s[k + 1..] else s
  }

  /** Putting the old entry back undoes a substitution. */
  lemma SubstituteRestores<T>(s: seq<T>, k: nat, x: T)
    ensures Substitute(Substitute(s, k, x), k, if k < |s| then s[k] else x) == s
  {
    var r := Substitute(Substitute(s, k, x), k, if k < |s| then s[k] else x);
    assert forall i :: 0 <= i < |s| ==> r[i] == s[i];
  }

  /** `__construct_with_type<T>(e, new_e)`: an extents object of static
      extents `target` whose run-time extents are those of `e` with index `k`
      taken from the rank-1 extents `newExt`. */
  function ConstructWithType(target: seq<StaticExtent>, e: Extents, k: nat, newExt: Extents): (r: Extents)
    requires |newExt.values| == 1
    requires Conforms(Substitute(e.values, k, newExt.values[0]), target)
    ensures r.WellFormed() && r.statics == target
    ensures r.values == Substitute(e.values, k, newExt.values[0])
  {
    Extents(target, Substitute(e.values, k, newExt.values[0]))
  }

  /** `__construct(e, new_e)`: index `k` of both the static and the run-time
      extents comes from the rank-1 extents `newExt` of static extent
      `newExtent`; every other index is copied. */
  function Construct(e: Extents, k: nat, newExtent: StaticExtent, newExt: Extents): (r: Extents)
    requires e.WellFormed() && newExt.statics == [newExtent] && newExt.WellFormed()
    ensures r.WellFormed()
    ensures r.statics == Substitute(e.statics, k, newExtent)
    ensures r.values == Substitute(e.values, k, newExt.values[0])
  {
    ConstructWithType(Substitute(e.statics, k, newExtent), e, k, newExt)
  }

  /** `__construct(e)`: the static extent at index `k` becomes `newExtent`,
      all run-time extents are copied. */
  function ConstructCopy(e: Extents, k: nat, newExtent: StaticExtent): (r: Extents)
    requires e.WellFormed()
    requires k < e.Rank() && newExtent.Static? ==> e.values[k] == newExtent.value
    ensures r.WellFormed()
    ensures r.statics == Substitute(e.statics, k, newExtent) && r.values == e.values
  {
    Extents(Substitute(e.statics, k, newExtent), e.values)
  }

  // ---------------------------------------------------------------------
  // Inner (padded) extents (`__inner_extents_left`)
  // ---------------------------------------------------------------------

  /** `__inner_extents_left<E, actual>::__type`: for rank >= 2 the static
      extent 0 becomes the actual padding stride; rank <= 1 is unchanged. */
  function InnerStatics(padding: StaticExtent, statics: seq<StaticExtent>): (r: seq<StaticExtent>)
    requires StaticPaddingAllowed(padding, statics)
    ensures |r| == |statics|
    ensures forall i :: 1 <= i < |statics| ==> r[i] == statics[i]
    ensures |statics| <= 1 ==> r == statics
    ensures |statics| >= 2 ==> r[0] == ActualPaddingStride(padding, statics)
  {
    if |statics| <= 1 then statics else Substitute(statics, 0, ActualPaddingStride(padding, statics))
  }

  /** The inner extents built from the true extents alone. */
  function InnerExtents(padding: StaticExtent, e: Extents): (r: Extents)
    requires e.WellFormed() && PaddingStrideAllowed(padding, e.statics)
    ensures r.WellFormed() && r.statics == InnerStatics(padding, e.statics)
    ensures forall i :: 1 <= i < e.Rank() ==> r.values[i] == e.values[i]
    ensures e.Rank() <= 1 ==> r == e
    ensures e.Rank() >= 2 ==>
      r.values[0] == (if padding.Dynamic? then e.values[0] else FindAlignedOffset(padding.value, e.values[0]))
    ensures e.Rank() >= 2 ==> e.values[0] <= r.values[0]
  {
    if e.Rank() <= 1 then
      e
    else
      var actual := ActualPaddingStride(padding, e.statics);
      if padding.Dynamic? then
        ConstructCopy(e, 0, actual)
      else if e.statics[0].Dynamic? then
        var sLeft := FindAlignedOffset(padding.value, e.values[0]);
        Construct(e, 0, actual, Extents([actual], [sLeft]))
      else
        Construct(e, 0, actual, Default([actual]))
  }

  /** The inner extents built from the true extents and a run-time padding
      value. The extents constructor demands that a static actual padding
      stride be the rounded-up value. */
  function InnerExtentsPadded(padding: StaticExtent, e: Extents, paddingValue: nat): (r: Extents)
    requires e.WellFormed() && StaticPaddingAllowed(padding, e.statics)
    requires e.Rank() >= 2 && ActualPaddingStride(padding, e.statics).Static? ==>
      FindAlignedOffset(paddingValue, e.values[0]) == ActualPaddingStride(padding, e.statics).value
    ensures r.WellFormed() && r.statics == InnerStatics(padding, e.statics)
    ensures forall i :: 1 <= i < e.Rank() ==> r.values[i] == e.values[i]
    ensures e.Rank() <= 1 ==> r == e
    ensures e.Rank() >= 2 ==> r.values[0] == FindAlignedOffset(paddingValue, e.values[0])
  {
    if e.Rank() <= 1 then
      e
    else
      var actual := ActualPaddingStride(padding, e.statics);
      var sLeft := FindAlignedOffset(paddingValue, e.values[0]);
      Construct(e, 0, actual, Extents([actual], [sLeft]))
  }

  /** A stride taken from another mapping fits the inner extents type: when
      the actual padding stride is static, the stride must equal it. */
  predicate StrideFits(padding: StaticExtent, statics: seq<StaticExtent>, stride0: nat)
    requires StaticPaddingAllowed(padding, statics)
  {
    |statics| >= 2 && ActualPaddingStride(padding, statics).Static? ==>
      stride0 == ActualPaddingStride(padding, statics).value
  }

  /** The inner extents for a conversion: extent 0 is the given stride,
      copied without recomputation. */
  function InnerExtentsOther(padding: StaticExtent, e: Extents, stride0: nat): (r: Extents)
    requires e.WellFormed() && StaticPaddingAllowed(padding, e.statics)
    requires StrideFits(padding, e.statics, stride0)
    ensures r.WellFormed() && r.statics == InnerStatics(padding, e.statics)
    ensures forall i :: 1 <= i < e.Rank() ==> r.values[i] == e.values[i]
    ensures e.Rank() <= 1 ==> r == e
    ensures e.Rank() >= 2 ==> r.values[0] == stride0
  {
    if e.Rank() <= 1 then
      e
    else
      var actual := ActualPaddingStride(padding, e.statics);
      Construct(e, 0, actual, Extents([actual], [stride0]))
  }

  // ---------------------------------------------------------------------
  // The retained unpadded extent (`__unpadded_extent_type_impl`)
  // ---------------------------------------------------------------------

  /** The type of the retained extent: rank 1 with `static_extent(0)`, or
      rank 0 for a rank-0 mapping. */
  function UnpaddedStatics(statics: seq<StaticExtent>): (r: seq<StaticExtent>)
    ensures r <= statics
    ensures |r| == if |statics| == 0 then 0 else 1
  {
    if |statics| == 0 then [] else [statics[0]]
  }

  /** The retained extent: extent 0 of `e`, or nothing for rank 0. */
  function UnpaddedExtent(e: Extents): (r: Extents)
    requires e.WellFormed()
    ensures r.WellFormed() && r.statics == UnpaddedStatics(e.statics)
    ensures r.values == e.values[..if e.Rank() == 0 then 0 else 1]
  {
    if e.Rank() == 0 then Extents([], []) else Extents([e.statics[0]], [e.values[0]])
  }
}
