/** Concrete instances of the left-padded mapping. */
module PaddedExamples {
  import opened MdExtents
  import LayoutLeft
  import opened PaddedDetail
  import opened LayoutLeftPadded
  import PaddedProperties

  /** Extents (3, 4) padded to a multiple of 8: inner extents (8, 4), strides
      (1, 8), offset i + 8 * j, span 32, not exhaustive. */
  lemma PaddedThreeByFour(i: nat, j: nat)
    requires i < 3 && j < 4
    ensures var m := FromExtentsAndPadding(Dynamic, Extents([Dynamic, Dynamic], [3, 4]), 8);
      && m.Some?
      && m.value.inner.exts.values == [8, 4]
      && m.value.Stride(0) == 1 && m.value.Stride(1) == 8
      && m.value.Map([i, j]) == i + 8 * j
      && m.value.RequiredSpanSize() == 32
      && !m.value.IsExhaustive()
  {
    var e := Extents([Dynamic, Dynamic], [3, 4]);
    var m := FromExtentsAndPadding(Dynamic, e, 8).value;
    PaddedProperties.ExtentsRoundTripPadded(Dynamic, e, 8);
    assert m.Extents().values[1..] == [4];
    assert m.inner.exts.values == [8, 4];
    assert [i, j][1..] == [j] && [4][1..] == [];
    assert LayoutLeft.ColumnMajor([4], [j]) == j;
  }

  /** Rank 1: the inner extents are the true ones, the layout is always
      exhaustive, and the offset is the index. */
  lemma RankOneIgnoresPadding(padding: StaticExtent, i: nat)
    requires padding != Static(0) && i < 5
    ensures var m := FromExtents(padding, Extents([Dynamic], [5]));
      && m.inner.exts == Extents([Dynamic], [5])
      && m.IsAlwaysExhaustive()
      && m.Map([i]) == i
  {
  }

  /** Converting the unpadded column-major mapping of extents (3, 4) gives
      `stride(1) == 3` and the source's offsets. */
  lemma ConvertThreeByFour(i: nat, j: nat)
    ensures var src := LayoutLeft.Mapping(Extents([Dynamic, Dynamic], [3, 4]));
      var m := FromLayoutLeft(Dynamic, [Dynamic, Dynamic], src);
      && m.Stride(1) == 3
      && m.Map([i, j]) == src.Offset([i, j])
  {
    var src := LayoutLeft.Mapping(Extents([Dynamic, Dynamic], [3, 4]));
    src.StrideOne();
    PaddedProperties.ConvertFromLayoutLeft(Dynamic, [Dynamic, Dynamic], src, [i, j]);
  }

  /** A configured padding stride of 8 and a run-time padding value of 8
      over the same extents (3, 4) compare equal. */
  lemma StaticEightEqualsRuntimeEight()
    ensures var e := Extents([Dynamic, Dynamic], [3, 4]);
      && FromExtentsAndPadding(Dynamic, e, 8).Some?
      && FromExtents(Static(8), e).Equal(FromExtentsAndPadding(Dynamic, e, 8).value)
  {
    PaddedProperties.StaticAndRuntimePaddingEqual(Extents([Dynamic, Dynamic], [3, 4]), 8);
  }
}
