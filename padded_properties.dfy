/** Properties of the left-padded mapping: the round trip through `extents()`,
    the padded extent 0 chosen by each constructor, fidelity of the
    conversions, exhaustiveness, uniqueness and equality. */
module PaddedProperties {
  import opened MdExtents
  import LayoutLeft
  import LayoutStride
  import opened PaddedDetail
  import opened Wrappers
  import opened LayoutLeftPadded

  /** The inner extents are the true extents with extent 0 replaced by the
      padded extent 0 (not replaced at all for rank <= 1). */
  lemma InnerIsPaddedExtents(m: Mapping)
    requires m.Valid()
    ensures m.Rank() <= 1 ==> m.inner.exts.values == m.Extents().values
    ensures m.Rank() >= 2 ==> m.inner.exts.values == Substitute(m.Extents().values, 0, m.PaddedExtent0())
    ensures m.Rank() >= 2 ==> m.Stride(1) == m.PaddedExtent0()
  {
    var e := m.Extents();
    if m.Rank() >= 2 {
      assert e.values[1..1] == [];
      assert m.inner.exts.values == Substitute(e.values, 0, m.PaddedExtent0());
    } else if m.Rank() == 1 {
      assert m.inner.exts.values == [m.unpadded.values[0]] == e.values;
    }
  }

  // ---------------------------------------------------------------------
  // Round trip through extents()
  // ---------------------------------------------------------------------

  /** `mapping(e).extents() == e`. */
  lemma ExtentsRoundTrip(padding: StaticExtent, e: Extents)
    requires e.WellFormed() && PaddingStrideAllowed(padding, e.statics)
    ensures FromExtents(padding, e).Extents() == e
  {
    var m := FromExtents(padding, e);
    if e.Rank() > 0 {
      SubstituteRestores(e.values, 0, m.inner.exts.values[0]);
    }
    var r := m.Extents();
    assert r.values == e.values;
  }

  /** `mapping(e, p).extents() == e` whenever the assertion on `p` holds. */
  lemma ExtentsRoundTripPadded(padding: StaticExtent, e: Extents, paddingValue: nat)
    requires e.WellFormed() && PaddingStrideAllowed(padding, e.statics)
    requires padding.Dynamic? || padding == Static(paddingValue)
    ensures FromExtentsAndPadding(padding, e, paddingValue).Some?
    ensures FromExtentsAndPadding(padding, e, paddingValue).value.Extents() == e
  {
    var r := FromExtentsAndPadding(padding, e, paddingValue).value.Extents();
    assert r.values == e.values;
  }

  /** When the actual padding stride is static (the C++20 defaulted
      constructor), `mapping(extents_type{})` has the members that member-wise
      default construction gives. */
  lemma DefaultIsMemberwise(padding: StaticExtent, statics: seq<StaticExtent>)
    requires PaddingStrideAllowed(padding, statics)
    requires ActualPaddingStride(padding, statics).Static?
    ensures DefaultMapping(padding, statics).inner.exts == Default(InnerStatics(padding, statics))
    ensures DefaultMapping(padding, statics).unpadded == Default(UnpaddedStatics(statics))
  {
    var m := DefaultMapping(padding, statics);
    ExtentsRoundTrip(padding, Default(statics));
    var d := Default(InnerStatics(padding, statics));
    forall i | 0 <= i < |statics|
      ensures m.inner.exts.values[i] == d.values[i]
    {
      if i == 0 && |statics| >= 2 {
        assert d.statics[0].Static?;
      }
    }
    assert m.inner.exts.values == d.values;
    assert m.unpadded.values == Default(UnpaddedStatics(statics)).values;
  }

  // ---------------------------------------------------------------------
  // The padded extent 0 chosen by each constructor
  // ---------------------------------------------------------------------

  /** `mapping(e)` for rank >= 2: `stride(1)` is the true extent 0 for a
      dynamic padding stride, otherwise its round-up to the padding stride. */
  lemma FromExtentsStride1(padding: StaticExtent, e: Extents)
    requires e.WellFormed() && PaddingStrideAllowed(padding, e.statics) && e.Rank() >= 2
    ensures var s := FromExtents(padding, e).Stride(1);
      && s == (if padding.Dynamic? then e.values[0] else FindAlignedOffset(padding.value, e.values[0]))
      && e.values[0] <= s
  {
    InnerIsPaddedExtents(FromExtents(padding, e));
  }

  /** `mapping(e, p)` for rank >= 2: `stride(1)` is extent 0 rounded up to `p`. */
  lemma FromExtentsAndPaddingStride1(padding: StaticExtent, e: Extents, paddingValue: nat)
    requires e.WellFormed() && PaddingStrideAllowed(padding, e.statics) && e.Rank() >= 2
    requires padding.Dynamic? || padding == Static(paddingValue)
    ensures FromExtentsAndPadding(padding, e, paddingValue).Some?
    ensures FromExtentsAndPadding(padding, e, paddingValue).value.Stride(1)
         == FindAlignedOffset(paddingValue, e.values[0])
  {
    InnerIsPaddedExtents(FromExtentsAndPadding(padding, e, paddingValue).value);
  }

  /** With a padding stride known at configuration time or supplied at run
      time, the mappings over the same extents compare equal. */
  lemma StaticAndRuntimePaddingEqual(e: Extents, paddingValue: nat)
    requires e.WellFormed() && PaddingStrideAllowed(Static(paddingValue), e.statics)
    ensures FromExtentsAndPadding(Dynamic, e, paddingValue).Some?
    ensures FromExtents(Static(paddingValue), e).Equal(FromExtentsAndPadding(Dynamic, e, paddingValue).value)
  {
    ExtentsRoundTrip(Static(paddingValue), e);
    ExtentsRoundTripPadded(Dynamic, e, paddingValue);
    if e.Rank() >= 2 {
      FromExtentsStride1(Static(paddingValue), e);
      FromExtentsAndPaddingStride1(Dynamic, e, paddingValue);
    }
  }

  // ---------------------------------------------------------------------
  // Conversions
  // ---------------------------------------------------------------------

  /** From `layout_left`: same extents, same strides, same offsets and span,
      and no padding slack. */
  lemma ConvertFromLayoutLeft(padding: StaticExtent, statics: seq<StaticExtent>, other: LayoutLeft.Mapping, idx: seq<nat>)
    requires PaddingStrideAllowed(padding, statics)
    requires Conforms(other.exts.values, statics)
    requires |statics| >= 2 ==> StrideFits(padding, statics, other.Stride(1))
    requires |idx| == |statics|
    ensures var m := FromLayoutLeft(padding, statics, other);
      && m.Extents().values == other.exts.values
      && (forall r :: 0 <= r < m.Rank() ==> m.Stride(r) == other.Stride(r))
      && m.Map(idx) == other.Offset(idx)
      && m.RequiredSpanSize() == other.RequiredSpanSize()
      && m.IsExhaustive()
  {
    var m := FromLayoutLeft(padding, statics, other);
    if |statics| >= 2 {
      other.StrideOne();
    }
    assert m.inner.exts.values == other.exts.values;
    assert m.Extents().values == other.exts.values;
  }

  /** From `layout_stride`: same extents and the source's `stride(1)`;
      `stride(0)` is 1 whatever the source's was. */
  lemma ConvertFromLayoutStride(padding: StaticExtent, statics: seq<StaticExtent>, other: LayoutStride.Mapping)
    requires PaddingStrideAllowed(padding, statics)
    requires Conforms(other.exts.values, statics)
    requires |statics| >= 2 ==> |other.strides| >= 2 && StrideFits(padding, statics, other.Stride(1))
    ensures var m := FromLayoutStride(padding, statics, other);
      && m.Extents().values == other.exts.values
      && (m.Rank() >= 1 ==> m.Stride(0) == 1)
      && (m.Rank() >= 2 ==> m.Stride(1) == other.Stride(1))
  {
    var m := FromLayoutStride(padding, statics, other);
    InnerIsPaddedExtents(m);
    assert m.Extents().values == other.exts.values;
  }

  /** From a left-padded mapping of another padding stride: the result
      compares equal to the source. */
  lemma ConvertFromLeftPadded(padding: StaticExtent, statics: seq<StaticExtent>, other: Mapping)
    requires PaddingStrideAllowed(padding, statics)
    requires other.Valid() && Conforms(other.Extents().values, statics)
    requires |statics| >= 2 ==> StrideFits(padding, statics, other.Stride(1))
    ensures var m := FromLeftPadded(padding, statics, other);
      && m.Extents().values == other.Extents().values
      && m.Equal(other)
  {
    var m := FromLeftPadded(padding, statics, other);
    InnerIsPaddedExtents(m);
    assert m.Extents().values == other.Extents().values;
  }

  /** From a right-padded mapping: exactly the conversion from a `layout_left`
      mapping of the same extents, so the source's padding is dropped. */
  lemma ConvertFromRightPadded(padding: StaticExtent, statics: seq<StaticExtent>, otherExtents: Extents)
    requires PaddingStrideAllowed(padding, statics)
    requires Conforms(otherExtents.values, statics)
    requires Conforms(otherExtents.values, InnerStatics(padding, statics))
    ensures |statics| >= 2 ==> StrideFits(padding, statics, LayoutLeft.Mapping(otherExtents).Stride(1))
    ensures FromRightPadded(padding, statics, otherExtents)
         == FromLayoutLeft(padding, statics, LayoutLeft.Mapping(otherExtents))
    ensures FromRightPadded(padding, statics, otherExtents).Extents().values == otherExtents.values
  {
    var ll := LayoutLeft.Mapping(otherExtents);
    if |statics| >= 2 {
      ll.StrideOne();
    }
    var m := FromRightPadded(padding, statics, otherExtents);
    var m' := FromLayoutLeft(padding, statics, ll);
    assert m'.inner.exts.values == otherExtents.values;
    assert m.inner == m'.inner;
    assert m.Extents().values == otherExtents.values;
  }

  // ---------------------------------------------------------------------
  // Exhaustiveness
  // ---------------------------------------------------------------------

  /** `is_always_exhaustive()` holds exactly for rank <= 1 or when padding
      the static extent 0 to the static padding stride leaves it unchanged. */
  lemma AlwaysExhaustiveIff(m: Mapping)
    requires m.Valid()
    ensures m.IsAlwaysExhaustive() <==>
      || m.Rank() <= 1
      || (&& m.paddingStride.Static? && m.extentsType[0].Static?
          && FindAlignedOffset(m.paddingStride.value, m.extentsType[0].value) == m.extentsType[0].value)
  {
  }

  /** `is_always_exhaustive()` implies `is_exhaustive()` for every instance. */
  lemma AlwaysExhaustiveImpliesExhaustive(m: Mapping)
    requires m.Valid() && m.IsAlwaysExhaustive()
    ensures m.IsExhaustive()
  {
    if m.Rank() >= 2 {
      assert m.inner.exts.statics[0] == m.extentsType[0];
      assert m.unpadded.statics[0] == m.extentsType[0];
    }
  }

  /** `mapping(e)` is exhaustive exactly when extent 0 is already aligned. */
  lemma FromExtentsExhaustiveIff(padding: StaticExtent, e: Extents)
    requires e.WellFormed() && PaddingStrideAllowed(padding, e.statics)
    ensures FromExtents(padding, e).IsExhaustive() <==>
      || e.Rank() <= 1 || padding.Dynamic? || padding.value == 0
      || e.values[0] % padding.value == 0
  {
    if e.Rank() >= 2 && padding.Static? && padding.value > 0 {
      AlignedUnchangedIff(padding.value, e.values[0]);
    }
  }

  /** An exhaustive mapping needs exactly the product of the true extents of
      storage; when the extents past 0 are positive the converse holds. */
  lemma ExhaustiveSpan(m: Mapping)
    requires m.Valid()
    ensures m.IsExhaustive() ==> m.RequiredSpanSize() == LayoutLeft.Product(m.Extents().values)
    ensures (&& (forall k :: 1 <= k < m.Rank() ==> m.Extents().values[k] > 0)
             && m.RequiredSpanSize() == LayoutLeft.Product(m.Extents().values))
            ==> m.IsExhaustive()
  {
    var ev := m.Extents().values;
    if m.Rank() > 0 && (forall k :: 1 <= k < m.Rank() ==> ev[k] > 0) {
      LayoutLeft.ProductPositive(ev[1..]);
      if m.RequiredSpanSize() == LayoutLeft.Product(ev) {
        LayoutLeft.MulCancel(m.PaddedExtent0(), ev[0], LayoutLeft.Product(ev[1..]));
      }
    }
  }

  // ---------------------------------------------------------------------
  // Uniqueness and stridedness
  // ---------------------------------------------------------------------

  /** Indices within the true extents are within the inner extents. */
  lemma InBoundsInner(m: Mapping, idx: seq<nat>)
    requires m.Valid() && m.PaddingCovers()
    requires LayoutLeft.InBounds(idx, m.Extents().values)
    ensures LayoutLeft.InBounds(idx, m.inner.exts.values)
  {
  }

  /** Every index within the true extents maps below `required_span_size()`. */
  lemma MapInSpan(m: Mapping, idx: seq<nat>)
    requires m.Valid() && m.PaddingCovers()
    requires LayoutLeft.InBounds(idx, m.Extents().values)
    ensures m.Map(idx) < m.RequiredSpanSize()
  {
    InBoundsInner(m, idx);
    LayoutLeft.DotIsColumnMajor(m.inner.exts.values, idx);
    LayoutLeft.ColumnMajorBound(m.inner.exts.values, idx);
  }

  /** `is_unique()`: distinct indices within the true extents map to
      distinct offsets. */
  lemma MapInjective(m: Mapping, idx: seq<nat>, jdx: seq<nat>)
    requires m.Valid() && m.PaddingCovers()
    requires LayoutLeft.InBounds(idx, m.Extents().values) && LayoutLeft.InBounds(jdx, m.Extents().values)
    requires m.Map(idx) == m.Map(jdx)
    ensures m.IsUnique() && m.IsAlwaysUnique()
    ensures idx == jdx
  {
    InBoundsInner(m, idx);
    InBoundsInner(m, jdx);
    LayoutLeft.DotIsColumnMajor(m.inner.exts.values, idx);
    LayoutLeft.DotIsColumnMajor(m.inner.exts.values, jdx);
    LayoutLeft.ColumnMajorInjective(m.inner.exts.values, idx, jdx);
  }

  /** `is_strided()`: the offset is the sum of each index times its stride,
      as `strides()` reports them. */
  lemma MapIsStrided(m: Mapping, idx: seq<nat>, s: seq<nat>)
    requires m.Valid() && |idx| == m.Rank()
    requires |s| == m.Rank() && forall r :: 0 <= r < m.Rank() ==> s[r] == m.Stride(r)
    ensures m.IsStrided() && m.IsAlwaysStrided()
    ensures m.Map(idx) == LayoutLeft.Dot(idx, s)
  {
    assert s == LayoutLeft.StrideSeq(m.inner.exts.values);
  }

  /** The padding-value constructor keeps the padded extent 0 at least the
      true one whenever the value is positive or extent 0 is 0. */
  lemma FromExtentsAndPaddingCovers(padding: StaticExtent, e: Extents, paddingValue: nat)
    requires e.WellFormed() && PaddingStrideAllowed(padding, e.statics)
    requires padding.Dynamic? || padding == Static(paddingValue)
    requires paddingValue > 0 || e.Rank() == 0 || e.values[0] == 0
    ensures FromExtentsAndPadding(padding, e, paddingValue).Some?
    ensures FromExtentsAndPadding(padding, e, paddingValue).value.PaddingCovers()
  {
  }

  /** A run-time padding value of 0 is accepted for a nonzero extent 0; the
      resulting mapping reports `is_unique()` but maps two indices to the
      same offset. */
  lemma ZeroPaddingValueCollides()
    ensures var m := FromExtentsAndPadding(Dynamic, Extents([Dynamic, Dynamic], [3, 4]), 0);
      && m.Some? && m.value.IsUnique()
      && LayoutLeft.InBounds([0, 0], m.value.Extents().values)
      && LayoutLeft.InBounds([0, 1], m.value.Extents().values)
      && m.value.Map([0, 0]) == m.value.Map([0, 1]) == 0
  {
    var m := FromExtentsAndPadding(Dynamic, Extents([Dynamic, Dynamic], [3, 4]), 0).value;
    assert m.Extents().values == [3, 4];
  }

  // ---------------------------------------------------------------------
  // Equality
  // ---------------------------------------------------------------------

  /** `operator==` holds exactly when the extents and all strides agree,
      whatever the two padding strides are. */
  lemma EqualIffSameLayout(l: Mapping, r: Mapping)
    requires l.Valid() && r.Valid() && l.Rank() == r.Rank()
    ensures l.Equal(r) <==>
      && l.Extents().values == r.Extents().values
      && forall k :: 0 <= k < l.Rank() ==> l.Stride(k) == r.Stride(k)
  {
    if l.Equal(r) {
      EqualInner(l, r);
    } else if l.Extents().values == r.Extents().values && l.Rank() > 1 {
      assert l.Stride(1) != r.Stride(1);
    }
  }

  lemma EqualInner(l: Mapping, r: Mapping)
    requires l.Valid() && r.Valid() && l.Equal(r)
    ensures l.inner.exts.values == r.inner.exts.values
  {
    InnerIsPaddedExtents(l);
    InnerIsPaddedExtents(r);
  }

  /** Mappings that compare equal give the same offset for every index and
      the same required span size. */
  lemma EqualMapsAgree(l: Mapping, r: Mapping, idx: seq<nat>)
    requires l.Valid() && r.Valid() && l.Equal(r) && |idx| == l.Rank()
    ensures l.RequiredSpanSize() == r.RequiredSpanSize()
    ensures l.Map(idx) == r.Map(idx)
  {
    EqualInner(l, r);
  }
}
