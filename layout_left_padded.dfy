/** `layout_left_padded<padding_stride>::mapping<Extents>`: a column-major
    mapping whose dimension 0 is stored with a pitch rounded up to the padding
    stride, while the extents seen by callers stay the true ones. */
module LayoutLeftPadded {
  import opened MdExtents
  import LayoutLeft
  import LayoutStride
  import opened PaddedDetail
  import opened Wrappers

  /** A mapping value. `paddingStride` and `extentsType` are the template
      arguments; `inner` is the column-major mapping over the padded extents
      and `unpadded` the retained true extent 0 (`__inner_mapping` and
      `__unpadded_extent`). */
  datatype Mapping = Mapping(
    paddingStride: StaticExtent,
    extentsType: seq<StaticExtent>,
    inner: LayoutLeft.Mapping,
    unpadded: Extents)
  {
    /** What every constructor establishes: the class's `static_assert`, the
        member types, and that padding has no effect for rank 1. */
    predicate Valid() {
      && PaddingStrideAllowed(paddingStride, extentsType)
      && inner.exts.WellFormed()
      && inner.exts.statics == InnerStatics(paddingStride, extentsType)
      && unpadded.WellFormed()
      && unpadded.statics == UnpaddedStatics(extentsType)
      && (|extentsType| == 1 ==> inner.exts.values == unpadded.values)
    }

    function Rank(): nat {
      |extentsType|
    }

    /** The padded extent of dimension 0, i.e. `stride(1)` for rank >= 2. */
    function PaddedExtent0(): nat
      requires Valid() && Rank() > 0
    {
      inner.exts.values[0]
    }

    /** `extents()`: the inner extents with the retained extent 0 put back;
        the empty extents for rank 0. */
    function Extents(): (e: Extents)
      requires Valid()
      ensures e.WellFormed() && e.statics == extentsType
      ensures forall i :: 1 <= i < Rank() ==> e.values[i] == inner.exts.values[i]
      ensures Rank() > 0 ==> e.values[0] == unpadded.values[0]
    {
      if Rank() == 0 then
        MdExtents.Extents([], [])
      else
        ConstructWithType(extentsType, inner.exts, 0, unpadded)
    }

    /** `stride(r)`: 1 for dimension 0; otherwise the padded extent 0 times
        the true extents of dimensions [1, r). */
    function Stride(r: nat): (s: nat)
      requires Valid() && r < Rank()
      ensures r == 0 ==> s == 1
      ensures r >= 1 ==> s == PaddedExtent0() * LayoutLeft.Product(Extents().values[1..r])
    {
      assert r >= 1 ==> inner.exts.values[..r][1..] == Extents().values[1..r];
      inner.Stride(r)
    }

    /** `strides()`: the array of `stride(r)` for every r < rank, filled in a loop. */
    method Strides() returns (s: seq<nat>)
      requires Valid()
      ensures |s| == Rank()
      ensures forall r :: 0 <= r < Rank() ==> s[r] == Stride(r)
    {
      var a := new nat[Rank()];
      for r := 0 to Rank()
        invariant forall k :: 0 <= k < r ==> a[k] == Stride(k)
      {
        a[r] := Stride(r);
      }
      s := a[..];
    }

    /** `required_span_size()`: the padded extent 0 times the true extents of
        the other dimensions (1 for rank 0). */
    function RequiredSpanSize(): (n: nat)
      requires Valid()
      ensures Rank() == 0 ==> n == 1
      ensures Rank() > 0 ==> n == PaddedExtent0() * LayoutLeft.Product(Extents().values[1..])
    {
      assert Rank() > 0 ==> inner.exts.values[1..] == Extents().values[1..];
      inner.RequiredSpanSize()
    }

    /** `operator()(idxs...)`: index 0 plus the padded extent 0 times the
        column-major offset of the remaining indices over the true extents. */
    function Map(idx: seq<nat>): (o: nat)
      requires Valid() && |idx| == Rank()
      ensures Rank() == 0 ==> o == 0
      ensures Rank() > 0 ==>
        o == idx[0] + PaddedExtent0() * LayoutLeft.ColumnMajor(Extents().values[1..], idx[1..])
    {
      LayoutLeft.DotIsColumnMajor(inner.exts.values, idx);
      assert Rank() > 0 ==> inner.exts.values[1..] == Extents().values[1..];
      inner.Offset(idx)
    }

    function IsAlwaysUnique(): bool {
      true
    }

    function IsUnique(): bool {
      true
    }

    function IsAlwaysStrided(): bool {
      true
    }

    function IsStrided(): bool {
      true
    }

    /** `is_always_exhaustive()`: rank <= 1, or static extent 0 is static and
        equals the inner static extent 0. */
    function IsAlwaysExhaustive(): bool
      requires Valid()
    {
      || Rank() <= 1
      || (extentsType[0].Static? && extentsType[0] == InnerStatics(paddingStride, extentsType)[0])
    }

    /** `is_exhaustive()`: rank 0, or the inner extent 0 equals the unpadded one. */
    function IsExhaustive(): bool
      requires Valid()
    {
      Rank() == 0 || inner.exts.values[0] == unpadded.values[0]
    }

    /** `operator==` against a mapping of any padding stride: equal extents
        and, for rank > 1, equal `stride(1)`. */
    function Equal(other: Mapping): bool
      requires Valid() && other.Valid()
    {
      && Extents().values == other.Extents().values
      && (!(Rank() > 1) || Stride(1) == other.Stride(1))
    }

    /** The padded extent 0 is at least the true one (the padding adds slack,
        never removes storage). */
    predicate PaddingCovers()
      requires Valid()
    {
      Rank() >= 2 ==> unpadded.values[0] <= inner.exts.values[0]
    }
  }

  // ---------------------------------------------------------------------
  // Constructors
  // ---------------------------------------------------------------------

  /** `mapping(ext)`. */
  function FromExtents(padding: StaticExtent, e: Extents): (m: Mapping)
    requires e.WellFormed() && PaddingStrideAllowed(padding, e.statics)
    ensures m.Valid() && m.paddingStride == padding && m.extentsType == e.statics
    ensures m.PaddingCovers()
  {
    Mapping(padding, e.statics, LayoutLeft.Mapping(InnerExtents(padding, e)), UnpaddedExtent(e))
  }

  /** `mapping()`: the same as `mapping(extents_type{})`. */
  function DefaultMapping(padding: StaticExtent, statics: seq<StaticExtent>): (m: Mapping)
    requires PaddingStrideAllowed(padding, statics)
    ensures m.Valid() && m.paddingStride == padding && m.extentsType == statics
    ensures m.Extents() == Default(statics)
  {
    var d := Default(statics);
    var m := FromExtents(padding, d);
    assert m.Extents().values == d.values by {
      if d.Rank() > 0 {
        SubstituteRestores(d.values, 0, m.inner.exts.values[0]);
      }
    }
    m
  }

  /** `mapping(ext, padding_value)`: `None` when the assertion that a static
      padding stride equals the supplied value fails. */
  function FromExtentsAndPadding(padding: StaticExtent, e: Extents, paddingValue: nat): (r: Option<Mapping>)
    requires e.WellFormed() && PaddingStrideAllowed(padding, e.statics)
    ensures r.Some? <==> padding.Dynamic? || padding == Static(paddingValue)
    ensures r.Some? ==> r.value.Valid() && r.value.paddingStride == padding && r.value.extentsType == e.statics
  {
    if padding.Dynamic? || padding == Static(paddingValue) then
      Some(Mapping(padding, e.statics,
                   LayoutLeft.Mapping(InnerExtentsPadded(padding, e, paddingValue)),
                   UnpaddedExtent(e)))
    else
      None
  }

  /** The converting constructor from `layout_left::mapping`: extent 0 of the
      inner extents is the source's `stride(1)`. */
  function FromLayoutLeft(padding: StaticExtent, statics: seq<StaticExtent>, other: LayoutLeft.Mapping): (m: Mapping)
    requires PaddingStrideAllowed(padding, statics)
    requires Conforms(other.exts.values, statics)
    requires |statics| >= 2 ==> StrideFits(padding, statics, other.Stride(1))
    ensures m.Valid() && m.paddingStride == padding && m.extentsType == statics
  {
    var e := MdExtents.Extents(statics, other.exts.values);
    var stride1 := if |statics| >= 2 then other.Stride(1) else 0;
    Mapping(padding, statics, LayoutLeft.Mapping(InnerExtentsOther(padding, e, stride1)), UnpaddedExtent(e))
  }

  /** The converting constructor from `layout_stride::mapping`. */
  function FromLayoutStride(padding: StaticExtent, statics: seq<StaticExtent>, other: LayoutStride.Mapping): (m: Mapping)
    requires PaddingStrideAllowed(padding, statics)
    requires Conforms(other.exts.values, statics)
    requires |statics| >= 2 ==> |other.strides| >= 2 && StrideFits(padding, statics, other.Stride(1))
    ensures m.Valid() && m.paddingStride == padding && m.extentsType == statics
  {
    var e := MdExtents.Extents(statics, other.exts.values);
    var stride1 := if |statics| >= 2 then other.Stride(1) else 0;
    Mapping(padding, statics, LayoutLeft.Mapping(InnerExtentsOther(padding, e, stride1)), UnpaddedExtent(e))
  }

  /** The converting constructor from a left-padded mapping of another
      padding stride. */
  function FromLeftPadded(padding: StaticExtent, statics: seq<StaticExtent>, other: Mapping): (m: Mapping)
    requires PaddingStrideAllowed(padding, statics)
    requires other.Valid() && Conforms(other.Extents().values, statics)
    requires |statics| >= 2 ==> StrideFits(padding, statics, other.Stride(1))
    ensures m.Valid() && m.paddingStride == padding && m.extentsType == statics
  {
    var e := MdExtents.Extents(statics, other.Extents().values);
    var stride1 := if |statics| >= 2 then other.Stride(1) else 0;
    Mapping(padding, statics, LayoutLeft.Mapping(InnerExtentsOther(padding, e, stride1)), UnpaddedExtent(e))
  }

  /** The converting constructor from a right-padded mapping, of which only
      `extents()` is used: the inner mapping is built from those extents
      directly, with no padding. */
  function FromRightPadded(padding: StaticExtent, statics: seq<StaticExtent>, otherExtents: Extents): (m: Mapping)
    requires PaddingStrideAllowed(padding, statics)
    requires Conforms(otherExtents.values, statics)
    requires Conforms(otherExtents.values, InnerStatics(padding, statics))
    ensures m.Valid() && m.paddingStride == padding && m.extentsType == statics
  {
    var e := MdExtents.Extents(statics, otherExtents.values);
    Mapping(padding, statics,
            LayoutLeft.Mapping(MdExtents.Extents(InnerStatics(padding, statics), otherExtents.values)),
            UnpaddedExtent(e))
  }
}
