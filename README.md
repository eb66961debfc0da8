# Left-padded mdspan layout, modelled in Dafny

This project models `layout_left_padded<padding_stride>::mapping<Extents>`, the
padded layout of WG21 proposal P2642 ("Padded mdspan layouts") as written in
`include/experimental/__p2642_bits/layout_padded.hpp`. The mapping turns a
multidimensional index into a linear offset. It is column-major, and the
storage pitch of dimension 0 is rounded up to a multiple of a padding stride.
The extents that callers see stay the true ones.

The model is pure. The one loop in the source, `strides()`, is a method with a
loop invariant. Everything else is datatypes, functions and lemmas.

- `MdExtents` models the `extents` collaborator. `StaticExtent` is
  `Dynamic | Static(n)`, where `Dynamic` stands for `dynamic_extent`. An
  `Extents` value holds the static extents of its type and its run-time
  extents. `WellFormed` says each static dimension holds its constant, which
  is the precondition of the C++23 extents constructors.
- `LayoutLeft` models the `layout_left::mapping` collaborator the padded layout
  delegates to, following C++23 [mdspan.layout.left.obs]. `stride(r)` is the
  product of extents [0, r). The offset is the sum of `idx[r] * stride(r)`.
  `required_span_size()` is the product of all extents. Its lemmas prove the
  column-major recurrence, the span bound and injectivity.
- `LayoutStride` models `layout_stride::mapping` only as a conversion source:
  its extents and its strides.
- `PaddedDetail` holds the helpers in the `detail` namespace:
  - `FindAlignedOffset` is the alignment round-up;
  - `PaddingStrideAllowed` is the class's `static_assert` (line 264) and
    `StaticPaddingAllowed` the one inside the padding-stride resolver (line 108);
  - `ActualPaddingStride` resolves the padding stride;
  - `Substitute` and the `Construct*` functions model `__substitute_extents_impl`;
  - the `InnerExtents*` functions model both specialisations of `__inner_extents_left`;
  - `UnpaddedExtent` models `__unpadded_extent_type_impl`.
- `LayoutLeftPadded.Mapping` is the mapping. It holds the two template
  arguments, the inner column-major mapping over the padded extents, and the
  retained unpadded extent 0. `Valid()` is the invariant that every
  constructor establishes. Each constructor is a function: `FromExtents`,
  `DefaultMapping`, `FromExtentsAndPadding`, and the conversions
  `FromLayoutLeft`, `FromLayoutStride`, `FromLeftPadded` and `FromRightPadded`.
- `PaddedProperties` proves the properties that relate several members.
- `PaddedExamples` works through concrete extents (3, 4) and (5).

The model follows the code in three places where a reader might expect otherwise:

- With a dynamic padding stride and rank >= 2, `mapping(ext)` copies extent 0
  unchanged (lines 159-161). It does not round anything up.
- The inner extent 0 equals the rounded-up true extent 0 only for the two
  extents-based constructors. The conversions copy the source's `stride(1)`
  as it is.
- The conversion from the right-padded mapping is accepted for every rank, as
  the code accepts it. `ConvertFromRightPadded` proves that it acts exactly
  like the conversion from an unpadded `layout_left` mapping of the same
  extents.

## Model

| member | source | states |
|---|---|---|
| `PaddedDetail.FindAlignedOffset` | include/experimental/__p2642_bits/layout_padded.hpp:86-95 | alignment 0 gives 0; otherwise the result is a multiple of the alignment in [offset, offset + alignment) |
| `PaddedDetail.AlignedUnchangedIff` | include/experimental/__p2642_bits/layout_padded.hpp:89-95 | for a positive alignment, the round-up returns the value unchanged iff the value is already a multiple of the alignment |
| `PaddedDetail.AlignedIdempotent` | include/experimental/__p2642_bits/layout_padded.hpp:89-95 | rounding up an already rounded value changes nothing |
| `PaddedDetail.AlignedIsLeast` | include/experimental/__p2642_bits/layout_padded.hpp:89-95 | no multiple of the alignment that is >= the offset lies below the round-up |
| `PaddedDetail.ActualPaddingStride` | include/experimental/__p2642_bits/layout_padded.hpp:97-113 | rank <= 1 gives the configured stride; rank >= 2 gives a static value iff both the padding stride and static extent 0 are static, and that value is static extent 0 rounded up to the padding stride; a static stride of 0 requires static extent 0 to be 0 |
| `PaddedDetail.Substitute` | include/experimental/__p2642_bits/layout_padded.hpp:118-142 | substitution keeps the length, overwrites only index k and copies every other index |
| `PaddedDetail.SubstituteRestores` | include/experimental/__p2642_bits/layout_padded.hpp:342-350 | substituting the old entry back undoes a substitution (the basis of the `extents()` round trip) |
| `PaddedDetail.ConstructWithType` | include/experimental/__p2642_bits/layout_padded.hpp:123-128 | the run-time extents with index k taken from the new rank-1 extents form a well-formed extents object of the requested type |
| `PaddedDetail.Construct` | include/experimental/__p2642_bits/layout_padded.hpp:130-135 | both the static and the run-time extent at index k come from the new rank-1 extents, every other index is copied, and the result is well formed |
| `PaddedDetail.ConstructCopy` | include/experimental/__p2642_bits/layout_padded.hpp:137-142 | only the static extent at index k changes, all run-time extents are copied, and the result is well formed |
| `PaddedDetail.InnerStatics` | include/experimental/__p2642_bits/layout_padded.hpp:148-152 | the inner extents type keeps the rank and every static extent past 0; for rank >= 2 static extent 0 becomes the actual padding stride; rank <= 1 is unchanged |
| `PaddedDetail.InnerExtents` | include/experimental/__p2642_bits/layout_padded.hpp:154-174 | rank <= 1 passes the extents through; for rank >= 2 extent 0 becomes the true extent 0 when the padding stride is dynamic and its round-up otherwise (for static or dynamic extent 0), it is never smaller than the true extent 0, and other extents are copied |
| `PaddedDetail.InnerExtentsPadded` | include/experimental/__p2642_bits/layout_padded.hpp:176-183 | rank <= 1 passes through; for rank >= 2 extent 0 is the true extent 0 rounded up to the supplied padding value, and other extents are copied |
| `PaddedDetail.InnerExtentsOther` | include/experimental/__p2642_bits/layout_padded.hpp:185-190 | rank <= 1 passes through; for rank >= 2 extent 0 is the given source stride, not recomputed; other extents are copied |
| `PaddedDetail.UnpaddedExtent` | include/experimental/__p2642_bits/layout_padded.hpp:221-245 | the retained extents value is the prefix of length min(rank, 1) of the true extents, and it is well formed |
| `LayoutLeftPadded.Mapping.Extents` | include/experimental/__p2642_bits/layout_padded.hpp:342-350 | `extents()` has the mapping's extents type; every extent past 0 is the inner one; extent 0 is the retained unpadded one |
| `LayoutLeftPadded.Mapping.Stride` | include/experimental/__p2642_bits/layout_padded.hpp:392-395 | `stride(0)` is 1; for r >= 1, `stride(r)` is the padded extent 0 times the true extents of dimensions [1, r) |
| `LayoutLeftPadded.Mapping.Strides` | include/experimental/__p2642_bits/layout_padded.hpp:352-361 | `strides()` has length rank and entry r equals `stride(r)` |
| `LayoutLeftPadded.Mapping.RequiredSpanSize` | include/experimental/__p2642_bits/layout_padded.hpp:363-367 | the span is 1 for rank 0, else the padded extent 0 times the product of the true extents past 0 |
| `LayoutLeftPadded.Mapping.Map` | include/experimental/__p2642_bits/layout_padded.hpp:369-373 | the offset is idx[0] plus the padded extent 0 times the column-major offset of the remaining indices over the true extents |
| `LayoutLeftPadded.Mapping.IsAlwaysUnique` | include/experimental/__p2642_bits/layout_padded.hpp:375 | `is_always_unique()` is true; `MapInjective` gives it its meaning, distinct in-bounds indices map to distinct offsets |
| `LayoutLeftPadded.Mapping.IsAlwaysExhaustive` | include/experimental/__p2642_bits/layout_padded.hpp:376-380 | `is_always_exhaustive()`: rank <= 1, or static extent 0 is static and equals the inner static extent 0; `AlwaysExhaustiveIff` restates it in terms of the padding parameters and `AlwaysExhaustiveImpliesExhaustive` shows it implies `is_exhaustive()` |
| `LayoutLeftPadded.Mapping.IsAlwaysStrided` | include/experimental/__p2642_bits/layout_padded.hpp:382 | `is_always_strided()` is true; `MapIsStrided` gives it its meaning, every offset is the dot product of the index with `strides()` |
| `LayoutLeftPadded.Mapping.IsUnique` | include/experimental/__p2642_bits/layout_padded.hpp:384 | `is_unique()` is true; `MapInjective` gives it its meaning, and `ZeroPaddingValueCollides` shows where it fails |
| `LayoutLeftPadded.Mapping.IsExhaustive` | include/experimental/__p2642_bits/layout_padded.hpp:385-389 | `is_exhaustive()`: rank 0 or an inner extent 0 equal to the true one; `ExhaustiveSpan` ties it to the span being the product of the true extents, and `FromExtentsExhaustiveIff` shows that for `mapping(ext)` with rank >= 2 and a positive static padding stride it holds iff extent 0 is already a multiple of the padding stride |
| `LayoutLeftPadded.Mapping.IsStrided` | include/experimental/__p2642_bits/layout_padded.hpp:390 | `is_strided()` is true; `MapIsStrided` gives it its meaning |
| `LayoutLeftPadded.Mapping.Equal` | include/experimental/__p2642_bits/layout_padded.hpp:397-401 | `operator==` against any padding stride: equal extents and, for rank > 1, equal `stride(1)`; `EqualIffSameLayout` shows it holds iff every stride agrees and `EqualMapsAgree` that equal mappings compute the same offsets |
| `LayoutLeftPadded.FromExtents` | include/experimental/__p2642_bits/layout_padded.hpp:296-300 | `mapping(ext)` satisfies the invariant, has the given type, and its padded extent 0 is at least the true extent 0 |
| `LayoutLeftPadded.DefaultMapping` | include/experimental/__p2642_bits/layout_padded.hpp:276-291 | `mapping()` is `mapping(extents_type{})`: it satisfies the invariant and its `extents()` is `extents_type{}`, whatever the padding stride |
| `LayoutLeftPadded.FromExtentsAndPadding` | include/experimental/__p2642_bits/layout_padded.hpp:302-309 | the constructor succeeds iff the padding stride is dynamic or equals the supplied value (the assertion); on success the mapping satisfies the invariant |
| `LayoutLeftPadded.FromLayoutLeft` | include/experimental/__p2642_bits/layout_padded.hpp:311-317 | conversion from `layout_left` yields a valid mapping of the target type |
| `LayoutLeftPadded.FromLayoutStride` | include/experimental/__p2642_bits/layout_padded.hpp:319-325 | conversion from `layout_stride` yields a valid mapping of the target type |
| `LayoutLeftPadded.FromLeftPadded` | include/experimental/__p2642_bits/layout_padded.hpp:327-333 | conversion from another left-padded mapping yields a valid mapping of the target type |
| `LayoutLeftPadded.FromRightPadded` | include/experimental/__p2642_bits/layout_padded.hpp:335-340 | conversion from a right-padded mapping yields a valid mapping of the target type |
| `PaddedProperties.InnerIsPaddedExtents` | include/experimental/__p2642_bits/layout_padded.hpp:268-273 | the inner extents are the true extents with extent 0 replaced by the padded extent 0 (nothing replaced for rank <= 1), and `stride(1)` is that padded extent |
| `PaddedProperties.ExtentsRoundTrip` | include/experimental/__p2642_bits/layout_padded.hpp:296-350 | `mapping(e).extents() == e` for every well-formed e, rank 0 included |
| `PaddedProperties.ExtentsRoundTripPadded` | include/experimental/__p2642_bits/layout_padded.hpp:302-350 | `mapping(e, p).extents() == e` whenever the assertion on p holds |
| `PaddedProperties.DefaultIsMemberwise` | include/experimental/__p2642_bits/layout_padded.hpp:276-291 | when the actual padding stride is static (the C++20 defaulted constructor), the inner extents and the retained extent 0 of `mapping()` equal their member-wise defaults |
| `PaddedProperties.FromExtentsStride1` | include/experimental/__p2642_bits/layout_padded.hpp:154-174 | for rank >= 2, `mapping(e).stride(1)` is extent 0 when the padding stride is dynamic and its round-up to the padding stride otherwise; it is never below extent 0 |
| `PaddedProperties.FromExtentsAndPaddingStride1` | include/experimental/__p2642_bits/layout_padded.hpp:176-183 | for rank >= 2, `mapping(e, p).stride(1)` is extent 0 rounded up to p |
| `PaddedProperties.StaticAndRuntimePaddingEqual` | include/experimental/__p2642_bits/layout_padded.hpp:397-401 | a static padding stride p and a run-time padding value p over the same extents give mappings that compare equal |
| `PaddedProperties.ConvertFromLayoutLeft` | include/experimental/__p2642_bits/layout_padded.hpp:311-317 | conversion from `layout_left` keeps the extents, every stride, every offset and the span, and is exhaustive |
| `PaddedProperties.ConvertFromLayoutStride` | include/experimental/__p2642_bits/layout_padded.hpp:319-325 | conversion from `layout_stride` keeps the extents and the source's `stride(1)`; `stride(0)` is 1 whatever the source's was |
| `PaddedProperties.ConvertFromLeftPadded` | include/experimental/__p2642_bits/layout_padded.hpp:327-333 | conversion from a left-padded mapping with any padding stride keeps the extents and compares equal to the source |
| `PaddedProperties.ConvertFromRightPadded` | include/experimental/__p2642_bits/layout_padded.hpp:335-340 | conversion from a right-padded mapping equals the conversion from `layout_left` over the source's extents, so the source's padding is dropped |
| `PaddedProperties.AlwaysExhaustiveIff` | include/experimental/__p2642_bits/layout_padded.hpp:376-381 | `is_always_exhaustive()` holds iff rank <= 1, or both the padding stride and static extent 0 are static and the round-up leaves static extent 0 unchanged |
| `PaddedProperties.AlwaysExhaustiveImpliesExhaustive` | include/experimental/__p2642_bits/layout_padded.hpp:376-389 | `is_always_exhaustive()` implies `is_exhaustive()` for every valid mapping |
| `PaddedProperties.FromExtentsExhaustiveIff` | include/experimental/__p2642_bits/layout_padded.hpp:385-389 | `mapping(e).is_exhaustive()` holds iff rank <= 1, the padding stride is dynamic or 0, or extent 0 is already a multiple of it |
| `PaddedProperties.ExhaustiveSpan` | include/experimental/__p2642_bits/layout_padded.hpp:385-389 | an exhaustive mapping's span is the product of the true extents; when the extents past 0 are positive, that span implies exhaustiveness |
| `PaddedProperties.InBoundsInner` | include/experimental/__p2642_bits/layout_padded.hpp:369-373 | indices within the true extents are within the inner extents when padding adds room |
| `PaddedProperties.MapInSpan` | include/experimental/__p2642_bits/layout_padded.hpp:363-373 | every index within the true extents maps below `required_span_size()` |
| `PaddedProperties.MapInjective` | include/experimental/__p2642_bits/layout_padded.hpp:375-384 | `is_unique()` and `is_always_unique()` hold, and distinct indices within the true extents map to distinct offsets |
| `PaddedProperties.MapIsStrided` | include/experimental/__p2642_bits/layout_padded.hpp:382-390 | `is_strided()` holds, and every offset is the sum of each index times the matching entry of `strides()` |
| `PaddedProperties.FromExtentsAndPaddingCovers` | include/experimental/__p2642_bits/layout_padded.hpp:302-309 | with a positive padding value, or extent 0 equal to 0, the padded extent 0 is at least the true extent 0 |
| `PaddedProperties.ZeroPaddingValueCollides` | include/experimental/__p2642_bits/layout_padded.hpp:302-309 | a run-time padding value of 0 over extents (3, 4) is accepted; the mapping reports `is_unique()` yet maps (0, 0) and (0, 1) to the same offset |
| `PaddedProperties.EqualIffSameLayout` | include/experimental/__p2642_bits/layout_padded.hpp:397-401 | `operator==` holds iff the extents and every stride agree, whatever the two padding strides are |
| `PaddedProperties.EqualInner` | include/experimental/__p2642_bits/layout_padded.hpp:397-401 | mappings that compare equal have the same inner extents |
| `PaddedProperties.EqualMapsAgree` | include/experimental/__p2642_bits/layout_padded.hpp:397-401 | mappings that compare equal give the same span and the same offset for every index |
| `PaddedExamples.PaddedThreeByFour` | include/experimental/__p2642_bits/layout_padded.hpp:302-309 | extents (3, 4) with padding value 8: inner (8, 4), strides (1, 8), offset i + 8j, span 32, not exhaustive |
| `PaddedExamples.RankOneIgnoresPadding` | include/experimental/__p2642_bits/layout_padded.hpp:193-219 | rank-1 extents (5) with any padding stride: inner extents unchanged, always exhaustive, offset i |
| `PaddedExamples.ConvertThreeByFour` | include/experimental/__p2642_bits/layout_padded.hpp:311-317 | converting `layout_left` over (3, 4) gives `stride(1) == 3` and the source's offsets |
| `PaddedExamples.StaticEightEqualsRuntimeEight` | include/experimental/__p2642_bits/layout_padded.hpp:397-401 | static padding stride 8 and run-time padding value 8 over (3, 4) compare equal |

## Left out

- The `extents`, `layout_left`, `layout_stride` and `dynamic_extent`
  definitions (included at lines 19-24) are not part of this model. The
  `MdExtents`, `LayoutLeft` and `LayoutStride` modules give only the
  behaviour that the padded layout uses.
- `layout_right_padded` is only declared in this header. Its conversion is
  modelled through the one thing the code uses, its `extents()`.
- `offset_index_sequence`, `iota_index_sequence` and `__p_left` are
  compile-time plumbing, and `__p_left` is unused. Substitution is a copy of
  the sequence with one index overwritten.
- In the converting constructors from left- and right-padded mappings and in
  `operator==`, the other mapping's type is written as
  `typename layout_left_padded<P>::template mapping<E>`. That is a
  non-deduced context under [temp.deduct.type]/5 of C++23, so as written
  these overloads can never be selected. `FromLeftPadded`, `FromRightPadded`
  and `Mapping.Equal` model what their bodies compute.
- The `MDSPAN_*` macros, `noexcept`, and the explicitness of the converting
  constructors are left out. So is the C++17/C++20 split of the default
  constructor; `DefaultIsMemberwise` states that both spellings agree
  whenever the C++20 defaulted constructor is the one selected.
  Variadic index packs are `seq<nat>` of length rank. `strides()` returns a
  sequence, not a `std::array`.
- `static_assert`s and constraints (rank equality of conversion sources) are
  preconditions. The extents-constructor precondition is a precondition too:
  a static actual padding stride must equal the value put in dimension 0.
  For the conversions this means the source's `stride(1)` must equal that
  constant.
- A padding stride of 0 for a rank-0 extents type counts as violating the
  class's `static_assert`, since `static_extent(0)` does not exist for rank 0.
- FindAlignedOffset: does not model `size_t` wrap-around of
  `offset + alignment - 1`. All arithmetic is on unbounded naturals.
- LayoutLeftPadded.FromExtentsAndPadding: does not model the `static_cast` of
  the padding value to `index_type`. On a failed assertion it returns `None`
  instead of first building the members and then aborting.
- The conversions read the source's `stride(1)` only for rank >= 2. For
  rank <= 1 the code reads it too but discards it, and it is out of range
  for the source's own stride function.
- The conversions do not check that the source's strides are otherwise
  compatible, and neither does the model.
- PaddedProperties.MapInjective: proved only for mappings whose padded
  extent 0 is at least the true one (`PaddingCovers`). The code reports
  `is_unique()` for every mapping, but `ZeroPaddingValueCollides` shows that
  a run-time padding value of 0 breaks injectivity.
- PaddedProperties.MapInSpan: proved under the same `PaddingCovers`
  hypothesis, for the same reason.
