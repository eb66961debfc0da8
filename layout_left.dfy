/** A minimal model of `layout_left::mapping` (C++23 [mdspan.layout.left.obs]):
    the column-major mapping that the padded layout delegates to. */
module LayoutLeft {
  import MdExtents

  /** The product of a sequence of extents; 1 for the empty sequence. */
  function Product(s: seq<nat>): nat {
    if |s| == 0 then 1 else s[0] * Product(s[1..])
  }

  /** The strides of a column-major mapping: entry r is the product of the
      extents of dimensions [0, r). */
  function StrideSeq(ext: seq<nat>): (w: seq<nat>)
    ensures |w| == |ext|
  {
    seq(|ext|, r requires 0 <= r < |ext| => Product(ext[..r]))
  }

  /** The sum over r of idx[r] * w[r]. */
  function Dot(idx: seq<nat>, w: seq<nat>): nat
    requires |idx| == |w|
  {
    if |idx| == 0 then 0 else idx[0] * w[0] + Dot(idx[1..], w[1..])
  }

  /** The column-major offset written innermost dimension first:
      idx[0] + ext[0] * (offset of the remaining indices). */
  function ColumnMajor(ext: seq<nat>, idx: seq<nat>): nat
    requires |idx| == |ext|
  {
    if |idx| == 0 then 0 else idx[0] + ext[0] * ColumnMajor(ext[1..], idx[1..])
  }

  /** Every index lies in [0, extent) of its dimension. */
  predicate InBounds(idx: seq<nat>, ext: seq<nat>) {
    |idx| == |ext| && forall r :: 0 <= r < |ext| ==> idx[r] < ext[r]
  }

  datatype Mapping = Mapping(exts: MdExtents.Extents) {

    function Rank(): nat {
      exts.Rank()
    }

    /** `stride(r)`: the product of the extents of dimensions [0, r). */
    function Stride(r: nat): nat
      requires r <= Rank()
    {
      Product(exts.values[..r])
    }

    /** `stride(1)` is extent 0. */
    lemma StrideOne()
      requires Rank() >= 1
      ensures Stride(1) == exts.values[0]
    {
      var s := exts.values[..1];
      assert s[1..] == [] && s[0] == exts.values[0];
      assert Product(s) == s[0] * Product(s[1..]);
    }

    /** `required_span_size()`: the product of all extents. */
    function RequiredSpanSize(): nat {
      Product(exts.values)
    }

    /** `operator()`: the sum of idx[r] * stride(r). */
    function Offset(idx: seq<nat>): nat
      requires |idx| == Rank()
    {
      Dot(idx, StrideSeq(exts.values))
    }
  }

  lemma MulLe(a: nat, b: nat, c: nat)
    requires b <= c
    ensures a * b <= a * c
  {
    assert a * c == a * b + a * (c - b);
  }

  lemma MulCancel(a: nat, b: nat, p: nat)
    requires p > 0 && a * p == b * p
    ensures a == b
  {
    if a < b {
      MulLe(p, a + 1, b);
    } else if b < a {
      MulLe(p, b + 1, a);
    }
  }

  /** Division with remainder is unique. */
  lemma DivUnique(e: nat, a: nat, q: nat, a': nat, q': nat)
    requires a < e && a' < e
    requires a + e * q == a' + e * q'
    ensures a == a' && q == q'
  {
    if q < q' {
      MulLe(e, q + 1, q');
      assert false;
    } else if q' < q {
      MulLe(e, q' + 1, q);
      assert false;
    }
  }

  /** The product of positive extents is positive. */
  lemma {:induction false} ProductPositive(s: seq<nat>)
    requires forall r :: 0 <= r < |s| ==> s[r] > 0
    ensures Product(s) > 0
  {
    if |s| > 0 {
      ProductPositive(s[1..]);
    }
  }

  lemma {:induction false} DotScale(idx: seq<nat>, w: seq<nat>, c: nat, cw: seq<nat>)
    requires |idx| == |w| == |cw|
    requires forall r :: 0 <= r < |w| ==> cw[r] == c * w[r]
    ensures Dot(idx, cw) == c * Dot(idx, w)
  {
    if |idx| > 0 {
      DotScale(idx[1..], w[1..], c, cw[1..]);
      calc {
        Dot(idx, cw);
        idx[0] * (c * w[0]) + c * Dot(idx[1..], w[1..]);
        { assert idx[0] * (c * w[0]) == c * (idx[0] * w[0]); }
        c * (idx[0] * w[0]) + c * Dot(idx[1..], w[1..]);
        c * Dot(idx, w);
      }
    }
  }

  /** The standard's sum of idx[r] * stride(r) is the column-major recurrence. */
  lemma {:induction false} DotIsColumnMajor(ext: seq<nat>, idx: seq<nat>)
    requires |idx| == |ext|
    ensures Dot(idx, StrideSeq(ext)) == ColumnMajor(ext, idx)
  {
    if |idx| > 0 {
      var w, w' := StrideSeq(ext), StrideSeq(ext[1..]);
      forall r | 0 <= r < |w'|
        ensures w[1..][r] == ext[0] * w'[r]
      {
        assert ext[..r + 1][1..] == ext[1..][..r];
      }
      assert ext[..0] == [];
      DotScale(idx[1..], w', ext[0], w[1..]);
      DotIsColumnMajor(ext[1..], idx[1..]);
    }
  }

  /** In-bounds indices land below the product of the extents. */
  lemma {:induction false} ColumnMajorBound(ext: seq<nat>, idx: seq<nat>)
    requires InBounds(idx, ext)
    ensures ColumnMajor(ext, idx) < Product(ext)
  {
    if |idx| > 0 {
      assert InBounds(idx[1..], ext[1..]);
      ColumnMajorBound(ext[1..], idx[1..]);
      var e0, rest, p := ext[0], ColumnMajor(ext[1..], idx[1..]), Product(ext[1..]);
      MulLe(e0, rest + 1, p);
      assert e0 * (rest + 1) == e0 * rest + e0;
      assert ColumnMajor(ext, idx) == idx[0] + e0 * rest;
      assert Product(ext) == e0 * p;
    }
  }

  /** Distinct in-bounds indices have distinct column-major offsets. */
  lemma {:induction false} ColumnMajorInjective(ext: seq<nat>, idx: seq<nat>, jdx: seq<nat>)
    requires InBounds(idx, ext) && InBounds(jdx, ext)
    requires ColumnMajor(ext, idx) == ColumnMajor(ext, jdx)
    ensures idx == jdx
  {
    if |idx| > 0 {
      DivUnique(ext[0], idx[0], ColumnMajor(ext[1..], idx[1..]), jdx[0], ColumnMajor(ext[1..], jdx[1..]));
      assert InBounds(idx[1..], ext[1..]) && InBounds(jdx[1..], ext[1..]);
      ColumnMajorInjective(ext[1..], idx[1..], jdx[1..]);
      assert idx == [idx[0]] + idx[1..] && jdx == [jdx[0]] + jdx[1..];
    }
  }
}
