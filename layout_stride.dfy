/** A minimal model of `layout_stride::mapping`, seen only as a conversion
    source: its extents and its per-dimension strides. */
module LayoutStride {
  import MdExtents

  datatype Mapping = Mapping(exts: MdExtents.Extents, strides: seq<nat>) {

    function Rank(): nat {
      exts.Rank()
    }

    function Stride(r: nat): nat
      requires r < |strides|
    {
      strides[r]
    }
  }
}
