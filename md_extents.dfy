/** A minimal model of the `extents` collaborator of mdspan: one static
    (type-level) extent per dimension, which is either `dynamic_extent` or a
    constant, and the run-time extent of every dimension. */
module MdExtents {

  /** The static extent of one dimension: `dynamic_extent` or a constant. */
  datatype StaticExtent = Dynamic | Static(value: nat)

  /** An extents value: the static extents of its type and its run-time
      extents, one per dimension. */
  datatype Extents = Extents(statics: seq<StaticExtent>, values: seq<nat>) {

    function Rank(): nat {
      |values|
    }

    /** Every extents object satisfies this: its rank is that of its type and
        each statically known dimension has its constant as run-time extent. */
    predicate WellFormed() {
      Conforms(values, statics)
    }
  }

  /** Run-time extents `values` may be held by an extents object of static
      extents `statics` (the precondition of every extents constructor and
      converting constructor in C++23 [mdspan.extents.cons]). */
  predicate Conforms(values: seq<nat>, statics: seq<StaticExtent>) {
    && |values| == |statics|
    && forall i :: 0 <= i < |statics| && statics[i].Static? ==> values[i] == statics[i].value
  }

  /** `extents_type{}`: static dimensions hold their constant, dynamic
      dimensions hold 0. */
  function Default(statics: seq<StaticExtent>): (e: Extents)
    ensures e.statics == statics && e.WellFormed()
    ensures forall i :: 0 <= i < |statics| && statics[i].Dynamic? ==> e.values[i] == 0
  {
    Extents(statics, seq(|statics|, i requires 0 <= i < |statics| =>
      if statics[i].Static? then statics[i].value else 0))
  }
}
