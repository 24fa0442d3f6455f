/** The plain sketch the encrypter consumes: value specs and registers. */
module Sketches {

  newtype uint64 = x: int | 0 <= x < 0x1_0000_0000_0000_0000

  /** How colliding values of one slot are combined. */
  datatype Aggregator = Unique | Sum

  datatype ValueSpec = ValueSpec(aggregator: Aggregator)

  /** One value spec per value slot of every register. */
  datatype SketchConfig = SketchConfig(values: seq<ValueSpec>)

  datatype Register = Register(index: uint64, values: seq<uint64>)

  datatype Sketch = Sketch(config: SketchConfig, registers: seq<Register>) {

    /** Every register holds one value per value spec. */
    predicate WellFormed() {
      forall r :: 0 <= r < |registers| ==> |registers[r].values| == |config.values|
    }
  }

  /** A configuration of `uniqueCount` UNIQUE specs followed by `sumCount` SUM specs. */
  method CreateSketchConfig(uniqueCount: int, sumCount: int) returns (config: SketchConfig)
    ensures |config.values| == (if uniqueCount > 0 then uniqueCount else 0) + (if sumCount > 0 then sumCount else 0)
    ensures forall i :: 0 <= i < |config.values| ==>
              config.values[i].aggregator == (if i < uniqueCount then Unique else Sum)
  {
    var values: seq<ValueSpec> := [];
    var i := 0;
    while i < uniqueCount
      invariant 0 <= i <= (if uniqueCount > 0 then uniqueCount else 0)
      invariant |values| == i
      invariant forall k :: 0 <= k < i ==> values[k].aggregator == Unique
    {
      values := values + [ValueSpec(Unique)];
      i := i + 1;
    }
    var j := 0;
    while j < sumCount
      invariant 0 <= j <= (if sumCount > 0 then sumCount else 0)
      invariant |values| == i + j
      invariant forall k :: 0 <= k < i ==> values[k].aggregator == Unique
      invariant forall k :: i <= k < i + j ==> values[k].aggregator == Sum
    {
      values := values + [ValueSpec(Sum)];
      j := j + 1;
    }
    config := SketchConfig(values);
  }
}
