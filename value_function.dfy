/**
 * Value functions: the named, commutative rule that combines two values
 * landing in the same register slot, and the value a slot takes on its
 * first insertion. Values are Java `long`s, so addition wraps modulo 2^64.
 */
module ValueFunctions {
  import opened Bytes

  const TwoTo63: int := 0x8000_0000_0000_0000
  const TwoTo64: int := 0x1_0000_0000_0000_0000

  newtype int64 = x: int | -0x8000_0000_0000_0000 <= x < 0x8000_0000_0000_0000

  /** Two's-complement truncation of an integer to 64 bits. */
  function Wrap(x: int): (r: int64)
    ensures -TwoTo63 <= x < TwoTo63 ==> r as int == x
  {
    OffsetInRange(x);
    ((x + TwoTo63) % TwoTo64 - TwoTo63) as int64
  }

  lemma OffsetInRange(x: int)
    ensures -TwoTo63 <= x < TwoTo63 ==> (x + TwoTo63) % TwoTo64 == x + TwoTo63
  {
    if -TwoTo63 <= x < TwoTo63 {
      DivModUnique(x + TwoTo63, TwoTo64, 0, x + TwoTo63);
    }
  }

  /** Integers that differ by a multiple of 2^64 wrap to the same `long`. */
  lemma WrapCongruent(x: int, y: int, k: int)
    requires x == y + k * TwoTo64
    ensures Wrap(x) == Wrap(y)
  {
    var q, r := (y + TwoTo63) / TwoTo64, (y + TwoTo63) % TwoTo64;
    DivModUnique(x + TwoTo63, TwoTo64, q + k, r);
  }

  lemma WrapAddLeft(x: int, c: int)
    ensures Wrap(Wrap(x) as int + c) == Wrap(x + c)
  {
    var q := (x + TwoTo63) / TwoTo64;
    WrapCongruent(x + c, Wrap(x) as int + c, q);
  }

  const SumName: string := "sum"
  const UniqueName: string := "unique"

  /**
   * Truncating a sum that overflowed or underflowed a `long` by less than
   * 2^64 moves it back by exactly 2^64.
   */
  lemma WrapOnce(x: int)
    requires -TwoTo64 <= x < TwoTo64
    ensures x >= TwoTo63 ==> Wrap(x) as int == x - TwoTo64
    ensures x < -TwoTo63 ==> Wrap(x) as int == x + TwoTo64
  {
    if x >= TwoTo63 {
      WrapCongruent(x, x - TwoTo64, 1);
    } else if x < -TwoTo63 {
      WrapCongruent(x, x + TwoTo64, -1);
    }
  }

  /**
   * The value functions of the system. `Sum` adds; `Unique` keeps a value
   * that every contribution agrees on and otherwise records `collision`.
   */
  datatype ValueFunction = Sum | Unique(collision: int64) {

    /** The key under which this function is found in a lookup map; each kind has its own. */
    function Name(): (name: string)
      ensures name == SumName <==> Sum?
      ensures name == UniqueName <==> Unique?
    {
      assert |SumName| != |UniqueName|;
      match this
      case Sum => SumName
      case Unique(_) => UniqueName
    }

    /**
     * Combines the stored value with an incoming one. Sum is addition of
     * Java `long`s: exact within range, 2^64 off on overflow or underflow.
     * Unique keeps a value the incoming one agrees with and otherwise
     * records the collision value.
     */
    function GetValue(oldValue: int64, newValue: int64): (r: int64)
      ensures Sum? && -TwoTo63 <= oldValue as int + newValue as int < TwoTo63 ==>
                r as int == oldValue as int + newValue as int
      ensures Sum? && oldValue as int + newValue as int >= TwoTo63 ==>
                r as int == oldValue as int + newValue as int - TwoTo64
      ensures Sum? && oldValue as int + newValue as int < -TwoTo63 ==>
                r as int == oldValue as int + newValue as int + TwoTo64
      ensures Unique? && oldValue == newValue ==> r == newValue
      ensures Unique? && oldValue != newValue ==> r == collision
    {
      match this
      case Sum =>
        WrapOnce(oldValue as int + newValue as int);
        Wrap(oldValue as int + newValue as int)
      case Unique(collision) => if oldValue != newValue then collision else oldValue
    }

    /** The stored value before any combination: a slot's first value is kept as it is. */
    function GetInitialValue(newValue: int64): (initial: int64)
      ensures initial == newValue
    {
      newValue
    }
  }

  /** The contract of every value function: the order of the two values does not matter. */
  lemma GetValueCommutes(f: ValueFunction, a: int64, b: int64)
    ensures f.GetValue(a, b) == f.GetValue(b, a)
  {
  }

  /** Combining is associative as well, so a run of values can be folded in any grouping. */
  lemma GetValueAssociates(f: ValueFunction, a: int64, b: int64, c: int64)
    ensures f.GetValue(f.GetValue(a, b), c) == f.GetValue(a, f.GetValue(b, c))
  {
    if f.Sum? {
      SumAssociates(a as int, b as int, c as int);
    }
  }

  lemma SumAssociates(a: int, b: int, c: int)
    ensures Wrap(Wrap(a + b) as int + c) == Wrap(a + Wrap(b + c) as int)
  {
    WrapAddLeft(a + b, c);
    WrapAddLeft(b + c, a);
    assert a + (b + c) == (a + b) + c;
    assert Wrap(b + c) as int + a == a + Wrap(b + c) as int;
  }

  /** The last two values of a run may be combined in either order. */
  lemma SwapLastTwo(f: ValueFunction, stored: int64, x: int64, y: int64)
    ensures f.GetValue(f.GetValue(stored, x), y) == f.GetValue(f.GetValue(stored, y), x)
  {
    GetValueAssociates(f, stored, x, y);
    GetValueCommutes(f, x, y);
    GetValueAssociates(f, stored, y, x);
  }

  /** The first value starts the slot; every later value is combined into it. */
  function Aggregate(f: ValueFunction, values: seq<int64>): int64
    requires |values| > 0
  {
    if |values| == 1 then f.GetInitialValue(values[0])
    else f.GetValue(Aggregate(f, values[..|values| - 1]), values[|values| - 1])
  }

  lemma AggregateSnoc(f: ValueFunction, values: seq<int64>, y: int64)
    requires |values| > 0
    ensures Aggregate(f, values + [y]) == f.GetValue(Aggregate(f, values), y)
  {
    assert (values + [y])[..|values|] == values;
  }

  /** `values` without the element at position i. */
  function Without(values: seq<int64>, i: nat): (rest: seq<int64>)
    requires i < |values|
    ensures |rest| == |values| - 1
    ensures multiset(rest) == multiset(values) - multiset{values[i]}
  {
    assert values == values[..i] + [values[i]] + values[i + 1..];
    values[..i] + values[i + 1..]
  }

  /** Removing an element before the final one y commutes with appending y. */
  lemma WithoutBeforeLast(front: seq<int64>, y: int64, i: nat)
    requires i < |front|
    ensures Without(front + [y], i) == Without(front, i) + [y]
  {
  }

  /**
   * The inductive step of moving value i last: if it may come last among the
   * values before the final one y, it may come last among them all.
   */
  lemma MoveBeforeLast(f: ValueFunction, front: seq<int64>, y: int64, i: nat)
    requires |front| >= 2 && i < |front|
    requires Aggregate(f, front) == f.GetValue(Aggregate(f, Without(front, i)), front[i])
    ensures Aggregate(f, front + [y]) == f.GetValue(Aggregate(f, Without(front + [y], i)), front[i])
  {
    var x := front[i];
    var rest := Without(front, i);
    var stored := Aggregate(f, rest);
    AggregateSnoc(f, front, y);
    WithoutBeforeLast(front, y, i);
    AggregateSnoc(f, rest, y);
    SwapLastTwo(f, stored, x, y);
  }

  /** The last value of a run is already combined last. */
  lemma LastMovesLast(f: ValueFunction, values: seq<int64>)
    requires |values| >= 2
    ensures Aggregate(f, values) == f.GetValue(Aggregate(f, Without(values, |values| - 1)), values[|values| - 1])
  {
    assert Without(values, |values| - 1) == values[..|values| - 1];
  }

  /** Of two values, the first may as well have arrived second. */
  lemma FirstOfTwoMovesLast(f: ValueFunction, values: seq<int64>)
    requires |values| == 2
    ensures Aggregate(f, values) == f.GetValue(Aggregate(f, Without(values, 0)), values[0])
  {
    assert Without(values, 0) == [values[1]];
    assert values[..1] == [values[0]];
    GetValueCommutes(f, values[0], values[1]);
  }

  lemma SplitLast(values: seq<int64>)
    requires |values| > 0
    ensures values == values[..|values| - 1] + [values[|values| - 1]]
  {
  }

  /** Any one value may as well have arrived last. */
  lemma {:induction false} AggregateMovesLast(f: ValueFunction, values: seq<int64>, i: nat)
    requires |values| >= 2 && i < |values|
    ensures Aggregate(f, values) == f.GetValue(Aggregate(f, Without(values, i)), values[i])
  {
    var m := |values| - 1;
    if i == m {
      LastMovesLast(f, values);
    } else if m == 1 {
      FirstOfTwoMovesLast(f, values);
    } else {
      var front := values[..m];
      AggregateMovesLast(f, front, i);
      MoveBeforeLast(f, front, values[m], i);
      SplitLast(values);
    }
  }

  /** The stored value does not depend on the order in which the values were inserted. */
  lemma {:induction false} AggregateOrderIndependent(f: ValueFunction, values: seq<int64>, reordered: seq<int64>)
    requires |values| > 0 && multiset(values) == multiset(reordered)
    ensures |reordered| == |values|
    ensures Aggregate(f, values) == Aggregate(f, reordered)
  {
    assert |reordered| == |multiset(reordered)| == |multiset(values)| == |values|;
    var m := |values| - 1;
    var x := values[m];
    assert x in multiset(reordered);
    var i :| 0 <= i < |reordered| && reordered[i] == x;
    if m == 0 {
      assert reordered == [x];
    } else {
      var front := values[..m];
      var rest := Without(reordered, i);
      assert Aggregate(f, front) == Aggregate(f, rest) by {
        assert values == front + [x];
        AggregateOrderIndependent(f, front, rest);
      }
      assert Aggregate(f, values) == f.GetValue(Aggregate(f, front), x) by {
        assert values == front + [x];
        AggregateSnoc(f, front, x);
      }
      AggregateMovesLast(f, reordered, i);
    }
  }

  /** The mathematical sum of a run of values. */
  function Total(values: seq<int64>): int
  {
    if values == [] then 0 else Total(values[..|values| - 1]) + values[|values| - 1] as int
  }

  /** Summing values into a slot gives their total, wrapped to a `long`. */
  lemma {:induction false} SumAggregatesTotal(values: seq<int64>)
    requires |values| > 0
    ensures Aggregate(Sum, values) == Wrap(Total(values))
  {
    var m := |values| - 1;
    if m == 0 {
      assert values[..0] == [];
    } else {
      SumAggregatesTotal(values[..m]);
      WrapAddLeft(Total(values[..m]), values[m] as int);
    }
  }

  /** A unique slot keeps the common value when all contributions agree, and the collision value otherwise. */
  lemma {:induction false} UniqueAggregatesAgreement(collision: int64, values: seq<int64>)
    requires |values| > 0
    ensures (forall i :: 0 <= i < |values| ==> values[i] == values[0]) ==> Aggregate(Unique(collision), values) == values[0]
    ensures (exists i :: 0 <= i < |values| && values[i] != values[0]) ==> Aggregate(Unique(collision), values) == collision
  {
    var m := |values| - 1;
    if m > 0 {
      var front := values[..m];
      UniqueAggregatesAgreement(collision, front);
      if exists i :: 0 <= i < m && front[i] != front[0] {
        assert Aggregate(Unique(collision), front) == collision;
      } else if values[m] == values[0] {
        assert forall i :: 0 <= i < |values| ==> values[i] == values[0] by {
          forall i | 0 <= i < |values| ensures values[i] == values[0] {
            if i < m {
              assert front[i] == front[0];
            }
          }
        }
      }
    }
  }

  /**
   * A lookup map from names to functions, later entries replacing earlier
   * ones of the same name: every function is found under its own name and
   * every entry is one of the functions.
   */
  function ByName(functions: seq<ValueFunction>): (m: map<string, ValueFunction>)
    ensures forall name :: name in m ==> m[name].Name() == name
    ensures forall f :: f in functions ==> f.Name() in m
    ensures forall name :: name in m ==> m[name] in functions
  {
    if functions == [] then map[]
    else
      var f := functions[|functions| - 1];
      var front := functions[..|functions| - 1];
      assert forall g :: g in front ==> g in functions;
      assert functions == front + [f];
      ByName(front)[f.Name() := f]
  }
}
