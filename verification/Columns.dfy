/** Row selections and the three physical forms of a column (data_chunk.hpp, SelectionVector and Column). */
module Columns {
  import opened Bitmap
  import opened ColumnStorage
  import opened Values

  const UINT32_SIZE := 0x1_0000_0000

  /** The row numbers below `total` that the predicate keeps. */
  function Kept(keep: seq<bool>, total: nat): (rows: seq<nat>)
    requires total <= |keep|
    ensures |rows| <= total
  {
    if total == 0 then []
    else Kept(keep, total - 1) + (if keep[total - 1] then [total - 1] else [])
  }

  /** Kept lists exactly the kept rows, in increasing order. */
  lemma {:induction false} KeptRows(keep: seq<bool>, total: nat)
    requires total <= |keep|
    ensures forall i, j | 0 <= i < j < |Kept(keep, total)| :: Kept(keep, total)[i] < Kept(keep, total)[j]
    ensures forall row :: row in Kept(keep, total) <==> 0 <= row < total && keep[row]
  {
    if total > 0 {
      KeptRows(keep, total - 1);
      var before := Kept(keep, total - 1);
      assert forall i | 0 <= i < |before| :: before[i] in before;
    }
  }

  /** The kept elements of a list: what filtering means. */
  function Filtered(rows: seq<Value>, keep: seq<bool>): seq<Value>
    requires |rows| <= |keep|
  {
    if rows == [] then []
    else
      var n := |rows| - 1;
      Filtered(rows[..n], keep) + (if keep[n] then [rows[n]] else [])
  }

  lemma {:induction false} KeptAreFiltered(rows: seq<Value>, keep: seq<bool>, k: nat)
    requires |rows| <= |keep|
    ensures |Kept(keep, |rows|)| == |Filtered(rows, keep)|
    ensures k < |Kept(keep, |rows|)| ==>
      Kept(keep, |rows|)[k] < |rows| && Filtered(rows, keep)[k] == rows[Kept(keep, |rows|)[k]]
    decreases |rows|
  {
    if rows != [] {
      var n := |rows| - 1;
      KeptAreFiltered(rows[..n], keep, k);
    }
  }

  class SelectionVector {
    var indices: seq<nat>
    var count: nat
    var isIdentity: bool

    constructor Identity(n: nat)
      ensures isIdentity && count == n && indices == []
    {
      indices, count, isIdentity := [], n, true;
    }

    predicate Defined(i: nat)
      reads this
    {
      isIdentity || i < |indices|
    }

    /** The physical row of a logical row, in 32 bits. */
    function At(i: nat): nat
      requires Defined(i)
      reads this
    {
      if isIdentity then i % UINT32_SIZE else indices[i]
    }

    /** Keeps the rows where the predicate holds. */
    method Filter(keep: seq<bool>, total: nat)
      requires total <= |keep|
      modifies this
      ensures !isIdentity && count == |Kept(keep, total)| && |indices| == total
      ensures forall k | 0 <= k < count :: indices[k] == Kept(keep, total)[k] % UINT32_SIZE
    {
      count := 0;
      indices := if total <= |indices| then indices[..total] else indices + seq(total - |indices|, _ => 0);
      isIdentity := false;
      for i := 0 to total
        invariant !isIdentity && |indices| == total && count == |Kept(keep, i)|
        invariant forall k | 0 <= k < count :: indices[k] == Kept(keep, i)[k] % UINT32_SIZE
      {
        if keep[i] {
          indices := indices[count := i % UINT32_SIZE];
          count := count + 1;
        }
      }
    }
  }

  datatype Form = Flat | Constant | Dictionary

  /** A column: its own rows, one value for all rows, or a selection of another column's rows. */
  class Column {
    var form: Form
    var buffer: ColumnBuffer?
    var selection: SelectionVector?
    var constantValue: Value

    constructor FlatColumn(buffer: ColumnBuffer?)
      ensures form == Flat && this.buffer == buffer && selection == null && constantValue == Null
    {
      form, this.buffer, selection, constantValue := Flat, buffer, null, Null;
    }

    constructor ConstantColumn(value: Value)
      ensures form == Constant && buffer == null && selection == null && constantValue == value
    {
      form, buffer, selection, constantValue := Constant, null, null, value;
    }

    constructor Dict(buffer: ColumnBuffer, selection: SelectionVector)
      ensures form == Dictionary && this.buffer == buffer && this.selection == selection
    {
      form, this.buffer, this.selection, constantValue := Dictionary, buffer, selection, Null;
    }

    /** The logical row can be read: its selection entry and its slot exist. */
    predicate Readable(i: nat)
      reads this, buffer, selection
    {
      form == Constant || buffer == null
      || (if form == Dictionary then selection != null && selection.Defined(i) && selection.At(i) < |buffer.Active()|
          else i < |buffer.Active()|)
    }

    function Physical(i: nat): nat
      requires form != Constant && buffer != null && Readable(i)
      reads this, buffer, selection
    {
      if form == Dictionary then selection.At(i) else i
    }

    function IsNull(i: nat): bool
      requires Readable(i)
      reads this, buffer, selection
    {
      if form == Constant then Values.IsNull(constantValue)
      else if buffer == null then true
      else buffer.IsNull(Physical(i))
    }

    function GetValue(i: nat): Value
      requires Readable(i)
      reads this, buffer, selection
    {
      if form == Constant then Shown(constantValue)
      else if buffer == null then Null
      else buffer.GetValue(Physical(i))
    }

    /** A constant column loses its value for all rows, a dictionary is read only. */
    method SetNull(i: nat)
      requires form == Flat && buffer != null ==> buffer.Valid()
      modifies this`constantValue, if buffer == null then {} else {buffer}
      ensures form == Constant ==> constantValue == Null
      ensures form == Dictionary ==> constantValue == old(constantValue)
      ensures buffer != null ==>
        buffer.typ == old(buffer.typ) && buffer.capacity == old(buffer.capacity) && buffer.data == old(buffer.data)
        && (form != Flat ==> buffer.validity == old(buffer.validity))
      ensures form == Flat && buffer != null ==>
        buffer.Valid() && buffer.IsNull(i)
        && forall j | 0 <= j < buffer.capacity && j != i :: buffer.GetValue(j) == old(buffer.GetValue(j))
    {
      if form == Constant {
        constantValue := Null;
      } else if form == Flat && buffer != null {
        buffer.SetNull(i);
      }
    }
  }

  /** isNull is stricter than getValue: a row reads as null exactly if its bit is clear or its slot holds no
      payload. */
  lemma NullReads(c: Column, i: nat)
    requires c.Readable(i)
    ensures c.GetValue(i) == Null <==>
      c.IsNull(i) || (c.form != Constant && c.buffer != null && Values.IsNull(c.buffer.Active()[c.Physical(i)]))
  {
  }

  /** A dictionary column over a filtered selection reads the kept rows of the buffer, in order: every one whose number
      fits the 32 bits of an index. */
  method FilterColumn(buffer: ColumnBuffer, keep: seq<bool>, total: nat) returns (c: Column)
    requires buffer.Valid() && total <= buffer.capacity && total <= |keep|
    ensures c.form == Dictionary && c.buffer == buffer && c.selection != null && fresh(c.selection)
    ensures var rows, kept := buffer.Rows(total), Kept(keep, total);
            c.selection.count == |kept| == |Filtered(rows, keep)|
            && forall k | 0 <= k < |kept| ::
                 c.Readable(k) && kept[k] < total && c.GetValue(k) == rows[kept[k] % UINT32_SIZE]
                 && (kept[k] < UINT32_SIZE ==> c.GetValue(k) == Filtered(rows, keep)[k])
  {
    hide HasBit, RowAt, StoreOf, Shown, Kept, Filtered, NullAt;
    var selection := new SelectionVector.Identity(total);
    selection.Filter(keep, total);
    c := new Column.Dict(buffer, selection);
    ghost var rows, kept := buffer.Rows(total), Kept(keep, total);
    KeptAreFiltered(rows, keep, 0);
    forall k | 0 <= k < |kept|
      ensures c.Readable(k) && kept[k] < total && c.GetValue(k) == rows[kept[k] % UINT32_SIZE]
      ensures kept[k] < UINT32_SIZE ==> c.GetValue(k) == Filtered(rows, keep)[k]
    {
      KeptAreFiltered(rows, keep, k);
      LowBits(kept[k]);
    }
  }

  lemma LowBits(n: nat)
    ensures n % UINT32_SIZE <= n && (n < UINT32_SIZE ==> n % UINT32_SIZE == n)
  {
  }
}
