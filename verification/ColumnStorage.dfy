/** The typed, null-aware storage behind a query column (data_chunk.hpp, ColumnBuffer). */
module ColumnStorage {
  import opened Bitmap
  import opened CppArithmetic
  import opened Lists
  import opened Promotion
  import opened Values

  /** binder::BoundTypeKind. */
  datatype Kind =
    | NullKind | AnyKind | BoolKind | Int64Kind | DoubleKind | StringKind | VertexRefKind | EdgeKeyKind
    | PathTopologyKind | VertexKind | EdgeKind | PathKind | ListKind | MapKind | DateTimeKind | TimeKind | DurationKind

  /** The data vectors of a buffer. */
  datatype Store =
    | Bools | Int64s | Doubles | Strings | VertexRefs | EdgeKeys | PathTopologies | Vertices | Edges | Paths
    | ListValues | Maps | Anything

  /** The vector a kind keeps its rows in; the temporal kinds have no vector of their own. */
  function StoreOf(kind: Kind): Store {
    match kind
    case BoolKind => Bools
    case Int64Kind => Int64s
    case DoubleKind => Doubles
    case StringKind => Strings
    case VertexRefKind => VertexRefs
    case EdgeKeyKind => EdgeKeys
    case PathTopologyKind => PathTopologies
    case VertexKind => Vertices
    case EdgeKind => Edges
    case PathKind => Paths
    case ListKind => ListValues
    case MapKind => Maps
    case DateTimeKind => Anything
    case TimeKind => Anything
    case DurationKind => Anything
    case AnyKind => Anything
    case NullKind => Anything
  }

  function Shown(v: Value): (r: Value)
    ensures IsNull(v) <==> r == Null
    ensures !IsNull(v) ==> r == v
  {
    if IsNull(v) then Null else v
  }

  /** What a vector's resize fills in. */
  function Default(store: Store): Value {
    match store
    case Bools => Bool(false)
    case Int64s => Int(0)
    case Doubles => Float(Finite(0.0))
    case Strings => Text("")
    case VertexRefs => VertexRef(0)
    case EdgeKeys => EdgeKey(0, 0, 0)
    case PathTopologies => Empty(PathTopologyHandle)
    case Vertices => Empty(VertexHandle)
    case Edges => Empty(EdgeHandle)
    case Paths => Empty(PathHandle)
    case ListValues => Empty(ListHandle)
    case Maps => Empty(MapHandle)
    case Anything => Null
  }

  function StoreOfHandle(handle: HandleKind): Store {
    match handle
    case PathTopologyHandle => PathTopologies
    case VertexHandle => Vertices
    case EdgeHandle => Edges
    case PathHandle => Paths
    case ListHandle => ListValues
    case MapHandle => Maps
    case BytesHandle => Anything
  }

  /** The vector whose elements the alternative of a value is; those without one fit the catch-all only. */
  function StoreOfValue(v: Value): Store {
    match v
    case Bool(_) => Bools
    case Int(_) => Int64s
    case Float(_) => Doubles
    case Text(_) => Strings
    case VertexRef(_) => VertexRefs
    case EdgeKey(_, _, _) => EdgeKeys
    case Empty(handle) => StoreOfHandle(handle)
    case Topology(_) => PathTopologies
    case Vertex(_) => Vertices
    case Edge(_) => Edges
    case Path(_) => Paths
    case List(_) => ListValues
    case Map(_) => Maps
    case Temporal(_, _) => Anything
    case Bytes(_) => Anything
    case Null => Anything
  }

  // ---------- rows of a vector and a bitmap ----------

  /** No bit, or a cleared one. */
  predicate NullAt(bits: Bits, i: nat) {
    i / 8 >= |bits| || !HasBit(bits, i)
  }

  /** A cleared bit in a byte that exists. */
  predicate Cleared(bits: Bits, i: nat) {
    i / 8 < |bits| && !HasBit(bits, i)
  }

  /** The value of a row. */
  function RowAt(slots: seq<Value>, bits: Bits, i: nat): Value
    requires i < |slots|
  {
    if NullAt(bits, i) then Null else Shown(slots[i])
  }

  /** static_cast from double to int64_t drops the fraction; what does not fit is undefined in C++. */
  function Truncated(r: real): int {
    if r >= 0.0 then r.Floor else -(-r).Floor
  }

  predicate FitsInt64(d: Double) {
    d.Finite? && INT64_MIN <= Truncated(d.r) <= INT64_MAX
  }

  /** What setValue stores for a value that is not null: the numeric kinds convert into each other, and any other
      mismatch stores nothing. */
  function Converted(store: Store, v: Value): Option<Value>
    requires store == Int64s && v.Float? ==> FitsInt64(v.d)
  {
    if store == Anything || StoreOfValue(v) == store then Some(v)
    else if store == Int64s && v.Float? then Some(Int(Truncated(v.d.r)))
    else if store == Doubles && v.Int? then Some(Float(Finite(Promote(v.n))))
    else None
  }

  predicate Covers(bits: Bits, rows: nat) {
    (rows + 7) / 8 <= |bits|
  }

  function Grown(slots: seq<Value>, n: nat, fill: Value): (r: seq<Value>)
    ensures |r| == if |slots| < n then n else |slots|
    ensures slots <= r && forall j | |slots| <= j < |r| :: r[j] == fill
  {
    if |slots| < n then slots + seq(n - |slots|, _ => fill) else slots
  }

  /** Bytes that a resize adds are all ones; bytes that stay keep their cleared bits. */
  lemma ResizedBits(bits: Bits, n: nat, j: nat)
    requires j / 8 < n
    ensures var r := Resized(bits, n, 0xFF); HasBit(r, j) <==> !Cleared(bits, j)
  {
    hide Has;
    FreshBits(j);
  }

  /** A row after the slots and the bitmap's bytes were overwritten from another buffer's. */
  lemma CopiedRow(slots: seq<Value>, bits: Bits, from: seq<Value>, fromBits: Bits, count: nat, bytes: nat, j: nat)
    requires bytes == (count + 7) / 8 && bytes <= |bits| && bytes <= |fromBits|
    requires count <= |slots| && count <= |from| && j < |slots| && j / 8 < |bits|
    ensures var row := RowAt(from[..count] + slots[count..], fromBits[..bytes] + bits[bytes..], j);
            row == if j < count then RowAt(from, fromBits, j)
                   else if j < 8 * bytes then (if NullAt(fromBits, j) then Null else Shown(slots[j]))
                   else RowAt(slots, bits, j)
  {
    hide Has, Shown;
  }

  class ColumnBuffer {
    var typ: Kind
    var capacity: nat
    var data: map<Store, seq<Value>>
    var validity: Bits

    /** A vector of the buffer; those never resized are empty. */
    function Vector(store: Store): seq<Value>
      reads this
    {
      if store in data then data[store] else []
    }

    function Active(): seq<Value>
      reads this
    {
      Vector(StoreOf(typ))
    }

    /** The bitmap has a bit for every row of the capacity. */
    ghost predicate BitsCover()
      reads this
    {
      Covers(validity, capacity)
    }

    /** The active vector has a slot for every row of the capacity. */
    ghost predicate SlotsCover()
      reads this
    {
      capacity <= |Active()|
    }

    ghost predicate Valid()
      reads this
    {
      BitsCover() && SlotsCover()
    }

    constructor (kind: Kind)
      ensures Valid() && typ == kind && capacity == 0 && validity == [] && data == map[]
    {
      typ, capacity, data, validity := kind, 0, map[], [];
    }

    function IsNull(i: nat): bool
      reads this
    {
      NullAt(validity, i)
    }

    /** getValue; only the catch-all vector is read with a bounds check. */
    function GetValue(i: nat): (v: Value)
      requires IsNull(i) || StoreOf(typ) == Anything || i < |Active()|
      reads this
      ensures i < |Active()| ==> v == RowAt(Active(), validity, i)
    {
      if IsNull(i) then Null
      else if StoreOf(typ) == Anything then
        if i < |Active()| then Shown(Active()[i]) else Null
      else Shown(Active()[i])
    }

    /** The first rows as the list of values that the buffer stands for. */
    ghost function Rows(n: nat): (rows: seq<Value>)
      requires n <= |Active()|
      reads this
      ensures |rows| == n && forall j | 0 <= j < n :: rows[j] == GetValue(j)
    {
      var slots, bits := Active(), validity;
      seq(n, j requires 0 <= j < n => RowAt(slots, bits, j))
    }

    method ResizeActive(n: nat)
      modifies this`data
      ensures Active() == Grown(old(Active()), n, Default(StoreOf(typ)))
      ensures forall store | store != StoreOf(typ) :: Vector(store) == old(Vector(store))
    {
      data := data[StoreOf(typ) := Grown(Active(), n, Default(StoreOf(typ)))];
    }

    method ClearActive(n: nat)
      modifies this`data
      ensures |Active()| == old(|Active()|)
      ensures forall j | 0 <= j < |Active()| ::
                Active()[j] == if j < n then Default(StoreOf(typ)) else old(Active()[j])
      ensures forall store | store != StoreOf(typ) :: Vector(store) == old(Vector(store))
    {
      var filled := if n <= |Active()| then n else |Active()|;
      var fill := Default(StoreOf(typ));
      data := data[StoreOf(typ) := seq(filled, _ => fill) + Active()[filled..]];
    }

    /** Grows to `n` rows. New rows are valid and hold the default, except where the bitmap already had a byte or
        the vector already had a slot. */
    method Reserve(n: nat)
      requires Valid()
      modifies this`capacity, this`validity, this`data
      ensures Valid() && capacity == Max(old(capacity), n)
      ensures n <= old(capacity) ==> validity == old(validity) && data == old(data)
      ensures forall j | 0 <= j < old(capacity) :: GetValue(j) == old(GetValue(j))
      ensures old(capacity) < n ==> Active() == Grown(old(Active()), n, Default(StoreOf(typ)))
      ensures forall store | store != StoreOf(typ) :: Vector(store) == old(Vector(store))
      ensures forall j | old(capacity) <= j < n :: IsNull(j) == old(Cleared(validity, j))
    {
      if n <= capacity {
        return;
      }
      ghost var bits := validity;
      var bytes := (n + 7) / 8;
      // resize never drops a byte of a row within the capacity; it may drop bytes of rows beyond `n`
      validity := Resized(validity, bytes, 0xFF);
      capacity := n;
      ResizeActive(n);
      forall j | 0 <= j < n
        ensures IsNull(j) == Cleared(bits, j)
      {
        ResizedBits(bits, bytes, j);
      }
    }

    /** Reuses the buffer for a kind and `n` rows: those rows become valid defaults. The capacity never shrinks, so
        the new active vector may end up shorter than it: exactly if `n` is below the capacity and that vector was. */
    method Reset(kind: Kind, n: nat)
      requires BitsCover()
      modifies this
      ensures typ == kind && capacity == Max(old(capacity), n) && BitsCover()
      ensures SlotsCover() <==> old(capacity) <= n || old(capacity) <= |old(Vector(StoreOf(kind)))|
      ensures |Active()| == Max(|old(Vector(StoreOf(kind)))|, n)
      ensures forall j | 0 <= j < |Active()| && j < 8 * |validity| ::
                GetValue(j) == Shown(if j < n then Default(StoreOf(kind)) else old(Vector(StoreOf(kind))[j]))
    {
      typ := kind;
      if n > capacity {
        capacity := n;
        validity := Resized(validity, (n + 7) / 8, 0xFF);
      }
      ResizeActive(n);
      ClearActive(n);
      validity := seq(|validity|, _ => 0xFF);
      forall j | 0 <= j < |Active()| && j < 8 * |validity|
        ensures !IsNull(j)
      {
        FreshBits(j);
      }
    }

    /** Copies rows 0..count. The bitmap is copied in whole bytes, so up to seven rows past `count` take over the
        source's validity; all rows from the next byte boundary on are untouched. */
    method CopyFrom(src: ColumnBuffer, count: nat) returns (ok: bool)
      requires Valid() && src.Valid()
      modifies this
      ensures Valid() && ok == (old(typ) == old(src.typ) && count <= old(src.capacity))
      ensures typ == old(typ) && (!ok ==> capacity == old(capacity) && validity == old(validity) && data == old(data))
      ensures ok ==> capacity == Max(old(capacity), count)
      ensures ok ==> forall j | 0 <= j < count :: GetValue(j) == old(src.GetValue(j))
      ensures ok ==> forall j | 8 * ((count + 7) / 8) <= j < old(capacity) :: GetValue(j) == old(GetValue(j))
      ensures ok ==> forall j | count <= j < 8 * ((count + 7) / 8) && j < old(capacity) ::
                GetValue(j) == if old(src.IsNull(j)) then Null else Shown(old(Active()[j]))
    {
      hide HasBit, StoreOf, Default, RowAt, Grown;
      ghost var from, fromBits, rows := src.Active(), src.validity, capacity;
      if typ != src.typ || count > src.capacity {
        return false;
      }
      if count > capacity {
        capacity := count;
        validity := Resized(validity, (count + 7) / 8, 0xFF);
      }
      ResizeActive(count);
      ghost var slots, bits := Active(), validity;
      var bytes := (count + 7) / 8;
      if |validity| < bytes || |src.validity| < bytes {
        return false;
      }
      assert rows >= count ==> slots == old(Active()) && bits == old(validity);
      var front := src.Active()[..count];
      assert front == from[..count] && src.validity == fromBits;
      validity := src.validity[..bytes] + validity[bytes..];
      data := data[StoreOf(typ) := front + Active()[count..]];
      ok := true;
      forall j | 0 <= j < count || 0 <= j < rows
        ensures j < |Active()|
        ensures RowAt(Active(), validity, j) == if j < count then RowAt(from, fromBits, j)
                               else if j < 8 * bytes then (if NullAt(fromBits, j) then Null else Shown(slots[j]))
                               else RowAt(slots, bits, j)
      {
        CopiedRow(slots, bits, from, fromBits, count, bytes, j);
      }
    }

    method SetNull(i: nat)
      requires Valid()
      modifies this`validity
      ensures Valid() && IsNull(i)
      ensures forall j | 0 <= j < capacity && j != i :: GetValue(j) == old(GetValue(j))
      ensures |validity| == Max(old(|validity|), i / 8 + 1)
      ensures forall j: nat | j != i && j / 8 < |validity| :: IsNull(j) == old(Cleared(validity, j))
    {
      ghost var bits := validity;
      if i / 8 >= |validity| {
        validity := Resized(validity, (i + 8) / 8, 0xFF);
      }
      ghost var grown := validity;
      validity := Clear(validity, i);
      forall j: nat | j / 8 < |validity|
        ensures HasBit(validity, j) <==> j != i && !Cleared(bits, j)
      {
        ResizedBits(bits, |grown|, j);
        assert |grown| == |bits| ==> Resized(bits, |grown|, 0xFF) == bits;
        BitsOfRows(grown, i, j);
      }
    }

    /** ensureRow and a typed assignment, as in setBool, setInt64 and their siblings. Within the capacity only row `i`
        changes. Past it the buffer grows, but a bit that an earlier setNull cleared stays cleared. */
    method SetTyped(i: nat, v: Value)
      requires Valid() && StoreOf(typ) != Anything && StoreOfValue(v) == StoreOf(typ)
      modifies this`capacity, this`validity, this`data
      ensures Valid() && capacity == Max(old(capacity), i + 1)
      ensures forall j | 0 <= j < old(capacity) && j != i :: GetValue(j) == old(GetValue(j))
      ensures GetValue(i) == if old(capacity) <= i && old(Cleared(validity, i)) then Null else Shown(v)
    {
      hide StoreOf;
      ghost var bits := validity;
      if i >= capacity {
        Reserve(i + 1);
      } else {
        EnsureValid(i);
      }
      assert IsNull(i) == (old(capacity) <= i && Cleared(bits, i));
      data := data[StoreOf(typ) := Active()[i := v]];
      assert Active()[i] == v;
    }

    /** setValue. A value of the wrong kind makes the row valid without storing anything: what the slot held before
        shows again. */
    method SetValue(i: nat, v: Value)
      requires Valid() && (Values.IsNull(v) || i < capacity)
      requires StoreOf(typ) == Int64s && v.Float? ==> FitsInt64(v.d)
      modifies this`validity, this`data
      ensures Valid()
      ensures forall j | 0 <= j < capacity && j != i :: GetValue(j) == old(GetValue(j))
      ensures Values.IsNull(v) ==> IsNull(i)
      ensures !Values.IsNull(v) ==>
        GetValue(i) == match Converted(StoreOf(typ), v)
                       case Some(w) => w
                       case None => Shown(old(Active()[i]))
    {
      hide StoreOf;
      if Values.IsNull(v) {
        SetNull(i);
        return;
      }
      SetValid(i);
      var stored := Converted(StoreOf(typ), v);
      assert !IsNull(i);
      if stored.Some? {
        data := data[StoreOf(typ) := Active()[i := stored.value]];
        assert Active()[i] == stored.value;
      }
    }

    method SetValid(i: nat)
      modifies this`validity
      ensures |validity| == old(|validity|)
      ensures forall j: nat | j / 8 < |validity| :: IsNull(j) == (j != i && old(IsNull(j)))
    {
      if i / 8 < |validity| {
        ghost var bits := validity;
        validity := Set(validity, i);
        forall j: nat | j / 8 < |validity|
          ensures HasBit(validity, j) <==> j == i || HasBit(bits, j)
        {
          BitsOfRows(bits, i, j);
        }
      }
    }

    method EnsureValid(i: nat)
      modifies this`validity
      ensures |validity| == Max(old(|validity|), i / 8 + 1)
      ensures forall j: nat | j / 8 < |validity| ::
                IsNull(j) == (j != i && (if j / 8 < old(|validity|) then old(IsNull(j)) else true))
    {
      ghost var bits := validity;
      if i / 8 >= |validity| {
        validity := Resized(validity, i / 8 + 1, 0x00);
      }
      ghost var grown := validity;
      validity := Set(validity, i);
      forall j: nat | j / 8 < |validity|
        ensures HasBit(validity, j) <==> j == i || (j / 8 < |bits| && HasBit(bits, j))
      {
        FreshBits(j);
        BitsOfRows(grown, i, j);
      }
    }
  }

  /** A row set to null before the buffer reached it stays null through a typed write. */
  method NullBeforeWrite() returns (buffer: ColumnBuffer)
    ensures fresh(buffer) && buffer.Valid() && buffer.capacity == 1 && buffer.GetValue(0) == Null
  {
    buffer := new ColumnBuffer(Int64Kind);
    buffer.SetNull(0);
    buffer.SetTyped(0, Int(7));
  }

  /** Two integer rows, then one string row: the buffer has two rows, its strings one slot. */
  method ShortenedByReset() returns (buffer: ColumnBuffer)
    ensures fresh(buffer) && buffer.BitsCover() && !buffer.SlotsCover()
    ensures buffer.capacity == 2 && |buffer.Active()| == 1
  {
    buffer := new ColumnBuffer(Int64Kind);
    buffer.Reserve(2);
    buffer.Reset(StringKind, 1);
  }

  /** A string for an integer column brings back the integer that a null had covered. */
  method MismatchRevealsOldSlot() returns (buffer: ColumnBuffer)
    ensures fresh(buffer) && buffer.Valid() && buffer.capacity == 1 && buffer.GetValue(0) == Int(7)
  {
    buffer := new ColumnBuffer(Int64Kind);
    buffer.SetTyped(0, Int(7));
    assert buffer.Active()[0] == Int(7) by {
      assert buffer.GetValue(0) == Int(7);
    }
    buffer.SetNull(0);
    buffer.SetValue(0, Text("seven"));
  }
}
