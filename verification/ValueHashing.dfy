/** What ValueHash hashes, and when values that valueContentEquals finds equal are hashed alike (row.hpp). */
module ValueHashing {
  import opened CppArithmetic
  import opened HashDisagreement
  import opened HashEquality
  import opened Promotion
  import opened ThreeValued
  import opened Values

  /** What goes into a hash: equal inputs have equal hashes, different ones can collide only by accident. */
  datatype HashInput =
    | Zero
    | OfBool(b: bool)
    | OfInt(n: int64)
    | OfDouble(d: Double)
    | OfText(s: string)
    | OfId(id: nat)
    | OfEdgeKey(edge: nat, src: nat, dst: nat)
    | OfContent(content: seq<nat>)
    | OfElements(elements: seq<HashInput>)
    | OfEntries(entries: seq<EntryInput>)

  datatype EntryInput = EntryInput(key: string, value: HashInput)

  /** ValueHash. Temporal values all hash to zero, entities by their id, and a map in the order of its entries. */
  function Input(v: Value): HashInput
    decreases v
  {
    match v
    case Null => Zero
    case Empty(_) => Zero
    case Bool(b) => OfBool(b)
    case Int(n) => OfInt(n)
    case Float(d) => OfDouble(d)
    case Text(s) => OfText(s)
    case VertexRef(id) => OfId(id)
    case Vertex(id) => OfId(id)
    case EdgeKey(edge, src, dst) => OfEdgeKey(edge, src, dst)
    case Edge(id) => OfId(id)
    case Topology(content) => OfContent(content)
    case Bytes(data) => OfContent(data)
    case Temporal(_, _) => Zero
    case List(elements) => OfElements(seq(|elements|, i requires 0 <= i < |elements| => Input(elements[i])))
    case Path(elements) => OfElements(seq(|elements|, i requires 0 <= i < |elements| => Input(elements[i])))
    case Map(entries) =>
      OfEntries(seq(|entries|, i requires 0 <= i < |entries| => EntryInput(entries[i].key, Input(entries[i].value))))
  }

  /** An integer is promoted to this double. */
  ghost predicate IsPromoted(d: Double) {
    d.Finite? && exists n: int64 :: Promote(n) == d.r
  }

  /** Two entries go into the hash differently. */
  ghost predicate DifferentInputs(entries: seq<Entry>, i: nat, j: nat) {
    i < |entries| && j < |entries|
    && (entries[i].key != entries[j].key || Input(entries[i].value) != Input(entries[j].value))
  }

  /** Somewhere the value holds a number that an integer and a double share, an edge, or a map with two entries that
      clash or that go into the hash differently. */
  ghost predicate Unstable(v: Value)
    decreases v
  {
    match v
    case Int(_) => true
    case Float(d) => IsPromoted(d)
    case EdgeKey(_, _, _) => true
    case Edge(_) => true
    case List(elements) => exists i | 0 <= i < |elements| :: Unstable(elements[i])
    case Path(elements) => exists i | 0 <= i < |elements| :: Unstable(elements[i])
    case Map(entries) =>
      (exists i | 0 <= i < |entries| :: Unstable(entries[i].value))
      || HasClash(v) || (exists i, j :: DifferentInputs(entries, i, j))
    case _ => false
  }

  // ---------- unstable values ----------

  lemma ScalarRehashed(a: Value) returns (b: Value)
    requires NanFree(a) && Unstable(a) && !a.List? && !a.Path? && !a.Map?
    ensures ContentEquals(a, b) && Input(a) != Input(b)
  {
    hide Promote;
    match a {
      case Int(n) => b := Float(Finite(Promote(n)));
      case Float(d) =>
        var n: int64 :| Promote(n) == d.r;
        b := Int(n);
      case EdgeKey(edge, _, _) => b := Edge(edge);
      case Edge(edge) => b := EdgeKey(edge, 0, 0);
    }
  }

  lemma ElementRehashed(a: Value, i: nat, x: Value)
    requires (a.List? || a.Path?) && i < |a.elements| && NanFree(a)
    requires ContentEquals(a.elements[i], x) && Input(a.elements[i]) != Input(x)
    ensures ContentEquals(a, WithElement(a, i, x)) && Input(a) != Input(WithElement(a, i, x))
  {
    hide SameScalar;
    var b := WithElement(a, i, x);
    forall k | 0 <= k < |a.elements|
      ensures ContentEquals(a.elements[k], b.elements[k])
    {
      ReflexiveWithoutNan(a.elements[k]);
    }
    assert Input(a).elements[i] != Input(b).elements[i];
  }

  lemma EntryRehashed(a: Value, i: nat, x: Value)
    requires a.Map? && i < |a.entries| && NanFree(a)
    requires ContentEquals(a.entries[i].value, x) && Input(a.entries[i].value) != Input(x)
    ensures var b := Map(a.entries[i := Entry(a.entries[i].key, x)]); ContentEquals(a, b) && Input(a) != Input(b)
  {
    hide ContentEquals;
    var b := Map(a.entries[i := Entry(a.entries[i].key, x)]);
    forall k | 0 <= k < |a.entries|
      ensures HasMatch(a, k, b.entries)
    {
      ReflexiveWithoutNan(a.entries[k].value);
      assert a.entries[k].key == b.entries[k].key && ContentEquals(a.entries[k].value, b.entries[k].value);
    }
    MapContentEqual(a, b);
    assert Input(a).entries[i] != Input(b).entries[i];
  }

  lemma EntriesSwapped(a: Value, i: nat, j: nat)
    requires a.Map? && NanFree(a) && DifferentInputs(a.entries, i, j)
    ensures var b := Map(a.entries[i := a.entries[j]][j := a.entries[i]]); ContentEquals(a, b) && Input(a) != Input(b)
  {
    hide ContentEquals;
    var b := Map(a.entries[i := a.entries[j]][j := a.entries[i]]);
    forall k | 0 <= k < |a.entries|
      ensures HasMatch(a, k, b.entries)
    {
      ReflexiveWithoutNan(a.entries[k].value);
      var place := if k == i then j else if k == j then i else k;
      assert a.entries[k].key == b.entries[place].key && ContentEquals(a.entries[k].value, b.entries[place].value);
    }
    MapContentEqual(a, b);
    assert Input(a).entries[i] != Input(b).entries[i];
  }

  lemma ClashRehashed(a: Value, i: nat, j: nat) returns (b: Value)
    requires a.Map? && NanFree(a) && EntriesClash(a, i, j)
    ensures ContentEquals(a, b) && Input(a) != Input(b)
  {
    hide ContentEquals, EntriesClash;
    AreEntries(a, i, j);
    b := RoomAtFront(a, i, j, Entry(FreshKey(a.entries), Null));
    assert Input(a).entries[0].key != Input(b).entries[0].key;
  }

  lemma AreEntries(a: Value, i: nat, j: nat)
    requires a.Map? && EntriesClash(a, i, j)
    ensures i < |a.entries| && j < |a.entries|
  {
  }

  lemma {:induction false} Rehashed(a: Value) returns (b: Value)
    requires NanFree(a) && Unstable(a)
    ensures ContentEquals(a, b) && Input(a) != Input(b)
    decreases a
  {
    hide ContentEquals, Input, EntriesClash;
    if a.List? || a.Path? {
      var i :| 0 <= i < |a.elements| && Unstable(a.elements[i]);
      var x := Rehashed(a.elements[i]);
      b := WithElement(a, i, x);
      ElementRehashed(a, i, x);
    } else if a.Map? {
      if i :| 0 <= i < |a.entries| && Unstable(a.entries[i].value) {
        var x := Rehashed(a.entries[i].value);
        b := Map(a.entries[i := Entry(a.entries[i].key, x)]);
        EntryRehashed(a, i, x);
      } else if i, j :| EntriesClash(a, i, j) {
        b := ClashRehashed(a, i, j);
      } else {
        var i: nat, j: nat :| DifferentInputs(a.entries, i, j);
        EntriesSwapped(a, i, j);
        b := Map(a.entries[i := a.entries[j]][j := a.entries[i]]);
      }
    } else {
      b := ScalarRehashed(a);
    }
  }

  // ---------- stable values ----------

  lemma {:induction false} StableDoesNotClash(a: Value)
    requires !Unstable(a)
    ensures !Clash(a)
    decreases a
  {
    hide EntriesClash, DifferentInputs;
    if a.List? || a.Path? {
      forall i | 0 <= i < |a.elements|
        ensures !Clash(a.elements[i])
      {
        StableDoesNotClash(a.elements[i]);
      }
    } else if a.Map? {
      forall i | 0 <= i < |a.entries|
        ensures !Clash(a.entries[i].value)
      {
        StableDoesNotClash(a.entries[i].value);
      }
      assert !HasClash(a);
    }
  }

  lemma ScalarHashed(a: Value, b: Value)
    requires ContentEquals(a, b) && !Unstable(a)
    requires !(a.List? && b.List?) && !(a.Path? && b.Path?) && !(a.Map? && b.Map?)
    ensures Input(a) == Input(b)
  {
    hide Promote;
  }

  /** Every entry of a map that equals a stable one is hashed as all entries of the stable one are. */
  lemma {:induction false} EntryHashed(a: Value, b: Value, j: nat)
    requires a.Map? && b.Map? && ContentEquals(a, b) && !Unstable(a) && j < |b.entries| == |a.entries|
    ensures Input(a).entries[j] == Input(b).entries[j]
    decreases a, 0
  {
    hide ContentEquals, Unstable;
    StableDoesNotClash(a);
    var i := MatchedFrom(a, b, j);
    StableEntries(a, i, j);
    StableIsHashedAlike(a.entries[i].value, b.entries[j].value);
  }

  lemma StableEntries(a: Value, i: nat, j: nat)
    requires a.Map? && !Unstable(a) && i < |a.entries| && j < |a.entries|
    ensures !Unstable(a.entries[i].value)
    ensures a.entries[i].key == a.entries[j].key && Input(a.entries[i].value) == Input(a.entries[j].value)
  {
    assert !DifferentInputs(a.entries, i, j);
  }

  lemma {:induction false} StableIsHashedAlike(a: Value, b: Value)
    requires ContentEquals(a, b) && !Unstable(a)
    ensures Input(a) == Input(b)
    decreases a
  {
    hide SameScalar;
    if (a.List? && b.List?) || (a.Path? && b.Path?) {
      forall i | 0 <= i < |a.elements|
        ensures Input(a.elements[i]) == Input(b.elements[i])
      {
        StableIsHashedAlike(a.elements[i], b.elements[i]);
      }
    } else if a.Map? && b.Map? {
      SameLength(a, b);
      forall j | 0 <= j < |b.entries|
        ensures Input(a).entries[j] == Input(b).entries[j]
      {
        EntryHashed(a, b, j);
      }
    } else {
      ScalarHashed(a, b);
    }
  }

  /** Some value equals `a` as a hash key but is hashed differently, exactly if `a` holds no NaN and is unstable. */
  lemma HashDisagreesExactly(a: Value)
    ensures (exists b :: ContentEquals(a, b) && Input(a) != Input(b)) <==> NanFree(a) && Unstable(a)
  {
    hide ContentEquals, Input, NanFree, Unstable;
    if b :| ContentEquals(a, b) && Input(a) != Input(b) {
      if !NanFree(a) {
        NanEqualsNothing(a, b);
      }
      if !Unstable(a) {
        StableIsHashedAlike(a, b);
      }
    }
    if NanFree(a) && Unstable(a) {
      var b := Rehashed(a);
    }
  }

  /** One, as an integer and as a double. */
  lemma EqualNumbersHashApart(a: Value, b: Value)
    requires a == Int(1) && b == Float(Finite(1.0))
    ensures ContentEquals(a, b) && Input(a) != Input(b)
  {
    PromoteExact(1);
  }
}
