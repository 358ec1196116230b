/** Equality of runtime values (row.hpp): the three-valued comparison of queries and the total one of hash keys. */
module ThreeValued {
  import opened Promotion
  import opened Values

  datatype Truth = True | False | Unknown

  // ---------- scalars ----------

  predicate SameDouble(x: Double, y: Double) {
    !x.NaN? && x == y
  }

  /** Two non-null values that are not containers of the same kind. Vertices and edges compare by identity, whichever
      of their two representations is used. */
  predicate SameScalar(a: Value, b: Value) {
    match (a, b)
    case (VertexRef(v), VertexRef(w)) => v == w
    case (VertexRef(v), Vertex(w)) => v == w
    case (Vertex(v), VertexRef(w)) => v == w
    case (Vertex(v), Vertex(w)) => v == w
    case (EdgeKey(e, _, _), EdgeKey(f, _, _)) => e == f
    case (EdgeKey(e, _, _), Edge(f)) => e == f
    case (Edge(e), EdgeKey(f, _, _)) => e == f
    case (Edge(e), Edge(f)) => e == f
    case (Topology(x), Topology(y)) => x == y
    case (Bytes(x), Bytes(y)) => x == y
    case (Int(m), Float(d)) => SameDouble(Finite(Promote(m)), d)
    case (Float(d), Int(m)) => SameDouble(d, Finite(Promote(m)))
    case (Float(d), Float(e)) => SameDouble(d, e)
    case (Bool(x), Bool(y)) => x == y
    case (Int(m), Int(n)) => m == n
    case (Text(x), Text(y)) => x == y
    case (Temporal(_, _), Temporal(_, _)) => a == b
    case _ => false
  }

  function TruthOf(b: bool): Truth {
    if b then True else False
  }

  // ---------- three-valued equality ----------

  /** The first entry with a key, or the length. */
  function Lookup(entries: seq<Entry>, key: string): (j: nat)
    ensures j <= |entries|
    ensures j < |entries| ==> entries[j].key == key
    ensures forall i | 0 <= i < j :: entries[i].key != key
  {
    if entries == [] || entries[0].key == key then 0 else 1 + Lookup(entries[1..], key)
  }

  /** A conjunction with unknowns: one false decides, then one unknown. */
  function All(someFalse: bool, someUnknown: bool): Truth {
    if someFalse then False else if someUnknown then Unknown else True
  }

  /** What valueEquals says: null is unknown, containers are conjunctions over their elements, and a map entry is
      compared with the first entry of the same key. */
  ghost function Equals(a: Value, b: Value): Truth
    decreases a
  {
    if IsNull(a) || IsNull(b) then Unknown
    else if (a.List? && b.List?) || (a.Path? && b.Path?) then
      if |a.elements| != |b.elements| then False
      else All(exists i | 0 <= i < |a.elements| :: Equals(a.elements[i], b.elements[i]) == False,
               exists i | 0 <= i < |a.elements| :: Equals(a.elements[i], b.elements[i]) == Unknown)
    else if a.Map? && b.Map? then
      if |a.entries| != |b.entries| then False
      else All(exists i | 0 <= i < |a.entries| ::
                 var j := Lookup(b.entries, a.entries[i].key);
                 j == |b.entries| || Equals(a.entries[i].value, b.entries[j].value) == False,
               exists i | 0 <= i < |a.entries| ::
                 var j := Lookup(b.entries, a.entries[i].key);
                 j < |b.entries| && Equals(a.entries[i].value, b.entries[j].value) == Unknown)
    else TruthOf(SameScalar(a, b))
  }

  /** The comparison of one map entry. */
  ghost function EntryEquals(entry: Entry, entries: seq<Entry>): Truth {
    var j := Lookup(entries, entry.key);
    if j == |entries| then False else Equals(entry.value, entries[j].value)
  }

  /** One of the first `n` entries compares as `truth`. */
  ghost predicate SomeEntry(truth: Truth, n: nat, left: seq<Entry>, right: seq<Entry>)
    requires n <= |left|
  {
    exists i | 0 <= i < n :: EntryEquals(left[i], right) == truth
  }

  lemma MapEquals(a: Value, b: Value)
    requires a.Map? && b.Map? && |a.entries| == |b.entries|
    ensures Equals(a, b) == All(SomeEntry(False, |a.entries|, a.entries, b.entries),
                                SomeEntry(Unknown, |a.entries|, a.entries, b.entries))
  {
  }

  lemma SomeEntryNext(truth: Truth, n: nat, left: seq<Entry>, right: seq<Entry>)
    requires n < |left|
    ensures SomeEntry(truth, n + 1, left, right)
       <==> SomeEntry(truth, n, left, right) || EntryEquals(left[n], right) == truth
    ensures !SomeEntry(truth, 0, left, right)
    ensures EntryEquals(left[n], right) == truth ==> SomeEntry(truth, |left|, left, right)
  {
    hide EntryEquals;
  }

  method ValueEquals(a: Value, b: Value) returns (r: Truth)
    ensures r == Equals(a, b)
    decreases a, 2
  {
    hide SameScalar;
    if IsNull(a) || IsNull(b) {
      return Unknown;
    }
    if (a.List? && b.List?) || (a.Path? && b.Path?) {
      r := ElementsEqual(a, b);
    } else if a.Map? && b.Map? {
      r := EntriesEqual(a, b);
    } else {
      r := TruthOf(SameScalar(a, b));
    }
  }

  /** The loop over two lists, and over two paths. */
  method ElementsEqual(a: Value, b: Value) returns (r: Truth)
    requires (a.List? && b.List?) || (a.Path? && b.Path?)
    ensures r == Equals(a, b)
    decreases a, 0
  {
    hide SameScalar;
    if |a.elements| != |b.elements| {
      return False;
    }
    var hasNull := false;
    for i := 0 to |a.elements|
      invariant forall k | 0 <= k < i :: Equals(a.elements[k], b.elements[k]) != False
      invariant hasNull <==> exists k | 0 <= k < i :: Equals(a.elements[k], b.elements[k]) == Unknown
    {
      var cmp := ValueEquals(a.elements[i], b.elements[i]);
      if cmp.Unknown? {
        hasNull := true;
      } else if cmp.False? {
        return False;
      }
    }
    r := if hasNull then Unknown else True;
  }

  /** The loop over two maps. */
  method EntriesEqual(a: Value, b: Value) returns (r: Truth)
    requires a.Map? && b.Map?
    ensures r == Equals(a, b)
    decreases a, 1
  {
    hide SameScalar, EntryEquals, SomeEntry;
    if |a.entries| != |b.entries| {
      return False;
    }
    MapEquals(a, b);
    hide Equals;
    var hasNull := false;
    for i := 0 to |a.entries|
      invariant i > 0 ==> !SomeEntry(False, i, a.entries, b.entries)
      invariant hasNull <==> i > 0 && SomeEntry(Unknown, i, a.entries, b.entries)
    {
      var found, isUnknown := EntryEqual(a, i, b.entries);
      SomeEntryNext(False, i, a.entries, b.entries);
      SomeEntryNext(Unknown, i, a.entries, b.entries);
      if isUnknown {
        hasNull := true;
      }
      if !found {
        return False;
      }
    }
    if a.entries == [] {
      NoEntries(a, b);
    }
    r := if hasNull then Unknown else True;
  }

  lemma NoEntries(a: Value, b: Value)
    requires a.Map? && b.Map? && a.entries == [] && b.entries == []
    ensures Equals(a, b) == True
  {
  }

  /** Its inner loop: the first entry of the same key decides. */
  method EntryEqual(a: Value, i: nat, entries: seq<Entry>) returns (found: bool, isUnknown: bool)
    requires a.Map? && i < |a.entries|
    ensures found <==> EntryEquals(a.entries[i], entries) != False
    ensures isUnknown <==> EntryEquals(a.entries[i], entries) == Unknown
    decreases a, 0
  {
    hide Equals;
    found, isUnknown := false, false;
    var entry := a.entries[i];
    var j := 0;
    while j < |entries|
      invariant 0 <= j <= |entries| && !found && !isUnknown
      invariant forall k | 0 <= k < j :: entries[k].key != entry.key
    {
      if entry.key == entries[j].key {
        assert j == Lookup(entries, entry.key);
        var cmp := ValueEquals(entry.value, entries[j].value);
        if cmp.Unknown? {
          found := true;
          isUnknown := true;
        } else if cmp.True? {
          found := true;
        }
        return;
      }
      j := j + 1;
    }
    assert j == Lookup(entries, entry.key);
  }

  // ---------- total equality ----------

  /** What valueContentEquals says: null equals null, and a map entry may match any entry of the same key. */
  ghost predicate ContentEquals(a: Value, b: Value)
    decreases a
  {
    if IsNull(a) || IsNull(b) then IsNull(a) && IsNull(b)
    else if (a.List? && b.List?) || (a.Path? && b.Path?) then
      |a.elements| == |b.elements|
      && forall i | 0 <= i < |a.elements| :: ContentEquals(a.elements[i], b.elements[i])
    else if a.Map? && b.Map? then
      |a.entries| == |b.entries|
      && forall i | 0 <= i < |a.entries| :: HasMatch(a, i, b.entries)
    else SameScalar(a, b)
  }

  ghost predicate HasMatch(a: Value, i: nat, entries: seq<Entry>)
    requires a.Map? && i < |a.entries|
    decreases a, 0
  {
    exists j | 0 <= j < |entries| ::
      a.entries[i].key == entries[j].key && ContentEquals(a.entries[i].value, entries[j].value)
  }

  method ValueContentEquals(a: Value, b: Value) returns (r: bool)
    ensures r == ContentEquals(a, b)
    decreases a, 1
  {
    hide SameScalar;
    if IsNull(a) || IsNull(b) {
      return IsNull(a) && IsNull(b);
    }
    if (a.List? && b.List?) || (a.Path? && b.Path?) {
      if |a.elements| != |b.elements| {
        return false;
      }
      for i := 0 to |a.elements|
        invariant forall k | 0 <= k < i :: ContentEquals(a.elements[k], b.elements[k])
      {
        var same := ValueContentEquals(a.elements[i], b.elements[i]);
        if !same {
          return false;
        }
      }
      return true;
    }
    if a.Map? && b.Map? {
      r := EntriesContentEqual(a, b);
      return;
    }
    var eq := ValueEquals(a, b);
    r := eq.True?;
  }

  /** The loops over two maps. */
  method EntriesContentEqual(a: Value, b: Value) returns (r: bool)
    requires a.Map? && b.Map?
    ensures r == ContentEquals(a, b)
    decreases a, 0
  {
    hide SameScalar;
    if |a.entries| != |b.entries| {
      return false;
    }
    for i := 0 to |a.entries|
      invariant forall k | 0 <= k < i :: HasMatch(a, k, b.entries)
    {
      var found := false;
      for j := 0 to |b.entries|
        invariant !found
        invariant forall k | 0 <= k < j ::
          !(a.entries[i].key == b.entries[k].key && ContentEquals(a.entries[i].value, b.entries[k].value))
      {
        if a.entries[i].key == b.entries[j].key {
          found := ValueContentEquals(a.entries[i].value, b.entries[j].value);
          if found {
            break;
          }
        }
      }
      if !found {
        assert !HasMatch(a, i, b.entries);
        return false;
      }
    }
    r := true;
  }

  // ---------- definite answers ----------

  /** `b` is `a` with some of its nulls, at any depth, replaced by arbitrary values. */
  ghost predicate Fills(a: Value, b: Value)
    decreases a
  {
    if IsNull(a) then true
    else if a.List? || a.Path? then
      a.List? == b.List? && a.Path? == b.Path? && |a.elements| == |b.elements|
      && forall i | 0 <= i < |a.elements| :: Fills(a.elements[i], b.elements[i])
    else if a.Map? then
      b.Map? && |a.entries| == |b.entries|
      && forall i | 0 <= i < |a.entries| ::
           a.entries[i].key == b.entries[i].key && Fills(a.entries[i].value, b.entries[i].value)
    else a == b
  }

  lemma {:induction false} LookupFilled(left: seq<Entry>, right: seq<Entry>, key: string)
    requires |left| == |right| && forall i | 0 <= i < |left| :: left[i].key == right[i].key
    ensures Lookup(left, key) == Lookup(right, key)
    decreases |left|
  {
    if left != [] && left[0].key != key {
      LookupFilled(left[1..], right[1..], key);
    }
  }

  /** A definite answer does not depend on the nulls: whatever replaces them, on either side, it stays. */
  lemma {:induction false} DefiniteAnswersStay(a: Value, b: Value, a': Value, b': Value)
    requires Fills(a, a') && Fills(b, b') && Equals(a, b) != Unknown
    ensures Equals(a', b') == Equals(a, b)
    decreases a
  {
    hide SameScalar;
    if (a.List? && b.List?) || (a.Path? && b.Path?) {
      ElementsStay(a, b, a', b');
    } else if a.Map? && b.Map? {
      EntriesStay(a, b, a', b');
    } else {
      DifferentContainers(a, b);
      DifferentContainers(a', b');
    }
  }

  lemma DifferentContainers(a: Value, b: Value)
    ensures (a.List? || a.Path? || a.Map? || b.List? || b.Path? || b.Map?) ==> !SameScalar(a, b)
  {
  }

  lemma {:induction false} ElementsStay(a: Value, b: Value, a': Value, b': Value)
    requires (a.List? && b.List?) || (a.Path? && b.Path?)
    requires Fills(a, a') && Fills(b, b') && Equals(a, b) != Unknown
    ensures Equals(a', b') == Equals(a, b)
    decreases a, 0
  {
    hide SameScalar;
    if |a.elements| == |b.elements| {
      forall i | 0 <= i < |a.elements| && Equals(a.elements[i], b.elements[i]) != Unknown
        ensures Equals(a'.elements[i], b'.elements[i]) == Equals(a.elements[i], b.elements[i])
      {
        DefiniteAnswersStay(a.elements[i], b.elements[i], a'.elements[i], b'.elements[i]);
      }
    }
  }

  lemma {:induction false} EntriesStay(a: Value, b: Value, a': Value, b': Value)
    requires a.Map? && b.Map?
    requires Fills(a, a') && Fills(b, b') && Equals(a, b) != Unknown
    ensures Equals(a', b') == Equals(a, b)
    decreases a, 1
  {
    hide SameScalar, EntryEquals;
    if |a.entries| == |b.entries| {
      MapEquals(a, b);
      MapEquals(a', b');
      hide Equals;
      forall i | 0 <= i < |a.entries| && EntryEquals(a.entries[i], b.entries) != Unknown
        ensures EntryEquals(a'.entries[i], b'.entries) == EntryEquals(a.entries[i], b.entries)
      {
        EntryStays(a, i, b, a', b');
      }
    }
  }

  lemma {:induction false} EntryStays(a: Value, i: nat, b: Value, a': Value, b': Value)
    requires a.Map? && b.Map? && i < |a.entries|
    requires Fills(a, a') && Fills(b, b') && EntryEquals(a.entries[i], b.entries) != Unknown
    ensures EntryEquals(a'.entries[i], b'.entries) == EntryEquals(a.entries[i], b.entries)
    decreases a, 0
  {
    hide SameScalar, Equals;
    LookupFilled(b.entries, b'.entries, a.entries[i].key);
    var j := Lookup(b.entries, a.entries[i].key);
    if j < |b.entries| {
      DefiniteAnswersStay(a.entries[i].value, b.entries[j].value, a'.entries[i].value, b'.entries[j].value);
    }
  }

  lemma {:induction false} FillsItself(a: Value)
    ensures Fills(a, a)
    decreases a
  {
    if a.List? || a.Path? {
      forall i | 0 <= i < |a.elements|
        ensures Fills(a.elements[i], a.elements[i])
      {
        FillsItself(a.elements[i]);
      }
    } else if a.Map? {
      forall i | 0 <= i < |a.entries|
        ensures Fills(a.entries[i].value, a.entries[i].value)
      {
        FillsItself(a.entries[i].value);
      }
    }
  }

  lemma NullsCanDiffer(a: Value, b: Value) returns (a': Value, b': Value)
    requires IsNull(a) || IsNull(b)
    ensures Fills(a, a') && Fills(b, b') && Equals(a', b') == False
  {
    FillsItself(a);
    FillsItself(b);
    if IsNull(a) && IsNull(b) {
      a', b' := Bool(true), Bool(false);
    } else if IsNull(a) {
      a', b' := Bool(b == Bool(false)), b;
    } else {
      a', b' := a, Bool(a == Bool(false));
    }
  }

  lemma ElementCanDiffer(a: Value, b: Value, i: nat, x: Value, y: Value)
    requires ((a.List? && b.List?) || (a.Path? && b.Path?)) && |a.elements| == |b.elements| && i < |a.elements|
    requires Fills(a.elements[i], x) && Fills(b.elements[i], y) && Equals(x, y) == False
    ensures Fills(a, WithElement(a, i, x)) && Fills(b, WithElement(b, i, y))
    ensures Equals(WithElement(a, i, x), WithElement(b, i, y)) == False
  {
    hide SameScalar;
    FillsItself(a);
    FillsItself(b);
    var a', b' := WithElement(a, i, x), WithElement(b, i, y);
    assert Equals(a'.elements[i], b'.elements[i]) == False;
  }

  lemma EntryFilled(a: Value, i: nat, x: Value)
    requires a.Map? && i < |a.entries| && Fills(a.entries[i].value, x)
    ensures Fills(a, Map(a.entries[i := Entry(a.entries[i].key, x)]))
  {
    FillsItself(a);
  }

  lemma EntryCanDiffer(a: Value, b: Value, i: nat, x: Value, y: Value)
    requires a.Map? && b.Map? && |a.entries| == |b.entries| && i < |a.entries|
    requires Lookup(b.entries, a.entries[i].key) < |b.entries| && Equals(x, y) == False
    ensures var key, j := a.entries[i].key, Lookup(b.entries, a.entries[i].key);
            Equals(Map(a.entries[i := Entry(key, x)]), Map(b.entries[j := Entry(key, y)])) == False
  {
    hide SameScalar, Equals;
    var key, j := a.entries[i].key, Lookup(b.entries, a.entries[i].key);
    var a', b' := Map(a.entries[i := Entry(key, x)]), Map(b.entries[j := Entry(key, y)]);
    LookupFilled(b.entries, b'.entries, key);
    MapEquals(a', b');
    assert EntryEquals(a'.entries[i], b'.entries) == False;
  }

  /** And an unknown answer is never secretly true: some replacement of the nulls makes the values differ. */
  lemma {:induction false} UnknownCanBeFalse(a: Value, b: Value) returns (a': Value, b': Value)
    requires Equals(a, b) == Unknown
    ensures Fills(a, a') && Fills(b, b') && Equals(a', b') == False
    decreases a
  {
    hide Fills, SameScalar;
    if IsNull(a) || IsNull(b) {
      a', b' := NullsCanDiffer(a, b);
    } else if a.List? || a.Path? {
      var i :| 0 <= i < |a.elements| && Equals(a.elements[i], b.elements[i]) == Unknown;
      var x, y := UnknownCanBeFalse(a.elements[i], b.elements[i]);
      a', b' := WithElement(a, i, x), WithElement(b, i, y);
      ElementCanDiffer(a, b, i, x, y);
    } else {
      MapEquals(a, b);
      var i :| 0 <= i < |a.entries| && EntryEquals(a.entries[i], b.entries) == Unknown;
      var key := a.entries[i].key;
      var j := Lookup(b.entries, key);
      var x, y := UnknownCanBeFalse(a.entries[i].value, b.entries[j].value);
      a', b' := Map(a.entries[i := Entry(key, x)]), Map(b.entries[j := Entry(key, y)]);
      EntryFilled(a, i, x);
      EntryFilled(b, j, y);
      EntryCanDiffer(a, b, i, x, y);
    }
  }

  function WithElement(v: Value, i: nat, x: Value): (r: Value)
    requires (v.List? || v.Path?) && i < |v.elements|
    ensures r.List? == v.List? && r.Path? == v.Path? && r.elements == v.elements[i := x]
  {
    if v.List? then List(v.elements[i := x]) else Path(v.elements[i := x])
  }

  // ---------- the total equality ----------

  predicate DistinctKeys(entries: seq<Entry>) {
    forall i, j | 0 <= i < j < |entries| :: entries[i].key != entries[j].key
  }

  /** No map at any depth repeats a key. */
  predicate UniqueKeys(v: Value)
    decreases v
  {
    match v
    case List(elements) => forall i | 0 <= i < |elements| :: UniqueKeys(elements[i])
    case Path(elements) => forall i | 0 <= i < |elements| :: UniqueKeys(elements[i])
    case Map(entries) => DistinctKeys(entries) && forall i | 0 <= i < |entries| :: UniqueKeys(entries[i].value)
    case _ => true
  }

  lemma LookupUnique(entries: seq<Entry>, key: string, j: nat)
    requires DistinctKeys(entries) && j < |entries| && entries[j].key == key
    ensures Lookup(entries, key) == j
  {
    assert Lookup(entries, key) <= j;
  }

  function KeysOf(entries: seq<Entry>): set<string> {
    set i | 0 <= i < |entries| :: entries[i].key
  }

  lemma KeysStep(entries: seq<Entry>, n: nat)
    requires |entries| == n + 1
    ensures KeysOf(entries) == KeysOf(entries[..n]) + {entries[n].key}
    ensures DistinctKeys(entries) <==> DistinctKeys(entries[..n]) && entries[n].key !in KeysOf(entries[..n])
  {
    var front := entries[..n];
    assert forall i | 0 <= i < n :: entries[i] == front[i];
    assert forall i | 0 <= i < n :: entries[i].key in KeysOf(front);
  }

  lemma {:induction false} KeyCount(entries: seq<Entry>)
    ensures |KeysOf(entries)| <= |entries|
    ensures DistinctKeys(entries) <==> |KeysOf(entries)| == |entries|
    decreases |entries|
  {
    if entries != [] {
      hide KeysOf, DistinctKeys;
      var n := |entries| - 1;
      KeyCount(entries[..n]);
      KeysStep(entries, n);
      if entries[n].key in KeysOf(entries[..n]) {
        assert KeysOf(entries) == KeysOf(entries[..n]);
      }
    }
  }

  /** As many entries on both sides, different keys on the left, all of them on the right: different keys on the
      right. */
  lemma KeysAreDistinct(left: seq<Entry>, right: seq<Entry>)
    requires |left| == |right| && DistinctKeys(left) && KeysOf(left) <= KeysOf(right)
    ensures DistinctKeys(right)
  {
    KeyCount(left);
    KeyCount(right);
    SubsetSize(KeysOf(left), KeysOf(right));
  }

  lemma SubsetSize<T>(x: set<T>, y: set<T>)
    requires x <= y
    ensures |x| <= |y|
  {
    assert y == x + (y - x);
  }

  /** What the query comparison finds equal, the hash comparison does, whatever the keys. */
  lemma {:induction false} TrueIsContentEqual(a: Value, b: Value)
    requires Equals(a, b) == True
    ensures ContentEquals(a, b)
    decreases a
  {
    hide SameScalar;
    if (a.List? && b.List?) || (a.Path? && b.Path?) {
      forall i | 0 <= i < |a.elements|
        ensures ContentEquals(a.elements[i], b.elements[i])
      {
        TrueIsContentEqual(a.elements[i], b.elements[i]);
      }
    } else if a.Map? && b.Map? {
      MapEquals(a, b);
      forall i | 0 <= i < |a.entries|
        ensures HasMatch(a, i, b.entries)
      {
        var j := Lookup(b.entries, a.entries[i].key);
        assert EntryEquals(a.entries[i], b.entries) == True;
        TrueIsContentEqual(a.entries[i].value, b.entries[j].value);
      }
      MapContentEqual(a, b);
    }
  }

  /** Where the query comparison is definite, the hash comparison says the same, if the maps of one side do not
      repeat keys. */
  lemma {:induction false} ContentAgrees(a: Value, b: Value)
    requires (UniqueKeys(a) || UniqueKeys(b)) && Equals(a, b) != Unknown
    ensures ContentEquals(a, b) <==> Equals(a, b) == True
    decreases a
  {
    hide SameScalar;
    if (a.List? && b.List?) || (a.Path? && b.Path?) {
      if |a.elements| == |b.elements| {
        forall i | 0 <= i < |a.elements| && Equals(a.elements[i], b.elements[i]) != Unknown
          ensures ContentEquals(a.elements[i], b.elements[i]) <==> Equals(a.elements[i], b.elements[i]) == True
        {
          ContentAgrees(a.elements[i], b.elements[i]);
        }
      }
    } else if a.Map? && b.Map? && |a.entries| == |b.entries| {
      if KeysOf(a.entries) <= KeysOf(b.entries) {
        EntriesAgree(a, b);
      } else {
        MissingKey(a, b);
      }
    }
  }

  lemma MissingKey(a: Value, b: Value)
    requires a.Map? && b.Map? && |a.entries| == |b.entries| && !(KeysOf(a.entries) <= KeysOf(b.entries))
    ensures Equals(a, b) == False && !ContentEquals(a, b)
  {
    hide SameScalar;
    var key :| key in KeysOf(a.entries) && key !in KeysOf(b.entries);
    var i :| 0 <= i < |a.entries| && a.entries[i].key == key;
    assert forall j | 0 <= j < |b.entries| :: b.entries[j].key in KeysOf(b.entries);
    MapEquals(a, b);
    assert EntryEquals(a.entries[i], b.entries) == False;
    MapContentDiffers(a, b, i);
  }

  lemma {:induction false} EntriesAgree(a: Value, b: Value)
    requires a.Map? && b.Map? && |a.entries| == |b.entries| && KeysOf(a.entries) <= KeysOf(b.entries)
    requires (UniqueKeys(a) || UniqueKeys(b)) && Equals(a, b) != Unknown
    ensures ContentEquals(a, b) <==> Equals(a, b) == True
    decreases a, 1
  {
    hide SameScalar, EntryEquals, HasMatch, KeysOf;
    if UniqueKeys(a) {
      KeysAreDistinct(a.entries, b.entries);
    }
    MapEquals(a, b);
    hide Equals;
    forall i | 0 <= i < |a.entries| && EntryEquals(a.entries[i], b.entries) != Unknown
      ensures HasMatch(a, i, b.entries) <==> EntryEquals(a.entries[i], b.entries) == True
    {
      EntryAgrees(a, i, b);
    }
  }

  lemma {:induction false} EntryAgrees(a: Value, i: nat, b: Value)
    requires a.Map? && b.Map? && i < |a.entries| && DistinctKeys(b.entries) && (UniqueKeys(a) || UniqueKeys(b))
    requires EntryEquals(a.entries[i], b.entries) != Unknown
    ensures HasMatch(a, i, b.entries) <==> EntryEquals(a.entries[i], b.entries) == True
    decreases a, 0
  {
    hide SameScalar, Equals, ContentEquals;
    var key := a.entries[i].key;
    var j := Lookup(b.entries, key);
    forall k | 0 <= k < |b.entries| && b.entries[k].key == key
      ensures k == j
    {
      LookupUnique(b.entries, key, k);
    }
    if j < |b.entries| {
      ContentAgrees(a.entries[i].value, b.entries[j].value);
    }
  }

  lemma BoolsCompare(x: bool, y: bool)
    ensures Equals(Bool(x), Bool(y)) == TruthOf(x == y) && (ContentEquals(Bool(x), Bool(y)) <==> x == y)
  {
  }

  lemma MapContentEqual(a: Value, b: Value)
    requires a.Map? && b.Map? && |a.entries| == |b.entries|
    requires forall i | 0 <= i < |a.entries| :: HasMatch(a, i, b.entries)
    ensures ContentEquals(a, b)
  {
  }

  lemma MapContentDiffers(a: Value, b: Value, i: nat)
    requires a.Map? && b.Map? && i < |a.entries| && !HasMatch(a, i, b.entries)
    ensures !ContentEquals(a, b)
  {
  }

  /** With a repeated key the two can disagree: one looks at the first entry only. Nor is the hash comparison
      symmetric then. (The exact condition is in module HashDisagreement.) */
  lemma RepeatedKeysDisagree(a: Value, b: Value)
    requires a == Map([Entry("k", Bool(true)), Entry("k", Bool(true))])
    requires b == Map([Entry("k", Bool(false)), Entry("k", Bool(true))])
    ensures Equals(a, b) == False && ContentEquals(a, b) && !ContentEquals(b, a)
  {
    hide Equals, ContentEquals, SameScalar;
    BoolsCompare(true, false);
    BoolsCompare(true, true);
    BoolsCompare(false, true);
    MapEquals(a, b);
    assert Lookup(b.entries, "k") == 0;
    assert EntryEquals(a.entries[0], b.entries) == False;
    assert a.entries[0].key == b.entries[1].key && a.entries[1].key == b.entries[1].key;
    assert HasMatch(a, 0, b.entries) && HasMatch(a, 1, b.entries);
    MapContentEqual(a, b);
    MapContentDiffers(b, a, 0);
  }
}
