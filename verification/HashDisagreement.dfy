/** When valueContentEquals contradicts a definite answer of valueEquals (row.hpp): the exact condition. */
module HashDisagreement {
  import opened CppArithmetic
  import opened HashEquality
  import opened Promotion
  import opened ThreeValued
  import opened Values

  // ---------- the condition ----------

  /** Two values, not both lists, paths or maps: they differ, or the left one is a double that equals the right one and
      another integer. */
  ghost predicate ScalarsSeparable(u: Value, v: Value) {
    !SameScalar(u, v) || (u.Float? && v.Int? && SharesDouble(v.n))
  }

  ghost predicate HasClash(v: Value)
    requires v.Map?
  {
    exists i, j :: EntriesClash(v, i, j)
  }

  predicate SomeNonNull(entries: seq<Entry>) {
    exists i | 0 <= i < |entries| :: !IsNull(entries[i].value)
  }

  /** Something can equal `u` as a hash key and yet definitely differ from `v`: somewhere the two differ in kind, size,
      keys or scalars, or a map of `u` has a clash, which leaves room for an entry against one of `v`. */
  ghost predicate Separable(u: Value, v: Value)
    decreases u
  {
    if IsNull(u) || IsNull(v) then false
    else if (u.List? && v.List?) || (u.Path? && v.Path?) then
      |u.elements| != |v.elements|
      || exists i | 0 <= i < |u.elements| :: Separable(u.elements[i], v.elements[i])
    else if u.Map? && v.Map? then
      |u.entries| != |v.entries|
      || !(KeysOf(v.entries) <= KeysOf(u.entries))
      || (HasClash(u) && SomeNonNull(v.entries))
      || exists i, j | 0 <= i < |u.entries| && 0 <= j < |v.entries| ::
           u.entries[i].key == v.entries[j].key && Separable(u.entries[i].value, v.entries[j].value)
    else ScalarsSeparable(u, v)
  }

  lemma SeparableElements(u: Value, v: Value, i: nat)
    requires ((u.List? && v.List?) || (u.Path? && v.Path?)) && i < |u.elements| == |v.elements|
    requires Separable(u.elements[i], v.elements[i])
    ensures Separable(u, v)
  {
  }

  lemma SeparableEntries(u: Value, i: nat, v: Value, j: nat)
    requires u.Map? && v.Map? && i < |u.entries| && j < |v.entries| && u.entries[i].key == v.entries[j].key
    requires Separable(u.entries[i].value, v.entries[j].value)
    ensures Separable(u, v)
  {
  }

  lemma SeparableMaps(u: Value, v: Value)
    requires u.Map? && v.Map?
    requires |u.entries| != |v.entries| || !(KeysOf(v.entries) <= KeysOf(u.entries))
             || (HasClash(u) && SomeNonNull(v.entries))
    ensures Separable(u, v)
  {
  }

  /** One way or another, one of two values can be separated from the other, or from itself. */
  ghost predicate SomeSeparable(x: Value, y: Value) {
    Separable(x, y) || Separable(y, x) || Separable(x, x) || Separable(y, y)
  }

  // ---------- the condition is sufficient ----------

  lemma ScalarSeparated(u: Value, v: Value) returns (w: Value)
    requires NanFree(u) && !IsNull(u) && !IsNull(v) && ScalarsSeparable(u, v)
    requires !(u.List? && v.List?) && !(u.Path? && v.Path?) && !(u.Map? && v.Map?)
    ensures ContentEquals(u, w) && Equals(v, w) == False
  {
    hide Promote;
    if !SameScalar(u, v) {
      w := u;
      ReflexiveWithoutNan(u);
      if SameScalar(v, u) {
        ScalarSymmetric(v, u);
      }
    } else {
      w := Int(if v.n > INT64_MIN && Promote(v.n - 1) == Promote(v.n) then v.n - 1 else v.n + 1);
    }
  }

  lemma DifferentSizes(u: Value, v: Value)
    requires (u.List? && v.List?) || (u.Path? && v.Path?)
    requires |u.elements| != |v.elements|
    ensures Equals(v, u) == False
  {
  }

  lemma ElementSeparates(u: Value, v: Value, i: nat, x: Value)
    requires ((u.List? && v.List?) || (u.Path? && v.Path?)) && i < |u.elements| == |v.elements| && NanFree(u)
    requires ContentEquals(u.elements[i], x) && Equals(v.elements[i], x) == False
    ensures ContentEquals(u, WithElement(u, i, x)) && Equals(v, WithElement(u, i, x)) == False
  {
    hide SameScalar;
    var w := WithElement(u, i, x);
    forall k | 0 <= k < |u.elements|
      ensures ContentEquals(u.elements[k], w.elements[k])
    {
      ReflexiveWithoutNan(u.elements[k]);
    }
    assert Equals(v.elements[i], w.elements[i]) == False;
  }

  /** The first entry decides, for the keys it has. */
  lemma FrontDecides(v: Value, m: nat, w: Value)
    requires v.Map? && w.Map? && |v.entries| == |w.entries| && m < |v.entries|
    requires w.entries[0].key == v.entries[m].key && Equals(v.entries[m].value, w.entries[0].value) == False
    ensures Equals(v, w) == False
  {
    hide Equals;
    MapEquals(v, w);
    assert EntryEquals(v.entries[m], w.entries) == False;
  }

  /** `entries` with one of them given a new value and moved to the front. */
  function Promoted(entries: seq<Entry>, i: nat, x: Value): (r: seq<Entry>)
    requires i < |entries|
    ensures |r| == |entries| && r[0] == Entry(entries[i].key, x)
    ensures forall k | 0 <= k < |entries| && k != i :: entries[k] == r[if k < i then k + 1 else k]
  {
    [Entry(entries[i].key, x)] + entries[..i] + entries[i + 1..]
  }

  lemma PromotedMatches(u: Value, i: nat, x: Value)
    requires u.Map? && i < |u.entries| && NanFree(u) && ContentEquals(u.entries[i].value, x)
    ensures ContentEquals(u, Map(Promoted(u.entries, i, x)))
  {
    hide ContentEquals;
    var w := Map(Promoted(u.entries, i, x));
    forall k | 0 <= k < |u.entries|
      ensures HasMatch(u, k, w.entries)
    {
      ReflexiveWithoutNan(u.entries[k].value);
      var j := if k == i then 0 else if k < i then k + 1 else k;
      assert u.entries[k].key == w.entries[j].key && ContentEquals(u.entries[k].value, w.entries[j].value);
    }
    MapContentEqual(u, w);
  }

  /** One entry takes the place of two clashing ones, and the room this leaves is used for another at the front. */
  lemma RoomAtFront(u: Value, i: nat, j: nat, extra: Entry) returns (w: Value)
    requires u.Map? && NanFree(u) && EntriesClash(u, i, j)
    ensures ContentEquals(u, w) && w.Map? && |w.entries| == |u.entries| && w.entries[0] == extra
  {
    hide ContentEquals, Rounded, NanFree;
    var joint := Entry(u.entries[i].key, Rounded(u.entries[j].value));
    var rest := u.entries[i := joint];
    w := Map([extra] + rest[..j] + rest[j + 1..]);
    forall k | 0 <= k < |u.entries|
      ensures HasMatch(u, k, w.entries)
    {
      MatchedInClash(u, i, j, k);
      var place := if k == j then i else k;
      var p := if place < j then place + 1 else place;
      assert w.entries[p] == rest[place];
      assert u.entries[k].key == w.entries[p].key && ContentEquals(u.entries[k].value, w.entries[p].value);
    }
    MapContentEqual(u, w);
  }

  lemma OtherBool(v: Value) returns (x: Value)
    requires !IsNull(v)
    ensures Equals(v, x) == False
  {
    x := Bool(v == Bool(false));
  }

  lemma NotContained(u: Value, v: Value)
    requires u.Map? && v.Map? && |u.entries| == |v.entries| && !(KeysOf(v.entries) <= KeysOf(u.entries))
    ensures Equals(v, u) == False
  {
    MissingKey(v, u);
  }

  lemma DifferentCounts(u: Value, v: Value)
    requires u.Map? && v.Map? && |u.entries| != |v.entries|
    ensures Equals(v, u) == False
  {
  }

  lemma {:induction false} Separate(u: Value, v: Value) returns (w: Value)
    requires NanFree(u) && Separable(u, v)
    ensures ContentEquals(u, w) && Equals(v, w) == False
    decreases u
  {
    hide ContentEquals, Equals, SameScalar, KeysOf, EntriesClash;
    if (u.List? && v.List?) || (u.Path? && v.Path?) {
      if |u.elements| != |v.elements| {
        w := u;
        ReflexiveWithoutNan(u);
        DifferentSizes(u, v);
      } else {
        var i :| 0 <= i < |u.elements| && Separable(u.elements[i], v.elements[i]);
        var x := Separate(u.elements[i], v.elements[i]);
        w := WithElement(u, i, x);
        ElementSeparates(u, v, i, x);
      }
    } else if u.Map? && v.Map? {
      w := SeparateMaps(u, v);
    } else {
      w := ScalarSeparated(u, v);
    }
  }

  lemma {:induction false} SeparateMaps(u: Value, v: Value) returns (w: Value)
    requires u.Map? && v.Map? && NanFree(u) && Separable(u, v)
    ensures ContentEquals(u, w) && Equals(v, w) == False
    decreases u, 0
  {
    hide ContentEquals, Equals, SameScalar, KeysOf, EntriesClash;
    ReflexiveWithoutNan(u);
    w := u;
    if |u.entries| != |v.entries| {
      DifferentCounts(u, v);
    } else if !(KeysOf(v.entries) <= KeysOf(u.entries)) {
      NotContained(u, v);
    } else if HasClash(u) && SomeNonNull(v.entries) {
      var i, j :| EntriesClash(u, i, j);
      var m :| 0 <= m < |v.entries| && !IsNull(v.entries[m].value);
      var x := OtherBool(v.entries[m].value);
      w := RoomAtFront(u, i, j, Entry(v.entries[m].key, x));
      FrontDecides(v, m, w);
    } else {
      var i, j :| 0 <= i < |u.entries| && 0 <= j < |v.entries|
                  && u.entries[i].key == v.entries[j].key && Separable(u.entries[i].value, v.entries[j].value);
      var x := Separate(u.entries[i].value, v.entries[j].value);
      w := Map(Promoted(u.entries, i, x));
      PromotedMatches(u, i, x);
      FrontDecides(v, j, w);
    }
  }

  // ---------- the condition is necessary ----------

  /** Two values that equal a third one have equal roundings, unless one of them can be separated. */
  lemma {:induction false} JoinedValues(x: Value, y: Value, w: Value)
    requires ContentEquals(x, w) && ContentEquals(y, w)
    ensures ContentEquals(Rounded(x), Rounded(y)) || SomeSeparable(x, y)
    decreases w
  {
    hide SameScalar, Separable;
    if IsNull(w) {
    } else if w.List? || w.Path? {
      DifferentContainers(x, w);
      DifferentContainers(y, w);
      forall i | 0 <= i < |w.elements| && !SomeSeparable(x, y)
        ensures ContentEquals(Rounded(x).elements[i], Rounded(y).elements[i])
      {
        JoinedValues(x.elements[i], y.elements[i], w.elements[i]);
        if SomeSeparable(x.elements[i], y.elements[i]) {
          JoinedElements(x, y, i);
        }
      }
    } else if w.Map? {
      DifferentContainers(x, w);
      DifferentContainers(y, w);
      JoinedMaps(x, y, w);
    } else {
      DifferentContainers(x, w);
      DifferentContainers(y, w);
      JoinedScalars(x, y, w);
    }
  }

  lemma JoinedElements(x: Value, y: Value, i: nat)
    requires ((x.List? && y.List?) || (x.Path? && y.Path?)) && i < |x.elements| == |y.elements|
    requires SomeSeparable(x.elements[i], y.elements[i])
    ensures SomeSeparable(x, y)
  {
    hide Separable;
    var p, q := x.elements[i], y.elements[i];
    if Separable(p, q) {
      SeparableElements(x, y, i);
    } else if Separable(q, p) {
      SeparableElements(y, x, i);
    } else if Separable(p, p) {
      SeparableElements(x, x, i);
    } else {
      SeparableElements(y, y, i);
    }
  }

  lemma JoinedEntries(x: Value, i: nat, y: Value, j: nat)
    requires x.Map? && y.Map? && i < |x.entries| && j < |y.entries| && x.entries[i].key == y.entries[j].key
    requires SomeSeparable(x.entries[i].value, y.entries[j].value)
    ensures SomeSeparable(x, y)
  {
    hide Separable;
    var p, q := x.entries[i].value, y.entries[j].value;
    if Separable(p, q) {
      SeparableEntries(x, i, y, j);
    } else if Separable(q, p) {
      SeparableEntries(y, j, x, i);
    } else if Separable(p, p) {
      SeparableEntries(x, i, x, i);
    } else {
      SeparableEntries(y, j, y, j);
    }
  }

  lemma JoinedScalars(x: Value, y: Value, w: Value)
    requires SameScalar(x, w) && SameScalar(y, w)
    requires !(w.List? || w.Path? || w.Map? || IsNull(w))
    ensures ContentEquals(Rounded(x), Rounded(y))
  {
    hide Promote;
  }

  /** A map whose entries match those of another one to one, or that can be separated from itself. */
  lemma {:induction false} MatchingIsOnto(x: Value, w: Value, j: nat) returns (i: nat)
    requires x.Map? && w.Map? && ContentEquals(x, w) && j < |w.entries|
    requires !HasClash(x) && !Separable(x, x)
    ensures i < |x.entries| && x.entries[i].key == w.entries[j].key
    ensures ContentEquals(x.entries[i].value, w.entries[j].value)
    decreases w, 1
  {
    hide ContentEquals, Separable, EntriesClash;
    SameLength(x, w);
    var f := Matching(x, w);
    forall p, q | 0 <= p < q < |f|
      ensures f[p] != f[q]
    {
      if f[p] == f[q] {
        SharedMatch(x, p, q, w, f[p]);
      }
    }
    InjectiveIsOnto(f, j);
    i :| 0 <= i < |f| && f[i] == j;
  }

  /** Two entries matched with the same one clash, or can be separated. */
  lemma {:induction false} SharedMatch(x: Value, p: nat, q: nat, w: Value, j: nat)
    requires x.Map? && w.Map? && p < |x.entries| && q < |x.entries| && p != q && j < |w.entries|
    requires x.entries[p].key == x.entries[q].key
    requires ContentEquals(x.entries[p].value, w.entries[j].value)
    requires ContentEquals(x.entries[q].value, w.entries[j].value)
    ensures EntriesClash(x, p, q) || Separable(x, x)
    decreases w, 0
  {
    hide ContentEquals, Separable;
    JoinedValues(x.entries[p].value, x.entries[q].value, w.entries[j].value);
    if SomeSeparable(x.entries[p].value, x.entries[q].value) {
      JoinedEntries(x, p, x, q);
    }
  }

  lemma {:induction false} JoinedMaps(x: Value, y: Value, w: Value)
    requires x.Map? && y.Map? && w.Map? && ContentEquals(x, w) && ContentEquals(y, w)
    ensures ContentEquals(Rounded(x), Rounded(y)) || SomeSeparable(x, y)
    decreases w, 2
  {
    hide ContentEquals, Separable, EntriesClash, KeysOf, SomeNonNull;
    SameLength(x, w);
    SameLength(y, w);
    if !SomeSeparable(x, y) {
      if HasClash(x) || HasClash(y) {
        NothingButNulls(x, y);
      } else {
        forall i | 0 <= i < |x.entries|
          ensures HasMatch(Rounded(x), i, Rounded(y).entries)
        {
          var j := MatchIndex(x, i, w);
          var k := MatchingIsOnto(y, w, j);
          JoinedValues(x.entries[i].value, y.entries[k].value, w.entries[j].value);
          if SomeSeparable(x.entries[i].value, y.entries[k].value) {
            JoinedEntries(x, i, y, k);
          }
          RoundedMatch(x, i, y, k);
        }
        RoundedSizes(x);
        RoundedSizes(y);
        MapContentEqual(Rounded(x), Rounded(y));
      }
    }
  }

  lemma RoundedSizes(x: Value)
    requires x.Map?
    ensures |Rounded(x).entries| == |x.entries|
  {
  }

  lemma RoundedMatch(x: Value, i: nat, y: Value, k: nat)
    requires x.Map? && y.Map? && i < |x.entries| && k < |y.entries| && x.entries[i].key == y.entries[k].key
    requires ContentEquals(Rounded(x.entries[i].value), Rounded(y.entries[k].value))
    ensures i < |Rounded(x).entries| && HasMatch(Rounded(x), i, Rounded(y).entries)
  {
    hide ContentEquals;
    assert Rounded(y).entries[k].key == y.entries[k].key;
  }

  /** Clashes that separate nothing are clashes of nulls in maps without anything else. */
  lemma NothingButNulls(x: Value, y: Value)
    requires x.Map? && y.Map? && |x.entries| == |y.entries| && (HasClash(x) || HasClash(y)) && !SomeSeparable(x, y)
    ensures ContentEquals(Rounded(x), Rounded(y))
  {
    hide ContentEquals, Separable, EntriesClash;
    AllNull(x, y);
    AllNull(y, x);
    forall i | 0 <= i < |x.entries|
      ensures HasMatch(Rounded(x), i, Rounded(y).entries)
    {
      assert x.entries[i].key in KeysOf(y.entries);
      var k :| 0 <= k < |y.entries| && y.entries[k].key == x.entries[i].key;
      NullsEqual(Rounded(x.entries[i].value), Rounded(y.entries[k].value));
      RoundedMatch(x, i, y, k);
    }
    RoundedSizes(x);
    RoundedSizes(y);
    MapContentEqual(Rounded(x), Rounded(y));
  }

  lemma AllNull(x: Value, y: Value)
    requires x.Map? && y.Map? && |x.entries| == |y.entries| && (HasClash(x) || HasClash(y)) && !SomeSeparable(x, y)
    ensures !SomeNonNull(x.entries) && KeysOf(x.entries) <= KeysOf(y.entries)
  {
    hide Separable, KeysOf, SomeNonNull, HasClash;
    if !(KeysOf(x.entries) <= KeysOf(y.entries)) {
      SeparableMaps(y, x);
    }
    if SomeNonNull(x.entries) {
      if HasClash(x) {
        SeparableMaps(x, x);
      } else {
        SeparableMaps(y, x);
      }
    }
  }

  lemma NullsEqual(x: Value, y: Value)
    requires IsNull(x) && IsNull(y)
    ensures ContentEquals(x, y)
  {
  }

  /** What equals `u` and definitely differs from `v` shows that `u` can be separated, from `v` or from itself. */
  lemma {:induction false} Separated(u: Value, v: Value, w: Value)
    requires ContentEquals(u, w) && Equals(v, w) == False
    ensures Separable(u, v) || Separable(u, u)
    decreases w
  {
    hide SameScalar, Separable;
    if (u.List? && v.List?) || (u.Path? && v.Path?) {
      DifferentContainers(u, w);
      if |u.elements| != |v.elements| {
        SeparableSizes(u, v);
      } else {
        var i :| 0 <= i < |v.elements| && Equals(v.elements[i], w.elements[i]) == False;
        Separated(u.elements[i], v.elements[i], w.elements[i]);
        if Separable(u.elements[i], v.elements[i]) {
          SeparableElements(u, v, i);
        } else {
          SeparableElements(u, u, i);
        }
      }
    } else if u.Map? && v.Map? {
      DifferentContainers(u, w);
      SeparatedMaps(u, v, w);
    } else {
      SeparatedScalars(u, v, w);
    }
  }

  lemma SeparableSizes(u: Value, v: Value)
    requires ((u.List? && v.List?) || (u.Path? && v.Path?)) && |u.elements| != |v.elements|
    ensures Separable(u, v)
  {
  }

  lemma SeparatedScalars(u: Value, v: Value, w: Value)
    requires ContentEquals(u, w) && Equals(v, w) == False
    requires !(u.List? && v.List?) && !(u.Path? && v.Path?) && !(u.Map? && v.Map?)
    ensures Separable(u, v)
  {
    hide Promote;
    if SameScalar(u, v) {
      assert u.Float? && v.Int? && w.Int?;
      SharesDoubleExactly(v.n);
    }
  }

  lemma {:induction false} SeparatedMaps(u: Value, v: Value, w: Value)
    requires u.Map? && v.Map? && w.Map? && ContentEquals(u, w) && Equals(v, w) == False
    ensures Separable(u, v) || Separable(u, u)
    decreases w, 1
  {
    hide ContentEquals, Separable, EntriesClash, KeysOf;
    SameLength(u, w);
    if |u.entries| != |v.entries| || !(KeysOf(v.entries) <= KeysOf(u.entries)) {
      SeparableMaps(u, v);
    } else if !Separable(u, u) {
      MapEquals(v, w);
      hide Equals;
      var m :| 0 <= m < |v.entries| && EntryEquals(v.entries[m], w.entries) == False;
      var j := FoundKey(u, v, m, w);
      DefiniteIsNotNull(v.entries[m].value, w.entries[j].value);
      if HasClash(u) {
        SeparableMaps(u, v);
      } else {
        var i := MatchingIsOnto(u, w, j);
        Separated(u.entries[i].value, v.entries[m].value, w.entries[j].value);
        if Separable(u.entries[i].value, v.entries[m].value) {
          SeparableEntries(u, i, v, m);
        } else {
          SeparableEntries(u, i, u, i);
        }
      }
    }
  }

  lemma DefiniteIsNotNull(x: Value, y: Value)
    requires Equals(x, y) == False
    ensures !IsNull(x) && !IsNull(y)
  {
  }

  /** The keys of `v` are keys of `u`, hence of what equals it. */
  lemma FoundKey(u: Value, v: Value, m: nat, w: Value) returns (j: nat)
    requires u.Map? && v.Map? && w.Map? && ContentEquals(u, w) && m < |v.entries|
    requires KeysOf(v.entries) <= KeysOf(u.entries) && EntryEquals(v.entries[m], w.entries) == False
    ensures j < |w.entries| && w.entries[j].key == v.entries[m].key
    ensures Equals(v.entries[m].value, w.entries[j].value) == False
  {
    hide ContentEquals, Equals;
    assert v.entries[m].key in KeysOf(u.entries);
    var i :| 0 <= i < |u.entries| && u.entries[i].key == v.entries[m].key;
    var k := MatchIndex(u, i, w);
    j := Lookup(w.entries, v.entries[m].key);
    assert w.entries[k].key == v.entries[m].key;
  }

  // ---------- the theorem ----------

  /** Some value equals `a` as a hash key although the query comparison says that `a` definitely differs from it,
      exactly if `a` holds no NaN and can be separated from itself. */
  lemma DisagreesExactly(a: Value)
    ensures (exists b :: ContentEquals(a, b) && Equals(a, b) == False) <==> NanFree(a) && Separable(a, a)
  {
    hide ContentEquals, Equals, NanFree, Separable;
    if b :| ContentEquals(a, b) && Equals(a, b) == False {
      if !NanFree(a) {
        NanEqualsNothing(a, b);
      }
      Separated(a, a, b);
    }
    if NanFree(a) && Separable(a, a) {
      var b := Separate(a, a);
    }
  }
}
