/** Is valueContentEquals the equivalence that hash containers need (row.hpp)? It is reflexive, symmetric and
    transitive each under an exact condition. */
module HashEquality {
  import opened Promotion
  import opened ThreeValued
  import opened Values

  // ---------- reflexivity ----------

  /** No NaN at any depth. */
  predicate NanFree(v: Value)
    decreases v
  {
    match v
    case Float(d) => !d.NaN?
    case List(elements) => forall i | 0 <= i < |elements| :: NanFree(elements[i])
    case Path(elements) => forall i | 0 <= i < |elements| :: NanFree(elements[i])
    case Map(entries) => forall i | 0 <= i < |entries| :: NanFree(entries[i].value)
    case _ => true
  }

  /** A value holding a NaN equals nothing. */
  lemma {:induction false} NanEqualsNothing(a: Value, b: Value)
    requires !NanFree(a)
    ensures !ContentEquals(a, b)
    decreases a
  {
    if (a.List? && b.List?) || (a.Path? && b.Path?) {
      var i :| 0 <= i < |a.elements| && !NanFree(a.elements[i]);
      if |a.elements| == |b.elements| {
        NanEqualsNothing(a.elements[i], b.elements[i]);
      }
    } else if a.Map? && b.Map? {
      var i :| 0 <= i < |a.entries| && !NanFree(a.entries[i].value);
      forall j | 0 <= j < |b.entries|
        ensures !ContentEquals(a.entries[i].value, b.entries[j].value)
      {
        NanEqualsNothing(a.entries[i].value, b.entries[j].value);
      }
      assert !HasMatch(a, i, b.entries);
    }
  }

  /** A value equals itself exactly if it holds no NaN. */
  lemma {:induction false} ReflexiveWithoutNan(a: Value)
    ensures ContentEquals(a, a) <==> NanFree(a)
    decreases a
  {
    if !NanFree(a) {
      NanEqualsNothing(a, a);
    } else if a.List? || a.Path? {
      forall i | 0 <= i < |a.elements|
        ensures ContentEquals(a.elements[i], a.elements[i])
      {
        ReflexiveWithoutNan(a.elements[i]);
      }
    } else if a.Map? {
      forall i | 0 <= i < |a.entries|
        ensures HasMatch(a, i, a.entries)
      {
        ReflexiveWithoutNan(a.entries[i].value);
      }
    }
  }

  /** No integer at any depth is beyond 2^53, where doubles stop telling neighbours apart. */
  predicate Exact(v: Value)
    decreases v
  {
    match v
    case Int(n) => -EXACT <= n <= EXACT
    case List(elements) => forall i | 0 <= i < |elements| :: Exact(elements[i])
    case Path(elements) => forall i | 0 <= i < |elements| :: Exact(elements[i])
    case Map(entries) => forall i | 0 <= i < |entries| :: Exact(entries[i].value)
    case _ => true
  }

  lemma ScalarTransitive(a: Value, b: Value, c: Value)
    requires SameScalar(a, b) && SameScalar(b, c) && Exact(a) && Exact(c)
    ensures SameScalar(a, c)
  {
    hide Promote;
    if a.Int? {
      PromoteExact(a.n);
    }
    if c.Int? {
      PromoteExact(c.n);
    }
  }

  lemma {:induction false} ContentTransitive(a: Value, b: Value, c: Value)
    requires ContentEquals(a, b) && ContentEquals(b, c) && Exact(a) && Exact(c)
    ensures ContentEquals(a, c)
    decreases a
  {
    hide SameScalar;
    if IsNull(a) || IsNull(b) || IsNull(c) {
    } else if (a.List? && b.List?) || (a.Path? && b.Path?) {
      DifferentContainers(b, c);
      forall i | 0 <= i < |a.elements|
        ensures ContentEquals(a.elements[i], c.elements[i])
      {
        ContentTransitive(a.elements[i], b.elements[i], c.elements[i]);
      }
    } else if a.Map? && b.Map? {
      DifferentContainers(b, c);
      forall i | 0 <= i < |a.entries|
        ensures HasMatch(a, i, c.entries)
      {
        assert HasMatch(a, i, b.entries);
        var j :| 0 <= j < |b.entries| && a.entries[i].key == b.entries[j].key
                 && ContentEquals(a.entries[i].value, b.entries[j].value);
        assert HasMatch(b, j, c.entries);
        var k :| 0 <= k < |c.entries| && b.entries[j].key == c.entries[k].key
                 && ContentEquals(b.entries[j].value, c.entries[k].value);
        ContentTransitive(a.entries[i].value, b.entries[j].value, c.entries[k].value);
      }
    } else {
      DifferentContainers(a, b);
      DifferentContainers(b, c);
      ScalarTransitive(a, b, c);
    }
  }

  /** Beyond 2^53 two different integers equal the same double. */
  lemma PromotionBreaksTransitivity(a: Value, b: Value, c: Value)
    requires a == Int(EXACT) && b == Float(Finite(EXACT as real)) && c == Int(EXACT + 1)
    ensures ContentEquals(a, b) && ContentEquals(b, c) && !ContentEquals(a, c)
  {
    PromoteExact(EXACT);
    assert Unit(EXACT + 1) == 2 * Unit((EXACT + 1) / 2) == 2;
    assert (EXACT + 1) / 2 == EXACT / 2 && (EXACT + 1) % 2 == 1;
    assert Promote(EXACT + 1) == EXACT as real;
  }

  // ---------- transitivity ----------

  /** Every integer, at any depth, as the double it is promoted to. */
  function Rounded(v: Value): (r: Value)
    ensures v.List? <==> r.List?
    ensures v.Path? <==> r.Path?
    ensures v.Map? <==> r.Map?
    ensures IsNull(v) <==> IsNull(r)
    ensures !r.Int?
    decreases v
  {
    match v
    case Int(n) => Float(Finite(Promote(n)))
    case List(elements) => List(seq(|elements|, i requires 0 <= i < |elements| => Rounded(elements[i])))
    case Path(elements) => Path(seq(|elements|, i requires 0 <= i < |elements| => Rounded(elements[i])))
    case Map(entries) =>
      Map(seq(|entries|, i requires 0 <= i < |entries| => Entry(entries[i].key, Rounded(entries[i].value))))
    case _ => v
  }

  lemma {:induction false} RoundedIsExact(v: Value)
    ensures Exact(Rounded(v))
    decreases v
  {
    if v.List? || v.Path? {
      forall i | 0 <= i < |v.elements|
        ensures Exact(Rounded(v).elements[i])
      {
        RoundedIsExact(v.elements[i]);
      }
    } else if v.Map? {
      forall i | 0 <= i < |v.entries|
        ensures Exact(Rounded(v).entries[i].value)
      {
        RoundedIsExact(v.entries[i].value);
      }
    }
  }

  /** What rounding does to scalars. */
  lemma ScalarRounded(a: Value, b: Value)
    requires !(a.List? && b.List?) && !(a.Path? && b.Path?) && !(a.Map? && b.Map?)
    ensures SameScalar(a, b) ==> SameScalar(Rounded(a), Rounded(b))
    ensures SameScalar(Rounded(a), Rounded(b)) ==> SameScalar(Rounded(a), b) && SameScalar(a, Rounded(b))
  {
    hide Promote;
  }

  /** Equal values stay equal when both are rounded. */
  lemma {:induction false} RoundBoth(a: Value, b: Value)
    requires ContentEquals(a, b)
    ensures ContentEquals(Rounded(a), Rounded(b))
    decreases a
  {
    hide SameScalar;
    if IsNull(a) || IsNull(b) {
    } else if (a.List? && b.List?) || (a.Path? && b.Path?) {
      forall i | 0 <= i < |a.elements|
        ensures ContentEquals(Rounded(a).elements[i], Rounded(b).elements[i])
      {
        RoundBoth(a.elements[i], b.elements[i]);
      }
    } else if a.Map? && b.Map? {
      forall i | 0 <= i < |a.entries|
        ensures HasMatch(Rounded(a), i, Rounded(b).entries)
      {
        var j := MatchIndex(a, i, b);
        RoundBoth(a.entries[i].value, b.entries[j].value);
        assert Rounded(b).entries[j].key == b.entries[j].key;
      }
      MapContentEqual(Rounded(a), Rounded(b));
    } else {
      ScalarRounded(a, b);
      DifferentContainers(a, b);
    }
  }

  /** The entry of `b` that an entry of `a` is matched with. */
  ghost function MatchIndex(a: Value, i: nat, b: Value): (j: nat)
    requires a.Map? && b.Map? && ContentEquals(a, b) && i < |a.entries|
    ensures j < |b.entries| && a.entries[i].key == b.entries[j].key
            && ContentEquals(a.entries[i].value, b.entries[j].value)
  {
    assert HasMatch(a, i, b.entries);
    var j :| 0 <= j < |b.entries| && a.entries[i].key == b.entries[j].key
             && ContentEquals(a.entries[i].value, b.entries[j].value);
    j
  }

  /** Values whose roundings are equal each equal the other's rounding. */
  lemma {:induction false} UnroundOne(a: Value, b: Value)
    requires ContentEquals(Rounded(a), Rounded(b))
    ensures ContentEquals(a, Rounded(b)) && ContentEquals(Rounded(a), b)
    decreases a
  {
    hide SameScalar;
    if IsNull(a) || IsNull(b) {
    } else if (a.List? && b.List?) || (a.Path? && b.Path?) {
      forall i | 0 <= i < |a.elements|
        ensures ContentEquals(a.elements[i], Rounded(b).elements[i])
        ensures ContentEquals(Rounded(a).elements[i], b.elements[i])
      {
        assert ContentEquals(Rounded(a).elements[i], Rounded(b).elements[i]);
        UnroundOne(a.elements[i], b.elements[i]);
      }
    } else if a.Map? && b.Map? {
      forall i | 0 <= i < |a.entries|
        ensures HasMatch(a, i, Rounded(b).entries) && HasMatch(Rounded(a), i, b.entries)
      {
        var j := MatchIndex(Rounded(a), i, Rounded(b));
        UnroundOne(a.entries[i].value, b.entries[j].value);
        assert Rounded(b).entries[j].key == b.entries[j].key;
      }
      MapContentEqual(a, Rounded(b));
      MapContentEqual(Rounded(a), b);
    } else {
      ScalarRounded(a, b);
      DifferentContainers(Rounded(a), Rounded(b));
    }
  }

  lemma LinkRounds(a: Value, b: Value, c: Value)
    requires ContentEquals(a, b) && ContentEquals(b, c)
    ensures NanFree(a) && ContentEquals(Rounded(a), Rounded(c))
  {
    hide ContentEquals, NanFree, Rounded, Exact;
    if !NanFree(a) {
      NanEqualsNothing(a, b);
    }
    RoundBoth(a, b);
    RoundBoth(b, c);
    RoundedIsExact(a);
    RoundedIsExact(c);
    ContentTransitive(Rounded(a), Rounded(b), Rounded(c));
  }

  lemma RoundingLinks(a: Value, c: Value)
    requires NanFree(a) && ContentEquals(Rounded(a), Rounded(c))
    ensures ContentEquals(a, Rounded(a)) && ContentEquals(Rounded(a), c)
  {
    hide ContentEquals, NanFree, Rounded;
    ReflexiveWithoutNan(a);
    RoundBoth(a, a);
    UnroundOne(a, a);
    UnroundOne(a, c);
  }

  /** Two values are linked by a third exactly if the first holds no NaN and their roundings are equal. */
  lemma LinkedExactly(a: Value, c: Value)
    ensures (exists b :: ContentEquals(a, b) && ContentEquals(b, c))
       <==> NanFree(a) && ContentEquals(Rounded(a), Rounded(c))
  {
    hide ContentEquals, NanFree, Rounded;
    if b :| ContentEquals(a, b) && ContentEquals(b, c) {
      LinkRounds(a, b, c);
    }
    if NanFree(a) && ContentEquals(Rounded(a), Rounded(c)) {
      RoundingLinks(a, c);
    }
  }

  /** So transitivity fails from `a` to `c` exactly if they differ while their roundings are equal. */
  lemma TransitivityFailsExactly(a: Value, c: Value)
    ensures (exists b :: ContentEquals(a, b) && ContentEquals(b, c) && !ContentEquals(a, c))
       <==> NanFree(a) && ContentEquals(Rounded(a), Rounded(c)) && !ContentEquals(a, c)
  {
    hide ContentEquals, NanFree, Rounded;
    LinkedExactly(a, c);
    if NanFree(a) && ContentEquals(Rounded(a), Rounded(c)) && !ContentEquals(a, c) {
      var b :| ContentEquals(a, b) && ContentEquals(b, c);
    }
  }

  // ---------- symmetry ----------

  /** Two entries of one map clash: same key, and values with equal roundings. */
  ghost predicate EntriesClash(v: Value, i: nat, j: nat)
    requires v.Map?
  {
    i < |v.entries| && j < |v.entries| && i != j && v.entries[i].key == v.entries[j].key
    && ContentEquals(Rounded(v.entries[i].value), Rounded(v.entries[j].value))
  }

  /** Some map, at some depth, has two clashing entries. */
  ghost predicate Clash(v: Value)
    decreases v
  {
    match v
    case List(elements) => exists i | 0 <= i < |elements| :: Clash(elements[i])
    case Path(elements) => exists i | 0 <= i < |elements| :: Clash(elements[i])
    case Map(entries) =>
      (exists i | 0 <= i < |entries| :: Clash(entries[i].value)) || (exists i, j :: EntriesClash(v, i, j))
    case _ => false
  }

  lemma {:induction false} UniqueKeysDoNotClash(v: Value)
    requires UniqueKeys(v)
    ensures !Clash(v)
    decreases v
  {
    if v.List? || v.Path? {
      forall i | 0 <= i < |v.elements|
        ensures !Clash(v.elements[i])
      {
        UniqueKeysDoNotClash(v.elements[i]);
      }
    } else if v.Map? {
      forall i | 0 <= i < |v.entries|
        ensures !Clash(v.entries[i].value)
      {
        UniqueKeysDoNotClash(v.entries[i].value);
      }
      forall i: nat, j: nat
        ensures !EntriesClash(v, i, j)
      {
      }
    }
  }

  /** A list of numbers below its length without repetition holds all of them. */
  lemma {:induction false} InjectiveIsOnto(f: seq<nat>, j: nat)
    requires forall i | 0 <= i < |f| :: f[i] < |f|
    requires forall i, k | 0 <= i < k < |f| :: f[i] != f[k]
    requires j < |f|
    ensures j in f
  {
    var image := set i | 0 <= i < |f| :: f[i];
    ImageSize(f, |f|);
    if j !in image {
      SubsetSize(image, Numbers(|f|) - {j});
    }
  }

  function Numbers(n: nat): (r: set<nat>)
    ensures |r| == n && forall i: nat :: i in r <==> i < n
  {
    if n == 0 then {} else Numbers(n - 1) + {n - 1}
  }

  lemma {:induction false} ImageSize(f: seq<nat>, n: nat)
    requires n <= |f| && forall i, k | 0 <= i < k < |f| :: f[i] != f[k]
    ensures |set i | 0 <= i < n :: f[i]| == n
    decreases n
  {
    if n > 0 {
      ImageSize(f, n - 1);
      var before := set i | 0 <= i < n - 1 :: f[i];
      assert (set i | 0 <= i < n :: f[i]) == before + {f[n - 1]};
      assert f[n - 1] !in before;
    }
  }

  /** Which entry of `b` each entry of `a` is matched with. */
  ghost function Matching(a: Value, b: Value): (f: seq<nat>)
    requires a.Map? && b.Map? && ContentEquals(a, b)
    ensures |f| == |a.entries|
    ensures forall i | 0 <= i < |f| :: f[i] < |b.entries| && a.entries[i].key == b.entries[f[i]].key
                                       && ContentEquals(a.entries[i].value, b.entries[f[i]].value)
  {
    seq(|a.entries|, i requires 0 <= i < |a.entries| => MatchIndex(a, i, b))
  }

  /** Without a clash, equality can be turned around. */
  lemma {:induction false} ClashFreeSymmetric(a: Value, b: Value)
    requires ContentEquals(a, b) && !Clash(a)
    ensures ContentEquals(b, a)
    decreases a
  {
    hide SameScalar;
    if IsNull(a) || IsNull(b) {
    } else if (a.List? && b.List?) || (a.Path? && b.Path?) {
      forall i | 0 <= i < |a.elements|
        ensures ContentEquals(b.elements[i], a.elements[i])
      {
        ClashFreeSymmetric(a.elements[i], b.elements[i]);
      }
    } else if a.Map? && b.Map? {
      EntriesSymmetric(a, b);
    } else {
      ScalarSymmetric(a, b);
      DifferentContainers(a, b);
    }
  }

  lemma ScalarSymmetric(a: Value, b: Value)
    requires SameScalar(a, b)
    ensures SameScalar(b, a)
  {
  }

  lemma {:induction false} EntriesSymmetric(a: Value, b: Value)
    requires a.Map? && b.Map? && ContentEquals(a, b) && !Clash(a)
    ensures ContentEquals(b, a)
    decreases a, 1
  {
    hide SameScalar, ContentEquals;
    SameLength(a, b);
    forall j | 0 <= j < |b.entries|
      ensures HasMatch(b, j, a.entries)
    {
      var i := MatchedFrom(a, b, j);
      ClashFreeSymmetric(a.entries[i].value, b.entries[j].value);
    }
    MapContentEqual(b, a);
  }

  /** Without a clash no entry of the right map is matched twice, so each is matched. */
  lemma {:induction false} MatchedFrom(a: Value, b: Value, j: nat) returns (i: nat)
    requires a.Map? && b.Map? && ContentEquals(a, b) && !Clash(a) && j < |b.entries|
    ensures i < |a.entries| && a.entries[i].key == b.entries[j].key
    ensures ContentEquals(a.entries[i].value, b.entries[j].value)
    decreases a, 0
  {
    hide SameScalar, ContentEquals;
    SameLength(a, b);
    var f := Matching(a, b);
    forall p, q | 0 <= p < q < |f|
      ensures f[p] != f[q]
    {
      if f[p] == f[q] {
        ClashFreeSymmetric(a.entries[q].value, b.entries[f[q]].value);
        LinkedClash(a, p, q, b.entries[f[p]].value);
      }
    }
    InjectiveIsOnto(f, j);
    i :| 0 <= i < |f| && f[i] == j;
  }

  lemma SameLength(a: Value, b: Value)
    requires a.Map? && b.Map? && ContentEquals(a, b)
    ensures |a.entries| == |b.entries|
  {
  }

  lemma LinkedClash(a: Value, i: nat, k: nat, w: Value)
    requires a.Map? && i < |a.entries| && k < |a.entries| && i != k && a.entries[i].key == a.entries[k].key
    requires ContentEquals(a.entries[i].value, w) && ContentEquals(w, a.entries[k].value)
    ensures Clash(a)
  {
    LinkedEntries(a, i, k, w);
  }

  lemma ContentSymmetric(a: Value, b: Value)
    requires ContentEquals(a, b) && UniqueKeys(a)
    ensures ContentEquals(b, a)
  {
    UniqueKeysDoNotClash(a);
    ClashFreeSymmetric(a, b);
  }

  // ---------- a clash breaks symmetry ----------

  function Longest(entries: seq<Entry>): (n: nat)
    ensures forall i | 0 <= i < |entries| :: |entries[i].key| <= n
  {
    if entries == [] then 0
    else
      var n := |entries| - 1;
      var rest := Longest(entries[..n]);
      assert forall i | 0 <= i < n :: entries[i] == entries[..n][i];
      if |entries[n].key| > rest then |entries[n].key| else rest
  }

  /** A key that no entry has. */
  function FreshKey(entries: seq<Entry>): (key: string)
    ensures forall i | 0 <= i < |entries| :: entries[i].key != key
  {
    seq(Longest(entries) + 1, _ => 'k')
  }

  /** Both clashing entries of `a` are matched by one entry of `b`, so `b` has room for an entry that `a` lacks. */
  lemma ClashingEntries(a: Value, i: nat, j: nat) returns (b: Value)
    requires NanFree(a) && a.Map? && EntriesClash(a, i, j)
    ensures ContentEquals(a, b) && !ContentEquals(b, a)
  {
    hide SameScalar;
    var w := Rounded(a.entries[j].value);
    var entries := a.entries[i := Entry(a.entries[i].key, w)][j := Entry(FreshKey(a.entries), Null)];
    b := Map(entries);
    forall k | 0 <= k < |a.entries|
      ensures HasMatch(a, k, entries)
    {
      MatchedInClash(a, i, j, k);
      var m := if k == j then i else k;
      assert a.entries[k].key == entries[m].key && ContentEquals(a.entries[k].value, entries[m].value);
    }
    MapContentEqual(a, b);
    assert !HasMatch(b, j, a.entries);
    MapContentDiffers(b, a, j);
  }

  lemma MatchedInClash(a: Value, i: nat, j: nat, k: nat)
    requires NanFree(a) && a.Map? && EntriesClash(a, i, j) && k < |a.entries|
    ensures ContentEquals(a.entries[k].value, a.entries[k].value)
    ensures k == i || k == j ==> ContentEquals(a.entries[k].value, Rounded(a.entries[j].value))
  {
    hide SameScalar, ContentEquals, Rounded;
    ReflexiveWithoutNan(a.entries[k].value);
    if k == i {
      UnroundOne(a.entries[i].value, a.entries[j].value);
    } else if k == j {
      RoundBoth(a.entries[j].value, a.entries[j].value);
      UnroundOne(a.entries[j].value, a.entries[j].value);
    }
  }

  lemma {:induction false} ClashBreaksSymmetry(a: Value) returns (b: Value)
    requires NanFree(a) && Clash(a)
    ensures ContentEquals(a, b) && !ContentEquals(b, a)
    decreases a
  {
    hide SameScalar, ContentEquals, EntriesClash;
    if a.List? || a.Path? {
      var i :| 0 <= i < |a.elements| && Clash(a.elements[i]);
      var x := ClashBreaksSymmetry(a.elements[i]);
      b := WithElement(a, i, x);
      ReplacedElement(a, i, x);
    } else if i, j :| EntriesClash(a, i, j) {
      b := ClashingEntries(a, i, j);
    } else {
      var i :| 0 <= i < |a.entries| && Clash(a.entries[i].value);
      var x := ClashBreaksSymmetry(a.entries[i].value);
      b := Map(a.entries[i := Entry(a.entries[i].key, x)]);
      ReplacedEntry(a, i, x);
    }
  }

  lemma ReplacedElement(a: Value, i: nat, x: Value)
    requires (a.List? || a.Path?) && i < |a.elements| && NanFree(a)
    requires ContentEquals(a.elements[i], x) && !ContentEquals(x, a.elements[i])
    ensures ContentEquals(a, WithElement(a, i, x)) && !ContentEquals(WithElement(a, i, x), a)
  {
    hide SameScalar;
    var b := WithElement(a, i, x);
    forall k | 0 <= k < |a.elements|
      ensures ContentEquals(a.elements[k], b.elements[k])
    {
      ReflexiveWithoutNan(a.elements[k]);
    }
    assert !ContentEquals(b.elements[i], a.elements[i]);
  }

  lemma ReplacedEntry(a: Value, i: nat, x: Value)
    requires a.Map? && i < |a.entries| && NanFree(a) && forall j: nat, k: nat :: !EntriesClash(a, j, k)
    requires ContentEquals(a.entries[i].value, x) && !ContentEquals(x, a.entries[i].value)
    ensures var b := Map(a.entries[i := Entry(a.entries[i].key, x)]); ContentEquals(a, b) && !ContentEquals(b, a)
  {
    hide SameScalar, ContentEquals, EntriesClash, Clash;
    var entries := a.entries[i := Entry(a.entries[i].key, x)];
    var b := Map(entries);
    forall k | 0 <= k < |a.entries|
      ensures HasMatch(a, k, entries)
    {
      ReflexiveWithoutNan(a.entries[k].value);
      assert a.entries[k].key == entries[k].key && ContentEquals(a.entries[k].value, entries[k].value);
    }
    MapContentEqual(a, b);
    forall k | 0 <= k < |a.entries| && a.entries[k].key == entries[i].key
      ensures !ContentEquals(x, a.entries[k].value)
    {
      if k != i && ContentEquals(x, a.entries[k].value) {
        LinkedEntries(a, i, k, x);
      }
    }
    assert !HasMatch(b, i, a.entries);
    MapContentDiffers(b, a, i);
  }

  lemma LinkedEntries(a: Value, i: nat, k: nat, w: Value)
    requires a.Map? && i < |a.entries| && k < |a.entries| && i != k && a.entries[i].key == a.entries[k].key
    requires ContentEquals(a.entries[i].value, w) && ContentEquals(w, a.entries[k].value)
    ensures EntriesClash(a, i, k)
  {
    hide ContentEquals, Rounded;
    LinkedExactly(a.entries[i].value, a.entries[k].value);
  }

  /** A value equals something that does not equal it back exactly if it holds no NaN and, at some depth, a map with
      two entries of one key whose values have equal roundings. */
  lemma SymmetryFailsExactly(a: Value)
    ensures (exists b :: ContentEquals(a, b) && !ContentEquals(b, a)) <==> NanFree(a) && Clash(a)
  {
    hide ContentEquals, NanFree, Clash;
    if b :| ContentEquals(a, b) && !ContentEquals(b, a) {
      if !NanFree(a) {
        NanEqualsNothing(a, b);
      }
      if !Clash(a) {
        ClashFreeSymmetric(a, b);
      }
    }
    if NanFree(a) && Clash(a) {
      var b := ClashBreaksSymmetry(a);
    }
  }
}
