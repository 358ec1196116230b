/** Range and prefix scans over an ordered table (wt_table_ops.cpp). The storage engine's cursor is an index into the
    sorted table; where the engine may answer in several ways, or fail, so does the model. */
module RangeScan {
  import opened Lists

  type Byte = n: int | 0 <= n < 256

  type Bytes = seq<Byte>

  datatype Entry = Entry(key: Bytes, value: Bytes)

  /** The order of keys: byte by byte, a proper prefix first. */
  predicate Less(a: Bytes, b: Bytes) {
    b != [] && (a == [] || a[0] < b[0] || (a[0] == b[0] && Less(a[1..], b[1..])))
  }

  lemma {:induction false} LessTotal(a: Bytes, b: Bytes)
    ensures Less(a, b) || a == b || Less(b, a)
    ensures !(Less(a, b) && Less(b, a)) && !Less(a, a)
    decreases |a|
  {
    if a != [] {
      LessTotal(a[1..], a[1..]);
    }
    if a != [] && b != [] {
      LessTotal(a[1..], b[1..]);
      assert a == [a[0]] + a[1..] && b == [b[0]] + b[1..];
    }
  }

  lemma {:induction false} LessTransitive(a: Bytes, b: Bytes, c: Bytes)
    requires Less(a, b) && Less(b, c)
    ensures Less(a, c)
    decreases |a|
  {
    if a != [] && a[0] == b[0] == c[0] {
      LessTransitive(a[1..], b[1..], c[1..]);
    }
  }

  lemma LessMixed(a: Bytes, b: Bytes, c: Bytes)
    ensures !Less(b, a) && Less(b, c) ==> Less(a, c)
    ensures Less(a, b) && !Less(c, b) ==> Less(a, c)
  {
    LessTotal(a, b);
    LessTotal(b, c);
    if Less(a, b) && Less(b, c) {
      LessTransitive(a, b, c);
    }
  }

  predicate Sorted(table: seq<Entry>) {
    forall i, j | 0 <= i < j < |table| :: Less(table[i].key, table[j].key)
  }

  // ---------- what a scan should visit ----------

  predicate AfterStart(key: Bytes, start: Bytes, exclusive: bool) {
    start == [] || (if exclusive then Less(start, key) else !Less(key, start))
  }

  predicate BeforeEnd(key: Bytes, end: Bytes, view: Bytes -> Bytes) {
    end == [] || Less(view(key), end)
  }

  /** The entries in the range, by a pass over the whole table. */
  function InRange(table: seq<Entry>, start: Bytes, exclusive: bool, end: Bytes, view: Bytes -> Bytes): seq<Entry> {
    if table == [] then []
    else
      (if AfterStart(table[0].key, start, exclusive) && BeforeEnd(table[0].key, end, view) then [table[0]] else [])
      + InRange(table[1..], start, exclusive, end, view)
  }

  /** The entries whose key has a prefix. */
  function WithPrefix(table: seq<Entry>, prefix: Bytes): seq<Entry> {
    if table == [] then []
    else (if prefix <= table[0].key then [table[0]] else []) + WithPrefix(table[1..], prefix)
  }

  /** The calls a callback receives: it answers from all calls so far, and a false answer is the last call. */
  function Calls(seen: seq<Entry>, entries: seq<Entry>, accept: seq<Entry> -> bool): (calls: seq<Entry>)
    ensures calls <= entries
    decreases |entries|
  {
    if entries == [] then []
    else
      var now := seen + [entries[0]];
      if accept(now) then [entries[0]] + Calls(now, entries[1..], accept) else [entries[0]]
  }

  /** The view respects the order of the table's keys. */
  ghost predicate Monotone(table: seq<Entry>, view: Bytes -> Bytes) {
    forall i, j | 0 <= i < j < |table| :: !Less(view(table[j].key), view(table[i].key))
  }

  // ---------- the cursor ----------

  const WT_NOTFOUND := -31803
  const EINVAL := 22

  /** An error code of the engine, or zero. */
  method Fault() returns (ret: int)
    ensures ret != WT_NOTFOUND
  {
    ret := *;
    if ret == WT_NOTFOUND {
      ret := 0;
    }
  }

  /** The first index whose key is not below. */
  function LowerBound(table: seq<Entry>, key: Bytes): (i: nat)
    ensures i <= |table|
    ensures forall j | 0 <= j < i :: Less(table[j].key, key)
    ensures i < |table| ==> !Less(table[i].key, key)
  {
    if table == [] || !Less(table[0].key, key) then 0 else 1 + LowerBound(table[1..], key)
  }

  /** `at` is -1 before the first entry. */
  class Cursor {
    const table: seq<Entry>
    var at: int

    ghost predicate Valid()
      reads this
    {
      Sorted(table) && -1 <= at < |table|
    }

    constructor (table: seq<Entry>)
      requires Sorted(table)
      ensures Valid() && this.table == table && at == -1
    {
      this.table := table;
      at := -1;
    }

    method Reset() returns (ret: int)
      requires Valid()
      modifies this
      ensures Valid() && ret != WT_NOTFOUND
      ensures ret == 0 ==> at == -1
    {
      ret := Fault();
      if ret == 0 { at := -1; }
    }

    method Next() returns (ret: int)
      requires Valid()
      modifies this
      ensures Valid()
      ensures ret == WT_NOTFOUND ==> old(at) == |table| - 1
      ensures ret == 0 ==> at == old(at) + 1
    {
      ret := Fault();
      if ret == 0 {
        if at + 1 == |table| {
          ret := WT_NOTFOUND;
        } else {
          at := at + 1;
        }
      }
    }

    /** The exact key if it is there, otherwise either neighbour. */
    method SearchNear(key: Bytes) returns (ret: int, cmp: int)
      requires Valid()
      modifies this
      ensures Valid()
      ensures ret == WT_NOTFOUND ==> table == []
      ensures ret == 0 ==> 0 <= at
      ensures ret == 0 && cmp == 0 ==> table[at].key == key
      ensures ret == 0 && cmp < 0 ==> Less(table[at].key, key) && (at + 1 < |table| ==> Less(key, table[at + 1].key))
      ensures ret == 0 && cmp > 0 ==> Less(key, table[at].key) && (at > 0 ==> Less(table[at - 1].key, key))
    {
      ret := Fault();
      cmp := 0;
      if ret == 0 {
        var i := LowerBound(table, key);
        var left: bool := *;
        if i < |table| {
          LessTotal(table[i].key, key);
        }
        if table == [] {
          ret := WT_NOTFOUND;
        } else if i < |table| && table[i].key == key {
          at := i;
        } else if i == |table| || (i > 0 && left) {
          at := i - 1;
          cmp :| cmp < 0;
        } else {
          at := i;
          cmp :| cmp > 0;
        }
      }
    }
  }

  // ---------- the scans ----------

  /** Where a scan starts. */
  function FirstAfter(table: seq<Entry>, start: Bytes, exclusive: bool): (i: nat)
    ensures i <= |table|
    ensures forall j | 0 <= j < i :: !AfterStart(table[j].key, start, exclusive)
    ensures i < |table| ==> AfterStart(table[i].key, start, exclusive)
  {
    if table == [] || AfterStart(table[0].key, start, exclusive) then 0 else 1 + FirstAfter(table[1..], start, exclusive)
  }

  /** What a scan walks over: it stops at the first key whose view is not before the end. */
  function TakeBefore(entries: seq<Entry>, end: Bytes, view: Bytes -> Bytes): seq<Entry> {
    if entries == [] || !BeforeEnd(entries[0].key, end, view) then []
    else [entries[0]] + TakeBefore(entries[1..], end, view)
  }

  function Walk(table: seq<Entry>, start: Bytes, exclusive: bool, end: Bytes, view: Bytes -> Bytes): seq<Entry> {
    TakeBefore(table[FirstAfter(table, start, exclusive)..], end, view)
  }

  /** In a sorted table one index separates the keys before the start from the others. */
  lemma StartsAt(table: seq<Entry>, start: Bytes, exclusive: bool, i: nat)
    requires Sorted(table) && start != [] && i <= |table|
    requires i > 0 ==> !AfterStart(table[i - 1].key, start, exclusive)
    requires i < |table| ==> AfterStart(table[i].key, start, exclusive)
    ensures FirstAfter(table, start, exclusive) == i
  {
    hide Less;
    var k := FirstAfter(table, start, exclusive);
    if k < i {
      if k < i - 1 {
        LaterIsAfter(table[k].key, table[i - 1].key, start, exclusive);
      }
      assert false;
    }
  }

  lemma LaterIsAfter(key: Bytes, later: Bytes, start: Bytes, exclusive: bool)
    requires Less(key, later) && AfterStart(key, start, exclusive)
    ensures AfterStart(later, start, exclusive)
  {
    LessTotal(later, start);
    LessMixed(start, key, later);
    LessTotal(start, later);
    if exclusive && start != [] {
      LessTransitive(start, key, later);
    }
  }

  /** The first half of scanRangeWithCursor: the cursor goes to where the range starts. */
  method Position(c: Cursor, start: Bytes, exclusive: bool) returns (ret: int)
    requires c.Valid()
    modifies c
    ensures c.Valid()
    ensures ret == WT_NOTFOUND ==> FirstAfter(c.table, start, exclusive) == |c.table|
    ensures ret == 0 ==> c.at == FirstAfter(c.table, start, exclusive)
  {
    hide Less, FirstAfter;
    if start != [] {
      var cmp;
      ret, cmp := c.SearchNear(start);
      if ret == WT_NOTFOUND {
        NothingToTake(c.table, start, exclusive);
      }
      if ret != 0 {
        return;
      }
      NearIndex(c.table, start, exclusive, c.at, cmp);
      if if exclusive then cmp <= 0 else cmp < 0 {
        ret := c.Next();
      }
    } else {
      StartsAtHead(c.table, exclusive);
      ret := c.Reset();
      if ret != 0 {
        return;
      }
      ret := c.Next();
    }
  }

  /** scanRangeWithCursor; WT_NOTFOUND is a normal end. */
  method ScanRange(c: Cursor?, start: Bytes, exclusive: bool, end: Bytes, endKeyView: Option<Bytes -> Bytes>,
                   accept: seq<Entry> -> bool) returns (ret: int, calls: seq<Entry>)
    requires c != null ==> c.Valid()
    modifies c
    ensures c != null ==> c.Valid()
    ensures ret != WT_NOTFOUND && (c == null ==> ret == EINVAL && calls == [])
    ensures c != null ==>
      var all := Calls([], Walk(c.table, start, exclusive, end, ViewOf(endKeyView)), accept);
      calls <= all && (ret == 0 ==> calls == all)
  {
    hide Less, FirstAfter, TakeBefore, Calls, Walk, ViewOf, Remaining;
    calls := [];
    if c == null {
      return EINVAL, [];
    }
    var view := ViewOf(endKeyView);
    ret := Position(c, start, exclusive);
    ghost var all := Calls([], Walk(c.table, start, exclusive, end, view), accept);
    BeforeFirstCall(c.table, start, exclusive, end, view, accept);
    if ret == WT_NOTFOUND {
      return 0, calls;
    }
    if ret != 0 {
      return;
    }
    while true
      invariant c.Valid() && c.at >= 0 && ret == 0
      invariant Remaining(c.table, c.at, calls, end, view, accept, all)
      decreases |c.table| - c.at
    {
      NextCall(c.table, c.at, calls, end, view, accept, all);
      ret := Fault();
      if ret != 0 {
        return;
      }
      var key := c.table[c.at].key;
      if end != [] && !Less(view(key), end) {
        return 0, calls;
      }
      ret := Fault();
      if ret != 0 {
        return;
      }
      calls := calls + [c.table[c.at]];
      if !accept(calls) {
        return 0, calls;
      }
      ret := c.Next();
      if ret == WT_NOTFOUND {
        return 0, calls;
      }
      if ret != 0 {
        return;
      }
    }
  }

  /** At index `at`, after `calls`, the calls still to come complete `all`. */
  ghost predicate Remaining(table: seq<Entry>, at: nat, calls: seq<Entry>, end: Bytes, view: Bytes -> Bytes,
                            accept: seq<Entry> -> bool, all: seq<Entry>) {
    at <= |table| && all == calls + Calls(calls, TakeBefore(table[at..], end, view), accept)
  }

  lemma BeforeFirstCall(table: seq<Entry>, start: Bytes, exclusive: bool, end: Bytes, view: Bytes -> Bytes,
                        accept: seq<Entry> -> bool)
    ensures var all := Calls([], Walk(table, start, exclusive, end, view), accept);
            var first := FirstAfter(table, start, exclusive);
            Remaining(table, first, [], end, view, accept, all) && (first == |table| ==> all == [])
  {
    hide FirstAfter;
    var all := Calls([], Walk(table, start, exclusive, end, view), accept);
    assert [] + all == all;
    assert table[|table|..] == [];
  }

  lemma NextCall(table: seq<Entry>, at: nat, calls: seq<Entry>, end: Bytes, view: Bytes -> Bytes,
                 accept: seq<Entry> -> bool, all: seq<Entry>)
    requires at < |table| && Remaining(table, at, calls, end, view, accept, all)
    ensures calls <= all
    ensures !BeforeEnd(table[at].key, end, view) ==> calls == all
    ensures BeforeEnd(table[at].key, end, view) ==>
      var now := calls + [table[at]];
      && now <= all
      && (!accept(now) ==> now == all)
      && (accept(now) ==> Remaining(table, at + 1, now, end, view, accept, all))
      && (at + 1 == |table| ==> now == all)
  {
    hide BeforeEnd;
    TakeHead(table, at, end, view);
    if BeforeEnd(table[at].key, end, view) {
      CallsHead(calls, table[at], TakeBefore(table[at + 1..], end, view), accept);
      assert table[|table|..] == [];
    }
  }

  lemma CallsHead(seen: seq<Entry>, head: Entry, tail: seq<Entry>, accept: seq<Entry> -> bool)
    ensures seen + Calls(seen, [head] + tail, accept)
         == if accept(seen + [head]) then (seen + [head]) + Calls(seen + [head], tail, accept) else seen + [head]
  {
    assert ([head] + tail)[1..] == tail;
  }

  function ViewOf(view: Option<Bytes -> Bytes>): Bytes -> Bytes {
    if view.Some? then view.value else (key: Bytes) => key
  }

  lemma NothingToTake(table: seq<Entry>, start: Bytes, exclusive: bool)
    requires table == []
    ensures FirstAfter(table, start, exclusive) == 0
  {
  }

  lemma TakeHead(table: seq<Entry>, at: nat, end: Bytes, view: Bytes -> Bytes)
    requires at < |table|
    ensures TakeBefore(table[at..], end, view)
         == if BeforeEnd(table[at].key, end, view) then [table[at]] + TakeBefore(table[at + 1..], end, view) else []
  {
    assert table[at..][1..] == table[at + 1..];
  }

  lemma StartsAtHead(table: seq<Entry>, exclusive: bool)
    ensures FirstAfter(table, [], exclusive) == 0
  {
  }

  /** The neighbour that search_near chose tells where the range starts. */
  lemma NearIndex(table: seq<Entry>, start: Bytes, exclusive: bool, at: nat, cmp: int)
    requires Sorted(table) && start != [] && at < |table|
    requires cmp == 0 ==> table[at].key == start
    requires cmp < 0 ==> Less(table[at].key, start) && (at + 1 < |table| ==> Less(start, table[at + 1].key))
    requires cmp > 0 ==> Less(start, table[at].key) && (at > 0 ==> Less(table[at - 1].key, start))
    ensures FirstAfter(table, start, exclusive) == if (if exclusive then cmp <= 0 else cmp < 0) then at + 1 else at
  {
    hide Less;
    var first := if (if exclusive then cmp <= 0 else cmp < 0) then at + 1 else at;
    LessTotal(table[at].key, start);
    if at > 0 {
      LessTotal(table[at - 1].key, start);
    }
    if at + 1 < |table| {
      LessTotal(table[at + 1].key, start);
    }
    StartsAt(table, start, exclusive, first);
  }

  // ---------- what the walk visits ----------

  /** Behind the start of the range every key is in it. */
  lemma TailIsAfter(table: seq<Entry>, start: Bytes, exclusive: bool, k: nat)
    requires Sorted(table) && FirstAfter(table, start, exclusive) <= k < |table|
    ensures AfterStart(table[k].key, start, exclusive)
  {
    hide Less;
    var first := FirstAfter(table, start, exclusive);
    if first < k {
      LaterIsAfter(table[first].key, table[k].key, start, exclusive);
    }
  }

  lemma {:induction false} SkipBeforeStart(table: seq<Entry>, start: Bytes, exclusive: bool, end: Bytes,
                                           view: Bytes -> Bytes)
    ensures InRange(table, start, exclusive, end, view)
         == InRange(table[FirstAfter(table, start, exclusive)..], start, exclusive, end, view)
    decreases |table|
  {
    hide AfterStart, BeforeEnd;
    if table != [] && !AfterStart(table[0].key, start, exclusive) {
      SkipBeforeStart(table[1..], start, exclusive, end, view);
      var first := FirstAfter(table, start, exclusive);
      assert table[1..][first - 1..] == table[first..];
    } else {
      assert table[0..] == table;
    }
  }

  lemma {:induction false} NothingAfterEnd(entries: seq<Entry>, start: Bytes, exclusive: bool, end: Bytes,
                                           view: Bytes -> Bytes)
    requires forall i | 0 <= i < |entries| :: !BeforeEnd(entries[i].key, end, view)
    ensures InRange(entries, start, exclusive, end, view) == []
    decreases |entries|
  {
    if entries != [] {
      NothingAfterEnd(entries[1..], start, exclusive, end, view);
    }
  }

  lemma {:induction false} TakeIsFilter(entries: seq<Entry>, start: Bytes, exclusive: bool, end: Bytes,
                                        view: Bytes -> Bytes)
    requires Monotone(entries, view)
    requires forall i | 0 <= i < |entries| :: AfterStart(entries[i].key, start, exclusive)
    ensures TakeBefore(entries, end, view) == InRange(entries, start, exclusive, end, view)
    decreases |entries|
  {
    hide AfterStart, Less;
    if entries != [] {
      if BeforeEnd(entries[0].key, end, view) {
        TakeIsFilter(entries[1..], start, exclusive, end, view);
      } else {
        forall i | 0 <= i < |entries|
          ensures !BeforeEnd(entries[i].key, end, view)
        {
          LessMixed(view(entries[0].key), view(entries[i].key), end);
        }
        NothingAfterEnd(entries, start, exclusive, end, view);
      }
    }
  }

  /** On a sorted table, with a view that respects the key order, the walk is exactly the entries in the range. */
  lemma WalkIsRange(table: seq<Entry>, start: Bytes, exclusive: bool, end: Bytes, view: Bytes -> Bytes)
    requires Sorted(table) && Monotone(table, view)
    ensures Walk(table, start, exclusive, end, view) == InRange(table, start, exclusive, end, view)
  {
    hide Less, AfterStart;
    var first := FirstAfter(table, start, exclusive);
    var tail := table[first..];
    SkipBeforeStart(table, start, exclusive, end, view);
    forall i | 0 <= i < |tail|
      ensures AfterStart(tail[i].key, start, exclusive)
    {
      TailIsAfter(table, start, exclusive, first + i);
    }
    TakeIsFilter(tail, start, exclusive, end, view);
  }

  /** The walk holds exactly the table's entries in the range, in table order. */
  lemma {:induction false} RangeMembers(table: seq<Entry>, start: Bytes, exclusive: bool, end: Bytes,
                                        view: Bytes -> Bytes, e: Entry)
    requires Sorted(table)
    ensures e in InRange(table, start, exclusive, end, view)
       <==> e in table && AfterStart(e.key, start, exclusive) && BeforeEnd(e.key, end, view)
    ensures Sorted(InRange(table, start, exclusive, end, view))
    ensures forall x | x in InRange(table, start, exclusive, end, view) :: x in table
    decreases |table|
  {
    hide Less, AfterStart, BeforeEnd;
    if table != [] {
      RangeMembers(table[1..], start, exclusive, end, view, e);
      forall x | x in table[1..]
        ensures Less(table[0].key, x.key)
      {
        var i :| 0 <= i < |table| - 1 && table[1..][i] == x;
        assert table[i + 1] == x;
      }
    }
  }

  // ---------- prefix scans ----------

  /** The callback that scanWithCursor wraps around the caller's. */
  function Wrapped(prefix: Bytes, accept: seq<Entry> -> bool): seq<Entry> -> bool {
    (now: seq<Entry>) => now != [] && prefix <= now[|now| - 1].key && accept(now)
  }

  /** The calls that reach the caller's callback. */
  function Passed(prefix: Bytes, calls: seq<Entry>): seq<Entry> {
    if calls != [] && !(prefix <= calls[|calls| - 1].key) then calls[..|calls| - 1] else calls
  }

  method ScanPrefix(c: Cursor?, prefix: Bytes, accept: seq<Entry> -> bool) returns (ret: int, calls: seq<Entry>)
    requires c != null ==> c.Valid()
    modifies c
    ensures c != null ==> c.Valid()
    ensures ret != WT_NOTFOUND && (c == null ==> ret == EINVAL && calls == [])
    ensures c != null ==>
      var all := Calls([], WithPrefix(c.table, prefix), accept);
      calls <= all && (ret == 0 ==> calls == all)
  {
    hide Less, Calls, WithPrefix, Walk, Passed, Wrapped;
    if prefix == [] {
      ret, calls := ScanRange(c, [], false, [], None, accept);
      if c != null {
        WholeTable(c.table);
      }
    } else {
      var wrapped;
      ret, wrapped := ScanRange(c, prefix, false, [], None, Wrapped(prefix, accept));
      calls := Passed(prefix, wrapped);
      if c != null {
        PrefixCalls(c.table, prefix, accept, wrapped);
      } else {
        assert calls == [] by { NothingPassed(prefix); }
      }
    }
  }

  lemma NothingPassed(prefix: Bytes)
    ensures Passed(prefix, []) == []
  {
  }

  lemma {:induction false} EveryPrefix(table: seq<Entry>)
    ensures WithPrefix(table, []) == table && TakeBefore(table, [], ViewOf(None)) == table
    decreases |table|
  {
    if table != [] {
      EveryPrefix(table[1..]);
    }
  }

  lemma WholeTable(table: seq<Entry>)
    ensures Walk(table, [], false, [], ViewOf(None)) == WithPrefix(table, [])
  {
    EveryPrefix(table);
    StartsAtHead(table, false);
    assert table[0..] == table;
  }

  /** Keys with a prefix are one block: past a greater key without it there is none. */
  lemma {:induction false} PrefixBlock(prefix: Bytes, key: Bytes, later: Bytes)
    requires !Less(key, prefix) && !(prefix <= key) && Less(key, later)
    ensures !(prefix <= later)
    decreases |prefix|
  {
    if prefix != [] && key != [] && later != [] && prefix[0] == key[0] == later[0] {
      assert prefix == [prefix[0]] + prefix[1..] && key == [key[0]] + key[1..] && later == [later[0]] + later[1..];
      PrefixBlock(prefix[1..], key[1..], later[1..]);
    }
  }

  lemma {:induction false} PrefixIsNotLess(prefix: Bytes, key: Bytes)
    requires prefix <= key
    ensures !Less(key, prefix)
    decreases |prefix|
  {
    if prefix != [] {
      PrefixIsNotLess(prefix[1..], key[1..]);
    }
  }

  lemma {:induction false} NoPrefixLeft(entries: seq<Entry>, prefix: Bytes)
    requires forall i | 0 <= i < |entries| :: !(prefix <= entries[i].key)
    ensures WithPrefix(entries, prefix) == []
    decreases |entries|
  {
    if entries != [] {
      NoPrefixLeft(entries[1..], prefix);
    }
  }

  /** The wrapped callback sees the caller's calls and at most one more, for the first key past the block. */
  lemma {:induction false} WrappedCalls(seen: seq<Entry>, entries: seq<Entry>, prefix: Bytes,
                                        accept: seq<Entry> -> bool)
    requires Sorted(entries) && forall i | 0 <= i < |entries| :: !Less(entries[i].key, prefix)
    ensures var all := Calls(seen, WithPrefix(entries, prefix), accept);
            var wrapped := Calls(seen, entries, Wrapped(prefix, accept));
            && (forall i | 0 <= i < |all| :: prefix <= all[i].key)
            && (wrapped == all
                || (|wrapped| == |all| + 1 && all <= wrapped && !(prefix <= wrapped[|all|].key)))
    decreases |entries|
  {
    hide Less;
    if entries != [] {
      var head, tail := entries[0], entries[1..];
      var now := seen + [head];
      if prefix <= head.key {
        WrappedCalls(now, tail, prefix, accept);
        assert WithPrefix(entries, prefix)[1..] == WithPrefix(tail, prefix);
      } else {
        forall i | 0 <= i < |entries|
          ensures !(prefix <= entries[i].key)
        {
          if i > 0 {
            PrefixBlock(prefix, head.key, entries[i].key);
          }
        }
        NoPrefixLeft(entries, prefix);
      }
    }
  }

  /** Before the prefix itself no key has it. */
  lemma {:induction false} SkipBeforePrefix(table: seq<Entry>, prefix: Bytes)
    requires prefix != []
    ensures WithPrefix(table, prefix) == WithPrefix(table[FirstAfter(table, prefix, false)..], prefix)
    decreases |table|
  {
    hide Less;
    if table != [] && Less(table[0].key, prefix) {
      SkipBeforePrefix(table[1..], prefix);
      var first := FirstAfter(table, prefix, false);
      assert table[1..][first - 1..] == table[first..];
      if prefix <= table[0].key {
        PrefixIsNotLess(prefix, table[0].key);
      }
    } else {
      assert table[0..] == table;
    }
  }

  lemma PrefixCalls(table: seq<Entry>, prefix: Bytes, accept: seq<Entry> -> bool, wrapped: seq<Entry>)
    requires Sorted(table) && prefix != []
    requires wrapped <= Calls([], Walk(table, prefix, false, [], ViewOf(None)), Wrapped(prefix, accept))
    ensures var all := Calls([], WithPrefix(table, prefix), accept);
            Passed(prefix, wrapped) <= all
            && (wrapped == Calls([], Walk(table, prefix, false, [], ViewOf(None)), Wrapped(prefix, accept))
                ==> Passed(prefix, wrapped) == all)
  {
    hide Less, Calls, WithPrefix, FirstAfter, Passed, ViewOf, TakeBefore;
    var tail := table[FirstAfter(table, prefix, false)..];
    EveryPrefix(tail);
    assert Walk(table, prefix, false, [], ViewOf(None)) == tail;
    SkipBeforePrefix(table, prefix);
    forall i | 0 <= i < |tail|
      ensures !Less(tail[i].key, prefix)
    {
      TailIsAfter(table, prefix, false, FirstAfter(table, prefix, false) + i);
    }
    WrappedCalls([], tail, prefix, accept);
    PassedCalls(prefix, Calls([], WithPrefix(table, prefix), accept), Calls([], tail, Wrapped(prefix, accept)), wrapped);
  }

  lemma PassedCalls(prefix: Bytes, all: seq<Entry>, every: seq<Entry>, wrapped: seq<Entry>)
    requires forall i | 0 <= i < |all| :: prefix <= all[i].key
    requires every == all || (|every| == |all| + 1 && all <= every && !(prefix <= every[|all|].key))
    requires wrapped <= every
    ensures Passed(prefix, wrapped) <= all && (wrapped == every ==> Passed(prefix, wrapped) == all)
  {
    if wrapped != [] && wrapped != every {
      assert wrapped[|wrapped| - 1] == all[|wrapped| - 1];
    }
  }

  /** The prefix scan is exactly the entries with the prefix, in table order. */
  lemma {:induction false} PrefixMembers(table: seq<Entry>, prefix: Bytes, e: Entry)
    ensures e in WithPrefix(table, prefix) <==> e in table && prefix <= e.key
    decreases |table|
  {
    if table != [] {
      PrefixMembers(table[1..], prefix, e);
    }
  }
}
