/**
 * The slot table of the client (`build_slot_map` and the lookup
 * `slots.range(&slot..).next()` of `Pipeline::get_connection` in src/lib.rs).
 *
 * The ranges of a `CLUSTER SLOTS` reply are sorted by their start and must
 * tile the slots 0 .. 16383 exactly; the table maps the END of each range to
 * its master, so the owner of a slot is the first entry whose key is at least
 * that slot.  The table is a `BTreeMap<u16, String>`, modelled here as its
 * entries in increasing key order.
 */
module SlotMaps {
  import opened Wrappers
  import opened ClusterSlots
  import HashSlot

  // ---------------------------------------------------------------------------
  // Ordered maps (`BTreeMap<u16, String>`)

  type Entry = (int, string)

  /** The entries of an ordered map: keys strictly increasing. */
  ghost predicate Ordered(entries: seq<Entry>) {
    forall i, j :: 0 <= i < j < |entries| ==> entries[i].0 < entries[j].0
  }

  function Get(entries: seq<Entry>, k: int): Option<string>
    decreases |entries|
  {
    if |entries| == 0 then None
    else if entries[0].0 == k then Some(entries[0].1)
    else Get(entries[1..], k)
  }

  /** `BTreeMap::insert`: a new key is placed in order, an existing key gets the new value. */
  function Insert(entries: seq<Entry>, k: int, v: string): (r: seq<Entry>)
    requires Ordered(entries)
    ensures Ordered(r)
    ensures forall j :: Get(r, j) == if j == k then Some(v) else Get(entries, j)
    ensures |r| > 0 && r[0].0 == if |entries| > 0 && entries[0].0 < k then entries[0].0 else k
    decreases |entries|
  {
    if |entries| == 0 then [(k, v)]
    else if entries[0].0 == k then [(k, v)] + entries[1..]
    else if k < entries[0].0 then [(k, v)] + entries
    else [entries[0]] + Insert(entries[1..], k, v)
  }

  /** The map built from pairs by `collect`: inserted from left to right. */
  function Collect(pairs: seq<Entry>): (r: seq<Entry>)
    ensures Ordered(r)
    decreases |pairs|
  {
    if |pairs| == 0 then [] else Insert(Collect(pairs[..|pairs| - 1]), pairs[|pairs| - 1].0, pairs[|pairs| - 1].1)
  }

  /** Collecting pairs that are already strictly increasing gives exactly these pairs. */
  lemma {:induction false} CollectOrdered(pairs: seq<Entry>)
    requires Ordered(pairs)
    ensures Collect(pairs) == pairs
    decreases |pairs|
  {
    if |pairs| > 0 {
      var init := pairs[..|pairs| - 1];
      CollectOrdered(init);
      InsertAtEnd(init, pairs[|pairs| - 1].0, pairs[|pairs| - 1].1);
      assert init + [pairs[|pairs| - 1]] == pairs;
    }
  }

  lemma {:induction false} InsertAtEnd(entries: seq<Entry>, k: int, v: string)
    requires Ordered(entries)
    requires forall i :: 0 <= i < |entries| ==> entries[i].0 < k
    ensures Insert(entries, k, v) == entries + [(k, v)]
    decreases |entries|
  {
    if |entries| > 0 {
      InsertAtEnd(entries[1..], k, v);
      assert [entries[0]] + (entries[1..] + [(k, v)]) == entries + [(k, v)];
    }
  }

  /**
   * `range(&slot..).next()`: the first entry whose key is at least `slot`,
   * which for an ordered map is the entry with the least such key.
   */
  function FirstAtLeast(entries: seq<Entry>, slot: int): (r: Option<Entry>)
    ensures r.None? <==> forall i :: 0 <= i < |entries| ==> entries[i].0 < slot
    ensures r.Some? ==> exists i :: (0 <= i < |entries| && entries[i] == r.value && slot <= entries[i].0
                                     && forall j :: 0 <= j < i ==> entries[j].0 < slot)
    decreases |entries|
  {
    if |entries| == 0 then None
    else if entries[0].0 >= slot then Some(entries[0])
    else
      var r := FirstAtLeast(entries[1..], slot);
      assert forall i :: 1 <= i < |entries| ==> entries[i] == entries[1..][i - 1];
      if r.Some? then
        var i :| 0 <= i < |entries[1..]| && entries[1..][i] == r.value && slot <= entries[1..][i].0
          && forall j :: 0 <= j < i ==> entries[1..][j].0 < slot;
        assert entries[i + 1] == r.value && forall j :: 0 <= j < i + 1 ==> entries[j].0 < slot;
        r
      else r
  }

  // ---------------------------------------------------------------------------
  // Sorting ranges by their start (`sort_by_key`, a stable sort)

  ghost predicate SortedByStart(slots: seq<Slot>) {
    forall i, j :: 0 <= i < j < |slots| ==> slots[i].start <= slots[j].start
  }

  function InsertByStart(s: Slot, sorted: seq<Slot>): (r: seq<Slot>)
    ensures |r| == |sorted| + 1
    ensures multiset(r) == multiset(sorted) + multiset{s}
    decreases |sorted|
  {
    if |sorted| == 0 || s.start <= sorted[0].start then [s] + sorted
    else
      assert sorted == [sorted[0]] + sorted[1..];
      [sorted[0]] + InsertByStart(s, sorted[1..])
  }

  /** Inserting into a sorted sequence keeps it sorted. */
  lemma {:induction false} InsertByStartSorted(s: Slot, sorted: seq<Slot>)
    requires SortedByStart(sorted)
    ensures SortedByStart(InsertByStart(s, sorted))
    decreases |sorted|
  {
    if |sorted| > 0 && s.start > sorted[0].start {
      InsertByStartSorted(s, sorted[1..]);
      InsertByStartLowerBound(s, sorted[1..], sorted[0].start);
    }
  }

  /** A lower bound of the element and of the sequence bounds the result of inserting it. */
  lemma InsertByStartLowerBound(s: Slot, sorted: seq<Slot>, lo: int)
    requires lo <= s.start && forall i :: 0 <= i < |sorted| ==> lo <= sorted[i].start
    ensures forall i :: 0 <= i < |sorted| + 1 ==> lo <= InsertByStart(s, sorted)[i].start
  {
    var r := InsertByStart(s, sorted);
    forall i | 0 <= i < |r| ensures lo <= r[i].start {
      assert r[i] in multiset(r);
      if r[i] != s {
        assert r[i] in multiset(sorted);
      }
    }
  }

  /** Sorting ranges that are already in order of their start leaves them as they are. */
  lemma {:induction false} SortSortedUnchanged(slots: seq<Slot>)
    requires SortedByStart(slots)
    ensures SortByStart(slots) == slots
    decreases |slots|
  {
    if |slots| > 0 {
      SortSortedUnchanged(slots[1..]);
      assert slots == [slots[0]] + slots[1..];
    }
  }

  /** Insertion sort by start; an element is placed before the later ones with an equal start. */
  function SortByStart(slots: seq<Slot>): (r: seq<Slot>)
    ensures multiset(r) == multiset(slots)
    ensures |r| == |slots|
    decreases |slots|
  {
    if |slots| == 0 then []
    else
      assert slots == [slots[0]] + slots[1..];
      InsertByStart(slots[0], SortByStart(slots[1..]))
  }

  /** The ranges of a sequence that start at slot `k`, in their order. */
  function WithStart(slots: seq<Slot>, k: int): seq<Slot>
    decreases |slots|
  {
    if |slots| == 0 then []
    else (if slots[0].start == k then [slots[0]] else []) + WithStart(slots[1..], k)
  }

  lemma WithStartCons(x: Slot, rest: seq<Slot>, k: int)
    ensures WithStart([x] + rest, k) == (if x.start == k then [x] else []) + WithStart(rest, k)
  {
    var r := [x] + rest;
    assert r[0] == x && r[1..] == rest;
  }

  /** Inserting a range puts it before every range of the same start. */
  lemma {:induction false} InsertByStartWithStart(s: Slot, sorted: seq<Slot>, k: int)
    ensures WithStart(InsertByStart(s, sorted), k) == (if s.start == k then [s] else []) + WithStart(sorted, k)
    decreases |sorted|
  {
    if |sorted| == 0 || s.start <= sorted[0].start {
      WithStartCons(s, sorted, k);
    } else {
      var rest := InsertByStart(s, sorted[1..]);
      assert InsertByStart(s, sorted) == [sorted[0]] + rest;
      assert sorted == [sorted[0]] + sorted[1..];
      InsertByStartWithStart(s, sorted[1..], k);
      WithStartCons(sorted[0], rest, k);
      WithStartCons(sorted[0], sorted[1..], k);
    }
  }

  /** The sort is stable: the ranges with the same start keep their input order. */
  lemma {:induction false} SortByStartStable(slots: seq<Slot>, k: int)
    ensures WithStart(SortByStart(slots), k) == WithStart(slots, k)
    decreases |slots|
  {
    if |slots| > 0 {
      SortByStartStable(slots[1..], k);
      InsertByStartWithStart(slots[0], SortByStart(slots[1..]), k);
    }
  }

  /** The result of the sort is sorted by start. */
  lemma {:induction false} SortByStartSorted(slots: seq<Slot>)
    ensures SortedByStart(SortByStart(slots))
    decreases |slots|
  {
    if |slots| > 0 {
      SortByStartSorted(slots[1..]);
      InsertByStartSorted(slots[0], SortByStart(slots[1..]));
    }
  }

  // ---------------------------------------------------------------------------
  // Validating the ranges

  datatype SlotError =
    | Overlapping(prevEnd: int, start: int, end: int)  // "Received overlapping slots"
    | Lacks(lastSlot: int)                             // "Lacks the slots >= ..."

  /**
   * The ranges, in order, continue one another from slot `from`: the first
   * starts at `from`, each next one right after the end of the previous one,
   * and none is empty.
   */
  ghost predicate Contiguous(sorted: seq<Slot>, from: int) {
    && (|sorted| > 0 ==> sorted[0].start == from)
    && (forall i :: 0 < i < |sorted| ==> sorted[i].start == sorted[i - 1].end + 1)
    && (forall i :: 0 <= i < |sorted| ==> sorted[i].start <= sorted[i].end)
  }

  /** The slot after the last range, or `from` when there is none. */
  function NextSlot(sorted: seq<Slot>, from: int): int {
    if |sorted| == 0 then from else sorted[|sorted| - 1].end + 1
  }

  /** The ranges cover the slots 0 .. 16383, each exactly once. */
  ghost predicate Tiles(sorted: seq<Slot>) {
    |sorted| > 0 && Contiguous(sorted, 0) && NextSlot(sorted, 0) == HashSlot.SlotSize
  }

  function MasterPairs(sorted: seq<Slot>): (r: seq<Entry>)
    ensures |r| == |sorted|
    ensures forall i :: 0 <= i < |sorted| ==> r[i] == (sorted[i].end, sorted[i].master)
  {
    seq(|sorted|, i requires 0 <= i < |sorted| => (sorted[i].end, sorted[i].master))
  }

  /** The `try_fold` of `build_slot_map` with unbounded integers, also rejecting empty ranges. */
  function CheckTiling(sorted: seq<Slot>, prevEnd: int): Result<int, SlotError>
    decreases |sorted|
  {
    if |sorted| == 0 then Success(prevEnd)
    else if prevEnd != sorted[0].start || sorted[0].end < sorted[0].start then
      Failure(Overlapping(prevEnd, sorted[0].start, sorted[0].end))
    else CheckTiling(sorted[1..], sorted[0].end + 1)
  }

  /**
   * `build_slot_map`: sort the ranges by start, check that they tile the slot
   * space, and map each range's end to its master.
   */
  function BuildSlotMap(slots: seq<Slot>): Result<seq<Entry>, SlotError> {
    var sorted := SortByStart(slots);
    var last :- CheckTiling(sorted, 0);
    if last != HashSlot.SlotSize then Failure(Lacks(last))
    else Success(Collect(MasterPairs(sorted)))
  }

  lemma {:induction false} CheckTilingSpec(sorted: seq<Slot>, from: int)
    ensures CheckTiling(sorted, from).Success? <==> Contiguous(sorted, from)
    ensures CheckTiling(sorted, from).Success? ==> CheckTiling(sorted, from).value == NextSlot(sorted, from)
    decreases |sorted|
  {
    if |sorted| > 0 {
      var rest := sorted[1..];
      CheckTilingSpec(rest, sorted[0].end + 1);
      assert forall i :: 0 <= i < |rest| ==> rest[i] == sorted[i + 1];
      if |rest| > 0 {
        assert rest[|rest| - 1] == sorted[|sorted| - 1];
      }
    }
  }

  /**
   * The table is built exactly when the ranges, sorted by start, tile the slot
   * space; it then holds one entry per range, keyed by the range's end and
   * valued by its master, in the order of the ranges.
   */
  lemma BuildSlotMapSpec(slots: seq<Slot>)
    ensures BuildSlotMap(slots).Success? <==> Tiles(SortByStart(slots))
    ensures BuildSlotMap(slots).Success? ==> BuildSlotMap(slots).value == MasterPairs(SortByStart(slots))
  {
    var sorted := SortByStart(slots);
    CheckTilingSpec(sorted, 0);
    if Tiles(sorted) {
      TilesEndsIncrease(sorted, 0);
      CollectOrdered(MasterPairs(sorted));
    }
  }

  /** Tiling ranges are disjoint and in order: every end is below the next start. */
  lemma {:induction false} TilesEndsIncrease(sorted: seq<Slot>, from: int)
    requires Contiguous(sorted, from)
    ensures forall i, j :: 0 <= i < j < |sorted| ==> sorted[i].end < sorted[j].start
    ensures Ordered(MasterPairs(sorted))
  {
    forall i, j | 0 <= i < j < |sorted|
      ensures sorted[i].end < sorted[j].start
    {
      var k := i + 1;
      while k < j
        invariant i + 1 <= k <= j
        invariant sorted[i].end < sorted[k].start
      {
        k := k + 1;
      }
    }
  }

  /**
   * Looking a slot up in a table that was built finds the master of the one
   * range that contains the slot.
   */
  lemma LookupFindsOwner(slots: seq<Slot>, slot: int)
    requires BuildSlotMap(slots).Success?
    requires 0 <= slot < HashSlot.SlotSize
    ensures var sorted := SortByStart(slots);
      exists i :: 0 <= i < |sorted| && sorted[i].start <= slot <= sorted[i].end
        && FirstAtLeast(BuildSlotMap(slots).value, slot) == Some((sorted[i].end, sorted[i].master))
    ensures var sorted := SortByStart(slots);
      forall i, j :: (0 <= i < |sorted| && 0 <= j < |sorted| && sorted[i].start <= slot <= sorted[i].end
                      && sorted[j].start <= slot <= sorted[j].end) ==> i == j
  {
    var sorted := SortByStart(slots);
    BuildSlotMapSpec(slots);
    TilesEndsIncrease(sorted, 0);
    OwnerFound(sorted, BuildSlotMap(slots).value, slot);
  }

  lemma OwnerFound(sorted: seq<Slot>, entries: seq<Entry>, slot: int)
    requires Tiles(sorted)
    requires entries == MasterPairs(sorted)
    requires 0 <= slot < HashSlot.SlotSize
    ensures exists i :: (0 <= i < |sorted| && sorted[i].start <= slot <= sorted[i].end
                         && FirstAtLeast(entries, slot) == Some((sorted[i].end, sorted[i].master)))
  {
    var r := FirstAtLeast(entries, slot);
    assert entries[|sorted| - 1].0 == HashSlot.SlotSize - 1;
    var i :| 0 <= i < |entries| && entries[i] == r.value && slot <= entries[i].0
      && forall j :: 0 <= j < i ==> entries[j].0 < slot;
    if i > 0 {
      assert entries[i - 1].0 < slot;
      assert sorted[i].start == sorted[i - 1].end + 1;
    }
    assert sorted[i].start <= slot <= sorted[i].end;
  }

  // ---------------------------------------------------------------------------
  // `build_slot_map` as written: `u16` arithmetic, empty ranges let through

  /**
   * The `try_fold` as written: the accumulator is a `u16`, so `end + 1` wraps
   * to 0 after 65535 (in a release build), and a range whose end is below its
   * start is not rejected.
   */
  function CheckTilingAsWritten(sorted: seq<Slot>, prevEnd: u16): Result<u16, SlotError>
    decreases |sorted|
  {
    if |sorted| == 0 then Success(prevEnd)
    else if prevEnd != sorted[0].start then Failure(Overlapping(prevEnd, sorted[0].start, sorted[0].end))
    else CheckTilingAsWritten(sorted[1..], Truncate16(sorted[0].end + 1))
  }

  function BuildSlotMapAsWritten(slots: seq<Slot>): Result<seq<Entry>, SlotError> {
    var sorted := SortByStart(slots);
    var last :- CheckTilingAsWritten(sorted, 0);
    if last != HashSlot.SlotSize then Failure(Lacks(last))
    else Success(Collect(MasterPairs(sorted)))
  }

  /**
   * What the fold as written lets through: the first range starts at `from`
   * and each next one right after the end of the previous one, counted
   * modulo 2^16; a range may be empty.
   */
  ghost predicate ContiguousAsWritten(sorted: seq<Slot>, from: int) {
    && (|sorted| > 0 ==> sorted[0].start == from)
    && (forall i :: 0 < i < |sorted| ==> sorted[i].start == Truncate16(sorted[i - 1].end + 1))
  }

  /** The running end as written after the last range, or `from` when there is none. */
  function NextSlotAsWritten(sorted: seq<Slot>, from: u16): u16 {
    if |sorted| == 0 then from else Truncate16(sorted[|sorted| - 1].end + 1)
  }

  /** The sorted ranges that `build_slot_map` as written accepts. */
  ghost predicate AcceptedAsWritten(sorted: seq<Slot>) {
    ContiguousAsWritten(sorted, 0) && NextSlotAsWritten(sorted, 0) == HashSlot.SlotSize
  }

  lemma {:induction false} CheckTilingAsWrittenSpec(sorted: seq<Slot>, from: u16)
    ensures CheckTilingAsWritten(sorted, from).Success? <==> ContiguousAsWritten(sorted, from)
    ensures CheckTilingAsWritten(sorted, from).Success? ==>
      CheckTilingAsWritten(sorted, from).value == NextSlotAsWritten(sorted, from)
    decreases |sorted|
  {
    if |sorted| > 0 {
      var rest := sorted[1..];
      CheckTilingAsWrittenSpec(rest, Truncate16(sorted[0].end + 1));
      assert forall i :: 0 <= i < |rest| ==> rest[i] == sorted[i + 1];
      if |rest| > 0 {
        assert rest[|rest| - 1] == sorted[|sorted| - 1];
      }
    }
  }

  /**
   * The table as written is built exactly when the sorted ranges continue one
   * another modulo 2^16 from slot 0 and the running end comes to 16384; it is
   * then what collecting each range's end and master gives.
   */
  lemma BuildSlotMapAsWrittenSpec(slots: seq<Slot>)
    ensures BuildSlotMapAsWritten(slots).Success? <==> AcceptedAsWritten(SortByStart(slots))
    ensures BuildSlotMapAsWritten(slots).Success? ==>
      BuildSlotMapAsWritten(slots).value == Collect(MasterPairs(SortByStart(slots)))
  {
    CheckTilingAsWrittenSpec(SortByStart(slots), 0);
  }

  /**
   * A range ending at 65535 wraps the running end back to 0, so a second
   * range starting at 0 is accepted although the two overlap; the corrected
   * check rejects it.
   */
  lemma WrappedEndAccepted()
    ensures var slots := [Slot(0, 65535, "a", []), Slot(0, 16383, "b", [])];
      && BuildSlotMapAsWritten(slots) == Success([(16383, "b"), (65535, "a")])
      && BuildSlotMap(slots) == Failure(Overlapping(65536, 0, 16383))
  {
    var a, b := Slot(0, 65535, "a", []), Slot(0, 16383, "b", []);
    var slots := [a, b];
    SortSortedUnchanged(slots);
    assert CheckTilingAsWritten([b], 0) == Success(16384);
    assert CheckTilingAsWritten(slots, 0) == Success(16384);
    assert MasterPairs(slots) == [(65535, "a"), (16383, "b")];
    assert Collect([(65535, "a")]) == [(65535, "a")];
    assert Collect(MasterPairs(slots)) == [(16383, "b"), (65535, "a")];
    assert CheckTiling([b], 65536) == Failure(Overlapping(65536, 0, 16383));
  }

  /**
   * An empty range 5 .. 4 is accepted as written; its end collides with the
   * end of the range before it, and the map then sends slots 0 .. 4 to the
   * node of the empty range.  The corrected check rejects it.
   */
  lemma EmptyRangeAccepted()
    ensures var slots := [Slot(0, 4, "a", []), Slot(5, 4, "b", []), Slot(5, 16383, "c", [])];
      && BuildSlotMapAsWritten(slots) == Success([(4, "b"), (16383, "c")])
      && FirstAtLeast(BuildSlotMapAsWritten(slots).value, 0) == Some((4, "b"))
      && BuildSlotMap(slots) == Failure(Overlapping(5, 5, 4))
  {
    var a, b, c := Slot(0, 4, "a", []), Slot(5, 4, "b", []), Slot(5, 16383, "c", []);
    EmptyRangeSorted(a, b, c);
    EmptyRangeFold(a, b, c);
    EmptyRangeCollect();
    assert MasterPairs([a, b, c]) == [(4, "a"), (4, "b"), (16383, "c")];
    assert BuildSlotMapAsWritten([a, b, c]) == Success([(4, "b"), (16383, "c")]);
    LookupFirst([(4, "b"), (16383, "c")], 0);
  }

  /** A lookup at or below the first key finds the first entry. */
  lemma LookupFirst(entries: seq<Entry>, slot: int)
    requires |entries| > 0 && slot <= entries[0].0
    ensures FirstAtLeast(entries, slot) == Some(entries[0])
  {
  }

  lemma EmptyRangeSorted(a: Slot, b: Slot, c: Slot)
    requires a.start == 0 && b.start == 5 && c.start == 5
    ensures SortByStart([a, b, c]) == [a, b, c]
  {
    SortSortedUnchanged([a, b, c]);
  }

  lemma EmptyRangeFold(a: Slot, b: Slot, c: Slot)
    requires a.start == 0 && a.end == 4 && b.start == 5 && b.end == 4 && c.start == 5 && c.end == 16383
    ensures CheckTilingAsWritten([a, b, c], 0) == Success(16384)
    ensures CheckTiling([a, b, c], 0) == Failure(Overlapping(5, 5, 4))
  {
    assert CheckTilingAsWritten([c], 5) == Success(16384);
    assert CheckTilingAsWritten([b, c], 5) == Success(16384);
    assert [a, b, c][1..] == [b, c];
    assert CheckTiling([b, c], 5) == Failure(Overlapping(5, 5, 4));
  }

  lemma EmptyRangeCollect()
    ensures Collect([(4, "a"), (4, "b"), (16383, "c")]) == [(4, "b"), (16383, "c")]
  {
    var pairs := [(4, "a"), (4, "b"), (16383, "c")];
    assert pairs[..1] == [(4, "a")] && pairs[..2] == [(4, "a"), (4, "b")];
    assert Collect([(4, "a")]) == [(4, "a")];
    assert Collect([(4, "a"), (4, "b")]) == Insert([(4, "a")], 4, "b") == [(4, "b")];
    assert Collect(pairs) == Insert([(4, "b")], 16383, "c");
  }

  /** On ranges that really tile the slot space, the code as written agrees with the corrected one. */
  lemma {:induction false} AsWrittenAgreesOnTiling(sorted: seq<Slot>, from: u16)
    requires Contiguous(sorted, from)
    requires NextSlot(sorted, from) <= HashSlot.SlotSize
    ensures CheckTilingAsWritten(sorted, from) == CheckTiling(sorted, from)
    decreases |sorted|
  {
    if |sorted| > 0 {
      ContiguousRest(sorted, from);
      var next := sorted[0].end + 1;
      assert Truncate16(next) == next;
      AsWrittenAgreesOnTiling(sorted[1..], next);
    }
  }

  /** After the first range of contiguous ranges, the rest continue from its end. */
  lemma ContiguousRest(sorted: seq<Slot>, from: int)
    requires Contiguous(sorted, from) && |sorted| > 0
    ensures Contiguous(sorted[1..], sorted[0].end + 1)
    ensures NextSlot(sorted[1..], sorted[0].end + 1) == NextSlot(sorted, from)
    ensures sorted[0].end < NextSlot(sorted, from)
  {
    var rest := sorted[1..];
    assert forall i :: 0 <= i < |rest| ==> rest[i] == sorted[i + 1];
    if |sorted| > 1 {
      TilesEndsIncrease(sorted, from);
      assert sorted[0].end < sorted[|sorted| - 1].start;
    }
  }

  /** Whenever the ranges tile the slot space, the code as written builds the same table. */
  lemma AsWrittenAgreesWhenTiled(slots: seq<Slot>)
    requires Tiles(SortByStart(slots))
    ensures BuildSlotMapAsWritten(slots) == BuildSlotMap(slots)
  {
    AsWrittenAgreesOnTiling(SortByStart(slots), 0);
  }
}
