/**
 * The fixed-capacity ring of write records used by the aesd character
 * driver (aesd_circular_buffer). Its own implementation file is not part of
 * this model; the ring is reconstructed from how aesd-char-driver/main.c
 * uses it: an `entry[]` array of AESDCHAR_MAX_WRITE_OPERATIONS_SUPPORTED
 * slots, an `in_offs` slot that receives the next record, an `out_offs`
 * slot that holds the oldest record, and the operations add_entry,
 * get_count and find_entry_offset_for_fpos.
 *
 * The abstract view of the ring is the list of retained records, oldest
 * first (`Contents`), and the byte stream a reader sees is their
 * concatenation (`Snapshot`).
 */
module AesdCircularBuffer {
  import opened Bytes

  /** AESDCHAR_MAX_WRITE_OPERATIONS_SUPPORTED: how many records the ring retains. */
  const MAX_WRITE_OPERATIONS_SUPPORTED: nat := 10

  type Records = seq<seq<byte>>

  /**
   * The retained records after `rec` is committed: it becomes the newest
   * record, and when the ring already holds its capacity the oldest record
   * is dropped.
   */
  function Commit(records: Records, rec: seq<byte>): Records
    requires |records| <= MAX_WRITE_OPERATIONS_SUPPORTED
  {
    if |records| == MAX_WRITE_OPERATIONS_SUPPORTED then records[1..] + [rec] else records + [rec]
  }

  /**
   * What a commit does to the byte stream readers see: the record's bytes
   * are appended, and when the ring was full the oldest record's bytes
   * disappear from the front.
   */
  lemma CommitSnapshot(records: Records, rec: seq<byte>)
    requires |records| <= MAX_WRITE_OPERATIONS_SUPPORTED
    ensures |records| < MAX_WRITE_OPERATIONS_SUPPORTED ==> Flatten(Commit(records, rec)) == Flatten(records) + rec
    ensures |records| == MAX_WRITE_OPERATIONS_SUPPORTED ==>
      Flatten(Commit(records, rec)) == Flatten(records)[|records[0]|..] + rec
  {
    if |records| == MAX_WRITE_OPERATIONS_SUPPORTED {
      FlattenSnoc(records[1..], rec);
      assert Flatten(records) == records[0] + Flatten(records[1..]);
    } else {
      FlattenSnoc(records, rec);
    }
  }

  /** The records retained after committing every record of `history`, in order, to an empty ring. */
  function Retained(history: Records): (r: Records)
    ensures |r| <= MAX_WRITE_OPERATIONS_SUPPORTED
  {
    if history == [] then []
    else Commit(Retained(history[..|history| - 1]), history[|history| - 1])
  }

  /**
   * FIFO eviction: after any number of commits the ring holds exactly the
   * newest min(commits, capacity) records, in commit order.
   */
  lemma {:induction false} RetainedIsNewestSuffix(history: Records)
    ensures Retained(history) == history[|history| - Min(|history|, MAX_WRITE_OPERATIONS_SUPPORTED)..]
  {
    if history != [] {
      var n := |history|;
      var prefix := history[..n - 1];
      RetainedIsNewestSuffix(prefix);
      var k := Min(n - 1, MAX_WRITE_OPERATIONS_SUPPORTED);
      assert Retained(prefix) == history[n - 1 - k..n - 1];
      if k == MAX_WRITE_OPERATIONS_SUPPORTED {
        assert Retained(history) == history[n - k..n - 1] + [history[n - 1]];
      } else {
        assert Retained(history) == history[n - 1 - k..n - 1] + [history[n - 1]];
      }
    }
  }

  /** Committing one more record to the ring is retaining one more record of the history. */
  lemma RetainedSnoc(history: Records, rec: seq<byte>)
    ensures Retained(history + [rec]) == Commit(Retained(history), rec)
  {
    assert (history + [rec])[..|history|] == history;
  }

  /**
   * The record holding byte `pos` of the concatenation of `records[i..]`,
   * as an index into `records`, and the offset of that byte within that
   * record; None when `pos` is past the end. Records are walked oldest
   * first, subtracting each one's size from `pos`.
   */
  function FindFrom(records: Records, i: nat, pos: nat): (r: Option<(nat, nat)>)
    requires i <= |records|
    ensures r.Some? ==> i <= r.value.0 < |records| && r.value.1 < |records[r.value.0]|
    decreases |records| - i
  {
    if i == |records| then None
    else if pos < |records[i]| then Some((i, pos))
    else FindFrom(records, i + 1, pos - |records[i]|)
  }

  /** The record holding byte `pos` of the concatenation of all `records`, and the offset within it. */
  function FindEntry(records: Records, pos: nat): Option<(nat, nat)>
  {
    FindFrom(records, 0, pos)
  }

  /** The concatenation from record `i` on is record `i` followed by the concatenation from `i + 1` on. */
  lemma FlattenFrom(records: Records, i: nat)
    requires i < |records|
    ensures Flatten(records[i..]) == records[i] + Flatten(records[i + 1..])
  {
    assert records[i..][0] == records[i];
    assert records[i..][1..] == records[i + 1..];
  }

  /** The walk from record `i` fails exactly when `pos` is at or past the end of the records from `i` on. */
  lemma {:induction false} FindFromNoneIffPastEnd(records: Records, i: nat, pos: nat)
    requires i <= |records|
    ensures FindFrom(records, i, pos).None? <==> pos >= |Flatten(records[i..])|
    decreases |records| - i
  {
    if i < |records| {
      FlattenFrom(records, i);
      if pos >= |records[i]| {
        FindFromNoneIffPastEnd(records, i + 1, pos - |records[i]|);
      }
    }
  }

  /** The lookup fails exactly when `pos` is at or past the end of the concatenation. */
  lemma FindEntryNoneIffPastEnd(records: Records, pos: nat)
    ensures FindEntry(records, pos).None? <==> pos >= |Flatten(records)|
  {
    FindFromNoneIffPastEnd(records, 0, pos);
    assert records[0..] == records;
  }

  /**
   * A pair found from record `i` locates `pos`: records `i` up to the found
   * one hold `pos - off` bytes, and reading on from `pos` yields the rest
   * of the found record and then every newer record.
   */
  lemma {:induction false} FindFromLocates(records: Records, i: nat, pos: nat)
    requires i <= |records| && FindFrom(records, i, pos).Some?
    ensures var (j, off) := FindFrom(records, i, pos).value;
      && |Flatten(records[i..j])| + off == pos
      && pos < |Flatten(records[i..])|
      && Flatten(records[i..])[pos..] == records[j][off..] + Flatten(records[j + 1..])
    decreases |records| - i
  {
    FlattenFrom(records, i);
    if pos < |records[i]| {
      assert records[i..i] == [];
    } else {
      FindFromLocates(records, i + 1, pos - |records[i]|);
      var (j, off) := FindFrom(records, i + 1, pos - |records[i]|).value;
      var between := records[i..j];
      assert between[0] == records[i] && between[1..] == records[i + 1..j];
      assert Flatten(between) == records[i] + Flatten(records[i + 1..j]);
    }
  }

  /**
   * A found pair locates `pos`: the records before the found one hold
   * `pos - off` bytes, and reading on from `pos` yields the rest of that
   * record and then every newer record.
   */
  lemma FindEntryLocates(records: Records, pos: nat)
    requires FindEntry(records, pos).Some?
    ensures var (i, off) := FindEntry(records, pos).value;
      |Flatten(records[..i])| + off == pos && pos < |Flatten(records)| &&
      Flatten(records)[pos..] == records[i][off..] + Flatten(records[i + 1..])
  {
    FindFromLocates(records, 0, pos);
    var (i, off) := FindEntry(records, pos).value;
    assert records[0..] == records && records[0..i] == records[..i];
  }

  /** The byte at a found position is the byte at the found offset of the found record. */
  lemma FindEntryByte(records: Records, pos: nat)
    requires FindEntry(records, pos).Some?
    ensures var (i, off) := FindEntry(records, pos).value;
      pos < |Flatten(records)| && Flatten(records)[pos] == records[i][off]
  {
    FindEntryLocates(records, pos);
  }

  /**
   * The `n` bytes of the concatenation from a found position on are the
   * `n` bytes of the found record from the found offset on, as long as
   * that record holds them.
   */
  lemma FindEntrySlice(records: Records, pos: nat, n: nat)
    requires FindEntry(records, pos).Some?
    requires var (i, off) := FindEntry(records, pos).value; off + n <= |records[i]|
    ensures var (i, off) := FindEntry(records, pos).value;
      pos + n <= |Flatten(records)| && Flatten(records)[pos..pos + n] == records[i][off..off + n]
  {
    var (i, off) := FindEntry(records, pos).value;
    FindEntryLocates(records, pos);
    var tail := records[i][off..] + Flatten(records[i + 1..]);
    assert Flatten(records)[pos..pos + n] == tail[..n];
  }

  /**
   * The ring slot `i` slots on from slot `oldest`, wrapping around the end
   * of the `entry[]` array.
   */
  function RingSlot(oldest: nat, i: nat): (slot: nat)
    ensures slot < MAX_WRITE_OPERATIONS_SUPPORTED
  {
    (oldest + i) % MAX_WRITE_OPERATIONS_SUPPORTED
  }

  /** The slot after the one `i` slots on from `oldest` is the one `i + 1` slots on. */
  lemma NextSlot(oldest: nat, i: nat)
    ensures RingSlot(RingSlot(oldest, i), 1) == RingSlot(oldest, i + 1)
  {
  }

  /** A located record index and offset, with the index turned into the ring slot `i` slots on from `oldest`. */
  function SlotOf(oldest: nat, found: Option<(nat, nat)>): Option<(nat, nat)>
  {
    match found
    case None => None
    case Some((i, off)) => Some((RingSlot(oldest, i), off))
  }

  /**
   * The lookup walked slot by slot, as the ring does it: from the `i`-th
   * occupied slot on (slot `oldest + i`, wrapped), subtract each slot's
   * size from `pos` until `pos` falls inside one.
   */
  function FindSlotFrom(slots: seq<seq<byte>>, oldest: nat, n: nat, i: nat, pos: nat): Option<(nat, nat)>
    requires |slots| == MAX_WRITE_OPERATIONS_SUPPORTED && i <= n
    decreases n - i
  {
    var slot := RingSlot(oldest, i);
    if i == n then None
    else if pos < |slots[slot]| then Some((slot, pos))
    else FindSlotFrom(slots, oldest, n, i + 1, pos - |slots[slot]|)
  }

  /**
   * Walking the slots finds the slot of the record that walking the
   * retained records finds, at the same offset.
   */
  lemma {:induction false} FindSlotFromIsFindFrom(slots: seq<seq<byte>>, oldest: nat, n: nat, i: nat, pos: nat)
    requires |slots| == MAX_WRITE_OPERATIONS_SUPPORTED && oldest < MAX_WRITE_OPERATIONS_SUPPORTED
    requires n <= MAX_WRITE_OPERATIONS_SUPPORTED && i <= n
    ensures FindSlotFrom(slots, oldest, n, i, pos) == SlotOf(oldest, FindFrom(View(slots, oldest, n), i, pos))
    decreases n - i
  {
    if i < n {
      var size := |slots[RingSlot(oldest, i)]|;
      ViewAt(slots, oldest, n, i);
      if size <= pos {
        FindSlotFromIsFindFrom(slots, oldest, n, i + 1, pos - size);
      }
    }
  }

  /**
   * The number of occupied slots of a ring whose next free slot is
   * `inOffs` and whose oldest record sits in `outOffs`: every slot when the
   * ring is full, otherwise the distance from `outOffs` on to `inOffs`.
   */
  function Occupied(inOffs: nat, outOffs: nat, full: bool): (n: nat)
    requires inOffs < MAX_WRITE_OPERATIONS_SUPPORTED && outOffs < MAX_WRITE_OPERATIONS_SUPPORTED
    requires full ==> inOffs == outOffs
    ensures n <= MAX_WRITE_OPERATIONS_SUPPORTED
    ensures RingSlot(outOffs, n) == inOffs
    ensures n == MAX_WRITE_OPERATIONS_SUPPORTED <==> full
  {
    if full then MAX_WRITE_OPERATIONS_SUPPORTED
    else if inOffs >= outOffs then inOffs - outOffs
    else MAX_WRITE_OPERATIONS_SUPPORTED - outOffs + inOffs
  }

  /**
   * Storing a record in a ring with a free slot moves `inOffs` on by one
   * and occupies one more slot; the ring becomes full exactly when that
   * was the last free slot.
   */
  lemma OccupiedAfterAdd(oldest: nat, n: nat)
    requires oldest < MAX_WRITE_OPERATIONS_SUPPORTED && n < MAX_WRITE_OPERATIONS_SUPPORTED
    ensures var next := RingSlot(oldest, n + 1);
      Occupied(next, oldest, next == oldest) == n + 1
  {
    WrapSlot(oldest, n + 1);
    if n + 1 < MAX_WRITE_OPERATIONS_SUPPORTED {
      SlotsDistinct(oldest, 0, n + 1);
    }
  }

  /** Slots fewer than a full turn apart are different slots. */
  lemma SlotsDistinct(oldest: nat, i: nat, j: nat)
    requires i < j && j - i < MAX_WRITE_OPERATIONS_SUPPORTED
    ensures RingSlot(oldest, i) != RingSlot(oldest, j)
  {
  }

  /** Counting `k` slots on from slot `oldest` wraps past the last slot at most once. */
  lemma WrapSlot(oldest: nat, k: nat)
    requires oldest < MAX_WRITE_OPERATIONS_SUPPORTED && k <= MAX_WRITE_OPERATIONS_SUPPORTED
    ensures RingSlot(oldest, k)
         == if oldest + k < MAX_WRITE_OPERATIONS_SUPPORTED then oldest + k else oldest + k - MAX_WRITE_OPERATIONS_SUPPORTED
  {
  }

  /** Counting `i` slots on from the slot after `oldest` is counting `i + 1` slots on from `oldest`. */
  lemma ShiftSlot(oldest: nat, i: nat)
    ensures RingSlot(RingSlot(oldest, 1), i) == RingSlot(oldest, 1 + i)
  {
  }

  /**
   * The records held by ring slots `slots` when the oldest sits in slot
   * `oldest` and `n` slots are occupied: slot `oldest`, then the slots
   * after it, wrapping around the end of the array.
   */
  function View(slots: seq<seq<byte>>, oldest: nat, n: nat): (r: Records)
    requires |slots| == MAX_WRITE_OPERATIONS_SUPPORTED && oldest < MAX_WRITE_OPERATIONS_SUPPORTED
    requires n <= MAX_WRITE_OPERATIONS_SUPPORTED
    ensures |r| == n
  {
    seq(n, i requires 0 <= i < n => slots[RingSlot(oldest, i)])
  }

  /** The `i`-th record of the view is the one `i` slots on from the oldest. */
  lemma ViewAt(slots: seq<seq<byte>>, oldest: nat, n: nat, i: nat)
    requires |slots| == MAX_WRITE_OPERATIONS_SUPPORTED && oldest < MAX_WRITE_OPERATIONS_SUPPORTED
    requires n <= MAX_WRITE_OPERATIONS_SUPPORTED && i < n
    ensures View(slots, oldest, n)[i] == slots[RingSlot(oldest, i)]
  {
  }

  /**
   * With a free slot, storing a record in the slot after the newest one
   * appends it to the view.
   */
  lemma ViewAddSpare(slots: seq<seq<byte>>, oldest: nat, n: nat, add: seq<byte>)
    requires |slots| == MAX_WRITE_OPERATIONS_SUPPORTED && oldest < MAX_WRITE_OPERATIONS_SUPPORTED
    requires n < MAX_WRITE_OPERATIONS_SUPPORTED
    ensures View(slots[RingSlot(oldest, n) := add], oldest, n + 1)
         == View(slots, oldest, n) + [add]
  {
    var newest := RingSlot(oldest, n);
    var after := slots[newest := add];
    var expected := View(slots, oldest, n) + [add];
    var v := View(after, oldest, n + 1);
    forall i | 0 <= i < n + 1
      ensures v[i] == expected[i]
    {
      var slot := RingSlot(oldest, i);
      ViewAt(after, oldest, n + 1, i);
      if i < n {
        ViewAt(slots, oldest, n, i);
        SlotsDistinct(oldest, i, n);
        assert v[i] == slots[slot] == expected[i];
      } else {
        assert slot == newest;
      }
    }
  }

  /**
   * With every slot occupied, storing a record in the oldest slot and
   * moving the oldest slot on drops the oldest record and appends the new
   * one.
   */
  lemma ViewAddFull(slots: seq<seq<byte>>, oldest: nat, add: seq<byte>)
    requires |slots| == MAX_WRITE_OPERATIONS_SUPPORTED && oldest < MAX_WRITE_OPERATIONS_SUPPORTED
    ensures View(slots[oldest := add], RingSlot(oldest, 1), MAX_WRITE_OPERATIONS_SUPPORTED)
         == View(slots, oldest, MAX_WRITE_OPERATIONS_SUPPORTED)[1..] + [add]
  {
    var n := MAX_WRITE_OPERATIONS_SUPPORTED;
    var after := slots[oldest := add];
    var before := View(slots, oldest, n);
    var expected := before[1..] + [add];
    var v := View(after, (oldest + 1) % n, n);
    forall i | 0 <= i < n
      ensures v[i] == expected[i]
    {
      var slot := (oldest + 1 + i) % n;
      ViewAt(after, (oldest + 1) % n, n, i);
      ShiftSlot(oldest, i);
      if i + 1 < n {
        ViewAt(slots, oldest, n, i + 1);
        SlotsDistinct(oldest, 0, i + 1);
        assert v[i] == slots[slot] == before[i + 1] == expected[i];
      } else {
        assert slot == oldest;
      }
    }
  }

  /**
   * Emptying the oldest slot of a full ring before a commit (the kfree of
   * the record about to be overwritten) does not change what the commit
   * retains: that record is the one the commit drops.
   */
  lemma ClearOldest(slots: seq<seq<byte>>, oldest: nat, rec: seq<byte>)
    requires |slots| == MAX_WRITE_OPERATIONS_SUPPORTED && oldest < MAX_WRITE_OPERATIONS_SUPPORTED
    ensures Commit(View(slots[oldest := []], oldest, MAX_WRITE_OPERATIONS_SUPPORTED), rec)
         == Commit(View(slots, oldest, MAX_WRITE_OPERATIONS_SUPPORTED), rec)
  {
    var before := View(slots, oldest, MAX_WRITE_OPERATIONS_SUPPORTED);
    var after := View(slots[oldest := []], oldest, MAX_WRITE_OPERATIONS_SUPPORTED);
    forall i | 1 <= i < MAX_WRITE_OPERATIONS_SUPPORTED
      ensures after[i] == before[i]
    {
      ViewAt(slots, oldest, MAX_WRITE_OPERATIONS_SUPPORTED, i);
      ViewAt(slots[oldest := []], oldest, MAX_WRITE_OPERATIONS_SUPPORTED, i);
      SlotsDistinct(oldest, 0, i);
    }
    assert after[1..] == before[1..];
  }

  /**
   * add_entry on a ring with a free slot: the record goes to slot
   * `oldest + n`, `in_offs` moves on, and the retained records become the
   * commit of the new one.
   */
  lemma AddSpare(slots: seq<seq<byte>>, oldest: nat, n: nat, add: seq<byte>)
    requires |slots| == MAX_WRITE_OPERATIONS_SUPPORTED && oldest < MAX_WRITE_OPERATIONS_SUPPORTED
    requires n < MAX_WRITE_OPERATIONS_SUPPORTED
    ensures var next := RingSlot(RingSlot(oldest, n), 1);
      && next < MAX_WRITE_OPERATIONS_SUPPORTED
      && View(slots[RingSlot(oldest, n) := add], oldest, Occupied(next, oldest, next == oldest))
         == Commit(View(slots, oldest, n), add)
  {
    NextSlot(oldest, n);
    ViewAddSpare(slots, oldest, n, add);
    OccupiedAfterAdd(oldest, n);
  }

  /**
   * add_entry on a full ring: the record overwrites the oldest slot, both
   * offsets move on, and the retained records become the commit of the new
   * one.
   */
  lemma AddFull(slots: seq<seq<byte>>, oldest: nat, add: seq<byte>)
    requires |slots| == MAX_WRITE_OPERATIONS_SUPPORTED && oldest < MAX_WRITE_OPERATIONS_SUPPORTED
    ensures var next := RingSlot(oldest, 1);
      View(slots[oldest := add], next, Occupied(next, next, true))
      == Commit(View(slots, oldest, MAX_WRITE_OPERATIONS_SUPPORTED), add)
  {
    ViewAddFull(slots, oldest, add);
  }

  class CircularBuffer {
    var entry: array<seq<byte>>
    var inOffs: nat
    var outOffs: nat
    var full: bool
    /** Every record ever added, oldest first. */
    ghost var history: Records

    ghost predicate Valid()
      reads this
    {
      && entry.Length == MAX_WRITE_OPERATIONS_SUPPORTED
      && inOffs < MAX_WRITE_OPERATIONS_SUPPORTED
      && outOffs < MAX_WRITE_OPERATIONS_SUPPORTED
      && (full ==> inOffs == outOffs)
    }

    /** aesd_circular_buffer_init: every slot empty, nothing retained. */
    constructor Init()
      ensures Valid() && fresh(entry)
      ensures Contents() == []
      ensures forall i :: 0 <= i < MAX_WRITE_OPERATIONS_SUPPORTED ==> entry[i] == []
      ensures history == [] && Tracks()
    {
      entry := new seq<byte>[MAX_WRITE_OPERATIONS_SUPPORTED](_ => []);
      inOffs, outOffs, full := 0, 0, false;
      history := [];
    }

    /**
     * aesd_circular_buffer_get_count: the number of occupied slots; walking
     * that many slots on from `out_offs` arrives at `in_offs`.
     */
    function GetCount(): (n: nat)
      reads this
      requires Valid()
      ensures n <= MAX_WRITE_OPERATIONS_SUPPORTED
      ensures RingSlot(outOffs, n) == inOffs
      ensures n == MAX_WRITE_OPERATIONS_SUPPORTED <==> full
    {
      Occupied(inOffs, outOffs, full)
    }

    /** The retained records, oldest (slot `out_offs`) first. */
    ghost function Contents(): Records
      reads this, entry
      requires Valid()
    {
      View(entry[..], outOffs, GetCount())
    }

    /** The ring holds what committing its whole history to an empty ring retains. */
    ghost predicate Tracks()
      reads this, entry
      requires Valid()
    {
      Contents() == Retained(history)
    }

    /**
     * FIFO eviction on the ring itself: it holds exactly the newest
     * min(added, capacity) records ever added, in the order they were added.
     */
    lemma RetainsNewest()
      requires Valid() && Tracks()
      ensures Contents() == history[|history| - Min(|history|, MAX_WRITE_OPERATIONS_SUPPORTED)..]
    {
      RetainedIsNewestSuffix(history);
    }

    /** The bytes a reader of the device sees: every retained record, oldest first. */
    ghost function Snapshot(): seq<byte>
      reads this, entry
      requires Valid()
    {
      Flatten(Contents())
    }

    /**
     * aesd_circular_buffer_add_entry: stores `add` in slot `in_offs` as the
     * newest record; when the ring was full, `out_offs` moves on so that
     * the oldest record is dropped.
     */
    method AddEntry(add: seq<byte>)
      requires Valid()
      modifies this, entry
      ensures Valid() && entry == old(entry)
      ensures Contents() == Commit(old(Contents()), add)
      ensures history == old(history) + [add]
      ensures old(Tracks()) ==> Tracks()
    {
      ghost var slots, oldest, n := entry[..], outOffs, GetCount();
      ghost var before := Contents();
      RetainedSnoc(history, add);
      history := history + [add];
      entry[inOffs] := add;
      ghost var stored := slots[inOffs := add];
      assert entry[..] == stored;
      inOffs := RingSlot(inOffs, 1);
      if full {
        // The oldest record was overwritten: the next one becomes the
        // oldest, and the ring stays full.
        outOffs := RingSlot(outOffs, 1);
        AddFull(slots, oldest, add);
        assert Contents() == View(stored, outOffs, Occupied(outOffs, outOffs, true));
      } else {
        full := inOffs == outOffs;
        AddSpare(slots, oldest, n, add);
        assert Contents() == View(stored, oldest, Occupied(inOffs, oldest, full));
      }
      assert Contents() == Commit(before, add);
      assert before == Retained(old(history)) ==> Contents() == Retained(history);
    }

    /** The `i`-th retained record sits `i` slots on from `out_offs`. */
    lemma ContentsAt(i: nat)
      requires Valid() && i < GetCount()
      ensures Contents()[i] == entry[RingSlot(outOffs, i)]
    {
      ViewAt(entry[..], outOffs, GetCount(), i);
    }

    /**
     * aesd_circular_buffer_find_entry_offset_for_fpos: the slot holding
     * byte `charOffset` of the snapshot and the offset of that byte within
     * the slot's record, or None when the snapshot is shorter.
     */
    method FindEntryOffsetForFpos(charOffset: nat) returns (r: Option<(nat, nat)>)
      requires Valid()
      ensures r == SlotOf(outOffs, FindEntry(Contents(), charOffset))
      ensures r.Some? ==> r.value.0 < MAX_WRITE_OPERATIONS_SUPPORTED && r.value.1 < |entry[r.value.0]|
    {
      ghost var slots := entry[..];
      var count := GetCount();
      ghost var target := FindSlotFrom(slots, outOffs, count, 0, charOffset);
      var idx := outOffs;
      var offset: nat := charOffset;
      var i := 0;
      while i < count && offset >= |entry[idx]|
        invariant i <= count
        invariant idx == RingSlot(outOffs, i)
        invariant target == FindSlotFrom(slots, outOffs, count, i, offset)
      {
        offset := offset - |entry[idx]|;
        NextSlot(outOffs, i);
        idx := RingSlot(idx, 1);
        i := i + 1;
      }
      if i == count {
        r := None;
      } else {
        r := Some((idx, offset));
      }
      assert r == target;
      FindSlotFromIsFindFrom(slots, outOffs, count, 0, charOffset);
    }
  }
}
