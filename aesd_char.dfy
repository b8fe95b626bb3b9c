/**
 * The aesd character device (aesd-char-driver/main.c): writes collect
 * bytes into one pending entry until a write ends in a newline, which
 * commits the whole pending entry to the ring as one record; reads copy a
 * byte range of the concatenation of the retained records into the
 * caller's buffer. The device mutex makes each call one atomic step, so
 * every method here is a single sequential step on the device state.
 */
module AesdChar {
  import opened Bytes
  import opened Memory
  import opened AesdCircularBuffer

  /** ENOMEM; a write that cannot grow the pending entry returns -ENOMEM. */
  const ENOMEM: int := 12

  /**
   * The caller-buffer index main.c gives copy_to_user: the absolute stream
   * position `pos`, whatever the read started at.
   */
  function UserIndexAsWritten(pos: nat): nat
  {
    pos
  }

  /**
   * The caller-buffer index for stream position `pos` of a read of `count`
   * bytes that started at `fPos`: the number of bytes this read has already
   * delivered, which always lies inside the caller's `count`-byte buffer.
   */
  function UserIndex(fPos: nat, pos: nat, count: nat): (k: nat)
    requires fPos <= pos < fPos + count
    ensures k < count
    ensures fPos + k == pos
  {
    pos - fPos
  }

  /**
   * A read at offset 4 of 4 bytes: main.c copies its first byte to
   * buf[4], one past the 4-byte caller buffer, where the intended index is 0.
   */
  lemma UserIndexAsWrittenOverruns()
    ensures UserIndexAsWritten(4) >= 4 && UserIndex(4, 4, 4) == 0
  {
  }

  /** The slot aesd_cleanup_module frees for the `i`-th retained record: `out_offs + i`, unwrapped. */
  function CleanupSlotAsWritten(outOffs: nat, i: nat): nat
  {
    outOffs + i
  }

  /**
   * A full ring whose oldest record sits in slot 5 (reached after 15
   * committed records): the cleanup loop's sixth step frees entry[10], one
   * past the ring, where the intended slot is RingSlot(5, 5) == 0.
   */
  lemma CleanupSlotAsWrittenOverruns()
    ensures CleanupSlotAsWritten(5, 5) == MAX_WRITE_OPERATIONS_SUPPORTED
    ensures RingSlot(5, 5) == 0
  {
  }

  /**
   * One iteration of the read loop, on the caller's buffer: copying the
   * snapshot's next bytes behind those already delivered extends the
   * delivered prefix and keeps the rest of the buffer as it was.
   */
  lemma DeliveredGrows(orig: seq<byte>, before: seq<byte>, after: seq<byte>, snap: seq<byte>,
                       fPos: nat, pos: nat, chunk: seq<byte>)
    requires fPos <= pos && pos + |chunk| <= |snap|
    requires |orig| == |before| && pos - fPos + |chunk| <= |before|
    requires pos > fPos ==> before[..pos - fPos] == snap[fPos..pos]
    requires before[pos - fPos..] == orig[pos - fPos..]
    requires snap[pos..pos + |chunk|] == chunk
    requires after == before[..pos - fPos] + chunk + before[pos - fPos + |chunk|..]
    ensures after[..pos - fPos + |chunk|] == snap[fPos..pos + |chunk|]
    ensures after[pos - fPos + |chunk|..] == orig[pos - fPos + |chunk|..]
  {
    var k := pos - fPos;
    assert after[..k + |chunk|] == before[..k] + chunk;
    assert snap[fPos..pos + |chunk|] == snap[fPos..pos] + snap[pos..pos + |chunk|];
    assert before[k + |chunk|..] == before[k..][|chunk|..];
  }

  /**
   * copy_to_user in the read loop: the `|chunk|` snapshot bytes from
   * stream position `pos` go to the caller's buffer at index
   * UserIndex(fPos, pos, buf.Length), right behind the bytes this read has already
   * delivered; the rest of the buffer keeps its original bytes.
   */
  method CopyToUser(buf: array<byte>, fPos: nat, pos: nat, chunk: seq<byte>, ghost snap: seq<byte>, ghost orig: seq<byte>)
    requires fPos <= pos && 0 < |chunk| && pos + |chunk| <= |snap|
    requires |orig| == buf.Length && pos - fPos + |chunk| <= buf.Length
    requires pos > fPos ==> buf[..pos - fPos] == snap[fPos..pos]
    requires buf[pos - fPos..] == orig[pos - fPos..]
    requires snap[pos..pos + |chunk|] == chunk
    modifies buf
    ensures buf[..pos - fPos + |chunk|] == snap[fPos..pos + |chunk|]
    ensures buf[pos - fPos + |chunk|..] == orig[pos - fPos + |chunk|..]
  {
    ghost var before := buf[..];
    CopyInto(buf, UserIndex(fPos, pos, buf.Length), chunk);
    DeliveredGrows(orig, before, buf[..], snap, fPos, pos, chunk);
  }

  class AesdDev {
    /** aesd_device.buffer: the ring of committed records. */
    var buffer: CircularBuffer
    /** aesd_device.current_entry.buffptr: the pending entry's heap buffer, null for NULL. */
    var currentEntry: array?<byte>
    /** aesd_device.current_entry.size. */
    var currentSize: nat

    ghost predicate Valid()
      reads this, buffer
    {
      && buffer.Valid()
      && (currentEntry != null ==> currentEntry.Length == currentSize)
    }

    /** The bytes written since the last commit (none while the buffer is NULL). */
    ghost function Pending(): seq<byte>
      reads this, currentEntry
    {
      if currentEntry == null then [] else currentEntry[..]
    }

    /** The device part of aesd_init_module: an empty ring and no pending entry. */
    constructor Init()
      ensures Valid() && fresh(buffer) && fresh(buffer.entry)
      ensures buffer.Contents() == [] && currentEntry == null && currentSize == 0
      ensures buffer.history == [] && buffer.Tracks()
    {
      buffer := new CircularBuffer.Init();
      currentEntry := null;
      currentSize := 0;
    }

    /**
     * The growth step of aesd_write: allocates the pending entry's buffer
     * (or grows it by `|buf|` bytes) and copies `buf` behind the pending
     * bytes. The size is updated whether or not the allocation succeeds;
     * a failed allocation leaves no pending buffer.
     */
    method AppendPending(buf: seq<byte>, allocSucceeds: bool) returns (ok: bool)
      requires Valid() && |buf| > 0
      modifies this
      ensures Valid() && buffer == old(buffer)
      ensures ok == allocSucceeds
      ensures !ok ==>
        && currentEntry == null
        && currentSize == (if old(currentEntry) == null then |buf| else old(currentSize) + |buf|)
      ensures ok ==>
        && currentEntry != null && fresh(currentEntry)
        && Pending() == old(Pending()) + buf
        && currentSize == |Pending()|
    {
      var insertPos: nat := 0;
      var grown: array?<byte>;
      if currentEntry == null {
        grown := Allocate(|buf|, allocSucceeds);
        currentSize := |buf|;
      } else {
        insertPos := currentSize;
        grown := Reallocate(currentEntry, currentSize + |buf|, allocSucceeds);
        currentSize := currentSize + |buf|;
      }
      currentEntry := grown;
      if currentEntry == null {
        return false;
      }
      CopyInto(currentEntry, insertPos, buf);
      return true;
    }

    /**
     * The commit step of aesd_write: when the ring is full the record in
     * slot `in_offs` (the oldest) is freed, then the pending entry becomes
     * the newest record and the device forgets it.
     */
    method CommitPending()
      requires Valid() && currentEntry != null
      modifies this, buffer, buffer.entry
      ensures Valid() && buffer == old(buffer) && buffer.entry == old(buffer.entry)
      ensures currentEntry == null && currentSize == 0
      ensures buffer.Contents() == Commit(old(buffer.Contents()), old(Pending()))
      ensures buffer.history == old(buffer.history) + [old(Pending())]
      ensures old(buffer.Tracks()) ==> buffer.Tracks()
    {
      ghost var retained := buffer.Contents();
      ghost var tracked := buffer.Tracks();
      RetainedSnoc(buffer.history, currentEntry[..]);
      var rec := currentEntry[..];
      if buffer.GetCount() == MAX_WRITE_OPERATIONS_SUPPORTED {
        ghost var slots := buffer.entry[..];
        buffer.entry[buffer.inOffs] := [];
        assert buffer.entry[..] == slots[buffer.outOffs := []];
        ClearOldest(slots, buffer.outOffs, rec);
      }
      buffer.AddEntry(rec);
      assert tracked ==> buffer.Contents() == Retained(buffer.history);
      currentEntry := null;
      currentSize := 0;
    }

    /**
     * aesd_write: appends `buf` to the pending entry, growing its buffer;
     * when the last byte written is a newline, the whole pending entry
     * becomes the newest record of the ring (the oldest record is freed
     * first when the ring is full) and the pending entry is emptied.
     * `allocSucceeds` is the outcome of the kmalloc/krealloc call.
     */
    method Write(buf: seq<byte>, allocSucceeds: bool) returns (ret: int)
      requires Valid()
      modifies this, buffer, buffer.entry
      ensures Valid() && buffer == old(buffer) && buffer.entry == old(buffer.entry)
      ensures |buf| == 0 ==> ret == 0 && unchanged(this, buffer, buffer.entry)
      ensures |buf| > 0 && !allocSucceeds ==>
        && ret == -ENOMEM && currentEntry == null && unchanged(buffer, buffer.entry)
        && currentSize == (if old(currentEntry) == null then |buf| else old(currentSize) + |buf|)
      ensures |buf| > 0 && allocSucceeds ==> ret == |buf|
      ensures |buf| > 0 && allocSucceeds && buf[|buf| - 1] != NEWLINE ==>
        && Pending() == old(Pending()) + buf
        && currentSize == |Pending()|
        && unchanged(buffer, buffer.entry)
      ensures |buf| > 0 && allocSucceeds && buf[|buf| - 1] == NEWLINE ==>
        && currentEntry == null && currentSize == 0
        && buffer.Contents() == Commit(old(buffer.Contents()), old(Pending()) + buf)
        && buffer.history == old(buffer.history) + [old(Pending()) + buf]
      ensures old(buffer.Tracks()) ==> buffer.Tracks()
    {
      if |buf| == 0 {
        return 0;
      }
      var ok := AppendPending(buf, allocSucceeds);
      if !ok {
        return -ENOMEM;
      }
      if buf[|buf| - 1] == NEWLINE {
        CommitPending();
      }
      return |buf|;
    }

    /**
     * The body of one aesd_read iteration before the copy: locates stream
     * position `pos` in the ring and takes up to `want` bytes of the record
     * found there; None when `pos` lies past the retained bytes.
     */
    method NextChunk(pos: nat, want: nat) returns (chunk: Option<seq<byte>>)
      requires Valid() && want > 0
      ensures chunk.None? <==> pos >= |buffer.Snapshot()|
      ensures chunk.Some? ==>
        && 0 < |chunk.value| <= want
        && pos + |chunk.value| <= |buffer.Snapshot()|
        && buffer.Snapshot()[pos..pos + |chunk.value|] == chunk.value
      ensures chunk.Some? ==>
        && FindEntry(buffer.Contents(), pos).Some?
        && var (i, off) := FindEntry(buffer.Contents(), pos).value;
           && |chunk.value| == Min(want, |buffer.Contents()[i]| - off)
           && chunk.value == buffer.Contents()[i][off..off + |chunk.value|]
    {
      ghost var records := buffer.Contents();
      var found := buffer.FindEntryOffsetForFpos(pos);
      FindEntryNoneIffPastEnd(records, pos);
      if found.None? {
        return None;
      }
      var (slot, offset) := found.value;
      ghost var i := FindEntry(records, pos).value.0;
      buffer.ContentsAt(i);
      ghost var rec := records[i];
      assert buffer.entry[slot] == rec && FindEntry(records, pos).value == (i, offset);
      var bytesToCopy := want;
      if bytesToCopy > |buffer.entry[slot]| - offset {
        bytesToCopy := |buffer.entry[slot]| - offset;
      }
      assert bytesToCopy == Min(want, |rec| - offset);
      FindEntrySlice(records, pos, bytesToCopy);
      var bytes := buffer.entry[slot][offset..offset + bytesToCopy];
      assert bytes == rec[offset..offset + bytesToCopy] == Flatten(records)[pos..pos + bytesToCopy];
      return Some(bytes);
    }

    /**
     * One iteration of the aesd_read loop: looks up stream position `pos`
     * and copies the next bytes of the record found there behind the bytes
     * already delivered. Returns the new stream position, which equals
     * `pos` exactly when `pos` lies past the retained bytes.
     */
    method ReadStep(buf: array<byte>, count: nat, fPos: nat, pos: nat, ghost snap: seq<byte>, ghost orig: seq<byte>)
      returns (next: nat)
      requires Valid() && buffer.Snapshot() == snap
      requires count <= buf.Length && |orig| == buf.Length
      requires fPos <= pos < fPos + count
      requires pos > fPos ==> pos <= |snap| && buf[..pos - fPos] == snap[fPos..pos]
      requires buf[pos - fPos..] == orig[pos - fPos..]
      modifies buf
      ensures pos <= next <= fPos + count
      ensures next == pos <==> pos >= |snap|
      ensures next > fPos ==> next <= |snap| && buf[..next - fPos] == snap[fPos..next]
      ensures buf[next - fPos..] == orig[next - fPos..]
    {
      var chunk := NextChunk(pos, fPos + count - pos);
      if chunk.None? {
        return pos;
      }
      next := pos + |chunk.value|;
      CopyToUser(buf, fPos, pos, chunk.value, snap, orig);
    }

    /**
     * aesd_read: copies bytes `[fPos, fPos + ret)` of the snapshot (the
     * concatenation of the retained records) into `buf[0..ret)`, where
     * `ret` is `count` or, when fewer bytes remain past `fPos`, all of
     * them; returns `ret` and the advanced file position.
     */
    method Read(buf: array<byte>, count: nat, fPos: nat) returns (ret: nat, newFPos: nat)
      requires Valid()
      requires count <= buf.Length
      modifies buf
      ensures newFPos == fPos + ret
      ensures fPos >= |buffer.Snapshot()| ==> ret == 0
      ensures fPos < |buffer.Snapshot()| ==> ret == Min(count, |buffer.Snapshot()| - fPos)
      ensures ret > 0 ==> buf[..ret] == buffer.Snapshot()[fPos..fPos + ret]
      ensures buf[ret..] == old(buf[ret..])
    {
      ghost var snap := buffer.Snapshot();
      ghost var orig := buf[..];
      var pos := fPos;
      while pos < fPos + count
        invariant Valid() && buffer.Snapshot() == snap
        invariant fPos <= pos <= fPos + count
        invariant pos > fPos ==> pos <= |snap| && buf[..pos - fPos] == snap[fPos..pos]
        invariant buf[pos - fPos..] == orig[pos - fPos..]
      {
        var next := ReadStep(buf, count, fPos, pos, snap, orig);
        if next == pos {
          break;
        }
        pos := next;
      }
      ReadLength(|snap|, fPos, count, pos);
      ret := pos - fPos;
      newFPos := fPos + ret;
    }

    /**
     * Where the read loop stops: at the end of the snapshot or after
     * `count` bytes, whichever comes first; nothing when `fPos` is already
     * past the end.
     */
    static lemma ReadLength(size: nat, fPos: nat, count: nat, pos: nat)
      requires fPos <= pos <= fPos + count
      requires pos > fPos ==> pos <= size
      requires pos >= size || pos == fPos + count
      ensures fPos >= size ==> pos == fPos
      ensures fPos < size ==> pos - fPos == Min(count, size - fPos)
    {
    }

    /**
     * The freeing part of aesd_cleanup_module: the pending entry and every
     * retained record are released, slot index wrapped around the ring.
     */
    method Cleanup()
      requires Valid()
      modifies this, buffer.entry
      ensures Valid() && buffer == old(buffer) && unchanged(buffer)
      ensures currentEntry == null && Pending() == []
      ensures forall i :: 0 <= i < buffer.GetCount() ==> buffer.Contents()[i] == []
      ensures buffer.Snapshot() == []
    {
      currentEntry := null;
      var count := buffer.GetCount();
      var i := 0;
      while i < count
        invariant i <= count
        invariant buffer == old(buffer) && buffer.Valid() && count == buffer.GetCount()
        invariant currentEntry == null
        invariant forall j :: 0 <= j < i ==> buffer.entry[RingSlot(buffer.outOffs, j)] == []
      {
        buffer.entry[RingSlot(buffer.outOffs, i)] := [];
        i := i + 1;
      }
      forall j | 0 <= j < count
        ensures buffer.Contents()[j] == []
      {
        assert buffer.Contents()[j] == buffer.entry[RingSlot(buffer.outOffs, j)];
      }
      FlattenAllEmpty(buffer.Contents());
    }
  }
}
