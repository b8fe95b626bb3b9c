# aesd: the character driver's record ring and the socket server's log echo

This project models, in Dafny, the two data paths of the aesd assignment
code.

**The aesd character device** (`aesd-char-driver/main.c`).
- A write appends its bytes to one pending entry. The entry is a heap
  buffer, grown with `kmalloc`/`krealloc`.
- When a write ends in a newline, the whole pending entry is committed as
  one record to a ring of `AESDCHAR_MAX_WRITE_OPERATIONS_SUPPORTED` (10)
  records. The oldest record is dropped when the ring is full.
- A read at file offset `f_pos` returns bytes of the concatenation of the
  retained records, oldest first. The driver walks that concatenation
  record by record with `aesd_circular_buffer_find_entry_offset_for_fpos`.
- Module init leaves an empty ring and no pending entry. Module cleanup
  frees the pending entry and every retained record.

**The ring** (`aesd_circular_buffer`). Its implementation file is not part of
this model. It is rebuilt from how `main.c` uses it:
- an `entry[]` array of 10 slots;
- `in_offs`, the slot for the next record;
- `out_offs`, the slot of the oldest record;
- a `full` flag;
- `add_entry`, `get_count` and `find_entry_offset_for_fpos`.

`CircularBuffer` is a class over an `array<seq<byte>>`. Its abstract view
`Contents()` is the list of retained records, oldest first. `Snapshot()` is
their concatenation, which is what a reader sees. A ghost `history` holds every
record ever added. `Tracks()` says the ring holds `Retained(history)`, the
records that committing that history to an empty ring keeps. Init
establishes it, and add_entry and aesd_write preserve it.

**The socket server** (`server/aesdsocket.c`, the body of the accept loop).
For each connection the server does three things:
- It receives chunks of at most `BUFFER_SIZE` (1024) bytes into a packet
  that `realloc` grows. After each chunk it writes a NUL terminator. It
  stops after the first chunk that holds a newline, or when the peer stops
  sending.
- It appends the packet to `/var/tmp/aesdsocketdata`, which it opened with
  mode `"a+"`.
- It rewinds the file and sends the whole file back in pieces of at most
  `BUFFER_SIZE` bytes.

The log file is a class holding a byte sequence and a read position. `recv`
is modelled as the list of chunks the peer delivers. `Serve` runs the accept
loop over a list of connections.

The specification functions are:
- `Commit`, `Retained` and `FindEntry` for the ring;
- `ChunksConsumed` and `Packet` for the receive loop;
- `Pieces` for the echo loop;
- `LogAfter` and `Response` for a sequence of connections.

Each method is proved against these functions, and the properties the code
relies on are proved about the functions as lemmas:
- FIFO eviction;
- the lookup's iff and locating properties;
- the packet stopping at the newline chunk;
- the echo pieces concatenating back to the log.

Where `main.c` cannot be taken literally, the model does what the code
evidently means:
- `aesd_read` declares `size_t pos` twice (lines 68 and 72). The model has
  one position, starting at `*f_pos`.
- `aesd_write` uses an undeclared `insert_pos` (line 138). The model copies
  a fresh entry to offset 0 and a grown entry to the old size.
- `aesd_write` dereferences the user-space pointer `buf` directly to read
  `buf[count-1]` (line 160). The model takes the last byte copied into the
  pending entry as the intended value of that test. The two can differ; see
  "Left out".
- `aesd_read` computes `bytes_to_copy` and tests it for 0 after the lookup
  (lines 88-94). The model's loop tests `pos < f_pos + count` before the
  lookup. Both exit with the same `ret` and `f_pos`.
- The copy destination and the cleanup slot index are wrong as written.
  Both are logged under Findings. The model uses the corrected index.

## Model

| member | source | states |
|---|---|---|
| Memory.Allocate | aesd-char-driver/main.c:134 | kmalloc: a fresh buffer of the requested size exactly when allocation succeeds, NULL otherwise |
| Memory.Reallocate | server/aesdsocket.c:190 | realloc/krealloc to a larger size: NULL on failure; otherwise a fresh buffer of the new size whose first bytes are the old buffer's bytes |
| Memory.CopyInto | server/aesdsocket.c:205 | memcpy/copy_from_user to `dst + at`: the copied range holds `src`; every byte before and after it is unchanged |
| AesdCircularBuffer.CommitSnapshot | aesd-char-driver/main.c:159-177 | committing a record appends its bytes to what readers see; when the ring was full, the oldest record's bytes also vanish from the front |
| AesdCircularBuffer.Retained | aesd-char-driver/main.c:161-172 | after any sequence of commits the ring never holds more than 10 records |
| AesdCircularBuffer.RetainedIsNewestSuffix | aesd-char-driver/main.c:161-172 | FIFO eviction: after n commits the ring holds exactly the newest min(n, 10) records, in commit order |
| AesdCircularBuffer.FindFrom | aesd-char-driver/main.c:78-82 | a record found walking from record i is at index i or later, and the returned offset lies inside that record |
| AesdCircularBuffer.FindFromNoneIffPastEnd | aesd-char-driver/main.c:78-87 | the walk from record i fails if and only if the position is at or past the end of records i onwards |
| AesdCircularBuffer.FindEntryNoneIffPastEnd | aesd-char-driver/main.c:78-87 | find_entry_offset_for_fpos returns NULL if and only if fpos is at or past the total size of the retained records |
| AesdCircularBuffer.FindFromLocates | aesd-char-driver/main.c:78-82 | for a walk from record i: the records skipped hold pos - offset bytes, and the stream from pos is the rest of the found record and then every newer record |
| AesdCircularBuffer.FindEntryLocates | aesd-char-driver/main.c:78-82 | a found (entry, offset) locates fpos: the older records hold fpos - offset bytes, and reading on from fpos yields the rest of that entry and then every newer record |
| AesdCircularBuffer.FindEntryByte | aesd-char-driver/main.c:78-82 | the byte at fpos of the concatenation is the byte at the found offset of the found entry |
| AesdCircularBuffer.FindEntrySlice | aesd-char-driver/main.c:96-103 | the n bytes that copy_to_user takes from the found entry at the found offset are bytes [fpos, fpos+n) of the concatenation |
| AesdCircularBuffer.RingSlot | aesd-char-driver/main.c:239-242 | the slot i slots on from out_offs, wrapped around the array, is always one of the 10 slots (the index cleanup and every ring walk should use) |
| AesdCircularBuffer.FindSlotFromIsFindFrom | aesd-char-driver/main.c:78-82 | walking the ring slots from out_offs finds, at the same offset, the slot of the record that walking the retained records finds |
| AesdCircularBuffer.Occupied | aesd-char-driver/main.c:162 | the occupied count is at most 10; counting that many slots on from out_offs reaches in_offs; it is 10 exactly when the ring is full |
| AesdCircularBuffer.OccupiedAfterAdd | aesd-char-driver/main.c:169-172 | storing a record in a ring with a free slot occupies one more slot, and the ring becomes full exactly when in_offs catches up with out_offs |
| AesdCircularBuffer.View | aesd-char-driver/main.c:239-242 | the retained records are the occupied slots read from out_offs on, wrapping around; there are as many as the occupied count |
| AesdCircularBuffer.ViewAddSpare | aesd-char-driver/main.c:169-172 | with a free slot, storing at in_offs appends the record to the retained list and changes no other record |
| AesdCircularBuffer.ViewAddFull | aesd-char-driver/main.c:164-172 | with every slot occupied, overwriting the oldest slot and advancing out_offs drops the oldest record and appends the new one |
| AesdCircularBuffer.AddSpare | aesd-char-driver/main.c:169-172 | add_entry with a free slot: storing at in_offs and advancing it turns the retained records into Commit(old records, entry) |
| AesdCircularBuffer.AddFull | aesd-char-driver/main.c:164-172 | add_entry on a full ring: overwriting the oldest slot and advancing both offsets turns the retained records into Commit(old records, entry) |
| AesdCircularBuffer.ClearOldest | aesd-char-driver/main.c:164-167 | freeing the oldest slot of a full ring before add_entry does not change what the commit retains, because that record is the one the commit drops |
| AesdCircularBuffer.CircularBuffer.Init | aesd-char-driver/main.c:216 | aesd_circular_buffer_init: every slot empty, no record retained, an empty history, and the ring tracks its history |
| AesdCircularBuffer.CircularBuffer.GetCount | aesd-char-driver/main.c:162 | aesd_circular_buffer_get_count: at most 10; out_offs plus the count reaches in_offs; 10 exactly when full |
| AesdCircularBuffer.CircularBuffer.AddEntry | aesd-char-driver/main.c:169-172 | aesd_circular_buffer_add_entry: the retained records become Commit(old records, entry), so the new entry is newest and the oldest is dropped when full; the entry is appended to the history, and a ring that tracked its history still does; the ring invariant is kept |
| AesdCircularBuffer.CircularBuffer.RetainsNewest | aesd-char-driver/main.c:161-172 | FIFO eviction on the ring itself: a ring that tracks its history holds exactly the newest min(added, 10) records ever added, in the order they were added |
| AesdCircularBuffer.CircularBuffer.FindEntryOffsetForFpos | aesd-char-driver/main.c:78-82 | aesd_circular_buffer_find_entry_offset_for_fpos: the slot and offset of the lookup on the retained records, mapped to ring slots; the slot is in range and the offset inside its record |
| AesdChar.UserIndex | aesd-char-driver/main.c:88-101 | the corrected copy_to_user destination for stream position pos of a count-byte read from f_pos: the bytes this read has already delivered (f_pos + index == pos), always below count, so every copied byte lands inside the caller's buffer |
| AesdChar.UserIndexAsWrittenOverruns | aesd-char-driver/main.c:100-101 | a read at offset 4 of count 4 sends its first byte to buf[4] as written, past the 4-byte buffer; the intended index is 0 |
| AesdChar.CleanupSlotAsWrittenOverruns | aesd-char-driver/main.c:239-242 | a full ring with out_offs 5 makes the unwrapped cleanup index reach entry[10], past the ring; the wrapped index RingSlot(5, 5) is slot 0 |
| AesdChar.DeliveredGrows | aesd-char-driver/main.c:100-109 | one copy_to_user step on the user buffer extends the delivered prefix by the chunk and keeps the rest of the buffer |
| AesdChar.CopyToUser | aesd-char-driver/main.c:100-107 | after copy_to_user the user buffer holds snapshot bytes [fPos, pos + chunk size) at the front, and its original bytes after them |
| AesdChar.AesdDev.Init | aesd-char-driver/main.c:216-220 | aesd_init_module's device part: an empty ring with an empty history that it tracks, and a NULL pending entry of size 0 |
| AesdChar.AesdDev.AppendPending | aesd-char-driver/main.c:132-158 | kmalloc/krealloc then copy_from_user: on success the pending bytes become old pending + buf and size matches them; on failure the pending buffer is NULL and size is count on the kmalloc path, old size + count on the krealloc path, as the code sets it |
| AesdChar.AesdDev.CommitPending | aesd-char-driver/main.c:159-177 | the oldest slot is freed when full, then the pending entry is added: the retained records become Commit(old records, pending), the pending entry joins the ring's history (which the ring keeps tracking), and the pending entry is reset to NULL/0 |
| AesdChar.AesdDev.Write | aesd-char-driver/main.c:118-180 | aesd_write: 0 for an empty write with nothing changed; -ENOMEM on allocation failure with the ring unchanged; otherwise returns count, and either extends the pending entry or, when the last byte is a newline, commits pending + buf as the newest record and appends it to the ring's history; a ring that tracked its history still does |
| AesdChar.AesdDev.NextChunk | aesd-char-driver/main.c:75-98 | one read iteration's lookup and clamp: nothing exactly when pos is past the retained bytes; otherwise exactly min(want, entry size - offset) bytes of the found entry from the found offset, which are the snapshot's bytes from pos |
| AesdChar.AesdDev.ReadStep | aesd-char-driver/main.c:75-109 | one read loop iteration: the position stays put exactly when it is past the retained bytes; otherwise it advances, without passing f_pos + count, and the delivered prefix of buf grows to the snapshot bytes up to the new position while the rest of buf keeps its original bytes |
| AesdChar.AesdDev.Read | aesd-char-driver/main.c:61-116 | aesd_read: returns min(count, size - f_pos) bytes, or 0 at or past the end; buf[0..ret) holds snapshot bytes [f_pos, f_pos + ret); the rest of buf is untouched; f_pos advances by ret |
| AesdChar.AesdDev.ReadLength | aesd-char-driver/main.c:83-94 | the read loop stops after min(count, size - f_pos) bytes, or at once when f_pos is at or past the end |
| AesdChar.AesdDev.Cleanup | aesd-char-driver/main.c:234-246 | aesd_cleanup_module's freeing: the pending entry is released and every retained record is emptied, so nothing remains readable |
| AesdSocket.ChunksConsumed | server/aesdsocket.c:187-212 | the receive loop takes every chunk up to and including the first one holding a newline, all chunks when none does, and none exactly when the peer sends nothing |
| AesdSocket.ChunksConsumedUnique | server/aesdsocket.c:187-212 | any count with the loop's stopping properties is ChunksConsumed |
| AesdSocket.PacketIsPrefix | server/aesdsocket.c:187-212 | the packet is a prefix of everything the peer sent |
| AesdSocket.PacketHasNewlineIff | server/aesdsocket.c:209-211 | the packet holds a newline if and only if some chunk the peer sent does |
| AesdSocket.PacketIgnoresLaterChunks | server/aesdsocket.c:209-211 | after a chunk with a newline, nothing more is received: later chunks change neither the count consumed nor the packet |
| AesdSocket.ReceivePacket | server/aesdsocket.c:184-212 | the receive loop: the packet is NULL exactly when nothing arrives; otherwise it holds the consumed chunks' bytes, total_received bytes long, followed by a NUL |
| AesdSocket.Pieces | server/aesdsocket.c:230-234 | the pieces the echo loop sends concatenate back to the whole file |
| AesdSocket.PiecesSizes | server/aesdsocket.c:230-234 | every piece sent holds 1 to BUFFER_SIZE bytes, and every piece but the last exactly BUFFER_SIZE |
| AesdSocket.PiecesStep | server/aesdsocket.c:230-234 | one fread of BUFFER_SIZE from position p yields the next piece, and the pieces of the rest follow |
| AesdSocket.PiecesAdvance | server/aesdsocket.c:230-234 | one echo iteration: if the pieces sent so far followed by the pieces from here on are the pieces of the whole file, that still holds after sending the next piece |
| AesdSocket.PiecesCount | server/aesdsocket.c:230-234 | the echo sends ceil(size / BUFFER_SIZE) pieces, so nothing for an empty file |
| AesdSocket.LogFile.Open | server/aesdsocket.c:176 | fopen "a+": the file keeps its existing bytes and reading starts at the beginning |
| AesdSocket.LogFile.Write | server/aesdsocket.c:220-221 | fwrite + fflush: the first n packet bytes are appended to the file |
| AesdSocket.LogFile.Rewind | server/aesdsocket.c:226 | fseek to 0: contents unchanged, read position at the start |
| AesdSocket.LogFile.ReadPiece | server/aesdsocket.c:230 | fread: min(n, bytes left) bytes from the read position, which advances past them |
| AesdSocket.LogFile.SendRest | server/aesdsocket.c:230-234 | the echo loop sends exactly Pieces of the file from the read position on, and leaves the position at the end |
| AesdSocket.HandleConnection | server/aesdsocket.c:176-241 | one connection: if fopen succeeds, the log becomes log + packet and the response is the whole new log in pieces; otherwise the log is unchanged and nothing is sent |
| AesdSocket.LogAfterExtends | server/aesdsocket.c:216-223 | the log only grows: serving connections never changes a byte already written |
| AesdSocket.LogAfterAppend | server/aesdsocket.c:160-242 | serving connections a and then b leaves the same log as serving a + b |
| AesdSocket.ServeStep | server/aesdsocket.c:176-241 | handling connection i on the log left by the connections before it yields the log after i + 1 connections and the reply Response(log, cs, i) |
| AesdSocket.ResponsesExtend | server/aesdsocket.c:160-242 | appending the reply to the next connection keeps every reply the one Response prescribes for its connection |
| AesdSocket.Serve | server/aesdsocket.c:160-242 | the accept loop: the final log is LogAfter(log, connections), and the i-th response is the whole log after the i-th packet, in pieces, or nothing when its fopen failed |

## Left out

- The device mutex (main.c:70, 114, 125-178) is not modelled. Each method is one atomic step on the device state, which is what the lock guarantees. Concurrency is not modelled.
- The newline test of aesd_write (main.c:160) is modelled on the copied bytes, not on the user pointer. As written it dereferences `buf` from kernel mode. With SMAP or PAN enabled that read faults, and there is no byte to compare. Without them it races with any user thread that rewrites `buf` after copy_from_user, so the byte tested may differ from the byte stored. Neither the fault nor the race is modelled.
- copy_from_user / copy_to_user faults and their -EFAULT returns (main.c:100-107, 151-158) are not modelled. User buffers are given as values or arrays that are always accessible.
- The ring's own implementation file is not part of this model. Its fields and operations are rebuilt from their uses in main.c, with a `full` flag that distinguishes a full ring from an empty one.
- Ring slots hold a record's bytes by value, not the kmalloc'd pointer and size. Pointer ownership, kfree, and the leak of the old buffer when krealloc fails (main.c:139-143) are not modelled.
- aesd_open, aesd_release, the file_operations table, cdev setup, chrdev region allocation and unregistering (main.c:182-228, 248-255) are device registration with the kernel and are not modelled. Only the device-state parts of init and cleanup are.
- `size_t`/`loff_t` widths are not modelled. Positions and sizes are unbounded naturals, so overflow of `*f_pos + count` is not modelled.
- AesdSocket.ReceivePacket: realloc is taken to succeed. On a failed realloc, server/aesdsocket.c:190-199 frees the packet and closes the file and socket, then `continue`s the recv loop. The freed, non-NULL packet is then written to the closed file and freed again (lines 216-222). That behaviour is undefined, so no faithful model of it exists.
- Socket creation, bind/listen/accept, signal handling, syslog and the exit cleanup (server/aesdsocket.c:26-158, 244-247) are not modelled. Accept failures (lines 164-169) skip a connection and are not modelled either.
- send is taken to deliver each whole piece. Partial sends and send errors (server/aesdsocket.c:233) are not modelled. A recv error is treated as the end of the chunk list.
- The `finder-app` directory is not part of this model.

## Findings

| source | as written | input that shows it | evidently intended | confidence | as-written member | corrected member |
|---|---|---|---|---|---|---|
| aesd-char-driver/main.c:100-101 | copy_to_user writes to `&buf[pos]`, with `pos` the absolute stream position | read(count = 4) at f_pos = 4 on a device holding 8 bytes: the first byte goes to buf[4], past the caller's 4-byte buffer | destination `&buf[pos - *f_pos]`, the number of bytes already delivered | high (not executed) | AesdChar.UserIndexAsWrittenOverruns | AesdChar.UserIndex |
| aesd-char-driver/main.c:239-242 | cleanup frees `entry[out_offs + i]`, not wrapped around the ring | 15 records written: the ring is full with out_offs = 5, and step i = 5 frees entry[10], one past the 10-slot array | index `(out_offs + i) % AESDCHAR_MAX_WRITE_OPERATIONS_SUPPORTED` | high (not executed) | AesdChar.CleanupSlotAsWrittenOverruns | AesdCircularBuffer.RingSlot |
