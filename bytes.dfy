/**
 * Bytes and byte strings shared by the character driver and the socket
 * server: the byte type, the record terminator, an optional value, and the
 * concatenation of a sequence of byte strings (the "log" both programs
 * serve back to their readers).
 */
module Bytes {

  /** An unsigned 8-bit byte, as C's `char` buffers hold them. */
  newtype byte = x: int | 0 <= x < 256

  /** The record terminator '\n'. */
  const NEWLINE: byte := 10

  /** The C terminator '\0' written after a received packet. */
  const NUL: byte := 0

  datatype Option<T> = None | Some(value: T)

  /** The smaller of two lengths. */
  function Min(a: nat, b: nat): nat
  {
    if a <= b then a else b
  }

  /** The concatenation of `parts`, first part first. */
  function Flatten(parts: seq<seq<byte>>): seq<byte>
  {
    if parts == [] then [] else parts[0] + Flatten(parts[1..])
  }

  /** Concatenation distributes over sequence append. */
  lemma {:induction false} FlattenAppend(a: seq<seq<byte>>, b: seq<seq<byte>>)
    ensures Flatten(a + b) == Flatten(a) + Flatten(b)
  {
    if a == [] {
      assert a + b == b;
    } else {
      assert (a + b)[1..] == a[1..] + b;
      FlattenAppend(a[1..], b);
    }
  }

  /** Appending one more part appends its bytes. */
  lemma FlattenSnoc(a: seq<seq<byte>>, x: seq<byte>)
    ensures Flatten(a + [x]) == Flatten(a) + x
  {
    FlattenAppend(a, [x]);
    assert Flatten([x]) == x + Flatten([]);
  }

  /** Splitting the parts at `i` splits the concatenation at the length of the first `i` parts. */
  lemma {:induction false} FlattenSplit(parts: seq<seq<byte>>, i: nat)
    requires i < |parts|
    ensures Flatten(parts) == Flatten(parts[..i]) + parts[i] + Flatten(parts[i + 1..])
  {
    var tail := [parts[i]] + parts[i + 1..];
    assert parts == parts[..i] + tail;
    FlattenAppend(parts[..i], tail);
    assert tail[0] == parts[i] && tail[1..] == parts[i + 1..];
    assert Flatten(tail) == parts[i] + Flatten(parts[i + 1..]);
  }

  /** Parts that are all empty concatenate to nothing. */
  lemma {:induction false} FlattenAllEmpty(parts: seq<seq<byte>>)
    requires forall i :: 0 <= i < |parts| ==> parts[i] == []
    ensures Flatten(parts) == []
  {
    if parts != [] {
      FlattenAllEmpty(parts[1..]);
    }
  }
}
