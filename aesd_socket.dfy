/**
 * The per-connection work of the aesdsocket server (server/aesdsocket.c,
 * the body of the accept loop in main): receive chunks into a growing heap
 * packet until a chunk holds a newline or the peer stops sending, append
 * the packet to the log file, then send the whole log back in pieces of at
 * most BUFFER_SIZE bytes. `recv` is modelled as the list of non-empty
 * chunks the peer delivers (its end is the peer closing or an error), and
 * the log file as a byte sequence.
 */
module AesdSocket {
  import opened Bytes
  import opened Memory

  /** The size of the server's stack buffer used for both recv and fread. */
  const BUFFER_SIZE: nat := 1024

  /** What recv can deliver: every chunk holds between 1 and BUFFER_SIZE bytes. */
  predicate ValidChunks(chunks: seq<seq<byte>>)
  {
    forall j :: 0 <= j < |chunks| ==> 0 < |chunks[j]| <= BUFFER_SIZE
  }

  /**
   * The number of chunks the receive loop takes: every chunk up to and
   * including the first one that holds a newline, or all of them.
   */
  function ChunksConsumed(chunks: seq<seq<byte>>): (k: nat)
    ensures k <= |chunks|
    ensures k == 0 <==> chunks == []
    ensures forall j :: 0 <= j < k - 1 ==> NEWLINE !in chunks[j]
    ensures k < |chunks| ==> NEWLINE in chunks[k - 1]
  {
    if chunks == [] then 0
    else if NEWLINE in chunks[0] then 1
    else 1 + ChunksConsumed(chunks[1..])
  }

  /** The bytes of one connection's packet: the consumed chunks, concatenated. */
  function Packet(chunks: seq<seq<byte>>): seq<byte>
  {
    Flatten(chunks[..ChunksConsumed(chunks)])
  }

  /**
   * ChunksConsumed is the only count with its defining properties, so a
   * loop that stops at such a count has consumed exactly ChunksConsumed.
   */
  lemma ChunksConsumedUnique(chunks: seq<seq<byte>>, k: nat)
    requires k <= |chunks|
    requires k == 0 <==> chunks == []
    requires forall j :: 0 <= j < k - 1 ==> NEWLINE !in chunks[j]
    requires k < |chunks| ==> NEWLINE in chunks[k - 1]
    ensures k == ChunksConsumed(chunks)
  {
  }

  /** The packet is a prefix of everything the peer sent. */
  lemma PacketIsPrefix(chunks: seq<seq<byte>>)
    ensures Packet(chunks) <= Flatten(chunks)
  {
    var k := ChunksConsumed(chunks);
    assert chunks == chunks[..k] + chunks[k..];
    FlattenAppend(chunks[..k], chunks[k..]);
  }

  /** A byte occurs in a concatenation exactly when it occurs in one of the parts. */
  lemma {:induction false} FlattenContains(parts: seq<seq<byte>>, b: byte)
    ensures b in Flatten(parts) <==> exists j :: 0 <= j < |parts| && b in parts[j]
  {
    if parts != [] {
      FlattenContains(parts[1..], b);
      assert Flatten(parts) == parts[0] + Flatten(parts[1..]);
      if exists j :: 0 <= j < |parts| && b in parts[j] {
        var j :| 0 <= j < |parts| && b in parts[j];
        if j > 0 {
          assert b in parts[1..][j - 1];
        }
      }
      if exists j :: 0 <= j < |parts[1..]| && b in parts[1..][j] {
        var j :| 0 <= j < |parts[1..]| && b in parts[1..][j];
        assert b in parts[j + 1];
      }
    }
  }

  /** The packet holds a newline exactly when some chunk the peer sent does. */
  lemma PacketHasNewlineIff(chunks: seq<seq<byte>>)
    ensures NEWLINE in Packet(chunks) <==> exists j :: 0 <= j < |chunks| && NEWLINE in chunks[j]
  {
    var k := ChunksConsumed(chunks);
    FlattenContains(chunks[..k], NEWLINE);
    if exists j :: 0 <= j < |chunks| && NEWLINE in chunks[j] {
      var j :| 0 <= j < |chunks| && NEWLINE in chunks[j];
      if k < |chunks| {
        assert NEWLINE in chunks[..k][k - 1];
      } else {
        assert NEWLINE in chunks[..k][j];
      }
    }
  }

  /**
   * Chunks that follow the newline chunk are never read: once some chunk
   * of `a` holds a newline, whatever the peer sends after `a` leaves the
   * packet unchanged.
   */
  lemma {:induction false} PacketIgnoresLaterChunks(a: seq<seq<byte>>, b: seq<seq<byte>>)
    requires exists j :: 0 <= j < |a| && NEWLINE in a[j]
    ensures ChunksConsumed(a + b) == ChunksConsumed(a)
    ensures Packet(a + b) == Packet(a)
  {
    if NEWLINE !in a[0] {
      var j :| 0 <= j < |a| && NEWLINE in a[j];
      assert NEWLINE in a[1..][j - 1];
      assert (a + b)[1..] == a[1..] + b;
      PacketIgnoresLaterChunks(a[1..], b);
    }
    var k := ChunksConsumed(a);
    assert (a + b)[..k] == a[..k];
  }

  /**
   * The receive loop (server/aesdsocket.c:184-212): each chunk grows the
   * packet to `total_received + bytes_received + 1` bytes, is copied
   * behind the bytes already held, and is followed by a NUL; the loop stops
   * after the first chunk that holds a newline. `packet` stays NULL when
   * the peer sends nothing.
   */
  method ReceivePacket(chunks: seq<seq<byte>>) returns (packet: array?<byte>, totalReceived: nat, consumed: nat)
    requires ValidChunks(chunks)
    ensures consumed == ChunksConsumed(chunks)
    ensures packet == null <==> chunks == []
    ensures totalReceived == |Packet(chunks)|
    ensures packet != null ==>
      && packet.Length == totalReceived + 1
      && packet[..totalReceived] == Packet(chunks)
      && packet[totalReceived] == NUL
  {
    packet := null;
    totalReceived := 0;
    consumed := 0;
    while consumed < |chunks|
      invariant consumed <= |chunks|
      invariant packet == null <==> consumed == 0
      invariant forall j :: 0 <= j < consumed ==> NEWLINE !in chunks[j]
      invariant totalReceived == |Flatten(chunks[..consumed])|
      invariant packet != null ==>
        && fresh(packet)
        && packet.Length == totalReceived + 1
        && packet[..totalReceived] == Flatten(chunks[..consumed])
        && packet[totalReceived] == NUL
    {
      var chunk := chunks[consumed];
      var grown := Reallocate(packet, totalReceived + |chunk| + 1, true);
      assert grown[..totalReceived] == Flatten(chunks[..consumed]) by {
        if packet != null {
          assert grown[..totalReceived] == grown[..packet.Length][..totalReceived];
        }
      }
      packet := grown;
      CopyInto(packet, totalReceived, chunk);
      assert packet[..totalReceived + |chunk|] == Flatten(chunks[..consumed]) + chunk;
      totalReceived := totalReceived + |chunk|;
      packet[totalReceived] := NUL;
      assert packet[..totalReceived] == Flatten(chunks[..consumed]) + chunk;
      assert chunks[..consumed + 1] == chunks[..consumed] + [chunk];
      FlattenSnoc(chunks[..consumed], chunk);
      consumed := consumed + 1;
      if NEWLINE in chunk {
        break;
      }
    }
    ChunksConsumedUnique(chunks, consumed);
  }

  /**
   * The pieces the echo loop sends for bytes `d`: fread hands back
   * BUFFER_SIZE bytes at a time, and the remainder last.
   */
  function Pieces(d: seq<byte>): (ps: seq<seq<byte>>)
    ensures Flatten(ps) == d
    decreases |d|
  {
    if |d| == 0 then []
    else
      var n := Min(|d|, BUFFER_SIZE);
      var rest := Pieces(d[n..]);
      assert ([d[..n]] + rest)[1..] == rest;
      [d[..n]] + rest
  }

  /** Every piece holds 1 to BUFFER_SIZE bytes, and every piece but the last exactly BUFFER_SIZE. */
  lemma {:induction false} PiecesSizes(d: seq<byte>)
    ensures forall j :: 0 <= j < |Pieces(d)| ==> 0 < |Pieces(d)[j]| <= BUFFER_SIZE
    ensures forall j :: 0 <= j < |Pieces(d)| - 1 ==> |Pieces(d)[j]| == BUFFER_SIZE
    decreases |d|
  {
    if |d| > 0 {
      var n := Min(|d|, BUFFER_SIZE);
      PiecesSizes(d[n..]);
      var ps := Pieces(d);
      assert ps == [d[..n]] + Pieces(d[n..]);
      forall j | 1 <= j < |ps|
        ensures ps[j] == Pieces(d[n..])[j - 1]
      {
      }
    }
  }

  /** Reading on from byte `p` of `d` yields the next piece and then the pieces of what follows it. */
  lemma PiecesStep(d: seq<byte>, p: nat)
    requires p < |d|
    ensures var n := Min(|d| - p, BUFFER_SIZE);
      Pieces(d[p..]) == [d[p..p + n]] + Pieces(d[p + n..])
  {
    var n := Min(|d| - p, BUFFER_SIZE);
    assert d[p..][..n] == d[p..p + n];
    assert d[p..][n..] == d[p + n..];
  }

  /**
   * One turn of the echo loop: when the pieces already sent followed by the
   * pieces from `from` on are the pieces from `start` on, sending the next
   * piece keeps that so from the byte after it.
   */
  lemma PiecesAdvance(d: seq<byte>, start: nat, from: nat, sent: seq<seq<byte>>, piece: seq<byte>)
    requires start <= from < |d|
    requires piece == d[from..from + Min(|d| - from, BUFFER_SIZE)]
    requires sent + Pieces(d[from..]) == Pieces(d[start..])
    ensures (sent + [piece]) + Pieces(d[from + |piece|..]) == Pieces(d[start..])
  {
    PiecesStep(d, from);
    var rest := Pieces(d[from + |piece|..]);
    assert (sent + [piece]) + rest == sent + ([piece] + rest);
  }

  /** Nothing to send for an empty log, and the number of pieces is the byte count rounded up. */
  lemma {:induction false} PiecesCount(d: seq<byte>)
    ensures |Pieces(d)| == (|d| + BUFFER_SIZE - 1) / BUFFER_SIZE
    decreases |d|
  {
    if |d| > BUFFER_SIZE {
      PiecesCount(d[BUFFER_SIZE..]);
    }
  }

  /**
   * The log file as the server opens it with fopen(FILEPATH, "a+"): every
   * write goes to the end of the file; reads start at `position`.
   */
  class LogFile {
    /** The bytes of /var/tmp/aesdsocketdata. */
    var data: seq<byte>
    /** The stream's read position. */
    var position: nat

    ghost predicate Valid()
      reads this
    {
      position <= |data|
    }

    /** fopen(FILEPATH, "a+") on a file holding `existing`, read position at the start. */
    constructor Open(existing: seq<byte>)
      ensures Valid() && data == existing && position == 0
    {
      data := existing;
      position := 0;
    }

    /** fwrite(src, 1, n, fd) followed by fflush: the first `n` bytes of `src` go to the end of the file. */
    method Write(src: array<byte>, n: nat)
      requires Valid() && n <= src.Length
      modifies this
      ensures Valid() && data == old(data) + src[..n] && position == |data|
    {
      data := data + src[..n];
      position := |data|;
    }

    /** fseek(fd, 0, SEEK_SET). */
    method Rewind()
      requires Valid()
      modifies this
      ensures Valid() && data == old(data) && position == 0
    {
      position := 0;
    }

    /** fread(buffer, 1, n, fd): up to `n` bytes from the read position, which advances past them. */
    method ReadPiece(n: nat) returns (piece: seq<byte>)
      requires Valid()
      modifies this
      ensures Valid() && data == old(data)
      ensures |piece| == Min(n, |data| - old(position))
      ensures piece == data[old(position)..old(position) + |piece|]
      ensures position == old(position) + |piece|
    {
      var k := Min(n, |data| - position);
      piece := data[position..position + k];
      position := position + k;
    }

    /**
     * The echo loop (server/aesdsocket.c:230-234): fread BUFFER_SIZE bytes
     * at a time and send each piece, until fread returns nothing.
     */
    method SendRest() returns (sent: seq<seq<byte>>)
      requires Valid()
      modifies this
      ensures Valid() && data == old(data) && position == |data|
      ensures sent == Pieces(old(data)[old(position)..])
    {
      ghost var d, start := data, position;
      sent := [];
      while true
        invariant Valid() && data == d && start <= position
        invariant sent + Pieces(d[position..]) == Pieces(d[start..])
        decreases |d| - position
      {
        ghost var from := position;
        var piece := ReadPiece(BUFFER_SIZE);
        if |piece| == 0 {
          break;
        }
        PiecesAdvance(d, start, from, sent, piece);
        sent := sent + [piece];
      }
    }
  }

  /**
   * One accepted connection (server/aesdsocket.c:176-241), on a log file
   * holding `log`: when the file opens, the received packet is appended
   * and the whole log is sent back; when it does not, the connection is
   * closed with nothing appended and nothing sent.
   */
  method HandleConnection(log: seq<byte>, chunks: seq<seq<byte>>, openSucceeds: bool)
    returns (newLog: seq<byte>, response: seq<seq<byte>>)
    requires ValidChunks(chunks)
    ensures openSucceeds ==> newLog == log + Packet(chunks) && response == Pieces(newLog)
    ensures !openSucceeds ==> newLog == log && response == []
  {
    if !openSucceeds {
      return log, [];
    }
    var fd := new LogFile.Open(log);
    var packet, totalReceived, consumed := ReceivePacket(chunks);
    if packet != null {
      fd.Write(packet, totalReceived);
    } else {
      assert Packet(chunks) == [];
    }
    fd.Rewind();
    response := fd.SendRest();
    assert fd.data[0..] == fd.data;
    newLog := fd.data;
  }

  /** One connection the server accepts: whether the log file opened, and what the peer sends. */
  datatype Connection = Connection(fileOpens: bool, chunks: seq<seq<byte>>)

  /** The bytes a connection adds to the log. */
  function Committed(c: Connection): seq<byte>
  {
    if c.fileOpens then Packet(c.chunks) else []
  }

  /** The log after serving `cs` in order, starting from `log`. */
  function LogAfter(log: seq<byte>, cs: seq<Connection>): seq<byte>
    decreases |cs|
  {
    if cs == [] then log else LogAfter(log, cs[..|cs| - 1]) + Committed(cs[|cs| - 1])
  }

  /** The reply to the `k`-th connection of `cs`: the whole log after its packet, or nothing when the file did not open. */
  function Response(log: seq<byte>, cs: seq<Connection>, k: nat): seq<seq<byte>>
    requires k < |cs|
  {
    if cs[k].fileOpens then Pieces(LogAfter(log, cs[..k + 1])) else []
  }

  /** The log only grows: serving connections appends and changes no earlier byte. */
  lemma {:induction false} LogAfterExtends(log: seq<byte>, cs: seq<Connection>)
    ensures log <= LogAfter(log, cs)
    decreases |cs|
  {
    if cs != [] {
      LogAfterExtends(log, cs[..|cs| - 1]);
    }
  }

  /** Serving `a` and then `b` is serving `a + b`. */
  lemma {:induction false} LogAfterAppend(log: seq<byte>, a: seq<Connection>, b: seq<Connection>)
    ensures LogAfter(LogAfter(log, a), b) == LogAfter(log, a + b)
    decreases |b|
  {
    if b == [] {
      assert a + b == a;
    } else {
      var ab := a + b;
      assert ab[..|ab| - 1] == a + b[..|b| - 1] && ab[|ab| - 1] == b[|b| - 1];
      LogAfterAppend(log, a, b[..|b| - 1]);
    }
  }

  /**
   * One turn of the accept loop: handling connection `i` on the log left by
   * the connections before it leaves the log of the first `i + 1`
   * connections and answers with Response(log, cs, i).
   */
  lemma ServeStep(log: seq<byte>, cs: seq<Connection>, i: nat, prevLog: seq<byte>, newLog: seq<byte>, response: seq<seq<byte>>)
    requires i < |cs| && prevLog == LogAfter(log, cs[..i])
    requires cs[i].fileOpens ==> newLog == prevLog + Packet(cs[i].chunks) && response == Pieces(newLog)
    requires !cs[i].fileOpens ==> newLog == prevLog && response == []
    ensures newLog == LogAfter(log, cs[..i + 1])
    ensures response == Response(log, cs, i)
  {
    assert cs[..i + 1][..i] == cs[..i];
  }

  /** Appending the reply to connection `|responses|` keeps every reply the one Response prescribes. */
  lemma ResponsesExtend(log: seq<byte>, cs: seq<Connection>, responses: seq<seq<seq<byte>>>, response: seq<seq<byte>>)
    requires |responses| < |cs|
    requires forall k :: 0 <= k < |responses| ==> responses[k] == Response(log, cs, k)
    requires response == Response(log, cs, |responses|)
    ensures forall k :: 0 <= k < |responses| + 1 ==> (responses + [response])[k] == Response(log, cs, k)
  {
  }

  /** Every connection's chunks are what recv can deliver. */
  predicate ValidConnections(cs: seq<Connection>)
  {
    forall i :: 0 <= i < |cs| ==> ValidChunks(cs[i].chunks)
  }

  /**
   * The accept loop of main, over the connections accepted so far, one at
   * a time: the response to each connection whose file opened is the
   * whole log as it stands after that connection's packet.
   */
  method Serve(log: seq<byte>, cs: seq<Connection>) returns (finalLog: seq<byte>, responses: seq<seq<seq<byte>>>)
    requires ValidConnections(cs)
    ensures finalLog == LogAfter(log, cs)
    ensures |responses| == |cs|
    ensures forall i :: 0 <= i < |cs| ==> responses[i] == Response(log, cs, i)
  {
    finalLog := log;
    responses := [];
    var i := 0;
    while i < |cs|
      invariant i <= |cs|
      invariant finalLog == LogAfter(log, cs[..i])
      invariant |responses| == i
      invariant forall k :: 0 <= k < i ==> responses[k] == Response(log, cs, k)
    {
      ghost var prevLog := finalLog;
      var response;
      finalLog, response := HandleConnection(finalLog, cs[i].chunks, cs[i].fileOpens);
      ServeStep(log, cs, i, prevLog, finalLog, response);
      ResponsesExtend(log, cs, responses, response);
      responses := responses + [response];
      i := i + 1;
    }
    assert cs[..|cs|] == cs;
  }
}
