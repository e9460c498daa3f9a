/**
 * Body framing on one connection.  What a peer delivers is a script of
 * events: a segment of bytes, a stall long enough for the socket timeout to
 * fire, or a reset.  `recv(n)` hands out at most `n` bytes of the first
 * segment and leaves the rest of it for the next call; once the script is
 * used up the peer has closed and every `recv` answers `b""`.
 *
 * Two receive loops are built on it: the text body that ends at a chunk
 * equal to `<<EOF>>` (WRITE), and the body of a declared length (UPLOAD on
 * the server, DOWNLOAD on the client).  The sending side reads a file in
 * pieces of 4096 bytes.
 */
module Framing {
  import opened Text

  /** The largest piece asked of `recv` for a body, and read from a file at once. */
  const MAX_CHUNK: nat := 4096

  /** The sentinel that ends a text body: the bytes of `<<EOF>>`. */
  const EOF_MARKER: seq<byte> := [60, 60, 69, 79, 70, 62, 62]

  /** The acknowledgment a downloading client sends: the bytes of `ACK`. */
  const ACK: seq<byte> := [65, 67, 75]

  datatype Event = Data(bytes: seq<byte>) | Stall | Reset

  /** What one `recv` gives: bytes (empty once the peer has closed), or the exception it raises. */
  datatype Received = Got(chunk: seq<byte>) | TimedOut | ResetByPeer

  /** How a receive loop ends: with a body, by an exception, or not at all. */
  datatype Body = Complete(data: seq<byte>) | PeerStalled | PeerReset | NeverEnds

  function Cost(e: Event): nat {
    match e
    case Data(b) => |b| + 1
    case _ => 1
  }

  /** A measure of what is left to deliver; every `recv` on a non-empty script lowers it. */
  function Size(s: seq<Event>): nat {
    if s == [] then 0 else Cost(s[0]) + Size(s[1..])
  }

  /** The bytes a script delivers, in order. */
  function Flat(s: seq<Event>): seq<byte> {
    if s == [] then []
    else match s[0]
      case Data(b) => b + Flat(s[1..])
      case _ => Flat(s[1..])
  }

  /** A script of byte segments only, none of them empty: a peer that neither stalls nor resets. */
  predicate Plain(s: seq<Event>) {
    forall i | 0 <= i < |s| :: s[i].Data? && s[i].bytes != []
  }

  function Concat(chunks: seq<seq<byte>>): seq<byte> {
    if chunks == [] then [] else chunks[0] + Concat(chunks[1..])
  }

  /** The segments a sender's `send` calls put on the wire; `send(b"")` puts nothing there. */
  function Wire(sends: seq<seq<byte>>): (s: seq<Event>)
    ensures Plain(s)
  {
    if sends == [] then []
    else if sends[0] == [] then Wire(sends[1..])
    else [Data(sends[0])] + Wire(sends[1..])
  }

  /** `recv(n)` on what is left of the script: the result and the script after it. */
  function Recv(s: seq<Event>, n: nat): (r: (Received, seq<Event>))
    requires n > 0
    ensures s == [] ==> r == (Got([]), [])
    ensures s != [] ==> Size(r.1) < Size(s)
    ensures r.0.Got? ==> |r.0.chunk| <= n
    ensures s != [] && s[0].Data? ==> r.0.Got? && Flat(s) == r.0.chunk + Flat(r.1)
    ensures Plain(s) && s != [] ==> r.0.Got? && r.0.chunk != [] && Plain(r.1)
  {
    if s == [] then (Got([]), [])
    else match s[0]
      case Stall => (TimedOut, s[1..])
      case Reset => (ResetByPeer, s[1..])
      case Data(b) =>
        if |b| <= n then (Got(b), s[1..])
        else
          var rest := [Data(b[n..])] + s[1..];
          assert rest[0] == Data(b[n..]) && rest[1..] == s[1..];
          assert b == b[..n] + b[n..];
          (Got(b[..n]), rest)
  }

  /** `c` in front of the body a loop goes on to receive. */
  function Prepend(c: seq<byte>, b: Body): Body {
    if b.Complete? then Complete(c + b.data) else b
  }

  /** Bytes in front of a body that is a prefix of `f` (then `m`) stay in front of `c + f`. */
  lemma PrependPrefix(c: seq<byte>, b: Body, f: seq<byte>, m: seq<byte>)
    requires b.Complete? ==> b.data + m <= f
    ensures Prepend(c, b).Complete? ==> Prepend(c, b).data + m <= c + f
  {
    if b.Complete? {
      var p := b.data + m;
      assert (c + b.data) + m == c + p;
      assert (c + f)[..|c + p|] == c + f[..|p|];
    }
  }

  lemma PrependNothing(b: Body)
    ensures Prepend([], b) == b
  {
    if b.Complete? {
      assert [] + b.data == b.data;
    }
  }

  lemma PrependTwice(a: seq<byte>, c: seq<byte>, b: Body)
    ensures Prepend(a, Prepend(c, b)) == Prepend(a + c, b)
  {
    if b.Complete? {
      assert a + (c + b.data) == (a + c) + b.data;
    }
  }

  /**
   * The text body of a WRITE: `recv(4096)` chunk after chunk, each appended,
   * until one chunk is exactly `<<EOF>>`, which is dropped.  A closed peer
   * answers `b""` forever, which is not the sentinel, so the loop never ends.
   */
  function SentinelBody(s: seq<Event>): (r: Body)
    ensures r.Complete? ==> r.data + EOF_MARKER <= Flat(s)
    decreases Size(s)
  {
    if s == [] then NeverEnds
    else
      var (got, rest) := Recv(s, MAX_CHUNK);
      match got
      case TimedOut => PeerStalled
      case ResetByPeer => PeerReset
      case Got(c) =>
        if c == EOF_MARKER then
          assert (EOF_MARKER + Flat(rest))[..|EOF_MARKER|] == [] + EOF_MARKER;
          Complete([])
        else
          PrependPrefix(c, SentinelBody(rest), Flat(rest), EOF_MARKER);
          Prepend(c, SentinelBody(rest))
  }

  /**
   * A body of declared length `size`: while fewer than `size` bytes have come,
   * `recv(min(4096, size - received))`; an empty chunk ends the loop early and
   * what has come so far is the body.
   */
  /** How much one turn of the size-bounded loop asks `recv` for: `min(4096, size)`. */
  function Want(size: int): (n: nat)
    requires size > 0
    ensures 0 < n <= MAX_CHUNK && n <= size
  {
    if size < MAX_CHUNK then size else MAX_CHUNK
  }

  function LengthBody(s: seq<Event>, size: int): (r: Body)
    ensures r.Complete? ==> |r.data| <= if size < 0 then 0 else size
    ensures !r.NeverEnds?
    decreases Size(s)
  {
    if size <= 0 then Complete([])
    else
      var (got, rest) := Recv(s, Want(size));
      match got
      case TimedOut => PeerStalled
      case ResetByPeer => PeerReset
      case Got(c) => if c == [] then Complete([]) else Prepend(c, LengthBody(rest, size - |c|))
  }

  /** The WRITE receive loop (Server.py), proved to compute `SentinelBody`. */
  method ReceiveUntilSentinel(s: seq<Event>) returns (r: Body)
    ensures r == SentinelBody(s)
  {
    var data: seq<byte> := [];
    var rest := s;
    while true
      invariant SentinelBody(s) == Prepend(data, SentinelBody(rest))
      decreases Size(rest)
    {
      if rest == [] {
        // the peer has closed: recv answers b"" for ever and the loop spins
        return NeverEnds;
      }
      var (got, next) := Recv(rest, MAX_CHUNK);
      match got {
        case TimedOut =>
          return PeerStalled;
        case ResetByPeer =>
          return PeerReset;
        case Got(chunk) =>
          if chunk == EOF_MARKER {
            assert data + [] == data;
            return Complete(data);
          }
          PrependTwice(data, chunk, SentinelBody(next));
          data := data + chunk;
          rest := next;
      }
    }
  }

  /** One turn of the size-bounded receive, case by case. */
  lemma LengthBodyStep(s: seq<Event>, size: int)
    requires size > 0
    ensures var (got, rest) := Recv(s, Want(size));
      && (got.TimedOut? ==> LengthBody(s, size) == PeerStalled)
      && (got.ResetByPeer? ==> LengthBody(s, size) == PeerReset)
      && (got == Got([]) ==> LengthBody(s, size) == Complete([]))
      && (got.Got? && got.chunk != [] ==> LengthBody(s, size) == Prepend(got.chunk, LengthBody(rest, size - |got.chunk|)))
  {
  }

  /** The length-bounded receive loop of UPLOAD and of the client's download, proved to compute `LengthBody`. */
  method ReceiveExactly(s: seq<Event>, size: int) returns (r: Body)
    ensures r == LengthBody(s, size)
  {
    var received := 0;
    var data: seq<byte> := [];
    var rest := s;
    PrependNothing(LengthBody(s, size));
    while received < size
      invariant 0 <= received == |data|
      invariant size >= 0 ==> received <= size
      invariant LengthBody(s, size) == Prepend(data, LengthBody(rest, size - received))
      decreases Size(rest)
    {
      var want := Want(size - received);
      var (got, next) := Recv(rest, want);
      LengthBodyStep(rest, size - received);
      match got {
        case TimedOut =>
          return PeerStalled;
        case ResetByPeer =>
          return PeerReset;
        case Got(chunk) =>
          if chunk == [] {
            break;
          }
          PrependTwice(data, chunk, LengthBody(next, size - (received + |chunk|)));
          data := data + chunk;
          received := received + |chunk|;
          rest := next;
      }
    }
    assert data + [] == data;
    r := Complete(data);
  }

  lemma ConcatAppend(chunks: seq<seq<byte>>, c: seq<byte>)
    ensures Concat(chunks + [c]) == Concat(chunks) + c
  {
    if chunks != [] {
      assert (chunks + [c])[1..] == chunks[1..] + [c];
      ConcatAppend(chunks[1..], c);
    }
  }

  /**
   * The read-and-send loop of the DOWNLOAD branch: `f.read(4096)` until it
   * comes back empty.  The pieces are non-empty, all but the last are full, and
   * together they are the file.
   */
  method ReadChunks(content: seq<byte>) returns (chunks: seq<seq<byte>>)
    ensures Concat(chunks) == content
    ensures forall i | 0 <= i < |chunks| :: 0 < |chunks[i]| <= MAX_CHUNK
    ensures forall i | 0 <= i < |chunks| - 1 :: |chunks[i]| == MAX_CHUNK
  {
    chunks := [];
    var pos := 0;
    while true
      invariant 0 <= pos <= |content|
      invariant Concat(chunks) == content[..pos]
      invariant forall i | 0 <= i < |chunks| :: 0 < |chunks[i]| <= MAX_CHUNK
      invariant forall i | 0 <= i < |chunks| - 1 :: |chunks[i]| == MAX_CHUNK
      invariant pos < |content| ==> forall i | 0 <= i < |chunks| :: |chunks[i]| == MAX_CHUNK
      decreases |content| - pos
    {
      var end := if |content| - pos < MAX_CHUNK then |content| else pos + MAX_CHUNK;
      var chunk := content[pos..end];
      if chunk == [] {
        break;
      }
      ConcatAppend(chunks, chunk);
      assert content[..end] == content[..pos] + chunk;
      chunks := chunks + [chunk];
      pos := end;
    }
    assert content[..pos] == content;
  }

  // ---------------------------------------------------------------------------
  // What the framings deliver.

  lemma {:induction false} FlatWire(sends: seq<seq<byte>>)
    ensures Flat(Wire(sends)) == Concat(sends)
  {
    if sends != [] {
      FlatWire(sends[1..]);
      if sends[0] != [] {
        var w := [Data(sends[0])] + Wire(sends[1..]);
        assert w[0] == Data(sends[0]) && w[1..] == Wire(sends[1..]);
      }
    }
  }

  lemma PrefixAfter(c: seq<byte>, f: seq<byte>, m: nat)
    requires m <= |f|
    ensures (c + f)[..|c| + m] == c + f[..m]
  {
  }

  /** One step of the size-bounded receive on a peer that neither stalls nor resets. */
  lemma LengthBodyPlainStep(s: seq<Event>, size: int)
    requires Plain(s) && s != [] && size > 0
    ensures var r := Recv(s, Want(size));
      && r.0.Got? && r.0.chunk != [] && |r.0.chunk| <= size && Plain(r.1) && Size(r.1) < Size(s)
      && Flat(s) == r.0.chunk + Flat(r.1)
      && LengthBody(s, size) == Prepend(r.0.chunk, LengthBody(r.1, size - |r.0.chunk|))
  {
  }

  /**
   * On a peer that neither stalls nor resets, the size-bounded receive
   * receives the first `size` bytes of what is sent, or all of it when the
   * peer closes early.
   */
  lemma {:induction false} LengthBodyOfPlain(s: seq<Event>, size: int)
    requires Plain(s)
    ensures var n := if size < 0 then 0 else if size < |Flat(s)| then size else |Flat(s)|;
      LengthBody(s, size) == Complete(Flat(s)[..n])
    decreases Size(s)
  {
    if size <= 0 {
      assert Flat(s)[..0] == [];
    } else if s != [] {
      LengthBodyPlainStep(s, size);
      var r := Recv(s, Want(size));
      var c, rest := r.0.chunk, r.1;
      LengthBodyOfPlain(rest, size - |c|);
      var m := if size - |c| < |Flat(rest)| then size - |c| else |Flat(rest)|;
      PrefixAfter(c, Flat(rest), m);
      assert (if size < |Flat(s)| then size else |Flat(s)|) == |c| + m;
      assert LengthBody(s, size) == Complete(c + Flat(rest)[..m]);
    }
  }

  /** Sending a file in pieces and receiving it with its size as the bound yields the file, byte for byte. */
  lemma TransferRoundTrip(chunks: seq<seq<byte>>)
    ensures LengthBody(Wire(chunks), |Concat(chunks)|) == Complete(Concat(chunks))
  {
    FlatWire(chunks);
    LengthBodyOfPlain(Wire(chunks), |Concat(chunks)|);
    assert Concat(chunks)[..|Concat(chunks)|] == Concat(chunks);
  }

  /** A peer that closes after `k` of the declared bytes leaves exactly those `k` bytes as the body. */
  lemma TruncatedTransfer(sent: seq<byte>, size: int)
    requires |sent| < size
    ensures LengthBody(Wire([sent]), size) == Complete(sent)
  {
    FlatWire([sent]);
    assert Concat([sent]) == sent + [];
    LengthBodyOfPlain(Wire([sent]), size);
    assert sent[..|sent|] == sent;
  }

  /** True when the 4096-byte piece `recv` gives last from `body` is exactly the sentinel. */
  predicate EndsInMarkerPiece(body: seq<byte>) {
    |body| % MAX_CHUNK == |EOF_MARKER| && body[|body| - |EOF_MARKER|..] == EOF_MARKER
  }

  lemma MarkerPieceShort(body: seq<byte>)
    requires 0 < |body| <= MAX_CHUNK
    ensures EndsInMarkerPiece(body) <==> body == EOF_MARKER
  {
    if |body| == |EOF_MARKER| {
      assert body[0..] == body;
    }
  }

  lemma MarkerPieceLong(body: seq<byte>)
    requires |body| > MAX_CHUNK
    ensures EndsInMarkerPiece(body) <==> EndsInMarkerPiece(body[MAX_CHUNK..])
  {
    var more := body[MAX_CHUNK..];
    assert |more| % MAX_CHUNK == |body| % MAX_CHUNK by {
      assert |body| == |more| + MAX_CHUNK;
    }
    if |more| >= |EOF_MARKER| {
      assert more[|more| - |EOF_MARKER|..] == body[|body| - |EOF_MARKER|..];
    }
  }

  /** One full piece comes off a segment longer than 4096 bytes, and it is not the sentinel. */
  lemma SentinelFullPiece(body: seq<byte>, tail: seq<Event>)
    requires |body| > MAX_CHUNK
    ensures SentinelBody([Data(body)] + tail) ==
      Prepend(body[..MAX_CHUNK], SentinelBody([Data(body[MAX_CHUNK..])] + tail))
  {
    var s := [Data(body)] + tail;
    assert s[0] == Data(body) && s[1..] == tail;
    assert Recv(s, MAX_CHUNK) == (Got(body[..MAX_CHUNK]), [Data(body[MAX_CHUNK..])] + tail);
    assert |body[..MAX_CHUNK]| != |EOF_MARKER|;
  }

  /** A segment of at most 4096 bytes comes off whole. */
  lemma SentinelLastPiece(body: seq<byte>, tail: seq<Event>)
    requires 0 < |body| <= MAX_CHUNK
    ensures SentinelBody([Data(body)] + tail) ==
      if body == EOF_MARKER then Complete([]) else Prepend(body, SentinelBody(tail))
  {
    var s := [Data(body)] + tail;
    assert s[0] == Data(body) && s[1..] == tail;
    assert Recv(s, MAX_CHUNK) == (Got(body), tail);
  }

  /** What a WRITE receives from a segment `body` followed by what `rest` delivers. */
  function SegmentBody(body: seq<byte>, rest: Body): Body {
    if EndsInMarkerPiece(body) then Complete(body[..|body| - |EOF_MARKER|]) else Prepend(body, rest)
  }

  /** Taking a full 4096-byte piece off the front of a long segment. */
  lemma SegmentBodyLong(body: seq<byte>, rest: Body)
    requires |body| > MAX_CHUNK
    ensures SegmentBody(body, rest) == Prepend(body[..MAX_CHUNK], SegmentBody(body[MAX_CHUNK..], rest))
  {
    var head, more := body[..MAX_CHUNK], body[MAX_CHUNK..];
    MarkerPieceLong(body);
    if EndsInMarkerPiece(more) {
      assert body[..|body| - |EOF_MARKER|] == head + more[..|more| - |EOF_MARKER|];
    } else {
      PrependTwice(head, more, rest);
      assert head + more == body;
    }
  }

  lemma {:induction false} SentinelAfterSegment(body: seq<byte>, tail: seq<Event>)
    requires body != []
    ensures SentinelBody([Data(body)] + tail) == SegmentBody(body, SentinelBody(tail))
    decreases |body|
  {
    if |body| > MAX_CHUNK {
      SentinelFullPiece(body, tail);
      SentinelAfterSegment(body[MAX_CHUNK..], tail);
      SegmentBodyLong(body, SentinelBody(tail));
    } else {
      SentinelLastPiece(body, tail);
      MarkerPieceShort(body);
    }
  }


  /**
   * The text framing round trip: a client that sends `body` and then
   * `<<EOF>>` has `body` committed, unless the last 4096-byte piece of `body`
   * is itself `<<EOF>>`, in which case the body is cut just before it.
   */
  lemma SentinelRoundTrip(body: seq<byte>)
    ensures SentinelBody(Wire([body, EOF_MARKER])) ==
      if EndsInMarkerPiece(body) then Complete(body[..|body| - |EOF_MARKER|]) else Complete(body)
  {
    var marker := [Data(EOF_MARKER)];
    assert Wire([EOF_MARKER]) == marker by {
      assert [EOF_MARKER][1..] == [];
    }
    assert Recv(marker, MAX_CHUNK) == (Got(EOF_MARKER), []);
    assert SentinelBody(marker) == Complete([]);
    if body == [] {
      assert Wire([body, EOF_MARKER]) == marker by {
        assert [body, EOF_MARKER][1..] == [EOF_MARKER];
      }
    } else {
      assert Wire([body, EOF_MARKER]) == [Data(body)] + marker by {
        assert [body, EOF_MARKER][1..] == [EOF_MARKER];
      }
      SentinelAfterSegment(body, marker);
      assert body + [] == body;
    }
  }

  /** The sentinel glued to data in one chunk is not seen: the loop runs past it and never ends. */
  lemma GluedMarkerNotRecognised(body: seq<byte>)
    requires body != [] && |body| + |EOF_MARKER| <= MAX_CHUNK
    ensures SentinelBody([Data(body + EOF_MARKER)]) == NeverEnds
  {
    var s := [Data(body + EOF_MARKER)];
    assert Recv(s, MAX_CHUNK) == (Got(body + EOF_MARKER), []);
  }

  /** An empty chunk does not end the text loop; it adds nothing and the loop goes on. */
  lemma EmptyChunkIgnored(tail: seq<Event>)
    ensures SentinelBody([Data([])] + tail) == SentinelBody(tail)
  {
    var s := [Data([])] + tail;
    assert Recv(s, MAX_CHUNK) == (Got([]), tail);
    var b := SentinelBody(tail);
    assert b.Complete? ==> [] + b.data == b.data;
  }
}
