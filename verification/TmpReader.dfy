/**
 Byte streams: reading frames and messages from one that may hand the octets over in pieces
 of any size, and sending on one that may refuse any send.
 */
module TmpReader {
  import opened Bytes
  import opened TmpWire

  // ----- what the network has in store

  /** The octets to come, how reception ends after them, the sends tried so far, and which sends go through. */
  datatype Line = Line(incoming: bytes, ending: Failure, tries: nat, accepts: nat -> bool)

  /** How many of `n` sends from the one numbered `from` on go through before one is refused. */
  function Went(accepts: nat -> bool, from: nat, n: nat): (k: nat)
    ensures k <= n
    decreases n
  {
    if n == 0 || !accepts(from) then 0 else 1 + Went(accepts, from + 1, n - 1)
  }

  /** How many of the next `n` sends go through, where the first refusal ends them. */
  function Sendable(line: Line, n: nat): (k: nat)
    ensures k <= n
  {
    Went(line.accepts, line.tries, n)
  }

  predicate Through(line: Line, n: nat) {
    Sendable(line, n) == n
  }

  /** The line after as many of the next `n` sends were tried. */
  function Tried(line: Line, n: nat): Line {
    line.(tries := line.tries + if Through(line, n) then n else Sendable(line, n) + 1)
  }

  lemma {:induction false} WentInTurn(accepts: nat -> bool, from: nat, m: nat, n: nat)
    ensures var k := Went(accepts, from, m);
            Went(accepts, from, m + n) == if k < m then k else m + Went(accepts, from + m, n)
    decreases m
  {
    if m > 0 && accepts(from) {
      WentInTurn(accepts, from + 1, m - 1, n);
    }
  }

  /** Trying `m` sends and then, if all went through, `n` more is trying `m + n` of them. */
  lemma TriedInTurn(line: Line, m: nat, n: nat)
    ensures Through(line, m) ==>
              && Sendable(line, m + n) == m + Sendable(Tried(line, m), n)
              && Tried(line, m + n) == Tried(Tried(line, m), n)
    ensures !Through(line, m) ==>
              Sendable(line, m + n) == Sendable(line, m) && Tried(line, m + n) == Tried(line, m)
  {
    WentInTurn(line.accepts, line.tries, m, n);
  }

  // ----- the stream

  /** A connected stream: what the peer will still deliver, and what was sent, call by call. */
  class TmpStream {
    var incoming: bytes
    var sent: seq<bytes>
    var tries: nat
    var closed: bool
    /** How reception ends once `incoming` is exhausted. */
    const ending: Failure
    /** Whether the send of a given number goes through; the program finds out by trying. */
    const accepts: nat -> bool

    ghost function Outlook(): Line
      reads this
    {
      Line(incoming, ending, tries, accepts)
    }

    ghost predicate Valid()
      reads this
    {
      ending.UnexpectedEof? || ending.TransportLost?
    }

    constructor (incoming: bytes, ending: Failure, accepts: nat -> bool)
      requires ending.UnexpectedEof? || ending.TransportLost?
      ensures Valid() && Outlook() == Line(incoming, ending, 0, accepts)
      ensures sent == [] && !closed
    {
      this.incoming, this.ending, this.accepts := incoming, ending, accepts;
      sent, tries, closed := [], 0, false;
    }

    /** Hands over some of the octets asked for; the contract is all a caller knows of the split. */
    method Recv(size: nat) returns (chunk: bytes)
      requires size > 0
      modifies this`incoming
      ensures chunk + incoming == old(incoming)
      ensures |chunk| <= size
      ensures chunk == [] <==> old(incoming) == []
    {
      if incoming == [] {
        return [];
      }
      var n: nat :| 1 <= n <= size && n <= |incoming|;
      chunk, incoming := incoming[..n], incoming[n..];
    }

    /** `sendall`: a refused send is a transport error, and nothing of it is recorded. */
    method SendAll(data: bytes) returns (ok: bool)
      modifies this`sent, this`tries
      ensures ok == Through(old(Outlook()), 1)
      ensures Outlook() == Tried(old(Outlook()), 1)
      ensures sent == old(sent) + [data][..Sendable(old(Outlook()), 1)]
    {
      assert Went(accepts, tries + 1, 0) == 0;
      ok := accepts(tries);
      tries := tries + 1;
      if ok {
        sent := sent + [data];
      }
    }

    method Close()
      modifies this`closed
      ensures closed
    {
      closed := true;
    }
  }

  /** `_read_exact`: however the stream splits the octets, the first `size` of them or a failure. */
  method ReadExact(stream: TmpStream, size: nat) returns (r: Result<bytes>)
    requires stream.Valid()
    modifies stream`incoming
    ensures Parse(r, stream.incoming) == Take(old(stream.incoming), size, stream.ending)
  {
    var result: bytes := [];
    while |result| < size
      invariant |result| <= size
      invariant result + stream.incoming == old(stream.incoming)
    {
      var chunk := stream.Recv(size - |result|);
      if chunk == [] {
        assert old(stream.incoming) == result;
        return Err(stream.ending);
      }
      result := result + chunk;
    }
    assert old(stream.incoming)[..size] == result;
    assert old(stream.incoming)[size..] == stream.incoming;
    return Ok(result);
  }

  /** `_read_frame`, refining the description of it on the octets themselves. */
  method ReadFrame(stream: TmpStream) returns (r: Result<Frame>)
    requires stream.Valid()
    modifies stream`incoming
    ensures Parse(r, stream.incoming) == ParseFrame(old(stream.incoming), stream.ending)
  {
    hide CheckFrame;
    var general := ReadExact(stream, 4);
    if general.Err? {
      return Err(general.failure);
    }
    var g := general.value;
    if g[2] != DATA {
      return Ok(Frame(g[0], g[1], g[2], g[3], 0, 0, 0, 0, []));
    }
    var transfer := ReadExact(stream, 12);
    if transfer.Err? {
      return Err(transfer.failure);
    }
    var size := Unpack16(transfer.value[..2]);
    if size > MAX_RESPONSE_SIZE {
      return Err(OversizedFrame);
    }
    var payload := ReadExact(stream, size);
    if payload.Err? {
      return Err(payload.failure);
    }
    return CheckFrame(g, transfer.value, payload.value);
  }

  /** `_read_message`. */
  method ReadMessage(stream: TmpStream) returns (r: Result<Inbound>)
    requires stream.Valid()
    modifies stream`incoming
    ensures Parse(r, stream.incoming) == ParseMessage(old(stream.incoming), stream.ending)
  {
    hide ParseFrame, Interpret;
    var frame := ReadFrame(stream);
    if frame.Err? {
      return Err(frame.failure);
    }
    return Interpret(frame.value);
  }
}
