/** Sending a request body: slices of a stream buffer go to a socket that may refuse any of them. */
module HttpPump {
  import opened Bytes
  import opened HttpText
  import opened HttpParse
  import opened HttpChunk

  const READ_CHUNK: nat := 8192

  /** The body of one request on its way out. What the socket answers, how the buffer's ring happens to
      be cut into segments, and when the other end breaks the stream are for the environment to choose. */
  class BodyPump {
    const chunked: bool             // the length was not known up front
    const pull: bool                // the buffer asks its producer; otherwise it is written to
    const accepts: nat -> bool      // the socket's answer to the n-th send
    const segment: nat -> nat       // the length of the n-th ring segment met
    const breaks: nat -> bool       // the stream is broken while the n-th pass is under way

    var sends: nat
    var passes: nat
    var attached: bool              // the stream buffer has not been released
    var buffered: ByteSeq
    var source: ByteSeq             // what a pull producer has yet to hand over
    var fuel: Option<nat>           // how much more it can hand over before it fails, if it is to fail
    var more: bool                  // the producer has not finished
    var error: bool
    var bodySent: nat
    var bodyRefused: bool
    var writing: bool
    var wire: ByteSeq               // everything the socket has accepted

    ghost var pieces: seq<ByteSeq>
    ghost var produced: ByteSeq
    ghost var stale: nat            // how much of the buffer the socket has already accepted

    ghost predicate PiecesOk() reads this { forall i :: 0 <= i < |pieces| ==> 0 < |pieces[i]| <= READ_CHUNK }

    ghost function Framed(): ByteSeq reads this { if chunked then Chunks(pieces) else Concat(pieces) }

    /** The wire holds exactly the pieces accepted so far, and the stream is in order. */
    ghost predicate Sound() reads this {
      && PiecesOk()
      && wire == (if chunked && !writing then ChunkFinish(Framed()) else Framed())
      && (!attached ==> buffered == [] && !more)
      && (!writing ==> !attached)
      && (!pull ==> source == [])
      && (pull && !more && !error ==> source == [])
      && (error ==> !more)
    }

    /** And nothing produced is lost, repeated or out of order on the wire; only a stream that is broken
        keeps what was sent. */
    ghost predicate Valid() reads this {
      && Sound() && stale <= |buffered| && produced == Concat(pieces) + buffered[stale..]
      && (stale > 0 ==> error)
    }

    /** A stream that broke with bytes in its buffer: nothing can be sent from it, and nothing dropped. */
    ghost predicate Hung() reads this { Valid() && error && attached && buffered != [] && writing }

    /** A producer that is asked for everything will fail on the way. */
    predicate WillFail() reads this { Fails(fuel, |source|) }

    constructor (chunked: bool, pull: bool, source: ByteSeq, fuel: Option<nat>, accepts: nat -> bool,
                 segment: nat -> nat, breaks: nat -> bool)
      requires !pull ==> source == []
      ensures Valid() && writing && attached && more && !error && wire == []
      ensures this.chunked == chunked && this.pull == pull && this.accepts == accepts && this.segment == segment
      ensures this.breaks == breaks && this.source == source && this.fuel == fuel && produced == [] && buffered == []
    {
      this.chunked, this.pull, this.accepts, this.segment, this.breaks := chunked, pull, accepts, segment, breaks;
      sends, passes, attached, buffered, this.source, this.fuel := 0, 0, true, [], source, fuel;
      more, error := true, false;
      bodySent, bodyRefused, writing, wire := 0, false, true, [];
      pieces, produced, stale := [], [], 0;
    }

    /** A push producer writes. */
    method Produce(bytes: ByteSeq)
      requires Valid() && attached && more && !pull
      modifies this
      ensures Valid() && produced == old(produced) + bytes && wire == old(wire) && pieces == old(pieces)
      ensures attached && more && writing == old(writing)
    {
      hide Chunks, Concat, ChunkFinish;
      buffered, produced := buffered + bytes, produced + bytes;
      assert Concat(pieces) + (old(buffered) + bytes) == Concat(pieces) + old(buffered) + bytes;
    }

    /** A push producer finishes. */
    method Finish()
      requires Valid() && !pull
      modifies this`more
      ensures Valid() && !more
    {
      more := false;
    }

    /** Either end breaks the stream. */
    method Fail()
      requires Valid() && attached
      modifies this`more, this`error
      ensures Valid() && error && !more
    {
      error, more := true, false;
    }

    /** How much a pull producer gives when asked for `n`. */
    function Gives(n: nat): nat
      reads this
    {
      Share(fuel, |source|, n)
    }

    /** The producer puts the next `n` bytes into the buffer. */
    method Hand(n: nat)
      requires Valid() && pull && attached && more && n <= |source|
      modifies this`buffered, this`source, this`produced
      ensures Valid() && buffered + source == old(buffered + source) && old(buffered) <= buffered
      ensures produced + source == old(produced + source)
      ensures |buffered| == |old(buffered)| + n && |source| == |old(source)| - n
    {
      hide Chunks, Concat, ChunkFinish;
      ghost var x, y := source[..n], source[n..];
      assert source == x + y;
      assert (buffered + x)[stale..] == buffered[stale..] + x;
      assert Concat(pieces) + (buffered[stale..] + x) == Concat(pieces) + buffered[stale..] + x;
      buffered, source, produced := buffered + source[..n], source[n..], produced + x;
      assert old(buffered) + x + y == old(buffered) + (x + y) && old(produced) + x + y == old(produced) + (x + y);
    }

    /** Asks a pull producer for what is missing. A short answer is its last: it has ended, or it has
        failed, and then it hands over what it had gathered all the same. */
    method Feed(want: nat)
      requires Valid() && pull && attached && !error
      modifies this`buffered, this`source, this`fuel, this`more, this`error, this`produced
      ensures Valid() && buffered + source == old(buffered + source) && old(buffered) <= buffered
      ensures produced + source == old(produced + source)
      ensures var asked := old(more && want > |buffered|);
              var n := if asked then old(Gives(want - |buffered|)) else 0;
              && |buffered| == |old(buffered)| + n
              && (more <==> old(more) && |buffered| >= want)
              && (error <==> asked && !more && old(WillFail()))
              && fuel == (if old(fuel).Some? then Some(old(fuel).value - n) else None)
    {
      hide Chunks, Concat, ChunkFinish;
      if more && want > |buffered| {
        var n := Gives(want - |buffered|);
        Hand(n);
        more := |buffered| >= want;
        if fuel.Some? {
          error := !more && fuel.value == n;
          fuel := Some(fuel.value - n);
        }
      }
    }

    /** Offers one slice to the socket, unless one has been refused already. */
    method BodySend(buf: ByteSeq)
      requires Sound() && writing && |buf| <= READ_CHUNK
      modifies this`sends, this`wire, this`bodySent, this`bodyRefused, this`pieces
      ensures Sound()
      ensures old(bodyRefused) || buf == [] ==>
                bodyRefused == old(bodyRefused) && pieces == old(pieces) && bodySent == old(bodySent)
      ensures !old(bodyRefused) && buf != [] ==>
                && sends == old(sends) + 1 && bodyRefused == !accepts(old(sends))
                && pieces == (if bodyRefused then old(pieces) else old(pieces) + [buf])
                && bodySent == old(bodySent) + (if bodyRefused then 0 else |buf|)
    {
      hide Chunks, Concat, ChunkFinish, OneChunk;
      if bodyRefused || buf == [] {
        return;
      }
      ConcatAppend(pieces, buf);
      ChunksAppend(pieces, buf);
      var ok := accepts(sends);
      sends := sends + 1;
      if ok {
        if chunked {
          var enc := ChunkAppend([], buf);
          wire := wire + enc.value;
        } else {
          wire := wire + buf;
        }
        bodySent := bodySent + |buf|;
        pieces := pieces + [buf];
      } else {
        bodyRefused := true;
      }
    }

    /** Offers the first `n` buffered bytes, segment by segment. Nothing leaves the buffer here. */
    method Walk(n: nat)
      requires Valid() && stale == 0 && writing && n <= |buffered| && n <= READ_CHUNK && bodySent == 0 && !bodyRefused
      modifies this`sends, this`wire, this`bodySent, this`bodyRefused, this`pieces
      ensures Sound() && bodySent <= n && (!bodyRefused ==> bodySent == n)
      ensures old(pieces) <= pieces && produced == Concat(pieces) + buffered[bodySent..]
      ensures bodyRefused ==> exists i :: !accepts(i)
      ensures n == 0 ==> !bodyRefused && unchanged(`pieces, `wire)
    {
      hide Chunks, Concat, ChunkFinish, OneChunk;
      var off: nat := 0;
      while off < n
        invariant off <= n && bodySent <= off
        invariant Sound() && old(pieces) <= pieces
        invariant produced == Concat(pieces) + buffered[bodySent..]
        invariant !bodyRefused ==> bodySent == off
        invariant off == 0 ==> !bodyRefused && unchanged(`pieces, `wire)
        invariant bodyRefused ==> exists i :: !accepts(i)
      {
        var seg := segment(off);
        var len: nat := if 0 < seg <= n - off then seg else n - off;
        ConcatAppend(pieces, buffered[off..off + len]);
        Shift(Concat(pieces), buffered, off, len);
        BodySend(buffered[off..off + len]);
        off := off + len;
      }
    }

    /** One pass over the buffer: feeds it first if it pulls. False if the stream was broken to begin
        with; if it breaks on the way, what is buffered is offered all the same. */
    method CSend(want: nat) returns (ok: bool)
      requires Valid() && writing && attached && 0 < want <= READ_CHUNK
      modifies this`buffered, this`source, this`fuel, this`more, this`error, this`produced,
               this`sends, this`wire, this`bodySent, this`bodyRefused, this`pieces
      ensures Sound() && ok == !old(error) && (old(error) ==> error)
      ensures old(pieces) <= pieces && produced + source == old(produced + source)
      ensures |buffered| + |source| == |old(buffered)| + |old(source)|
      ensures !ok || old(pull && !more && buffered == []) ==>
                bodySent == 0 && !bodyRefused && unchanged(`buffered, `produced, `pieces, `wire, `source, `more, `error)
      ensures ok ==> bodySent <= |buffered| && produced == Concat(pieces) + buffered[bodySent..]
      ensures ok && !bodyRefused ==> bodySent == Min(want, |buffered|)
      ensures bodyRefused ==> exists i :: !accepts(i)
      ensures !pull ==> more == old(more) && error == old(error) && buffered == old(buffered)
      ensures pull && |buffered| < want ==> !more
      ensures ok && pull && old(more) && old(buffered) == [] ==>
                && |buffered| == old(Gives(want)) && (more <==> |buffered| == want)
                && (error <==> !more && old(WillFail()))
                && fuel == (if old(fuel).Some? then Some(old(fuel).value - |buffered|) else None)
    {
      hide Chunks, Concat, ChunkFinish, OneChunk;
      bodySent, bodyRefused := 0, false;
      if error {
        return false;
      }
      if pull {
        Feed(want);
      }
      Walk(Min(want, |buffered|));
      return true;
    }

    /** Drops what the socket accepted from the buffer; which a stream that is broken by now refuses. */
    method Skip()
      requires Sound() && attached && bodySent <= |buffered| && produced == Concat(pieces) + buffered[bodySent..]
      modifies this`buffered, this`passes, this`error, this`more, this`stale
      ensures Valid() && passes == old(passes) + 1 && error == (old(error) || breaks(old(passes)))
      ensures more == (old(more) && !error)
      ensures if error then buffered == old(buffered) && stale == bodySent
              else buffered == old(buffered)[bodySent..] && stale == 0
    {
      hide Chunks, Concat, ChunkFinish;
      if breaks(passes) {
        error, more := true, false;
      }
      passes := passes + 1;
      if error {
        stale := bodySent;
      } else {
        buffered, stale := buffered[bodySent..], 0;
      }
    }

    /** Ends the body on the wire, if that takes anything; retried until the socket has it. */
    method Terminate()
      requires Valid() && writing && !attached
      modifies this`sends, this`wire, this`writing
      ensures Valid()
      ensures writing ==> exists i :: !accepts(i)
    {
      hide Chunks, Concat, ChunkFinish;
      if chunked {
        var ok := accepts(sends);
        sends := sends + 1;
        if !ok {
          return;
        }
        FinishLast(wire);
        wire := wire + ChunkFinish([]);
      }
      writing := false;
    }

    /** One turn of the pump: a pass, and what it sent dropped from the buffer. */
    method Turn() returns (refused: bool, stuck: bool)
      requires Valid() && writing && attached
      modifies this`buffered, this`source, this`fuel, this`more, this`error, this`produced, this`passes,
               this`sends, this`wire, this`bodySent, this`bodyRefused, this`pieces, this`stale
      ensures Valid() && old(pieces) <= pieces && produced + source == old(produced + source)
      ensures !pull ==> more == (old(more) && !error)
      ensures refused ==> exists i :: !accepts(i)
      ensures stuck && !refused ==> error || (buffered == [] && (pull ==> !more))
      ensures |buffered| + |source| <= |old(buffered)| + |old(source)|
      ensures !refused && !stuck ==> |buffered| + |source| < |old(buffered)| + |old(source)| || (error && !old(error))
      ensures old(error) || old(pull && !more && buffered == []) ==>
                !refused && stuck && unchanged(`buffered, `produced, `pieces, `wire, `more, `error, `stale)
      ensures old(Smooth()) ==>
                var n := old(Gives(READ_CHUNK));
                && !refused && |produced| == |old(produced)| + n
                && fuel == (if old(fuel).Some? then Some(old(fuel).value - n) else None)
                && if n == READ_CHUNK then Smooth() && !stuck
                   else !more && error == old(WillFail()) && |buffered| == stale == if error then n else 0
    {
      hide Chunks, Concat, ChunkFinish, OneChunk;
      var want := READ_CHUNK;
      if !pull {
        want := Min(|buffered|, READ_CHUNK);
        if want == 0 {
          return false, true;
        }
      }
      var ok := CSend(want);
      if bodySent > 0 {
        Skip();
      }
      return bodyRefused, !ok || bodySent == 0;
    }

    /** Turns until a send is refused or there is nothing to send. */
    method SendAll() returns (refused: bool)
      requires Valid() && writing
      modifies this`buffered, this`source, this`fuel, this`more, this`error, this`produced, this`passes,
               this`sends, this`wire, this`bodySent, this`bodyRefused, this`pieces, this`stale
      ensures Valid() && old(pieces) <= pieces && (old(error) ==> error)
      ensures produced + source == old(produced + source)
      ensures refused ==> exists i :: !accepts(i)
      ensures old(error) ==> !refused && unchanged(`buffered, `produced, `pieces, `wire)
      ensures !pull ==> more == (old(more) && !error)
      ensures attached && !refused ==> error || (buffered == [] && (pull ==> !more))
      ensures old(Smooth()) ==> Spent(old(WillFail()), |old(produced)| + old(Given()), old(Given()))
    {
      hide Chunks, Concat, ChunkFinish, OneChunk, InStep;
      var stuck := false;
      ghost var slices, fuel0, left0, made0 := 0, fuel, |source|, |produced|;
      StartsInStep(fuel, |source|, |produced|);
      while attached && !stuck
        invariant Valid() && old(pieces) <= pieces && (old(error) ==> error)
        invariant produced + source == old(produced + source)
        invariant !pull ==> more == (old(more) && !error)
        invariant stuck ==> error || (buffered == [] && (pull ==> !more))
        invariant old(error) ==> unchanged(`buffered, `produced, `pieces, `wire, `more)
        invariant old(Smooth()) && more ==>
                    Smooth() && !stuck && InStep(fuel, |source|, |produced|, fuel0, left0, made0, slices)
        invariant old(Smooth()) && !more ==>
                    Spent(Fails(fuel0, left0), made0 + Total(fuel0, left0), Total(fuel0, left0))
        decreases |buffered| + |source|, !error, !stuck
      {
        ghost var fuel1, left1, made1, going := fuel, |source|, |produced|, more;
        refused, stuck := Turn();
        if refused {
          return;
        }
        assert |produced| + |source| == made1 + left1;
        if going && old(Smooth()) {
          StepsOn(fuel1, left1, made1, fuel0, left0, made0, slices);
        }
        slices := slices + 1;
      }
      refused := false;
    }

    /** Pushes out as much of the body as the socket will take, and the terminator once there is no
        more body. A refusal costs a retry and never a byte. A stream that broke is ended like any other
        if it broke with its buffer empty, and otherwise never. */
    method PumpBodyStream()
      requires Valid() && writing
      modifies this
      ensures Valid() && old(pieces) <= pieces && (old(error) ==> error)
      ensures produced + source == old(produced + source)
      ensures !writing ==> !more && buffered == [] && Concat(pieces) == produced && (error || source == [])
      ensures old(Hung()) ==> Hung() && wire == old(wire) && pieces == old(pieces)
      ensures old(error) ==> produced == old(produced) && pieces == old(pieces) && buffered == old(buffered)
      ensures (forall i :: accepts(i)) && (error || pull || !more) ==>
                (!writing <==> !error || buffered == []) && (writing ==> Hung())
      ensures old(Smooth()) ==> Spent(old(WillFail()), |old(produced)| + old(Given()), old(Given()))
    {
      hide Chunks, Concat, ChunkFinish, OneChunk, Given;
      var refused := SendAll();
      if refused {
        return;
      }
      if attached {
        if more || buffered != [] {
          return;
        }
        attached := false;
      }
      assert buffered[stale..] == [] && Concat(pieces) + [] == Concat(pieces);
      Terminate();
    }

    /** A pull producer that has yet to be asked, a socket that takes everything, and nobody else to
        break the stream. */
    ghost predicate Smooth() reads this {
      && pull && attached && more && buffered == [] && !error
      && (forall i :: accepts(i)) && (forall i :: !breaks(i))
    }

    /** How much such a producer hands over in all. */
    function Given(): nat reads this { Total(fuel, |source|) }

    /** Where such a run ends. */
    ghost predicate Spent(failed: bool, made: nat, given: nat) reads this {
      && !more && error == failed && |produced| == made
      && |buffered| == stale == if error then given % READ_CHUNK else 0
    }
  }

  // ----- How a pull producer's bytes come out in slices

  /** Whether a producer with `left` bytes to hand over fails before it has. */
  predicate Fails(fuel: Option<nat>, left: nat) { fuel.Some? && fuel.value <= left }

  /** How much it hands over in all, and when it is asked for `n`. */
  function Total(fuel: Option<nat>, left: nat): nat { if Fails(fuel, left) then fuel.value else left }

  function Share(fuel: Option<nat>, left: nat, n: nat): nat { Min(n, Total(fuel, left)) }

  /** Where it is after so many whole slices. */
  predicate InStep(fuel: Option<nat>, left: nat, made: nat, fuel0: Option<nat>, left0: nat, made0: nat, slices: nat) {
    && made == made0 + READ_CHUNK * slices && left + READ_CHUNK * slices == left0
    && fuel.Some? == fuel0.Some? && (fuel.Some? ==> fuel.value + READ_CHUNK * slices == fuel0.value)
  }

  lemma StartsInStep(fuel: Option<nat>, left: nat, made: nat)
    ensures InStep(fuel, left, made, fuel, left, made, 0)
  {
  }

  /** One more slice, or the last of it. */
  lemma StepsOn(fuel: Option<nat>, left: nat, made: nat, fuel0: Option<nat>, left0: nat, made0: nat, slices: nat)
    requires InStep(fuel, left, made, fuel0, left0, made0, slices)
    ensures Fails(fuel, left) <==> Fails(fuel0, left0)
    ensures var n := Share(fuel, left, READ_CHUNK);
            && n <= left && (fuel.Some? ==> n <= fuel.value)
            && (n == READ_CHUNK ==>
                  InStep(if fuel.Some? then Some(fuel.value - n) else None, left - n, made + n,
                         fuel0, left0, made0, slices + 1))
            && (n < READ_CHUNK ==>
                  made + n == made0 + Total(fuel0, left0)
                  && (Fails(fuel0, left0) ==> n == Total(fuel0, left0) % READ_CHUNK))
  {
  }

  /** End to end: what a finished pump put on the wire, delivered in any pieces to a reader whose
      limits admit it, is the body its producer produced, and what follows it is left unread. */
  lemma SentBodyArrives(pump: BodyPump, c: Config, p: Parser, rest: ByteSeq, cuts: seq<ByteSeq>)
    requires pump.Valid() && pump.chunked && !pump.writing
    requires p.state.ChunkSize? && READ_CHUNK <= c.lim.maxChunkSize && 16 < c.lim.maxLineLen
    requires Within(c, p.bodyTotal, |pump.produced|) && Join(cuts) == pump.wire + rest
    ensures Decodes(HttpParse.Feed(c, Run(p, [], [], Starved, false), cuts), pump.produced, rest)
  {
    hide Chunks, Concat, ChunkFinish, HttpParse.Feed, Decodes, Join;
    assert pump.produced == Concat(pump.pieces) + [] == Concat(pump.pieces);
    WrittenBodyArrives(c, p, pump.pieces, rest, cuts);
  }

  /** The body that arrives is all that there was to send if and only if the producer did not fail with
      bytes left: a body cut short by a failure ends with its terminator like any other. */
  lemma FailureLooksComplete(pump: BodyPump, c: Config, p: Parser, rest: ByteSeq, cuts: seq<ByteSeq>)
    requires pump.Valid() && pump.chunked && !pump.writing
    requires p.state.ChunkSize? && READ_CHUNK <= c.lim.maxChunkSize && 16 < c.lim.maxLineLen
    requires Within(c, p.bodyTotal, |pump.produced|) && Join(cuts) == pump.wire + rest
    ensures var d := HttpParse.Feed(c, Run(p, [], [], Starved, false), cuts);
            && d.stop == Complete
            && (BodyOf(d.events) == pump.produced + pump.source <==> !(pump.error && pump.source != []))
  {
    hide Chunks, Concat, ChunkFinish, HttpParse.Feed, Join, BodyOf, Heads;
    SentBodyArrives(pump, c, p, rest, cuts);
    assert |pump.produced + pump.source| == |pump.produced| + |pump.source|;
    assert pump.source == [] ==> pump.produced + pump.source == pump.produced;
  }

  /** Sends the body of a pull producer that can hand over `fuel` bytes before it fails, through a socket
      that refuses nothing. Everything it handed over goes out; and the body is terminated if and only if
      it did not fail, or failed with whole slices handed over: otherwise the request hangs. */
  method SendPulled(chunked: bool, source: ByteSeq, fuel: Option<nat>, segment: nat -> nat) returns (pump: BodyPump)
    ensures fresh(pump) && pump.Valid() && pump.chunked == chunked
    ensures var failed := fuel.Some? && fuel.value <= |source|;
            && pump.error == failed
            && Concat(pump.pieces) == pump.produced == (if failed then source[..fuel.value] else source)
            && (!pump.writing <==> !failed || fuel.value % READ_CHUNK == 0)
            && (pump.writing ==> pump.Hung())
            && |pump.buffered| == if failed then fuel.value % READ_CHUNK else 0
  {
    hide Chunks, Concat, ChunkFinish;
    pump := new BodyPump(chunked, true, source, fuel, _ => true, segment, _ => false);
    pump.PumpBodyStream();
    assert pump.produced + pump.source == source;
    assert pump.buffered[pump.stale..] == [];
    assert pump.produced == source[..|pump.produced|];
  }

  /** The run that looks complete: a producer that fails before its first byte sends an empty body. */
  method SendFailed(source: ByteSeq, segment: nat -> nat) returns (pump: BodyPump)
    ensures fresh(pump) && pump.Valid() && pump.chunked && pump.error && !pump.writing
    ensures pump.produced == [] && pump.source == source && pump.wire == ChunkFinish([])
  {
    hide ChunkFinish;
    pump := new BodyPump(true, true, source, None, _ => true, segment, _ => false);
    pump.Fail();
    pump.PumpBodyStream();
    assert [] + source == source && [] + pump.source == pump.source;
    NothingWritten(pump.pieces);
  }

  /** The run that hangs: one byte, and then a failure. The byte is on the wire, still in the buffer, and
      pumping again changes nothing. */
  method SendHangs(b: Byte, segment: nat -> nat) returns (pump: BodyPump)
    ensures fresh(pump) && pump.Hung() && |pump.buffered| == 1 && Concat(pump.pieces) == [b]
  {
    hide Chunks, Concat, ChunkFinish;
    pump := SendPulled(true, [b], Some(1), segment);
    ghost var wire := pump.wire;
    pump.PumpBodyStream();
    assert pump.wire == wire;
  }

  lemma NothingWritten(pieces: seq<ByteSeq>)
    requires forall i :: 0 <= i < |pieces| ==> pieces[i] != []
    ensures Concat(pieces) == [] <==> pieces == []
    ensures Chunks([]) == []
  {
  }

  /** And until it has finished, a reader of what it has put out so far goes on waiting. */
  lemma UnfinishedBodyWaits(pump: BodyPump, c: Config, p: Parser)
    requires pump.Valid() && pump.chunked && pump.writing
    requires p.state.ChunkSize? && READ_CHUNK <= c.lim.maxChunkSize && 16 < c.lim.maxLineLen
    requires Within(c, p.bodyTotal, |Concat(pump.pieces)|)
    ensures Drive(c, p, pump.wire).stop == Starved
  {
    hide Chunks, Concat, Drive, CodedOk, Short, Wire, Content;
    WrittenOk(c, pump.pieces);
    WrittenWire(pump.pieces);
    NotBeforeTheEnd(c, p, Written(pump.pieces), |pump.wire|);
    assert Wire(Written(pump.pieces))[..|pump.wire|] == pump.wire;
  }

  lemma FinishLast(wire: ByteSeq)
    ensures wire + ChunkFinish([]) == ChunkFinish(wire)
  {
  }

  lemma Shift(a: ByteSeq, buf: ByteSeq, off: nat, len: nat)
    requires off + len <= |buf|
    ensures a + buf[off..] == a + buf[off..off + len] + buf[off + len..]
  {
  }
}
