/** The message reader as it runs: fields updated in place, and a section buffer that grows as the
    payload arrives. */
module H3MsgReader {
  import opened Bytes
  import opened BufRing
  import opened H3Frame
  import opened H3Msg
  import Qpack
  import QpackCoder

  /** The first allocation for a section, and the size of one read off a stream. */
  const READ_CHUNK := 8192

  datatype MsgResult = MsgNeedMore | MsgHead | MsgBody | MsgTrailers | MsgError

  /** Passes of the loop up to the first that has something to report. */
  function Next(c: Config, m: Msg, src: ByteSeq): Advance
    decreases |src|, m.fr.inFrame
  {
    StepConsumes(c, m, src);
    var a := Step(c, m, src);
    if a.stop == Go && a.out == [] then Next(c, a.m, a.rest) else a
  }

  /** Driving the reader one report at a time is driving it one pass at a time. */
  lemma {:induction false} NextDrives(c: Config, m: Msg, src: ByteSeq)
    ensures var a := Next(c, m, src);
            Drive(c, m, src) ==
              if a.stop == Go then
                var d := Drive(c, a.m, a.rest);
                d.(events := a.out + d.events)
              else Run(a.m, a.rest, [], a.stop == Failed(true))
    decreases |src|, m.fr.inFrame
  {
    hide Step;
    StepConsumes(c, m, src);
    StepCounts(c, m, src);
    var a := Step(c, m, src);
    if a.stop == Go && a.out == [] {
      NextDrives(c, a.m, a.rest);
      var d := Drive(c, a.m, a.rest);
      assert [] + d.events == d.events;
    }
  }

  class MsgReader {
    const config: Config
    const fr: Reader
    var fields: array<Byte>
    var fieldsLen: nat
    var inFields: bool
    var headers: seq<Qpack.Field>
    var bodyReady: nat
    var bodyTotal: nat
    var bodyStarted: bool
    var headDone: bool
    var trailersDone: bool
    var err: nat

    /** The section buffer holds what has arrived, and has never been made larger than the frame
        declared or than twice what has arrived, beyond the first allocation. */
    ghost predicate BufferOk()
      reads this, fr
    {
      && fieldsLen <= fields.Length
      && (fields.Length > 0 ==> inFields && fields.Length <= fr.len)
      && (fields.Length <= READ_CHUNK || fields.Length <= 2 * fieldsLen)
    }

    ghost predicate Valid()
      reads this, fr
    {
      && BufferOk()
      && (!fr.bad && inFields ==> fr.inFrame && fieldsLen + fr.remain == fr.len)
    }

    ghost function View(): Msg
      requires BufferOk()
      reads this, fr, fields
    {
      Msg(fr.View(), fields[..fieldsLen], inFields, headers, bodyTotal, bodyStarted, headDone,
          trailersDone, err)
    }

    constructor (c: Config)
      ensures Valid() && View() == INIT && config == c && fresh(fr) && fresh(fields)
    {
      config := c;
      fr := new Reader();
      fields := new Byte[0];
      fieldsLen, inFields, headers, bodyReady, bodyTotal := 0, false, [], 0, 0;
      bodyStarted, headDone, trailersDone, err := false, false, false, 0;
    }

    /** Makes room for `need` bytes of the section being read. */
    method FieldsReserve(need: nat)
      requires BufferOk() && inFields && fieldsLen < need <= fr.len
      modifies this`fields
      ensures fieldsLen <= fields.Length && need <= fields.Length <= fr.len
      ensures fields.Length <= READ_CHUNK || fields.Length <= 2 * need
      ensures fields[..fieldsLen] == old(fields[..fieldsLen])
      ensures fields == old(fields) || fresh(fields)
    {
      if need <= fields.Length {
        return;
      }
      var cap := if fields.Length > 0 then fields.Length else READ_CHUNK;
      while cap < need
        invariant cap > 0 && (cap <= READ_CHUNK || cap < 2 * need)
        decreases need - cap
      {
        cap := cap * 2;
      }
      if cap > fr.len {
        cap := fr.len;
      }
      var grown := new Byte[cap](_ => 0);
      for i := 0 to fieldsLen
        modifies grown
        invariant grown[..i] == fields[..i]
      {
        grown[i] := fields[i];
      }
      fields := grown;
    }

    /** Takes a run of the section off the stream into the buffer. */
    method FieldsRead(src: Ring, n: nat)
      requires BufferOk() && inFields && 0 < n <= |src.data| && fieldsLen + n <= fr.len
      modifies this`fields, this`fieldsLen, fields, src
      ensures fieldsLen == old(fieldsLen) + n <= fields.Length <= fr.len
      ensures fields.Length <= READ_CHUNK || fields.Length <= 2 * fieldsLen
      ensures fields[..fieldsLen] == old(fields[..fieldsLen]) + old(src.data)[..n]
      ensures src.data == old(src.data)[n..]
      ensures fields == old(fields) || fresh(fields)
    {
      FieldsReserve(fieldsLen + n);
      var run := src.Read(n);
      for i := 0 to n
        modifies fields
        invariant fields[..fieldsLen + i] == old(fields[..fieldsLen]) + run[..i]
      {
        fields[fieldsLen + i] := run[i];
      }
      fieldsLen := fieldsLen + n;
    }

    method DropFields()
      modifies this`fields, this`fieldsLen
      ensures fields.Length == 0 == fieldsLen && fresh(fields)
    {
      fields, fieldsLen := new Byte[0], 0;
    }

    method MsgFail(code: nat)
      modifies this`err, fr
      ensures err == code && fr.View() == old(fr.View()).(bad := true)
    {
      err := code;
      fr.Fail();
    }

    method OnHeaderFrame() returns (ok: bool)
      requires Valid() && !inFields && !fr.bad && fr.inFrame && fr.remain == fr.len
      modifies this, fr
      ensures Valid() && (fields == old(fields) || fresh(fields))
      ensures var a := OnHeader(config, old(View()), []);
              View() == a.m && ok == (a.stop == Go)
    {
      var code := FrameAllowed(config.server, headDone, trailersDone, fr.ty);
      if code != 0 {
        MsgFail(code);
        return false;
      }
      DropFields();
      inFields := fr.ty == HEADERS;
      if fr.ty == DATA {
        bodyStarted := true;
      }
      if inFields && fr.len > config.limits.maxSize {
        MsgFail(EXCESSIVE_LOAD);
        return false;
      }
      return true;
    }

    method OnFieldsComplete() returns (ok: bool)
      requires BufferOk() && inFields && !fr.bad
      modifies this, fr
      ensures Valid() && fresh(fields) && !inFields
      ensures var a := OnComplete(config, old(View()), []);
              && View() == a.m && ok == (a.stop == Go)
              && (ok ==> a.out == [if bodyStarted then Trailers(headers) else Head(headers)])
    {
      hide Qpack.DecodeSection;
      inFields := false;
      var code;
      headers, code := QpackCoder.QpackDecode(fields[..fieldsLen], config.limits);
      DropFields();
      if code != 0 {
        MsgFail(code);
        return false;
      }
      if bodyStarted {
        trailersDone := true;
      } else {
        headDone := true;
      }
      return true;
    }

    /** What a pass answered, against what it should have. */
    ghost predicate Reports(r: Option<MsgResult>, a: Advance, data: ByteSeq)
      reads this
    {
      match r
      case None => a.stop == Go && a.out == [] && a.rest == data
      case Some(MsgNeedMore) => a.stop == Starved && a.rest == data
      case Some(MsgError) => a.stop.Failed? && a.rest == data
      case Some(MsgHead) => a.stop == Go && a.out == [Head(headers)] && a.rest == data
      case Some(MsgTrailers) => a.stop == Go && a.out == [Trailers(headers)] && a.rest == data
      case Some(MsgBody) =>
        && a.stop == Go && bodyReady <= |data|
        && a.out == [Body(data[..bodyReady])] && a.rest == data[bodyReady..]
    }

    method OnPayloadRun(src: Ring) returns (r: Option<MsgResult>)
      requires BufferOk() && !fr.bad && fr.inFrame && 0 < fr.avail <= |src.data|
      requires inFields ==> fieldsLen + fr.avail + fr.remain == fr.len
      modifies this, fr, fields, src
      ensures Valid() && (fields == old(fields) || fresh(fields))
      ensures var n := old(fr.avail);
              var a := OnPayload(config, old(View()), old(src.data)[..n], old(src.data)[n..]);
              View() == a.m && Reports(r, a, src.data)
    {
      if inFields {
        FieldsRead(src, fr.avail);
        return None;
      }
      if fr.ty != DATA {
        src.Skip(fr.avail);
        return None;
      }
      assert src.data == src.data[..fr.avail] + src.data[fr.avail..];
      bodyTotal := bodyTotal + fr.avail;
      if config.maxBody > 0 && bodyTotal > config.maxBody {
        MsgFail(EXCESSIVE_LOAD);
        return Some(MsgError);
      }
      bodyReady := fr.avail;
      return Some(MsgBody);
    }

    /** One pass of the loop. */
    method Pass(src: Ring) returns (r: Option<MsgResult>)
      requires Valid()
      modifies this, fr, fields, src
      ensures Valid() && (fields == old(fields) || fresh(fields))
      ensures var a := Step(config, old(View()), old(src.data));
              View() == a.m && Reports(r, a, src.data)
    {
      hide Qpack.DecodeSection, ReadHeader, OnHeader, OnComplete, OnPayload;
      var f := fr.Step(src);
      match f
      case NeedMore => return Some(MsgNeedMore);
      case Poisoned => return Some(MsgError);
      case Header =>
        HeaderIgnoresRest(config, View(), src.data);
        var ok := OnHeaderFrame();
        return if ok then None else Some(MsgError);
      case Payload(_) =>
        r := OnPayloadRun(src);
      case Complete =>
        CompleteIgnoresRest(config, View(), src.data);
        if !inFields {
          return None;
        }
        var ok := OnFieldsComplete();
        return if !ok then Some(MsgError) else if bodyStarted then Some(MsgTrailers) else Some(MsgHead);
    }

    /** Reads on until there is something to report. Body bytes are left at the front of the stream
        for the caller to drain. */
    method MsgStep(src: Ring) returns (r: MsgResult)
      requires Valid()
      modifies this, fr, fields, src
      ensures Valid() && (fields == old(fields) || fresh(fields))
      ensures var a := Next(config, old(View()), old(src.data));
              View() == a.m && Reports(Some(r), a, src.data)
    {
      hide Step;
      ghost var goal := Next(config, View(), src.data);
      while true
        invariant Valid() && (fields == old(fields) || fresh(fields))
        invariant goal == Next(config, View(), src.data)
        decreases |src.data|, fr.inFrame
      {
        StepConsumes(config, View(), src.data);
        var p := Pass(src);
        if p.Some? {
          return p.value;
        }
      }
    }
  }

  lemma HeaderIgnoresRest(c: Config, m: Msg, rest: ByteSeq)
    ensures OnHeader(c, m, rest) == OnHeader(c, m, []).(rest := rest)
    ensures OnHeader(c, m, []).out == [] && OnHeader(c, m, []).stop != Starved
  {
  }

  lemma CompleteIgnoresRest(c: Config, m: Msg, rest: ByteSeq)
    ensures OnComplete(c, m, rest) == OnComplete(c, m, []).(rest := rest)
    ensures !m.inFields ==> OnComplete(c, m, []) == Advance(m, [], [], Go)
    ensures OnComplete(c, m, []).stop != Starved
  {
    hide Qpack.DecodeSection;
  }
}
