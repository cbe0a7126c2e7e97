/** The multipart/form-data body: a producer that walks its parts and gives out whatever slice it is
    asked for. */
module HttpForm {
  import opened Bytes
  import opened HttpText

  const CRLF: ByteSeq := [CR, LF]

  datatype SourceKind = Memory | File | Stream

  /** One part: the literal that introduces it, the length it declared, if any, and the source of its
      content: all that source will ever give, and whether it then fails rather than ends. */
  datatype Part = Part(header: ByteSeq, len: Option<nat>, kind: SourceKind, supply: ByteSeq, fails: bool)

  predicate PartOk(p: Part) { p.kind.Memory? ==> p.len == Some(|p.supply|) }

  // ----- What the body is

  /** A part's content: all its source gives, or as much of it as was declared. */
  function Body(p: Part): (r: ByteSeq)
    ensures r <= p.supply && (p.len.Some? ==> |r| <= p.len.value)
  {
    if p.len.Some? && p.len.value < |p.supply| then p.supply[..p.len.value] else p.supply
  }

  /** Whether a part's source gives all it should. */
  predicate Sound(p: Part) {
    if p.len.Some? then |p.supply| >= p.len.value else !p.fails
  }

  function Whole(p: Part): ByteSeq { p.header + Body(p) + CRLF }

  function Parts(ps: seq<Part>): ByteSeq {
    if ps == [] then [] else Whole(ps[0]) + Parts(ps[1..])
  }

  /** Header, content and CRLF of each part in turn, then the closing boundary. */
  function Full(ps: seq<Part>, closing: ByteSeq): ByteSeq { Parts(ps) + closing }

  /** The length that can be announced, if every part declared one. */
  function Length(ps: seq<Part>, boundary: ByteSeq): Option<nat> {
    if ps == [] then Some(|boundary| + 6)
    else
      var rest := Length(ps[1..], boundary);
      if ps[0].len.None? || rest.None? then None
      else Some(|ps[0].header| + ps[0].len.value + 2 + rest.value)
  }

  function Closing(boundary: ByteSeq): ByteSeq { [45, 45] + boundary + [45, 45, CR, LF] }

  // ----- How far along it is

  datatype Stage = Header | Content | Trailer | Close | Done

  function Upto(s: ByteSeq, n: nat): ByteSeq { s[..Min(n, |s|)] }

  /** How much of a part has been given out at `pos` of one of its stages. */
  function InPart(p: Part, stage: Stage, pos: nat): ByteSeq {
    if stage.Header? then Upto(p.header, pos)
    else if stage.Content? then p.header + Upto(Body(p), pos)
    else p.header + Body(p) + Upto(CRLF, pos)
  }

  /** What has been given out when the producer stands at `pos` of a stage of part `idx`. */
  function SoFar(ps: seq<Part>, closing: ByteSeq, idx: nat, stage: Stage, pos: nat): ByteSeq {
    if stage.Close? then Parts(ps) + Upto(closing, pos)
    else if stage.Done? then Full(ps, closing)
    else if idx >= |ps| then []
    else Parts(ps[..idx]) + InPart(ps[idx], stage, pos)
  }

  lemma {:induction false} PartsSplit(ps: seq<Part>, i: nat)
    requires i < |ps|
    ensures Parts(ps) == Parts(ps[..i]) + (Whole(ps[i]) + Parts(ps[i + 1..]))
    ensures Parts(ps[..i + 1]) == Parts(ps[..i]) + Whole(ps[i])
    decreases i
  {
    hide Whole;
    if i > 0 {
      PartsSplit(ps[1..], i - 1);
      assert ps[..i][1..] == ps[1..][..i - 1];
      assert ps[..i + 1][1..] == ps[1..][..i];
      assert ps[1..][i..] == ps[i + 1..];
    } else {
      assert ps[..1][1..] == [];
    }
  }

  /** What has been given out is the beginning of the body. */
  lemma SoFarIsPrefix(ps: seq<Part>, closing: ByteSeq, idx: nat, stage: Stage, pos: nat)
    ensures SoFar(ps, closing, idx, stage, pos) <= Full(ps, closing)
  {
    hide Body, Parts;
    if idx < |ps| && (stage.Header? || stage.Content? || stage.Trailer?) {
      PartsSplit(ps, idx);
      var p := ps[idx];
      var before, after := Parts(ps[..idx]), Parts(ps[idx + 1..]);
      var part := InPart(p, stage, pos);
      assert part <= Whole(p);
      assert Full(ps, closing) == before + (Whole(p) + (after + closing));
      assert Full(ps, closing)[..|before + part|] == before + part;
    }
  }

  lemma {:induction false} LengthIs(ps: seq<Part>, boundary: ByteSeq)
    requires forall i :: 0 <= i < |ps| ==> Sound(ps[i])
    ensures Length(ps, boundary).Some? ==> |Full(ps, Closing(boundary))| == Length(ps, boundary).value
  {
    if ps != [] {
      LengthIs(ps[1..], boundary);
    }
  }

  // ----- The producer

  lemma UptoMore(s: ByteSeq, a: nat, b: nat)
    requires a <= b <= |s|
    ensures Upto(s, b) == Upto(s, a) + s[a..b]
  {
  }

  /** Moving on within one stage. */
  lemma GiveMore(ps: seq<Part>, closing: ByteSeq, idx: nat, stage: Stage, a: nat, b: nat)
    requires a <= b && (stage.Close? || (idx < |ps| && !stage.Done?)) && b <= |StageText(ps, closing, idx, stage)|
    ensures SoFar(ps, closing, idx, stage, b)
            == SoFar(ps, closing, idx, stage, a) + StageText(ps, closing, idx, stage)[a..b]
  {
    hide Body, Parts, Upto;
    UptoMore(StageText(ps, closing, idx, stage), a, b);
  }

  /** All that one stage gives out. */
  function StageText(ps: seq<Part>, closing: ByteSeq, idx: nat, stage: Stage): ByteSeq {
    if stage.Close? then closing
    else if idx >= |ps| || stage.Done? then []
    else if stage.Header? then ps[idx].header
    else if stage.Content? then Body(ps[idx])
    else CRLF
  }

  function FirstStage(ps: seq<Part>, idx: nat): Stage { if idx < |ps| then Header else Close }

  /** The end of one stage is the beginning of the next. */
  lemma NextStage(ps: seq<Part>, closing: ByteSeq, idx: nat)
    requires idx < |ps|
    ensures SoFar(ps, closing, idx, Header, |ps[idx].header|) == SoFar(ps, closing, idx, Content, 0)
    ensures SoFar(ps, closing, idx, Content, |Body(ps[idx])|) == SoFar(ps, closing, idx, Trailer, 0)
    ensures SoFar(ps, closing, idx, Trailer, 2) == SoFar(ps, closing, idx + 1, FirstStage(ps, idx + 1), 0)
  {
    hide Body, Parts;
    PartsSplit(ps, idx);
    if idx + 1 == |ps| {
      assert ps[..idx + 1] == ps;
    }
  }

  lemma LastStage(ps: seq<Part>, closing: ByteSeq, idx: nat)
    ensures SoFar(ps, closing, idx, Close, |closing|) == SoFar(ps, closing, idx, Done, 0)
  {
    hide Parts;
  }

  class MpProducer {
    const parts: seq<Part>
    const closing: ByteSeq
    const amount: nat -> nat      // how much a source has ready at its n-th read
    const ended: nat -> bool      // whether a stream that gave nothing says it has ended
    var asked: nat
    var idx: nat
    var stage: Stage
    var pos: nat
    var error: bool
    ghost var out: ByteSeq        // everything given out so far

    ghost predicate Valid()
      reads this
    {
      && (forall i :: 0 <= i < |parts| ==> PartOk(parts[i]))
      && (stage.Header? || stage.Content? || stage.Trailer? ==> idx < |parts|)
      && (stage.Content? ==> pos <= |Body(parts[idx])|)
      && (stage.Header? ==> pos <= |parts[idx].header|)
      && (stage.Trailer? ==> pos <= 2)
      && (stage.Close? ==> pos <= |closing|)
      && (error ==> stage.Done? && !AllSound())
      && (!error ==> out == SoFar(parts, closing, idx, stage, pos))
      && out <= Full(parts, closing)
      && (!error ==> forall i :: 0 <= i < |parts| && (i < idx || stage.Close? || stage.Done?) ==> Sound(parts[i]))
      && (!error && stage.Trailer? ==> Sound(parts[idx]))
    }

    ghost predicate AllSound()
      reads this
    {
      forall i :: 0 <= i < |parts| ==> Sound(parts[i])
    }

    constructor (ps: seq<Part>, boundary: ByteSeq, amount: nat -> nat, ended: nat -> bool)
      requires forall i :: 0 <= i < |ps| ==> PartOk(ps[i])
      ensures Valid() && parts == ps && closing == Closing(boundary) && out == [] && !error
    {
      parts, closing := ps, Closing(boundary);
      this.amount, this.ended := amount, ended;
      asked, idx, pos, error := 0, 0, 0, false;
      stage := FirstStage(ps, 0);
      out := [];
      new;
      SoFarIsPrefix(parts, closing, 0, stage, 0);
    }

    /** As much of a literal as is left of it and asked for. */
    method EmitLiteral(lit: ByteSeq, sz: nat) returns (buf: ByteSeq, done: bool)
      requires pos <= |lit|
      modifies this`pos
      ensures |buf| <= sz && pos == old(pos) + |buf| <= |lit| && buf == lit[old(pos)..pos]
      ensures done == (pos == |lit|) && (!done ==> |buf| == sz)
    {
      var n := Min(sz, |lit| - pos);
      buf := lit[pos..pos + n];
      pos := pos + n;
      done := pos >= |lit|;
    }

    /** Reads the current part's source. */
    method ReadSource(p: Part, sz: nat) returns (buf: ByteSeq, done: bool, err: bool)
      requires pos <= |p.supply| && (p.kind.Memory? ==> sz <= |p.supply| - pos)
      modifies this`asked
      ensures |buf| <= sz && pos + |buf| <= |p.supply| && buf == p.supply[pos..pos + |buf|]
      ensures done || err ==> buf == [] && pos == |p.supply|
      ensures err ==> p.fails && !done
      ensures done ==> !p.fails
      ensures p.kind.Memory? ==> |buf| == sz && !done && !err
    {
      done, err := false, false;
      if p.kind.Memory? {
        buf := p.supply[pos..pos + sz];
        return;
      }
      var ready := amount(asked);
      var over := ended(asked);
      asked := asked + 1;
      var left := |p.supply| - pos;
      if p.kind.File? && ready == 0 {
        ready := 1;
      }
      buf := p.supply[pos..pos + Min(sz, Min(left, ready))];
      if left == 0 {
        err := p.fails;
        done := !p.fails && (p.kind.File? || over);
      }
    }

    /** Content of the current part, held to the length it declared. */
    method EmitContent(p: Part, sz: nat) returns (buf: ByteSeq, done: bool, err: bool)
      requires PartOk(p) && pos <= |Body(p)| && sz > 0
      modifies this`pos, this`asked
      ensures |buf| <= sz && pos == old(pos) + |buf| <= |Body(p)| && buf == Body(p)[old(pos)..pos]
      ensures done && !err ==> pos == |Body(p)| && Sound(p)
      ensures err ==> !Sound(p) && buf == []
      ensures p.kind.Memory? ==> done || buf != []
    {
      done, err, buf := false, false, [];
      var ask := sz;
      if p.len.Some? {
        if p.len.value <= pos {
          done := true;
          return;
        }
        ask := Min(sz, p.len.value - pos);
      }
      buf, done, err := ReadSource(p, ask);
      if err {
        buf := [];
        return;
      }
      ghost var was := pos;
      pos := pos + |buf|;
      assert buf == Body(p)[was..pos];
      if p.len.Some? {
        if pos >= p.len.value {
          done := true;
        } else if done {
          err := true;
        }
      }
    }

    /** How far there is to go, in stages. */
    ghost function Rank(): nat
      reads this
    {
      if stage.Done? then 0
      else if stage.Close? then 1
      else 2 + 3 * (if idx < |parts| then |parts| - idx else 0)
           + (if stage.Header? then 2 else if stage.Content? then 1 else 0)
    }

    /** Nothing was given and nothing moved: a source has no data yet. */
    ghost predicate Waiting()
      reads this
    {
      stage.Content? && idx < |parts| && !parts[idx].kind.Memory?
    }

    method StepHeader(sz: nat) returns (buf: ByteSeq)
      requires Valid() && sz > 0 && stage.Header?
      modifies this
      ensures Valid() && !error && |buf| <= sz && out == old(out) + buf
      ensures Rank() < old(Rank()) || (stage == old(stage) && idx == old(idx) && |buf| == sz)
    {
      hide Body, SoFar, Full;
      var done;
      GiveMore(parts, closing, idx, Header, pos, Min(pos + sz, |parts[idx].header|));
      buf, done := EmitLiteral(parts[idx].header, sz);
      out := out + buf;
      SoFarIsPrefix(parts, closing, idx, Header, pos);
      if done {
        NextStage(parts, closing, idx);
        stage, pos := Content, 0;
      }
    }

    method StepContent(sz: nat) returns (buf: ByteSeq)
      requires Valid() && sz > 0 && stage.Content?
      modifies this
      ensures Valid() && |buf| <= sz && out == old(out) + buf
      ensures Rank() < old(Rank()) || (stage == old(stage) && idx == old(idx) && (buf != [] || Waiting()))
    {
      hide SoFar, Full, Sound;
      var p := parts[idx];
      ghost var from := pos;
      var done, err;
      buf, done, err := EmitContent(p, sz);
      GiveMore(parts, closing, idx, Content, from, pos);
      out := out + buf;
      SoFarIsPrefix(parts, closing, idx, Content, pos);
      if err {
        error, stage := true, Done;
      } else if done {
        NextStage(parts, closing, idx);
        stage, pos := Trailer, 0;
      }
    }

    method StepTrailer(sz: nat) returns (buf: ByteSeq)
      requires Valid() && sz > 0 && stage.Trailer?
      modifies this
      ensures Valid() && !error && |buf| <= sz && out == old(out) + buf
      ensures Rank() < old(Rank()) || (stage == old(stage) && idx == old(idx) && |buf| == sz)
    {
      hide Body, SoFar, Full, Sound;
      var done;
      GiveMore(parts, closing, idx, Trailer, pos, Min(pos + sz, 2));
      buf, done := EmitLiteral(CRLF, sz);
      out := out + buf;
      SoFarIsPrefix(parts, closing, idx, Trailer, pos);
      if done {
        NextStage(parts, closing, idx);
        idx, pos := idx + 1, 0;
        stage := FirstStage(parts, idx);
      }
    }

    method StepClose(sz: nat) returns (buf: ByteSeq)
      requires Valid() && sz > 0 && stage.Close?
      modifies this
      ensures Valid() && !error && |buf| <= sz && out == old(out) + buf
      ensures Rank() < old(Rank()) || (stage == old(stage) && idx == old(idx) && |buf| == sz)
    {
      hide Body, SoFar, Full, Sound;
      var done;
      GiveMore(parts, closing, idx, Close, pos, Min(pos + sz, |closing|));
      buf, done := EmitLiteral(closing, sz);
      out := out + buf;
      SoFarIsPrefix(parts, closing, idx, Close, pos);
      if done {
        LastStage(parts, closing, idx);
        AtDone(parts, closing, idx, pos);
        stage := Done;
      }
    }

    method Step(sz: nat) returns (buf: ByteSeq)
      requires Valid() && sz > 0 && !stage.Done?
      modifies this
      ensures Valid() && |buf| <= sz && out == old(out) + buf
      ensures Rank() < old(Rank()) || (stage == old(stage) && idx == old(idx) && (buf != [] || Waiting()))
    {
      match stage
      case Header => buf := StepHeader(sz);
      case Content => buf := StepContent(sz);
      case Trailer => buf := StepTrailer(sz);
      case Close => buf := StepClose(sz);
    }

    /** Gives out up to `sz` bytes: fewer only when the body is over or a source has no data yet. */
    method Pull(sz: nat) returns (buf: ByteSeq)
      requires Valid()
      modifies this
      ensures Valid() && |buf| <= sz && out == old(out) + buf
      ensures |buf| < sz ==> stage.Done? || Waiting()
    {
      hide SoFar, Full, Sound, Body;
      buf := [];
      while |buf| < sz && !stage.Done?
        invariant Valid() && |buf| <= sz && out == old(out) + buf
        decreases Rank(), sz - |buf|
      {
        var wasStage, wasIdx := stage, idx;
        var n := Step(sz - |buf|);
        buf := buf + n;
        if n == [] && stage == wasStage && idx == wasIdx {
          return;
        }
      }
    }
  }

  lemma AtDone(ps: seq<Part>, closing: ByteSeq, idx: nat, pos: nat)
    ensures SoFar(ps, closing, idx, Done, 0) == SoFar(ps, closing, idx, Done, pos)
  {
  }

  /** However it is pulled, a body that ends without an error is exactly the parts and the closing
      boundary, and as long as was announced; one that ends with an error is the beginning of that; and
      it ends with an error if and only if some source does not give what it should. */
  lemma WhatWasPulled(m: MpProducer, boundary: ByteSeq)
    requires m.Valid() && m.closing == Closing(boundary)
    ensures m.out <= Full(m.parts, m.closing)
    ensures m.stage.Done? && !m.error ==>
              && m.out == Full(m.parts, m.closing)
              && (Length(m.parts, boundary).Some? ==> |m.out| == Length(m.parts, boundary).value)
    ensures m.stage.Done? ==> (m.error <==> !m.AllSound())
    ensures m.error ==> m.stage.Done?
  {
    hide Length, Sound, Body;
    if m.stage.Done? && !m.error {
      LengthIs(m.parts, boundary);
    }
  }
}
