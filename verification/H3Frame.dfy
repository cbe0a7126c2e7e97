/** The incremental frame reader of one HTTP/3 stream (section 7.1 of RFC 9114). */
module H3Frame {
  import opened Bytes
  import opened BufRing
  import Varint

  const DATA := 0x00
  const HEADERS := 0x01
  const CANCEL_PUSH := 0x03
  const SETTINGS := 0x04
  const PUSH_PROMISE := 0x05
  const GOAWAY := 0x07
  const MAX_PUSH_ID := 0x0d

  /** What the reader remembers between steps. */
  datatype Frame = Frame(ty: nat, len: nat, remain: nat, inFrame: bool, bad: bool)

  const FRAME_INIT := Frame(0, 0, 0, false, false)

  datatype Result = NeedMore | Header | Payload(avail: nat) | Complete | Poisoned

  /** The frame header at the front of `s`: its type, its length, and the bytes both take. */
  function ReadHeader(s: ByteSeq): (r: Option<(nat, nat, nat)>)
    ensures r.Some? ==> 2 <= r.value.2 <= |s|
  {
    match Varint.Decode(s)
    case None => None
    case Some((ty, tn)) =>
      match Varint.Decode(s[tn..])
      case None => None
      case Some((len, ln)) => Some((ty, len, tn + ln))
  }

  /** One step. Payload bytes stay at the front of the input for the caller to take. */
  function FrameStep(f: Frame, src: ByteSeq): (Frame, ByteSeq, Result) {
    if f.bad then (f, src, Poisoned)
    else if !f.inFrame then
      match ReadHeader(src)
      case None => (f, src, NeedMore)
      case Some((ty, len, n)) => (Frame(ty, len, len, true, false), src[n..], Header)
    else if f.remain == 0 then (f.(inFrame := false), src, Complete)
    else if src == [] then (f, src, NeedMore)
    else
      var have := Min(|src|, f.remain);
      (f.(remain := f.remain - have), src, Payload(have))
  }

  /** A frame as a writer lays it out. */
  function FrameBytes(ty: nat, payload: ByteSeq): ByteSeq
    requires ty <= Varint.VARINT_MAX && |payload| <= Varint.VARINT_MAX
  {
    Varint.Encode(ty) + Varint.Encode(|payload|) + payload
  }

  lemma HeaderExtends(s: ByteSeq, more: ByteSeq)
    requires ReadHeader(s).Some?
    ensures ReadHeader(s + more) == ReadHeader(s)
  {
    hide Varint.Decode;
    Varint.DecodeExtends(s, more);
    var tn := Varint.Decode(s).value.1;
    assert (s + more)[tn..] == s[tn..] + more;
    Varint.DecodeExtends(s[tn..], more);
  }

  lemma HeaderRoundTrip(ty: nat, payload: ByteSeq, rest: ByteSeq)
    requires ty <= Varint.VARINT_MAX && |payload| <= Varint.VARINT_MAX
    ensures var head := Varint.Encode(ty) + Varint.Encode(|payload|);
            && ReadHeader(FrameBytes(ty, payload) + rest) == Some((ty, |payload|, |head|))
            && (FrameBytes(ty, payload) + rest)[|head|..] == payload + rest
  {
    hide Varint.Decode, Varint.Encode;
    var t, l := Varint.Encode(ty), Varint.Encode(|payload|);
    Varint.RoundTrip(ty, l + (payload + rest));
    Varint.RoundTrip(|payload|, payload + rest);
    assert FrameBytes(ty, payload) + rest == t + (l + (payload + rest));
    assert (FrameBytes(ty, payload) + rest)[|t|..] == l + (payload + rest);
  }

  lemma FrameExtends(f: Frame, src: ByteSeq, more: ByteSeq)
    requires !(!f.bad && f.inFrame && 0 < |src| < f.remain)
    requires FrameStep(f, src).2 != NeedMore
    ensures var (f', s, r) := FrameStep(f, src);
            FrameStep(f, src + more) == (f', s + more, r) && (r.Payload? ==> r.avail <= |s|)
  {
    hide ReadHeader;
    if !f.bad && !f.inFrame {
      HeaderExtends(src, more);
      var n := ReadHeader(src).value.2;
      assert (src + more)[n..] == src[n..] + more;
    }
  }

  class Reader {
    var ty: nat
    var len: nat
    var remain: nat
    var avail: nat
    var inFrame: bool
    var bad: bool

    ghost function View(): Frame
      reads this
    {
      Frame(ty, len, remain, inFrame, bad)
    }

    constructor ()
      ensures View() == FRAME_INIT
    {
      ty, len, remain, avail, inFrame, bad := 0, 0, 0, 0, false, false;
    }

    method Fail()
      modifies this
      ensures View() == old(View()).(bad := true)
    {
      bad := true;
    }

    method Step(src: Ring) returns (r: Result)
      modifies this, src
      ensures (View(), src.data, r) == FrameStep(old(View()), old(src.data))
      ensures r.Payload? ==> avail == r.avail
    {
      hide Varint.Decode;
      if bad {
        return Poisoned;
      }
      avail := 0;
      if !inFrame {
        var tn, t := src.PeekVarint(0);
        assert src.data[0..] == src.data;
        if tn == 0 {
          return NeedMore;
        }
        var ln, l := src.PeekVarint(tn);
        if ln == 0 {
          return NeedMore;
        }
        src.Skip(tn + ln);
        ty, len, remain, inFrame := t, l, l, true;
        return Header;
      }
      if remain == 0 {
        inFrame := false;
        return Complete;
      }
      var have := |src.data|;
      if have == 0 {
        return NeedMore;
      }
      if have > remain {
        have := remain;
      }
      avail := have;
      remain := remain - have;
      return Payload(avail);
    }
  }
}
