/** The QPACK Huffman coder: encoder, decoder, and the proof that they are inverse to one another
    on exactly the strings the decoder accepts. */
module Huffman {
  import opened Bytes
  import opened HuffmanTables

  // ----- The coding as a function on bit strings

  /** The bits of one symbol's code. */
  function CodeBits(s: Byte): (r: seq<bool>)
    ensures 5 <= |r| <= MAX_BITS
  {
    SymbolOfCode(s);
    Bits(Code(s), CodeLen(s))
  }

  /** The codes of a string, one after the other. */
  function EncodeBits(data: ByteSeq): (r: seq<bool>)
    ensures 5 * |data| <= |r|
  {
    if data == [] then [] else EncodeBits(data[..|data| - 1]) + CodeBits(data[|data| - 1])
  }

  /** How many padding bits round `n` bits up to a byte boundary. */
  function Padding(n: nat): (p: nat)
    ensures p < 8 && (n + p) % 8 == 0
  {
    (8 - n % 8) % 8
  }

  lemma PaddingUnique(n: nat, p: nat)
    requires p < 8 && (n + p) % 8 == 0
    ensures p == Padding(n)
  {
  }

  function Encode(data: ByteSeq): (r: ByteSeq)
    ensures Unpack(r) == EncodeBits(data) + Ones(Padding(|EncodeBits(data)|))
  {
    Pack(EncodeBits(data) + Ones(Padding(|EncodeBits(data)|)))
  }

  /** Where the bit-at-a-time decoder stands: the code bits gathered so far and the symbols out. */
  datatype Walk = Walk(code: nat, nbits: nat, out: ByteSeq) | Rejected

  const START := Walk(0, 0, [])

  function Step(w: Walk, bit: bool): Walk {
    match w
    case Rejected => Rejected
    case Walk(c, k, out) =>
      var code, n := 2 * c + (if bit then 1 else 0), k + 1;
      if n > MAX_BITS then Rejected
      else if !Matches(code, n) then Walk(code, n, out)
      else
        CodeOfSymbol(code, n);
        if SymbolOf(code, n) == EOS then Rejected
        else Walk(0, 0, out + [SymbolOf(code, n)])
  }

  function Run(w: Walk, bits: seq<bool>): Walk {
    if bits == [] then w else Step(Run(w, bits[..|bits| - 1]), bits[|bits| - 1])
  }

  /** The decoder's verdict once the input is used up: what is left must be padding. */
  function Finish(w: Walk): Option<ByteSeq> {
    match w
    case Rejected => None
    case Walk(code, n, out) =>
      if n >= 8 || (n > 0 && code != Pow2(n) - 1) then None else Some(out)
  }

  function Decode(data: ByteSeq): Option<ByteSeq> {
    Finish(Run(START, Unpack(data)))
  }

  // ----- No code is a prefix of another

  lemma {:induction false} FloorFits(n: nat)
    requires n <= 31
    ensures Floor(n) <= Pow2(n)
    ensures n <= 30 ==> Floor(n) + Count(n) <= Pow2(n)
    decreases 31 - n
  {
    if n == 31 {
      FloorTop();
      Pow2Table();
    } else {
      FloorFits(n + 1);
    }
  }

  /** No non-empty prefix of the `n`-bit string `c` is a code. */
  predicate NoMatch(c: nat, n: nat) {
    n == 0 || (!Matches(c, n) && NoMatch(c / 2, n - 1))
  }

  lemma {:induction false} AboveAllCodes(c: nat, n: nat)
    requires n <= MAX_BITS && Floor(n) + Count(n) <= c
    ensures NoMatch(c, n)
    decreases n
  {
    if n > 0 {
      if Count(n) != 0 {
        FloorIsFirstCode(n);
      }
      AboveAllCodes(c / 2, n - 1);
    }
  }

  /** No proper prefix of a symbol's code is itself a code, and the code fits its length. */
  lemma CodeIsPrefixFree(s: int)
    requires 0 <= s <= EOS
    ensures 5 <= CodeLen(s) <= MAX_BITS && 0 <= Code(s) < Pow2(CodeLen(s))
    ensures NoMatch(Code(s) / 2, CodeLen(s) - 1)
  {
    SymbolOfCode(s);
    FloorIsFirstCode(CodeLen(s));
    FloorFits(CodeLen(s));
    AboveAllCodes(Code(s) / 2, CodeLen(s) - 1);
  }

  lemma OnesAreNoCode(n: nat)
    requires n < 8
    ensures NoMatch(Pow2(n) - 1, n)
  {
    hide Code, CodeLen, FirstCode, FirstIndex, Symbol, Matches, NoMatch;
    assert Floor(5) == 0 && Floor(6) == 20 && Floor(7) == 92;
    Pow2Table();
    assert Floor(n) + Count(n) <= Pow2(n) - 1;
    AboveAllCodes(Pow2(n) - 1, n);
  }

  // ----- Decoding undoes encoding

  lemma {:induction false} RunConcat(w: Walk, a: seq<bool>, b: seq<bool>)
    ensures Run(w, a + b) == Run(Run(w, a), b)
    decreases |b|
  {
    if b == [] {
      assert a + b == a;
    } else {
      var n := |b| - 1;
      RunConcat(w, a, b[..n]);
      assert (a + b)[..|a + b| - 1] == a + b[..n];
    }
  }

  /** Bits that form no code are gathered without producing anything. */
  lemma {:induction false} WalkGathers(c: nat, n: nat, out: ByteSeq)
    requires n <= MAX_BITS && c < Pow2(n) && NoMatch(c, n)
    ensures Run(Walk(0, 0, out), Bits(c, n)) == Walk(c, n, out)
    decreases n
  {
    hide Code, CodeLen, FirstCode, FirstIndex, Count, Symbol, Matches, SymbolOf;
    if n > 0 {
      var bits := Bits(c, n);
      WalkGathers(c / 2, n - 1, out);
      assert bits[..n - 1] == Bits(c / 2, n - 1);
    }
  }

  /** The code of a symbol, read from a symbol boundary, produces that symbol. */
  lemma WalkEmits(s: Byte, out: ByteSeq)
    ensures Run(Walk(0, 0, out), CodeBits(s)) == Walk(0, 0, out + [s])
  {
    hide Code, CodeLen, FirstCode, FirstIndex, Count, Symbol, Matches, SymbolOf;
    CodeIsPrefixFree(s);
    SymbolOfCode(s);
    var c, n := Code(s), CodeLen(s);
    WalkGathers(c / 2, n - 1, out);
    assert Bits(c, n)[..n - 1] == Bits(c / 2, n - 1);
  }

  lemma {:induction false} RunEncodeBits(data: ByteSeq)
    ensures Run(START, EncodeBits(data)) == Walk(0, 0, data)
  {
    hide Code, CodeLen, FirstCode, FirstIndex, Count, Symbol, Matches, SymbolOf;
    if data != [] {
      var n := |data| - 1;
      RunEncodeBits(data[..n]);
      RunConcat(START, EncodeBits(data[..n]), CodeBits(data[n]));
      WalkEmits(data[n], data[..n]);
      assert data[..n] + [data[n]] == data;
    }
  }

  lemma DecodePadded(data: ByteSeq, p: nat)
    requires p < 8
    ensures Finish(Run(START, EncodeBits(data) + Ones(p))) == Some(data)
  {
    hide Code, CodeLen, FirstCode, FirstIndex, Count, Symbol, Matches, SymbolOf;
    RunEncodeBits(data);
    RunConcat(START, EncodeBits(data), Ones(p));
    OnesAreNoCode(p);
    BitsOfOnes(p);
    WalkGathers(Pow2(p) - 1, p, data);
  }

  /** Decoding an encoding gives back every byte string. */
  lemma DecodeEncode(data: ByteSeq)
    ensures Decode(Encode(data)) == Some(data)
  {
    hide EncodeBits, Run, Finish;
    DecodePadded(data, Padding(|EncodeBits(data)|));
  }

  // ----- Encoding undoes decoding

  /** Whatever the decoder has read is the encoding of what it has produced, followed by the code
      bits it is still holding. */
  lemma {:induction false} RunReads(bits: seq<bool>)
    ensures var w := Run(START, bits);
            w.Walk? ==> w.nbits <= MAX_BITS && w.code < Pow2(w.nbits)
                        && bits == EncodeBits(w.out) + Bits(w.code, w.nbits)
    decreases |bits|
  {
    hide Code, CodeLen, FirstCode, FirstIndex, Count, Symbol, Matches, SymbolOf;
    if bits != [] {
      var n := |bits| - 1;
      RunReads(bits[..n]);
      var w := Run(START, bits[..n]);
      if w.Walk? && w.nbits < MAX_BITS {
        RunReadsOne(w, bits[..n], bits[n]);
        assert bits == bits[..n] + [bits[n]];
      }
    }
  }

  lemma RunReadsOne(w: Walk, read: seq<bool>, bit: bool)
    requires w.Walk? && w.nbits < MAX_BITS && w.code < Pow2(w.nbits)
    requires read == EncodeBits(w.out) + Bits(w.code, w.nbits)
    ensures var w' := Step(w, bit);
            w'.Walk? ==> w'.nbits <= MAX_BITS && w'.code < Pow2(w'.nbits)
                         && read + [bit] == EncodeBits(w'.out) + Bits(w'.code, w'.nbits)
  {
    hide Code, CodeLen, FirstCode, FirstIndex, Count, Symbol, Matches, SymbolOf, Bits, EncodeBits, Pow2;
    var code, n := 2 * w.code + (if bit then 1 else 0), w.nbits + 1;
    BitsNext(w.code, w.nbits, bit);
    if Matches(code, n) {
      CodeOfSymbol(code, n);
      var s := SymbolOf(code, n);
      if s != EOS {
        EncodeBitsAppend(w.out, s);
        NoBits();
      }
    }
  }

  lemma BitsNext(code: nat, n: nat, bit: bool)
    requires code < Pow2(n)
    ensures var c := 2 * code + (if bit then 1 else 0);
            c < Pow2(n + 1) && Bits(c, n + 1) == Bits(code, n) + [bit]
  {
  }

  lemma NoBits()
    ensures Bits(0, 0) == [] && Pow2(0) == 1
  {
  }

  lemma EncodeBitsAppend(out: ByteSeq, s: Byte)
    ensures EncodeBits(out + [s]) == EncodeBits(out) + Bits(Code(s), CodeLen(s))
  {
    hide Code, CodeLen, Bits;
    assert (out + [s])[..|out|] == out;
  }

  lemma FinishedIsPadded(bits: seq<bool>, out: ByteSeq)
    requires |bits| % 8 == 0 && Finish(Run(START, bits)) == Some(out)
    ensures bits == EncodeBits(out) + Ones(Padding(|EncodeBits(out)|))
  {
    hide Code, CodeLen, FirstCode, FirstIndex, Count, Symbol, Matches, SymbolOf;
    RunReads(bits);
    var w := Run(START, bits);
    BitsOfOnes(w.nbits);
    PaddingUnique(|EncodeBits(out)|, w.nbits);
  }

  /** The decoder accepts nothing but encodings: an accepted input is byte for byte the encoding
      of its result. */
  lemma EncodeDecode(data: ByteSeq, out: ByteSeq)
    requires Decode(data) == Some(out)
    ensures Encode(out) == data
  {
    hide EncodeBits, Run, Finish;
    FinishedIsPadded(Unpack(data), out);
    UnpackInjective(Encode(out), data);
  }

  /** The coding is a bijection between byte strings and accepted inputs, and no input expands by
      more than eight fifths. */
  lemma DecodeExpands(data: ByteSeq, out: ByteSeq)
    requires Decode(data) == Some(out)
    ensures 5 * |out| <= 8 * |data|
    ensures forall other :: Decode(other) == Some(out) ==> other == data
  {
    hide Code, CodeLen, FirstCode, FirstIndex, Count, Symbol, Matches, SymbolOf;
    EncodeDecode(data, out);
    assert |Unpack(data)| == 8 * |data|;
    forall other | Decode(other) == Some(out)
      ensures other == data
    {
      EncodeDecode(other, out);
    }
  }

  // ----- The coder itself

  /** The encoded length in bytes. */
  function EncodedLen(data: ByteSeq): (n: nat)
    ensures |Encode(data)| == n
  {
    assert |Unpack(Encode(data))| == 8 * |Encode(data)|;
    (|EncodeBits(data)| + 7) / 8
  }

  lemma EncodeNonEmpty(data: ByteSeq)
    requires data != []
    ensures Encode(data) != []
  {
    hide CodeBits;
    assert |Unpack(Encode(data))| >= 5;
  }

  lemma EncodeBitsPrefix(data: ByteSeq, i: nat)
    requires i < |data|
    ensures EncodeBits(data[..i + 1]) == EncodeBits(data[..i]) + CodeBits(data[i])
  {
    assert data[..i + 1][..i] == data[..i];
  }

  lemma {:induction false} EncodeBitsGrows(data: ByteSeq, i: nat)
    requires i <= |data|
    ensures |EncodeBits(data[..i])| <= |EncodeBits(data)|
    decreases |data| - i
  {
    if i == |data| {
      assert data[..i] == data;
    } else {
      EncodeBitsPrefix(data, i);
      EncodeBitsGrows(data, i + 1);
    }
  }

  method HuffLen(data: ByteSeq) returns (n: nat)
    ensures n == |Encode(data)|
  {
    hide Code, CodeLen;
    var bits := 0;
    for i := 0 to |data|
      invariant bits == |EncodeBits(data[..i])|
    {
      EncodeBitsPrefix(data, i);
      SymbolOfCode(data[i]);
      bits := bits + CodeLen(data[i]);
    }
    assert data[..|data|] == data;
    n := (bits + 7) / 8;
    assert n == EncodedLen(data);
  }

  /** `acc << n | low` on a 64-bit accumulator. */
  function ShiftIn(acc: nat, n: nat, low: nat): (r: nat)
    requires low < Pow2(n)
    ensures r < U64
  {
    (acc * Pow2(n) + low) % U64
  }

  lemma ShiftInBits(acc: nat, held: nat, n: nat, low: nat)
    requires low < Pow2(n) && held + n <= 64
    ensures Bits(ShiftIn(acc, n, low), held + n) == Bits(acc, held) + Bits(low, n)
  {
    BitsConcat(acc, held, low, n);
    Pow2Table();
    BitsOfRemainder(acc * Pow2(n) + low, held + n, 64);
  }

  /** The byte at position `held` of the accumulator, as the cast to `uint8` keeps it. */
  function ByteAt(acc: nat, held: nat): Byte {
    Shr(acc, held) % 256
  }

  lemma ByteAtBits(acc: nat, held: nat)
    ensures Bits(acc, 8 + held) == Bits(ByteAt(acc, held), 8) + Bits(acc, held)
  {
    BitsSplit(acc, 8, held);
    Pow2Table();
    BitsOfRemainder(Shr(acc, held), 8, 8);
  }

  lemma GatherSymbol(done: ByteSeq, acc: nat, held: nat, data: ByteSeq, i: nat)
    requires i < |data| && held < 8
    requires Unpack(done) + Bits(acc, held) == EncodeBits(data[..i])
    ensures var n := CodeLen(data[i]);
            && 5 <= n <= MAX_BITS && 0 <= Code(data[i]) < Pow2(n)
            && Unpack(done) + Bits(ShiftIn(acc, n, Code(data[i])), held + n)
               == EncodeBits(data[..i + 1])
            && |EncodeBits(data[..i + 1])| <= |EncodeBits(data)|
  {
    hide Code, CodeLen, Bits, Pow2, Unpack, EncodeBits, ShiftIn;
    EncodeBitsPrefix(data, i);
    EncodeBitsGrows(data, i + 1);
    CodeIsPrefixFree(data[i]);
    ShiftInBits(acc, held, CodeLen(data[i]), Code(data[i]));
  }

  lemma DrainByte(done: ByteSeq, acc: nat, held: nat, bits: seq<bool>)
    requires Unpack(done) + Bits(acc, 8 + held) == bits
    ensures Unpack(done + [ByteAt(acc, held)]) + Bits(acc, held) == bits
  {
    ByteAtBits(acc, held);
    UnpackAppend(done, ByteAt(acc, held));
  }

  lemma DrainPadding(done: ByteSeq, acc: nat, held: nat, bits: seq<bool>)
    requires 0 < held < 8 && Unpack(done) + Bits(acc, held) == bits
    ensures var last := ShiftIn(acc, 8 - held, Pow2(8 - held) - 1);
            Unpack(done + [ByteAt(last, 0)]) == bits + Ones(8 - held)
  {
    var pad := 8 - held;
    ShiftInBits(acc, held, pad, Pow2(pad) - 1);
    BitsOfOnes(pad);
    var last := ShiftIn(acc, pad, Pow2(pad) - 1);
    DrainByte(done, last, 0, bits + Ones(pad));
  }

  /** Moves whole bytes from the accumulator to the output. */
  method DrainBytes(out: array<Byte>, start: nat, acc: nat, have: nat, ghost bits: seq<bool>)
    returns (o: nat, held: nat)
    requires 8 * start + have <= 8 * out.Length && Unpack(out[..start]) + Bits(acc, have) == bits
    modifies out
    ensures held < 8 && 8 * o + held == 8 * start + have
    ensures Unpack(out[..o]) + Bits(acc, held) == bits && out[o..] == old(out[o..])
  {
    hide Bits, Unpack, ByteAt;
    o, held := start, have;
    while held >= 8
      invariant 8 * o + held == 8 * start + have
      invariant Unpack(out[..o]) + Bits(acc, held) == bits && out[o..] == old(out[o..])
    {
      held := held - 8;
      DrainByte(out[..o], acc, held, bits);
      ghost var done, rest := out[..o], out[o..];
      out[o] := ByteAt(acc, held);
      o := o + 1;
      assert out[..o] == done + [ByteAt(acc, held)];
      assert out[o..] == rest[1..] == old(out[o - 1..])[1..];
    }
  }

  /** Writes the encoding of `data` and returns its length, or returns zero and writes nothing if
      there is nothing to write or no room for it. */
  method HuffEncode(out: array<Byte>, data: ByteSeq) returns (o: nat)
    modifies out
    ensures |Encode(data)| > out.Length ==> o == 0 && out[..] == old(out[..])
    ensures |Encode(data)| <= out.Length ==>
              o == |Encode(data)| && out[..o] == Encode(data) && out[o..] == old(out[o..])
  {
    hide Code, CodeLen, Encode, EncodeBits, Bits, Unpack, ShiftIn, ByteAt;
    var need := HuffLen(data);
    if need == 0 || need > out.Length {
      return 0;
    }
    var acc: nat, held: nat := 0, 0;
    o := 0;
    ghost var total := |EncodeBits(data)|;
    assert need == EncodedLen(data);
    EmptyEncodings(out[..0], data[..0]);
    for i := 0 to |data|
      invariant 8 * o + held <= total && held < 8
      invariant Unpack(out[..o]) + Bits(acc, held) == EncodeBits(data[..i])
      invariant out[need..] == old(out[need..])
    {
      GatherSymbol(out[..o], acc, held, data, i);
      var nbits := CodeLen(data[i]);
      acc := ShiftIn(acc, nbits, Code(data[i]));
      held := held + nbits;
      o, held := DrainBytes(out, o, acc, held, EncodeBits(data[..i + 1]));
    }
    assert data[..|data|] == data;
    PaddingUnique(total, if held == 0 then 0 else 8 - held);
    if held > 0 {
      var pad := 8 - held;
      DrainPadding(out[..o], acc, held, EncodeBits(data));
      ghost var done := out[..o];
      var last := ShiftIn(acc, pad, Pow2(pad) - 1);
      out[o] := ByteAt(last, 0);
      o := o + 1;
      assert out[..o] == done + [ByteAt(last, 0)];
    }
    UnpackInjective(out[..o], Encode(data));
  }

  lemma EmptyEncodings(none: ByteSeq, data: ByteSeq)
    requires none == [] && data == []
    ensures Unpack(none) == EncodeBits(data) == Bits(0, 0) == []
  {
  }

  lemma {:induction false} RunGrows(w: Walk, bits: seq<bool>)
    ensures Run(w, bits).Walk? ==> w.Walk? && |w.out| <= |Run(w, bits).out|
  {
    if bits != [] {
      RunGrows(w, bits[..|bits| - 1]);
    }
  }

  /** A run that is refused, or has produced too much, after a prefix of the input never recovers. */
  lemma NoRecovery(data: ByteSeq, i: nat, k: nat, room: nat)
    requires i < |data| && k <= 8
    requires var w := Run(START, Unpack(data[..i]) + Bits(data[i], 8)[..k]);
             w.Rejected? || |w.out| > room
    ensures Decode(data).None? || |Decode(data).value| > room
  {
    hide Step;
    var read := Unpack(data[..i]) + Bits(data[i], 8)[..k];
    UnpackPrefix(data, i + 1);
    assert data[..i + 1][..i] == data[..i];
    var rest := Unpack(data)[|read|..];
    assert Unpack(data) == read + rest;
    RunConcat(START, read, rest);
    RunGrows(Run(START, read), rest);
  }

  lemma {:induction false} UnpackPrefix(data: ByteSeq, i: nat)
    requires i <= |data|
    ensures Unpack(data)[..8 * i] == Unpack(data[..i])
    decreases |data|
  {
    if i == |data| {
      assert data[..i] == data;
    } else {
      var n := |data| - 1;
      UnpackPrefix(data[..n], i);
      assert data[..n][..i] == data[..i];
      assert Unpack(data)[..8 * i] == Unpack(data[..n])[..8 * i];
    }
  }

  lemma {:induction false} BitAt(v: nat, n: nat, j: nat)
    requires j < n
    ensures Bits(v, n)[j] == (Shr(v, n - 1 - j) % 2 == 1)
  {
    BitsSplit(v, j + 1, n - 1 - j);
    assert Bits(Shr(v, n - 1 - j), j + 1)[j] == (Shr(v, n - 1 - j) % 2 == 1);
  }

  /** One more bit of `data[i]` read. */
  lemma ReadBit(data: ByteSeq, i: nat, b: nat)
    requires i < |data| && b < 8
    ensures var bits := Unpack(data[..i]) + Bits(data[i], 8)[..8 - b];
            Run(START, bits) == Step(Run(START, Unpack(data[..i]) + Bits(data[i], 8)[..7 - b]),
                                     Shr(data[i], b) % 2 == 1)
  {
    hide Step;
    BitAt(data[i], 8, 7 - b);
    var bits := Unpack(data[..i]) + Bits(data[i], 8)[..8 - b];
    assert bits[..|bits| - 1] == Unpack(data[..i]) + Bits(data[i], 8)[..7 - b];
  }

  lemma ReadByte(data: ByteSeq, i: nat)
    requires i < |data|
    ensures Unpack(data[..i]) + Bits(data[i], 8)[..0] == Unpack(data[..i])
    ensures Unpack(data[..i]) + Bits(data[i], 8)[..8] == Unpack(data[..i + 1])
  {
    assert data[..i + 1][..i] == data[..i];
  }

  /** The room that is always enough for what `len` encoded bytes decode to. */
  function MaxDecoded(len: nat): nat {
    len * 8 / 5 + 1
  }

  lemma MaxDecodedIsEnough(data: ByteSeq)
    requires Decode(data).Some?
    ensures |Decode(data).value| < MaxDecoded(|data|)
  {
    DecodeExpands(data, Decode(data).value);
  }

  /** Decodes into `out`; fails exactly when the input is not an encoding or its result does not
      fit. */
  method HuffDecode(out: array<Byte>, data: ByteSeq) returns (ok: bool, outlen: nat)
    modifies out
    ensures ok <==> Decode(data).Some? && |Decode(data).value| <= out.Length
    ensures ok ==> outlen == |Decode(data).value| && out[..outlen] == Decode(data).value
    ensures !ok ==> outlen == 0
  {
    hide Run, Bits, Unpack, FirstCode, FirstIndex, Count, Symbol, Code, CodeLen;
    outlen := 0;
    var code: nat, nbits: nat, o: nat := 0, 0, 0;
    StartOfInput(data[..0]);
    for i := 0 to |data|
      invariant o <= out.Length
      invariant Run(START, Unpack(data[..i])) == Walk(code, nbits, out[..o])
    {
      ReadByte(data, i);
      for b := 8 downto 0
        invariant o <= out.Length
        invariant Run(START, Unpack(data[..i]) + Bits(data[i], 8)[..8 - b])
                  == Walk(code, nbits, out[..o])
      {
        ReadBit(data, i, b);
        code := 2 * code + Shr(data[i], b) % 2;
        nbits := nbits + 1;
        if nbits > MAX_BITS {
          NoRecovery(data, i, 8 - b, out.Length);
          return false, 0;
        }
        if !(Count(nbits) == 0 || code < FirstCode(nbits)
             || code - FirstCode(nbits) >= Count(nbits)) {
          CodeOfSymbol(code, nbits);
          var sym := Symbol(FirstIndex(nbits) + (code - FirstCode(nbits)));
          if sym == EOS {
            NoRecovery(data, i, 8 - b, out.Length);
            return false, 0;
          }
          if o >= out.Length {
            NoRecovery(data, i, 8 - b, out.Length);
            return false, 0;
          }
          ghost var done := out[..o];
          out[o] := sym;
          o := o + 1;
          assert out[..o] == done + [sym];
          code, nbits := 0, 0;
        }
      }
    }
    assert data[..|data|] == data;
    if nbits >= 8 {
      return false, 0;
    }
    if nbits > 0 && code != Pow2(nbits) - 1 {
      return false, 0;
    }
    return true, o;
  }

  lemma StartOfInput(none: ByteSeq)
    requires none == []
    ensures Run(START, Unpack(none)) == START
  {
  }
}
