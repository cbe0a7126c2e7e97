/** What a query string says by the rules of application/x-www-form-urlencoded, however it was written: the
    parser against a reading of the string piece by piece. */
module HttpQuery {
  import opened Bytes
  import opened HttpText
  import opened HttpUrl

  /** Pieces with a separator between each and the next. */
  function Separated(pieces: seq<ByteSeq>, seps: seq<Byte>): ByteSeq
    requires |pieces| == |seps| + 1
  {
    if seps == [] then pieces[0] else pieces[0] + [seps[0]] + Separated(pieces[1..], seps[1..])
  }

  /** Both characters that separate fields do. */
  predicate Separators(seps: seq<Byte>) {
    forall i :: 0 <= i < |seps| ==> seps[i] == '&' as int || seps[i] == ';' as int
  }

  predicate Whole(pieces: seq<ByteSeq>) {
    forall i :: 0 <= i < |pieces| ==> '&' as int !in pieces[i] && ';' as int !in pieces[i]
  }

  /** A piece is a name and a value around its first equals sign, or all name. */
  predicate Says(piece: ByteSeq, name: ByteSeq, value: ByteSeq) {
    '=' as int !in name && (piece == name + ['=' as int] + value || (piece == name && value == []))
  }

  function AllPairs(pieces: seq<ByteSeq>): seq<Pair> {
    if pieces == [] then [] else PairOf(pieces[0]) + AllPairs(pieces[1..])
  }

  /** What a piece comes to: the pair it says with its escapes undone, unless that has no name. */
  lemma PairExactly(piece: ByteSeq, name: ByteSeq, value: ByteSeq)
    requires Says(piece, name, value)
    ensures var p := Pair(Decode(name, true), Decode(value, true));
            PairOf(piece) == if p.name == [] then [] else [p]
  {
    hide Decode, FindByte;
    NothingDecodes();
    if piece == name + [EQUALS] + value {
      assert piece[|name|] == EQUALS;
      assert forall i :: 0 <= i < |name| ==> piece[i] == name[i];
      assert FindByte(piece, 0, EQUALS) == Some(|name|);
      assert piece[..|name|] == name && piece[|name| + 1..] == value;
    } else {
      assert FindByte(piece, 0, EQUALS).None?;
    }
  }

  lemma NothingDecodes()
    ensures Decode([], true) == []
  {
  }

  /** In a form a plus sign is a space, and elsewhere itself. */
  lemma PlusReads(s: ByteSeq, plusIsSpace: bool)
    ensures Decode(['+' as int] + s, plusIsSpace)
            == [if plusIsSpace then ' ' as int else '+' as int] + Decode(s, plusIsSpace)
  {
    assert (['+' as int] + s)[1..] == s;
  }

  lemma PieceEnds(piece: ByteSeq, sep: Byte, rest: ByteSeq)
    requires '&' as int !in piece && ';' as int !in piece && (sep == '&' as int || sep == ';' as int)
    ensures PieceEnd(piece + [sep] + rest) == |piece|
  {
    hide PieceEnd;
    var s := piece + [sep] + rest;
    assert s[|piece|] == sep;
    assert forall i :: 0 <= i < |piece| ==> s[i] == piece[i];
  }

  /** A query is the pairs of its pieces, in their order. */
  lemma {:induction false} QueryExactly(pieces: seq<ByteSeq>, seps: seq<Byte>)
    requires |pieces| == |seps| + 1 && Separators(seps) && Whole(pieces)
    ensures QueryParse(Separated(pieces, seps)) == AllPairs(pieces)
    decreases |seps|
  {
    hide PairOf;
    if seps == [] {
      LastPiece(pieces[0]);
      assert pieces[1..] == [];
    } else {
      var rest := Separated(pieces[1..], seps[1..]);
      var s := pieces[0] + [seps[0]] + rest;
      PieceEnds(pieces[0], seps[0], rest);
      assert s[..|pieces[0]|] == pieces[0] && s[|pieces[0]| + 1..] == rest;
      QueryExactly(pieces[1..], seps[1..]);
    }
  }

  lemma LastPiece(piece: ByteSeq)
    requires '&' as int !in piece && ';' as int !in piece
    ensures QueryParse(piece) == PairOf(piece)
  {
    hide PairOf, PieceEnd;
    assert PieceEnd(piece) == |piece|;
    assert piece[..|piece|] == piece;
    assert PairOf(piece) + [] == PairOf(piece);
  }
}
