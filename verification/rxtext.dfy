/** The text view of the received buffer (`rx_str`): every received value
    becomes one character, and the resulting string is cut at every carriage
    return, with Python's `str.split` conventions: an empty buffer gives one
    empty line, and a trailing carriage return gives a trailing empty line.
 */
module RxText {
  import opened Bits

  /** Carriage return, `'\r'`. */
  const CR: byte := 0x0D

  function CountCR(buf: seq<byte>): (n: nat)
    ensures n <= |buf|
    ensures n == 0 <==> CR !in buf
  {
    if |buf| == 0 then 0 else (if buf[0] == CR then 1 else 0) + CountCR(buf[1..])
  }

  /** The pieces glued back together with a carriage return between neighbours
      (Python's `'\r'.join`). */
  function JoinWithCR(pieces: seq<seq<byte>>): seq<byte>
    requires |pieces| >= 1
  {
    if |pieces| == 1 then pieces[0] else pieces[0] + [CR] + JoinWithCR(pieces[1..])
  }

  /** `buf` cut at every carriage return, the carriage returns dropped. */
  function SplitOnCR(buf: seq<byte>): (pieces: seq<seq<byte>>)
    ensures |pieces| == CountCR(buf) + 1
  {
    if |buf| == 0 then [[]]
    else
      var rest := SplitOnCR(buf[1..]);
      if buf[0] == CR then [[]] + rest
      else [[buf[0]] + rest[0]] + rest[1..]
  }

  /** No piece of a split contains a carriage return. */
  lemma {:induction false} SplitPiecesHaveNoCR(buf: seq<byte>)
    ensures forall k :: 0 <= k < |SplitOnCR(buf)| ==> CR !in SplitOnCR(buf)[k]
  {
    if |buf| > 0 {
      SplitPiecesHaveNoCR(buf[1..]);
    }
  }

  /** Joining the pieces of a split with carriage returns gives the buffer back. */
  lemma {:induction false} JoinSplit(buf: seq<byte>)
    ensures JoinWithCR(SplitOnCR(buf)) == buf
  {
    if |buf| > 0 {
      JoinSplit(buf[1..]);
      var rest := SplitOnCR(buf[1..]);
      if buf[0] == CR {
        JoinEmptyFirst(rest);
        assert buf == [CR] + buf[1..];
      } else {
        JoinExtendFirst(buf[0], rest);
        assert buf == [buf[0]] + buf[1..];
      }
    }
  }

  lemma JoinEmptyFirst(pieces: seq<seq<byte>>)
    requires |pieces| >= 1
    ensures JoinWithCR([[]] + pieces) == [CR] + JoinWithCR(pieces)
  {
    var ps := [[]] + pieces;
    assert ps[1..] == pieces;
    assert ps[0] == [];
  }

  lemma JoinExtendFirst(x: byte, pieces: seq<seq<byte>>)
    requires |pieces| >= 1
    ensures JoinWithCR([[x] + pieces[0]] + pieces[1..]) == [x] + JoinWithCR(pieces)
  {
    var p0, rest := pieces[0], pieces[1..];
    assert pieces == [p0] + rest;
    if |rest| == 0 {
      JoinOne([x] + p0);
      JoinOne(p0);
    } else {
      JoinMore([x] + p0, rest);
      JoinMore(p0, rest);
      AppendAssoc([x], p0, [CR] + JoinWithCR(rest));
    }
  }

  lemma JoinOne(p: seq<byte>)
    ensures JoinWithCR([p]) == p
  {
  }

  lemma JoinMore(p: seq<byte>, rest: seq<seq<byte>>)
    requires |rest| >= 1
    ensures JoinWithCR([p] + rest) == p + ([CR] + JoinWithCR(rest))
  {
    assert ([p] + rest)[1..] == rest;
  }

  /** Splitting a join of carriage-return-free pieces gives the pieces back:
      together with the `JoinWithCR` clause of `SplitOnCR`, the two are inverse. */
  lemma {:induction false} SplitJoin(pieces: seq<seq<byte>>)
    requires |pieces| >= 1
    requires forall k :: 0 <= k < |pieces| ==> CR !in pieces[k]
    ensures SplitOnCR(JoinWithCR(pieces)) == pieces
  {
    if |pieces| == 1 {
      SplitPiece(pieces[0], []);
      assert pieces[0] + [] == pieces[0];
    } else {
      SplitJoin(pieces[1..]);
      var tail := [CR] + JoinWithCR(pieces[1..]);
      SplitPiece(pieces[0], tail);
      assert JoinWithCR(pieces) == pieces[0] + tail;
      assert tail[0] == CR && tail[1..] == JoinWithCR(pieces[1..]);
      var t := SplitOnCR(tail);
      assert t == [[]] + pieces[1..];
      assert pieces[0] + t[0] == pieces[0];
      assert t[1..] == pieces[1..];
    }
  }

  /** A carriage-return-free prefix glues onto the first piece of what follows. */
  lemma {:induction false} SplitPiece(p: seq<byte>, tail: seq<byte>)
    requires CR !in p
    ensures SplitOnCR(p + tail) == [p + SplitOnCR(tail)[0]] + SplitOnCR(tail)[1..]
  {
    if |p| > 0 {
      SplitPiece(p[1..], tail);
      SplitPieceStep(p, tail, SplitOnCR(tail));
    } else {
      assert p + tail == tail;
      assert p + SplitOnCR(tail)[0] == SplitOnCR(tail)[0];
    }
  }

  lemma SplitPieceStep(p: seq<byte>, tail: seq<byte>, t: seq<seq<byte>>)
    requires |p| > 0 && p[0] != CR && |t| >= 1
    requires SplitOnCR(p[1..] + tail) == [p[1..] + t[0]] + t[1..]
    ensures SplitOnCR(p + tail) == [p + t[0]] + t[1..]
  {
    assert p + tail == [p[0]] + (p[1..] + tail);
    SplitCons(p[0], p[1..] + tail);
    assert p == [p[0]] + p[1..];
    AppendAssoc([p[0]], p[1..], t[0]);
  }

  /** A byte other than a carriage return joins the first piece of the rest. */
  lemma SplitCons(x: byte, rest: seq<byte>)
    requires x != CR
    ensures SplitOnCR([x] + rest) == [[x] + SplitOnCR(rest)[0]] + SplitOnCR(rest)[1..]
  {
    assert ([x] + rest)[1..] == rest;
  }

  /** Python's `chr` on a received value. */
  function Chr(v: byte): (c: char)
    ensures c as int == v
  {
    v as char
  }

  /** The characters of a piece, one per received value. */
  function ToText(piece: seq<byte>): (t: string)
    ensures |t| == |piece|
    ensures forall i :: 0 <= i < |piece| ==> t[i] as int == piece[i]
  {
    seq(|piece|, i requires 0 <= i < |piece| => Chr(piece[i]))
  }

  /** `rx_str`: the received buffer as lines of text separated by `'\r'`. */
  function RxStr(buf: seq<byte>): (lines: seq<string>)
    ensures |lines| == CountCR(buf) + 1
    ensures forall k :: 0 <= k < |lines| ==> '\r' !in lines[k]
  {
    var pieces := SplitOnCR(buf);
    SplitPiecesHaveNoCR(buf);
    seq(|pieces|, k requires 0 <= k < |pieces| => ToText(pieces[k]))
  }

  /** The buffer [0x41, 0x42, 0x0D, 0x43] reads as the two lines "AB" and "C". */
  lemma RxStrExample()
    ensures RxStr([0x41, 0x42, 0x0D, 0x43]) == ["AB", "C"]
  {
    var buf: seq<byte> := [0x41, 0x42, 0x0D, 0x43];
    var empty: seq<byte> := [];
    var e := SplitOnCR(empty);
    assert e == [[]];
    var s3 := buf[3..];
    assert s3[1..] == empty;
    assert SplitOnCR(s3) == [[0x43] + e[0]] + e[1..];
    var p3 := SplitOnCR(s3);
    assert e[0] == empty && e[1..] == [];
    assert [0x43] + e[0] == [0x43];
    assert p3 == [[0x43]];
    assert buf[2..][1..] == s3;
    var p2 := SplitOnCR(buf[2..]);
    assert p2 == [[]] + p3;
    assert buf[1..][1..] == buf[2..];
    var p1 := SplitOnCR(buf[1..]);
    assert p1 == [[0x42] + p2[0]] + p2[1..];
    assert p2[0] == empty && p2[1..] == [[0x43]];
    assert [0x42] + p2[0] == [0x42];
    assert p1 == [[0x42], [0x43]];
    assert [0x41] + p1[0] == [0x41, 0x42];
    assert SplitOnCR(buf) == [[0x41] + p1[0]] + p1[1..];
    assert SplitOnCR(buf) == [[0x41, 0x42], [0x43]];
    assert ToText([0x41, 0x42]) == "AB";
    assert ToText([0x43]) == "C";
  }

  /** An empty buffer is one empty line; a trailing carriage return ends with one. */
  lemma RxStrEdges(buf: seq<byte>)
    ensures RxStr([]) == [""]
    ensures RxStr(buf + [CR])[|RxStr(buf + [CR])| - 1] == ""
  {
    LastPieceAfterCR(buf);
  }

  /** Splitting a buffer that ends in a carriage return yields an empty last piece. */
  lemma {:induction false} LastPieceAfterCR(buf: seq<byte>)
    ensures |SplitOnCR(buf + [CR])| >= 2
    ensures SplitOnCR(buf + [CR])[|SplitOnCR(buf + [CR])| - 1] == []
  {
    if |buf| == 0 {
      assert buf + [CR] == [CR];
      assert [CR][1..] == [];
    } else {
      assert (buf + [CR])[1..] == buf[1..] + [CR];
      LastPieceAfterCR(buf[1..]);
    }
  }
}
