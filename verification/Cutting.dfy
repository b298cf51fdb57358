/**
 How a byte string is cut for transmission. The packet layer and the file layer run the same loop:
 take `min(max, what is left)` bytes at a running offset until nothing is left.
 */
module Cutting {
  import opened Basics
  import opened Numbered

  function Cut(data: Bytes, max: nat): seq<Bytes>
    requires max >= 1
  {
    if data == [] then []
    else
      var size := Min(max, |data|);
      [data[..size]] + Cut(data[size..], max)
  }

  function Itself(piece: Bytes): Bytes { piece }

  /** A list of pieces the loop could have made: all of them full except the last, which is not empty. */
  ghost predicate EvenlyCut(pieces: seq<Bytes>, max: nat) {
    && (forall i :: 0 <= i < |pieces| ==> 1 <= |pieces[i]| <= max)
    && (forall i :: 0 <= i < |pieces| - 1 ==> |pieces[i]| == max)
  }

  lemma {:induction false} CutIsEven(data: Bytes, max: nat)
    requires max >= 1
    ensures EvenlyCut(Cut(data, max), max)
    ensures |Cut(data, max)| <= |data|
    ensures data != [] ==> 1 <= |Cut(data, max)|
    ensures data != [] ==> (|Cut(data, max)| - 1) * max < |data| <= |Cut(data, max)| * max
  {
    if data != [] {
      var size := Min(max, |data|);
      var rest := data[size..];
      CutIsEven(rest, max);
      var n := |Cut(rest, max)|;
      assert |Cut(data, max)| == n + 1;
      assert n * max == (n - 1) * max + max && (n + 1) * max == n * max + max;
    }
  }

  lemma {:induction false} JoinCons(piece: Bytes, rest: seq<Bytes>)
    ensures JoinBy(Itself, [piece] + rest) == piece + JoinBy(Itself, rest)
  {
    JoinConcat(Itself, [piece], rest);
    assert [piece][..0] == [];
    assert JoinBy(Itself, [piece]) == piece;
  }

  lemma {:induction false} CutJoins(data: Bytes, max: nat)
    requires max >= 1
    ensures JoinBy(Itself, Cut(data, max)) == data
  {
    if data != [] {
      var size := Min(max, |data|);
      CutJoins(data[size..], max);
      JoinCons(data[..size], Cut(data[size..], max));
    }
  }

  /** The loop's result is the only evenly cut list that joins back to the data. */
  lemma {:induction false} CutIsUnique(pieces: seq<Bytes>, data: Bytes, max: nat)
    requires max >= 1
    ensures EvenlyCut(pieces, max) && JoinBy(Itself, pieces) == data <==> pieces == Cut(data, max)
  {
    CutIsEven(data, max);
    CutJoins(data, max);
    if EvenlyCut(pieces, max) && JoinBy(Itself, pieces) == data {
      EvenlyCutIsCut(pieces, data, max);
    }
  }

  lemma {:induction false} EvenlyCutIsCut(pieces: seq<Bytes>, data: Bytes, max: nat)
    requires max >= 1 && EvenlyCut(pieces, max) && JoinBy(Itself, pieces) == data
    ensures pieces == Cut(data, max)
  {
    if pieces != [] {
      var rest := pieces[1..];
      assert pieces == [pieces[0]] + rest;
      JoinCons(pieces[0], rest);
      if rest == [] {
        assert data == pieces[0];
        assert data[|data|..] == [];
      } else {
        assert data[..max] == pieces[0] && data[max..] == JoinBy(Itself, rest);
      }
      EvenlyCutIsCut(rest, JoinBy(Itself, rest), max);
    }
  }

  /** The first j pieces hold the first j * max bytes. */
  lemma {:induction false} CutPrefix(data: Bytes, max: nat, j: nat)
    requires max >= 1 && j <= |Cut(data, max)|
    ensures JoinBy(Itself, Cut(data, max)[..j]) == data[..Min(j * max, |data|)]
  {
    CutPrefixUpTo(data, max, j, j * max);
  }

  /** The same with the product named, which keeps the multiplication out of the induction. */
  lemma {:induction false} CutPrefixUpTo(data: Bytes, max: nat, j: nat, end: nat)
    requires max >= 1 && j <= |Cut(data, max)| && end == j * max
    ensures JoinBy(Itself, Cut(data, max)[..j]) == data[..Min(end, |data|)]
  {
    if j > 0 {
      var size := Min(max, |data|);
      var rest := data[size..];
      assert end - max == (j - 1) * max;
      CutPrefixUpTo(rest, max, j - 1, end - max);
      assert Cut(data, max)[..j] == [data[..size]] + Cut(rest, max)[..j - 1];
      JoinCons(data[..size], Cut(rest, max)[..j - 1]);
      PrefixOfSplit(data, size, end - max);
      if size < max {
        assert rest == [] && j == 1;
      }
    }
  }

  lemma {:induction false} PrefixOfSplit(data: Bytes, size: nat, more: nat)
    requires size <= |data|
    ensures data[..size] + data[size..][..Min(more, |data| - size)] == data[..Min(size + more, |data|)]
  {
  }

  /** The loop's state: what was cut off so far, and `Cut` of the rest. */
  ghost predicate CutSoFar(data: Bytes, max: nat, offset: nat, pieces: seq<Bytes>)
    requires max >= 1
  {
    && offset <= |data|
    && pieces + Cut(data[offset..], max) == Cut(data, max)
    && (offset == 0 <==> pieces == [])
  }

  lemma {:induction false} CutStarts(data: Bytes, max: nat)
    requires max >= 1
    ensures CutSoFar(data, max, 0, [])
  {
    assert data[0..] == data;
    assert [] + Cut(data, max) == Cut(data, max);
  }

  /** One turn of the loop. */
  lemma {:induction false} CutStep(data: Bytes, max: nat, offset: nat, size: nat, pieces: seq<Bytes>)
    requires max >= 1 && CutSoFar(data, max, offset, pieces) && offset < |data| && size == Min(max, |data| - offset)
    ensures && size >= 1
            && |pieces| < |Cut(data, max)| && Cut(data, max)[|pieces|] == data[offset..offset + size]
            && CutSoFar(data, max, offset + size, pieces + [data[offset..offset + size]])
  {
    var rest := data[offset..];
    assert rest[..size] == data[offset..offset + size];
    assert rest[size..] == data[offset + size..];
    ConsMoves(pieces, rest[..size], Cut(rest[size..], max));
  }

  lemma {:induction false} ConsMoves<T>(a: seq<T>, x: T, b: seq<T>)
    ensures a + ([x] + b) == (a + [x]) + b
    ensures (a + ([x] + b))[|a|] == x
  {
  }

  lemma {:induction false} CutEnds(data: Bytes, max: nat, pieces: seq<Bytes>)
    requires max >= 1 && CutSoFar(data, max, |data|, pieces)
    ensures pieces == Cut(data, max)
  {
    assert data[|data|..] == [];
    assert pieces + [] == pieces;
  }
}
