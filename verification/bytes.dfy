// Byte sequences
module Bytes {
  type byte = b: int | 0 <= b < 256

  ghost predicate At(data: seq<byte>, at: int, bytes: seq<byte>) {
    0 <= at <= at + |bytes| <= |data| && data[at..at + |bytes|] == bytes
  }

  lemma AtParts(data: seq<byte>, at: int, x: seq<byte>, y: seq<byte>)
    requires At(data, at, x + y)
    ensures At(data, at, x) && At(data, at + |x|, y)
  {
    assert x == (x + y)[..|x|] && y == (x + y)[|x|..];
    assert data[at..at + |x|] == data[at..at + |x + y|][..|x|];
    assert data[at + |x|..at + |x| + |y|] == data[at..at + |x + y|][|x|..];
  }

  function Flatten(pieces: seq<seq<byte>>): seq<byte> {
    if pieces == [] then [] else pieces[0] + Flatten(pieces[1..])
  }

  // The pieces stand one after the other from `at` on.
  ghost predicate PiecesAt(data: seq<byte>, at: int, pieces: seq<seq<byte>>)
    decreases pieces
  {
    pieces == [] || (At(data, at, pieces[0]) && PiecesAt(data, at + |pieces[0]|, pieces[1..]))
  }

  lemma {:induction false} FlattenedAt(data: seq<byte>, at: int, pieces: seq<seq<byte>>)
    requires At(data, at, Flatten(pieces))
    ensures PiecesAt(data, at, pieces)
    decreases pieces
  {
    if pieces != [] {
      AtParts(data, at, pieces[0], Flatten(pieces[1..]));
      FlattenedAt(data, at + |pieces[0]|, pieces[1..]);
    }
  }

  lemma {:induction false} FlattenConcat(xs: seq<seq<byte>>, ys: seq<seq<byte>>)
    ensures Flatten(xs + ys) == Flatten(xs) + Flatten(ys)
    decreases xs
  {
    if xs == [] {
      assert xs + ys == ys;
    } else {
      assert (xs + ys)[1..] == xs[1..] + ys;
      FlattenConcat(xs[1..], ys);
    }
  }

  // memcpy
  method Copy(to: array<byte>, at: nat, bytes: seq<byte>)
    requires at + |bytes| <= to.Length
    modifies to
    ensures to[..] == old(to[..at]) + bytes + old(to[at + |bytes|..])
  {
    forall i | 0 <= i < |bytes| {
      to[at + i] := bytes[i];
    }
  }
}
