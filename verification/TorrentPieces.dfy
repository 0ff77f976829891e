/** src/torrent_helper.c: hashing a stream piece by piece. */
module TorrentPieces {
  import opened Sequences

  type Digest = seq<byte>

  /** The chunks of `size` bytes a stream falls into; only the last may be shorter. */
  ghost function Pieces(s: seq<byte>, size: nat): (p: seq<seq<byte>>)
    requires 0 < size
    decreases |s|
  {
    if s == [] then [] else if |s| <= size then [s] else [s[..size]] + Pieces(s[size..], size)
  }

  ghost function Concat(p: seq<seq<byte>>): seq<byte> {
    if p == [] then [] else p[0] + Concat(p[1..])
  }

  /** Nothing is lost, no piece is empty, and all but the last are full. */
  lemma {:induction false} PiecesAre(s: seq<byte>, size: nat)
    requires 0 < size
    ensures Concat(Pieces(s, size)) == s
    ensures forall i :: 0 <= i < |Pieces(s, size)| ==> 0 < |Pieces(s, size)[i]| <= size
    ensures forall i :: 0 <= i < |Pieces(s, size)| - 1 ==> |Pieces(s, size)[i]| == size
    decreases |s|
  {
    if s == [] {
    } else if |s| <= size {
      assert Pieces(s, size)[1..] == [];
    } else {
      PiecesAre(s[size..], size);
      assert Pieces(s, size)[1..] == Pieces(s[size..], size);
    }
  }

  ghost predicate Full(p: seq<seq<byte>>, size: nat) {
    forall i :: 0 <= i < |p| ==> |p[i]| == size
  }

  /** Full pieces and a rest that is not empty are the pieces of what they make together. */
  lemma {:induction false} FullPieces(p: seq<seq<byte>>, rest: seq<byte>, size: nat)
    requires 0 < size && Full(p, size) && |rest| <= size && (rest == [] ==> p == [])
    ensures Pieces(Concat(p) + rest, size) == p + (if rest == [] then [] else [rest])
  {
    var s := Concat(p) + rest;
    if p == [] {
      assert s == rest;
    } else {
      FullPieces(p[1..], rest, size);
      assert |p[0]| == size;
      assert s[..size] == p[0];
      assert s[size..] == Concat(p[1..]) + rest;
      assert p == [p[0]] + p[1..];
    }
  }

  lemma {:induction false} ConcatSnoc(p: seq<seq<byte>>, x: seq<byte>)
    ensures Concat(p + [x]) == Concat(p) + x
  {
    if p != [] {
      assert (p + [x])[1..] == p[1..] + [x];
      ConcatSnoc(p[1..], x);
    } else {
      assert ([x])[1..] == [];
    }
  }

  ghost function Hashes(hash: seq<byte> -> Digest, p: seq<seq<byte>>): (h: seq<Digest>)
    ensures |h| == |p| && forall i :: 0 <= i < |p| ==> h[i] == hash(p[i])
  {
    seq(|p|, i requires 0 <= i < |p| => hash(p[i]))
  }

  class Generator {
    const hash: seq<byte> -> Digest
    const pieceSize: nat
    /** What the hash context has been fed since it was started. */
    var context: seq<byte>
    var length: nat
    /** The lines written so far. */
    var lines: seq<Digest>
    ghost var done: seq<seq<byte>>
    ghost var fed: seq<byte>

    ghost predicate Valid()
      reads this
    {
      && 0 < pieceSize && length == |context| <= pieceSize && Full(done, pieceSize)
      && fed == Concat(done) + context && lines == Hashes(hash, done) && (context == [] ==> done == [])
    }

    /** `torrent_init` */
    constructor (hash: seq<byte> -> Digest, pieceSize: nat)
      requires 0 < pieceSize
      ensures Valid() && fed == [] && this.hash == hash && this.pieceSize == pieceSize
    {
      this.hash, this.pieceSize := hash, pieceSize;
      context, length, lines, done, fed := [], 0, [], [], [];
    }

    /** Writes the hash of a complete piece and starts the next one. */
    method FinishPiece()
      requires Valid() && length == pieceSize
      modifies this
      ensures 0 < pieceSize && context == [] && length == 0 && fed == old(fed) && Full(done, pieceSize)
      ensures fed == Concat(done) && lines == Hashes(hash, done)
    {
      ConcatSnoc(done, context);
      lines := lines + [hash(context)];
      done := done + [context];
      context, length := [], 0;
    }

    /** `torrent_update` */
    method Update(buffer: seq<byte>)
      requires Valid()
      modifies this
      ensures Valid() && fed == old(fed) + buffer
    {
      hide Full, Concat, Hashes;
      var offset := 0;
      while offset < |buffer|
        invariant 0 <= offset <= |buffer| && Valid() && fed == old(fed) + buffer[..offset]
        decreases |buffer| - offset
      {
        var room := pieceSize - length;
        if room <= 0 {
          FinishPiece();
          room := pieceSize;
        }
        if room > |buffer| - offset {
          Feed(buffer[offset..]);
          assert buffer[..offset] + buffer[offset..] == buffer;
          ConcatAssociative(old(fed), buffer[..offset], buffer[offset..]);
          return;
        }
        Feed(buffer[offset..offset + room]);
        assert buffer[..offset] + buffer[offset..offset + room] == buffer[..offset + room];
        ConcatAssociative(old(fed), buffer[..offset], buffer[offset..offset + room]);
        offset := offset + room;
      }
      assert buffer[..offset] == buffer;
    }

    /** Feeds bytes of the current piece to the hash. */
    method Feed(bytes: seq<byte>)
      requires 0 < pieceSize && length == |context| && length + |bytes| <= pieceSize && 0 < |bytes|
      requires Full(done, pieceSize)
      requires fed == Concat(done) + context && lines == Hashes(hash, done)
      modifies this`context, this`length, this`fed
      ensures Valid() && fed == old(fed) + bytes
    {
      ConcatAssociative(Concat(done), context, bytes);
      context := context + bytes;
      length := length + |bytes|;
      fed := fed + bytes;
    }

    /** `torrent_final`: the lines are the hashes of the pieces of everything fed. */
    method Final()
      requires Valid()
      modifies this`lines
      ensures lines == Hashes(hash, Pieces(fed, pieceSize))
    {
      FullPieces(done, context, pieceSize);
      if length != 0 {
        lines := lines + [hash(context)];
      }
    }
  }

  lemma ConcatAssociative(a: seq<byte>, b: seq<byte>, c: seq<byte>)
    ensures a + (b + c) == a + b + c
  {
  }

  /** However the stream is cut into updates, the lines depend on the stream alone. */
  method HashStream(hash: seq<byte> -> Digest, pieceSize: nat, updates: seq<seq<byte>>) returns (lines: seq<Digest>)
    requires 0 < pieceSize
    ensures lines == Hashes(hash, Pieces(Concat(updates), pieceSize))
  {
    var g := new Generator(hash, pieceSize);
    var i := 0;
    assert updates[..0] == [];
    while i < |updates|
      invariant 0 <= i <= |updates| && g.Valid() && g.fed == Concat(updates[..i]) && fresh(g)
      invariant g.hash == hash && g.pieceSize == pieceSize
    {
      ConcatSnoc(updates[..i], updates[i]);
      assert updates[..i + 1] == updates[..i] + [updates[i]];
      g.Update(updates[i]);
      i := i + 1;
    }
    assert updates[..i] == updates;
    g.Final();
    lines := g.lines;
  }
}
