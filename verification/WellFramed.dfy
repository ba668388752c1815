/**
Bytes that are well-formed elements at every depth: each structure's value is again a sequence of well-formed elements.
Up to the content of the padding these are the encodings of message trees.
*/
module WellFramed {
  import opened Bytes
  import opened Ttlv

  /** The value of an element, as long as its length field says. */
  function ValueOf(f: seq<byte>): (v: seq<byte>)
    requires |f| >= 8 && 8 + U32(f[4..8]) <= |f|
    ensures |v| == U32(f[4..8])
  {
    f[8..8 + U32(f[4..8])]
  }

  /** One element, well formed down to its leaves. */
  predicate Sound(f: seq<byte>)
    decreases |f|, 0
  {
    IsFrame(f) && (f[3] == STRUCTURE ==> AllSound(ValueOf(f)))
  }

  /** A sequence of such elements. */
  predicate AllSound(b: seq<byte>)
    decreases |b|, 1
  {
    b == [] || (|b| >= 8 && FrameLen(b) <= |b| && Sound(b[..FrameLen(b)]) && AllSound(b[FrameLen(b)..]))
  }

  predicate EachSound(fs: seq<seq<byte>>) { forall i | 0 <= i < |fs| :: Sound(fs[i]) }

  lemma SoundFirst(f: seq<byte>, rest: seq<byte>)
    requires IsFrame(f)
    ensures AllSound(f + rest) <==> Sound(f) && AllSound(rest)
  {
    FrontFrame(f, rest, f + rest);
  }

  /** Elements followed by anything are well formed exactly when each of them is and what follows is. */
  lemma {:induction false} SoundSplit(fs: seq<seq<byte>>, rest: seq<byte>)
    requires AllFrames(fs)
    ensures AllSound(Concat(fs) + rest) <==> EachSound(fs) && AllSound(rest)
  {
    if fs == [] {
      assert Concat(fs) + rest == rest;
    } else {
      var f, others, more := fs[0], fs[1..], Concat(fs[1..]);
      Assoc(f, more, rest);
      SoundFirst(f, more + rest);
      SoundSplit(others, rest);
      EachSoundCons(fs);
    }
  }

  lemma EachSoundCons(fs: seq<seq<byte>>)
    requires fs != []
    ensures EachSound(fs) <==> Sound(fs[0]) && EachSound(fs[1..])
  {
    assert forall i | 0 < i < |fs| :: fs[i] == fs[1..][i - 1];
  }

  /** A structure laid out from frames is well formed exactly when they are. */
  lemma SoundStructure(head: seq<byte>, kids: seq<seq<byte>>)
    requires |head| == 4 && head[3] == STRUCTURE && AllFrames(kids) && |Concat(kids)| < U32_RANGE
    ensures IsFrame(Framed(head, Concat(kids)))
    ensures Sound(Framed(head, Concat(kids))) <==> EachSound(kids)
  {
    var f := Framed(head, Concat(kids));
    SplitsAligned(kids);
    AlignedIsFrame(head, Concat(kids));
    assert f[..4][3] == f[3] && ValueOf(f) == Concat(kids) == Concat(kids) + [];
    SoundSplit(kids, []);
  }

  // ---- Trees ----

  /** The tree that an element reads as. */
  function Decode(f: seq<byte>): (t: Item)
    requires Sound(f)
    decreases |f|, 0
  {
    if f[3] == STRUCTURE then Structure(TagOf(f), DecodeAll(ValueOf(f))) else Leaf(TagOf(f), f[3], ValueOf(f))
  }

  function DecodeAll(b: seq<byte>): seq<Item>
    requires AllSound(b)
    decreases |b|, 1
  {
    if b == [] then [] else [Decode(b[..FrameLen(b)])] + DecodeAll(b[FrameLen(b)..])
  }

  /** Every encoded tree is well formed, and reads as itself: the encoding loses nothing. */
  lemma {:induction false} DecodeEncode(t: Item)
    requires WellFormed(t)
    ensures Sound(Encode(t)) && Decode(Encode(t)) == t && ZeroPadded(Encode(t))
    decreases t, 0
  {
    var f := Encode(t);
    EncodeIsFrame(t);
    match t {
      case Leaf(tag, kind, value) =>
        var g := Framed(TagBytes(tag) + [kind], value);
        assert f[4..8] == g[4..8] && f[8..8 + |value|] == g[8..];
      case Structure(tag, items) =>
        DecodeEncodings(items);
        assert ValueOf(f) == f[8..] == Concat(Encodings(items));
    }
  }

  lemma {:induction false} DecodeEncodings(ts: seq<Item>)
    requires AllWellFormed(ts)
    ensures AllSound(Concat(Encodings(ts))) && DecodeAll(Concat(Encodings(ts))) == ts
    ensures AllZeroPadded(Concat(Encodings(ts)))
    decreases ts, 1
  {
    if ts != [] {
      var f, rest := Encode(ts[0]), Concat(Encodings(ts[1..]));
      assert Concat(Encodings(ts)) == f + rest;
      EncodeIsFrame(ts[0]);
      DecodeEncode(ts[0]);
      DecodeEncodings(ts[1..]);
      FrontFrame(f, rest, f + rest);
    }
  }

  /** All padding is zero, at every depth. */
  predicate ZeroPadded(f: seq<byte>)
    requires Sound(f)
    decreases |f|, 0
  {
    if f[3] == STRUCTURE then AllZeroPadded(ValueOf(f)) else forall i | 8 + U32(f[4..8]) <= i < |f| :: f[i] == 0
  }

  predicate AllZeroPadded(b: seq<byte>)
    requires AllSound(b)
    decreases |b|, 1
  {
    b == [] || (ZeroPadded(b[..FrameLen(b)]) && AllZeroPadded(b[FrameLen(b)..]))
  }

  /** Three bytes and the tag they stand for determine each other. */
  lemma TagFits(f: seq<byte>)
    requires |f| >= 3
    ensures TagOf(f) < 0x100_0000 && TagBytes(TagOf(f)) == f[..3]
  {
    var (a, b, c) := (f[0] as int, f[1] as int, f[2] as int);
    var tag := TagOf(f);
    assert tag == (a * 0x100 + b) * 0x100 + c;
    assert tag / 0x100 == a * 0x100 + b && tag % 0x100 == c;
    assert tag / 0x100 / 0x100 == a && tag / 0x100 % 0x100 == b;
  }

  /** An element without its padding, put together from its tag, its type and its value. */
  lemma FromParts(f: seq<byte>, n: nat)
    requires |f| >= 8 && n == U32(f[4..8]) && 8 + n <= |f|
    ensures f == Framed(TagBytes(TagOf(f)) + [f[3]], ValueOf(f)) + f[8 + n..]
  {
    var m := f[..8 + n];
    assert m[4..8] == f[4..8] && m[8..] == ValueOf(f) && m[..4] == f[..4];
    FramedParts(m);
    TagFits(f);
    assert TagBytes(TagOf(f)) + [f[3]] == f[..4];
  }

  /**
  Every well-formed element reads as a well-formed tree, whose encoding has the same size; and it is that encoding, if
  its padding is zero.
  */
  lemma {:induction false} EncodeDecode(f: seq<byte>)
    requires Sound(f)
    ensures WellFormed(Decode(f)) && |Encode(Decode(f))| == |f|
    ensures ZeroPadded(f) ==> Encode(Decode(f)) == f
    decreases |f|, 0
  {
    var n := U32(f[4..8]);
    FromParts(f, n);
    TagFits(f);
    if f[3] == STRUCTURE {
      var items := DecodeAll(ValueOf(f));
      EncodeDecodeAll(ValueOf(f));
      EncodingsAreFrames(items);
      SplitsAligned(Encodings(items));
      assert f[8 + n..] == [];
    } else if ZeroPadded(f) {
      assert f[8 + n..] == Padding(n);
    }
  }

  lemma {:induction false} EncodeDecodeAll(b: seq<byte>)
    requires AllSound(b)
    ensures AllWellFormed(DecodeAll(b)) && |Concat(Encodings(DecodeAll(b)))| == |b|
    ensures AllZeroPadded(b) ==> Concat(Encodings(DecodeAll(b))) == b
    decreases |b|, 1
  {
    if b != [] {
      var f, rest := b[..FrameLen(b)], b[FrameLen(b)..];
      EncodeDecode(f);
      EncodeDecodeAll(rest);
      EncodingsCons(Decode(f), DecodeAll(rest));
      CutTwice(b, |f|, 0);
    }
  }

  lemma EncodingsCons(t: Item, ts: seq<Item>)
    ensures Concat(Encodings([t] + ts)) == Encode(t) + Concat(Encodings(ts))
    ensures AllWellFormed([t] + ts) <==> WellFormed(t) && AllWellFormed(ts)
  {
    assert ([t] + ts)[1..] == ts;
    assert Encodings([t] + ts) == [Encode(t)] + Encodings(ts);
    assert ([Encode(t)] + Encodings(ts))[1..] == Encodings(ts);
  }
}
