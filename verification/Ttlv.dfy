/**
The TTLV encoding of the KMIP Specification 1.4 (section 9.1.1): a 3-byte tag, a 1-byte type, a 4-byte
big-endian length, and a value padded to a multiple of eight bytes. One encoded element is a frame.
*/
module Ttlv {
  import opened Bytes

  const STRUCTURE: byte := 1

  /** The least multiple of eight that is at least `n`. */
  function RoundUp8(n: nat): (m: nat)
    ensures m % 8 == 0 && n <= m < n + 8
  {
    if n % 8 == 0 then n else n + 8 - n % 8
  }

  function TagOf(b: seq<byte>): nat
    requires |b| >= 3
  {
    b[0] as int * 0x1_0000 + b[1] as int * 0x100 + b[2] as int
  }

  /** A tag, too, is read with its most significant byte first, and fits three bytes. */
  lemma TagOrder(a: seq<byte>, b: seq<byte>, i: nat)
    requires |a| >= 3 && |b| >= 3 && i < 3 && a[..i] == b[..i] && a[i] < b[i]
    ensures TagOf(a) < TagOf(b) < 0x100_0000
  {
    assert forall j | 0 <= j < i :: a[j] == a[..i][j] == b[..i][j] == b[j];
  }

  /** How many bytes the element that starts at `b` takes, padding included. */
  function FrameLen(b: seq<byte>): (n: nat)
    requires |b| >= 8
    ensures n >= 8 && n % 8 == 0
  {
    EightMore(RoundUp8(U32(b[4..8])));
    8 + RoundUp8(U32(b[4..8]))
  }

  lemma EightMore(n: nat)
    ensures (8 + n) % 8 == n % 8
  {
  }

  predicate IsFrame(f: seq<byte>) { |f| >= 8 && |f| == FrameLen(f) }

  predicate AllFrames(fs: seq<seq<byte>>) { forall i | 0 <= i < |fs| :: IsFrame(fs[i]) }

  /** A byte string is a sequence of elements when it is the concatenation of frames. */
  predicate Splits(val: seq<byte>, fs: seq<seq<byte>>) { AllFrames(fs) && Concat(fs) == val }

  lemma OneFrame(f: seq<byte>)
    requires IsFrame(f)
    ensures Splits(f, [f])
  {
    assert Concat([f]) == f;
  }

  lemma FrameLenPrefix(f: seq<byte>, rest: seq<byte>)
    requires |f| >= 8
    ensures FrameLen(f + rest) == FrameLen(f)
  {
    assert (f + rest)[4..8] == f[4..8];
  }

  lemma {:induction false} SplitsAligned(fs: seq<seq<byte>>)
    requires AllFrames(fs)
    ensures |Concat(fs)| % 8 == 0
    ensures |Concat(fs)| >= 8 * |fs|
  {
    if fs != [] {
      SplitsAligned(fs[1..]);
      SumAligned(fs[0], Concat(fs[1..]));
    }
  }

  lemma SumAligned(f: seq<byte>, rest: seq<byte>)
    requires IsFrame(f) && |rest| % 8 == 0
    ensures |f + rest| % 8 == 0 && |f + rest| >= 8 + |rest|
  {
  }

  /**
  Two readings of the same bytes as frames never disagree: one is a prefix of the other, and what one
  leaves unread is what the other goes on to read.
  */
  lemma {:induction false} ReadingsAgree(fs: seq<seq<byte>>, x: seq<byte>, gs: seq<seq<byte>>, y: seq<byte>)
    requires AllFrames(fs) && AllFrames(gs)
    requires |fs| <= |gs|
    requires Concat(fs) + x == Concat(gs) + y
    ensures fs == gs[..|fs|]
    ensures x == Concat(gs[|fs|..]) + y
  {
    if fs == [] {
      assert Concat(fs) + x == x;
      assert gs[|fs|..] == gs;
    } else {
      var f, g := fs[0], gs[0];
      var restF, restG := Concat(fs[1..]) + x, Concat(gs[1..]) + y;
      Assoc(f, Concat(fs[1..]), x);
      Assoc(g, Concat(gs[1..]), y);
      FrameLenPrefix(f, restF);
      FrameLenPrefix(g, restG);
      CancelFront(f, restF, g, restG);
      ReadingsAgree(fs[1..], x, gs[1..], y);
      assert gs[1..][|fs| - 1..] == gs[|fs|..];
    }
  }

  /** The first element of a byte string that starts with a frame is that frame. */
  lemma FrontFrame(f: seq<byte>, others: seq<byte>, rest: seq<byte>)
    requires IsFrame(f) && rest == f + others
    ensures |rest| >= 8 && FrameLen(rest) == |f| <= |rest|
    ensures TagOf(rest) == TagOf(f) && rest[3] == f[3]
    ensures rest[..|f|] == f && rest[|f|..] == others
  {
    FrameLenPrefix(f, others);
  }

  /** What a shorter reading leaves unread starts with the next frame of the longer one. */
  lemma NextFrame(fs: seq<seq<byte>>, x: seq<byte>, gs: seq<seq<byte>>, y: seq<byte>)
    requires AllFrames(fs) && AllFrames(gs)
    requires |fs| < |gs|
    requires Concat(fs) + x == Concat(gs) + y
    ensures fs == gs[..|fs|]
    ensures x == gs[|fs|] + (Concat(gs[|fs| + 1..]) + y)
  {
    ReadingsAgree(fs, x, gs, y);
    ConcatFirst(gs, |fs|);
    Assoc(gs[|fs|], Concat(gs[|fs| + 1..]), y);
  }

  /** An element whose value is already aligned takes no padding. */
  lemma AlignedIsFrame(head: seq<byte>, value: seq<byte>)
    requires |head| == 4 && |value| % 8 == 0 && |value| < U32_RANGE
    ensures IsFrame(Framed(head, value))
  {
  }

  /** The element that opens a long enough byte string is a frame. */
  lemma FirstElement(b: seq<byte>)
    requires |b| >= 8 && FrameLen(b) <= |b|
    ensures var f := b[..FrameLen(b)]; IsFrame(f) && TagOf(f) == TagOf(b) && f[3] == b[3] && b == f + b[|f|..]
  {
    assert b[..FrameLen(b)][4..8] == b[4..8];
  }

  /** One step of a walk: the element at `off` joins the frames already passed. */
  lemma WalkStep(val: seq<byte>, off: nat, passed: seq<seq<byte>>)
    requires off + 8 <= |val| && off + FrameLen(val[off..]) <= |val|
    requires AllFrames(passed) && Concat(passed) == val[..off]
    ensures var f := val[off..off + FrameLen(val[off..])];
            && IsFrame(f) && TagOf(f) == TagOf(val[off..]) && f[3] == val[off + 3]
            && AllFrames(passed + [f]) && Concat(passed + [f]) == val[..off + |f|]
            && val == Concat(passed) + (f + val[off + |f|..])
  {
    var f := ElementAt(val, off);
    FramesSnoc(passed, f);
    ConcatSnoc(passed, f);
  }

  lemma ElementAt(val: seq<byte>, off: nat) returns (f: seq<byte>)
    requires off + 8 <= |val| && off + FrameLen(val[off..]) <= |val|
    ensures f == val[off..off + FrameLen(val[off..])] && |f| == FrameLen(val[off..])
    ensures IsFrame(f) && TagOf(f) == TagOf(val[off..]) && f[3] == val[off + 3]
    ensures val[..off] + f == val[..off + |f|] && val == val[..off] + (f + val[off + |f|..])
  {
    var rest, fl := val[off..], FrameLen(val[off..]);
    CutTwice(val, off, fl);
    FirstElement(rest);
    f := val[off..off + fl];
    assert f == rest[..fl] && rest[3] == val[off + 3];
  }

  lemma FramesSnoc(fs: seq<seq<byte>>, f: seq<byte>)
    requires AllFrames(fs) && IsFrame(f)
    ensures AllFrames(fs + [f])
  {
  }

  /** A byte string is a concatenation of frames in at most one way. */
  lemma UniqueSplit(val: seq<byte>, fs: seq<seq<byte>>, gs: seq<seq<byte>>)
    requires Splits(val, fs) && Splits(val, gs)
    ensures fs == gs
  {
    var few, many := if |fs| <= |gs| then fs else gs, if |fs| <= |gs| then gs else fs;
    assert Concat(few) + [] == Concat(many) + [];
    ReadingsAgree(few, [], many, []);
    assert AllFrames(many[|few|..]);
    SplitsAligned(many[|few|..]);
    assert many == many[..|few|];
  }

  /** A walk goes no further: there is no room for a header, or the element overruns what is there. */
  predicate Stops(b: seq<byte>) { |b| < 8 || FrameLen(b) > |b| }

  /**
  Every byte string is, in one way only, a sequence of frames followed by a rest at which the walk stops: nothing, or
  an element that overruns the string. It is all frames exactly when nothing is left.
  */
  lemma {:induction false} WalkDecomposes(val: seq<byte>) returns (fs: seq<seq<byte>>, rest: seq<byte>)
    ensures AllFrames(fs) && val == Concat(fs) + rest
    ensures Stops(rest)
    ensures rest == [] <==> exists gs :: Splits(val, gs)
    ensures forall gs, y :: AllFrames(gs) && val == Concat(gs) + y && Stops(y) ==> gs == fs && y == rest
    decreases |val|
  {
    fs, rest := Walk(val);
    forall gs, y | AllFrames(gs) && val == Concat(gs) + y && Stops(y)
      ensures gs == fs && y == rest
    {
      WalksAgree(fs, rest, gs, y);
    }
    NothingLeft(val, fs, rest);
  }

  lemma NothingLeft(val: seq<byte>, fs: seq<seq<byte>>, rest: seq<byte>)
    requires AllFrames(fs) && val == Concat(fs) + rest && Stops(rest)
    ensures rest == [] <==> exists gs :: Splits(val, gs)
  {
    if rest == [] {
      assert Splits(val, fs);
    }
    if gs :| Splits(val, gs) {
      assert val == Concat(gs) + [];
      WalksAgree(fs, rest, gs, []);
    }
  }

  lemma {:induction false} Walk(val: seq<byte>) returns (fs: seq<seq<byte>>, rest: seq<byte>)
    ensures AllFrames(fs) && val == Concat(fs) + rest
    ensures Stops(rest)
    decreases |val|
  {
    if Stops(val) {
      fs, rest := [], val;
      assert Concat([]) + val == val;
    } else {
      var f := val[..FrameLen(val)];
      FirstElement(val);
      var gs, y := Walk(val[|f|..]);
      fs, rest := [f] + gs, y;
      assert fs[1..] == gs;
      Assoc(f, Concat(gs), y);
    }
  }

  lemma WalksAgree(fs: seq<seq<byte>>, x: seq<byte>, gs: seq<seq<byte>>, y: seq<byte>)
    requires AllFrames(fs) && AllFrames(gs) && Stops(x) && Stops(y)
    requires Concat(fs) + x == Concat(gs) + y
    ensures fs == gs && x == y
  {
    if |fs| <= |gs| {
      WalkStopsOnce(fs, x, gs, y);
    } else {
      WalkStopsOnce(gs, y, fs, x);
    }
  }

  lemma WalkStopsOnce(fs: seq<seq<byte>>, x: seq<byte>, gs: seq<seq<byte>>, y: seq<byte>)
    requires AllFrames(fs) && AllFrames(gs) && |fs| <= |gs|
    requires Concat(fs) + x == Concat(gs) + y
    requires Stops(x)
    ensures fs == gs && x == y
  {
    if |fs| < |gs| {
      NextFrame(fs, x, gs, y);
      FrontFrame(gs[|fs|], Concat(gs[|fs| + 1..]) + y, x);
      assert false;
    }
    ReadingsAgree(fs, x, gs, y);
    assert gs[|fs|..] == [] && gs[..|fs|] == gs;
  }

  /** A message tree: leaves carry a value of some non-structure type, structures carry a list of elements. */
  datatype Item =
    | Leaf(tag: nat, kind: byte, value: seq<byte>)
    | Structure(tag: nat, items: seq<Item>)

  function TagBytes(tag: nat): (b: seq<byte>)
    ensures |b| == 3
    ensures tag < 0x100_0000 ==> TagOf(b) == tag
  {
    var (upper, b2) := (tag / 0x100, tag % 0x100);
    [(upper / 0x100 % 0x100) as byte, (upper % 0x100) as byte, b2 as byte]
  }

  /** A tag and type, the length of the value, the value. */
  ghost function Framed(head: seq<byte>, value: seq<byte>): (f: seq<byte>)
    requires |head| == 4
    ensures |f| == 8 + |value|
    ensures f[..4] == head && f[8..] == value
    ensures |value| < U32_RANGE ==> U32(f[4..8]) == |value|
  {
    assert (head + U32Bytes(|value|) + value)[4..8] == U32Bytes(|value|);
    head + U32Bytes(|value|) + value
  }

  /** A byte string is its head, its length field and its value. */
  lemma FramedParts(f: seq<byte>)
    requires |f| >= 8 && |f| == 8 + U32(f[4..8])
    ensures f == Framed(f[..4], f[8..])
  {
    var g := Framed(f[..4], f[8..]);
    U32Injective(g[4..8], f[4..8]);
    assert g == g[..4] + g[4..8] + g[8..];
    assert f == f[..4] + f[4..8] + f[8..];
  }

  ghost function Padding(n: nat): seq<byte> { seq(RoundUp8(n) - n, _ => 0) }

  ghost function Encode(t: Item): seq<byte>
    decreases t, 0
  {
    match t
    case Leaf(tag, kind, value) => Framed(TagBytes(tag) + [kind], value) + Padding(|value|)
    case Structure(tag, items) => Framed(TagBytes(tag) + [STRUCTURE], Concat(Encodings(items)))
  }

  ghost function Encodings(ts: seq<Item>): (fs: seq<seq<byte>>)
    ensures |fs| == |ts|
    decreases ts, 1
  {
    if ts == [] then [] else [Encode(ts[0])] + Encodings(ts[1..])
  }

  /** Trees whose tags fit 3 bytes and whose lengths fit 4. */
  ghost predicate WellFormed(t: Item)
    decreases t, 0
  {
    && t.tag < 0x100_0000
    && match t
       case Leaf(_, kind, value) => kind != STRUCTURE && |value| < U32_RANGE
       case Structure(_, items) => AllWellFormed(items) && |Concat(Encodings(items))| < U32_RANGE
  }

  ghost predicate AllWellFormed(ts: seq<Item>)
    decreases ts, 1
  {
    ts == [] || (WellFormed(ts[0]) && AllWellFormed(ts[1..]))
  }

  /** What the first eight bytes of an encoded element say. */
  lemma {:induction false} EncodeIsFrame(t: Item)
    requires WellFormed(t)
    ensures IsFrame(Encode(t))
    ensures TagOf(Encode(t)) == t.tag
    ensures Encode(t)[3] == if t.Structure? then STRUCTURE else t.kind
    decreases t, 0
  {
    match t {
      case Leaf(tag, kind, value) =>
        var head := TagBytes(tag) + [kind];
        FrameLenPrefix(Framed(head, value), Padding(|value|));
        HeadOf(head, tag, kind, Framed(head, value) + Padding(|value|));
      case Structure(tag, items) =>
        var head := TagBytes(tag) + [STRUCTURE];
        EncodingsAreFrames(items);
        SplitsAligned(Encodings(items));
        HeadOf(head, tag, STRUCTURE, Encode(t));
    }
  }

  lemma HeadOf(head: seq<byte>, tag: nat, kind: byte, f: seq<byte>)
    requires head == TagBytes(tag) + [kind] && tag < 0x100_0000
    requires |f| >= 4 && f[..4] == head
    ensures TagOf(f) == tag && f[3] == kind
  {
    assert f[0] == head[0] && f[1] == head[1] && f[2] == head[2] && f[3] == head[3];
  }

  lemma {:induction false} EncodingsAreFrames(ts: seq<Item>)
    requires AllWellFormed(ts)
    ensures AllFrames(Encodings(ts))
    decreases ts, 1
  {
    if ts != [] {
      EncodeIsFrame(ts[0]);
      EncodingsAreFrames(ts[1..]);
    }
  }

  /**
  No encoding is a prefix of another, so a byte string starts with the encoding of at most one tree: the
  encoding loses nothing.
  */
  lemma {:induction false} EncodePrefixFree(a: Item, b: Item, x: seq<byte>, y: seq<byte>)
    requires WellFormed(a) && WellFormed(b)
    requires Encode(a) + x == Encode(b) + y
    ensures a == b && x == y
    decreases a, 0
  {
    var e, f := Encode(a), Encode(b);
    EncodeIsFrame(a);
    EncodeIsFrame(b);
    FrameLenPrefix(e, x);
    FrameLenPrefix(f, y);
    assert e == (e + x)[..|e|] == (f + y)[..|f|] == f;
    assert x == (e + x)[|e|..] == (f + y)[|f|..] == y;
    match (a, b) {
      case (Leaf(_, k, v), Leaf(_, l, w)) =>
        SameValue(Framed(TagBytes(a.tag) + [k], v), Padding(|v|), Framed(TagBytes(b.tag) + [l], w), Padding(|w|));
      case (Structure(_, ts), Structure(_, us)) =>
        var c := Concat(Encodings(ts));
        assert c == e[8..] == f[8..] == Concat(Encodings(us));
        EncodingsAreFrames(ts);
        EncodingsAreFrames(us);
        UniqueSplit(c, Encodings(ts), Encodings(us));
        EncodingsInjective(ts, us);
      case _ =>
    }
  }

  lemma SameValue(f: seq<byte>, x: seq<byte>, g: seq<byte>, y: seq<byte>)
    requires |f| >= 8 && |g| >= 8 && |f| == 8 + U32(f[4..8]) && |g| == 8 + U32(g[4..8])
    requires f + x == g + y
    ensures f[8..] == g[8..]
  {
    assert f[4..8] == (f + x)[4..8] == (g + y)[4..8] == g[4..8];
    assert f == (f + x)[..|f|] == (g + y)[..|g|] == g;
  }

  lemma {:induction false} EncodingsInjective(ts: seq<Item>, us: seq<Item>)
    requires AllWellFormed(ts) && AllWellFormed(us)
    requires Encodings(ts) == Encodings(us)
    ensures ts == us
    decreases ts, 1
  {
    if ts != [] {
      assert Encode(ts[0]) == Encodings(ts)[0] == Encodings(us)[0] == Encode(us[0]);
      EncodePrefixFree(ts[0], us[0], [], []);
      assert Encodings(ts[1..]) == Encodings(ts)[1..] == Encodings(us)[1..] == Encodings(us[1..]);
      EncodingsInjective(ts[1..], us[1..]);
      assert ts == [ts[0]] + ts[1..] && us == [us[0]] + us[1..];
    }
  }
}
