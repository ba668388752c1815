/**
The response-header strip of the KMIP front-end (internal/kmip/server.go): the Client and Server
CorrelationValue children of the first ResponseHeader are cut out of an encoded response and the two
enclosing length fields are patched in place.

`Stripped` says what the strip is for without walking anything: if the input can be laid out as a message
holding a header that holds correlation children, lay it out again without those children; otherwise leave it.
*/
module StripCorrelation {
  import opened Bytes
  import opened Ttlv

  const RESPONSE_HEADER: nat := 0x42007A
  const CLIENT_CORRELATION: nat := 0x420105
  const SERVER_CORRELATION: nat := 0x420106

  predicate IsCorrelationTag(tag: nat) { tag == CLIENT_CORRELATION || tag == SERVER_CORRELATION }

  /** An element that opens as a ResponseHeader structure. */
  predicate IsHeader(f: seq<byte>)
    requires |f| >= 4
  {
    TagOf(f) == RESPONSE_HEADER && f[3] == STRUCTURE
  }

  predicate IsCorrelation(f: seq<byte>)
    requires |f| >= 3
  {
    IsCorrelationTag(TagOf(f))
  }

  predicate NoHeader(fs: seq<seq<byte>>)
    requires AllFrames(fs)
  {
    forall i | 0 <= i < |fs| :: !IsHeader(fs[i])
  }

  predicate HasCorrelation(fs: seq<seq<byte>>)
    requires AllFrames(fs)
  {
    exists i | 0 <= i < |fs| :: IsCorrelation(fs[i])
  }

  /** The frames other than the correlation values, in order. */
  function Keep(fs: seq<seq<byte>>): seq<seq<byte>>
    requires AllFrames(fs)
  {
    if fs == [] then [] else (if IsCorrelation(fs[0]) then [] else [fs[0]]) + Keep(fs[1..])
  }

  lemma {:induction false} KeepProperties(fs: seq<seq<byte>>)
    requires AllFrames(fs)
    ensures AllFrames(Keep(fs)) && !HasCorrelation(Keep(fs))
    ensures HasCorrelation(fs) ==> |Concat(Keep(fs))| < |Concat(fs)|
    ensures !HasCorrelation(fs) ==> Keep(fs) == fs
    ensures |Concat(Keep(fs))| <= |Concat(fs)|
  {
    if fs != [] {
      var f, rest := fs[0], fs[1..];
      KeepProperties(rest);
      assert fs == [f] + rest;
      if IsCorrelation(f) {
        assert Keep(fs) == Keep(rest);
        assert |Concat(fs)| == |f| + |Concat(rest)|;
      } else {
        assert HasCorrelation(rest) ==> HasCorrelation(fs);
        assert forall i | 0 < i < |fs| :: fs[i] == rest[i - 1];
        assert Concat(Keep(fs)) == f + Concat(Keep(rest));
      }
    }
  }

  lemma {:induction false} KeepSnoc(fs: seq<seq<byte>>, f: seq<byte>)
    requires AllFrames(fs) && IsFrame(f)
    ensures AllFrames(fs + [f])
    ensures Keep(fs + [f]) == if IsCorrelation(f) then Keep(fs) else Keep(fs) + [f]
  {
    FramesSnoc(fs, f);
    if fs == [] {
      assert fs + [f] == [f];
      assert Keep([f][1..]) == [];
    } else {
      var first := if IsCorrelation(fs[0]) then [] else [fs[0]];
      var kept := Keep(fs[1..]);
      assert (fs + [f])[1..] == fs[1..] + [f];
      KeepSnoc(fs[1..], f);
      assert first + (kept + [f]) == first + kept + [f];
    }
  }

  /** One way to lay a byte string out as a message with a response header in it. */
  datatype Layout = Layout(
    head: seq<byte>,         // the message's tag and type
    before: seq<seq<byte>>,  // the elements before the header
    headerHead: seq<byte>,   // the header's tag and type
    kids: seq<seq<byte>>,    // the header's children
    after: seq<byte>,        // the rest of the message value, of any form
    tail: seq<byte>)         // whatever follows the message
  {
    ghost predicate Valid() {
      && |head| == 4 && head[3] == STRUCTURE
      && AllFrames(before) && NoHeader(before)
      && |headerHead| == 4 && IsHeader(headerHead)
      && AllFrames(kids)
      && |Value()| < U32_RANGE
    }

    ghost function Header(): (h: seq<byte>)
      requires |headerHead| == 4
      ensures |h| == 8 + |Concat(kids)|
    {
      Framed(headerHead, Concat(kids))
    }

    /** The message value: its length is computed from its parts. */
    ghost function Value(): (v: seq<byte>)
      requires |headerHead| == 4
      ensures |v| == |Concat(before)| + 8 + |Concat(kids)| + |after|
    {
      Concat(before) + Header() + after
    }

    ghost function Bytes(): seq<byte>
      requires |head| == 4 && |headerHead| == 4
    {
      Framed(head, Value()) + tail
    }

    ghost function WithoutCorrelation(): Layout
      requires AllFrames(kids)
    {
      this.(kids := Keep(kids))
    }
  }

  ghost predicate Describes(p: Layout, input: seq<byte>) {
    p.Valid() && p.Bytes() == input
  }

  ghost predicate CanStrip(p: Layout, input: seq<byte>) {
    Describes(p, input) && HasCorrelation(p.kids)
  }

  /** What a response becomes. */
  ghost function Stripped(input: seq<byte>): seq<byte> {
    if p: Layout :| CanStrip(p, input) then p.WithoutCorrelation().Bytes() else input
  }

  /** What the fields of the input say about any layout of it. */
  lemma LayoutFields(p: Layout, input: seq<byte>)
    requires Describes(p, input)
    ensures |input| >= 8 && input[..4] == p.head && input[3] == STRUCTURE
    ensures U32(input[4..8]) == |p.Value()| && 8 + |p.Value()| <= |input|
    ensures input[8..8 + |p.Value()|] == p.Value()
    ensures input[8 + |p.Value()|..] == p.tail
  {
    var m := Framed(p.head, p.Value());
    assert input == m + p.tail;
    assert input[..4] == m[..4] && input[4..8] == m[4..8];
    assert input[..4][3] == input[3];
  }

  lemma HeadersAgree(f: seq<byte>, head: seq<byte>)
    requires |f| >= 4 && f[..4] == head
    ensures IsHeader(f) == IsHeader(head)
  {
    assert f[0] == head[0] && f[1] == head[1] && f[2] == head[2] && f[3] == head[3];
  }

  /** The header of a layout is itself a frame: it ends where its last child ends, so it carries no padding. */
  lemma HeaderIsFrame(p: Layout)
    requires p.Valid()
    ensures IsFrame(p.Header()) && IsHeader(p.Header())
    ensures AllFrames(p.before + [p.Header()])
    ensures Concat(p.before + [p.Header()]) + p.after == p.Value()
  {
    SplitsAligned(p.kids);
    var h := p.Header();
    AlignedIsFrame(p.headerHead, Concat(p.kids));
    HeadersAgree(h, p.headerHead);
    FramesSnoc(p.before, h);
    ConcatSnoc(p.before, h);
  }

  /**
  A walk that has passed some frames, none of them a header, is still inside the `before` part of every layout,
  and the next element it meets is the layout's header or one more element before it.
  */
  lemma WalkMeetsLayout(p: Layout, passed: seq<seq<byte>>, rest: seq<byte>)
    requires p.Valid() && AllFrames(passed) && NoHeader(passed)
    requires p.Value() == Concat(passed) + rest
    ensures |passed| <= |p.before| && passed == p.before[..|passed|]
    ensures |rest| >= 8 && FrameLen(rest) <= |rest|
    ensures IsHeader(rest) <==> |passed| == |p.before|
    ensures IsHeader(rest) ==> rest[..FrameLen(rest)] == p.Header() && rest[FrameLen(rest)..] == p.after
  {
    var k := |passed|;
    var f, others := WalkIsInside(p, passed, rest);
    UpToHeader(p, k);
    OpensWith(f, others, rest);
  }

  /** What such a walk has not passed starts with the layout's next element. */
  lemma WalkIsInside(p: Layout, passed: seq<seq<byte>>, rest: seq<byte>) returns (f: seq<byte>, others: seq<byte>)
    requires p.Valid() && AllFrames(passed) && NoHeader(passed)
    requires p.Value() == Concat(passed) + rest
    ensures |passed| <= |p.before| && IsFrame(f) && rest == f + others
    ensures var all := p.before + [p.Header()];
            passed == all[..|passed|] && f == all[|passed|] && others == Concat(all[|passed| + 1..]) + p.after
  {
    HeaderIsFrame(p);
    var all := p.before + [p.Header()];
    WalkStaysBefore(all, p.after, passed, rest);
    NextFrame(passed, rest, all, p.after);
    f, others := all[|passed|], Concat(all[|passed| + 1..]) + p.after;
  }

  lemma OpensWith(f: seq<byte>, others: seq<byte>, rest: seq<byte>)
    requires IsFrame(f) && rest == f + others
    ensures |rest| >= 8 && FrameLen(rest) == |f| <= |rest| && (IsHeader(rest) <==> IsHeader(f))
    ensures rest[..FrameLen(rest)] == f && rest[FrameLen(rest)..] == others
  {
    FrontFrame(f, others, rest);
  }

  /** The elements of a layout up to and with its header: only the last one is a header. */
  lemma UpToHeader(p: Layout, k: nat)
    requires p.Valid() && k <= |p.before|
    ensures var all := p.before + [p.Header()];
            && all[..k] == p.before[..k] && |all[k]| >= 4 && (IsHeader(all[k]) <==> k == |p.before|)
            && (k == |p.before| ==> all[k] == p.Header() && Concat(all[k + 1..]) + p.after == p.after)
  {
    HeaderIsFrame(p);
    var all := p.before + [p.Header()];
    if k == |p.before| {
      assert all[k + 1..] == [] && Concat([]) + p.after == p.after;
    } else {
      assert all[k] == p.before[k] && IsFrame(p.before[k]) && !IsHeader(p.before[k]);
    }
  }

  lemma WalkStaysBefore(all: seq<seq<byte>>, after: seq<byte>, passed: seq<seq<byte>>, rest: seq<byte>)
    requires AllFrames(all) && all != [] && IsHeader(all[|all| - 1])
    requires AllFrames(passed) && NoHeader(passed)
    requires Concat(all) + after == Concat(passed) + rest
    ensures |passed| < |all|
  {
    if |passed| >= |all| {
      ReadingsAgree(all, after, passed, rest);
      assert false;
    }
  }

  /** A byte string has at most one layout. */
  lemma LayoutUnique(p: Layout, q: Layout, input: seq<byte>)
    requires Describes(p, input) && Describes(q, input)
    ensures p == q
  {
    LayoutFields(p, input);
    LayoutFields(q, input);
    HeaderIsFrame(q);
    var rest := q.Header() + q.after;
    Assoc(Concat(q.before), q.Header(), q.after);
    FrontFrame(q.Header(), q.after, rest);
    WalkMeetsLayout(p, q.before, rest);
    assert p.before == q.before;
    HeaderDetermines(p, q);
  }

  lemma HeaderDetermines(p: Layout, q: Layout)
    requires |p.headerHead| == |q.headerHead| == 4 && AllFrames(p.kids) && AllFrames(q.kids)
    requires p.Header() == q.Header()
    ensures p.headerHead == q.headerHead && p.kids == q.kids
  {
    assert p.headerHead == p.Header()[..4] == q.headerHead;
    assert Concat(p.kids) == p.Header()[8..] == Concat(q.kids);
    UniqueSplit(Concat(p.kids), p.kids, q.kids);
  }

  /** The strip of an input that has a layout, with correlation values or without. */
  lemma StrippedLayout(p: Layout, input: seq<byte>)
    requires Describes(p, input)
    ensures Stripped(input) == p.WithoutCorrelation().Bytes()
    ensures p.WithoutCorrelation().Valid()
  {
    KeepProperties(p.kids);
    if HasCorrelation(p.kids) {
      assert CanStrip(p, input);
    }
    forall q: Layout | CanStrip(q, input)
      ensures q == p
    {
      LayoutUnique(p, q, input);
    }
  }

  method ElemFullLen(b: seq<byte>) returns (full: int)
    ensures full == if |b| < 8 then -1 else FrameLen(b)
  {
    if |b| < 8 {
      return -1;
    }
    full := 8 + U32(b[4..8]);
    EightMore(U32(b[4..8]));
    var r := full % 8;
    if r != 0 {
      full := full + (8 - r);
    }
  }

  /**
  Rebuilds one element without its correlation children. `removed` is positive exactly when the element's value
  is a sequence of frames with a correlation value among them; otherwise the element comes back as it was.
  */
  method StripHeaderCorrelation(rh: seq<byte>) returns (out: seq<byte>, removed: nat)
    requires |rh| >= 8
    ensures if removed == 0 then out == rh && NothingToStrip(rh) else Thins(rh, out, removed)
    ensures removed <= |rh|
  {
    var rhLen := U32(rh[4..8]);
    if 8 + rhLen > |rh| {
      NoRoom(rh);
      return rh, 0;
    }
    var val := rh[8..8 + rhLen];
    var newVal: seq<byte> := [];
    removed := 0;
    var off := 0;
    ghost var passed: seq<seq<byte>> := [];
    ThinnedNone(val);
    while off < |val|
      invariant Thinned(val, passed, off, newVal, removed)
      decreases |val| - off
    {
      var fl := ElemFullLen(val[off..]);
      if fl <= 0 || off + fl > |val| {
        BrokenHeader(rh, passed, off);
        return rh, 0;
      }
      var f := val[off..off + fl];
      ThinOn(val, passed, off, newVal, removed, f);
      var t := TagOf(val[off..]);
      if t == CLIENT_CORRELATION || t == SERVER_CORRELATION {
        removed := removed + fl;
      } else {
        newVal := newVal + f;
      }
      passed := passed + [f];
      off := off + fl;
    }
    ThinnedAll(rh, passed, newVal, removed);
    if removed == 0 {
      return rh, 0;
    }
    var head := rh[..4];
    out := AppendU32(head, rhLen - removed);
    out := out + newVal;
  }

  /** The children `passed` fill the header's value up to `off`; what is kept of them is `newVal`. */
  predicate Thinned(val: seq<byte>, passed: seq<seq<byte>>, off: nat, newVal: seq<byte>, removed: nat) {
    && off <= |val| && AllFrames(passed) && Concat(passed) == val[..off]
    && newVal == Concat(Keep(passed)) && removed == off - |newVal|
  }

  lemma ThinnedNone(val: seq<byte>)
    ensures Thinned(val, [], 0, [], 0)
  {
  }

  /** One step of the walk over a header's children. */
  lemma ThinOn(val: seq<byte>, passed: seq<seq<byte>>, off: nat, newVal: seq<byte>, removed: nat, f: seq<byte>)
    requires Thinned(val, passed, off, newVal, removed)
    requires off + 8 <= |val| && off + FrameLen(val[off..]) <= |val| && f == val[off..off + FrameLen(val[off..])]
    ensures if IsCorrelationTag(TagOf(val[off..])) then Thinned(val, passed + [f], off + |f|, newVal, removed + |f|)
            else Thinned(val, passed + [f], off + |f|, newVal + f, removed)
  {
    WalkStep(val, off, passed);
    KeepSnoc(passed, f);
    ConcatSnoc(Keep(passed), f);
  }

  lemma ThinnedAll(rh: seq<byte>, passed: seq<seq<byte>>, newVal: seq<byte>, removed: nat)
    requires |rh| >= 8 && 8 + U32(rh[4..8]) <= |rh|
    requires Thinned(rh[8..8 + U32(rh[4..8])], passed, U32(rh[4..8]), newVal, removed)
    ensures removed <= U32(rh[4..8])
    ensures if removed == 0 then NothingToStrip(rh)
            else Thins(rh, rh[..4] + U32Bytes(U32(rh[4..8]) - removed) + newVal, removed)
  {
    var val := rh[8..8 + U32(rh[4..8])];
    assert val[..|val|] == val;
    KeepProperties(passed);
    assert removed > 0 ==> StripsTo(rh, passed, rh[..4] + U32Bytes(U32(rh[4..8]) - removed) + newVal, removed);
    forall kids | HeaderKids(rh, kids)
      ensures kids == passed
    {
      UniqueSplit(val, passed, kids);
    }
  }

  /** The value of the element `rh`, as long as its length field says, is the sequence of frames `kids`. */
  predicate HeaderKids(rh: seq<byte>, kids: seq<seq<byte>>) {
    |rh| >= 8 && 8 + U32(rh[4..8]) <= |rh| && Splits(rh[8..8 + U32(rh[4..8])], kids)
  }

  /** The element `out` is `rh` with its children `kids` thinned, `removed` bytes shorter. */
  ghost predicate StripsTo(rh: seq<byte>, kids: seq<seq<byte>>, out: seq<byte>, removed: nat)
    requires |rh| >= 4 && AllFrames(kids)
  {
    removed == |Concat(kids)| - |Concat(Keep(kids))| && out == Framed(rh[..4], Concat(Keep(kids)))
  }

  /** The element's value is no sequence of frames with a correlation value among them. */
  ghost predicate NothingToStrip(rh: seq<byte>) { forall kids :: HeaderKids(rh, kids) ==> !HasCorrelation(kids) }

  /** The element `out` is `rh` without the correlation values among its children, of which there are some. */
  ghost predicate Thins(rh: seq<byte>, out: seq<byte>, removed: nat) {
    exists kids :: HeaderKids(rh, kids) && HasCorrelation(kids) && StripsTo(rh, kids, out, removed)
  }

  lemma NoRoom(rh: seq<byte>)
    requires |rh| >= 8 && 8 + U32(rh[4..8]) > |rh|
    ensures NothingToStrip(rh)
  {
  }

  /** The elements `passed` fill the value up to `off`, where the next element overruns it. */
  predicate Broken(val: seq<byte>, passed: seq<seq<byte>>, off: nat) {
    off < |val| && AllFrames(passed) && Concat(passed) == val[..off] && Stops(val[off..])
  }

  lemma BrokenHeader(rh: seq<byte>, passed: seq<seq<byte>>, off: nat)
    requires |rh| >= 8 && 8 + U32(rh[4..8]) <= |rh|
    requires Broken(rh[8..8 + U32(rh[4..8])], passed, off)
    ensures NothingToStrip(rh)
  {
    forall kids
      ensures !HeaderKids(rh, kids)
    {
      BrokenWalk(rh[8..8 + U32(rh[4..8])], passed, off, kids);
    }
  }

  /** A walk over a value that is a sequence of frames never meets an element that overruns the value. */
  lemma BrokenWalk(val: seq<byte>, passed: seq<seq<byte>>, off: nat, kids: seq<seq<byte>>)
    requires Broken(val, passed, off)
    ensures !Splits(val, kids)
  {
    if Splits(val, kids) {
      var rest := val[off..];
      assert val == val[..off] + rest;
      assert Concat(kids) + [] == val;
      if |kids| <= |passed| {
        ReadingsAgree(kids, [], passed, rest);
        assert false;
      }
      WalkStopsOnce(passed, rest, kids, []);
      assert false;
    }
  }

  /** The input opens as a structure whose length field stays inside it. */
  predicate HasMessage(input: seq<byte>) {
    |input| >= 8 && input[3] == STRUCTURE && 8 + U32(input[4..8]) <= |input|
  }

  function MessageValue(input: seq<byte>): seq<byte>
    requires HasMessage(input)
  {
    input[8..8 + U32(input[4..8])]
  }

  /** The elements `passed`, none of them a header, fill the value up to `off`. */
  predicate Walked(val: seq<byte>, passed: seq<seq<byte>>, off: nat) {
    off <= |val| && AllFrames(passed) && NoHeader(passed) && Concat(passed) == val[..off]
  }

  /** The next element does not overrun the value. */
  predicate HasElement(val: seq<byte>, off: nat) {
    off + 8 <= |val| && off + FrameLen(val[off..]) <= |val|
  }

  /** The value is the elements `passed`, which make up `front`, then the element `f`, then `rest`. */
  predicate Cut(val: seq<byte>, passed: seq<seq<byte>>, front: seq<byte>, f: seq<byte>, rest: seq<byte>) {
    && AllFrames(passed) && NoHeader(passed) && front == Concat(passed)
    && IsFrame(f) && val == front + (f + rest)
  }

  /** The strip, as the front-end does it. */
  method StripResponse(input: seq<byte>) returns (out: seq<byte>)
    ensures out == Stripped(input)
  {
    if |input| < 8 || input[3] != STRUCTURE {
      NoLayout(input);
      return input;
    }
    var msgLen := U32(input[4..8]);
    if 8 + msgLen > |input| {
      NoLayout(input);
      return input;
    }
    var val := MessageValue(input);
    var off := 0;
    ghost var passed: seq<seq<byte>> := [];
    while off < |val|
      invariant Walked(val, passed, off)
      decreases |val| - off
    {
      var fl := ElemFullLen(val[off..]);
      if fl <= 0 || off + fl > |val| {
        NoLayoutPast(input, passed, off);
        return input;
      }
      var front, f, rest := val[..off], val[off..off + fl], val[off + fl..];
      WalkOn(val, passed, off, front, f, rest);
      if TagOf(val[off..]) == RESPONSE_HEADER && val[off + 3] == STRUCTURE {
        var newRh, removed := StripHeaderCorrelation(f);
        if removed == 0 {
          NoKidsNoLayout(input, passed, front, f, rest);
          return input;
        }
        out := Patched(input, front, rest, newRh, removed);
        PatchedIsStripped(input, passed, front, f, rest, newRh, removed);
        return;
      }
      passed := passed + [f];
      off := off + fl;
    }
    NoLayoutPast(input, passed, off);
    out := input;
  }

  /** The message put together again around its new header, under a reduced length. */
  method Patched(input: seq<byte>, front: seq<byte>, rest: seq<byte>, newRh: seq<byte>, removed: nat)
      returns (out: seq<byte>)
    requires HasMessage(input) && removed <= U32(input[4..8])
    ensures out == Reassembled(input, front, rest, newRh, removed)
  {
    var msgLen := U32(input[4..8]);
    out := AppendU32(input[..4], msgLen - removed);
    out := out + front;
    out := out + newRh;
    out := out + rest;
    out := out + input[8 + msgLen..];
  }

  /** The same bytes, in one expression. */
  ghost function Reassembled(input: seq<byte>, front: seq<byte>, rest: seq<byte>, newRh: seq<byte>, removed: nat)
    : seq<byte>
    requires HasMessage(input) && removed <= U32(input[4..8])
  {
    input[..4] + U32Bytes(U32(input[4..8]) - removed) + front + newRh + rest + input[8 + U32(input[4..8])..]
  }

  /** One step of the walk over a message's elements. */
  lemma WalkOn(val: seq<byte>, passed: seq<seq<byte>>, off: nat, front: seq<byte>, f: seq<byte>, rest: seq<byte>)
    requires Walked(val, passed, off) && HasElement(val, off)
    requires front == val[..off] && f == val[off..off + FrameLen(val[off..])] && rest == val[off + |f|..]
    ensures Cut(val, passed, front, f, rest)
    ensures IsHeader(f) <==> TagOf(val[off..]) == RESPONSE_HEADER && val[off + 3] == STRUCTURE
    ensures !IsHeader(f) ==> Walked(val, passed + [f], off + |f|)
  {
    WalkStep(val, off, passed);
  }

  lemma NoLayout(input: seq<byte>)
    requires !HasMessage(input)
    ensures Stripped(input) == input
  {
    if p: Layout :| CanStrip(p, input) {
      LayoutFields(p, input);
      assert false;
    }
  }

  /** Walked to the end, or to an element that overruns the message: there is no header to strip. */
  lemma NoLayoutPast(input: seq<byte>, passed: seq<seq<byte>>, off: nat)
    requires HasMessage(input) && Walked(MessageValue(input), passed, off) && !HasElement(MessageValue(input), off)
    ensures Stripped(input) == input
  {
    if p: Layout :| CanStrip(p, input) {
      var val := MessageValue(input);
      LayoutFields(p, input);
      assert val == val[..off] + val[off..];
      WalkMeetsLayout(p, passed, val[off..]);
      assert false;
    }
  }

  /** Walked to a header that is not a sequence of frames with a correlation value among them. */
  lemma NoKidsNoLayout(input: seq<byte>, passed: seq<seq<byte>>, front: seq<byte>, f: seq<byte>, rest: seq<byte>)
    requires HasMessage(input) && Cut(MessageValue(input), passed, front, f, rest) && IsHeader(f)
    requires NothingToStrip(f)
    ensures Stripped(input) == input
  {
    if p: Layout :| CanStrip(p, input) {
      LayoutFields(p, input);
      FrontFrame(f, rest, f + rest);
      WalkMeetsLayout(p, passed, f + rest);
      HeaderKidsOf(p);
      assert false;
    }
  }

  lemma HeaderKidsOf(p: Layout)
    requires p.Valid()
    ensures HeaderKids(p.Header(), p.kids)
  {
  }

  /** Walked to a header with correlation values: patching both length fields gives the thinned layout. */
  lemma PatchedIsStripped(input: seq<byte>, passed: seq<seq<byte>>, front: seq<byte>, f: seq<byte>, rest: seq<byte>,
                          newRh: seq<byte>, removed: nat)
    requires HasMessage(input) && Cut(MessageValue(input), passed, front, f, rest) && IsHeader(f)
    requires Thins(f, newRh, removed)
    requires removed <= U32(input[4..8])
    ensures Reassembled(input, front, rest, newRh, removed) == Stripped(input)
  {
    var kids :| HeaderKids(f, kids) && HasCorrelation(kids) && StripsTo(f, kids, newRh, removed);
    var p := PatchedLayout(input, passed, front, f, rest, kids, newRh, removed);
    StrippedLayout(p, input);
  }

  lemma PatchedLayout(input: seq<byte>, passed: seq<seq<byte>>, front: seq<byte>, f: seq<byte>, rest: seq<byte>,
                      kids: seq<seq<byte>>, newRh: seq<byte>, removed: nat) returns (p: Layout)
    requires HasMessage(input) && Cut(MessageValue(input), passed, front, f, rest) && IsHeader(f)
    requires HeaderKids(f, kids) && StripsTo(f, kids, newRh, removed) && removed <= U32(input[4..8])
    ensures Describes(p, input)
    ensures Reassembled(input, front, rest, newRh, removed) == p.WithoutCorrelation().Bytes()
  {
    var head, headerHead, tail := input[..4], f[..4], input[8 + U32(input[4..8])..];
    p := Layout(head, passed, headerHead, kids, rest, tail);
    LayoutFound(input, p, f, front);
    assert headerHead[..4] == headerHead;
    PatchedIsRebuilt(p, newRh, removed, front);
  }

  lemma LayoutFound(input: seq<byte>, p: Layout, f: seq<byte>, front: seq<byte>)
    requires HasMessage(input) && Cut(MessageValue(input), p.before, front, f, p.after)
    requires IsHeader(f) && HeaderKids(f, p.kids)
    requires p.head == input[..4] && p.headerHead == f[..4] && p.tail == input[8 + U32(input[4..8])..]
    ensures Describes(p, input) && |p.Value()| == U32(input[4..8])
  {
    HeadersAgree(f, p.headerHead);
    HeaderFound(f, p.kids);
    Assoc(front, f, p.after);
    MessageParts(input);
  }

  /** A frame whose value, as long as its length field says, is made of frames has no padding. */
  lemma HeaderFound(f: seq<byte>, kids: seq<seq<byte>>)
    requires IsFrame(f) && HeaderKids(f, kids)
    ensures f == Framed(f[..4], Concat(kids)) && U32(f[4..8]) % 8 == 0 && |f| == 8 + U32(f[4..8])
  {
    SplitsAligned(kids);
    FramedParts(f);
  }

  lemma MessageParts(input: seq<byte>)
    requires HasMessage(input)
    ensures input == Framed(input[..4], MessageValue(input)) + input[8 + |MessageValue(input)|..]
  {
    var message := input[..8 + U32(input[4..8])];
    assert message[4..8] == input[4..8] && message[..4] == input[..4] && message[8..] == MessageValue(input);
    FramedParts(message);
  }

  /** Patching the two length fields in place gives the lengths a fresh layout computes. */
  lemma PatchedIsRebuilt(p: Layout, newRh: seq<byte>, removed: nat, front: seq<byte>)
    requires p.Valid() && front == Concat(p.before) && removed <= |p.Value()|
    requires StripsTo(p.headerHead, p.kids, newRh, removed)
    ensures p.head + U32Bytes(|p.Value()| - removed) + front + newRh + p.after + p.tail
            == p.WithoutCorrelation().Bytes()
  {
    var q := p.WithoutCorrelation();
    assert p.headerHead[..4] == p.headerHead;
    assert q.Header() == newRh && |q.Value()| == |p.Value()| - removed;
    Reassociate(p.head + U32Bytes(|p.Value()| - removed), front, newRh, p.after, p.tail);
  }

  lemma Reassociate(a: seq<byte>, b: seq<byte>, c: seq<byte>, d: seq<byte>, e: seq<byte>)
    ensures a + b + c + d + e == a + (b + c + d) + e
  {
  }
}
