/** What the response-header strip means, for every byte string and for every encoded message tree. */
module StripLaws {
  import opened Bytes
  import opened Ttlv
  import opened StripCorrelation
  import opened WellFramed

  // ---- Arbitrary bytes ----

  /** The change is all or nothing: the input is touched exactly when some layout of it has correlation values. */
  lemma StripsExactlyWhen(input: seq<byte>)
    ensures Stripped(input) != input <==> exists p :: CanStrip(p, input)
    ensures Stripped(input) != input ==> |Stripped(input)| < |input|
  {
    if p: Layout :| CanStrip(p, input) {
      StrippedLayout(p, input);
      KeepProperties(p.kids);
      assert |Stripped(input)| < |input|;
    }
  }

  /** How many bytes the correlation values among `kids` take. */
  function Removed(kids: seq<seq<byte>>): int
    requires AllFrames(kids)
  {
    |Concat(kids)| - |Concat(Keep(kids))|
  }

  /** What a strip removes: both length fields drop by the same multiple of eight, which fits them. */
  lemma StripFields(p: Layout, input: seq<byte>) returns (out: seq<byte>)
    requires CanStrip(p, input)
    ensures Removed(p.kids) > 0 && Removed(p.kids) % 8 == 0
    ensures |out| == |input| - Removed(p.kids) && |input| >= 8 && |out| >= 8
    ensures U32(out[4..8]) == U32(input[4..8]) - Removed(p.kids) && out[..4] == input[..4]
    ensures out == Stripped(input) && Describes(p.WithoutCorrelation(), out)
  {
    out := Stripped(input);
    RemovedAligned(p.kids);
    StrippedLayout(p, input);
    LayoutLengths(p, input);
    LayoutLengths(p.WithoutCorrelation(), out);
    ThinnedValue(p);
  }

  lemma ThinnedValue(p: Layout)
    requires p.Valid()
    ensures |p.WithoutCorrelation().Value()| == |p.Value()| - Removed(p.kids)
  {
  }

  lemma LayoutLengths(p: Layout, input: seq<byte>)
    requires Describes(p, input)
    ensures |input| == 8 + |p.Value()| + |p.tail|
    ensures U32(input[4..8]) == |p.Value()| && input[..4] == p.head
  {
    LayoutFields(p, input);
  }

  lemma RemovedAligned(kids: seq<seq<byte>>)
    requires AllFrames(kids)
    ensures Removed(kids) % 8 == 0
    ensures HasCorrelation(kids) ==> Removed(kids) > 0
  {
    KeepProperties(kids);
    SplitsAligned(kids);
    SplitsAligned(Keep(kids));
    DifferenceAligned(|Concat(kids)|, |Concat(Keep(kids))|);
  }

  lemma DifferenceAligned(a: int, b: int)
    requires a % 8 == 0 && b % 8 == 0
    ensures (a - b) % 8 == 0
  {
  }

  /** Stripping a second time changes nothing, whatever the bytes. */
  lemma StripIdempotent(input: seq<byte>)
    ensures Stripped(Stripped(input)) == Stripped(input)
  {
    if p: Layout :| CanStrip(p, input) {
      var q := p.WithoutCorrelation();
      var out := StripFields(p, input);
      KeepProperties(p.kids);
      KeepProperties(q.kids);
      StrippedLayout(q, out);
      assert q.WithoutCorrelation() == q;
    }
  }

  /** One KMIP message and nothing else, with an aligned value. */
  predicate IsAlignedMessage(b: seq<byte>) { |b| >= 8 && |b| == 8 + U32(b[4..8]) && |b| % 8 == 0 }

  /** Stripping keeps the outer framing: one aligned message in, one aligned message out. */
  lemma StripKeepsFraming(input: seq<byte>)
    requires IsAlignedMessage(input)
    ensures IsAlignedMessage(Stripped(input))
    ensures U32(Stripped(input)[4..8]) <= U32(input[4..8])
  {
    if p: Layout :| CanStrip(p, input) {
      var out := StripFields(p, input);
      ShorterMessage(input, out, Removed(p.kids));
    }
  }

  lemma ShorterMessage(a: seq<byte>, b: seq<byte>, removed: nat)
    requires IsAlignedMessage(a) && |b| >= 8 && removed % 8 == 0
    requires |b| == |a| - removed && U32(b[4..8]) == U32(a[4..8]) - removed
    ensures IsAlignedMessage(b) && U32(b[4..8]) <= U32(a[4..8])
  {
    DifferenceAligned(|a|, removed);
  }

  // ---- Malformed input ----

  /** No message structure inside the input, or one whose value is not made of elements at every depth. */
  predicate Malformed(input: seq<byte>) { !HasMessage(input) || !AllSound(MessageValue(input)) }

  /** The parts of a message around and inside its header are well formed. */
  predicate SoundParts(p: Layout) { EachSound(p.before) && EachSound(p.kids) && AllSound(p.after) }

  /** The input has a strippable header, and some part around or inside that header is malformed at some depth. */
  ghost predicate StripsUnsound(input: seq<byte>) { exists p :: CanStrip(p, input) && !SoundParts(p) }

  /**
  The comment on the strip promises that malformed input comes back unchanged. The code keeps that promise for an input
  exactly when it is not this: a strippable header with an element before it, a child, or bytes after it that are
  malformed at some depth.
  */
  lemma MalformedUnchangedExactly(input: seq<byte>)
    ensures (Malformed(input) ==> Stripped(input) == input) <==> !StripsUnsound(input)
  {
    StripsExactlyWhen(input);
    forall p: Layout | CanStrip(p, input)
      ensures Malformed(input) <==> !SoundParts(p)
    {
      MalformedByParts(p, input);
    }
  }

  lemma MalformedByParts(p: Layout, input: seq<byte>)
    requires Describes(p, input)
    ensures HasMessage(input) && MessageValue(input) == p.Value()
    ensures Malformed(input) <==> !SoundParts(p)
  {
    LayoutFields(p, input);
    PartsDecide(p);
  }

  /** A message value is well formed exactly when the parts of its layout are. */
  lemma PartsDecide(p: Layout)
    requires p.Valid()
    ensures AllSound(p.Value()) <==> SoundParts(p)
  {
    SoundStructure(p.headerHead, p.kids);
    Assoc(Concat(p.before), p.Header(), p.after);
    SoundSplit(p.before, p.Header() + p.after);
    SoundFirst(p.Header(), p.after);
  }

  /** A layout with one header in it, its parts as given. */
  lemma HeaderLayout(kids: seq<seq<byte>>, after: seq<byte>) returns (p: Layout)
    requires AllFrames(kids) && |Concat(kids)| + 8 + |after| < U32_RANGE
    ensures p.Valid() && p.before == [] && p.kids == kids && p.after == after
    ensures p.Value() == Framed(TagBytes(RESPONSE_HEADER) + [STRUCTURE], Concat(kids)) + after
  {
    StructureHead(0x42007B);
    StructureHead(RESPONSE_HEADER);
    var head, headerHead := TagBytes(0x42007B) + [STRUCTURE], TagBytes(RESPONSE_HEADER) + [STRUCTURE];
    p := Layout(head, [], headerHead, kids, after, []);
    assert Concat(p.before) == [] && [] + p.Header() == p.Header();
  }

  /** An input with such a layout: it is stripped, and malformed when its parts are. */
  lemma HeaderMessage(kids: seq<seq<byte>>, after: seq<byte>) returns (input: seq<byte>)
    requires AllFrames(kids) && HasCorrelation(kids) && |Concat(kids)| + 8 + |after| < U32_RANGE
    ensures Stripped(input) != input
    ensures HasMessage(input)
    ensures MessageValue(input) == Framed(TagBytes(RESPONSE_HEADER) + [STRUCTURE], Concat(kids)) + after
    ensures Malformed(input) <==> !(EachSound(kids) && AllSound(after))
  {
    var p := HeaderLayout(kids, after);
    input := p.Bytes();
    MalformedByParts(p, input);
    assert CanStrip(p, input);
    StripsExactlyWhen(input);
  }

  /** A header's child that asks to be stripped: an empty correlation value. */
  lemma EmptyCorrelation() returns (kid: seq<byte>)
    ensures IsFrame(kid) && IsCorrelation(kid) && Sound(kid) && |kid| == 8
  {
    var t := Structure(CLIENT_CORRELATION, []);
    assert WellFormed(t);
    EncodeIsFrame(t);
    DecodeEncode(t);
    kid := Encode(t);
  }

  /** Such an input: a header with one empty correlation value, and a stray byte after it. */
  lemma MalformedYetStripped() returns (input: seq<byte>)
    ensures Malformed(input) && Stripped(input) != input
  {
    var kid := EmptyCorrelation();
    assert Concat([kid]) == kid;
    input := HeaderMessage([kid], [0]);
  }

  /** A structure that is an element by its own length, and whose value claims an element that overruns it. */
  lemma OverrunningChild() returns (f: seq<byte>)
    ensures IsFrame(f) && !Sound(f) && |f| == 16
  {
    var overrun: seq<byte> := [0, 0, 0, 0, 0xFF, 0xFF, 0xFF, 0xFF];
    var head := TagBytes(0x42007C) + [STRUCTURE];
    StructureHead(0x42007C);
    f := Framed(head, overrun);
    AlignedIsFrame(head, overrun);
    assert f[..4][3] == f[3] && ValueOf(f) == overrun;
    assert U32(overrun[4..8]) == 0xFFFF_FFFF;
  }

  /**
  Another one, in which every element that the code walks is in order: a child of the header is a structure whose value
  claims an element that overruns it.
  */
  lemma MalformedInsideYetStripped() returns (input: seq<byte>)
    ensures Malformed(input) && Stripped(input) != input
    ensures HasMessage(input) && exists fs :: Splits(MessageValue(input), fs)
  {
    var kids := StripAndBreak();
    input := HeaderMessage(kids, []);
    HeaderWithKids(kids);
    OneFrame(MessageValue(input));
  }

  /** Two children for a header: one to be stripped, and one that is broken inside. */
  lemma StripAndBreak() returns (kids: seq<seq<byte>>)
    ensures AllFrames(kids) && HasCorrelation(kids) && !EachSound(kids) && |Concat(kids)| == 24
  {
    var kid := EmptyCorrelation();
    var broken := OverrunningChild();
    kids := [kid] + [broken];
    assert IsCorrelation(kids[0]) && !Sound(kids[1]);
    ConcatSnoc([kid], broken);
    assert Concat([kid]) == kid;
  }

  lemma HeaderWithKids(kids: seq<seq<byte>>)
    requires AllFrames(kids) && |Concat(kids)| < U32_RANGE
    ensures IsFrame(Framed(TagBytes(RESPONSE_HEADER) + [STRUCTURE], Concat(kids)) + [])
  {
    var h := Framed(TagBytes(RESPONSE_HEADER) + [STRUCTURE], Concat(kids));
    SplitsAligned(kids);
    AlignedIsFrame(TagBytes(RESPONSE_HEADER) + [STRUCTURE], Concat(kids));
    assert h + [] == h;
  }

  // ---- Bytes on the wire ----

  /**
  A response as it stands on the wire, byte by byte: a client correlation value, another child and a server correlation
  value in the header, an element after the header, and a byte after the message.
  */
  lemma OnTheWire(a: byte, b: byte, c: byte, d: byte)
    ensures Stripped([0x42, 0x00, 0x7B, 0x01, 0x00, 0x00, 0x00, 0x38]
                     + [0x42, 0x00, 0x7A, 0x01, 0x00, 0x00, 0x00, 0x28]
                     + [0x42, 0x01, 0x05, 0x07, 0x00, 0x00, 0x00, 0x08, a, b, c, d, a, b, c, d]
                     + [0x42, 0x00, 0x0D, 0x02, 0x00, 0x00, 0x00, 0x00]
                     + [0x42, 0x01, 0x06, 0x07, 0x00, 0x00, 0x00, 0x04, d, c, b, a, 0x00, 0x00, 0x00, 0x00]
                     + [0x42, 0x00, 0x0F, 0x01, 0x00, 0x00, 0x00, 0x00]
                     + [a])
         == [0x42, 0x00, 0x7B, 0x01, 0x00, 0x00, 0x00, 0x18]
            + [0x42, 0x00, 0x7A, 0x01, 0x00, 0x00, 0x00, 0x08]
            + [0x42, 0x00, 0x0D, 0x02, 0x00, 0x00, 0x00, 0x00]
            + [0x42, 0x00, 0x0F, 0x01, 0x00, 0x00, 0x00, 0x00]
            + [a]
  {
    var client: seq<byte> := [0x42, 0x01, 0x05, 0x07, 0x00, 0x00, 0x00, 0x08, a, b, c, d, a, b, c, d];
    var count: seq<byte> := [0x42, 0x00, 0x0D, 0x02, 0x00, 0x00, 0x00, 0x00];
    var server: seq<byte> := [0x42, 0x01, 0x06, 0x07, 0x00, 0x00, 0x00, 0x04, d, c, b, a, 0x00, 0x00, 0x00, 0x00];
    assert client[..8] == [0x42, 0x01, 0x05, 0x07, 0x00, 0x00, 0x00, 0x08];
    assert server[..8] == [0x42, 0x01, 0x06, 0x07, 0x00, 0x00, 0x00, 0x04];
    WireStrip(client, count, server, [0x42, 0x00, 0x0F, 0x01, 0x00, 0x00, 0x00, 0x00], [a]);
  }

  lemma WireStrip(client: seq<byte>, count: seq<byte>, server: seq<byte>, item: seq<byte>, tail: seq<byte>)
    requires |client| == 16 && client[..8] == [0x42, 0x01, 0x05, 0x07, 0x00, 0x00, 0x00, 0x08]
    requires count == [0x42, 0x00, 0x0D, 0x02, 0x00, 0x00, 0x00, 0x00]
    requires |server| == 16 && server[..8] == [0x42, 0x01, 0x06, 0x07, 0x00, 0x00, 0x00, 0x04]
    requires |item| == 8
    ensures Stripped([0x42, 0x00, 0x7B, 0x01, 0x00, 0x00, 0x00, 0x38] + [0x42, 0x00, 0x7A, 0x01, 0x00, 0x00, 0x00, 0x28]
                     + client + count + server + item + tail)
         == [0x42, 0x00, 0x7B, 0x01, 0x00, 0x00, 0x00, 0x18] + [0x42, 0x00, 0x7A, 0x01, 0x00, 0x00, 0x00, 0x08]
            + count + item + tail
  {
    var head: seq<byte>, headerHead: seq<byte> := [0x42, 0x00, 0x7B, 0x01], [0x42, 0x00, 0x7A, 0x01];
    var p := Layout(head, [], headerHead, [client, count, server], item, tail);
    WireChildren(client, count, server);
    WireLayout(p, client + count + server);
    WireLayout(p.WithoutCorrelation(), count);
    StrippedLayout(p, p.Bytes());
    WireParts(client, count, server, item, tail);
  }

  lemma WireParts(x: seq<byte>, y: seq<byte>, z: seq<byte>, item: seq<byte>, tail: seq<byte>)
    ensures ([0x42, 0x00, 0x7B, 0x01, 0x00, 0x00, 0x00, 0x38] + [0x42, 0x00, 0x7A, 0x01, 0x00, 0x00, 0x00, 0x28])
            + (x + y + z) + item + tail
         == [0x42, 0x00, 0x7B, 0x01, 0x00, 0x00, 0x00, 0x38] + [0x42, 0x00, 0x7A, 0x01, 0x00, 0x00, 0x00, 0x28]
            + x + y + z + item + tail
  {
  }

  lemma WireChildren(client: seq<byte>, count: seq<byte>, server: seq<byte>)
    requires |client| == 16 && client[..8] == [0x42, 0x01, 0x05, 0x07, 0x00, 0x00, 0x00, 0x08]
    requires count == [0x42, 0x00, 0x0D, 0x02, 0x00, 0x00, 0x00, 0x00]
    requires |server| == 16 && server[..8] == [0x42, 0x01, 0x06, 0x07, 0x00, 0x00, 0x00, 0x04]
    ensures AllFrames([client, count, server]) && Keep([client, count, server]) == [count]
    ensures Concat([client, count, server]) == client + count + server && Concat([count]) == count
  {
    assert count[..8] == count;
    ShortFrame(client, 0x42, 0x01, 0x05, 0x07, 0x08);
    ShortFrame(count, 0x42, 0x00, 0x0D, 0x02, 0x00);
    ShortFrame(server, 0x42, 0x01, 0x06, 0x07, 0x04);
    KeepMiddle(client, count, server);
  }

  /** An element by its first eight bytes. */
  lemma ShortFrame(f: seq<byte>, t0: byte, t1: byte, t2: byte, kind: byte, n: byte)
    requires |f| >= 8 && f[..8] == [t0, t1, t2, kind, 0, 0, 0, n] && |f| == 8 + RoundUp8(n as int)
    ensures IsFrame(f) && TagOf(f) == t0 as int * 0x1_0000 + t1 as int * 0x100 + t2 as int
  {
    assert f[0] == f[..8][0] && f[1] == f[..8][1] && f[2] == f[..8][2];
    assert f[4..8] == f[..8][4..8] == [0, 0, 0, n];
  }

  lemma KeepMiddle(x: seq<byte>, y: seq<byte>, z: seq<byte>)
    requires IsFrame(x) && IsFrame(y) && IsFrame(z)
    requires IsCorrelation(x) && !IsCorrelation(y) && IsCorrelation(z)
    ensures AllFrames([x, y, z]) && Keep([x, y, z]) == [y]
    ensures Concat([x, y, z]) == x + y + z && Concat([y]) == y
  {
    assert [] + [x] == [x] && [x] + [y] == [x, y] && [x, y] + [z] == [x, y, z] && [] + [y] == [y];
    KeepSnoc([], x);
    KeepSnoc([x], y);
    KeepSnoc([x, y], z);
    OneFrame(x);
    OneFrame(y);
    ConcatSnoc([x], y);
    ConcatSnoc([x, y], z);
  }

  /** A layout with plain numbers for its two lengths. */
  lemma WireLayout(p: Layout, content: seq<byte>)
    requires p.head == [0x42, 0x00, 0x7B, 0x01] && p.headerHead == [0x42, 0x00, 0x7A, 0x01] && p.before == []
    requires AllFrames(p.kids) && content == Concat(p.kids) && 16 + |content| + |p.after| < 0x100
    ensures p.Valid()
    ensures p.Bytes() == [0x42, 0x00, 0x7B, 0x01, 0x00, 0x00, 0x00, (8 + |content| + |p.after|) as byte]
                         + [0x42, 0x00, 0x7A, 0x01, 0x00, 0x00, 0x00, |content| as byte] + content + p.after + p.tail
  {
    var value := p.Header() + p.after;
    WireValue(p);
    ShortFramed(p.headerHead, content);
    ShortFramed(p.head, value);
    WireBytes(p, [0x42, 0x00, 0x7B, 0x01, 0x00, 0x00, 0x00, |value| as byte],
              [0x42, 0x00, 0x7A, 0x01, 0x00, 0x00, 0x00, |content| as byte], content);
  }

  lemma WireValue(p: Layout)
    requires |p.headerHead| == 4 && p.before == []
    ensures p.Value() == p.Header() + p.after
  {
    assert Concat(p.before) + p.Header() == p.Header();
  }

  lemma WireBytes(p: Layout, x: seq<byte>, y: seq<byte>, content: seq<byte>)
    requires |p.head| == |p.headerHead| == 4 && p.Value() == p.Header() + p.after && p.Header() == y + content
    requires Framed(p.head, p.Value()) == x + p.Value()
    ensures p.Bytes() == x + y + content + p.after + p.tail
  {
  }

  lemma ShortFramed(head: seq<byte>, value: seq<byte>)
    requires |head| == 4 && |value| < 0x100
    ensures Framed(head, value) == [head[0], head[1], head[2], head[3], 0, 0, 0, |value| as byte] + value
  {
    U32Injective(U32Bytes(|value|), [0, 0, 0, |value| as byte]);
  }

  // ---- Message trees ----

  function KeepItems(ts: seq<Item>): seq<Item> {
    if ts == [] then []
    else (if IsCorrelationTag(ts[0].tag) then [] else [ts[0]]) + KeepItems(ts[1..])
  }

  predicate IsHeaderItem(t: Item) { t.Structure? && t.tag == RESPONSE_HEADER }

  /** The first response header among the elements loses its correlation values. */
  function StripFirstHeader(ts: seq<Item>): seq<Item> {
    if ts == [] then []
    else if IsHeaderItem(ts[0]) then [Structure(ts[0].tag, KeepItems(ts[0].items))] + ts[1..]
    else [ts[0]] + StripFirstHeader(ts[1..])
  }

  function StripTree(t: Item): Item {
    match t
    case Leaf(_, _, _) => t
    case Structure(tag, items) => Structure(tag, StripFirstHeader(items))
  }

  lemma {:induction false} KeepItemsEncodings(ts: seq<Item>)
    requires AllWellFormed(ts)
    ensures AllFrames(Encodings(ts))
    ensures Keep(Encodings(ts)) == Encodings(KeepItems(ts))
    ensures AllWellFormed(KeepItems(ts))
  {
    EncodingsAreFrames(ts);
    if ts != [] {
      var es, kept := Encodings(ts), KeepItems(ts[1..]);
      EncodeIsFrame(ts[0]);
      KeepItemsEncodings(ts[1..]);
      assert es[0] == Encode(ts[0]) && es[1..] == Encodings(ts[1..]);
      if IsCorrelationTag(ts[0].tag) {
        assert KeepItems(ts) == kept && Keep(es) == Keep(es[1..]);
      } else {
        assert ([ts[0]] + kept)[1..] == kept;
        assert Keep(es) == [es[0]] + Keep(es[1..]);
      }
    }
  }

  /** The element frames before the first header, and where the header sits. */
  function HeaderIndex(ts: seq<Item>): (i: nat)
    ensures i <= |ts|
    ensures forall k | 0 <= k < i :: !IsHeaderItem(ts[k])
    ensures i < |ts| ==> IsHeaderItem(ts[i])
  {
    if ts == [] || IsHeaderItem(ts[0]) then 0 else 1 + HeaderIndex(ts[1..])
  }

  lemma {:induction false} StripFirstHeaderAt(ts: seq<Item>)
    ensures var i := HeaderIndex(ts);
            StripFirstHeader(ts) ==
              if i == |ts| then ts else ts[..i] + [Structure(ts[i].tag, KeepItems(ts[i].items))] + ts[i + 1..]
  {
    if ts != [] && !IsHeaderItem(ts[0]) {
      var i := HeaderIndex(ts[1..]);
      StripFirstHeaderAt(ts[1..]);
      if i < |ts| - 1 {
        var h := ts[i + 1];
        SplicedCons(ts, i, Structure(h.tag, KeepItems(h.items)));
      } else {
        assert ts == [ts[0]] + ts[1..];
      }
    }
  }

  lemma SplicedCons(ts: seq<Item>, i: nat, x: Item)
    requires i + 1 < |ts|
    ensures [ts[0]] + (ts[1..][..i] + [x] + ts[1..][i + 1..]) == ts[..i + 1] + [x] + ts[i + 2..]
  {
  }

  lemma {:induction false} EncodingsAppend(ts: seq<Item>, us: seq<Item>)
    ensures Encodings(ts + us) == Encodings(ts) + Encodings(us)
  {
    if ts == [] {
      assert ts + us == us;
    } else {
      assert (ts + us)[1..] == ts[1..] + us;
      EncodingsAppend(ts[1..], us);
    }
  }

  lemma {:induction false} WellFormedAppend(ts: seq<Item>, us: seq<Item>)
    ensures AllWellFormed(ts + us) <==> AllWellFormed(ts) && AllWellFormed(us)
  {
    if ts == [] {
      assert ts + us == us;
    } else {
      assert (ts + us)[1..] == ts[1..] + us;
      WellFormedAppend(ts[1..], us);
    }
  }

  lemma {:induction false} NoHeaderItems(ts: seq<Item>)
    requires AllWellFormed(ts)
    ensures AllFrames(Encodings(ts))
    ensures NoHeader(Encodings(ts)) <==> HeaderIndex(ts) == |ts|
  {
    EncodingsAreFrames(ts);
    if ts != [] {
      var es := Encodings(ts);
      EncodeIsFrame(ts[0]);
      NoHeaderItems(ts[1..]);
      assert es == [Encode(ts[0])] + Encodings(ts[1..]);
      assert NoHeader(es) <==> !IsHeader(es[0]) && NoHeader(es[1..]) by {
        assert forall i | 0 < i < |es| :: es[i] == es[1..][i - 1];
      }
    }
  }

  /** The layout of an encoded message that has a header. */
  ghost function TreeLayout(tag: nat, items: seq<Item>, tail: seq<byte>): Layout
    requires HeaderIndex(items) < |items|
  {
    var i := HeaderIndex(items);
    Layout(TagBytes(tag) + [STRUCTURE], Encodings(items[..i]), TagBytes(items[i].tag) + [STRUCTURE],
           Encodings(items[i].items), Concat(Encodings(items[i + 1..])), tail)
  }

  /** The encodings of a list of elements, cut around one of them. */
  lemma SplitAt(items: seq<Item>, i: nat) returns (front: seq<byte>, middle: seq<byte>, back: seq<byte>)
    requires i < |items|
    ensures front == Concat(Encodings(items[..i])) && middle == Encode(items[i])
    ensures back == Concat(Encodings(items[i + 1..]))
    ensures Concat(Encodings(items)) == front + middle + back
    ensures AllWellFormed(items) <==>
              AllWellFormed(items[..i]) && WellFormed(items[i]) && AllWellFormed(items[i + 1..])
  {
    var before, after := items[..i], items[i + 1..];
    front, middle, back := Concat(Encodings(before)), Encode(items[i]), Concat(Encodings(after));
    assert items == before + ([items[i]] + after);
    assert ([items[i]] + after)[1..] == after;
    EncodingsAppend(before, [items[i]] + after);
    WellFormedAppend(before, [items[i]] + after);
    ConcatAppend(Encodings(before), Encodings([items[i]] + after));
    assert Encodings([items[i]] + after)[1..] == Encodings(after);
    Assoc(front, middle, back);
  }

  lemma TreeLayoutParts(tag: nat, items: seq<Item>, tail: seq<byte>)
    requires WellFormed(Structure(tag, items)) && HeaderIndex(items) < |items|
    ensures var p := TreeLayout(tag, items, tail);
            && |p.head| == 4 && p.head[3] == STRUCTURE
            && AllFrames(p.before) && NoHeader(p.before)
            && |p.headerHead| == 4 && IsHeader(p.headerHead)
            && AllFrames(p.kids)
  {
    var i := HeaderIndex(items);
    var front, middle, back := SplitAt(items, i);
    assert HeaderIndex(items[..i]) == i;
    NoHeaderItems(items[..i]);
    EncodingsAreFrames(items[i].items);
    StructureHead(tag);
    StructureHead(items[i].tag);
  }

  lemma TreeLayoutValue(tag: nat, items: seq<Item>, tail: seq<byte>)
    requires HeaderIndex(items) < |items|
    ensures var p := TreeLayout(tag, items, tail);
            |p.head| == |p.headerHead| == 4 && p.Value() == Concat(Encodings(items))
  {
    var i := HeaderIndex(items);
    var front, middle, back := SplitAt(items, i);
    ValueFromParts(TreeLayout(tag, items, tail), front, middle, back, Concat(Encodings(items)));
  }

  lemma TreeLayoutDescribes(tag: nat, items: seq<Item>, tail: seq<byte>)
    requires WellFormed(Structure(tag, items)) && HeaderIndex(items) < |items|
    ensures Describes(TreeLayout(tag, items, tail), Encode(Structure(tag, items)) + tail)
  {
    TreeLayoutParts(tag, items, tail);
    TreeLayoutValue(tag, items, tail);
    var p := TreeLayout(tag, items, tail);
    assert p.head == TagBytes(tag) + [STRUCTURE] && p.tail == tail;
  }

  lemma StructureHead(tag: nat)
    requires tag < 0x100_0000
    ensures var head := TagBytes(tag) + [STRUCTURE];
            |head| == 4 && head[3] == STRUCTURE && TagOf(head) == tag
  {
    var head := TagBytes(tag) + [STRUCTURE];
    HeadOf(head, tag, STRUCTURE, head);
  }

  /** Thinning the first header of a list of elements, as a change to their encodings. */
  lemma StrippedItems(items: seq<Item>, header: Item)
      returns (front: seq<byte>, middle: seq<byte>, back: seq<byte>, content: seq<byte>)
    requires AllWellFormed(items) && HeaderIndex(items) < |items|
    requires var h := items[HeaderIndex(items)]; header == Structure(h.tag, KeepItems(h.items))
    ensures front == Concat(Encodings(items[..HeaderIndex(items)])) && middle == Encode(header)
    ensures back == Concat(Encodings(items[HeaderIndex(items) + 1..]))
    ensures content == Concat(Encodings(StripFirstHeader(items))) == front + middle + back
    ensures WellFormed(header) ==> AllWellFormed(StripFirstHeader(items))
  {
    var i := HeaderIndex(items);
    var stripped := items[..i] + [header] + items[i + 1..];
    StripFirstHeaderAt(items);
    Spliced(items, i, header, stripped);
    var f, m, b := SplitAt(items, i);
    front, middle, back := SplitAt(stripped, i);
    content := Concat(Encodings(stripped));
  }

  lemma Spliced(items: seq<Item>, i: nat, t: Item, changed: seq<Item>)
    requires i < |items| && changed == items[..i] + [t] + items[i + 1..]
    ensures |changed| == |items| && changed[..i] == items[..i] && changed[i] == t && changed[i + 1..] == items[i + 1..]
  {
  }

  lemma ThinnedHeader(tag: nat, items: seq<Item>)
    requires AllWellFormed(items)
    ensures AllFrames(Encodings(items)) && AllWellFormed(KeepItems(items))
    ensures Framed(TagBytes(tag) + [STRUCTURE], Concat(Keep(Encodings(items))))
            == Encode(Structure(tag, KeepItems(items)))
  {
    KeepItemsEncodings(items);
  }

  /** The tree without its header's correlation values has the value of the message's thinned layout. */
  lemma StrippedTreeValue(tag: nat, items: seq<Item>, tail: seq<byte>)
    requires WellFormed(Structure(tag, items)) && HeaderIndex(items) < |items|
    ensures var p := TreeLayout(tag, items, tail);
            && p.Valid()
            && p.WithoutCorrelation().Value() == Concat(Encodings(StripFirstHeader(items)))
    ensures |Concat(Encodings(StripFirstHeader(items)))| < U32_RANGE ==> AllWellFormed(StripFirstHeader(items))
  {
    var i := HeaderIndex(items);
    var p := TreeLayout(tag, items, tail);
    TreeLayoutDescribes(tag, items, tail);
    WellFormedAt(items, i);
    ThinnedHeader(items[i].tag, items[i].items);
    var front, middle, back, content := StrippedItems(items, Structure(items[i].tag, KeepItems(items[i].items)));
    ValueFromParts(p.WithoutCorrelation(), front, middle, back, content);
  }

  lemma WellFormedAt(items: seq<Item>, i: nat)
    requires AllWellFormed(items) && i < |items|
    ensures WellFormed(items[i])
  {
    var front, middle, back := SplitAt(items, i);
  }

  lemma StrippedTreeLayout(tag: nat, items: seq<Item>, tail: seq<byte>)
    requires WellFormed(Structure(tag, items)) && HeaderIndex(items) < |items|
    ensures var p := TreeLayout(tag, items, tail);
            && p.Valid() && p.WithoutCorrelation().Bytes() == Encode(StripTree(Structure(tag, items))) + tail
    ensures WellFormed(StripTree(Structure(tag, items)))
  {
    var p := TreeLayout(tag, items, tail);
    StrippedTreeValue(tag, items, tail);
    ThinnedValue(p);
    KeepProperties(p.kids);
  }

  lemma ValueFromParts(p: Layout, front: seq<byte>, header: seq<byte>, back: seq<byte>, content: seq<byte>)
    requires |p.head| == |p.headerHead| == 4
    requires Concat(p.before) == front && p.Header() == header && p.after == back
    requires content == front + header + back
    ensures p.Value() == content && p.Bytes() == Framed(p.head, content) + p.tail
  {
  }

  /**
  The strip of an encoded message is the encoding of the message tree without the correlation values of its first
  response header: patching the two lengths in place agrees with recomputing every length. Trailing bytes stay.
  */
  lemma StripEncoding(t: Item, tail: seq<byte>)
    requires WellFormed(t)
    ensures Stripped(Encode(t) + tail) == Encode(StripTree(t)) + tail
  {
    var input := Encode(t) + tail;
    EncodeIsFrame(t);
    FrontFrame(Encode(t), tail, input);
    match t {
      case Leaf(_, _, _) =>
        NoLayout(input);
      case Structure(tag, items) =>
        if HeaderIndex(items) < |items| {
          TreeLayoutDescribes(tag, items, tail);
          StrippedLayout(TreeLayout(tag, items, tail), input);
          StrippedTreeLayout(tag, items, tail);
        } else {
          StripFirstHeaderAt(items);
          NoHeaderItems(items);
          var content := Concat(Encodings(items));
          assert MessageValue(input) == content by {
            assert input[4..8] == Encode(t)[4..8] && Encode(t)[8..] == content;
          }
          assert content[..|content|] == content;
          NoLayoutPast(input, Encodings(items), |content|);
        }
    }
  }

  /** Stripping keeps a tree well formed, so what comes out encodes exactly one tree, the stripped one. */
  lemma StripTreeWellFormed(t: Item)
    requires WellFormed(t)
    ensures WellFormed(StripTree(t))
  {
    if t.Structure? && HeaderIndex(t.items) < |t.items| {
      StrippedTreeLayout(t.tag, t.items, []);
    } else if t.Structure? {
      StripFirstHeaderAt(t.items);
    }
  }

  /** The only tree whose encoding a stripped message starts with is the stripped tree. */
  lemma StripDecodesTo(t: Item, tail: seq<byte>, u: Item, rest: seq<byte>)
    requires WellFormed(t) && WellFormed(u)
    requires Stripped(Encode(t) + tail) == Encode(u) + rest
    ensures u == StripTree(t) && rest == tail
  {
    StripEncoding(t, tail);
    StripTreeWellFormed(t);
    EncodePrefixFree(StripTree(t), u, tail, rest);
  }
}
