/** Bytes, the big-endian length field, and concatenation of byte strings. */
module Bytes {

  newtype byte = x: int | 0 <= x < 0x100

  const U32_RANGE: int := 0x1_0000_0000

  /** Go's `binary.BigEndian.Uint32`. */
  function U32(b: seq<byte>): (n: nat)
    requires |b| == 4
    ensures n < U32_RANGE
  {
    b[0] as int * 0x100_0000 + b[1] as int * 0x1_0000 + b[2] as int * 0x100 + b[3] as int
  }

  /** The four bytes that read as `n`, which is first cut to 32 bits as Go's conversion `uint32(n)` does. */
  ghost function U32Bytes(n: nat): (b: seq<byte>)
    ensures |b| == 4
    ensures U32(b) == n % U32_RANGE
  {
    U32BytesExist(n % U32_RANGE);
    var b: seq<byte> :| |b| == 4 && U32(b) == n % U32_RANGE;
    b
  }

  lemma U32BytesExist(n: nat)
    requires n < U32_RANGE
    ensures exists b: seq<byte> :: |b| == 4 && U32(b) == n
  {
    var b := PutU32(n);
    assert |b| == 4 && U32(b) == n;
  }

  /** Go's `PutUint32`. */
  function PutU32(n: nat): (b: seq<byte>)
    requires n < U32_RANGE
    ensures |b| == 4 && U32(b) == n
  {
    var (upper, b3) := (n / 0x100, n % 0x100);
    var (upper', b2) := (upper / 0x100, upper % 0x100);
    [(upper' / 0x100) as byte, (upper' % 0x100) as byte, b2 as byte, b3 as byte]
  }

  /** Go's `appendU32(b, uint32(v))`. */
  method AppendU32(b: seq<byte>, v: nat) returns (out: seq<byte>)
    ensures out == b + U32Bytes(v)
  {
    var x := PutU32(v % U32_RANGE);
    U32Injective(x, U32Bytes(v));
    out := b + x;
  }

  /** Four bytes are determined by the number they stand for. */
  lemma U32Injective(a: seq<byte>, b: seq<byte>)
    requires |a| == |b| == 4 && U32(a) == U32(b)
    ensures a == b
  {
    assert a[0] == b[0] && a[1] == b[1] && a[2] == b[2] && a[3] == b[3];
  }

  /**
  The order of the bytes: the first byte in which two fields differ decides which stands for the larger number. As there
  are no more numbers than fields, no other reading has this property.
  */
  lemma BigEndianOrder(a: seq<byte>, b: seq<byte>, i: nat)
    requires |a| == |b| == 4 && i < 4 && a[..i] == b[..i] && a[i] < b[i]
    ensures U32(a) < U32(b)
  {
    assert forall j | 0 <= j < i :: a[j] == a[..i][j] == b[..i][j] == b[j];
  }

  function Concat(parts: seq<seq<byte>>): seq<byte> {
    if parts == [] then [] else parts[0] + Concat(parts[1..])
  }

  lemma Assoc(a: seq<byte>, b: seq<byte>, c: seq<byte>)
    ensures a + b + c == a + (b + c)
  {
  }

  lemma CancelFront(a: seq<byte>, x: seq<byte>, b: seq<byte>, y: seq<byte>)
    requires a + x == b + y && |a| == |b|
    ensures a == b && x == y
  {
    assert a == (a + x)[..|a|] == (b + y)[..|b|] == b;
    assert x == (a + x)[|a|..] == (b + y)[|b|..] == y;
  }

  lemma CutTwice(s: seq<byte>, i: nat, n: nat)
    requires i + n <= |s|
    ensures s[i..][..n] == s[i..i + n] && s[i..][n..] == s[i + n..]
    ensures s[..i] + s[i..i + n] == s[..i + n]
    ensures s[..i] + s[i..] == s
  {
  }

  lemma ConcatFirst(parts: seq<seq<byte>>, i: nat)
    requires i < |parts|
    ensures Concat(parts[i..]) == parts[i] + Concat(parts[i + 1..])
  {
    assert parts[i..][1..] == parts[i + 1..];
  }

  lemma {:induction false} ConcatAppend(a: seq<seq<byte>>, b: seq<seq<byte>>)
    ensures Concat(a + b) == Concat(a) + Concat(b)
  {
    if a == [] {
      assert a + b == b;
    } else {
      assert (a + b)[1..] == a[1..] + b;
      ConcatAppend(a[1..], b);
    }
  }

  lemma ConcatSnoc(a: seq<seq<byte>>, f: seq<byte>)
    ensures Concat(a + [f]) == Concat(a) + f
  {
    ConcatAppend(a, [f]);
    assert Concat([f]) == f;
  }
}
