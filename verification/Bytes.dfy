/** Bytes, 512-byte blocks, memmov, and the little-endian layout of the on-disk structs. */
module Bytes {

  const BLOCK_SIZE: nat := 512

  type byte = b: int | 0 <= b < 256
  type uint32 = w: int | 0 <= w < 0x1_0000_0000
  type Block = b: seq<byte> | |b| == BLOCK_SIZE witness seq(BLOCK_SIZE, _ => 0)

  function ZeroBlock(): (b: Block)
    ensures forall k :: 0 <= k < BLOCK_SIZE ==> b[k] == 0
  {
    seq(BLOCK_SIZE, _ => 0)
  }

  /** memmov(source, b + o, |source|) */
  function Splice(b: Block, o: nat, source: seq<byte>): (r: Block)
    requires o + |source| <= BLOCK_SIZE
    ensures forall k :: 0 <= k < BLOCK_SIZE ==> r[k] == if o <= k < o + |source| then source[k - o] else b[k]
  {
    b[..o] + source + b[o + |source|..]
  }

  /** memmov(b + o, target, n) */
  function Slice(b: Block, o: nat, n: nat): (r: seq<byte>)
    requires o + n <= BLOCK_SIZE
    ensures |r| == n && forall k :: 0 <= k < n ==> r[k] == b[o + k]
  {
    b[o..o + n]
  }

  /** What was put in place is read back, and a read that does not overlap sees no change. */
  lemma SliceOfSplice(b: Block, o: nat, source: seq<byte>, p: nat, n: nat)
    requires o + |source| <= BLOCK_SIZE && p + n <= BLOCK_SIZE
    ensures p == o && n == |source| ==> Slice(Splice(b, o, source), p, n) == source
    ensures p + n <= o || o + |source| <= p ==> Slice(Splice(b, o, source), p, n) == Slice(b, p, n)
  {
  }

  // ----- little-endian words

  function Bytes4(w: uint32): (s: seq<byte>)
    ensures |s| == 4
  {
    [w % 256, w / 256 % 256, w / 65536 % 256, w / 16777216]
  }

  function Word4(s: seq<byte>): uint32
    requires |s| == 4
  {
    s[0] as int + s[1] as int * 256 + s[2] as int * 65536 + s[3] as int * 16777216
  }

  /** The lowest byte comes first. */
  lemma LittleEndian(s: seq<byte>)
    requires |s| == 4
    ensures var w := Word4(s); w % 0x100 == s[0] && w / 0x100 % 0x100 == s[1] && w / 0x1_0000 % 0x100 == s[2] && w / 0x100_0000 == s[3]
  {
    Bytes4OfWord4(s);
    assert Bytes4(Word4(s)) == [Word4(s) % 256, Word4(s) / 256 % 256, Word4(s) / 65536 % 256, Word4(s) / 16777216];
  }

  lemma Word4OfBytes4(w: uint32)
    ensures Word4(Bytes4(w)) == w
  {
    var a := w / 256;
    var b := a / 256;
    var c := b / 256;
    assert w == a * 256 + w % 256 && a == b * 256 + a % 256 && b == c * 256 + b % 256;
    assert w / 65536 == b && w / 16777216 == c;
  }

  /** A struct of 32-bit fields as it lies in memory. */
  function Encode(ws: seq<uint32>): (s: seq<byte>)
    ensures |s| == 4 * |ws|
  {
    if ws == [] then [] else Bytes4(ws[0]) + Encode(ws[1..])
  }

  function Decode(s: seq<byte>): (ws: seq<uint32>)
    requires |s| % 4 == 0
    ensures |ws| == |s| / 4
  {
    if s == [] then [] else [Word4(s[..4])] + Decode(s[4..])
  }

  lemma {:induction false} DecodeOfEncode(ws: seq<uint32>)
    ensures Decode(Encode(ws)) == ws
  {
    if ws != [] {
      var head, tail := Bytes4(ws[0]), Encode(ws[1..]);
      Word4OfBytes4(ws[0]);
      DecodeOfEncode(ws[1..]);
      assert (head + tail)[..4] == head && (head + tail)[4..] == tail;
      assert [ws[0]] + ws[1..] == ws;
    }
  }

  lemma Bytes4OfWord4(s: seq<byte>)
    requires |s| == 4
    ensures Bytes4(Word4(s)) == s
  {
    var a := s[1] as int + s[2] as int * 256 + s[3] as int * 65536;
    var b := s[2] as int + s[3] as int * 256;
    var w := Word4(s);
    assert w == s[0] + a * 256 && a == s[1] + b * 256;
    assert w / 256 == a && a / 256 == b && w / 65536 == b && w / 16777216 == s[3];
  }

  lemma {:induction false} EncodeOfDecode(s: seq<byte>)
    requires |s| % 4 == 0
    ensures Encode(Decode(s)) == s
  {
    if s != [] {
      Bytes4OfWord4(s[..4]);
      EncodeOfDecode(s[4..]);
      assert Decode(s)[0] == Word4(s[..4]) && Decode(s)[1..] == Decode(s[4..]);
      assert s[..4] + s[4..] == s;
    }
  }

  lemma {:induction false} DecodeAt(s: seq<byte>, k: nat)
    requires |s| % 4 == 0 && 4 * k + 4 <= |s|
    ensures Decode(s)[k] == Word4(s[4 * k..4 * k + 4])
  {
    if k > 0 {
      DecodeAt(s[4..], k - 1);
      SliceBehind(s, 4 * (k - 1));
    }
  }

  /** Word k of a struct is its bytes 4k to 4k + 3. */
  lemma EncodeAt(ws: seq<uint32>, k: nat)
    requires k < |ws|
    ensures Word4(Encode(ws)[4 * k..4 * k + 4]) == ws[k]
  {
    DecodeOfEncode(ws);
    DecodeAt(Encode(ws), k);
  }

  lemma SliceBehind(s: seq<byte>, o: nat)
    requires o + 8 <= |s|
    ensures s[4..][o..o + 4] == s[o + 4..o + 8]
  {
  }
}
