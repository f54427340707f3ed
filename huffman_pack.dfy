/**
 * Packing the Huffman bit string into bytes and back
 * (a4/huffman.py, `compress` at lines 152-195 and `decompress` at lines 202-232).
 */
module HuffmanPack {
  import opened Outcomes
  import opened HuffmanTree
  import opened HuffmanCodec

  function Pow2(n: nat): (r: nat)
    ensures r >= 1
  {
    if n == 0 then 1 else 2 * Pow2(n - 1)
  }

  /** The bit `compress` takes from one character: `0` for `'0'`, 1 for anything else. */
  function Bit(c: char): nat {
    if c == '0' then 0 else 1
  }

  /** A bit string read as a binary number, most significant bit first. */
  function BitsValue(s: string): nat
    decreases |s|
  {
    if s == [] then 0 else 2 * BitsValue(s[..|s| - 1]) + Bit(s[|s| - 1])
  }

  lemma {:induction false} BitsValueBound(s: string)
    ensures BitsValue(s) < Pow2(|s|)
    decreases |s|
  {
    if s != [] {
      BitsValueBound(s[..|s| - 1]);
    }
  }

  lemma EightBits(s: string)
    requires |s| == 8
    ensures BitsValue(s) < 256
  {
    BitsValueBound(s);
    assert Pow2(8) == 256;
  }

  /** Eight bits as the byte they spell. */
  function ByteOf(s: string): Byte
    requires |s| == 8
  {
    EightBits(s);
    BitsValue(s) as Byte
  }

  /** Every complete group of eight bits, as a byte. */
  function Chunks(s: string): seq<Byte>
    decreases |s|
  {
    if |s| < 8 then [] else [ByteOf(s[..8])] + Chunks(s[8..])
  }

  /** The bits after the last complete group of eight. */
  function Tail(s: string): (t: string)
    ensures |t| < 8 && |t| <= |s|
    decreases |s|
  {
    if |s| < 8 then s else Tail(s[8..])
  }

  /** The leftover bits are `|s| % 8` of them. */
  lemma {:induction false} TailLength(s: string)
    ensures |Tail(s)| == |s| % 8
    decreases |s|
  {
    if |s| >= 8 {
      TailLength(s[8..]);
    }
  }

  /** `k` zero bits. */
  function Zeros(k: nat): (z: string)
    ensures |z| == k
  {
    seq(k, _ => '0')
  }

  /** Fewer than eight bits, filled up with zero bits to a byte. */
  function Filled(t: string): Byte
    requires |t| < 8
  {
    EightBits(t + Zeros(8 - |t|));
    BitsValue(t + Zeros(8 - |t|))
  }

  /** The leftover bits, filled up with zero bits to a byte. */
  function LastByte(s: string): Byte {
    Filled(Tail(s))
  }

  /**
   * The bytes `compress` writes for the bit string `enc`: a byte per group
   * of eight bits, and one more for what is left, filled up with zero bits.
   */
  function Pack(enc: string): seq<Byte>
    decreases |enc|
  {
    if |enc| < 8 then [Filled(enc)] else [ByteOf(enc[..8])] + Pack(enc[8..])
  }

  /** The packed bytes are the complete groups followed by the last byte. */
  lemma {:induction false} PackSplit(enc: string)
    ensures Pack(enc) == Chunks(enc) + [LastByte(enc)]
    decreases |enc|
  {
    if |enc| >= 8 {
      PackSplit(enc[8..]);
      TailDrop(enc);
    }
  }

  /** One byte per complete group of eight bits, and one more. */
  lemma {:induction false} PackLength(enc: string)
    ensures |Pack(enc)| == |enc| / 8 + 1
    decreases |enc|
  {
    if |enc| >= 8 {
      PackLength(enc[8..]);
    }
  }

  /** Python's `v << k`. */
  function Shl(v: nat, k: nat): nat {
    if k == 0 then v else 2 * Shl(v, k - 1)
  }

  lemma {:induction false} ShlDouble(v: nat, k: nat)
    ensures Shl(2 * v, k) == Shl(v, k + 1)
    decreases k
  {
    if k > 0 {
      ShlDouble(v, k - 1);
    }
  }

  lemma {:induction false} ShlZero(k: nat)
    ensures Shl(0, k) == 0
  {
    if k > 0 {
      ShlZero(k - 1);
    }
  }

  /** Appending zero bits shifts the value left. */
  lemma {:induction false} ZerosValue(s: string, k: nat)
    ensures BitsValue(s + Zeros(k)) == Shl(BitsValue(s), k)
    decreases k
  {
    if k == 0 {
      assert s + Zeros(0) == s;
    } else {
      ZerosValue(s, k - 1);
      var t := s + Zeros(k);
      assert t[..|t| - 1] == s + Zeros(k - 1);
      assert t[|t| - 1] == '0';
    }
  }

  /** What `compress` returns: the packed bytes and the ring with its `padding` entry. */
  datatype Compressed = Compressed(bytes: seq<Byte>, ring: Ring)

  lemma {:induction false} ChunksAppend(a: string, b: string, groups: nat)
    requires |a| == 8 * groups
    ensures Chunks(a + b) == Chunks(a) + Chunks(b)
    decreases groups
  {
    if groups == 0 {
      assert a + b == b;
    } else {
      assert (a + b)[..8] == a[..8];
      assert (a + b)[8..] == a[8..] + b;
      ChunksAppend(a[8..], b, groups - 1);
    }
  }

  /** Eight more bits add one more byte, their value. */
  lemma ChunksStep(bits: string, groups: nat, buf: nat)
    requires 8 * groups + 8 <= |bits| && buf == BitsValue(bits[8 * groups..8 * groups + 8])
    ensures buf < 256
    ensures Chunks(bits[..8 * groups + 8]) == Chunks(bits[..8 * groups]) + [buf as Byte]
  {
    var j := 8 * groups;
    var b := bits[j..j + 8];
    EightBits(b);
    assert bits[..j + 8] == bits[..j] + b;
    ChunksAppend(bits[..j], b, groups);
    assert b[..8] == b && b[8..] == [];
  }

  /** After complete groups, the rest is the tail. */
  lemma {:induction false} TailAfterGroups(s: string, groups: nat)
    requires 8 * groups <= |s| < 8 * groups + 8
    ensures Tail(s) == s[8 * groups..]
    decreases groups
  {
    if groups > 0 {
      TailAfterGroups(s[8..], groups - 1);
      assert s[8..][8 * (groups - 1)..] == s[8 * groups..];
    }
  }

  /** One more bit doubles the value and adds the bit. */
  lemma BitsValueStep(bits: string, lo: nat, hi: nat)
    requires lo <= hi < |bits|
    ensures BitsValue(bits[lo..hi + 1]) == 2 * BitsValue(bits[lo..hi]) + Bit(bits[hi])
  {
    assert bits[lo..hi + 1][..hi - lo] == bits[lo..hi];
  }

  /** The padding entry does not disturb decoding: it is no bit string. */
  lemma PaddingKeepsDecodes(ring: Ring, codes: map<Byte, string>, padding: int)
    requires Decodes(ring, codes)
    requires forall b :: b in codes ==> Binary(codes[b])
    ensures Decodes(ring["padding" := padding], codes)
  {
    assert !Binary("padding") by {
      assert "padding"[0] == 'p';
    }
  }

  /**
   * `compress` (lines 152-195): an empty message fails inside `encode`;
   * otherwise the bytes are the complete groups of eight bits followed by the
   * leftover bits shifted to the top of one more byte, and the ring records
   * as padding the number of zero bits below them (8 when no bits are left over).
   * `enc` and `codes` are the values `encode` computes inside.
   */
  method Compress(msg: seq<Byte>) returns (r: Result<Compressed>, ghost enc: string, ghost codes: map<Byte, string>)
    ensures r.Err? <==> msg == []
    ensures r.Err? ==> r.error == IndexError
    ensures r.Ok? ==> IsCode(codes, msg) && Decodes(r.value.ring, codes)
    ensures r.Ok? ==> enc == EncodeWith(codes, msg) && r.value.bytes == Pack(enc)
    ensures r.Ok? ==> r.value.ring.Keys == codes.Values + {"padding"}
    ensures r.Ok? ==> "padding" in r.value.ring && r.value.ring["padding"] == 8 - |Tail(enc)|
    ensures r.Ok? ==> 1 <= r.value.ring["padding"] <= 8 && |r.value.bytes| == |enc| / 8 + 1
    ensures r.Ok? ==> (NoEmptyCode(codes) <==> |Alphabet(msg)| >= 2)
  {
    var encoded;
    encoded, codes := Encode(msg);
    if encoded.Err? {
      return Err(encoded.error), "", codes;
    }
    var bits := encoded.value.enc;
    enc := bits;
    var padding := 8 - (|bits| % 8) % 8;
    TailLength(bits);
    var ring: Ring := encoded.value.ring;
    PaddingKeepsDecodes(ring, codes, padding);
    ring := ring["padding" := padding];
    assert ring.Keys == encoded.value.ring.Keys + {"padding"};
    var compressed := PackBits(bits, padding);
    PackLength(bits);
    r := Ok(Compressed(compressed, ring));
  }

  /**
   * The loop of `compress` (lines 165-193) that collects the bits eight at a
   * time into bytes, and then shifts the last `8 - padding` bits to the top of
   * one more byte.
   */
  method PackBits(bits: string, padding: int) returns (compressed: seq<Byte>)
    requires padding == 8 - (|bits| % 8) % 8
    ensures compressed == Pack(bits)
  {
    compressed := [];
    var padding := padding;
    var buf: nat, count: nat := 0, 0;
    ghost var groups: nat := 0;
    for i := 0 to |bits|
      invariant i == 8 * groups + count && count < 8
      invariant compressed == Chunks(bits[..8 * groups])
      invariant buf == 2 * BitsValue(bits[8 * groups..i])
    {
      var byteVal := if bits[i] == '0' then 0x00 else 0x01;
      // `buf | byteVal`: `buf` is even here, so the `or` is an addition
      BitsValueStep(bits, 8 * groups, i);
      buf := buf + byteVal;
      count := count + 1;
      if count == 8 {
        ChunksStep(bits, groups, buf);
        compressed := compressed + [buf];
        buf, count := 0, 0;
        groups := groups + 1;
      } else {
        buf := buf * 2;
      }
    }
    assert bits[8 * groups..|bits|] == bits[8 * groups..];
    GroupsRemainder(|bits|, groups, count);
    PackLast(bits, groups, count, buf, compressed);
    padding := padding - 1;
    if padding > 0 {
      buf := Shl(buf, padding);
    }
    compressed := compressed + [buf];
  }

  /** After the loop: the last buffer, shifted into place, is the last byte, which completes the packing. */
  lemma PackLast(bits: string, groups: nat, count: nat, buf: nat, compressed: seq<Byte>)
    requires |bits| == 8 * groups + count && count < 8
    requires compressed == Chunks(bits[..8 * groups]) && buf == 2 * BitsValue(bits[8 * groups..])
    ensures (if 7 - count > 0 then Shl(buf, 7 - count) else buf) == LastByte(bits)
    ensures compressed + [LastByte(bits)] == Pack(bits)
  {
    TailAfterGroups(bits, groups);
    LastBuffer(bits[8 * groups..], buf);
    assert bits[..8 * groups] + bits[8 * groups..] == bits;
    ChunksAppend(bits[..8 * groups], bits[8 * groups..], groups);
    assert Chunks(bits[8 * groups..]) == [];
    PackSplit(bits);
  }

  lemma GroupsRemainder(n: nat, groups: nat, count: nat)
    requires n == 8 * groups + count && count < 8
    ensures (n % 8) % 8 == count
  {
  }

  /** The last buffer, shifted left by `7 - |t|`, is the byte `t` fills. */
  lemma LastBuffer(t: string, buf: nat)
    requires |t| < 8 && buf == 2 * BitsValue(t)
    ensures BitsValue(t + Zeros(8 - |t|)) == if 7 - |t| > 0 then Shl(buf, 7 - |t|) else buf
  {
    ZerosValue(t, 8 - |t|);
    ShlDouble(BitsValue(t), 7 - |t|);
  }

  /** `f'{byte:08b}'`: the low `width` bits of `v`, most significant first. */
  function ToBits(v: nat, width: nat): (s: string)
    ensures |s| == width
  {
    if width == 0 then [] else ToBits(v / 2, width - 1) + [if v % 2 == 0 then '0' else '1']
  }

  /** Python's `s[:k]`: a negative `k` counts from the end. */
  function SliceTo(s: string, k: int): string {
    if k >= 0 then (if k <= |s| then s[..k] else s)
    else if |s| + k >= 0 then s[..|s| + k]
    else []
  }

  /** The bits `decompress` reads: eight per byte, and only `8 - padding` of the last one. */
  function Unpack(bytes: seq<Byte>, padding: int): string
    decreases |bytes|
  {
    if bytes == [] then []
    else if |bytes| == 1 then SliceTo(ToBits(bytes[0], 8), 8 - padding)
    else ToBits(bytes[0], 8) + Unpack(bytes[1..], padding)
  }

  /**
   * `decompress` (lines 202-232): a ring without `padding` fails with a
   * `KeyError`; otherwise the unpacked bits are decoded with the ring.
   */
  method Decompress(msg: seq<Byte>, ring: Ring) returns (r: Result<seq<int>>)
    ensures "padding" !in ring ==> r == Err(KeyError)
    ensures "padding" in ring ==> r == Ok(DecodeFrom(ring, Unpack(msg, ring["padding"]), ""))
  {
    var dec := "";
    if "padding" !in ring {
      return Err(KeyError);
    }
    var padding := ring["padding"];
    var count := 1;
    for i := 0 to |msg|
      invariant count == i + 1
      invariant dec + Unpack(msg[i..], padding) == Unpack(msg, padding)
    {
      var binary := ToBits(msg[i], 8);
      assert msg[i..][0] == msg[i] && msg[i..][1..] == msg[i + 1..];
      if count != |msg| {
        dec := dec + binary;
      } else {
        dec := dec + SliceTo(binary, 8 - padding);
      }
      count := count + 1;
    }
    assert msg[|msg|..] == [];
    assert dec == Unpack(msg, padding);
    var decoded := Decode(dec, ring);
    assert decoded == DecodeFrom(ring, Unpack(msg, ring["padding"]), "");
    return Ok(decoded);
  }

  lemma {:induction false} ToBitsValue(s: string)
    requires Binary(s)
    ensures ToBits(BitsValue(s), |s|) == s
    decreases |s|
  {
    if s != [] {
      var init := s[..|s| - 1];
      ToBitsValue(init);
      ToBitsStep(BitsValue(init), s[|s| - 1], |init|);
      assert s == init + [s[|s| - 1]];
    }
  }

  /** Writing a value doubled plus one bit writes the value, then the bit. */
  lemma ToBitsStep(v: nat, c: char, width: nat)
    requires c == '0' || c == '1'
    ensures ToBits(2 * v + Bit(c), width + 1) == ToBits(v, width) + [c]
  {
    var w := 2 * v + Bit(c);
    assert w / 2 == v && w % 2 == Bit(c);
  }

  /** A lone byte unpacks to its first `8 - padding` bits. */
  lemma UnpackOne(full: string, k: nat)
    requires Binary(full) && |full| == 8 && k <= 8
    ensures BitsValue(full) < 256
    ensures Unpack([BitsValue(full) as Byte], 8 - k) == full[..k]
  {
    EightBits(full);
    ToBitsValue(full);
  }

  /** A bit string shorter than a byte packs into one byte and comes back out. */
  lemma UnpackShort(enc: string)
    requires Binary(enc) && |enc| < 8
    ensures Unpack(Pack(enc), 8 - |enc|) == enc
  {
    var full := enc + Zeros(8 - |enc|);
    assert Binary(full);
    UnpackOne(full, |enc|);
    assert Filled(enc) == BitsValue(full);
    assert full[..|enc|] == enc;
  }

  /** The first eight bits do not change the leftover bits. */
  lemma TailDrop(enc: string)
    requires |enc| >= 8
    ensures Tail(enc) == Tail(enc[8..])
  {
  }

  /** The bits a message packs into come back out. */
  lemma {:induction false} UnpackPack(enc: string)
    requires Binary(enc)
    ensures Unpack(Pack(enc), 8 - |Tail(enc)|) == enc
    decreases |enc|
  {
    if |enc| < 8 {
      UnpackShort(enc);
    } else {
      assert Binary(enc[8..]) && Binary(enc[..8]);
      UnpackPack(enc[8..]);
      UnpackPackStep(enc);
    }
  }

  /** If the bits after the first byte come back out, so do all of them. */
  lemma UnpackPackStep(enc: string)
    requires |enc| >= 8 && Binary(enc[..8])
    requires Unpack(Pack(enc[8..]), 8 - |Tail(enc[8..])|) == enc[8..]
    ensures Unpack(Pack(enc), 8 - |Tail(enc)|) == enc
  {
    var bytes := Pack(enc[8..]);
    TailDrop(enc);
    UnpackFirst(enc, Pack(enc), bytes, 8 - |Tail(enc[8..])|);
  }

  /** Bytes that start with the first eight bits of `enc` unpack to those bits, then the rest. */
  lemma UnpackFirst(enc: string, all: seq<Byte>, bytes: seq<Byte>, padding: int)
    requires |enc| >= 8 && Binary(enc[..8])
    requires bytes != [] && all == [ByteOf(enc[..8])] + bytes
    requires Unpack(bytes, padding) == enc[8..]
    ensures Unpack(all, padding) == enc
  {
    var head := enc[..8];
    ToBitsValue(head);
    assert all[1..] == bytes;
    assert enc == head + enc[8..];
  }

  lemma {:induction false} EncodeWithBinary(codes: map<Byte, string>, msg: seq<Byte>)
    requires forall b :: b in msg ==> b in codes && Binary(codes[b])
    ensures Binary(EncodeWith(codes, msg))
    decreases |msg|
  {
    if msg != [] {
      EncodeWithBinary(codes, msg[1..]);
    }
  }

  /**
   * Decompressing what `compress` wrote gives the message back, when the
   * message has at least two distinct bytes.
   */
  lemma RoundTrip(msg: seq<Byte>, codes: map<Byte, string>, enc: string, c: Compressed)
    requires IsCode(codes, msg) && Decodes(c.ring, codes)
    requires enc == EncodeWith(codes, msg) && c.bytes == Pack(enc)
    requires "padding" in c.ring && c.ring["padding"] == 8 - |Tail(enc)|
    requires |Alphabet(msg)| >= 2
    requires NoEmptyCode(codes) <==> |Alphabet(msg)| >= 2
    ensures DecodeFrom(c.ring, Unpack(c.bytes, c.ring["padding"]), "") == msg
  {
    CodeDecodes(c.ring, codes, msg);
    UnpackPack(enc);
    DecodeSame(c.ring, Unpack(c.bytes, c.ring["padding"]), enc, msg);
  }

  lemma DecodeSame(ring: Ring, bits: string, enc: string, msg: seq<Byte>)
    requires bits == enc && DecodeFrom(ring, enc, "") == msg
    ensures DecodeFrom(ring, bits, "") == msg
  {
  }

  /** Decoding the bit string of a code with no empty word gives the message back. */
  lemma CodeDecodes(ring: Ring, codes: map<Byte, string>, msg: seq<Byte>)
    requires IsCode(codes, msg) && Decodes(ring, codes)
    requires NoEmptyCode(codes)
    ensures Binary(EncodeWith(codes, msg))
    ensures DecodeFrom(ring, EncodeWith(codes, msg), "") == msg
  {
    EncodeWithBinary(codes, msg);
    DecodeEncode(ring, codes, msg);
  }

  /**
   * A message of one repeated byte compresses to the single byte 0 with
   * padding 8, and decompresses to nothing.
   */
  lemma OneByteLost(msg: seq<Byte>, codes: map<Byte, string>, enc: string, c: Compressed)
    requires IsCode(codes, msg) && msg != []
    requires enc == EncodeWith(codes, msg) && c.bytes == Pack(enc)
    requires "padding" in c.ring && c.ring["padding"] == 8 - |Tail(enc)|
    requires |Alphabet(msg)| == 1
    requires NoEmptyCode(codes) <==> |Alphabet(msg)| >= 2
    ensures c.bytes == [0] && c.ring["padding"] == 8
    ensures DecodeFrom(c.ring, Unpack(c.bytes, c.ring["padding"]), "") == []
  {
    var b :| b in codes && codes[b] == [];
    forall x | x in msg ensures x == b {
      assert x in Alphabet(msg) && b in Alphabet(msg);
      assert |Alphabet(msg) - {x}| == 0;
    }
    OneByteEncodesEmpty(codes, msg, b);
    assert Tail(enc) == [];
    assert [] + Zeros(8) == Zeros(8);
    ZerosValue([], 8);
    ShlZero(8);
    assert c.bytes == [0];
    assert SliceTo(ToBits(0, 8), 0) == [];
  }
}
