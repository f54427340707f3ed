/**
 * Turning a message into its Huffman bit string and back
 * (a4/huffman.py, `encode` at lines 92-123 and `decode` at lines 130-142).
 * Bit strings are strings of the characters `0` and `1`.
 */
module HuffmanCodec {
  import opened Outcomes
  import opened HuffmanTree

  /** The decoder ring: a code, or the key `padding`, mapped to its value. */
  type Ring = map<string, int>

  /** What `encode` returns: the bit string and the ring from code to byte. */
  datatype Encoded = Encoded(enc: string, ring: map<string, Byte>)

  /** The codes of the bytes of `msg`, one after the other. */
  function EncodeWith(codes: map<Byte, string>, msg: seq<Byte>): string
    requires forall b :: b in msg ==> b in codes
  {
    if msg == [] then [] else codes[msg[0]] + EncodeWith(codes, msg[1..])
  }

  lemma {:induction false} EncodeWithSnoc(codes: map<Byte, string>, msg: seq<Byte>, b: Byte)
    requires forall c :: c in msg ==> c in codes
    requires b in codes
    ensures EncodeWith(codes, msg + [b]) == EncodeWith(codes, msg) + codes[b]
    decreases |msg|
  {
    if msg == [] {
      assert [b][1..] == [];
    } else {
      assert (msg + [b])[1..] == msg[1..] + [b];
      EncodeWithSnoc(codes, msg[1..], b);
    }
  }

  /** `codes` is a binary prefix-free code for exactly the bytes of `msg`. */
  ghost predicate IsCode(codes: map<Byte, string>, msg: seq<Byte>) {
    && (forall b :: b in codes <==> b in msg)
    && (forall b :: b in codes ==> Binary(codes[b]))
    && PrefixFree(codes)
  }

  /** `ring` takes every code back to its byte, and every bit string it knows is a code. */
  ghost predicate Decodes(ring: Ring, codes: map<Byte, string>) {
    && (forall b :: b in codes ==> codes[b] in ring && ring[codes[b]] == b)
    && (forall w :: w in ring && Binary(w) ==>
          0 <= ring[w] < 256 && ring[w] as Byte in codes && codes[ring[w] as Byte] == w)
  }

  /**
   * The loop of `encode` that builds the ring (lines 111-114). The source
   * walks the dictionary in its insertion order; here the keys are taken in
   * any order, which matters only when two bytes share a code.
   */
  method InvertCodes(codes: map<Byte, string>) returns (ring: map<string, Byte>)
    ensures forall w :: w in ring ==> ring[w] in codes && codes[ring[w]] == w
    ensures forall b :: b in codes ==> codes[b] in ring
    ensures Injective(codes) ==> forall b :: b in codes ==> ring[codes[b]] == b
    ensures ring.Keys == codes.Values
  {
    ring := map[];
    var remaining := codes.Keys;
    while remaining != {}
      invariant remaining <= codes.Keys
      invariant forall w :: w in ring ==> ring[w] in codes && codes[ring[w]] == w
      invariant forall b :: b in codes && b !in remaining ==> codes[b] in ring
      decreases remaining
    {
      var key :| key in remaining;
      ring := ring[codes[key] := key];
      remaining := remaining - {key};
    }
  }

  /** No two bytes share a code. */
  ghost predicate Injective(codes: map<Byte, string>) {
    forall a, b :: a in codes && b in codes && codes[a] == codes[b] ==> a == b
  }

  lemma PrefixFreeInjective(codes: map<Byte, string>)
    requires PrefixFree(codes)
    ensures Injective(codes)
  {
    forall a, b | a in codes && b in codes && codes[a] == codes[b] ensures a == b {
      assert codes[a][..|codes[a]|] == codes[a];
      assert IsPrefix(codes[a], codes[b]);
    }
  }

  /** A ring built by `InvertCodes` from a binary prefix-free code decodes it. */
  lemma InvertedDecodes(codes: map<Byte, string>, ring: map<string, Byte>)
    requires PrefixFree(codes)
    requires forall w :: w in ring ==> ring[w] in codes && codes[ring[w]] == w
    requires forall b :: b in codes ==> codes[b] in ring
    requires Injective(codes) ==> forall b :: b in codes ==> ring[codes[b]] == b
    ensures Decodes(ring, codes)
  {
    PrefixFreeInjective(codes);
  }

  /**
   * `encode` (lines 92-123): an empty message fails at `tree[0]`; otherwise
   * the bit string is the concatenated codes of the message under a binary
   * prefix-free code for its bytes, and the ring decodes that code. The codes
   * are all non-empty exactly when the message has two distinct bytes or more.
   * `codes` is the dictionary the source keeps to itself.
   */
  method Encode(msg: seq<Byte>) returns (r: Result<Encoded>, ghost codes: map<Byte, string>)
    ensures r.Err? <==> msg == []
    ensures r.Err? ==> r.error == IndexError
    ensures r.Ok? ==> IsCode(codes, msg) && Decodes(r.value.ring, codes)
    ensures r.Ok? ==> r.value.enc == EncodeWith(codes, msg) && r.value.ring.Keys == codes.Values
    ensures r.Ok? ==> (NoEmptyCode(codes) <==> |Alphabet(msg)| >= 2)
  {
    var heap := LetterFreq(msg);
    var tree := WTreeNode(heap);
    if |tree| == 0 {
      codes := map[];
      return Err(IndexError), codes;
    }
    var root := TreeNode(tree[0]);
    var table := GetCodes(root, map[], "");
    codes := table;
    TreeFacts(msg, heap, tree, root, table);
    var ring := InvertCodes(table);
    InvertedDecodes(table, ring);
    var enc := EncodeBits(msg, table);
    r := Ok(Encoded(enc, ring));
  }

  /** The loop of `encode` that writes the code of each byte of the message in turn (lines 119-121). */
  method EncodeBits(msg: seq<Byte>, table: map<Byte, string>) returns (enc: string)
    requires forall b :: b in msg ==> b in table
    ensures enc == EncodeWith(table, msg)
  {
    enc := "";
    for i := 0 to |msg|
      invariant enc == EncodeWith(table, msg[..i])
    {
      assert msg[..i + 1] == msg[..i] + [msg[i]];
      EncodeWithSnoc(table, msg[..i], msg[i]);
      enc := enc + table[msg[i]];
    }
    assert msg[..|msg|] == msg;
  }

  /** What the tree built from a non-empty message gives its code table. */
  lemma TreeFacts(msg: seq<Byte>, heap: seq<WTree>, tree: seq<WTree>, root: Tree, codes: map<Byte, string>)
    requires Syms(heap) == multiset(Alphabet(msg))
    requires |tree| == 1 && Syms(tree) == Syms(heap)
    requires root == TreeNode(tree[0])
    requires codes == map[] + CodeTable(root, "")
    ensures IsCode(codes, msg)
    ensures NoEmptyCode(codes) <==> |Alphabet(msg)| >= 2
  {
    assert tree[1..] == [];
    assert multiset(Leaves(root)) == multiset(Alphabet(msg));
    EmptyUnion(CodeTable(root, ""));
    RootCode(root, msg);
    RootCodesNonEmpty(root, msg);
  }

  lemma EmptyUnion(m: map<Byte, string>)
    ensures map[] + m == m
  {
  }

  /** No byte has the empty bit string for its code. */
  ghost predicate NoEmptyCode(codes: map<Byte, string>) {
    forall b :: b in codes ==> codes[b] != []
  }

  /** The code table of a tree holding each byte of the message once is a binary prefix-free code for it. */
  lemma RootCode(root: Tree, msg: seq<Byte>)
    requires multiset(Leaves(root)) == multiset(Alphabet(msg))
    ensures IsCode(CodeTable(root, ""), msg)
  {
    var codes := CodeTable(root, "");
    CodeTableShape(root, "");
    forall b ensures multiset(Leaves(root))[b] <= 1 {
    }
    CodeTablePrefixFree(root, "");
    forall b | b in codes ensures Binary(codes[b]) {
      assert codes[b][|""|..] == codes[b];
    }
    forall b ensures b in codes <==> b in msg {
      assert b in Leaves(root) <==> b in multiset(Leaves(root));
      assert b in Alphabet(msg) <==> b in msg;
    }
  }

  /** Every code is non-empty exactly when the tree is more than one leaf, that is, two distinct bytes or more. */
  lemma RootCodesNonEmpty(root: Tree, msg: seq<Byte>)
    requires multiset(Leaves(root)) == multiset(Alphabet(msg))
    ensures NoEmptyCode(CodeTable(root, "")) <==> |Alphabet(msg)| >= 2
  {
    var codes := CodeTable(root, "");
    assert |Leaves(root)| == |multiset(Alphabet(msg))| == |Alphabet(msg)|;
    if root.Leaf? {
      assert Leaves(root) == [root.sym];
      assert |Alphabet(msg)| == 1;
      assert codes == map[root.sym := ""];
      assert !NoEmptyCode(codes) by {
        assert root.sym in codes && codes[root.sym] == [];
      }
    } else {
      CodeTableShape(root, "");
      assert |Leaves(root)| >= 2 by {
        LeavesNonEmpty(root.left);
        LeavesNonEmpty(root.right);
      }
      assert |Alphabet(msg)| >= 2;
      forall b | b in codes ensures codes[b] != [] {
        assert |codes[b]| > 0;
      }
    }
  }


  lemma LeavesNonEmpty(t: Tree)
    ensures |Leaves(t)| >= 1
  {
  }

  /**
   * `decode` (lines 130-142): the bits read since the last match, with one
   * more bit, are looked up in the ring; a hit emits its value and starts
   * afresh. Bits left over at the end are dropped.
   */
  function DecodeFrom(ring: Ring, bits: string, pending: string): seq<int>
    decreases |bits|
  {
    if bits == [] then []
    else
      var s := pending + [bits[0]];
      if s in ring then [ring[s]] + DecodeFrom(ring, bits[1..], "")
      else DecodeFrom(ring, bits[1..], s)
  }

  method Decode(msg: string, ring: Ring) returns (dec: seq<int>)
    ensures dec == DecodeFrom(ring, msg, "")
  {
    dec := [];
    var substring := "";
    for i := 0 to |msg|
      invariant dec + DecodeFrom(ring, msg[i..], substring) == DecodeFrom(ring, msg, "")
    {
      assert msg[i..][1..] == msg[i + 1..];
      substring := substring + [msg[i]];
      if substring in ring {
        dec := dec + [ring[substring]];
        substring := "";
      }
    }
  }

  /** A proper prefix of a code is no code, in a prefix-free code. */
  lemma ProperPrefixNoCode(codes: map<Byte, string>, b: Byte, s: string)
    requires PrefixFree(codes) && b in codes
    requires |s| < |codes[b]| && s == codes[b][..|s|]
    ensures forall a :: a in codes ==> codes[a] != s
  {
    forall a | a in codes ensures codes[a] != s {
      if a != b {
        assert !IsPrefix(codes[a], codes[b]);
      }
    }
  }

  /** Reading the rest of a code, after its first `k` bits, emits its byte. */
  lemma {:induction false} DecodeOne(ring: Ring, codes: map<Byte, string>, b: Byte, k: nat, rest: string)
    requires Decodes(ring, codes) && PrefixFree(codes)
    requires b in codes && Binary(codes[b]) && k < |codes[b]|
    ensures DecodeFrom(ring, codes[b][k..] + rest, codes[b][..k]) == [b] + DecodeFrom(ring, rest, "")
    decreases |codes[b]| - k
  {
    var c := codes[b];
    var bits := c[k..] + rest;
    assert bits[0] == c[k] && bits[1..] == c[k + 1..] + rest;
    var s := c[..k] + [c[k]];
    assert s == c[..k + 1];
    if k + 1 == |c| {
      assert s == c;
    } else {
      ProperPrefixNoCode(codes, b, s);
      assert Binary(s);
      assert s !in ring;
      DecodeOne(ring, codes, b, k + 1, rest);
    }
  }

  /**
   * Decoding inverts encoding when no code is empty: with a prefix-free code,
   * the first code that the bits spell out is the one that was written.
   */
  lemma {:induction false} DecodeEncode(ring: Ring, codes: map<Byte, string>, msg: seq<Byte>)
    requires Decodes(ring, codes) && PrefixFree(codes)
    requires forall b :: b in codes ==> Binary(codes[b]) && codes[b] != []
    requires forall b :: b in msg ==> b in codes
    ensures DecodeFrom(ring, EncodeWith(codes, msg), "") == msg
    decreases |msg|
  {
    if msg != [] {
      var c := codes[msg[0]];
      var rest := EncodeWith(codes, msg[1..]);
      DecodeOne(ring, codes, msg[0], 0, rest);
      assert c[0..] == c && c[..0] == "";
      DecodeEncode(ring, codes, msg[1..]);
      assert msg == [msg[0]] + msg[1..];
    }
  }

  /**
   * With one distinct byte its code is the empty string, so the bit string
   * is empty and nothing of the message survives.
   */
  lemma {:induction false} OneByteEncodesEmpty(codes: map<Byte, string>, msg: seq<Byte>, b: Byte)
    requires forall x :: x in msg ==> x == b
    requires b in codes && codes[b] == []
    ensures EncodeWith(codes, msg) == []
    decreases |msg|
  {
    if msg != [] {
      assert msg[0] in msg;
      assert forall x :: x in msg[1..] ==> x in msg;
      OneByteEncodesEmpty(codes, msg[1..], b);
      assert codes[msg[0]] + EncodeWith(codes, msg[1..]) == [];
    }
  }
}
