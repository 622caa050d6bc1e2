/**
 cHasher on 32-bit words: what it computes, which changes of the data it is sure to notice and
 which it cannot notice.
 */
module Hashers {
  import opened RotateXor

  /** Rotation to the left by one bit, as the source writes it. */
  function Rotate1(x: bv32): bv32
  {
    (x << 1) | (x >> 31)
  }

  function Xor(x: bv32, y: bv32): bv32
  {
    x ^ y
  }

  function Bits(): Ops<bv32>
  {
    Ops(Rotate1, Xor, 0)
  }

  /** What merging the words, first to last, leaves in a hasher that held value. */
  function Hash(value: bv32, words: seq<bv32>): bv32
  {
    MergeAll(Bits(), value, words)
  }

  // ---------------------------------------------------------------- the laws hold

  lemma XorAssociates(x: bv32, y: bv32, z: bv32)
    ensures (x ^ y) ^ z == x ^ (y ^ z)
  {
  }

  lemma XorCancelsItself(x: bv32, y: bv32)
    ensures x ^ y == y ^ x && x ^ x == 0 && x ^ 0 == x
  {
  }

  lemma RotationOfXor(x: bv32, y: bv32)
    ensures Rotate1(x ^ y) == Rotate1(x) ^ Rotate1(y)
  {
  }

  lemma RotationOfZero(x: bv32)
    ensures Rotate1(0) == 0 && (Rotate1(x) == 0 ==> x == 0)
  {
  }

  /** Every bit moves one place up, and the top one to the bottom. */
  lemma RotationMovesUp(x: bv32)
    ensures Rotate1(x) >> 1 == x & 0x7FFF_FFFF && Rotate1(x) & 1 == x >> 31
  {
  }

  /** A group of bits moved from the top to the bottom. */
  lemma ShiftLaws(x: bv32)
    ensures var a := Rotate1(x); var b := Rotate1(a); var c := Rotate1(b); Rotate1(c) == (x << 4) | (x >> 28)
    ensures var a := (x << 4) | (x >> 28);
            var b := (a << 4) | (a >> 28);
            var c := (b << 4) | (b >> 28);
            var d := (c << 4) | (c >> 28);
            d == (x << 16) | (x >> 16)
    ensures var a := (x << 16) | (x >> 16); (a << 16) | (a >> 16) == x
  {
  }

  lemma FourRotations(o: Ops<bv32>, x: bv32)
    requires o.rot == Rotate1
    ensures Rotate(o, x, 4) == (x << 4) | (x >> 28)
  {
    ShiftLaws(x);
    var a := Rotate1(x);
    var b := Rotate1(a);
    var c := Rotate1(b);
    assert Rotate(o, x, 0) == x;
    assert Rotate(o, x, 1) == a;
    assert Rotate(o, x, 2) == b;
    assert Rotate(o, x, 3) == c;
  }

  lemma FullTurn(o: Ops<bv32>, x: bv32)
    requires o.rot == Rotate1
    ensures Rotate(o, x, 32) == x
  {
    SixteenRotations(o, x);
    SixteenRotations(o, Rotate(o, x, 16));
    RotateAdds(o, x, 16, 16);
    ShiftLaws(x);
  }

  lemma SixteenRotations(o: Ops<bv32>, x: bv32)
    requires o.rot == Rotate1
    ensures Rotate(o, x, 16) == (x << 16) | (x >> 16)
  {
    var a := Rotate(o, x, 4);
    var b := Rotate(o, a, 4);
    var c := Rotate(o, b, 4);
    FourRotations(o, x);
    FourRotations(o, a);
    FourRotations(o, b);
    FourRotations(o, c);
    RotateAdds(o, x, 4, 4);
    RotateAdds(o, x, 8, 4);
    RotateAdds(o, x, 12, 4);
    ShiftLaws(x);
  }

  lemma XorObeysLaws(o: Ops<bv32>, x: bv32, y: bv32, z: bv32)
    requires o.xor == Xor && o.zero == 0
    ensures o.xor(x, y) == o.xor(y, x) && o.xor(o.xor(x, y), z) == o.xor(x, o.xor(y, z))
    ensures o.xor(x, o.zero) == x && o.xor(x, x) == o.zero
  {
    XorAssociates(x, y, z);
    XorCancelsItself(x, y);
  }

  lemma RotationObeysLaws(o: Ops<bv32>, x: bv32, y: bv32)
    requires o.rot == Rotate1 && o.xor == Xor && o.zero == 0
    ensures o.rot(o.xor(x, y)) == o.xor(o.rot(x), o.rot(y))
    ensures o.rot(o.zero) == o.zero && (o.rot(x) == o.zero ==> x == o.zero)
  {
    RotationOfXor(x, y);
    RotationOfZero(x);
  }

  lemma BitsObeyLaw(o: Ops<bv32>, x: bv32, y: bv32, z: bv32)
    requires o.rot == Rotate1 && o.xor == Xor && o.zero == 0
    ensures Law(o, x, y, z)
  {
    XorObeysLaws(o, x, y, z);
    RotationObeysLaws(o, x, y);
    FullTurn(o, x);
  }

  lemma BitsObeyLaws()
    ensures Laws(Bits())
  {
    forall x, y, z
      ensures Law(Bits(), x, y, z)
    {
      BitsObeyLaw(Bits(), x, y, z);
    }
  }

  // ---------------------------------------------------------------- what the hash notices

  /** The hash of n words is the xor of each word rotated by its distance from the end modulo 32. */
  lemma HashIsRotatedXor(words: seq<bv32>)
    ensures Hash(0, words) == RotatedXor(Bits(), words, 0)
  {
    BitsObeyLaws();
    ClosedForm(Bits(), 0, words);
    RotateOfZero(Bits(), 0, |words|);
    var r := RotatedXor(Bits(), words, 0);
    assert Law(Bits(), 0, r, r) && Law(Bits(), r, r, r);
  }

  /** Streams of equal length that differ in exactly one word always hash differently. */
  lemma OneWordMatters(value: bv32, words: seq<bv32>, k: nat, x: bv32)
    requires k < |words| && words[k] != x
    ensures Hash(value, words) != Hash(value, words[k := x])
  {
    BitsObeyLaws();
    OneChangeIsNoticed(Bits(), value, words, k, x);
  }

  /** Exchanging two words a multiple of 32 places apart never changes the hash. */
  lemma ExchangeGoesUnnoticed(value: bv32, words: seq<bv32>, k: nat, l: nat)
    requires k < l < |words| && (l - k) % 32 == 0
    ensures Hash(value, words) == Hash(value, words[k := words[l]][l := words[k]])
  {
    BitsObeyLaws();
    ExchangeIsNotNoticed(Bits(), value, words, k, l);
  }

  // ---------------------------------------------------------------- wider and narrower data

  function Low(x: bv64): bv32
  {
    (x & 0xFFFF_FFFF) as bv32
  }

  function High(x: bv64): bv32
  {
    (x >> 32) as bv32
  }

  /** Four bytes, the first one lowest; missing ones count as zero. */
  function Word(bytes: seq<bv8>): bv32
  {
    (if |bytes| > 0 then bytes[0] as bv32 else 0)
    | ((if |bytes| > 1 then bytes[1] as bv32 else 0) << 8)
    | ((if |bytes| > 2 then bytes[2] as bv32 else 0) << 16)
    | ((if |bytes| > 3 then bytes[3] as bv32 else 0) << 24)
  }

  /** The words that a block of bytes contributes. */
  function Words(bytes: seq<bv8>): seq<bv32>
  {
    if |bytes| == 0 then [] else if |bytes| < 4 then [Word(bytes)] else [Word(bytes[..4])] + Words(bytes[4..])
  }

  /** A wide value is its two words, the low one being first in line. */
  lemma WordsOfLong(x: bv64)
    ensures x == ((High(x) as bv64) << 32) | (Low(x) as bv64)
  {
  }

  /** Byte i of up to four is byte i of the word from the bottom, and the rest of the word is zero. */
  lemma BytesOfWord(bytes: seq<bv8>)
    requires 0 < |bytes| <= 4
    ensures Word(bytes) & 0xFF == bytes[0] as bv32
    ensures (Word(bytes) >> 8) & 0xFF == if |bytes| > 1 then bytes[1] as bv32 else 0
    ensures (Word(bytes) >> 16) & 0xFF == if |bytes| > 2 then bytes[2] as bv32 else 0
    ensures (Word(bytes) >> 24) & 0xFF == if |bytes| > 3 then bytes[3] as bv32 else 0
  {
  }

  /** Word i of a block is made of the four bytes from 4 * i on, or as many as are left. */
  lemma {:induction false} WordAt(bytes: seq<bv8>, i: nat)
    ensures i < |Words(bytes)| <==> 4 * i < |bytes|
    ensures 4 * i < |bytes| ==>
              i < |Words(bytes)|
              && Words(bytes)[i] == Word(bytes[4 * i..if 4 * i + 4 <= |bytes| then 4 * i + 4 else |bytes|])
    decreases |bytes|
  {
    if |bytes| < 4 {
      assert i == 0 && 0 < |bytes| ==> bytes[0..|bytes|] == bytes;
    } else if i > 0 {
      var rest := bytes[4..];
      WordAt(rest, i - 1);
      if 4 * i < |bytes| {
        var to := if 4 * i + 4 <= |bytes| then 4 * i + 4 else |bytes|;
        SliceOfTail(bytes, 4, 4 * (i - 1), to - 4);
      }
    }
  }

  lemma SliceOfTail(bytes: seq<bv8>, k: nat, a: nat, b: nat)
    requires a <= b && k + b <= |bytes|
    ensures bytes[k..][a..b] == bytes[k + a..k + b]
  {
  }

  lemma ZeroByteAdded(bytes: seq<bv8>)
    requires 0 < |bytes| < 4
    ensures Word(bytes + [0]) == Word(bytes)
  {
  }

  /** A block whose length is not a multiple of four hashes like the same block with a zero byte
      added. */
  lemma {:induction false} TrailingZeroIsNotNoticed(bytes: seq<bv8>)
    requires |bytes| % 4 != 0
    ensures Words(bytes + [0]) == Words(bytes)
  {
    if |bytes| < 4 {
      ZeroByteAdded(bytes);
      if |bytes| == 3 {
        assert (bytes + [0])[..4] == bytes + [0] && (bytes + [0])[4..] == [];
      }
    } else {
      assert (bytes + [0])[..4] == bytes[..4] && (bytes + [0])[4..] == bytes[4..] + [0];
      TrailingZeroIsNotNoticed(bytes[4..]);
    }
  }

  class Hasher {
    var value: bv32
    ghost var words: seq<bv32>  // everything added since the last reset

    ghost predicate Valid()
      reads this
    {
      value == Hash(0, words)
    }

    constructor ()
      ensures Valid() && words == []
    {
      value, words := 0, [];
    }

    method Reset()
      modifies this
      ensures Valid() && words == []
    {
      value, words := 0, [];
    }

    /** Adding any 32-bit or narrower value. */
    method AddWord(x: bv32)
      requires Valid()
      modifies this
      ensures Valid() && words == old(words) + [x]
    {
      value := ((value << 1) | (value >> 31)) ^ x;
      words := words + [x];
      assert words[..|words| - 1] == old(words);
    }

    /** Adding a 64-bit value is adding its low word and then its high word. */
    method AddLong(x: bv64)
      requires Valid()
      modifies this
      ensures Valid() && words == old(words) + [Low(x), High(x)]
    {
      AddWord((x & 0xFFFF_FFFF) as bv32);
      AddWord((x >> 32) as bv32);
    }

    /** Adding a block of bytes, four at a time. */
    method AddBytes(bytes: seq<bv8>)
      requires Valid()
      modifies this
      ensures Valid() && words == old(words) + Words(bytes)
    {
      var p := 0;
      while |bytes| - p >= 4
        invariant 0 <= p <= |bytes| && Valid()
        invariant words + Words(bytes[p..]) == old(words) + Words(bytes)
        decreases |bytes| - p
      {
        assert bytes[p..][..4] == bytes[p..p + 4] && bytes[p..][4..] == bytes[p + 4..];
        AddWord(Word(bytes[p..p + 4]));
        p := p + 4;
      }
      if p < |bytes| {
        AddWord(Word(bytes[p..]));
      }
    }
  }
}
