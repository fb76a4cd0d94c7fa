/** MurmurHash3, x86 32-bit variant (Austin Appleby's public reference
    algorithm, MurmurHash3_x86_32), and the source's port of it.

    The reference is defined first, on 32-bit words: every multiplication,
    shift and addition is reduced modulo 2^32. The port (method Murmur3)
    works, like the source, on unbounded integers: it never reduces after a
    multiplication, a left shift or an addition, only before each right
    shift (`x & 0xffffffff`) and at the very end. Its postcondition says that
    it nevertheless computes the reference hash. */
module Murmur3 {
  import opened Bits

  const M: nat := 0x1_0000_0000

  type U32 = x: nat | x < 0x1_0000_0000
  type Byte = x: nat | x < 0x100

  const C1: nat := 0xcc9e2d51
  const C2: nat := 0x1b873593

  // ---------------------------------------------------------------------------
  // The reference algorithm on 32-bit words

  function Mul32(a: U32, c: nat): U32 { (a * c) % M }

  function Xor32(a: U32, b: U32): U32
  {
    Pow2Values();
    BitwiseBound(XorOp, a, b, 32);
    Xor(a, b)
  }

  /** ROTL32(x, r) = (x << r) | (x >> (32 - r)) on 32 bits. */
  function Rotl32(x: U32, r: nat): U32
    requires 0 < r < 32
  {
    Pow2Values();
    ShrBound(x, 32 - r);
    BitwiseBound(OrOp, (x * Pow2(r)) % M, x / Pow2(32 - r), 32);
    Or((x * Pow2(r)) % M, x / Pow2(32 - r))
  }

  /** The scrambling of one 32-bit block: k *= c1; k = ROTL32(k, 15); k *= c2. */
  function MixK(k: U32): U32 { Mul32(Rotl32(Mul32(k, C1), 15), C2) }

  /** Folding a scrambled block into the state: h ^= k; h = ROTL32(h, 13); h = h * 5 + 0xe6546b64. */
  function MixH(h: U32, k: U32): U32 { MulAdd(Rotl32(Xor32(h, k), 13)) }

  /** h * 5 + 0xe6546b64 on 32 bits. */
  function MulAdd(h: U32): U32 { (h * 5 + 0xe6546b64) % M }

  /** Block j, read little-endian: byte 4j is the lowest. */
  function Block(bytes: seq<Byte>, j: nat): U32
    requires 4 * j + 4 <= |bytes|
  {
    var b0: nat, b1: nat, b2: nat, b3: nat := bytes[4 * j], bytes[4 * j + 1], bytes[4 * j + 2], bytes[4 * j + 3];
    b0 + 0x100 * b1 + 0x1_0000 * b2 + 0x100_0000 * b3
  }

  /** The state after the first n blocks. */
  function Body(bytes: seq<Byte>, seed: U32, n: nat): U32
    requires 4 * n <= |bytes|
  {
    if n == 0 then seed else MixH(Body(bytes, seed, n - 1), MixK(Block(bytes, n - 1)))
  }

  /** The 0 to 3 bytes after the last whole block, read little-endian. */
  function TailWord(bytes: seq<Byte>): U32
  {
    var t, r := |bytes| / 4 * 4, |bytes| % 4;
    (if r == 3 then 0x1_0000 * (bytes[t + 2] as nat) else 0)
    + (if r >= 2 then 0x100 * (bytes[t + 1] as nat) else 0)
    + (if r >= 1 then bytes[t] as nat else 0)
  }

  /** The final avalanche. */
  function FMix(h: U32): U32
  {
    var h1 := Xor32(h, h / 0x1_0000);
    var h2 := Mul32(h1, 0x85ebca6b);
    var h3 := Xor32(h2, h2 / 0x2000);
    var h4 := Mul32(h3, 0xc2b2ae35);
    Xor32(h4, h4 / 0x1_0000)
  }

  /** MurmurHash3_x86_32 of a byte string shorter than 2^32 bytes. */
  function Hash(bytes: seq<Byte>, seed: U32): U32
    requires |bytes| < M
  {
    var h := Body(bytes, seed, |bytes| / 4);
    var h' := if |bytes| % 4 == 0 then h else Xor32(h, MixK(TailWord(bytes)));
    FMix(Xor32(h', |bytes|))
  }

  // ---------------------------------------------------------------------------
  // What the source's port computes

  /** The low byte of each of the first n character codes. */
  function Low8(data: seq<nat>, n: nat): (bytes: seq<Byte>)
    requires n <= |data|
    ensures |bytes| == n
    ensures forall i :: 0 <= i < n ==> bytes[i] == data[i] % 0x100
  {
    if n == 0 then [] else Low8(data, n - 1) + [data[n - 1] % 0x100]
  }

  /** The little-endian word of the low bytes of the codes at i to i + 3. */
  function Word(data: seq<nat>, i: nat): U32
    requires i + 4 <= |data|
  {
    data[i] % 0x100 + 0x100 * (data[i + 1] % 0x100)
    + 0x1_0000 * (data[i + 2] % 0x100) + 0x100_0000 * (data[i + 3] % 0x100)
  }

  /** The hash the port returns: MurmurHash3_x86_32 of the low bytes of the
      character codes. The port reads the length only through `& 0xfffffffc`,
      `& 0x03` and a final reduction, so of an input of 2^32 or more codes it
      hashes the first |data| mod 2^32. */
  function HashOfCodes(data: seq<nat>, seed: nat): U32
  {
    Hash(Low8(data, |data| % M), seed % M)
  }

  /** The port: the source's statements, on unbounded integers. The block
      loop, the tail, and within them the block scrambling, the state update
      and the avalanche, which the source writes inline, are the methods
      below. */
  method Murmur3(data: seq<nat>, seed: nat := 0) returns (h: U32)
    ensures h == HashOfCodes(data, seed)
  {
    var length: nat := |data|;
    var h1: nat := seed;
    var rend: nat := And(length, 0xfffffffc);  // round down to 4 byte block
    ghost var n: nat := length % M;  // the number of codes hashed
    ghost var nb: nat := n / 4;      // the number of whole blocks
    ghost var bytes := Low8(data, n);
    RendAndTail(length, n, nb);
    h1 := MixBlocks(data, rend, h1, bytes, nb);
    ghost var hb: U32 := h1 % M;

    // tail
    var val: nat := And(length, 0x03);
    h1 := MixTail(data, rend, val, h1);
    ghost var ht: U32 := h1 % M;

    // finalization
    ghost var w: nat := h1;
    h1 := Xor(h1, length);
    XorStep(w, ht, length, n);
    h1 := Avalanche(h1);
    Mask32(h1);
    h := And(h1, 0xffffffff);
    assert hb == Body(bytes, seed % M, nb);
    assert ht == if val == 0 then hb else Xor32(hb, MixK(TailWord(bytes)));
    HashSteps(bytes, seed % M, nb, val, hb, ht);
  }

  /** The block loop: mixing the whole 4-byte blocks below rend into the state. */
  method MixBlocks(data: seq<nat>, rend: nat, seed: nat, ghost bytes: seq<Byte>, ghost nb: nat) returns (h1: nat)
    requires rend == 4 * nb <= |bytes| <= |data|
    requires forall k :: 0 <= k < |bytes| ==> bytes[k] == data[k] % 0x100
    ensures h1 % M == Body(bytes, seed % M, nb)
  {
    assert rend / 4 == nb;
    h1 := seed;
    for j := 0 to rend / 4
      invariant h1 % M == Body(bytes, seed % M, j)
    {
      h1 := MixBlock(data, 4 * j, h1, bytes, seed % M, j);
    }
  }

  /** One round of the block loop: the block at position i, loaded,
      scrambled and folded into the state. */
  method MixBlock(data: seq<nat>, i: nat, h: nat, ghost bytes: seq<Byte>, ghost s: U32, ghost j: nat)
      returns (h1: nat)
    requires i == 4 * j && i + 4 <= |bytes| <= |data|
    requires forall k :: 0 <= k < |bytes| ==> bytes[k] == data[k] % 0x100
    requires h % M == Body(bytes, s, j)
    ensures h1 % M == Body(bytes, s, j + 1)
  {
    BlockOfLoad(data, bytes, j);
    var k1 := LoadBlock(data, i);
    k1 := ScrambleBlock(k1);
    h1 := MixState(h, k1);
  }

  /** The tail: the val codes left after the last whole block, scrambled and
      folded into the state; with no tail the state is unchanged. */
  method MixTail(data: seq<nat>, rend: nat, val: nat, h: nat) returns (h1: nat)
    requires val < 4 && rend == |data| % M / 4 * 4 && val == |data| % M % 4
    ensures h1 % M == if val == 0 then h % M
                      else Xor32(h % M, MixK(TailWord(Low8(data, |data| % M))))
  {
    h1 := h;
    ghost var bytes := Low8(data, |data| % M);
    ghost var t: U32 := TailWord(bytes);
    if val == 1 || val == 2 || val == 3 {
      var k1 := LoadTail(data, rend, val);
      assert k1 == t by { TailWordOfLoad(data, bytes, rend, val); }
      SmallMod(t);
      k1 := ScrambleBlock(k1);
      XorStep(h1, h % M, k1, MixK(t));
      h1 := Xor(h1, k1);
    }
  }

  /** The little-endian load of the block at position i. The top code is not
      masked, so its bits above the low byte land at bit 32 and above, which
      the reduction modulo 2^32 drops. */
  method LoadBlock(data: seq<nat>, i: nat) returns (k1: nat)
    requires i + 4 <= |data|
    ensures k1 % M == Word(data, i)
  {
    // little endian load order
    k1 := Or(Or(Or(And(data[i], 0xff), Shl(And(data[i + 1], 0xff), 8)),
             Shl(And(data[i + 2], 0xff), 16)), Shl(data[i + 3], 24));
    assert k1 % M == data[i] % 0x100 + 0x100 * (data[i + 1] % 0x100)
                     + 0x1_0000 * (data[i + 2] % 0x100) + 0x100_0000 * (data[i + 3] % 0x100) by {
      WideLoad(data[i], data[i + 1], data[i + 2], data[i + 3]);
      LowOfWide(k1, data[i] % 0x100 + 0x100 * (data[i + 1] % 0x100)
                    + 0x1_0000 * (data[i + 2] % 0x100) + 0x100_0000 * (data[i + 3] % 0x100), data[i + 3] / 0x100);
    }
  }

  /** `k1 *= c1; k1 = ROTL32(k1, 15); k1 *= c2`, on unbounded integers. */
  method ScrambleBlock(k: nat) returns (k1: nat)
    ensures k1 % M == MixK(k % M)
  {
    var c1: nat := 0xcc9e2d51;
    var c2: nat := 0x1b873593;
    ghost var b: U32 := k % M;
    k1 := k * c1;
    assert k1 % M == Mul32(b, C1) by { MulStep(k, b, c1); }
    ghost var w: nat := k1;
    k1 := Or(Shl(k1, 15), Shr(And(k1, 0xffffffff), 17));  // ROTL32(k1,15)
    assert k1 % M == Rotl32(Mul32(b, C1), 15) by { RotlStep(w, Mul32(b, C1), 15); }
    w := k1;
    k1 := k1 * c2;
    MulStep(w, Rotl32(Mul32(b, C1), 15), c2);
  }

  /** `h1 ^= k1; h1 = ROTL32(h1, 13); h1 = h1 * 5 + 0xe6546b64`, on unbounded integers. */
  method MixState(h: nat, k1: nat) returns (h1: nat)
    ensures h1 % M == MixH(h % M, k1 % M)
  {
    ghost var hm: U32, km: U32 := h % M, k1 % M;
    ghost var v: U32 := Xor32(hm, km);
    h1 := Xor(h, k1);
    assert h1 % M == v by { XorStep(h, h % M, k1, k1 % M); }
    ghost var w: nat := h1;
    h1 := Or(Shl(h1, 13), Shr(And(h1, 0xffffffff), 19));  // ROTL32(h1,13)
    assert h1 % M == Rotl32(v, 13) by { RotlStep(w, v, 13); }
    w := h1;
    h1 := h1 * 5 + 0xe6546b64;
    MixHStep(w, Rotl32(v, 13));
  }

  /** The tail switch with its fall-through cases 3, 2 and 1: the last `val`
      codes from position rend, low bytes only, little-endian. */
  method LoadTail(data: seq<nat>, rend: nat, val: nat) returns (k1: nat)
    requires 0 < val < 4 && rend + val <= |data|
    ensures k1 == (if val == 3 then 0x1_0000 * (data[rend + 2] % 0x100) else 0)
                  + (if val >= 2 then 0x100 * (data[rend + 1] % 0x100) else 0)
                  + data[rend] % 0x100
  {
    k1 := 0;
    if val == 3 {
      k1 := Shl(And(data[rend + 2], 0xff), 16);
    }
    // fall through
    if val == 2 || val == 3 {
      k1 := Or(k1, Shl(And(data[rend + 1], 0xff), 8));
    }
    TailUpper(data, rend, val);
    // fall through
    ghost var w: nat := k1;
    k1 := Or(k1, And(data[rend], 0xff));
    TailLower(data, rend, val, w);
  }

  /** fmix32, which the source writes inline, on unbounded integers. */
  method Avalanche(h: nat) returns (h1: nat)
    ensures h1 % M == FMix(h % M)
  {
    ghost var f0: U32 := h % M;
    h1 := Xor(h, Shr(And(h, 0xffffffff), 16));
    ghost var f1 := Xor32(f0, f0 / 0x1_0000);
    assert h1 % M == f1 by { Pow2Values(); XorShrStep(h, f0, 16); }
    ghost var w: nat := h1;
    h1 := h1 * 0x85ebca6b;
    ghost var f2 := Mul32(f1, 0x85ebca6b);
    assert h1 % M == f2 by { MulStep(w, f1, 0x85ebca6b); }
    w := h1;
    h1 := Xor(h1, Shr(And(h1, 0xffffffff), 13));
    ghost var f3 := Xor32(f2, f2 / 0x2000);
    assert h1 % M == f3 by { Pow2Values(); XorShrStep(w, f2, 13); }
    w := h1;
    h1 := h1 * 0xc2b2ae35;
    ghost var f4 := Mul32(f3, 0xc2b2ae35);
    assert h1 % M == f4 by { MulStep(w, f3, 0xc2b2ae35); }
    w := h1;
    h1 := Xor(h1, Shr(And(h1, 0xffffffff), 16));
    assert h1 % M == Xor32(f4, f4 / 0x1_0000) by { Pow2Values(); XorShrStep(w, f4, 16); }
  }

  /** Hash, unfolded into the stages the port goes through. */
  lemma HashSteps(bytes: seq<Byte>, s: U32, nb: nat, val: nat, hb: U32, ht: U32)
    requires |bytes| < M && nb == |bytes| / 4 && val == |bytes| % 4
    requires hb == Body(bytes, s, nb)
    requires ht == if val == 0 then hb else Xor32(hb, MixK(TailWord(bytes)))
    ensures Hash(bytes, s) == FMix(Xor32(ht, |bytes|))
  {
  }

  /** A value below 2^32 is its own remainder. */
  lemma SmallMod(x: U32)
    ensures x % M == x
  {
    DivModUnique(x, M, 0, x);
  }

  // ---------------------------------------------------------------------------
  // Why the port computes the reference

  /** `x & 0xffffffff` is x modulo 2^32. */
  lemma Mask32(x: nat)
    ensures And(x, 0xffffffff) == x % M
  {
    Pow2Values();
    AndLowMask(x, 32);
  }

  /** The block split: with n = length mod 2^32, `length & 0xfffffffc` is the
      part of n made of whole 4-byte blocks, and `length & 0x03` is the number
      of remaining tail bytes, so blocks and tail together cover the first n
      positions, each once. */
  lemma RendAndTail(length: nat, n: nat, nb: nat)
    requires n == length % M && nb == n / 4
    ensures And(length, 0xfffffffc) == 4 * nb
    ensures And(length, 0x03) == n - 4 * nb == n % 4
    ensures n <= length && n < M
  {
    Pow2Values();
    AndEven(length, 0x7ffffffe);
    AndEven(length / 2, 0x3fffffff);
    DivDiv(length, 2);
    assert Pow2(30) == 0x4000_0000;
    AndLowMask(length / 4, 30);
    assert Pow2(2) == 4;
    AndLowMask(length, 2);
    var q := length / M;
    assert length == q * (0x4000_0000 * 4) + n;
    DivModUnique(length / 4, 0x4000_0000, q, n / 4);
    DivModUnique(length, 4, q * 0x4000_0000 + n / 4, n % 4);
  }

  /** The source loads the top byte of a block without `& 0xff`: the block is
      then the little-endian word of the four low bytes plus the top code's
      extra bits, which land at bit 32 and above. */
  lemma WideLoad(d0: nat, d1: nat, d2: nat, d3: nat)
    ensures Or(Or(Or(And(d0, 0xff), Shl(And(d1, 0xff), 8)), Shl(And(d2, 0xff), 16)), Shl(d3, 24))
            == d0 % 0x100 + 0x100 * (d1 % 0x100) + 0x1_0000 * (d2 % 0x100) + 0x100_0000 * (d3 % 0x100)
               + (d3 / 0x100) * M
  {
    var a := d0 % 0x100;
    var a' := a + 0x100 * (d1 % 0x100);
    var a'' := a' + 0x1_0000 * (d2 % 0x100);
    assert Or(And(d0, 0xff), Shl(And(d1, 0xff), 8)) == a' by {
      Pow2Values();
      AndLowMask(d0, 8);
      AndLowMask(d1, 8);
      OrDisjoint(a, d1 % 0x100, 8);
    }
    assert Or(a', Shl(And(d2, 0xff), 16)) == a'' by {
      Pow2Values();
      AndLowMask(d2, 8);
      OrDisjoint(a', d2 % 0x100, 16);
    }
    assert Or(a'', Shl(d3, 24)) == a'' + d3 * 0x100_0000 by {
      Pow2Values();
      OrDisjoint(a'', d3, 24);
    }
    assert d3 * 0x100_0000 == 0x100_0000 * (d3 % 0x100) + (d3 / 0x100) * M by {
      assert d3 == (d3 / 0x100) * 0x100 + d3 % 0x100;
    }
  }

  lemma LowOfWide(x: nat, low: U32, high: nat)
    requires x == low + high * M
    ensures x % M == low
  {
    DivModUnique(x, M, high, low);
  }

  lemma MulStep(x: nat, v: U32, c: nat)
    requires x % M == v
    ensures (x * c) % M == Mul32(v, c)
  {
    MulMod(x, c, M);
  }

  lemma MixHStep(x: nat, v: U32)
    requires x % M == v
    ensures (x * 5 + 0xe6546b64) % M == MulAdd(v)
  {
    MulMod(x, 5, M);
    AddMod(x * 5, 0xe6546b64, M);
    AddMod(v * 5, 0xe6546b64, M);
  }

  lemma XorStep(a: nat, va: U32, b: nat, vb: U32)
    requires a % M == va && b % M == vb
    ensures Xor(a, b) % M == Xor32(va, vb)
  {
    Pow2Values();
    BitwiseLow(XorOp, a, b, 32);
  }

  /** The source's rotation `(x << r) | ((x & 0xffffffff) >> (32 - r))`
      leaves x's bits above 32 in place, but its low 32 bits are ROTL32. */
  lemma RotlStep(x: nat, v: U32, r: nat)
    requires 0 < r < 32
    requires x % M == v
    ensures Or(Shl(x, r), Shr(And(x, 0xffffffff), 32 - r)) % M == Rotl32(v, r)
  {
    Pow2Values();
    Mask32(x);
    var lo := v / Pow2(32 - r);
    ShrBound(v, 32 - r);
    BitwiseLow(OrOp, Shl(x, r), lo, 32);
    DivModUnique(lo, M, 0, lo);
    MulMod(x, Pow2(r), M);
  }

  /** `x ^ ((x & 0xffffffff) >> s)`, one xorshift of the avalanche. */
  lemma XorShrStep(x: nat, v: U32, s: nat)
    requires x % M == v
    ensures Xor(x, Shr(And(x, 0xffffffff), s)) % M == Xor32(v, v / Pow2(s))
  {
    Pow2Values();
    Mask32(x);
    var lo := v / Pow2(s);
    ShrBound(v, s);
    DivModUnique(lo, M, 0, lo);
    BitwiseLow(XorOp, x, lo, 32);
  }

  /** The first two tail statements (fall-through cases 3 and 2). */
  lemma TailUpper(data: seq<nat>, rend: nat, val: nat)
    requires 0 < val < 4 && rend + val <= |data|
    ensures var k1 := if val == 3 then Shl(And(data[rend + 2], 0xff), 16) else 0;
            var k1' := if val == 2 || val == 3 then Or(k1, Shl(And(data[rend + 1], 0xff), 8)) else k1;
            k1' == (if val == 3 then 0x1_0000 * (data[rend + 2] % 0x100) else 0)
                   + (if val >= 2 then 0x100 * (data[rend + 1] % 0x100) else 0)
  {
    Pow2Values();
    if val == 3 {
      AndLowMask(data[rend + 2], 8);
      AndLowMask(data[rend + 1], 8);
      var b1: nat, b2: nat := data[rend + 1] % 0x100, data[rend + 2] % 0x100;
      BitwiseCommutes(OrOp, Shl(b2, 16), Shl(b1, 8));
      OrDisjoint(0x100 * b1, b2, 16);
    } else if val == 2 {
      AndLowMask(data[rend + 1], 8);
      ZeroLeft(OrOp, Shl(data[rend + 1] % 0x100, 8));
    }
  }

  /** The third tail statement (fall-through case 1): OR-ing in the lowest byte. */
  lemma TailLower(data: seq<nat>, rend: nat, val: nat, k1: nat)
    requires 0 < val < 4 && rend + val <= |data|
    requires k1 == (if val == 3 then 0x1_0000 * (data[rend + 2] % 0x100) else 0)
                   + (if val >= 2 then 0x100 * (data[rend + 1] % 0x100) else 0)
    ensures Or(k1, And(data[rend], 0xff)) == k1 + data[rend] % 0x100
  {
    Pow2Values();
    AndLowMask(data[rend], 8);
    var hi := (if val == 3 then 0x100 * (data[rend + 2] % 0x100) else 0)
              + (if val >= 2 then data[rend + 1] % 0x100 else 0);
    assert k1 == Shl(hi, 8);
    BitwiseCommutes(OrOp, k1, data[rend] % 0x100);
    OrDisjoint(data[rend] % 0x100, hi, 8);
  }

  /** The loaded block is the reference's block. */
  lemma BlockOfLoad(data: seq<nat>, bytes: seq<Byte>, j: nat)
    requires 4 * j + 4 <= |bytes| <= |data|
    requires forall k :: 0 <= k < |bytes| ==> bytes[k] == data[k] % 0x100
    ensures Block(bytes, j) == Word(data, 4 * j)
  {
  }

  /** The loaded tail is the reference's tail word. */
  lemma TailWordOfLoad(data: seq<nat>, bytes: seq<Byte>, rend: nat, val: nat)
    requires 0 < val < 4 && |bytes| <= |data|
    requires rend == |bytes| / 4 * 4 && val == |bytes| % 4
    requires forall j :: 0 <= j < |bytes| ==> bytes[j] == data[j] % 0x100
    ensures rend + val <= |data|
    ensures (if val == 3 then 0x1_0000 * (data[rend + 2] % 0x100) else 0)
            + (if val >= 2 then 0x100 * (data[rend + 1] % 0x100) else 0)
            + data[rend] % 0x100
            == TailWord(bytes)
  {
  }

  // ---------------------------------------------------------------------------
  // Properties of the reference

  /** With the empty input and seed 0 the hash is 0: there is no block and no
      tail, the length is 0 and the avalanche maps 0 to 0. */
  lemma HashOfEmpty()
    ensures Hash([], 0) == 0
  {
    assert Body([], 0, 0) == 0;
    assert Xor32(0, 0) == 0 by {
      assert Xor(0, 0) == 0;
    }
    assert FMix(0) == 0 by {
      var h1 := Xor32(0, 0 / 0x1_0000);
      assert h1 == 0;
      var h2 := Mul32(h1, 0x85ebca6b);
      assert h2 == 0;
      var h3 := Xor32(h2, h2 / 0x2000);
      assert h3 == 0;
      var h4 := Mul32(h3, 0xc2b2ae35);
      assert h4 == 0;
    }
  }

  /** `murmur3("")` is 0. */
  lemma HashOfCodesEmpty()
    ensures HashOfCodes([], 0) == 0
  {
    HashOfEmpty();
    assert Low8([], 0) == [];
  }

  /** Only the low byte of each character code matters: codes that agree
      modulo 256 hash alike. */
  lemma OnlyLowBytesMatter(d1: seq<nat>, d2: seq<nat>, seed: nat)
    requires |d1| == |d2|
    requires forall i :: 0 <= i < |d1| ==> d1[i] % 0x100 == d2[i] % 0x100
    ensures HashOfCodes(d1, seed) == HashOfCodes(d2, seed)
  {
    assert Low8(d1, |d1| % M) == Low8(d2, |d2| % M);
  }

  /** On bytes and a 32-bit seed the port computes MurmurHash3_x86_32 itself. */
  lemma HashOfBytes(bytes: seq<Byte>, seed: U32)
    requires |bytes| < M
    ensures HashOfCodes(bytes, seed) == Hash(bytes, seed)
  {
    LowOfBytes(bytes);
    SmallMod(seed);
  }

  lemma LowOfBytes(bytes: seq<Byte>)
    requires |bytes| < M
    ensures Low8(bytes, |bytes| % M) == bytes
  {
    SmallMod(|bytes|);
    var low := Low8(bytes, |bytes|);
    forall i | 0 <= i < |bytes|
      ensures low[i] == bytes[i]
    {
      DivModUnique(bytes[i], 0x100, 0, bytes[i]);
    }
  }
}
