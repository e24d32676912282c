/**
 Streaming SHA-1. The specification follows RFC 3174: the round functions and constants of section 5, the
 padding of section 4 and the block computation of section 6.1. The code keeps five state words, a bit count
 in two 32-bit words and a 64-byte buffer.
 */
module Sha1 {
  type octet = bv8
  type word = bv32
  type octets = seq<octet>

  const T32: nat := 0x1_0000_0000
  const T64: nat := 0x1_0000_0000_0000_0000

  // ---------------------------------------------------------------- the standard

  /** The operations of section 3 of RFC 3174 on words. */
  function And(x: word, y: word): word { x & y }
  function Or(x: word, y: word): word { x | y }
  function Xor(x: word, y: word): word { x ^ y }
  function Not(x: word): word { !x }
  function Add(x: word, y: word): word { x + y }
  function Rol(x: word, n: nat): word
    requires n <= 32
  {
    (x << n) | (x >> (32 - n))
  }

  /** Section 5 of RFC 3174: the functions f(t;B,C,D). */
  function F(t: nat, b: word, c: word, d: word): word {
    if t < 20 then Or(And(b, c), And(Not(b), d))
    else if t < 40 then Xor(Xor(b, c), d)
    else if t < 60 then Or(Or(And(b, c), And(b, d)), And(c, d))
    else Xor(Xor(b, c), d)
  }

  function K(t: nat): word {
    if t < 20 then 0x5A82_7999 else if t < 40 then 0x6ED9_EBA1 else if t < 60 then 0x8F1B_BCDC else 0xCA62_C1D6
  }

  function BigEndian(a: octet, b: octet, c: octet, d: octet): word {
    ((a as word) << 24) | ((b as word) << 16) | ((c as word) << 8) | (d as word)
  }

  /** Section 6.1 of RFC 3174, steps a and b: the message schedule of a 64-byte block. */
  function W(m: octets, t: nat): word
    requires |m| == 64
  {
    if t < 16 then BigEndian(m[4 * t], m[4 * t + 1], m[4 * t + 2], m[4 * t + 3])
    else Rol(Xor(Xor(Xor(W(m, t - 3), W(m, t - 8)), W(m, t - 14)), W(m, t - 16)), 1)
  }

  datatype State = State(a: word, b: word, c: word, d: word, e: word)

  const H0: State := State(0x6745_2301, 0xEFCD_AB89, 0x98BA_DCFE, 0x1032_5476, 0xC3D2_E1F0)

  /** Step d. */
  function Round(s: State, t: nat, w: word): State {
    State(Add(Add(Add(Add(Rol(s.a, 5), F(t, s.b, s.c, s.d)), s.e), w), K(t)), s.a, Rol(s.b, 30), s.c, s.d)
  }

  function Rounds(s: State, m: octets, n: nat): State
    requires |m| == 64
  {
    if n == 0 then s else Round(Rounds(s, m, n - 1), n - 1, W(m, n - 1))
  }

  function Plus(s: State, r: State): State {
    State(Add(s.a, r.a), Add(s.b, r.b), Add(s.c, r.c), Add(s.d, r.d), Add(s.e, r.e))
  }

  /** One block: 80 rounds, added to the state. */
  function Compress(s: State, m: octets): State
    requires |m| == 64
  {
    Plus(s, Rounds(s, m, 80))
  }

  /** The blocks of a message whose length is a multiple of 64. */
  function Blocks(data: octets): State
    requires |data| % 64 == 0
  {
    if data == [] then H0 else Compress(Blocks(data[..|data| - 64]), data[|data| - 64..])
  }

  function Zeros(k: nat): (z: octets)
    ensures |z| == k && forall i :: 0 <= i < k ==> z[i] == 0
  {
    if k == 0 then [] else Zeros(k - 1) + [0]
  }

  /** The zero bytes that bring n bytes and the 1 bit up to 56 modulo 64. */
  function ZeroCount(n: nat): (k: nat)
    ensures k < 64 && (n + 1 + k) % 64 == 56
  {
    if n % 64 <= 55 then 55 - n % 64 else 119 - n % 64
  }

  function Narrow(n: nat): octet
    requires n < 256
  {
    n as octet
  }

  function Octet(n: nat): octet {
    Narrow(n % 256)
  }

  /** A 64-bit number, most significant byte first. */
  function Length(n: nat): (s: octets)
    ensures |s| == 8
  {
    [Octet(n / 0x100_0000_0000_0000), Octet(n / 0x1_0000_0000_0000), Octet(n / 0x100_0000_0000),
     Octet(n / 0x1_0000_0000),
     Octet(n / 0x100_0000), Octet(n / 0x1_0000), Octet(n / 0x100), Octet(n)]
  }

  /** Section 4 of RFC 3174; the bit length is taken modulo 2^64, where the standard ends. */
  function Pad(m: octets): (p: octets)
    ensures |p| % 64 == 0
  {
    assert (|m| + 1 + ZeroCount(|m|) + 8) % 64 == 0;
    m + [0x80] + Zeros(ZeroCount(|m|)) + Length(8 * |m| % T64)
  }

  function WordBytes(w: word): octets {
    [((w >> 24) & 0xFF) as octet, ((w >> 16) & 0xFF) as octet, ((w >> 8) & 0xFF) as octet, (w & 0xFF) as octet]
  }

  function Digest(s: State): (d: octets)
    ensures |d| == 20
  {
    WordBytes(s.a) + WordBytes(s.b) + WordBytes(s.c) + WordBytes(s.d) + WordBytes(s.e)
  }

  function Sha1(m: octets): (d: octets)
    ensures |d| == 20
  {
    Digest(Blocks(Pad(m)))
  }

  /** One more block. */
  lemma BlocksNext(data: octets, block: octets)
    requires |data| % 64 == 0 && |block| == 64
    ensures Blocks(data + block) == Compress(Blocks(data), block)
  {
    var all := data + block;
    assert all[..|all| - 64] == data && all[|all| - 64..] == block;
  }

  // ---------------------------------------------------------------- the compression loops

  /** The words of the block and the 64 derived from them. */
  method Schedule(m: octets) returns (block: array<word>)
    requires |m| == 64
    ensures block.Length == 80 && forall k :: 0 <= k < 80 ==> block[k] == W(m, k)
  {
    hide And, Or, Xor, Not, Add, Rol, BigEndian;
    block := new word[80];
    for i := 0 to 16
      invariant forall k :: 0 <= k < i ==> block[k] == W(m, k)
    {
      block[i] := BigEndian(m[i * 4], m[i * 4 + 1], m[i * 4 + 2], m[i * 4 + 3]);
    }
    for i := 16 to 80
      invariant forall k :: 0 <= k < i ==> block[k] == W(m, k)
    {
      block[i] := Rol(Xor(Xor(Xor(block[i - 3], block[i - 8]), block[i - 14]), block[i - 16]), 1);
    }
  }

  /** The four loops of twenty rounds. */
  method Choose(s: State, m: octets, block: array<word>) returns (r: State)
    requires |m| == 64 && block.Length == 80 && forall k :: 0 <= k < 80 ==> block[k] == W(m, k)
    ensures r == Rounds(s, m, 20)
  {
    hide And, Or, Xor, Not, Add, Rol, W;
    var a, b, c, d, e := s.a, s.b, s.c, s.d, s.e;
    for i := 0 to 20
      invariant State(a, b, c, d, e) == Rounds(s, m, i)
    {
      var temp := Add(Add(Add(Add(Rol(a, 5), Or(And(b, c), And(Not(b), d))), e), block[i]), 0x5A82_7999);
      e, d, c, b, a := d, c, Rol(b, 30), a, temp;
    }
    r := State(a, b, c, d, e);
  }

  method Parity(s: State, r0: State, m: octets, block: array<word>) returns (r: State)
    requires |m| == 64 && block.Length == 80 && forall k :: 0 <= k < 80 ==> block[k] == W(m, k)
    requires r0 == Rounds(s, m, 20)
    ensures r == Rounds(s, m, 40)
  {
    hide And, Or, Xor, Not, Add, Rol, W;
    var a, b, c, d, e := r0.a, r0.b, r0.c, r0.d, r0.e;
    for i := 20 to 40
      invariant State(a, b, c, d, e) == Rounds(s, m, i)
    {
      var temp := Add(Add(Add(Add(Rol(a, 5), Xor(Xor(b, c), d)), e), block[i]), 0x6ED9_EBA1);
      e, d, c, b, a := d, c, Rol(b, 30), a, temp;
    }
    r := State(a, b, c, d, e);
  }

  method Majority(s: State, r0: State, m: octets, block: array<word>) returns (r: State)
    requires |m| == 64 && block.Length == 80 && forall k :: 0 <= k < 80 ==> block[k] == W(m, k)
    requires r0 == Rounds(s, m, 40)
    ensures r == Rounds(s, m, 60)
  {
    hide And, Or, Xor, Not, Add, Rol, W;
    var a, b, c, d, e := r0.a, r0.b, r0.c, r0.d, r0.e;
    for i := 40 to 60
      invariant State(a, b, c, d, e) == Rounds(s, m, i)
    {
      var temp := Add(Add(Add(Add(Rol(a, 5), Or(Or(And(b, c), And(b, d)), And(c, d))), e), block[i]), 0x8F1B_BCDC);
      e, d, c, b, a := d, c, Rol(b, 30), a, temp;
    }
    r := State(a, b, c, d, e);
  }

  method LastParity(s: State, r0: State, m: octets, block: array<word>) returns (r: State)
    requires |m| == 64 && block.Length == 80 && forall k :: 0 <= k < 80 ==> block[k] == W(m, k)
    requires r0 == Rounds(s, m, 60)
    ensures r == Rounds(s, m, 80)
  {
    hide And, Or, Xor, Not, Add, Rol, W;
    var a, b, c, d, e := r0.a, r0.b, r0.c, r0.d, r0.e;
    for i := 60 to 80
      invariant State(a, b, c, d, e) == Rounds(s, m, i)
    {
      var temp := Add(Add(Add(Add(Rol(a, 5), Xor(Xor(b, c), d)), e), block[i]), 0xCA62_C1D6);
      e, d, c, b, a := d, c, Rol(b, 30), a, temp;
    }
    r := State(a, b, c, d, e);
  }

  method Transform(s: State, m: octets) returns (r: State)
    requires |m| == 64
    ensures r == Compress(s, m)
  {
    hide Add, Rounds, W;
    var block := Schedule(m);
    var x := Choose(s, m, block);
    x := Parity(s, x, m, block);
    x := Majority(s, x, m, block);
    x := LastParity(s, x, m, block);
    r := State(Add(s.a, x.a), Add(s.b, x.b), Add(s.c, x.c), Add(s.d, x.d), Add(s.e, x.e));
  }

  // ---------------------------------------------------------------- the two-word bit count

  /** The count words hold the number of bits modulo 2^64. */
  predicate Counts(c0: nat, c1: nat, n: nat) {
    c0 < T32 && c1 < T32 && c0 + c1 * T32 == 8 * n % T64
  }

  /** `count[0] += len << 3`, the carry, and `count[1] += len >> 29`. */
  lemma CountAdds(c0: nat, c1: nat, n: nat, len: nat)
    requires Counts(c0, c1, n) && len < T32
    ensures var low := len * 8 % T32;
            var d0 := (c0 + low) % T32;
            var carried := if d0 < low then (c1 + 1) % T32 else c1;
            Counts(d0, (carried + len / 0x2000_0000) % T32, n + len)
  {
    var low, high := len * 8 % T32, len / 0x2000_0000;
    Shifted(len);
    Carried(c0, low);
    var carry := if c0 + low >= T32 then 1 else 0;
    WrapInside(c1 + carry, high);
    Wraps(c0, c1, n, len, c1 + carry + high, (c0 + low) % T32);
  }

  lemma Shifted(len: nat)
    ensures len * 8 == len / 0x2000_0000 * T32 + len * 8 % T32
  {
  }

  /** A sum of two words is below one of them exactly when it wrapped. */
  lemma Carried(x: nat, y: nat)
    requires x < T32 && y < T32
    ensures (x + y) % T32 == if x + y >= T32 then x + y - T32 else x + y
  {
  }

  lemma WrapInside(x: nat, y: nat)
    ensures (x % T32 + y) % T32 == (x + y) % T32
  {
    assert x == x / T32 * T32 + x % T32;
  }

  lemma Wraps(c0: nat, c1: nat, n: nat, len: nat, sum: nat, d0: nat)
    requires Counts(c0, c1, n) && d0 < T32 && sum < 3 * T32 && d0 + sum * T32 == c0 + c1 * T32 + 8 * len
    ensures Counts(d0, sum % T32, n + len)
  {
    var q := sum / T32;
    var k := 8 * n / T64;
    assert sum == q * T32 + sum % T32;
    assert d0 + sum % T32 * T32 + (q + k) * T64 == 8 * (n + len);
    Remainder(d0 + sum % T32 * T32, q + k, 8 * (n + len));
  }

  lemma Remainder(r: nat, q: nat, x: nat)
    requires r < T64 && r + q * T64 == x
    ensures x % T64 == r
  {
  }

  /** The low word alone gives the position in the buffer. */
  lemma Position(c0: nat, c1: nat, n: nat)
    requires Counts(c0, c1, n)
    ensures c0 / 8 % 64 == n % 64
  {
    var k := 8 * n / T64;
    Blockwise(c0, n, c1 * 0x80_0000 + k * 0x80_0000_0000_0000);
  }

  lemma Blockwise(c0: nat, n: nat, q: nat)
    requires 8 * n == c0 + 512 * q
    ensures c0 / 8 % 64 == n % 64
  {
    assert c0 / 8 == n - 64 * q;
    assert n == n / 64 * 64 + n % 64;
  }

  /** The eight bytes taken from the two words are the 64-bit length. */
  lemma LengthBytes(c0: nat, c1: nat)
    requires c0 < T32 && c1 < T32
    ensures Length(c0 + c1 * T32) ==
            [Octet(c1 / 0x100_0000), Octet(c1 / 0x1_0000), Octet(c1 / 0x100), Octet(c1),
             Octet(c0 / 0x100_0000), Octet(c0 / 0x1_0000), Octet(c0 / 0x100), Octet(c0)]
  {
    hide Octet;
    var n := c0 + c1 * T32;
    HighByte3(c0, c1);
    HighByte2(c0, c1);
    HighByte1(c0, c1);
    assert n / 0x1_0000_0000 == c1;
    LowByte(n / 0x100_0000, c0 / 0x100_0000, c1);
    LowByte(n / 0x1_0000, c0 / 0x1_0000, c1 * 0x100);
    LowByte(n / 0x100, c0 / 0x100, c1 * 0x1_0000);
    LowByte(n, c0, c1 * 0x100_0000);
  }

  lemma HighByte3(c0: nat, c1: nat)
    requires c0 < T32
    ensures (c0 + c1 * T32) / 0x100_0000_0000_0000 == c1 / 0x100_0000
  {
  }

  lemma HighByte2(c0: nat, c1: nat)
    requires c0 < T32
    ensures (c0 + c1 * T32) / 0x1_0000_0000_0000 == c1 / 0x1_0000
  {
  }

  lemma HighByte1(c0: nat, c1: nat)
    requires c0 < T32
    ensures (c0 + c1 * T32) / 0x100_0000_0000 == c1 / 0x100
  {
  }

  lemma LowByte(x: nat, y: nat, d: nat)
    requires x == y + d * 256
    ensures Octet(x) == Octet(y)
  {
    hide Narrow;
    assert x % 256 == y % 256 by {
      assert y == y / 256 * 256 + y % 256;
      assert x == (y / 256 + d) * 256 + y % 256;
    }
  }

}

/** The SHA-1 context, updated piece by piece. */
module Sha1Code {
  import opened Wrappers
  import opened Sha1

  /** Whole blocks of what was fed are in the state, the rest waits in the buffer. */
  ghost predicate Holds(state: State, rest: octets, fed: octets) {
    var n := |fed| - |fed| % 64;
    state == Blocks(fed[..n]) && rest == fed[n..]
  }

  lemma HoldsShort(state: State, rest: octets, fed: octets, data: octets)
    requires Holds(state, rest, fed) && |rest| + |data| <= 63
    ensures Holds(state, rest + data, fed + data)
    ensures |fed + data| % 64 == |rest| + |data|
  {
    hide Blocks;
    var all, n := fed + data, |fed| - |fed| % 64;
    assert |all| == n + (|rest| + |data|);
    assert all[..n] == fed[..n] && all[n..] == fed[n..] + data;
  }

  lemma HoldsLong(state: State, fed: octets, data: octets, i: nat)
    requires i <= |data| < i + 64 && (|fed| + i) % 64 == 0 && state == Blocks((fed + data)[..|fed| + i])
    ensures Holds(state, data[i..], fed + data)
    ensures |fed + data| % 64 == |data| - i
  {
    hide Blocks;
    var all := fed + data;
    assert |all| == |fed| + i + (|data| - i);
    assert |all| % 64 == |data| - i;
    assert all[|fed| + i..] == data[i..];
  }

  /** The buffer, filled up from the piece, is the next block. */
  lemma FirstBlock(state: State, rest: octets, fed: octets, data: octets)
    requires Holds(state, rest, fed) && |rest| + |data| > 63
    ensures |rest| <= 63 && (|fed| + 64 - |rest|) % 64 == 0
    ensures Compress(state, rest + data[..64 - |rest|]) == Blocks((fed + data)[..|fed| + 64 - |rest|])
  {
    hide Compress, Blocks;
    var all, n := fed + data, |fed| - |rest|;
    var block := rest + data[..64 - |rest|];
    assert all[..n] == fed[..n] && all[..n + 64] == fed[..n] + block;
    BlocksNext(fed[..n], block);
  }

  lemma NextBlock(fed: octets, data: octets, i: nat)
    requires i + 64 <= |data| && (|fed| + i) % 64 == 0
    ensures (|fed| + i + 64) % 64 == 0
    ensures Blocks((fed + data)[..|fed| + i + 64]) == Compress(Blocks((fed + data)[..|fed| + i]), data[i..i + 64])
  {
    hide Compress, Blocks;
    var all, at := fed + data, |fed| + i;
    assert all[..at + 64] == all[..at] + data[i..i + 64];
    BlocksNext(all[..at], data[i..i + 64]);
  }

  lemma HoldsAll(state: State, rest: octets, fed: octets)
    requires Holds(state, rest, fed) && |fed| % 64 == 0
    ensures state == Blocks(fed)
  {
    assert fed[..|fed|] == fed;
  }

  /** The 32-bit sum `j + len` does not wrap: the fill and the piece together stay below 2^32. */
  predicate Room(fed: nat, len: nat) {
    fed % 64 + len < T32
  }

  /** Where the piece is taken for one that fits behind the buffered bytes, copying all of it stays inside
      the 64-byte buffer exactly when the sum does not wrap. */
  lemma RoomDecides(fed: nat, len: nat)
    requires len < T32
    ensures ((fed % 64 + len) % T32 <= 63 ==> fed % 64 + len <= 64) <==> Room(fed, len)
  {
    var j := fed % 64;
    if j + len >= T32 {
      assert (j + len) % T32 == j + len - T32;
    }
  }

  /** Nor does `i + 63` wrap then, in any round of the loop. */
  lemma RoundsInRange(fed: nat, i: nat, len: nat)
    requires Room(fed, len) && i <= len && (fed + i) % 64 == 0
    ensures (i + 63) % T32 == i + 63
  {
    var j := fed % 64;
    assert (j + i) % 64 == 0;
    assert T32 == 64 * 0x400_0000;
    assert j + i == 64 * ((j + i) / 64);
  }

  class Context {
    var state: State
    var count0: nat
    var count1: nat
    const buffer: array<octet>
    /** Everything fed so far. */
    ghost var fed: octets

    ghost predicate Valid()
      reads this, buffer
    {
      && buffer.Length == 64
      && Counts(count0, count1, |fed|)
      && Holds(state, buffer[..|fed| % 64], fed)
    }

    constructor ()
      ensures Valid() && fresh(buffer) && fed == []
    {
      state := H0;
      count0, count1 := 0, 0;
      buffer := new octet[64];
      fed := [];
    }

    /** `memcpy` into the buffer. */
    method Copy(j: nat, data: octets)
      requires buffer.Length == 64 && j + |data| <= 64
      modifies buffer
      ensures buffer[..j + |data|] == old(buffer[..j]) + data
    {
      for i := 0 to |data|
        invariant buffer[..j + i] == old(buffer[..j]) + data[..i]
      {
        buffer[j + i] := data[i];
      }
    }

    /** The bit count in its two words. */
    method Bump(len: nat, ghost n: nat)
      requires Counts(count0, count1, n) && len < T32
      modifies this`count0, this`count1
      ensures Counts(count0, count1, n + len)
    {
      CountAdds(count0, count1, n, len);
      hide Counts;
      var low := len * 8 % T32;
      count0 := (count0 + low) % T32;
      if count0 < low {
        count1 := (count1 + 1) % T32;
      }
      count1 := (count1 + len / 0x2000_0000) % T32;
    }

    /** The buffered bytes and the first bytes of the piece make a block, and so does every further 64 bytes. */
    method Absorb(j: nat, data: octets) returns (i: nat)
      requires buffer.Length == 64 && j == |fed| % 64 && Room(|fed|, |data|) && j + |data| > 63
      requires Holds(state, buffer[..j], fed)
      modifies this`state, buffer
      ensures i <= |data| < i + 64 && (|fed| + i) % 64 == 0
      ensures state == Blocks((fed + data)[..|fed| + i])
    {
      hide Blocks, Compress, Holds;
      ghost var all := fed + data;
      i := 64 - j;
      FirstBlock(state, buffer[..j], fed, data);
      Copy(j, data[..i]);
      assert buffer[..] == buffer[..64];
      state := Transform(state, buffer[..]);
      RoundsInRange(|fed|, i, |data|);
      while (i + 63) % T32 < |data|
        invariant i <= |data| && (|fed| + i) % 64 == 0 && (i + 63) % T32 == i + 63
        invariant state == Blocks(all[..|fed| + i])
        decreases |data| - i
      {
        NextBlock(fed, data, i);
        state := Transform(state, data[i..i + 64]);
        i := i + 64;
        RoundsInRange(|fed|, i, |data|);
      }
    }

    method Update(data: octets)
      requires Valid() && Room(|fed|, |data|)
      modifies this, buffer
      ensures Valid() && fed == old(fed) + data
    {
      hide Blocks, Counts, Holds;
      var len := |data|;
      var j := count0 / 8 % 64;
      Position(count0, count1, |fed|);
      Bump(len, |fed|);
      var i := 0;
      if (j + len) % T32 > 63 {
        i := Absorb(j, data);
        j := 0;
        HoldsLong(state, fed, data, i);
        assert buffer[..0] + data[i..] == data[i..];
      } else {
        HoldsShort(state, buffer[..j], fed, data);
        assert data[0..] == data;
      }
      Copy(j, data[i..]);
      fed := fed + data;
    }

    /** The 1 bit and the zeros, up to eight bytes before the end of a block. */
    method PadZeros()
      requires Valid()
      modifies this, buffer
      ensures Valid() && fed == old(fed) + [0x80] + Zeros(ZeroCount(old(|fed|)))
    {
      hide Counts, Holds, Zeros;
      ghost var m := fed;
      Update([0x80]);
      ghost var k := 0;
      ZerosNext(0);
      assert fed == m + [0x80] + Zeros(0);
      Position(count0, count1, |fed|);
      while count0 / 8 % 64 * 8 != 448
        invariant Valid() && k <= ZeroCount(|m|) && fed == m + [0x80] + Zeros(k)
        invariant count0 / 8 % 64 == (|m| + 1 + k) % 64
        decreases ZeroCount(|m|) - k
      {
        FirstStop(|m|, k);
        ZerosNext(k);
        Update([0]);
        assert fed == m + [0x80] + (Zeros(k) + [0]);
        k := k + 1;
        Position(count0, count1, |fed|);
      }
      FirstStop(|m|, k);
    }

    /** Padding and the digest of everything fed. */
    method Final() returns (digest: octets)
      requires Valid()
      modifies this, buffer
      ensures digest == Sha1.Sha1(old(fed))
    {
      hide Blocks, Counts, Holds, Length, Octet, Digest, Zeros, ZeroCount;
      ghost var m := fed;
      var finalCount := [Octet(count1 / 0x100_0000), Octet(count1 / 0x1_0000), Octet(count1 / 0x100), Octet(count1),
                         Octet(count0 / 0x100_0000), Octet(count0 / 0x1_0000), Octet(count0 / 0x100), Octet(count0)];
      CountLength(count0, count1, |m|);
      PadZeros();
      Update(finalCount);
      assert fed == Pad(m);
      HoldsAll(state, buffer[..|fed| % 64], fed);
      digest := Digest(state);
    }
  }

  lemma ZerosNext(k: nat)
    ensures Zeros(0) == [] && Zeros(k + 1) == Zeros(k) + [0]
  {
  }

  /** The loop stops at the least number of zeros that fits. */
  lemma FirstStop(n: nat, k: nat)
    requires k <= ZeroCount(n)
    ensures (n + 1 + k) % 64 * 8 == 448 <==> k == ZeroCount(n)
  {
    var r := n % 64;
    assert n == n / 64 * 64 + r;
  }

  lemma CountLength(c0: nat, c1: nat, n: nat)
    requires Counts(c0, c1, n)
    ensures Length(8 * n % T64) ==
            [Octet(c1 / 0x100_0000), Octet(c1 / 0x1_0000), Octet(c1 / 0x100), Octet(c1),
             Octet(c0 / 0x100_0000), Octet(c0 / 0x1_0000), Octet(c0 / 0x100), Octet(c0)]
  {
    LengthBytes(c0, c1);
  }

  /** Fed in any pieces, the context computes the SHA-1 of their concatenation. */
  method HashPieces(pieces: seq<octets>) returns (digest: octets)
    requires forall i :: 0 <= i < |pieces| ==> Room(|Concat(pieces[..i])|, |pieces[i]|)
    ensures digest == Sha1.Sha1(Concat(pieces))
  {
    hide Pad, Blocks, Digest, Counts, Holds;
    var ctx := new Context();
    for i := 0 to |pieces|
      invariant ctx.Valid() && fresh(ctx) && fresh(ctx.buffer) && ctx.fed == Concat(pieces[..i])
    {
      ctx.Update(pieces[i]);
      assert pieces[..i + 1][..i] == pieces[..i];
    }
    assert pieces[..|pieces|] == pieces;
    digest := ctx.Final();
  }

  /** `tnt_sha1`. */
  method HashOnce(data: octets) returns (digest: octets)
    requires |data| < T32
    ensures digest == Sha1.Sha1(data)
  {
    var ctx := new Context();
    assert Room(|ctx.fed|, |data|);
    hide *;
    ctx.Update(data);
    assert [] + data == data;
    digest := ctx.Final();
  }
}
