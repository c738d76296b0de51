/** PBKDF2 as in section 5.2 of RFC 8018: the nested loops of pbkdf2SHA256 against the
    definition, for every pseudorandom function with a fixed output length. */
module Pbkdf2 {
  import opened Arithmetic
  import opened Octet

  type bytes = seq<bv8>

  function Xor(a: bytes, b: bytes): (r: bytes)
    requires |a| == |b|
    ensures |r| == |a|
  {
    seq(|a|, i requires 0 <= i < |a| => a[i] ^ b[i])
  }

  /** A PRF with its key fixed: every output has the length of the output on no data. */
  ghost predicate FixedLength(prf: bytes -> bytes) {
    |prf([])| > 0 && forall x :: |prf(x)| == |prf([])|
  }

  /** The four base-256 digits of a block number, most significant first. */
  function Octets(i: nat): (r: seq<nat>)
    ensures |r| == 4 && forall k :: 0 <= k < 4 ==> r[k] < 256
  {
    [i / 0x100_0000 % 256, i / 0x1_0000 % 256, i / 0x100 % 256, i % 256]
  }

  /** INT(i): the four-octet encoding of i, most significant octet first. */
  function IntBE(i: nat): (r: bytes)
    ensures |r| == 4
  {
    var o := Octets(i);
    [o[0] as bv8, o[1] as bv8, o[2] as bv8, o[3] as bv8]
  }

  lemma OctetsValue(i: nat)
    requires i < 0x1_0000_0000
    ensures var r := Octets(i);
            r[0] * 0x100_0000 + r[1] * 0x1_0000 + r[2] * 0x100 + r[3] == i
  {
    assert i / 0x1_0000 == i / 0x100 / 256 && i / 0x100_0000 == i / 0x100 / 256 / 256;
  }

  /** The four octets that reach the PRF are the number of the block, most significant first. */
  lemma IndexOctets(i: nat)
    requires i < 0x1_0000_0000
    ensures var r := IntBE(i);
            (r[0] as int) * 0x100_0000 + (r[1] as int) * 0x1_0000 + (r[2] as int) * 0x100 + (r[3] as int) == i
  {
    var o := Octets(i);
    OctetsValue(i);
    ByteValue(o[0]);
    ByteValue(o[1]);
    ByteValue(o[2]);
    ByteValue(o[3]);
  }

  /** U_j of block i. */
  ghost function U(prf: bytes -> bytes, salt: bytes, i: nat, j: nat): bytes
    requires j >= 1
  {
    if j == 1 then prf(salt + IntBE(i)) else prf(U(prf, salt, i, j - 1))
  }

  /** T_i: the exclusive-or of U_1 to U_c. */
  ghost function T(prf: bytes -> bytes, salt: bytes, c: nat, i: nat): (r: bytes)
    requires c >= 1 && FixedLength(prf)
    ensures |r| == |prf([])|
  {
    if c == 1 then U(prf, salt, i, 1) else Xor(T(prf, salt, c - 1, i), U(prf, salt, i, c))
  }

  /** The iterates, written out for the first few. */
  lemma FirstIterates(prf: bytes -> bytes, salt: bytes, i: nat)
    ensures U(prf, salt, i, 1) == prf(salt + IntBE(i))
    ensures U(prf, salt, i, 2) == prf(prf(salt + IntBE(i)))
    ensures U(prf, salt, i, 3) == prf(prf(prf(salt + IntBE(i))))
  {
  }

  /** Each count puts in one more iterate: with one it is the first, and what count c adds to
      count c - 1 is the c-th. */
  lemma LastIterate(prf: bytes -> bytes, salt: bytes, c: nat, i: nat)
    requires c >= 2 && FixedLength(prf)
    ensures T(prf, salt, 1, i) == prf(salt + IntBE(i))
    ensures Xor(T(prf, salt, c, i), T(prf, salt, c - 1, i)) == U(prf, salt, i, c)
  {
    var before, u := T(prf, salt, c - 1, i), U(prf, salt, i, c);
    forall k | 0 <= k < |u| ensures (before[k] ^ u[k]) ^ before[k] == u[k] { XorTwice(before[k], u[k]); }
    assert T(prf, salt, c, i) == Xor(before, u);
  }

  lemma XorTwice(a: bv8, b: bv8)
    ensures (a ^ b) ^ a == b
  {
  }

  /** T_1 || ... || T_n */
  ghost function Blocks(prf: bytes -> bytes, salt: bytes, c: nat, n: nat): bytes
    requires c >= 1 && FixedLength(prf)
  {
    if n == 0 then [] else Blocks(prf, salt, c, n - 1) + T(prf, salt, c, n)
  }

  lemma {:induction false} BlocksLength(prf: bytes -> bytes, salt: bytes, c: nat, n: nat)
    requires c >= 1 && FixedLength(prf)
    ensures |Blocks(prf, salt, c, n)| == n * |prf([])|
  {
    if n > 0 {
      BlocksLength(prf, salt, c, n - 1);
      var h := |prf([])|;
      assert (n - 1) * h + h == n * h;
    }
  }

  lemma {:induction false} BlocksPrefix(prf: bytes -> bytes, salt: bytes, c: nat, m: nat, n: nat)
    requires c >= 1 && FixedLength(prf) && m <= n
    ensures Blocks(prf, salt, c, m) <= Blocks(prf, salt, c, n)
  {
    if m < n { BlocksPrefix(prf, salt, c, m, n - 1); }
  }

  /** The number of blocks: the quotient rounded up. */
  function BlockCount(keyLen: nat, hashLen: nat): int
    requires hashLen > 0
  {
    (keyLen + hashLen - 1) / hashLen
  }

  lemma BlockCountCovers(keyLen: nat, hashLen: nat)
    requires hashLen > 0
    ensures var n := BlockCount(keyLen, hashLen); n >= 0 && n * hashLen - hashLen < keyLen <= n * hashLen
  {
    var x := keyLen + hashLen - 1;
    assert x == x / hashLen * hashLen + x % hashLen;
    QuotientAtLeast(0, hashLen, x);
  }

  lemma EnoughBlocks(prf: bytes -> bytes, salt: bytes, c: nat, keyLen: nat)
    requires c >= 1 && FixedLength(prf)
    ensures var n := BlockCount(keyLen, |prf([])|);
            n >= 0 && |Blocks(prf, salt, c, n)| - |prf([])| < keyLen <= |Blocks(prf, salt, c, n)|
  {
    BlockCountCovers(keyLen, |prf([])|);
    BlocksLength(prf, salt, c, BlockCount(keyLen, |prf([])|));
  }

  /** The derived key. */
  ghost function DK(prf: bytes -> bytes, salt: bytes, c: nat, keyLen: nat): (r: bytes)
    requires c >= 1 && FixedLength(prf)
    ensures |r| == keyLen
  {
    EnoughBlocks(prf, salt, c, keyLen);
    Blocks(prf, salt, c, BlockCount(keyLen, |prf([])|))[..keyLen]
  }

  /** No more blocks are computed than the key needs. */
  lemma NoSpareBlock(prf: bytes -> bytes, salt: bytes, c: nat, keyLen: nat, n: nat)
    requires c >= 1 && FixedLength(prf)
    ensures |Blocks(prf, salt, c, n)| >= keyLen <==> n >= BlockCount(keyLen, |prf([])|)
  {
    BlocksLength(prf, salt, c, n);
    CoversExactly(n, keyLen, |prf([])|);
  }

  lemma CoversExactly(n: nat, keyLen: nat, hashLen: nat)
    requires hashLen > 0
    ensures n * hashLen >= keyLen <==> n >= BlockCount(keyLen, hashLen)
  {
    BlockCountCovers(keyLen, hashLen);
    var m := BlockCount(keyLen, hashLen);
    if n >= m {
      MulMono(m, n, hashLen);
    } else {
      MulMono(n, m - 1, hashLen);
      assert (m - 1) * hashLen == m * hashLen - hashLen;
    }
  }

  /** A longer key extends a shorter one. */
  lemma KeysArePrefixes(prf: bytes -> bytes, salt: bytes, c: nat, short: nat, long: nat)
    requires c >= 1 && FixedLength(prf) && short <= long
    ensures DK(prf, salt, c, short) == DK(prf, salt, c, long)[..short]
  {
    var h := |prf([])|;
    EnoughBlocks(prf, salt, c, short);
    EnoughBlocks(prf, salt, c, long);
    var m, n := BlockCount(short, h), BlockCount(long, h);
    if m <= n { BlocksPrefix(prf, salt, c, m, n); } else { BlocksPrefix(prf, salt, c, n, m); }
  }

  /** Octet r of T_q is where the definition puts it, however long the key. */
  lemma OctetOfKey(prf: bytes -> bytes, salt: bytes, c: nat, keyLen: nat, q: nat, r: nat)
    requires c >= 1 && FixedLength(prf) && r < |prf([])|
    requires (q * |prf([])|) + r < keyLen
    ensures DK(prf, salt, c, keyLen)[q * |prf([])| + r] == T(prf, salt, c, q + 1)[r]
  {
    var n := BlockCount(keyLen, |prf([])|);
    EnoughBlocks(prf, salt, c, keyLen);
    BlocksLength(prf, salt, c, q);
    NoSpareBlock(prf, salt, c, keyLen, q);
    BlocksPrefix(prf, salt, c, q + 1, n);
  }

  /** The innermost loop. */
  method XorInto(t: array<bv8>, u: bytes)
    requires |u| == t.Length
    modifies t
    ensures t[..] == Xor(old(t[..]), u)
  {
    var j := 0;
    while j < t.Length
      invariant 0 <= j <= t.Length
      invariant forall k :: 0 <= k < j ==> t[k] == old(t[k]) ^ u[k]
      invariant forall k :: j <= k < t.Length ==> t[k] == old(t[k])
    {
      t[j] := t[j] ^ u[j];
      j := j + 1;
    }
  }

  /** The PRF input of a block's first application. */
  method FirstInput(salt: bytes, block: nat) returns (buf: array<bv8>)
    ensures fresh(buf) && buf[..] == salt + IntBE(block)
  {
    buf := new bv8[|salt| + 4](_ => 0);
    forall k | 0 <= k < |salt| { buf[k] := salt[k]; }
    var octets := IntBE(block);
    buf[|salt|] := octets[0];
    buf[|salt| + 1] := octets[1];
    buf[|salt| + 2] := octets[2];
    buf[|salt| + 3] := octets[3];
    assert buf[..|salt|] == salt;
    assert buf[|salt|..] == octets;
    assert buf[..] == buf[..|salt|] + buf[|salt|..];
  }

  /** One block. An iteration count below one acts as one. */
  method Block(prf: bytes -> bytes, salt: bytes, iter: int, block: nat) returns (t: array<bv8>)
    requires FixedLength(prf)
    ensures fresh(t) && t[..] == T(prf, salt, if iter < 1 then 1 else iter, block)
  {
    var buf := FirstInput(salt, block);
    var u := prf(buf[..]);
    t := new bv8[|u|](k requires 0 <= k < |u| => u[k]);
    assert t[..] == u;
    var i := 1;
    while i < iter
      invariant 1 <= i <= if iter < 1 then 1 else iter
      invariant u == U(prf, salt, block, i) && t[..] == T(prf, salt, i, block)
    {
      u := prf(u);
      XorInto(t, u);
      i := i + 1;
    }
  }

  /** The loops compute the derived key. */
  method Pbkdf2SHA256(prf: bytes -> bytes, salt: bytes, iter: int, keyLen: nat) returns (key: bytes)
    requires FixedLength(prf)
    ensures key == DK(prf, salt, if iter < 1 then 1 else iter, keyLen)
  {
    ghost var c: nat := if iter < 1 then 1 else iter;
    var hashLen := |prf([])|;
    var numBlocks := (keyLen + hashLen - 1) / hashLen;
    EnoughBlocks(prf, salt, c, keyLen);
    var out: bytes := [];
    var block := 1;
    while block <= numBlocks
      invariant 1 <= block <= numBlocks + 1
      invariant out == Blocks(prf, salt, c, block - 1)
    {
      var t := Block(prf, salt, iter, block);
      out := out + t[..];
      block := block + 1;
    }
    key := out[..keyLen];
  }
}
