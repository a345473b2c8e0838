/**
 * The fixed-width codec: a 256-bit word as 32 bytes, big-endian (most significant
 * byte first) or little-endian, and byte strings cut into big-endian words.
 */
module Codec {

  type byte = x: int | 0 <= x < 256

  function Pow256(n: nat): (r: nat)
    ensures r > 0
  {
    if n == 0 then 1 else 256 * Pow256(n - 1)
  }

  /** 2^256, which is `Pow256(32)`. */
  const U256_MODULUS: nat := 0x1_0000_0000_0000_0000_0000_0000_0000_0000_0000_0000_0000_0000_0000_0000_0000_0000

  lemma {:induction false} Pow256Add(a: nat, b: nat)
    ensures Pow256(a + b) == Pow256(a) * Pow256(b)
  {
    if b > 0 {
      Pow256Add(a, b - 1);
      assert Pow256(a + b) == 256 * Pow256(a + b - 1);
    }
  }

  lemma {:induction false} WordModulus()
    ensures Pow256(32) == U256_MODULUS
  {
    var p2 := Pow256(2);
    assert p2 == 0x1_0000;
    Pow256Add(2, 2);
    var p4 := Pow256(4);
    assert p4 == p2 * p2 == 0x1_0000_0000;
    Pow256Add(4, 4);
    var p8 := Pow256(8);
    assert p8 == p4 * p4 == 0x1_0000_0000_0000_0000;
    Pow256Add(8, 8);
    var p16 := Pow256(16);
    assert p16 == p8 * p8 == 0x1_0000_0000_0000_0000_0000_0000_0000_0000;
    Pow256Add(16, 16);
    assert Pow256(32) == p16 * p16;
  }

  /** A `U256`: an unsigned 256-bit integer. */
  type U256 = x: int | 0 <= x < U256_MODULUS

  /** The `n` low-order base-256 digits of `x`, most significant first. */
  function BeBytes(x: nat, n: nat): (r: seq<byte>)
    ensures |r| == n
  {
    if n == 0 then [] else BeBytes(x / 256, n - 1) + [x % 256]
  }

  /** The `n` low-order base-256 digits of `x`, least significant first. */
  function LeBytes(x: nat, n: nat): (r: seq<byte>)
    ensures |r| == n
  {
    if n == 0 then [] else [x % 256] + LeBytes(x / 256, n - 1)
  }

  /** The number whose big-endian digits are `s`. */
  function FromBeBytes(s: seq<byte>): (x: nat)
    ensures x < Pow256(|s|)
  {
    if s == [] then 0 else FromBeBytes(s[..|s| - 1]) * 256 + s[|s| - 1]
  }

  function Reverse<T>(s: seq<T>): (r: seq<T>)
    ensures |r| == |s|
    ensures forall i :: 0 <= i < |s| ==> r[i] == s[|s| - 1 - i]
  {
    if s == [] then [] else Reverse(s[1..]) + [s[0]]
  }

  lemma {:induction false} BeBytesRoundTrip(x: nat, n: nat)
    requires x < Pow256(n)
    ensures FromBeBytes(BeBytes(x, n)) == x
  {
    if n > 0 {
      var s := BeBytes(x, n);
      var q := x / 256;
      assert s[..n - 1] == BeBytes(q, n - 1);
      assert s[n - 1] == x % 256;
      assert x == 256 * q + x % 256;
      assert q < Pow256(n - 1);
      BeBytesRoundTrip(q, n - 1);
      assert FromBeBytes(s) == FromBeBytes(s[..n - 1]) * 256 + s[n - 1];
    }
  }

  lemma {:induction false} FromBeBytesRoundTrip(s: seq<byte>)
    ensures BeBytes(FromBeBytes(s), |s|) == s
  {
    if s != [] {
      var init := s[..|s| - 1];
      var y := FromBeBytes(init);
      assert (y * 256 + s[|s| - 1]) / 256 == y;
      assert (y * 256 + s[|s| - 1]) % 256 == s[|s| - 1];
      FromBeBytesRoundTrip(init);
      assert init + [s[|s| - 1]] == s;
    }
  }

  lemma {:induction false} LeBytesIsReversedBeBytes(x: nat, n: nat)
    ensures LeBytes(x, n) == Reverse(BeBytes(x, n))
  {
    if n > 0 {
      LeBytesIsReversedBeBytes(x / 256, n - 1);
      var be := BeBytes(x, n);
      assert be == BeBytes(x / 256, n - 1) + [x % 256];
      var r := Reverse(be);
      assert r[0] == x % 256;
      assert r[1..] == Reverse(BeBytes(x / 256, n - 1));
      assert r == [x % 256] + r[1..];
    }
  }

  /**
   * `U256::into_be_iter`: the 32 bytes of a word, most significant first, so that
   * reading them back as a big-endian number gives the word.
   */
  function IntoBeIter(w: U256): (r: seq<byte>)
    ensures |r| == 32
    ensures FromBeBytes(r) == w
  {
    WordModulus();
    BeBytesRoundTrip(w, 32);
    BeBytes(w, 32)
  }

  /** `U256::into_le_iter`: the 32 bytes of a word, least significant first. */
  function IntoLeIter(w: U256): (r: seq<byte>)
    ensures |r| == 32
    ensures r == Reverse(IntoBeIter(w))
  {
    LeBytesIsReversedBeBytes(w, 32);
    LeBytes(w, 32)
  }

  /** `U256::from_big_endian` on exactly 32 bytes. */
  function U256FromBigEndian(s: seq<byte>): (w: U256)
    requires |s| == 32
    ensures IntoBeIter(w) == s
  {
    FromBeBytesRoundTrip(s);
    WordModulus();
    FromBeBytes(s)
  }

  /** The big-endian bytes of a run of words, one word after another. */
  function WordsToBeBytes(ws: seq<U256>): (r: seq<byte>)
    ensures |r| == 32 * |ws|
  {
    if ws == [] then [] else IntoBeIter(ws[0]) + WordsToBeBytes(ws[1..])
  }

  /** A bytecode as stored: a whole number of 32-byte words. */
  type Bytecode = b: seq<byte> | |b| % 32 == 0

  /** `bytes_to_be_words`: consecutive 32-byte chunks read as big-endian words. */
  function BytesToBeWords(b: Bytecode): (ws: seq<U256>)
    ensures |ws| == |b| / 32
    ensures WordsToBeBytes(ws) == b
    decreases |b|
  {
    if |b| == 0 then []
    else
      var rest: Bytecode := b[32..];
      var ws := [U256FromBigEndian(b[..32])] + BytesToBeWords(rest);
      assert ws[1..] == BytesToBeWords(rest);
      assert b == b[..32] + rest;
      ws
  }

  /** Byte `j` of word `w` is byte `32 * w + j` of the concatenation. */
  lemma {:induction false} WordsToBeBytesAt(ws: seq<U256>, w: nat, j: nat)
    requires w < |ws| && j < 32
    ensures WordsToBeBytes(ws)[32 * w + j] == IntoBeIter(ws[w])[j]
  {
    assert WordsToBeBytes(ws) == IntoBeIter(ws[0]) + WordsToBeBytes(ws[1..]);
    if w > 0 {
      WordsToBeBytesAt(ws[1..], w - 1, j);
      assert 32 * w + j == 32 + (32 * (w - 1) + j);
    }
  }
}
