/** Bytes, fixed-width unsigned integers, big-endian byte order and UTF-8:
    the low-level encodings the frame codec and the handshake rely on. */
module Wire {

  /** One octet. The source's bit masks on bytes are written arithmetically
      (`b & 0x80 != 0` is `b >= 0x80`, `b & 0x0F` is `b % 0x10`); only XOR goes
      through the bit-vector type. */
  type byte = b: int | 0 <= b < 0x100

  /** Bitwise exclusive or of the n low-order bits of a and b, computed bit
      by bit from the least significant end. */
  function XorBits(a: nat, b: nat, n: nat): (r: nat)
    ensures r < Pow2(n)
  {
    if n == 0 then 0 else (if a % 2 == b % 2 then 0 else 1) + 2 * XorBits(a / 2, b / 2, n - 1)
  }

  function Pow2(n: nat): (p: nat)
    ensures p >= 1
  {
    if n == 0 then 1 else 2 * Pow2(n - 1)
  }

  /** Rust's `^` on `u8`. */
  function Xor(a: byte, b: byte): byte
  {
    assert Pow2(8) == 0x100;
    XorBits(a, b, 8)
  }

  /** XOR-ing twice with the same key gives back any value of n bits. */
  lemma {:induction false} XorBitsInvolution(a: nat, k: nat, n: nat)
    requires a < Pow2(n)
    ensures XorBits(XorBits(a, k, n), k, n) == a
  {
    if n > 0 {
      var x := XorBits(a, k, n);
      var rest := XorBits(a / 2, k / 2, n - 1);
      assert x % 2 == (if a % 2 == k % 2 then 0 else 1) && x / 2 == rest;
      assert a / 2 < Pow2(n - 1);
      XorBitsInvolution(a / 2, k / 2, n - 1);
    }
  }

  /** XOR with the same key byte twice is the identity: masking and unmasking
      are one algorithm. */
  lemma XorInvolution(a: byte, k: byte)
    ensures Xor(Xor(a, k), k) == a
  {
    assert Pow2(8) == 0x100;
    XorBitsInvolution(a, k, 8);
  }

  /** Rust's `Result`: a value or an error. */
  datatype Result<T, E> = Ok(value: T) | Err(error: E)

  /** Rust's `Option`. */
  datatype Option<T> = None | Some(value: T)

  /** Rust's `u16` and `u64`, as ranges of the unbounded integers. */
  type u16 = n: int | 0 <= n < 0x1_0000
  type u64 = n: int | 0 <= n < 0x1_0000_0000_0000_0000

  /** 256 to the power w: one more than the largest value w bytes can hold. */
  function Pow256(w: nat): (p: nat)
    ensures p >= 1
  {
    if w == 0 then 1 else 256 * Pow256(w - 1)
  }

  lemma Pow256Values()
    ensures Pow256(2) == 0x1_0000
    ensures Pow256(8) == 0x1_0000_0000_0000_0000
  {
    assert Pow256(1) == 256;
    assert Pow256(2) == 0x1_0000;
    assert Pow256(4) == 0x1_0000_0000 by {
      assert Pow256(3) == 0x100_0000;
    }
    assert Pow256(6) == 0x1_0000_0000_0000 by {
      assert Pow256(5) == 0x100_0000_0000;
    }
    assert Pow256(7) == 0x100_0000_0000_0000;
  }

  /** The w low-order bytes of n, most significant first (`to_be_bytes`). */
  function BigEndian(n: nat, w: nat): (r: seq<byte>)
    ensures |r| == w
  {
    if w == 0 then [] else BigEndian(n / 256, w - 1) + [n % 256]
  }

  /** The value of a big-endian byte string (`from_be_bytes`). */
  function FromBigEndian(s: seq<byte>): (n: nat)
    ensures n < Pow256(|s|)
  {
    if s == [] then 0 else FromBigEndian(s[..|s| - 1]) * 256 + s[|s| - 1]
  }

  /** Two bytes read big-endian (`u16::from_be_bytes`). */
  lemma FromBigEndianPair(s: seq<byte>)
    requires |s| == 2
    ensures FromBigEndian(s) == s[0] as int * 0x100 + s[1] as int
  {
    assert s[..1][..0] == [];
  }

  /** Reading back w big-endian bytes gives the number that was written,
      provided it fits in w bytes. */
  lemma {:induction false} BigEndianRoundTrip(n: nat, w: nat)
    requires n < Pow256(w)
    ensures FromBigEndian(BigEndian(n, w)) == n
  {
    if w > 0 {
      var s := BigEndian(n, w);
      assert s[..w - 1] == BigEndian(n / 256, w - 1);
      DivideBound(n, Pow256(w - 1));
      BigEndianRoundTrip(n / 256, w - 1);
      assert s[w - 1] == n % 256;
    }
  }

  lemma DivideBound(n: nat, p: nat)
    requires n < 256 * p
    ensures n / 256 < p
  {
  }

  /** Writing back the value of a byte string reproduces the string. */
  lemma {:induction false} FromBigEndianRoundTrip(s: seq<byte>)
    ensures BigEndian(FromBigEndian(s), |s|) == s
  {
    if s != [] {
      var init, last := s[..|s| - 1], s[|s| - 1];
      var n := FromBigEndian(s);
      assert n == FromBigEndian(init) * 256 + last;
      assert n / 256 == FromBigEndian(init);
      assert n % 256 == last;
      FromBigEndianRoundTrip(init);
      assert s == init + [last];
    }
  }

  /** Byte strings written one after the other. */
  function Concat(chunks: seq<seq<byte>>): (r: seq<byte>)
  {
    if chunks == [] then [] else Concat(chunks[..|chunks| - 1]) + chunks[|chunks| - 1]
  }

  /** Writing two runs of chunks is writing the first, then the second. */
  lemma {:induction false} ConcatAppend(xs: seq<seq<byte>>, ys: seq<seq<byte>>)
    ensures Concat(xs + ys) == Concat(xs) + Concat(ys)
  {
    if ys == [] {
      assert xs + ys == xs;
    } else {
      var all := xs + ys;
      assert all[..|all| - 1] == xs + ys[..|ys| - 1];
      ConcatAppend(xs, ys[..|ys| - 1]);
    }
  }

  lemma AppendAssociative<T>(a: seq<T>, b: seq<T>, c: seq<T>)
    ensures a + (b + c) == (a + b) + c
  {
  }

  /** The head and the tail of a concatenation that starts non-empty. */
  lemma ConcatHead<T>(xs: seq<T>, ys: seq<T>, zs: seq<T>)
    requires xs != []
    ensures (xs + ys + zs)[0] == xs[0]
    ensures (xs + ys + zs)[1..] == xs[1..] + ys + zs
  {
  }

  /** A chunk in front of a run is written first. */
  lemma ConcatCons(x: seq<byte>, xs: seq<seq<byte>>)
    ensures Concat([x] + xs) == x + Concat(xs)
  {
    ConcatAppend([x], xs);
    assert [x][..0] == [];
  }

  /** f applied to each element of xs, in order. */
  function Map<A, B>(f: A -> B, xs: seq<A>): (ys: seq<B>)
    ensures |ys| == |xs|
  {
    seq(|xs|, i requires 0 <= i < |xs| => f(xs[i]))
  }

  lemma MapAt<A, B>(f: A -> B, xs: seq<A>, i: nat)
    requires i < |xs|
    ensures Map(f, xs)[i] == f(xs[i])
  {
  }

  /** Mapping one more element adds its image at the end. */
  lemma MapSnoc<A, B>(f: A -> B, xs: seq<A>, x: A)
    ensures Map(f, xs + [x]) == Map(f, xs) + [f(x)]
  {
  }

  /** Mapping a prefix gives the prefix of the mapped sequence. */
  lemma MapPrefix<A, B>(f: A -> B, xs: seq<A>, n: nat)
    requires n <= |xs|
    ensures Map(f, xs[..n]) == Map(f, xs)[..n]
  {
  }

  /** A value in neither of two sequences is not in their concatenation. */
  lemma NotInConcat<T>(x: T, a: seq<T>, b: seq<T>)
    requires x !in a && x !in b
    ensures x !in a + b
  {
  }

  /** The UTF-8 encoding of one Unicode scalar value. */
  function Utf8Char(c: char): (r: seq<byte>)
    ensures 1 <= |r| <= 4
    ensures |r| == 1 <==> c as int < 0x80
    ensures |r| == 1 ==> r[0] == c as int
  {
    var n := c as int;
    if n < 0x80 then
      [n]
    else if n < 0x800 then
      [0xC0 + n / 0x40, 0x80 + n % 0x40]
    else if n < 0x1_0000 then
      [0xE0 + n / 0x1000, 0x80 + (n / 0x40) % 0x40, 0x80 + n % 0x40]
    else
      [0xF0 + n / 0x4_0000, 0x80 + (n / 0x1000) % 0x40, 0x80 + (n / 0x40) % 0x40, 0x80 + n % 0x40]
  }

  /** The UTF-8 encoding of a string (Rust's `str::as_bytes`). */
  function Utf8(s: string): (r: seq<byte>)
    ensures |s| <= |r| <= 4 * |s|
  {
    if s == [] then [] else Utf8(s[..|s| - 1]) + Utf8Char(s[|s| - 1])
  }

  /** An ASCII string encodes to one byte per character, each byte its code. */
  lemma {:induction false} Utf8Ascii(s: string)
    requires forall i :: 0 <= i < |s| ==> s[i] as int < 0x80
    ensures |Utf8(s)| == |s|
    ensures forall i :: 0 <= i < |s| ==> Utf8(s)[i] == s[i] as int
  {
    if s != [] {
      Utf8Ascii(s[..|s| - 1]);
    }
  }
}
