/** Bytes, machine words and the big-endian encodings used on the wire. */
module ByteCodec {

  type byte = b: int | 0 <= b < 256

  type Bytes = seq<byte>

  const U64_LIMIT: nat := 0x1_0000_0000_0000_0000

  type u64 = n: int | 0 <= n < U64_LIMIT

  /** The bytes of an ASCII literal such as a domain-separation tag. */
  function Ascii(s: string): (b: Bytes)
    ensures |b| == |s|
  {
    seq(|s|, i requires 0 <= i < |s| => s[i] as int % 256)
  }

  function Pow256(width: nat): (p: nat)
    ensures p > 0
  {
    if width == 0 then 1 else 256 * Pow256(width - 1)
  }

  lemma Pow256Of8()
    ensures Pow256(8) == U64_LIMIT
  {
    assert Pow256(4) == 0x1_0000_0000;
    assert Pow256(6) == 0x1_0000_0000_0000;
  }

  /** The low `width` bytes of `n`, most significant first. */
  function ToBigEndian(n: nat, width: nat): (b: Bytes)
    ensures |b| == width
  {
    if width == 0 then [] else ToBigEndian(n / 256, width - 1) + [n % 256]
  }

  function FromBigEndian(b: Bytes): (n: nat)
    ensures n < Pow256(|b|)
  {
    if b == [] then 0 else FromBigEndian(b[..|b| - 1]) * 256 + b[|b| - 1]
  }

  lemma {:induction false} DecodeEncode(n: nat, width: nat)
    requires n < Pow256(width)
    ensures FromBigEndian(ToBigEndian(n, width)) == n
  {
    if width > 0 {
      DecodeEncode(n / 256, width - 1);
      var b := ToBigEndian(n, width);
      assert b[..|b| - 1] == ToBigEndian(n / 256, width - 1);
    }
  }

  lemma LastDigit(n: nat, last: byte)
    ensures (n * 256 + last) / 256 == n && (n * 256 + last) % 256 == last
  {
  }

  lemma {:induction false} EncodeDecode(b: Bytes)
    ensures ToBigEndian(FromBigEndian(b), |b|) == b
  {
    if b != [] {
      var init, last := b[..|b| - 1], b[|b| - 1];
      EncodeDecode(init);
      LastDigit(FromBigEndian(init), last);
      assert ToBigEndian(FromBigEndian(b), |b|) == ToBigEndian(FromBigEndian(init), |init|) + [last];
      assert b == init + [last];
    }
  }

  lemma NextDigit(b: Bytes, k: nat)
    requires k < |b|
    ensures FromBigEndian(b[..k + 1]) == FromBigEndian(b[..k]) * 256 + b[k]
  {
    assert b[..k + 1][..k] == b[..k];
  }

  lemma TwoMoreDigits(b: Bytes, k: nat)
    requires k + 2 <= |b|
    ensures FromBigEndian(b[..k + 2]) == FromBigEndian(b[..k]) * 0x1_0000 + b[k] as int * 0x100 + b[k + 1]
  {
    NextDigit(b, k);
    NextDigit(b, k + 1);
  }

  lemma FourMoreDigits(b: Bytes, k: nat)
    requires k + 4 <= |b|
    ensures FromBigEndian(b[..k + 4])
         == FromBigEndian(b[..k]) * 0x1_0000_0000 + b[k] as int * 0x100_0000 + b[k + 1] as int * 0x1_0000
            + b[k + 2] as int * 0x100 + b[k + 3]
  {
    TwoMoreDigits(b, k);
    TwoMoreDigits(b, k + 2);
  }

  lemma EightMoreDigits(b: Bytes, k: nat)
    requires k + 8 <= |b|
    ensures FromBigEndian(b[..k + 8])
         == FromBigEndian(b[..k]) * 0x1_0000_0000_0000_0000
            + b[k] as int * 0x100_0000_0000_0000 + b[k + 1] as int * 0x1_0000_0000_0000
            + b[k + 2] as int * 0x100_0000_0000 + b[k + 3] as int * 0x1_0000_0000
            + b[k + 4] as int * 0x100_0000 + b[k + 5] as int * 0x1_0000 + b[k + 6] as int * 0x100 + b[k + 7]
  {
    FourMoreDigits(b, k);
    FourMoreDigits(b, k + 4);
  }

  lemma NoDigits(b: Bytes)
    ensures FromBigEndian(b[..0]) == 0
  {
  }

  /** Two bytes, by place value. */
  lemma TwoDigits(b: Bytes)
    requires |b| == 2
    ensures FromBigEndian(b) == b[0] as int * 256 + b[1]
  {
    TwoMoreDigits(b, 0);
    assert b[..2] == b;
  }

  /** Eight bytes, by place value. */
  lemma EightDigits(b: Bytes)
    requires |b| == 8
    ensures FromBigEndian(b)
         == b[0] as int * 0x100_0000_0000_0000 + b[1] as int * 0x1_0000_0000_0000
            + b[2] as int * 0x100_0000_0000 + b[3] as int * 0x1_0000_0000
            + b[4] as int * 0x100_0000 + b[5] as int * 0x1_0000 + b[6] as int * 0x100 + b[7]
  {
    EightMoreDigits(b, 0);
    NoDigits(b);
    assert b[..8] == b;
  }

  /** Copies `src` over `dst[at .. at + |src|]`, as `copy_from_slice` on a subslice. */
  method CopyInto<T>(dst: array<T>, at: nat, src: seq<T>)
    requires at + |src| <= dst.Length
    modifies dst
    ensures dst[..at + |src|] == old(dst[..at]) + src
    ensures dst[..] == old(dst[..at]) + src + old(dst[at + |src|..])
  {
    forall i | 0 <= i < |src| {
      dst[at + i] := src[i];
    }
  }

  /** Two equal concatenations whose first parts have equal length agree part by part. */
  lemma SplitConcat<T>(a: seq<T>, b: seq<T>, c: seq<T>, d: seq<T>)
    requires a + b == c + d
    requires |a| == |c|
    ensures a == c && b == d
  {
    assert a == (a + b)[..|a|];
    assert c == (c + d)[..|a|];
    assert b == (a + b)[|a|..];
    assert d == (c + d)[|a|..];
  }
}
