/** Bytes, and unsigned integers as little-endian byte strings. */
module Bytes {

  type byte = b: int | 0 <= b < 256

  const TWO_16: nat := 0x1_0000
  const TWO_32: nat := 0x1_0000_0000

  /** The number of values that w bytes can hold. */
  function Pow256(w: nat): (p: nat)
    ensures p > 0
  {
    if w == 0 then 1 else 256 * Pow256(w - 1)
  }

  /** The low w bytes of n, least significant first: an integer converted by htoleNN and copied out. */
  function LE(n: nat, w: nat): (s: seq<byte>)
    ensures |s| == w
  {
    if w == 0 then [] else [n % 256] + LE(n / 256, w - 1)
  }

  /** The integer stored least significant byte first: an integer copied in and converted by leNNtoh. */
  function FromLE(s: seq<byte>): (n: nat)
    ensures n < Pow256(|s|)
  {
    if s == [] then 0 else s[0] + 256 * FromLE(s[1..])
  }

  lemma WordSizes()
    ensures Pow256(1) == 256 && Pow256(2) == TWO_16 && Pow256(4) == TWO_32
    ensures Pow256(8) == TWO_32 * TWO_32
  {
    assert Pow256(1) == 256 * Pow256(0);
    assert Pow256(3) == 256 * Pow256(2);
    assert Pow256(5) == 256 * Pow256(4);
    assert Pow256(7) == 256 * Pow256(6);
  }

  /** Reading back a written integer gives it unchanged when it fits. */
  lemma {:induction false} ReadsBack(n: nat, w: nat)
    requires n < Pow256(w)
    ensures FromLE(LE(n, w)) == n
  {
    if w > 0 {
      ReadsBack(n / 256, w - 1);
      assert LE(n, w)[1..] == LE(n / 256, w - 1);
    }
  }

  /** Writing a read integer gives the same bytes again. */
  lemma {:induction false} WritesBack(s: seq<byte>)
    ensures LE(FromLE(s), |s|) == s
  {
    if s != [] {
      var n, m := FromLE(s), FromLE(s[1..]);
      assert n % 256 == s[0] && n / 256 == m;
      WritesBack(s[1..]);
      assert LE(n, |s|) == [s[0]] + LE(m, |s| - 1);
    }
  }

  /** Byte i of a written integer is its digit i to the base 256. */
  lemma {:induction false} ByteAt(n: nat, w: nat, i: nat)
    requires i < w
    ensures LE(n, w)[i] == n / Pow256(i) % 256
  {
    if i > 0 {
      ByteAt(n / 256, w - 1, i - 1);
      assert LE(n, w)[i] == LE(n / 256, w - 1)[i - 1];
      DivideTwice(n, Pow256(i - 1));
    }
  }

  lemma DivideTwice(n: nat, p: nat)
    requires p > 0
    ensures n / 256 / p == n / (256 * p)
  {
    var q, r := n / 256 / p, n / 256 % p;
    assert n == 256 * (p * q + r) + n % 256;
    assert n == (256 * p) * q + (256 * r + n % 256) && 0 <= 256 * r + n % 256 < 256 * p;
    Quotient(n, 256 * p, q, 256 * r + n % 256);
  }

  lemma Quotient(n: nat, d: nat, q: nat, r: nat)
    requires n == d * q + r && r < d
    ensures n / d == q
  {
    var k := n / d - q;
    assert d * k == r - n % d;
    Multiple(d, k);
  }

  lemma Multiple(d: nat, k: int)
    ensures k >= 1 ==> d * k >= d
    ensures k <= -1 ==> d * k + d <= 0
  {
    if k >= 1 {
      assert d * (k - 1) >= 0;
    } else if k <= -1 {
      assert d * (-k - 1) >= 0;
    }
  }

  /** The fields of the envelopes in numbers, least significant byte first. */
  lemma FieldValue(s: seq<byte>)
    ensures |s| == 2 ==> FromLE(s) == s[0] as int + 0x100 * s[1] as int
    ensures |s| == 4 ==>
              FromLE(s) == s[0] as int + 0x100 * s[1] as int + 0x1_0000 * s[2] as int + 0x100_0000 * s[3] as int
  {
  }

  /** Two-byte and four-byte fields, the only widths the envelopes use. */
  lemma FieldReadsBack(n: nat)
    ensures n < TWO_32 ==> FromLE(LE(n, 4)) == n
    ensures n < TWO_16 ==> FromLE(LE(n, 2)) == n
  {
    WordSizes();
    if n < TWO_32 { ReadsBack(n, 4); }
    if n < TWO_16 { ReadsBack(n, 2); }
  }

  lemma FieldBounds(s: seq<byte>)
    ensures |s| == 4 ==> FromLE(s) < TWO_32
    ensures |s| == 2 ==> FromLE(s) < TWO_16
  {
    WordSizes();
  }
}
