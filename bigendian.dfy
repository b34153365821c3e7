/**
 * Unsigned big-endian ("network byte order", the `!` prefix of Python's
 * `struct` formats) encoding of natural numbers into a fixed number of bytes.
 */
module BigEndian {

  /** One byte of a packed message. */
  type byte = x: int | 0 <= x < 256

  /** 256 to the power w: how many distinct values w bytes can hold. */
  function Pow256(w: nat): (r: nat)
    ensures r >= 1
    ensures w > 0 ==> r >= 256 && r % 2 == 0
  {
    if w == 0 then 1 else 256 * Pow256(w - 1)
  }

  /** The widths the codecs use, as literals. */
  lemma Pow256Values()
    ensures Pow256(1) == 0x100
    ensures Pow256(2) == 0x1_0000
    ensures Pow256(4) == 0x1_0000_0000
    ensures Pow256(8) == 0x1_0000_0000_0000_0000
  {
    assert Pow256(0) == 1;
    assert Pow256(1) == 0x100;
    assert Pow256(2) == 0x1_0000;
    assert Pow256(3) == 0x100_0000;
    assert Pow256(4) == 0x1_0000_0000;
    assert Pow256(5) == 0x100_0000_0000;
    assert Pow256(6) == 0x1_0000_0000_0000;
    assert Pow256(7) == 0x100_0000_0000_0000;
  }

  /** n written as exactly w bytes, most significant byte first. */
  function Encode(w: nat, n: nat): (r: seq<byte>)
    requires n < Pow256(w)
    ensures |r| == w
  {
    if w == 0 then [] else Encode(w - 1, n / 256) + [n % 256]
  }

  /** The number whose big-endian representation is s. */
  function Decode(s: seq<byte>): (r: nat)
    ensures r < Pow256(|s|)
  {
    if s == [] then 0 else Decode(s[..|s| - 1]) * 256 + s[|s| - 1]
  }

  /** Decoding undoes encoding. */
  lemma {:induction false} DecodeEncode(w: nat, n: nat)
    requires n < Pow256(w)
    ensures Decode(Encode(w, n)) == n
  {
    if w > 0 {
      var e := Encode(w, n);
      assert e[..w - 1] == Encode(w - 1, n / 256);
      DecodeEncode(w - 1, n / 256);
    }
  }

  /** Encoding undoes decoding: every w-byte string is the encoding of exactly one number. */
  lemma {:induction false} EncodeDecode(s: seq<byte>)
    ensures Encode(|s|, Decode(s)) == s
  {
    if s != [] {
      var init, last := s[..|s| - 1], s[|s| - 1];
      var d := Decode(init);
      assert (d * 256 + last) / 256 == d;
      assert (d * 256 + last) % 256 == last;
      EncodeDecode(init);
      assert s == init + [last];
    }
  }

  /**
   * Byte i of the encoding (counting from the start of the buffer) holds the
   * digit of weight 256^(w-1-i): the first byte is the most significant.
   */
  lemma {:induction false} ByteAt(w: nat, n: nat, i: nat)
    requires n < Pow256(w) && i < w
    ensures Encode(w, n)[i] == (n / Pow256(w - 1 - i)) % 256
  {
    if i < w - 1 {
      ByteAt(w - 1, n / 256, i);
      DivDiv(n, 256, Pow256(w - 2 - i));
      assert Pow256(w - 1 - i) == 256 * Pow256(w - 2 - i);
    }
  }

  /** Appending a byte shifts the number one byte to the left and adds the byte. */
  lemma DecodeSnoc(s: seq<byte>, b: byte)
    ensures Decode(s + [b]) == Decode(s) * 256 + b
  {
    assert (s + [b])[..|s|] == s;
  }

  lemma Decode1(b0: byte)
    ensures Decode([b0]) == b0
  {
    assert [] + [b0] == [b0];
    DecodeSnoc([], b0);
  }

  lemma Decode4(b0: byte, b1: byte, b2: byte, b3: byte)
    ensures Decode([b0, b1, b2, b3]) == ((b0 * 256 + b1) * 256 + b2) * 256 + b3
  {
    Decode1(b0);
    assert [b0] + [b1] == [b0, b1];
    DecodeSnoc([b0], b1);
    assert [b0, b1] + [b2] == [b0, b1, b2];
    DecodeSnoc([b0, b1], b2);
    assert [b0, b1, b2] + [b3] == [b0, b1, b2, b3];
    DecodeSnoc([b0, b1, b2], b3);
  }

  lemma Decode8(b0: byte, b1: byte, b2: byte, b3: byte, b4: byte, b5: byte, b6: byte, b7: byte)
    ensures Decode([b0, b1, b2, b3, b4, b5, b6, b7])
            == ((((Decode([b0, b1, b2, b3]) * 256 + b4) * 256 + b5) * 256 + b6) * 256 + b7)
  {
    assert [b0, b1, b2, b3] + [b4] == [b0, b1, b2, b3, b4];
    DecodeSnoc([b0, b1, b2, b3], b4);
    assert [b0, b1, b2, b3, b4] + [b5] == [b0, b1, b2, b3, b4, b5];
    DecodeSnoc([b0, b1, b2, b3, b4], b5);
    assert [b0, b1, b2, b3, b4, b5] + [b6] == [b0, b1, b2, b3, b4, b5, b6];
    DecodeSnoc([b0, b1, b2, b3, b4, b5], b6);
    assert [b0, b1, b2, b3, b4, b5, b6] + [b7] == [b0, b1, b2, b3, b4, b5, b6, b7];
    DecodeSnoc([b0, b1, b2, b3, b4, b5, b6], b7);
  }

  /** Dividing twice is dividing by the product. */
  lemma DivDiv(n: nat, a: nat, b: nat)
    requires a > 0 && b > 0
    ensures n / a / b == n / (a * b)
  {
    var q, r := n / a, n % a;
    var q2, r2 := q / b, q % b;
    Regroup(n, a, b, q, r, q2, r2);
    DivUnique(n, a * b, q2, a * r2 + r);
  }

  /** n = a*q + r with q = b*q2 + r2 regroups as n = (a*b)*q2 + (a*r2 + r), the new remainder below a*b. */
  lemma Regroup(n: nat, a: nat, b: nat, q: nat, r: nat, q2: nat, r2: nat)
    requires n == a * q + r && r < a && q == b * q2 + r2 && r2 < b
    ensures n == (a * b) * q2 + (a * r2 + r) && a * r2 + r < a * b
  {
    assert a * q == (a * b) * q2 + a * r2 by { Distribute(a, b * q2, r2); MulAssoc(a, b, q2); }
    assert a * r2 + r < a * b by {
      var m: nat := b - 1;
      MulMonotone(a, r2, m);
      MulSucc(a, m);
      assert m + 1 == b;
    }
  }

  lemma Distribute(a: int, x: int, y: int)
    ensures a * (x + y) == a * x + a * y
  {}

  lemma MulSucc(a: int, m: int)
    ensures a * (m + 1) == a * m + a
  {}

  lemma MulAssoc(a: int, b: int, c: int)
    ensures a * (b * c) == (a * b) * c
  {}

  lemma MulMonotone(a: nat, x: nat, y: nat)
    requires x <= y
    ensures a * x <= a * y
  {}

  lemma DivUnique(n: nat, d: nat, q: nat, r: nat)
    requires d > 0 && n == d * q + r && r < d
    ensures n / d == q
  {
    var q', r' := n / d, n % d;
    assert d * q + r == d * q' + r';
    if q' < q {
      assert d * q >= d * (q' + 1) by { MulMonotone(d, q' + 1, q); }
    } else if q' > q {
      assert d * q' >= d * (q + 1) by { MulMonotone(d, q + 1, q'); }
    }
  }
}
