/**
 * The field codecs of binmsg: the fixed-width `BinStruct` kinds (one Python
 * class each) and the length-prefixed `String`. Each kind has a byte width
 * (`size`), a numeric domain checked by the record packer (`_min`, `_max`),
 * and the `pack`/`unpack` pair that Python's `struct` module performs.
 */
module Structs {
  import opened Wrappers
  import BE = BigEndian

  type byte = BE.byte

  /**
   * The `length_format` of a `String`: the unsigned big-endian integer that
   * carries the payload length ('!B', '!H', '!I' or '!Q').
   */
  datatype LengthFormat = PrefixU8 | PrefixU16 | PrefixU32 | PrefixU64 {
    function Width(): (w: nat)
      ensures w in {1, 2, 4, 8}
    {
      match this
      case PrefixU8 => 1
      case PrefixU16 => 2
      case PrefixU32 => 4
      case PrefixU64 => 8
    }
  }

  /** `String()` uses an unsigned 32-bit length prefix unless told otherwise. */
  const DefaultLengthFormat: LengthFormat := PrefixU32

  /** The codec classes: '!B', '!c', '!i', '!I', '!q', '!Q' and the length-prefixed string. */
  datatype Kind =
    | UnsignedChar
    | Char
    | Integer
    | UnsignedInteger
    | BigInteger
    | UnsignedBigInteger
    | String(lengthFormat: LengthFormat)

  /**
   * A record value, tagged with the Python type the codec converts it to:
   * an integer, an (already UTF-8 encoded) string, or a one-byte character.
   */
  datatype Value = IntV(i: int) | StrV(s: seq<byte>) | CharV(c: byte)

  /** A message: field name to value. */
  type Record = map<string, Value>

  predicate IsInteger(k: Kind) {
    k.UnsignedChar? || k.Integer? || k.UnsignedInteger? || k.BigInteger? || k.UnsignedBigInteger?
  }

  /** The two's-complement kinds ('!i' and '!q'). */
  predicate IsSigned(k: Kind) {
    k.Integer? || k.BigInteger?
  }

  /** `size`: the fixed byte width; None for `String`, whose `size` raises SizeNotDefined. */
  function Size(k: Kind): (r: Option<nat>)
    ensures r.None? <==> k.String?
    ensures r.Some? ==> r.value in {1, 4, 8}
  {
    match k
    case UnsignedChar => Some(1)
    case Char => Some(1)
    case Integer => Some(4)
    case UnsignedInteger => Some(4)
    case BigInteger => Some(8)
    case UnsignedBigInteger => Some(8)
    case String(_) => None
  }

  /** The sizes of the integer kinds and the number of patterns each holds. */
  lemma Widths()
    ensures Size(UnsignedChar) == Some(1) && Size(Integer) == Some(4) && Size(UnsignedInteger) == Some(4)
    ensures Size(BigInteger) == Some(8) && Size(UnsignedBigInteger) == Some(8)
    ensures BE.Pow256(1) == 0x100 && BE.Pow256(4) == 0x1_0000_0000 && BE.Pow256(8) == 0x1_0000_0000_0000_0000
  {
    BE.Pow256Values();
  }

  /**
   * `_min` of the integer kinds: 0 for the unsigned ones, and for the signed
   * ones one above the most negative two's-complement value, which the format
   * holds but pack refuses. `Char`'s string-compared bounds are not modelled;
   * `String` has none.
   */
  function Min(k: Kind): (r: Option<int>)
    ensures r.Some? <==> IsInteger(k)
    ensures r.Some? ==> Representable(k, r.value) && (r.value == 0 <==> !IsSigned(k))
    ensures r.Some? && IsSigned(k) ==> Representable(k, r.value - 1) && !Representable(k, r.value - 2)
  {
    match k
    case UnsignedChar => Widths(); Some(0)
    case Integer => Widths(); Some(-2147483647)
    case UnsignedInteger => Widths(); Some(0)
    case BigInteger => Widths(); Some(-9223372036854775807)
    case UnsignedBigInteger => Widths(); Some(0)
    case _ => None
  }

  /** `_max` as the source writes it: one past the largest value the format can hold. */
  function SourceMax(k: Kind): (r: Option<int>)
    ensures r.Some? <==> IsInteger(k)
    ensures r.Some? ==> !Representable(k, r.value) && Representable(k, r.value - 1)
  {
    match k
    case UnsignedChar => Widths(); Some(256)
    case Integer => Widths(); Some(2147483648)
    case UnsignedInteger => Widths(); Some(4294967296)
    case BigInteger => Widths(); Some(9223372036854775808)
    case UnsignedBigInteger => Widths(); Some(18446744073709551616)
    case _ => None
  }

  /** The largest value each integer kind can hold, the bound the record packer enforces. */
  function Max(k: Kind): (r: Option<int>)
    ensures r.Some? <==> IsInteger(k)
    ensures r.Some? ==> Representable(k, r.value) && !Representable(k, r.value + 1)
  {
    match k
    case UnsignedChar => Widths(); Some(255)
    case Integer => Widths(); Some(2147483647)
    case UnsignedInteger => Widths(); Some(4294967295)
    case BigInteger => Widths(); Some(9223372036854775807)
    case UnsignedBigInteger => Widths(); Some(18446744073709551615)
    case _ => None
  }

  /** `struct._type(value)` succeeds: the value carries the codec's type. */
  predicate TypeMatches(k: Kind, v: Value) {
    if IsInteger(k) then v.IntV? else if k.Char? then v.CharV? else v.StrV?
  }

  /** The values `struct.pack` accepts for an integer format of this kind. */
  predicate Representable(k: Kind, n: int)
    requires IsInteger(k)
  {
    InRange(Size(k).value, IsSigned(k), n)
  }

  /** The range of a w-byte integer format: [-256^w/2, 256^w/2) when signed, [0, 256^w) otherwise. */
  predicate InRange(w: nat, signed: bool, n: int) {
    var m := BE.Pow256(w);
    if signed then -(m / 2) <= n < m / 2 else 0 <= n < m
  }

  /** The unsigned number whose w-byte pattern is n's two's-complement representation. */
  function TwosComplement(w: nat, n: int): (u: nat)
    requires 0 <= n + BE.Pow256(w) && n < BE.Pow256(w)
    ensures u < BE.Pow256(w)
  {
    if n < 0 then n + BE.Pow256(w) else n
  }

  /** The integer a w-byte pattern u stands for, read as signed or unsigned. */
  function FromPattern(w: nat, signed: bool, u: nat): (n: int) {
    var m := BE.Pow256(w);
    if signed && u >= m / 2 then u - m else u
  }

  /**
   * `pack`: the bytes `struct.pack` (or `String.pack`) produces, or None where
   * it raises: a value of the wrong type, an integer the format cannot hold,
   * or a string too long for its length prefix.
   */
  function Encode(k: Kind, v: Value): (r: Option<seq<byte>>)
    ensures r.Some? ==> TypeMatches(k, v)
    ensures r.Some? && Size(k).Some? ==> |r.value| == Size(k).value
    ensures r.Some? && k.String? ==> |r.value| == k.lengthFormat.Width() + |v.s|
  {
    match k
    case String(lf) =>
      if v.StrV? && |v.s| < BE.Pow256(lf.Width())
      then Some(BE.Encode(lf.Width(), |v.s|) + v.s)
      else None
    case Char =>
      if v.CharV? then Some([v.c]) else None
    case _ =>
      var w := Size(k).value;
      if v.IntV? && Representable(k, v.i) then Some(BE.Encode(w, TwosComplement(w, v.i))) else None
  }

  /** `unpack` of a fixed-width kind: None unless exactly `size` bytes are given. */
  function DecodeFixed(k: Kind, s: seq<byte>): (r: Option<Value>)
    requires !k.String?
    ensures r.Some? <==> |s| == Size(k).value
    ensures r.Some? ==> TypeMatches(k, r.value)
  {
    if |s| != Size(k).value then None
    else if k.Char? then Some(CharV(s[0]))
    else Some(IntV(FromPattern(|s|, IsSigned(k), BE.Decode(s))))
  }

  /**
   * `String.unpack`, with the declared length passed in by the caller rather
   * than read from the codec object: None unless the payload has that length.
   */
  function DecodeString(declared: nat, payload: seq<byte>): (r: Option<Value>)
    ensures r.Some? <==> |payload| == declared
    ensures r.Some? ==> r.value.StrV? && r.value.s == payload
  {
    if |payload| != declared then None else Some(StrV(payload))
  }

  /** A w-byte pattern read back as signed or unsigned gives the integer it was made from. */
  lemma PatternRoundTrip(w: nat, signed: bool, n: int)
    requires InRange(w, signed, n)
    ensures FromPattern(w, signed, TwosComplement(w, n)) == n
  {}

  /** Every w-byte pattern stands for an integer in range whose pattern it is. */
  lemma PatternOfDecoded(w: nat, signed: bool, u: nat)
    requires w > 0 && u < BE.Pow256(w)
    ensures InRange(w, signed, FromPattern(w, signed, u))
    ensures TwosComplement(w, FromPattern(w, signed, u)) == u
  {}

  /** Every fixed-width value that packs unpacks to itself. */
  lemma FixedRoundTrip(k: Kind, v: Value)
    requires !k.String? && Encode(k, v).Some?
    ensures DecodeFixed(k, Encode(k, v).value) == Some(v)
  {
    if IsInteger(k) {
      var w := Size(k).value;
      BE.DecodeEncode(w, TwosComplement(w, v.i));
      PatternRoundTrip(w, IsSigned(k), v.i);
    }
  }

  /** Every byte string of a fixed-width kind's size unpacks to a value that packs back to it. */
  lemma FixedDecodeEncode(k: Kind, s: seq<byte>)
    requires !k.String? && |s| == Size(k).value
    ensures DecodeFixed(k, s).Some?
    ensures Encode(k, DecodeFixed(k, s).value) == Some(s)
  {
    if k.Char? {
      assert [s[0]] == s;
    } else {
      BE.EncodeDecode(s);
      PatternOfDecoded(|s|, IsSigned(k), BE.Decode(s));
    }
  }

  /**
   * Integer layout: byte i of a packed integer is digit i, most significant
   * first, of its two's-complement representation (n itself when n >= 0, and
   * n + 256^size when n < 0).
   */
  lemma IntegerLayout(k: Kind, n: int, i: nat)
    requires IsInteger(k) && Encode(k, IntV(n)).Some? && i < Size(k).value
    ensures var w := Size(k).value;
            var u := if n < 0 then n + BE.Pow256(w) else n;
            Encode(k, IntV(n)).value[i] == (u / BE.Pow256(w - 1 - i)) % 256
  {
    var w := Size(k).value;
    BE.ByteAt(w, TwosComplement(w, n), i);
  }

  /**
   * String layout: a string packs exactly when its length fits the prefix,
   * into the big-endian byte count followed by the payload bytes unchanged.
   */
  lemma StringLayout(lf: LengthFormat, s: seq<byte>)
    ensures Encode(String(lf), StrV(s)).Some? <==> |s| < BE.Pow256(lf.Width())
    ensures Encode(String(lf), StrV(s)).Some? ==>
              var b := Encode(String(lf), StrV(s)).value;
              var w := lf.Width();
              && |b| == w + |s|
              && BE.Decode(b[..w]) == |s|
              && b[w..] == s
  {
    if |s| < BE.Pow256(lf.Width()) {
      var w := lf.Width();
      var b := Encode(String(lf), StrV(s)).value;
      assert b[..w] == BE.Encode(w, |s|);
      BE.DecodeEncode(w, |s|);
    }
  }

  /**
   * The domain the record packer checks, [Min, Max], is exactly the range
   * `struct.pack` can encode above Min: every value in it encodes, and Max + 1
   * does not.
   */
  lemma DomainIsRepresentable(k: Kind, n: int)
    requires IsInteger(k)
    ensures Min(k).value <= n <= Max(k).value ==> Encode(k, IntV(n)).Some?
    ensures Encode(k, IntV(Max(k).value + 1)).None?
  {
    BE.Pow256Values();
  }

  /**
   * The source's `_max` is one more than the largest encodable value, so a
   * value equal to `_max` passes the bounds check and is then refused by
   * `struct.pack`.
   */
  lemma SourceMaxOffByOne(k: Kind)
    requires IsInteger(k)
    ensures SourceMax(k).value == Max(k).value + 1
    ensures Encode(k, IntV(SourceMax(k).value)).None?
  {
    BE.Pow256Values();
  }

  /** Packed bytes pinned by the tests for '!B' 129 and '!I' 12345. */
  lemma PackedUnsignedExamples()
    ensures Encode(UnsignedChar, IntV(129)) == Some([129])
    ensures Encode(UnsignedInteger, IntV(12345)) == Some([0, 0, 0x30, 0x39])
  {
    BE.Decode1(129);
    FixedDecodeEncode(UnsignedChar, [129]);
    BE.Decode4(0, 0, 0x30, 0x39);
    FixedDecodeEncode(UnsignedInteger, [0, 0, 0x30, 0x39]);
  }

  /** Packed bytes pinned by the tests for '!i' -12345. */
  lemma PackedNegativeExample()
    ensures Encode(Integer, IntV(-12345)) == Some([0xFF, 0xFF, 0xCF, 0xC7])
  {
    BE.Pow256Values();
    BE.Decode4(0xFF, 0xFF, 0xCF, 0xC7);
    FixedDecodeEncode(Integer, [0xFF, 0xFF, 0xCF, 0xC7]);
  }

  /** Packed bytes pinned by the tests for '!q' 123456789. */
  lemma PackedBigExample()
    ensures Encode(BigInteger, IntV(123456789)) == Some([0, 0, 0, 0, 0x07, 0x5B, 0xCD, 0x15])
  {
    BE.Pow256Values();
    BE.Decode4(0, 0, 0, 0);
    BE.Decode8(0, 0, 0, 0, 0x07, 0x5B, 0xCD, 0x15);
    FixedDecodeEncode(BigInteger, [0, 0, 0, 0, 0x07, 0x5B, 0xCD, 0x15]);
  }

  /** "Test" packs to a 4-byte length 4 followed by its bytes. */
  lemma PackedStringExample()
    ensures Encode(String(DefaultLengthFormat), StrV([0x54, 0x65, 0x73, 0x74]))
            == Some([0, 0, 0, 4, 0x54, 0x65, 0x73, 0x74])
  {
    BE.Pow256Values();
    BE.Decode4(0, 0, 0, 4);
    BE.EncodeDecode([0, 0, 0, 4]);
    assert BE.Encode(4, 4) == [0, 0, 0, 4];
    assert DefaultLengthFormat.Width() == 4;
    assert |[0x54, 0x65, 0x73, 0x74]| < BE.Pow256(4);
    assert [0, 0, 0, 4] + [0x54, 0x65, 0x73, 0x74] == [0, 0, 0, 4, 0x54, 0x65, 0x73, 0x74];
  }
}
