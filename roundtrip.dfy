/**
 * What `pack` and `unpack` promise about each other: unpacking a packed
 * record gives the record back, trailing bytes are ignored, a truncated
 * message fails, and unpacked bytes pack back to the bytes consumed.
 */
module RoundTrip {
  import opened Wrappers
  import opened Structs
  import opened Conditions
  import opened BinMsg
  import BE = BigEndian

  /** No value of the record is the empty string (which packs but does not unpack). */
  ghost predicate NoEmptyStrings(defs: seq<Definition>, msg: Record) {
    forall i :: 0 <= i < |defs| && defs[i].name in msg ==> msg[defs[i].name] != StrV([])
  }

  /**
   * Every definition's condition holds on what unpack will have decoded when
   * it reaches that definition: the starting output plus the record's values
   * for the earlier definitions.
   */
  ghost predicate GatesHold(defs: seq<Definition>, msg: Record, output: Record) {
    forall i :: 0 <= i < |defs| ==> Applies(defs[i].condition, output + Restrict(msg, Names(defs[..i])))
  }

  // Sequence facts, each proved in a context of its own.

  lemma TakeConcat(a: seq<byte>, b: seq<byte>, n: nat)
    requires n <= |a|
    ensures (a + b)[..n] == a[..n]
  {}

  lemma TakeDrop(a: seq<byte>, n: nat)
    requires n <= |a|
    ensures a[..n] + a[n..] == a && a + [] == a
  {}

  lemma TakeSplit(a: seq<byte>, i: nat, j: nat)
    requires i <= j <= |a|
    ensures a[..j] == a[..i] + a[i..j]
  {}

  lemma DropConcat(a: seq<byte>, b: seq<byte>, n: nat)
    requires n <= |a|
    ensures (a + b)[n..] == a[n..] + b
  {}

  /** A packed field, followed by anything, reads back as its value and its own length. */
  lemma ReadPackedField(name: string, k: Kind, v: Value, extra: seq<byte>)
    requires PackField(name, k, v).Ok? && v != StrV([])
    ensures ReadField(name, k, PackField(name, k, v).value + extra) == Ok((v, |PackField(name, k, v).value|))
  {
    if !k.String? {
      ReadPackedFixed(name, k, v, PackField(name, k, v).value, extra);
    } else {
      ReadPackedString(name, k.lengthFormat, v.s, PackField(name, k, v).value, extra);
    }
  }

  lemma ReadPackedFixed(name: string, k: Kind, v: Value, b: seq<byte>, extra: seq<byte>)
    requires !k.String? && Encode(k, v) == Some(b)
    ensures ReadField(name, k, b + extra) == Ok((v, |b|))
  {
    FixedRoundTrip(k, v);
    TakeConcat(b, extra, |b|);
    assert b[..|b|] == b;
  }

  lemma ReadPackedString(name: string, lf: LengthFormat, s: seq<byte>, b: seq<byte>, extra: seq<byte>)
    requires Encode(String(lf), StrV(s)) == Some(b) && s != []
    ensures ReadField(name, String(lf), b + extra) == Ok((StrV(s), |b|))
  {
    StringLayout(lf, s);
    var w := lf.Width();
    TakeConcat(b, extra, w);
    DropConcat(b, extra, w);
    TakeConcat(s, extra, |s|);
    assert s[..|s|] == s;
  }

  /** Reading a field looks only at the bytes it consumes. */
  lemma ReadFieldExtend(name: string, k: Kind, rest: seq<byte>, extra: seq<byte>)
    requires ReadField(name, k, rest).Ok?
    ensures ReadField(name, k, rest + extra) == ReadField(name, k, rest)
  {
    if !k.String? {
      TakeConcat(rest, extra, Size(k).value);
    } else {
      var w := k.lengthFormat.Width();
      TakeConcat(rest, extra, w);
      var size := BE.Decode(rest[..w]);
      assert (rest + extra)[w..][..size] == rest[w..][..size];
    }
  }

  /** Bytes after the fields unpack consumes change nothing but what is left over. */
  lemma {:induction false} UnpackIgnoresTrailing(defs: seq<Definition>, rest: seq<byte>, output: Record, extra: seq<byte>)
    requires UnpackFrom(defs, rest, output).Ok?
    ensures UnpackFrom(defs, rest + extra, output)
            == Ok(Cursor(UnpackFrom(defs, rest, output).value.output, UnpackFrom(defs, rest, output).value.rest + extra))
    decreases |defs|
  {
    if defs != [] {
      var d := defs[0];
      if d.name in output || !Applies(d.condition, output) {
        UnpackIgnoresTrailing(defs[1..], rest, output, extra);
      } else {
        ReadFieldExtend(d.name, d.kind, rest, extra);
        var (v, n) := ReadField(d.name, d.kind, rest).value;
        DropConcat(rest, extra, n);
        UnpackIgnoresTrailing(defs[1..], rest[n..], output[d.name := v], extra);
      }
    }
  }

  lemma NamesOfPrefix(defs: seq<Definition>, i: nat)
    requires i < |defs|
    ensures Names(defs[..i + 1]) == {defs[0].name} + Names(defs[1..][..i])
  {
    assert defs[..i + 1] == [defs[0]] + defs[1..][..i];
    NamesCons(defs[0], defs[1..][..i]);
  }

  /** Distinct names stay distinct in the tail, and the head's name is not among them. */
  lemma DistinctTail(defs: seq<Definition>)
    requires defs != [] && DistinctNames(defs)
    ensures DistinctNames(defs[1..]) && defs[0].name !in Names(defs[1..])
  {
    assert forall i :: 0 <= i < |defs[1..]| ==> defs[1..][i] == defs[i + 1];
  }

  /** The empty-string exclusion carries over to the tail. */
  lemma NoEmptyStringsTail(defs: seq<Definition>, msg: Record)
    requires defs != [] && NoEmptyStrings(defs, msg)
    ensures NoEmptyStrings(defs[1..], msg)
  {
    assert forall i :: 0 <= i < |defs[1..]| ==> defs[1..][i] == defs[i + 1];
  }

  /** Once the head is decoded with the record's value, the tail's conditions hold on the new output. */
  lemma GatesStep(defs: seq<Definition>, msg: Record, output: Record)
    requires defs != [] && defs[0].name in msg && GatesHold(defs, msg, output)
    ensures Applies(defs[0].condition, output)
    ensures GatesHold(defs[1..], msg, output[defs[0].name := msg[defs[0].name]])
  {
    var d := defs[0];
    assert defs[..0] == [];
    assert output + Restrict(msg, Names(defs[..0])) == output;
    var output' := output[d.name := msg[d.name]];
    forall i | 0 <= i < |defs[1..]|
      ensures Applies(defs[1..][i].condition, output' + Restrict(msg, Names(defs[1..][..i])))
    {
      NamesOfPrefix(defs, i);
      RestrictInsert(output, msg, d.name, Names(defs[1..][..i]));
      assert defs[1..][i] == defs[i + 1];
    }
  }

  /** Decoding the record's value for f and then the names N is decoding the names {f} + N. */
  lemma RestrictInsert(output: Record, msg: Record, f: string, names: set<string>)
    requires f in msg
    ensures output[f := msg[f]] + Restrict(msg, names) == output + Restrict(msg, {f} + names)
  {
    var lhs := output[f := msg[f]] + Restrict(msg, names);
    var rhs := output + Restrict(msg, {f} + names);
    assert lhs.Keys == rhs.Keys;
    forall g | g in lhs ensures lhs[g] == rhs[g] {
      if g in names && g in msg {
      } else if g == f {
      }
    }
  }

  /** A packed message is the head's bytes followed by the tail's. */
  lemma PackedCons(defs: seq<Definition>, msg: Record)
    requires defs != [] && Packed(defs, msg).Ok?
    ensures defs[0].name in msg && PackField(defs[0].name, defs[0].kind, msg[defs[0].name]).Ok?
    ensures Packed(defs[1..], msg).Ok?
    ensures Packed(defs, msg).value
            == PackField(defs[0].name, defs[0].kind, msg[defs[0].name]).value + Packed(defs[1..], msg).value
  {}

  /** Unpack reads an applicable head at the cursor and goes on with the rest. */
  lemma UnpackCons(defs: seq<Definition>, rest: seq<byte>, output: Record, v: Value, n: nat)
    requires defs != [] && defs[0].name !in output && Applies(defs[0].condition, output)
    requires ReadField(defs[0].name, defs[0].kind, rest) == Ok((v, n))
    ensures UnpackFrom(defs, rest, output) == UnpackFrom(defs[1..], rest[n..], output[defs[0].name := v])
  {}

  /**
   * A definition whose name is already decoded, or whose condition is false
   * on the output so far, consumes no bytes and adds no key: unpack goes on
   * from the same cursor, and the key is in the result only if it was in the
   * starting output or a later definition reads it.
   */
  lemma SkippedField(defs: seq<Definition>, rest: seq<byte>, output: Record)
    requires defs != [] && (defs[0].name in output || !Applies(defs[0].condition, output))
    ensures UnpackFrom(defs, rest, output) == UnpackFrom(defs[1..], rest, output)
    ensures UnpackFrom(defs, rest, output).Ok? && defs[0].name !in Names(defs[1..]) ==>
              (defs[0].name in UnpackFrom(defs, rest, output).value.output <==> defs[0].name in output)
  {}

  /** The round-trip conditions carry over from a schema to its tail, once the head is decoded. */
  lemma TailConditions(defs: seq<Definition>, msg: Record, output: Record)
    requires defs != [] && DistinctNames(defs) && Names(defs) !! output.Keys
    requires Packed(defs, msg).Ok? && NoEmptyStrings(defs, msg) && GatesHold(defs, msg, output)
    ensures defs[0].name in msg && Applies(defs[0].condition, output) && defs[0].name !in output
    ensures PackField(defs[0].name, defs[0].kind, msg[defs[0].name]).Ok? && msg[defs[0].name] != StrV([])
    ensures Packed(defs, msg).value
            == PackField(defs[0].name, defs[0].kind, msg[defs[0].name]).value + Packed(defs[1..], msg).value
    ensures var output' := output[defs[0].name := msg[defs[0].name]];
            && DistinctNames(defs[1..]) && Names(defs[1..]) !! output'.Keys
            && Packed(defs[1..], msg).Ok? && NoEmptyStrings(defs[1..], msg) && GatesHold(defs[1..], msg, output')
  {
    var d := defs[0];
    NamesCons(d, defs[1..]);
    assert [d] + defs[1..] == defs;
    PackedCons(defs, msg);
    GatesStep(defs, msg, output);
    DistinctTail(defs);
    NoEmptyStringsTail(defs, msg);
  }

  /** Unpacking bytes that start with a packed head reads the head's value and goes on after its bytes. */
  lemma ReadPackedThen(defs: seq<Definition>, output: Record, v: Value, b: seq<byte>, after: seq<byte>)
    requires defs != [] && defs[0].name !in output && Applies(defs[0].condition, output)
    requires PackField(defs[0].name, defs[0].kind, v) == Ok(b) && v != StrV([])
    ensures UnpackFrom(defs, b + after, output) == UnpackFrom(defs[1..], after, output[defs[0].name := v])
  {
    ReadPackedField(defs[0].name, defs[0].kind, v, after);
    UnpackCons(defs, b + after, output, v, |b|);
    DropConcat(b, after, |b|);
    assert b[|b|..] == [];
    assert [] + after == after;
  }

  /** Unpack recovers the packed record on the schema's names, from any starting output it does not overlap. */
  lemma {:induction false} RoundTripFrom(defs: seq<Definition>, msg: Record, output: Record, extra: seq<byte>)
    requires DistinctNames(defs)
    requires Names(defs) !! output.Keys
    requires Packed(defs, msg).Ok?
    requires NoEmptyStrings(defs, msg)
    requires GatesHold(defs, msg, output)
    ensures UnpackFrom(defs, Packed(defs, msg).value + extra, output)
            == Ok(Cursor(output + Restrict(msg, Names(defs)), extra))
    decreases |defs|
  {
    if defs == [] {
      assert output + Restrict(msg, Names(defs)) == output;
    } else {
      TailConditions(defs, msg, output);
      NamesCons(defs[0], defs[1..]);
      assert [defs[0]] + defs[1..] == defs;
      RestrictInsert(output, msg, defs[0].name, Names(defs[1..]));
      var v := msg[defs[0].name];
      var b := PackField(defs[0].name, defs[0].kind, v).value;
      var tail := Packed(defs[1..], msg).value;
      Assoc(b, tail, extra);
      ReadPackedThen(defs, output, v, b, tail + extra);
      RoundTripFrom(defs[1..], msg, output[defs[0].name := v], extra);
    }
  }

  /**
   * Round trip: when every definition packs, names are distinct, no value is
   * the empty string and each condition holds on the fields before it,
   * unpacking the packed message gives the record restricted to the
   * schema's names.
   */
  lemma RoundTripGated(defs: seq<Definition>, msg: Record)
    requires DistinctNames(defs)
    requires Packed(defs, msg).Ok?
    requires NoEmptyStrings(defs, msg)
    requires GatesHold(defs, msg, map[])
    ensures Unpacked(defs, Packed(defs, msg).value) == Ok(Restrict(msg, Names(defs)))
  {
    RoundTripFrom(defs, msg, map[], []);
    TakeDrop(Packed(defs, msg).value, 0);
    assert map[] + Restrict(msg, Names(defs)) == Restrict(msg, Names(defs));
  }

  /** Round trip for a schema without conditions. */
  lemma RoundTripUnconditional(defs: seq<Definition>, msg: Record)
    requires forall i :: 0 <= i < |defs| ==> defs[i].condition.None?
    requires DistinctNames(defs)
    requires Packed(defs, msg).Ok?
    requires NoEmptyStrings(defs, msg)
    ensures Unpacked(defs, Packed(defs, msg).value) == Ok(Restrict(msg, Names(defs)))
  {
    RoundTripGated(defs, msg);
  }

  /**
   * Round trip for a schema whose conditions refer only to earlier fields and
   * hold on the full record: unpack sees the same verdicts pack assumed.
   */
  lemma RoundTripEarlierFields(defs: seq<Definition>, msg: Record)
    requires forall i :: 0 <= i < |defs| && defs[i].condition.Some? ==>
               Fields(defs[i].condition.value) <= Names(defs[..i]) && Eval(defs[i].condition.value, msg)
    requires DistinctNames(defs)
    requires Packed(defs, msg).Ok?
    requires NoEmptyStrings(defs, msg)
    ensures Unpacked(defs, Packed(defs, msg).value) == Ok(Restrict(msg, Names(defs)))
  {
    forall i | 0 <= i < |defs| && defs[i].condition.Some?
      ensures Eval(defs[i].condition.value, map[] + Restrict(msg, Names(defs[..i])))
    {
      var partial := map[] + Restrict(msg, Names(defs[..i]));
      assert partial == Restrict(msg, Names(defs[..i]));
      EvalDependsOnFields(defs[i].condition.value, msg, partial);
    }
    RoundTripGated(defs, msg);
  }

  /**
   * The ways reading one field fails, for any bytes: a fixed-width field
   * with fewer bytes than its size is Truncated; a string with fewer bytes
   * than its prefix is BadPrefix, with a declared length of 0 is ZeroSize,
   * and with a payload shorter than declared is LengthMismatch. Otherwise
   * the read succeeds: a fixed field with the value of its first `Size`
   * bytes, a string with exactly its declared payload.
   */
  lemma ReadFieldErrors(name: string, k: Kind, rest: seq<byte>)
    ensures !k.String? ==> (ReadField(name, k, rest).Err? <==> |rest| < Size(k).value)
    ensures !k.String? && |rest| < Size(k).value ==> ReadField(name, k, rest) == Err(Truncated(name))
    ensures !k.String? && |rest| >= Size(k).value ==>
              ReadField(name, k, rest) == Ok((DecodeFixed(k, rest[..Size(k).value]).value, Size(k).value))
    ensures k.String? ==>
              var w := k.lengthFormat.Width();
              && (|rest| < w ==> ReadField(name, k, rest) == Err(BadPrefix(name)))
              && (|rest| >= w && BE.Decode(rest[..w]) == 0 ==> ReadField(name, k, rest) == Err(ZeroSize(name)))
              && (|rest| >= w && 0 < BE.Decode(rest[..w]) && |rest| - w < BE.Decode(rest[..w]) ==>
                    ReadField(name, k, rest) == Err(LengthMismatch(name)))
              && (|rest| >= w && 0 < BE.Decode(rest[..w]) <= |rest| - w ==>
                    ReadField(name, k, rest) == Ok((StrV(rest[w..w + BE.Decode(rest[..w])]), w + BE.Decode(rest[..w]))))
  {
    if k.String? && |rest| >= k.lengthFormat.Width() {
      var w := k.lengthFormat.Width();
      var d := BE.Decode(rest[..w]);
      if 0 < d <= |rest| - w {
        assert rest[w..][..d] == rest[w..w + d];
      }
    }
  }

  /** A strict prefix of a packed field does not read as a field. */
  lemma ReadTruncatedField(name: string, k: Kind, v: Value, j: nat)
    requires PackField(name, k, v).Ok? && v != StrV([])
    requires j < |PackField(name, k, v).value|
    ensures ReadField(name, k, PackField(name, k, v).value[..j]).Err?
  {
    var b := PackField(name, k, v).value;
    var cut := b[..j];
    if k.String? {
      StringLayout(k.lengthFormat, v.s);
      var w := k.lengthFormat.Width();
      if j >= w {
        assert cut[..w] == b[..w];
        assert |cut[w..]| < |v.s|;
      }
    } else {
      assert |cut| < Size(k).value;
    }
  }

  /**
   * Truncation: under the round-trip conditions, unpacking any strict prefix
   * of a packed message fails.
   */
  lemma TruncatedFails(defs: seq<Definition>, msg: Record, output: Record, j: nat)
    requires DistinctNames(defs)
    requires Names(defs) !! output.Keys
    requires Packed(defs, msg).Ok?
    requires NoEmptyStrings(defs, msg)
    requires GatesHold(defs, msg, output)
    requires j < |Packed(defs, msg).value|
    ensures UnpackFrom(defs, Packed(defs, msg).value[..j], output).Err?
  {
    var p := Packed(defs, msg).value;
    if UnpackFrom(defs, p[..j], output).Ok? {
      // The prefix would leave unread bytes in front of p[j..], yet the whole of p leaves none.
      TakeDrop(p, j);
      UnpackIgnoresTrailing(defs, p[..j], output, p[j..]);
      RoundTripFrom(defs, msg, output, []);
      assert false;
    }
  }

  /**
   * A field read from bytes packs back to exactly the bytes it took, unless it
   * is the one value a signed kind can decode but `_min` excludes (the most
   * negative two's-complement number).
   */
  lemma ReadThenPack(name: string, k: Kind, rest: seq<byte>)
    requires ReadField(name, k, rest).Ok?
    ensures var (v, n) := ReadField(name, k, rest).value;
            || PackField(name, k, v) == Ok(rest[..n])
            || (IsSigned(k) && v == IntV(Min(k).value - 1))
  {
    if k.String? {
      ReadThenPackString(name, k.lengthFormat, rest);
    } else {
      ReadThenPackFixed(name, k, rest);
    }
  }

  lemma ReadThenPackFixed(name: string, k: Kind, rest: seq<byte>)
    requires !k.String? && ReadField(name, k, rest).Ok?
    ensures var (v, n) := ReadField(name, k, rest).value;
            || PackField(name, k, v) == Ok(rest[..n])
            || (IsSigned(k) && v == IntV(Min(k).value - 1))
  {
    var (v, n) := ReadField(name, k, rest).value;
    FixedDecodeEncode(k, rest[..n]);
    if IsInteger(k) {
      PackFieldInteger(name, k, v);
      SignedDecodeRange(k, rest[..n]);
    } else {
      PackFieldText(name, k, v);
    }
  }

  /** A decoded integer is representable, and so lies in [Min - 1, Max] (Min - 1 only when signed). */
  lemma SignedDecodeRange(k: Kind, s: seq<byte>)
    requires IsInteger(k) && |s| == Size(k).value
    ensures var n := DecodeFixed(k, s).value.i;
            (IsSigned(k) ==> Min(k).value - 1 <= n) && (!IsSigned(k) ==> Min(k).value <= n) && n <= Max(k).value
  {
    BE.Pow256Values();
    PatternOfDecoded(|s|, IsSigned(k), BE.Decode(s));
  }

  lemma ReadThenPackString(name: string, lf: LengthFormat, rest: seq<byte>)
    requires ReadField(name, String(lf), rest).Ok?
    ensures var (v, n) := ReadField(name, String(lf), rest).value;
            PackField(name, String(lf), v) == Ok(rest[..n])
  {
    var w := lf.Width();
    ReadFieldErrors(name, String(lf), rest);
    var d := BE.Decode(rest[..w]);
    PackStringAfterPrefix(name, lf, rest[..w], rest[w..w + d]);
    TakeSplit(rest, w, w + d);
  }

  /** A payload whose length a prefix decodes to packs as that prefix followed by the payload. */
  lemma PackStringAfterPrefix(name: string, lf: LengthFormat, prefix: seq<byte>, payload: seq<byte>)
    requires |prefix| == lf.Width() && BE.Decode(prefix) == |payload|
    ensures PackField(name, String(lf), StrV(payload)) == Ok(prefix + payload)
  {
    BE.EncodeDecode(prefix);
    PackFieldText(name, String(lf), StrV(payload));
  }

  /** The most negative 32-bit integer unpacks but is refused by pack, whose `_min` is -2147483647. */
  lemma IntegerMinimumUnpacksButDoesNotPack()
    ensures ReadField("n", Integer, [0x80, 0, 0, 0]) == Ok((IntV(-2147483648), 4))
    ensures PackField("n", Integer, IntV(-2147483648)) == Err(TooSmall("n", -2147483648, -2147483647))
  {
    BE.Pow256Values();
    BE.Decode4(0x80, 0, 0, 0);
    assert [0x80, 0, 0, 0][..4] == [0x80, 0, 0, 0];
  }

  /** An empty string packs to a zero length prefix ... */
  lemma EmptyStringPacks()
    ensures Packed([Definition("s", String(DefaultLengthFormat), None)], map["s" := StrV([])]) == Ok([0, 0, 0, 0])
  {
    BE.Pow256Values();
    BE.Decode4(0, 0, 0, 0);
    BE.EncodeDecode([0, 0, 0, 0]);
    assert BE.Encode(4, 0) == [0, 0, 0, 0];
    assert [0, 0, 0, 0] + [] == [0, 0, 0, 0];
    var defs := [Definition("s", String(DefaultLengthFormat), None)];
    assert defs[1..] == [];
  }

  /** ... which unpack rejects, so the empty string does not round-trip. */
  lemma EmptyStringDoesNotUnpack()
    ensures Unpacked([Definition("s", String(DefaultLengthFormat), None)], [0, 0, 0, 0]) == Err(ZeroSize("s"))
  {
    BE.Decode4(0, 0, 0, 0);
    assert [0, 0, 0, 0][..4] == [0, 0, 0, 0];
    assert ReadField("s", String(DefaultLengthFormat), [0, 0, 0, 0]) == Err(ZeroSize("s"));
  }

  /**
   * Unpack then pack: for a schema without conditions and with distinct
   * names, if the record unpack returns packs, it packs back to exactly the
   * bytes unpack consumed.
   */
  lemma {:induction false} UnpackThenPack(defs: seq<Definition>, bytes: seq<byte>, output: Record)
    requires forall i :: 0 <= i < |defs| ==> defs[i].condition.None?
    requires DistinctNames(defs)
    requires Names(defs) !! output.Keys
    requires UnpackFrom(defs, bytes, output).Ok?
    requires Packed(defs, UnpackFrom(defs, bytes, output).value.output).Ok?
    ensures var c := UnpackFrom(defs, bytes, output).value;
            Packed(defs, c.output).value + c.rest == bytes
    decreases |defs|
  {
    var c := UnpackFrom(defs, bytes, output).value;
    if defs == [] {
      assert [] + c.rest == c.rest;
    } else {
      UnconditionalTail(defs, output, c.output[defs[0].name]);
      UnpackHead(defs, bytes, output);
      var (v, n) := ReadField(defs[0].name, defs[0].kind, bytes).value;
      PackedCons(defs, c.output);
      PackHeadBack(defs[0].name, defs[0].kind, bytes, v, n);
      UnpackThenPack(defs[1..], bytes[n..], output[defs[0].name := v]);
      Reassemble(bytes, n, Packed(defs[1..], c.output).value, c.rest);
    }
  }

  /** Without conditions, unpack reads the head first and goes on with the tail. */
  lemma UnpackHead(defs: seq<Definition>, bytes: seq<byte>, output: Record)
    requires defs != [] && defs[0].condition.None? && defs[0].name !in output
    requires UnpackFrom(defs, bytes, output).Ok?
    ensures ReadField(defs[0].name, defs[0].kind, bytes).Ok?
    ensures var (v, n) := ReadField(defs[0].name, defs[0].kind, bytes).value;
            && UnpackFrom(defs, bytes, output) == UnpackFrom(defs[1..], bytes[n..], output[defs[0].name := v])
            && UnpackFrom(defs, bytes, output).value.output[defs[0].name] == v
  {
    var (v, n) := ReadField(defs[0].name, defs[0].kind, bytes).value;
    UnpackCons(defs, bytes, output, v, n);
  }

  /** The demands of the unpack-then-pack direction carry over to the tail once the head is decoded. */
  lemma UnconditionalTail(defs: seq<Definition>, output: Record, v: Value)
    requires defs != [] && forall i :: 0 <= i < |defs| ==> defs[i].condition.None?
    requires DistinctNames(defs) && Names(defs) !! output.Keys
    ensures defs[0].condition.None? && defs[0].name !in output
    ensures forall i :: 0 <= i < |defs[1..]| ==> defs[1..][i].condition.None?
    ensures DistinctNames(defs[1..]) && Names(defs[1..]) !! output[defs[0].name := v].Keys
  {
    NamesCons(defs[0], defs[1..]);
    assert [defs[0]] + defs[1..] == defs;
    DistinctTail(defs);
    assert forall i :: 0 <= i < |defs[1..]| ==> defs[1..][i] == defs[i + 1];
  }

  /** A field read from bytes whose value pack accepts packs back to the bytes read. */
  lemma PackHeadBack(name: string, k: Kind, bytes: seq<byte>, v: Value, n: nat)
    requires ReadField(name, k, bytes) == Ok((v, n)) && PackField(name, k, v).Ok?
    ensures PackField(name, k, v) == Ok(bytes[..n])
  {
    ReadThenPack(name, k, bytes);
    if IsInteger(k) {
      PackFieldInteger(name, k, v);
    } else {
      PackFieldText(name, k, v);
    }
  }

  lemma Reassemble(bytes: seq<byte>, n: nat, tail: seq<byte>, rest: seq<byte>)
    requires n <= |bytes| && tail + rest == bytes[n..]
    ensures (bytes[..n] + tail) + rest == bytes
  {
    assert (bytes[..n] + tail) + rest == bytes[..n] + (tail + rest);
    assert bytes == bytes[..n] + bytes[n..];
  }

  /** The schema of the basic tests: a byte 'type', a string 'name' and a 32-bit unsigned 'age'. */
  function TestSchema(): seq<Definition> {
    [ Definition("type", UnsignedChar, None),
      Definition("name", String(DefaultLengthFormat), None),
      Definition("age", UnsignedInteger, None) ]
  }

  function TestRecord(): Record {
    map["type" := IntV(1), "name" := StrV([0x54, 0x65, 0x73, 0x74]), "age" := IntV(20)]
  }

  /** {type: 1, name: "Test", age: 20} packs to 01, 00 00 00 04 "Test", 00 00 00 14 ... */
  lemma TestRecordPacks()
    ensures Packed(TestSchema(), TestRecord())
            == Ok([1, 0, 0, 0, 4, 0x54, 0x65, 0x73, 0x74, 0, 0, 0, 20])
  {
    var msg := TestRecord();
    var dt := Definition("type", UnsignedChar, None);
    var dn := Definition("name", String(DefaultLengthFormat), None);
    var da := Definition("age", UnsignedInteger, None);
    assert TestSchema() == [dt] + ([dn] + ([da] + []));
    TestFieldsPack();
    PackedPrefixed(da, [], msg, [0, 0, 0, 20]);
    PackedPrefixed(dn, [da] + [], msg, [0, 0, 0, 4, 0x54, 0x65, 0x73, 0x74]);
    PackedPrefixed(dt, [dn] + ([da] + []), msg, [1]);
    TestBytes();
  }

  lemma TestBytes()
    ensures var none: seq<byte> := [];
            [1] + ([0, 0, 0, 4, 0x54, 0x65, 0x73, 0x74] + ([0, 0, 0, 20] + none))
            == [1, 0, 0, 0, 4, 0x54, 0x65, 0x73, 0x74, 0, 0, 0, 20]
  {}

  /** Each field of the test record packs on its own. */
  lemma TestFieldsPack()
    ensures PackField("type", UnsignedChar, TestRecord()["type"]) == Ok([1])
    ensures PackField("name", String(DefaultLengthFormat), TestRecord()["name"]) == Ok([0, 0, 0, 4, 0x54, 0x65, 0x73, 0x74])
    ensures PackField("age", UnsignedInteger, TestRecord()["age"]) == Ok([0, 0, 0, 20])
  {
    PackedStringExample();
    assert PackField("age", UnsignedInteger, IntV(20)) == Ok([0, 0, 0, 20]) by {
      BE.Decode4(0, 0, 0, 20);
      FixedDecodeEncode(UnsignedInteger, [0, 0, 0, 20]);
      PackFieldInteger("age", UnsignedInteger, IntV(20));
    }
    assert PackField("type", UnsignedChar, IntV(1)) == Ok([1]) by {
      BE.Decode1(1);
      FixedDecodeEncode(UnsignedChar, [1]);
      PackFieldInteger("type", UnsignedChar, IntV(1));
    }
  }

  /** Packing d before defs puts d's bytes before theirs. */
  lemma PackedPrefixed(d: Definition, defs: seq<Definition>, msg: Record, b: seq<byte>)
    requires d.name in msg && PackField(d.name, d.kind, msg[d.name]) == Ok(b) && Packed(defs, msg).Ok?
    ensures Packed([d] + defs, msg) == Ok(b + Packed(defs, msg).value)
  {
    assert ([d] + defs)[1..] == defs;
  }

  /** ... and those bytes unpack to the same record. */
  lemma TestRecordRoundTrips()
    ensures Unpacked(TestSchema(), [1, 0, 0, 0, 4, 0x54, 0x65, 0x73, 0x74, 0, 0, 0, 20]) == Ok(TestRecord())
  {
    TestRecordPacks();
    TestRecordFacts();
    RoundTripUnconditional(TestSchema(), TestRecord());
  }

  /** The test schema has no conditions and distinct names, and the test record has no empty string and no other keys. */
  lemma TestRecordFacts()
    ensures forall i :: 0 <= i < |TestSchema()| ==> TestSchema()[i].condition.None?
    ensures DistinctNames(TestSchema()) && NoEmptyStrings(TestSchema(), TestRecord())
    ensures Restrict(TestRecord(), Names(TestSchema())) == TestRecord()
  {
    var defs := TestSchema();
    var msg := TestRecord();
    assert msg["name"] != StrV([]);
    TestSchemaNames();
  }

  lemma TestSchemaNames()
    ensures Names(TestSchema()) == {"type", "name", "age"}
  {
    var defs := TestSchema();
    assert defs[0].name == "type" && defs[1].name == "name" && defs[2].name == "age";
  }

  /**
   * Pack does not consult conditions: a gated field is still required. With
   * 'payload' gated on type == 3, packing {type: 2} fails on the missing
   * key, while unpacking the single byte 02 skips 'payload'.
   */
  lemma ConditionalField()
    ensures var defs := [ Definition("type", UnsignedChar, None),
                          Definition("payload", UnsignedInteger, Some(ValueIs("type", IntV(3), "=="))) ];
            && Packed(defs, map["type" := IntV(2)]) == Err(MissingKey("payload"))
            && Unpacked(defs, [2]) == Ok(map["type" := IntV(2)])
  {
    var defs := [ Definition("type", UnsignedChar, None),
                  Definition("payload", UnsignedInteger, Some(ValueIs("type", IntV(3), "=="))) ];
    BE.Decode1(2);
    FixedDecodeEncode(UnsignedChar, [2]);
    PackFieldInteger("type", UnsignedChar, IntV(2));
    assert defs[1..][1..] == [];
    assert [2][..1] == [2];
    assert ReadField("type", UnsignedChar, [2]) == Ok((IntV(2), 1));
  }
}
