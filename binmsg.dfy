/**
 * The record codec `BinMsg`: an ordered list of field definitions, each a
 * name, a codec kind and an optional condition, used to pack a record into
 * bytes in schema order and to unpack bytes back into a record with a
 * moving cursor.
 *
 * The codec object holds nothing but its definition list, which no call
 * changes, so the model passes that list to `Pack` and `Unpack` directly.
 */
module BinMsg {
  import opened Wrappers
  import opened Structs
  import opened Conditions
  import BE = BigEndian

  // ---------------------------------------------------------------------
  // Schema construction (`BinMsg.__init__`)
  // ---------------------------------------------------------------------

  /** One schema entry as the caller writes it: a dict with 'name', 'struct' and optionally 'condition'. */
  datatype Entry = Entry(name: Option<string>, struct: Option<Kind>, condition: Option<Cond>)

  /** A checked schema entry. An absent condition means the field is always decoded. */
  datatype Definition = Definition(name: string, kind: Kind, condition: Option<Cond>)

  /** The `ValueError`s of the constructor, with the position of the offending entry. */
  datatype ConfigError = NameMissing(index: nat) | StructMissing(index: nat)

  predicate Complete(e: Entry) {
    e.name.Some? && e.struct.Some?
  }

  function Define(e: Entry): Definition
    requires Complete(e)
  {
    Definition(e.name.value, e.struct.value, e.condition)
  }

  /** i is the first entry lacking a mandatory key. */
  predicate FirstIncomplete(entries: seq<Entry>, i: nat) {
    i < |entries| && !Complete(entries[i]) && forall j :: 0 <= j < i ==> Complete(entries[j])
  }

  /**
   * Checks the entries in order, 'name' before 'struct', and keeps them all.
   * Duplicate names are not rejected.
   */
  method Build(entries: seq<Entry>) returns (r: Result<seq<Definition>, ConfigError>)
    ensures r.Ok? <==> forall i :: 0 <= i < |entries| ==> Complete(entries[i])
    ensures r.Ok? ==> |r.value| == |entries|
    ensures r.Ok? ==> forall i :: 0 <= i < |entries| ==> Complete(entries[i]) && r.value[i] == Define(entries[i])
    ensures r.Err? ==> FirstIncomplete(entries, r.error.index)
    ensures r.Err? ==> (r.error.NameMissing? <==> entries[r.error.index].name.None?)
  {
    var definitions: seq<Definition> := [];
    for i := 0 to |entries|
      invariant |definitions| == i
      invariant forall j :: 0 <= j < i ==> Complete(entries[j]) && definitions[j] == Define(entries[j])
    {
      var e := entries[i];
      if e.name.None? {
        return Err(NameMissing(i));
      }
      if e.struct.None? {
        return Err(StructMissing(i));
      }
      definitions := definitions + [Define(e)];
    }
    return Ok(definitions);
  }

  /** The names a schema defines. */
  function Names(defs: seq<Definition>): set<string> {
    set i | 0 <= i < |defs| :: defs[i].name
  }

  lemma NamesCons(d: Definition, defs: seq<Definition>)
    ensures Names([d] + defs) == {d.name} + Names(defs)
  {
    var s := [d] + defs;
    forall f | f in Names(defs) ensures f in Names(s) {
      var i :| 0 <= i < |defs| && defs[i].name == f;
      assert s[i + 1] == defs[i];
    }
    assert s[0] == d;
  }

  ghost predicate DistinctNames(defs: seq<Definition>) {
    forall i, j :: 0 <= i < j < |defs| ==> defs[i].name != defs[j].name
  }

  /** The part of a record that a set of names selects. */
  function Restrict(msg: Record, names: set<string>): (r: Record)
    ensures r.Keys == msg.Keys * names
    ensures forall f :: f in r ==> r[f] == msg[f]
  {
    map f | f in names && f in msg :: msg[f]
  }

  // ---------------------------------------------------------------------
  // Packing (`BinMsg.pack`)
  // ---------------------------------------------------------------------

  /** The `CannotPack` failures, with the field, value and bound they report. */
  datatype PackError =
    | MissingKey(name: string)
    | InvalidType(name: string)
    | TooSmall(name: string, value: int, min: int)
    | TooBig(name: string, value: int, max: int)
    | Unencodable(name: string)

  /**
   * One definition's share of `pack`: the type check, the `_min` check, the
   * upper-bound check against `max`, then the codec's own `pack`.
   */
  function CheckedPack(name: string, k: Kind, v: Value, max: Option<int>): (r: Result<seq<byte>, PackError>)
    ensures r.Ok? ==> TypeMatches(k, v) && Encode(k, v) == Some(r.value)
    ensures r.Ok? && v.IntV? && Min(k).Some? ==> Min(k).value <= v.i
    ensures r.Ok? && v.IntV? && max.Some? ==> v.i <= max.value
    ensures r.Err? ==> r.error.name == name
  {
    if !TypeMatches(k, v) then Err(InvalidType(name))
    else if v.IntV? && Min(k).Some? && v.i < Min(k).value then Err(TooSmall(name, v.i, Min(k).value))
    else if v.IntV? && max.Some? && v.i > max.value then Err(TooBig(name, v.i, max.value))
    else
      match Encode(k, v)
      case Some(b) => Ok(b)
      case None => Err(Unencodable(name))
  }

  /**
   * A field packed with the representable maximum as its upper bound. With
   * that bound every integer that passes the checks is encodable, so an
   * integer field never fails in the encoder itself.
   */
  function PackField(name: string, k: Kind, v: Value): (r: Result<seq<byte>, PackError>)
    ensures r.Ok? ==> Encode(k, v) == Some(r.value)
    ensures r.Err? ==> r.error.name == name
    ensures IsInteger(k) && r.Err? ==> !r.error.Unencodable?
  {
    if IsInteger(k) && v.IntV? then
      DomainIsRepresentable(k, v.i);
      CheckedPack(name, k, v, Max(k))
    else CheckedPack(name, k, v, Max(k))
  }

  /**
   * A field packed with the source's `_max`, one past the representable
   * maximum. It accepts exactly the values the corrected bound accepts, with
   * the same bytes; `MaxOffByOne` shows how they differ on the value `_max`.
   */
  function PackFieldAsWritten(name: string, k: Kind, v: Value): (r: Result<seq<byte>, PackError>)
    ensures r.Ok? <==> PackField(name, k, v).Ok?
    ensures r.Ok? ==> r == PackField(name, k, v)
  {
    if IsInteger(k) && v.IntV? then
      SourceMaxOffByOne(k);
      DomainIsRepresentable(k, v.i);
      CheckedPack(name, k, v, SourceMax(k))
    else CheckedPack(name, k, v, SourceMax(k))
  }

  function Prepend(b: seq<byte>, r: Result<seq<byte>, PackError>): (r': Result<seq<byte>, PackError>) {
    match r
    case Ok(rest) => Ok(b + rest)
    case Err(e) => Err(e)
  }

  /**
   * The message `pack` builds: every definition's encoding, in schema order;
   * the first definition whose key is missing or whose value is refused
   * decides the error. Conditions are not consulted.
   */
  function Packed(defs: seq<Definition>, msg: Record): (r: Result<seq<byte>, PackError>)
    ensures r.Err? ==> r.error.name in Names(defs)
    decreases |defs|
  {
    if defs == [] then Ok([])
    else
      NamesCons(defs[0], defs[1..]);
      assert [defs[0]] + defs[1..] == defs;
      if defs[0].name !in msg then Err(MissingKey(defs[0].name))
      else
        match PackField(defs[0].name, defs[0].kind, msg[defs[0].name])
        case Err(e) => Err(e)
        case Ok(b) => Prepend(b, Packed(defs[1..], msg))
  }

  /** `BinMsg.pack`: appends each definition's bytes to the output in a loop. */
  method Pack(defs: seq<Definition>, msg: Record) returns (r: Result<seq<byte>, PackError>)
    ensures r == Packed(defs, msg)
  {
    var output: seq<byte> := [];
    var i := 0;
    assert defs[0..] == defs;
    PrependEmpty(Packed(defs, msg));
    while i < |defs|
      invariant 0 <= i <= |defs|
      invariant Packed(defs, msg) == Prepend(output, Packed(defs[i..], msg))
    {
      var d := defs[i];
      assert defs[i..][0] == d && defs[i..][1..] == defs[i + 1..];
      if d.name !in msg {
        return Err(MissingKey(d.name));
      }
      var value := msg[d.name];
      if !TypeMatches(d.kind, value) {
        return Err(InvalidType(d.name));
      }
      var lo, hi := Min(d.kind), Max(d.kind);
      if value.IntV? && lo.Some? && value.i < lo.value {
        return Err(TooSmall(d.name, value.i, lo.value));
      }
      if value.IntV? && hi.Some? && value.i > hi.value {
        return Err(TooBig(d.name, value.i, hi.value));
      }
      var bytes := Encode(d.kind, value);
      if bytes.None? {
        return Err(Unencodable(d.name));
      }
      assert Packed(defs[i..], msg) == Prepend(bytes.value, Packed(defs[i + 1..], msg));
      ghost var tail := Packed(defs[i + 1..], msg);
      assert tail.Ok? ==> output + (bytes.value + tail.value) == (output + bytes.value) + tail.value;
      output := output + bytes.value;
      i := i + 1;
    }
    assert output + [] == output;
    return Ok(output);
  }

  lemma PrependEmpty(r: Result<seq<byte>, PackError>)
    ensures Prepend([], r) == r
  {
    if r.Ok? {
      assert [] + r.value == r.value;
    }
  }

  /** Field i is present and accepted. */
  predicate FieldPacks(d: Definition, msg: Record) {
    d.name in msg && PackField(d.name, d.kind, msg[d.name]).Ok?
  }

  /** The error `pack` reports for a definition that is refused. */
  function FieldError(d: Definition, msg: Record): (e: PackError)
    requires !FieldPacks(d, msg)
  {
    if d.name !in msg then MissingKey(d.name) else PackField(d.name, d.kind, msg[d.name]).error
  }

  /** Pack succeeds exactly when every definition's key is present and its value accepted. */
  lemma {:induction false} PackedOk(defs: seq<Definition>, msg: Record)
    ensures Packed(defs, msg).Ok? <==> forall i :: 0 <= i < |defs| ==> FieldPacks(defs[i], msg)
    decreases |defs|
  {
    if defs != [] {
      PackedOk(defs[1..], msg);
      assert forall i :: 1 <= i < |defs| ==> defs[i] == defs[1..][i - 1];
    }
  }

  /**
   * On failure, pack reports the error of the first refused definition in
   * schema order, and returns no bytes.
   */
  lemma {:induction false} PackedFirstError(defs: seq<Definition>, msg: Record)
    requires Packed(defs, msg).Err?
    ensures exists i :: 0 <= i < |defs| && !FieldPacks(defs[i], msg)
              && (forall j :: 0 <= j < i ==> FieldPacks(defs[j], msg))
              && Packed(defs, msg).error == FieldError(defs[i], msg)
    decreases |defs|
  {
    if FieldPacks(defs[0], msg) {
      PackedFirstError(defs[1..], msg);
      var i :| 0 <= i < |defs| - 1 && !FieldPacks(defs[1..][i], msg)
                && (forall j :: 0 <= j < i ==> FieldPacks(defs[1..][j], msg))
                && Packed(defs[1..], msg).error == FieldError(defs[1..][i], msg);
      assert forall j :: 1 <= j < i + 1 ==> defs[j] == defs[1..][j - 1];
      assert defs[i + 1] == defs[1..][i];
    } else {
      assert !FieldPacks(defs[0], msg);
    }
  }

  /**
   * Pack's output is the concatenation of the parts' outputs: packing a
   * schema a + b gives a's bytes followed by b's, and a's error if a fails.
   */
  lemma {:induction false} PackedConcat(a: seq<Definition>, b: seq<Definition>, msg: Record)
    ensures Packed(a + b, msg) == match Packed(a, msg)
                                  case Err(e) => Err(e)
                                  case Ok(x) => Prepend(x, Packed(b, msg))
    decreases |a|
  {
    if a == [] {
      assert a + b == b;
      PrependEmpty(Packed(b, msg));
    } else {
      assert (a + b)[0] == a[0] && (a + b)[1..] == a[1..] + b;
      PackedConcat(a[1..], b, msg);
      PackedConcatStep(a, b, msg);
    }
  }

  /** The step of `PackedConcat`: the head of a leads both a and a + b. */
  lemma PackedConcatStep(a: seq<Definition>, b: seq<Definition>, msg: Record)
    requires a != [] && (a + b)[0] == a[0] && (a + b)[1..] == a[1..] + b
    requires Packed(a[1..] + b, msg) == match Packed(a[1..], msg)
                                        case Err(e) => Err(e)
                                        case Ok(x) => Prepend(x, Packed(b, msg))
    ensures Packed(a + b, msg) == match Packed(a, msg)
                                  case Err(e) => Err(e)
                                  case Ok(x) => Prepend(x, Packed(b, msg))
  {
    if FieldPacks(a[0], msg) && Packed(a[1..], msg).Ok? && Packed(b, msg).Ok? {
      var x := PackField(a[0].name, a[0].kind, msg[a[0].name]).value;
      Assoc(x, Packed(a[1..], msg).value, Packed(b, msg).value);
    }
  }

  lemma Assoc(a: seq<byte>, b: seq<byte>, c: seq<byte>)
    ensures a + b + c == a + (b + c)
  {}

  /**
   * Integer fields: the value packs exactly when it lies in [Min, Max], both
   * inclusive, into the codec's encoding; below Min the error is TooSmall,
   * above Max it is TooBig. A value of another type is InvalidType.
   */
  lemma PackFieldInteger(name: string, k: Kind, v: Value)
    requires IsInteger(k)
    ensures !v.IntV? ==> PackField(name, k, v) == Err(InvalidType(name))
    ensures v.IntV? ==> (PackField(name, k, v).Ok? <==> Min(k).value <= v.i <= Max(k).value)
    ensures v.IntV? && v.i < Min(k).value ==> PackField(name, k, v) == Err(TooSmall(name, v.i, Min(k).value))
    ensures v.IntV? && v.i > Max(k).value ==> PackField(name, k, v) == Err(TooBig(name, v.i, Max(k).value))
    ensures PackField(name, k, v).Ok? ==> Some(PackField(name, k, v).value) == Encode(k, v)
  {
    if v.IntV? {
      DomainIsRepresentable(k, v.i);
    }
  }

  /**
   * String and character fields: a value of the wrong type is InvalidType; a
   * string packs as its length prefix and payload unless it is too long for
   * the prefix; a character packs as its one byte.
   */
  lemma PackFieldText(name: string, k: Kind, v: Value)
    requires !IsInteger(k)
    ensures !TypeMatches(k, v) ==> PackField(name, k, v) == Err(InvalidType(name))
    ensures k.Char? && v.CharV? ==> PackField(name, k, v) == Ok([v.c])
    ensures k.String? && v.StrV? ==>
              var w := k.lengthFormat.Width();
              if |v.s| < BE.Pow256(w)
              then PackField(name, k, v) == Ok(BE.Encode(w, |v.s|) + v.s)
              else PackField(name, k, v) == Err(Unencodable(name))
  {}

  /** The rejections the tests expect: negative unsigned values and a string for a number. */
  lemma TestRejections()
    ensures PackField("integer", UnsignedInteger, IntV(-12345)) == Err(TooSmall("integer", -12345, 0))
    ensures PackField("char", UnsignedChar, IntV(-1)) == Err(TooSmall("char", -1, 0))
    ensures PackField("number", UnsignedChar, StrV([0x78])) == Err(InvalidType("number"))
  {
    PackFieldInteger("integer", UnsignedInteger, IntV(-12345));
    PackFieldInteger("char", UnsignedChar, IntV(-1));
    PackFieldInteger("number", UnsignedChar, StrV([0x78]));
  }

  /**
   * The `_max` bound as written lets the value `_max` itself through the
   * bounds check, and `struct.pack` then refuses it; the corrected bound
   * reports it as too big.
   */
  lemma MaxOffByOne(name: string, k: Kind)
    requires IsInteger(k)
    ensures PackFieldAsWritten(name, k, IntV(SourceMax(k).value)) == Err(Unencodable(name))
    ensures PackField(name, k, IntV(SourceMax(k).value)) == Err(TooBig(name, SourceMax(k).value, Max(k).value))
  {
    SourceMaxOffByOne(k);
    DomainIsRepresentable(k, SourceMax(k).value);
  }

  // ---------------------------------------------------------------------
  // Unpacking (`BinMsg.unpack`)
  // ---------------------------------------------------------------------

  /** The failures of `unpack`, each naming the definition being read. */
  datatype UnpackError =
    | Truncated(name: string)       // fewer bytes left than a fixed-width field needs
    | BadPrefix(name: string)       // fewer bytes left than a string's length prefix needs
    | ZeroSize(name: string)        // a string's declared length is 0
    | LengthMismatch(name: string)  // fewer bytes left than a string's declared length

  /** The decoded record so far and the bytes not yet consumed. */
  datatype Cursor = Cursor(output: Record, rest: seq<byte>)

  /** The definition's condition, if it has one, holds on the record decoded so far. */
  predicate Applies(c: Option<Cond>, output: Record) {
    c.None? || Eval(c.value, output)
  }

  /**
   * Reads one field at the front of rest: its value and how many bytes it
   * takes. A string's declared length is read from its prefix and passed on
   * as a value of this call, where the source stores it on the shared codec
   * object as `custom_size`. A prefix that cannot be read is an error here;
   * the source logs the failure and goes on with whatever `size` held.
   */
  function ReadField(name: string, k: Kind, rest: seq<byte>): (r: Result<(Value, nat), UnpackError>)
    ensures r.Ok? ==> r.value.1 <= |rest| && TypeMatches(k, r.value.0)
  {
    if !k.String? then
      var size := Size(k).value;
      if |rest| < size then Err(Truncated(name))
      else Ok((DecodeFixed(k, rest[..size]).value, size))
    else
      var prefix := k.lengthFormat.Width();
      if |rest| < prefix then Err(BadPrefix(name))
      else
        var size := BE.Decode(rest[..prefix]);
        var payload := rest[prefix..];
        if size == 0 then Err(ZeroSize(name))
        else
          var m := if |payload| < size then payload else payload[..size];
          match DecodeString(size, m)
          case None => Err(LengthMismatch(name))
          case Some(v) => Ok((v, prefix + size))
  }

  /**
   * The state `unpack` reaches from the cursor (output, rest) after the
   * given definitions: a definition whose name is already decoded, or whose
   * condition is false on the output so far, is passed over; any other is
   * read at the cursor and stored under its name.
   *
   * The source's gate tests whether the key 'condition' is in the output and
   * then calls an unbound `condition`; the model evaluates the definition's
   * own condition, as the schema entry's 'condition' key intends.
   */
  function UnpackFrom(defs: seq<Definition>, rest: seq<byte>, output: Record): (r: Result<Cursor, UnpackError>)
    ensures r.Ok? ==> |r.value.rest| <= |rest| && r.value.rest == rest[|rest| - |r.value.rest|..]
    ensures r.Ok? ==> forall f :: f in output ==> f in r.value.output && r.value.output[f] == output[f]
    ensures r.Ok? ==> r.value.output.Keys <= output.Keys + Names(defs)
    decreases |defs|
  {
    if defs == [] then Ok(Cursor(output, rest))
    else
      var d := defs[0];
      NamesCons(d, defs[1..]);
      assert [d] + defs[1..] == defs;
      if d.name in output || !Applies(d.condition, output) then UnpackFrom(defs[1..], rest, output)
      else
        match ReadField(d.name, d.kind, rest)
        case Err(e) => Err(e)
        case Ok((v, n)) => UnpackFrom(defs[1..], rest[n..], output[d.name := v])
  }

  /** The record `unpack` returns; bytes after the last field are ignored. */
  function Unpacked(defs: seq<Definition>, msg: seq<byte>): (r: Result<Record, UnpackError>)
    ensures r.Ok? ==> r.value.Keys <= Names(defs)
  {
    match UnpackFrom(defs, msg, map[])
    case Ok(c) => Ok(c.output)
    case Err(e) => Err(e)
  }

  /**
   * Reads the field of one definition at the cursor, as the body of
   * `unpack`'s loop does: a fixed width or, for a string, the declared
   * length read from the prefix into a local of this call. This is the
   * statement-by-statement form of the loop body; `ReadField` is the
   * function that specifies it, and the lemmas about reads are stated on
   * that function.
   */
  method ReadAt(d: Definition, rest: seq<byte>) returns (r: Result<(Value, nat), UnpackError>)
    ensures r == ReadField(d.name, d.kind, rest)
  {
    if !d.kind.String? {
      var size := Size(d.kind).value;
      if |rest| < size {
        return Err(Truncated(d.name));
      }
      return Ok((DecodeFixed(d.kind, rest[..size]).value, size));
    }
    var prefix := d.kind.lengthFormat.Width();
    if |rest| < prefix {
      return Err(BadPrefix(d.name));
    }
    var size := BE.Decode(rest[..prefix]);
    var payload := rest[prefix..];
    if size == 0 {
      return Err(ZeroSize(d.name));
    }
    var m := if |payload| < size then payload else payload[..size];
    var decoded := DecodeString(size, m);
    if decoded.None? {
      return Err(LengthMismatch(d.name));
    }
    return Ok((decoded.value, prefix + size));
  }

  /**
   * `BinMsg.unpack`: walks the definitions, re-slicing the message as a
   * cursor and inserting each decoded value into the output.
   */
  method Unpack(defs: seq<Definition>, msg: seq<byte>) returns (r: Result<Record, UnpackError>)
    ensures r == Unpacked(defs, msg)
  {
    var output: Record := map[];
    var rest := msg;
    var i := 0;
    assert defs[0..] == defs;
    while i < |defs|
      invariant 0 <= i <= |defs|
      invariant UnpackFrom(defs, msg, map[]) == UnpackFrom(defs[i..], rest, output)
    {
      var d := defs[i];
      assert defs[i..][0] == d && defs[i..][1..] == defs[i + 1..];
      if d.name in output {
        i := i + 1;
        continue;
      }
      if d.condition.Some? && !Eval(d.condition.value, output) {
        i := i + 1;
        continue;
      }
      var field := ReadAt(d, rest);
      if field.Err? {
        return Err(field.error);
      }
      var (value, size) := field.value;
      rest := rest[size..];
      output := output[d.name := value];
      i := i + 1;
    }
    return Ok(output);
  }
}
