/**
 Protobuf message framing (Protobuf encoding specification, "Message Structure") as the SCIP
 passes read it.

 Every pass over a SCIP message is one loop: read a tag, decide from the field number and wire type
 whether to refuse the field or how long a payload to admit, read the payload, update the pass
 state. `Walk` is that loop with the decision (`admit`) and the update (`step`) as parameters, so
 what is proved of `Walk` holds for each of the passes.
 */
module Framing {
  import opened Results
  import opened Bytes
  import opened WireErrors
  import opened Varint

  datatype Value =
    | Number(number: nat)
    | Fixed64(octets: Octets)
    | Delimited(octets: Octets)
    | Fixed32(octets: Octets)

  datatype Field = Field(number: nat, value: Value)

  datatype Framed = Framed(field: Field, next: nat)

  datatype Admission = Refuse(error: WireError) | Admit(limit: nat)

  function WireType(value: Value): nat
  {
    match value
    case Number(_) => 0
    case Fixed64(_) => 1
    case Delimited(_) => 2
    case Fixed32(_) => 5
  }

  /* Whether a payload is within the length its pass admits; only delimited payloads are bounded. */
  predicate Fits(admission: Admission, value: Value)
  {
    admission.Admit? && (value.Delimited? ==> |value.octets| <= admission.limit)
  }

  // Readers.

  function ReadLength(input: Octets, cursor: nat, limit: nat): (r: Result<Framed, WireError>)
    requires cursor <= |input|
    ensures r.Ok? ==> cursor < r.value.next <= |input|
  {
    match Read(input, cursor)
    case Err(e) => Err(e)
    case Ok(length) =>
      if length.value > limit then Err(FieldTooLarge)
      else if length.next + length.value > |input| then Err(Truncated)
      else
        var end := length.next + length.value;
        Ok(Framed(Field(0, Delimited(input[length.next..end])), end))
  }

  function ReadValue(input: Octets, cursor: nat, number: nat, wire: nat, limit: nat)
    : (r: Result<Framed, WireError>)
    requires cursor <= |input|
    ensures r.Ok? ==> cursor < r.value.next <= |input|
    ensures r.Ok? ==> r.value.field.number == number && WireType(r.value.field.value) == wire
  {
    if wire == 0 then
      match Read(input, cursor)
      case Err(e) => Err(e)
      case Ok(v) => Ok(Framed(Field(number, Number(v.value)), v.next))
    else if wire == 1 then
      if cursor + 8 > |input| then Err(Truncated)
      else Ok(Framed(Field(number, Fixed64(input[cursor..cursor + 8])), cursor + 8))
    else if wire == 2 then
      match ReadLength(input, cursor, limit)
      case Err(e) => Err(e)
      case Ok(v) => Ok(Framed(Field(number, v.field.value), v.next))
    else if wire == 5 then
      if cursor + 4 > |input| then Err(Truncated)
      else Ok(Framed(Field(number, Fixed32(input[cursor..cursor + 4])), cursor + 4))
    else Err(UnsupportedWireType)
  }

  /* One field: its tag, the pass's decision, its payload. `admit` also sees where the tag ended. */
  function ReadField<S>(input: Octets, cursor: nat, admit: (S, nat, nat, nat) -> Admission, s: S)
    : (r: Result<Framed, WireError>)
    requires cursor <= |input|
    ensures r.Ok? ==> cursor < r.value.next <= |input|
  {
    match Read(input, cursor)
    case Err(e) => Err(e)
    case Ok(tag) =>
      var number, wire := tag.value / 8, tag.value % 8;
      if number >= U32 || number == 0 then Err(UnsupportedWireType)
      else match admit(s, number, wire, tag.next)
        case Refuse(e) => Err(e)
        case Admit(limit) => ReadValue(input, tag.next, number, wire, limit)
  }

  /* The loop shared by the passes: the state after the whole input, or the first failure. */
  function Walk<S>(input: Octets, cursor: nat,
                   admit: (S, nat, nat, nat) -> Admission,
                   step: (S, Field) -> Result<S, WireError>,
                   s: S): Result<S, WireError>
    requires cursor <= |input|
    decreases |input| - cursor
  {
    if cursor == |input| then Ok(s)
    else match ReadField(input, cursor, admit, s)
      case Err(e) => Err(e)
      case Ok(read) =>
        match step(s, read.field)
        case Err(e) => Err(e)
        case Ok(s') => Walk(input, read.next, admit, step, s')
  }

  // The grammar, stated without a reader.

  predicate VarintAt(input: Octets, cursor: nat, next: nat, value: nat)
  {
    && cursor < next <= |input|
    && next - cursor <= MAX_VARINT_OCTETS
    && Terminated(input[cursor..next])
    && Payload(input[cursor..next]) == value
    && value < U64
  }

  predicate ValueAt(input: Octets, cursor: nat, next: nat, value: Value)
  {
    match value
    case Number(n) => VarintAt(input, cursor, next, n)
    case Fixed64(b) => next == cursor + 8 <= |input| && b == input[cursor..next]
    case Delimited(b) =>
      && cursor <= next <= |input|
      && exists m :: cursor <= m <= next && VarintAt(input, cursor, m, |b|) && b == input[m..next]
    case Fixed32(b) => next == cursor + 4 <= |input| && b == input[cursor..next]
  }

  predicate FieldAt(input: Octets, cursor: nat, next: nat, f: Field)
  {
    && 0 < f.number < U32
    && cursor < next <= |input|
    && exists m :: cursor <= m <= next && VarintAt(input, cursor, m, Tag(f)) && ValueAt(input, m, next, f.value)
  }

  /* `input[cursor..]` is the concatenation of encodings of `fields`, in order. */
  predicate FieldsAt(input: Octets, cursor: nat, fields: seq<Field>)
    decreases |fields|
  {
    if fields == [] then cursor == |input|
    else
      && cursor <= |input|
      && exists next :: cursor < next <= |input| && FieldAt(input, cursor, next, fields[0])
                      && FieldsAt(input, next, fields[1..])
  }

  function Tag(f: Field): nat
  {
    8 * f.number + WireType(f.value)
  }

  // The passes as folds.

  /* A pass whose fields have already been split: what `Walk` computes when framing cannot fail. */
  function Fold<S>(fields: seq<Field>, step: (S, Field) -> Result<S, WireError>, s: S): Result<S, WireError>
  {
    if fields == [] then Ok(s)
    else match step(s, fields[0])
      case Err(e) => Err(e)
      case Ok(s') => Fold(fields[1..], step, s')
  }

  /* Every field of the input, however long, or nothing when the input does not split into fields. */
  function Fields(input: Octets, cursor: nat): Option<seq<Field>>
    requires cursor <= |input|
    decreases |input| - cursor
  {
    if cursor == |input| then Some([])
    else match ReadField(input, cursor, AdmitAll, ())
      case Err(_) => None
      case Ok(read) =>
        match Fields(input, read.next)
        case None => None
        case Some(rest) => Some([read.field] + rest)
  }

  function AdmitAll(s: (), number: nat, wire: nat, tagEnd: nat): Admission
  {
    Admit(U64)
  }

  // Reader and grammar agree.

  lemma ReadIsVarintAt(input: Octets, cursor: nat, value: nat, next: nat)
    requires cursor <= |input|
    ensures Read(input, cursor) == Ok(Reading(value, next)) <==> VarintAt(input, cursor, next, value)
  {
    ReadAcceptsExactly(input, cursor, value, next);
  }

  lemma ReadValueIsValueAt(input: Octets, cursor: nat, next: nat, f: Field, limit: nat)
    requires cursor <= |input|
    ensures ReadValue(input, cursor, f.number, WireType(f.value), limit) == Ok(Framed(f, next))
       <==> ValueAt(input, cursor, next, f.value) && Fits(Admit(limit), f.value)
  {
    match f.value
    case Number(n) => ReadIsVarintAt(input, cursor, n, next);
    case Fixed64(b) =>
    case Fixed32(b) =>
    case Delimited(b) =>
      if Read(input, cursor).Ok? {
        var length := Read(input, cursor).value;
        ReadIsVarintAt(input, cursor, length.value, length.next);
      }
      if ValueAt(input, cursor, next, f.value) {
        var m :| cursor <= m <= next && VarintAt(input, cursor, m, |b|) && b == input[m..next];
        ReadIsVarintAt(input, cursor, |b|, m);
      }
  }

  /* A pass reads a field exactly when the grammar puts one there and the pass admits it. */
  lemma ReadFieldIsFieldAt<S>(input: Octets, cursor: nat, admit: (S, nat, nat, nat) -> Admission, s: S, f: Field, next: nat)
    requires cursor <= |input|
    ensures ReadField(input, cursor, admit, s) == Ok(Framed(f, next)) ==>
              FieldAt(input, cursor, next, f) && Fits(admit(s, f.number, WireType(f.value), Read(input, cursor).value.next), f.value)
    ensures FieldAt(input, cursor, next, f) ==>
              && Read(input, cursor).Ok?
              && (Fits(admit(s, f.number, WireType(f.value), Read(input, cursor).value.next), f.value) ==>
                    ReadField(input, cursor, admit, s) == Ok(Framed(f, next)))
  {
    hide Read, VarintAt, ValueAt, ReadValue;
    var limitOf := (a: Admission) => if a.Admit? then a.limit else 0;
    if ReadField(input, cursor, admit, s) == Ok(Framed(f, next)) {
      var tag := Read(input, cursor).value;
      ReadIsVarintAt(input, cursor, tag.value, tag.next);
      ReadValueIsValueAt(input, tag.next, next, f, limitOf(admit(s, f.number, tag.value % 8, tag.next)));
      assert Tag(f) == tag.value;
    }
    if FieldAt(input, cursor, next, f) {
      var m :| cursor <= m <= next && VarintAt(input, cursor, m, Tag(f)) && ValueAt(input, m, next, f.value);
      ReadIsVarintAt(input, cursor, Tag(f), m);
      ReadValueIsValueAt(input, m, next, f, limitOf(admit(s, f.number, WireType(f.value), m)));
    }
  }

  lemma FieldFitsU64(input: Octets, cursor: nat, next: nat, f: Field)
    requires FieldAt(input, cursor, next, f)
    ensures Fits(Admit(U64), f.value)
  {
  }

  /* The splitter accepts exactly the grammar, and the grammar is unambiguous. */
  lemma {:induction false} FieldsExactly(input: Octets, cursor: nat, fields: seq<Field>)
    requires cursor <= |input|
    ensures Fields(input, cursor) == Some(fields) <==> FieldsAt(input, cursor, fields)
    decreases |fields|
  {
    hide FieldAt, ReadField;
    if cursor < |input| && fields != [] {
      if Fields(input, cursor) == Some(fields) {
        var read := ReadField(input, cursor, AdmitAll, ()).value;
        ReadFieldIsFieldAt(input, cursor, AdmitAll, (), read.field, read.next);
        assert fields[1..] == Fields(input, read.next).value;
        FieldsExactly(input, read.next, fields[1..]);
      }
      if FieldsAt(input, cursor, fields) {
        var next :| cursor < next <= |input| && FieldAt(input, cursor, next, fields[0]) && FieldsAt(input, next, fields[1..]);
        FieldFitsU64(input, cursor, next, fields[0]);
        ReadFieldIsFieldAt(input, cursor, AdmitAll, (), fields[0], next);
        FieldsExactly(input, next, fields[1..]);
        assert fields == [fields[0]] + fields[1..];
      }
    }
  }

  // Agreement between passes over one input.

  /* `admit` lets the field through whatever the pass state. */
  ghost predicate AlwaysAdmits<S(!new)>(admit: (S, nat, nat, nat) -> Admission, f: Field)
  {
    forall s, at :: Fits(admit(s, f.number, WireType(f.value), at), f.value)
  }

  /**
   Framing succeeds once: when the input splits into fields that a pass admits, that pass never
   fails on framing. Its result, failures included, is the fold of its step over those fields.
   */
  lemma {:induction false} WalkIsFold<S(!new)>(input: Octets, cursor: nat, fields: seq<Field>,
                              admit: (S, nat, nat, nat) -> Admission,
                              step: (S, Field) -> Result<S, WireError>, s: S)
    requires cursor <= |input| && FieldsAt(input, cursor, fields)
    requires forall f :: f in fields ==> AlwaysAdmits(admit, f)
    ensures Walk(input, cursor, admit, step, s) == Fold(fields, step, s)
    decreases |fields|
  {
    if fields != [] {
      var next :| cursor < next <= |input| && FieldAt(input, cursor, next, fields[0]) && FieldsAt(input, next, fields[1..]);
      assert fields[0] in fields;
      assert cursor < |input|;
      ReadFieldIsFieldAt(input, cursor, admit, s, fields[0], next);
      match step(s, fields[0])
      case Err(_) =>
      case Ok(s') => WalkIsFold(input, next, fields[1..], admit, step, s');
    }
  }

  /* A pass that succeeds has split the input, admitted every field, and folded its step over them. */
  lemma {:induction false} WalkSplits<S>(input: Octets, cursor: nat,
                        admit: (S, nat, nat, nat) -> Admission,
                        step: (S, Field) -> Result<S, WireError>, s: S) returns (fields: seq<Field>)
    requires cursor <= |input| && Walk(input, cursor, admit, step, s).Ok?
    ensures FieldsAt(input, cursor, fields)
    ensures Walk(input, cursor, admit, step, s) == Fold(fields, step, s)
    ensures forall f :: f in fields ==> exists t, at :: Fits(admit(t, f.number, WireType(f.value), at), f.value)
    decreases |input| - cursor
  {
    if cursor == |input| {
      fields := [];
    } else {
      var read := ReadField(input, cursor, admit, s).value;
      ReadFieldIsFieldAt(input, cursor, admit, s, read.field, read.next);
      var s' := step(s, read.field).value;
      var rest := WalkSplits(input, read.next, admit, step, s');
      fields := [read.field] + rest;
      assert fields[1..] == rest;
    }
  }

  // Every pass on every input.

  /* Where the tag ended makes no difference. */
  ghost predicate IgnoresPlace<S(!new)>(admit: (S, nat, nat, nat) -> Admission)
  {
    forall s, number, wire, at, at' :: admit(s, number, wire, at) == admit(s, number, wire, at')
  }

  /* One field that is already split off: refused, too long, or handed to the step. */
  function Guard<S>(admit: (S, nat, nat, nat) -> Admission, step: (S, Field) -> Result<S, WireError>, s: S, f: Field): Result<S, WireError>
  {
    match admit(s, f.number, WireType(f.value), 0)
    case Refuse(e) => Err(e)
    case Admit(limit) => if !Fits(Admit(limit), f.value) then Err(FieldTooLarge) else step(s, f)
  }

  function Guarded<S>(admit: (S, nat, nat, nat) -> Admission, step: (S, Field) -> Result<S, WireError>): (S, Field) -> Result<S, WireError>
  {
    (s: S, f: Field) => Guard(admit, step, s, f)
  }

  /* A field that stands in the input is read, refused or too long, and nothing else. */
  lemma ReadFieldThere<S>(input: Octets, cursor: nat, admit: (S, nat, nat, nat) -> Admission, s: S, f: Field, next: nat)
    requires cursor <= |input| && FieldAt(input, cursor, next, f)
    ensures Read(input, cursor).Ok?
    ensures var at := Read(input, cursor).value.next;
      ReadField(input, cursor, admit, s) ==
        match admit(s, f.number, WireType(f.value), at)
        case Refuse(e) => Err(e)
        case Admit(limit) => if Fits(Admit(limit), f.value) then Ok(Framed(f, next)) else Err(FieldTooLarge)
  {
    hide Read, VarintAt, ValueAt, ReadValue;
    var m :| cursor <= m <= next && VarintAt(input, cursor, m, Tag(f)) && ValueAt(input, m, next, f.value);
    ReadIsVarintAt(input, cursor, Tag(f), m);
    match admit(s, f.number, WireType(f.value), m)
    case Refuse(_) =>
    case Admit(limit) => ReadValueThere(input, m, next, f, limit);
  }

  lemma ReadValueThere(input: Octets, cursor: nat, next: nat, f: Field, limit: nat)
    requires cursor <= |input| && ValueAt(input, cursor, next, f.value)
    ensures ReadValue(input, cursor, f.number, WireType(f.value), limit) ==
      if Fits(Admit(limit), f.value) then Ok(Framed(f, next)) else Err(FieldTooLarge)
  {
    hide Read, VarintAt;
    ReadValueIsValueAt(input, cursor, next, f, limit);
    if f.value.Delimited? {
      var b := f.value.octets;
      var m :| cursor <= m <= next && VarintAt(input, cursor, m, |b|) && b == input[m..next];
      ReadIsVarintAt(input, cursor, |b|, m);
    }
  }

  /**
   What a pass does on an input that splits into fields, its failures included: its own decisions and
   updates, folded over those fields.
   */
  lemma {:induction false} WalkIsGuardedFold<S(!new)>(input: Octets, cursor: nat, fields: seq<Field>,
                                     admit: (S, nat, nat, nat) -> Admission,
                                     step: (S, Field) -> Result<S, WireError>, s: S)
    requires cursor <= |input| && FieldsAt(input, cursor, fields) && IgnoresPlace(admit)
    ensures Walk(input, cursor, admit, step, s) == Fold(fields, Guarded(admit, step), s)
    decreases |fields|
  {
    hide FieldAt, ReadField, Fits;
    if fields != [] {
      var next :| cursor < next <= |input| && FieldAt(input, cursor, next, fields[0]) && FieldsAt(input, next, fields[1..]);
      ReadFieldThere(input, cursor, admit, s, fields[0], next);
      match Guard(admit, step, s, fields[0])
      case Err(_) =>
      case Ok(s') => WalkIsGuardedFold(input, next, fields[1..], admit, step, s');
    }
  }

  /* On any other input every pass fails. */
  lemma WalkNeedsFields<S>(input: Octets, admit: (S, nat, nat, nat) -> Admission, step: (S, Field) -> Result<S, WireError>, s: S)
    requires Fields(input, 0).None?
    ensures Walk(input, 0, admit, step, s).Err?
  {
    hide Walk, Fields, FieldsAt;
    if Walk(input, 0, admit, step, s).Ok? {
      var fields := WalkSplits(input, 0, admit, step, s);
      FieldsExactly(input, 0, fields);
    }
  }

  // Printing.

  /* The fixture printer shifts a 32-bit field number by three, so it has 29-bit numbers only. */
  predicate Printable(f: Field)
  {
    && 0 < f.number < 0x2000_0000
    && match f.value
       case Number(n) => n < U64
       case Fixed64(b) => |b| == 8
       case Delimited(b) => |b| < U64
       case Fixed32(b) => |b| == 4
  }

  function PrintValue(value: Value): Octets
  {
    match value
    case Number(n) => Encode(n)
    case Fixed64(b) => b
    case Delimited(b) => Encode(|b|) + b
    case Fixed32(b) => b
  }

  function PrintField(f: Field): (s: Octets)
    ensures s != []
  {
    Encode(Tag(f)) + PrintValue(f.value)
  }

  function Print(fields: seq<Field>): Octets
  {
    if fields == [] then [] else PrintField(fields[0]) + Print(fields[1..])
  }

  /* The printed octets stand at `cursor`. */
  predicate StandsAt(input: Octets, cursor: nat, part: Octets)
  {
    cursor + |part| <= |input| && input[cursor..cursor + |part|] == part
  }

  lemma StandsInTwo(input: Octets, cursor: nat, a: Octets, b: Octets)
    requires StandsAt(input, cursor, a + b)
    ensures StandsAt(input, cursor, a) && StandsAt(input, cursor + |a|, b)
  {
    var whole := input[cursor..cursor + |a + b|];
    assert a == whole[..|a|] == input[cursor..cursor + |a|];
    assert b == whole[|a|..] == input[cursor + |a|..cursor + |a| + |b|];
  }

  lemma EncodedVarintAt(input: Octets, cursor: nat, value: nat)
    requires value < U64 && StandsAt(input, cursor, Encode(value))
    ensures VarintAt(input, cursor, cursor + |Encode(value)|, value)
  {
    hide Read, Payload, Encode, Terminated;
    ReadInvertsEncode(input, cursor, value);
    ReadIsVarintAt(input, cursor, value, cursor + |Encode(value)|);
  }

  lemma PrintedValueAt(input: Octets, cursor: nat, f: Field)
    requires Printable(f) && StandsAt(input, cursor, PrintValue(f.value))
    ensures ValueAt(input, cursor, cursor + |PrintValue(f.value)|, f.value)
  {
    match f.value
    case Number(n) => EncodedVarintAt(input, cursor, n);
    case Fixed64(b) =>
    case Fixed32(b) =>
    case Delimited(b) =>
      StandsInTwo(input, cursor, Encode(|b|), b);
      EncodedVarintAt(input, cursor, |b|);
  }

  lemma PrintedFieldAt(input: Octets, cursor: nat, f: Field)
    requires Printable(f) && StandsAt(input, cursor, PrintField(f))
    ensures FieldAt(input, cursor, cursor + |PrintField(f)|, f)
  {
    hide VarintAt, ValueAt, Encode;
    StandsInTwo(input, cursor, Encode(Tag(f)), PrintValue(f.value));
    EncodedVarintAt(input, cursor, Tag(f));
    PrintedValueAt(input, cursor + |Encode(Tag(f))|, f);
  }

  /* Splitting inverts printing. */
  lemma {:induction false} FieldsInvertPrint(input: Octets, cursor: nat, fields: seq<Field>)
    requires forall f :: f in fields ==> Printable(f)
    requires StandsAt(input, cursor, Print(fields)) && cursor + |Print(fields)| == |input|
    ensures FieldsAt(input, cursor, fields)
    decreases |fields|
  {
    hide FieldAt, PrintField;
    if fields != [] {
      assert fields[0] in fields;
      StandsInTwo(input, cursor, PrintField(fields[0]), Print(fields[1..]));
      PrintedFieldAt(input, cursor, fields[0]);
      FieldsInvertPrint(input, cursor + |PrintField(fields[0])|, fields[1..]);
    }
  }

  // The cursor-updating readers of the source.

  method ReadLengthDelimited(input: Octets, cursor: nat, limit: nat) returns (r: Result<Octets, WireError>, next: nat)
    requires cursor <= |input|
    ensures r.Ok? <==> ReadLength(input, cursor, limit).Ok?
    ensures r.Ok? ==> ReadLength(input, cursor, limit) == Ok(Framed(Field(0, Delimited(r.value)), next))
    ensures r.Err? ==> ReadLength(input, cursor, limit) == Err(r.error)
  {
    var length, after := ReadVarint(input, cursor);
    next := after;
    if length.Err? {
      return Err(length.error), next;
    }
    if length.value > limit {
      return Err(FieldTooLarge), next;
    }
    if next + length.value > |input| {
      return Err(Truncated), next;
    }
    next := next + length.value;
    r := Ok(input[after..next]);
  }

  method SkipExact(input: Octets, cursor: nat, length: nat) returns (r: Result<(), WireError>, next: nat)
    requires cursor <= |input|
    ensures r.Ok? <==> cursor + length <= |input|
    ensures r.Ok? ==> next == cursor + length
    ensures r.Err? ==> r == Err(Truncated)
  {
    if cursor + length > |input| {
      return Err(Truncated), cursor;
    }
    return Ok(()), cursor + length;
  }

  /* The prologue and payload read of every loop over a message. */
  method NextField<S>(input: Octets, cursor: nat, admit: (S, nat, nat, nat) -> Admission, s: S)
    returns (r: Result<Field, WireError>, next: nat)
    requires cursor <= |input|
    ensures r.Ok? ==> ReadField(input, cursor, admit, s) == Ok(Framed(r.value, next))
    ensures r.Err? ==> ReadField(input, cursor, admit, s) == Err(r.error)
  {
    hide Read, ReadLength;
    var tag, after := ReadVarint(input, cursor);
    next := after;
    if tag.Err? {
      return Err(tag.error), next;
    }
    var number, wire := tag.value / 8, tag.value % 8;
    if number >= U32 || number == 0 {
      return Err(UnsupportedWireType), next;
    }
    var admission := admit(s, number, wire, after);
    if admission.Refuse? {
      return Err(admission.error), next;
    }
    if wire == 0 {
      var v;
      v, next := ReadVarint(input, after);
      r := if v.Ok? then Ok(Field(number, Number(v.value))) else Err(v.error);
    } else if wire == 1 || wire == 5 {
      var skipped;
      skipped, next := SkipExact(input, after, if wire == 1 then 8 else 4);
      if skipped.Err? {
        return Err(skipped.error), next;
      }
      r := Ok(Field(number, if wire == 1 then Fixed64(input[after..next]) else Fixed32(input[after..next])));
    } else if wire == 2 {
      var v;
      v, next := ReadLengthDelimited(input, after, admission.limit);
      r := if v.Ok? then Ok(Field(number, Delimited(v.value))) else Err(v.error);
    } else {
      r := Err(UnsupportedWireType);
    }
  }
}
