/**
 The source range of a SCIP occurrence message.

 A range may be spelled as three or four integers in the legacy repeated field, packed or not and in
 any number of pieces (Protobuf encoding specification, "Repeated Elements"), or as a typed message;
 when both spellings are present they must agree.
 */
module ScipOccurrence {
  import opened Results
  import opened Bytes
  import opened WireErrors
  import opened Varint
  import opened Framing
  import opened ScipPositions
  import opened ScipDocument

  const I32: nat := 0x8000_0000

  /* The range spelled by legacy values: three on one line, or four; none at all is no range. */
  function Finish(values: seq<nat>): Result<Option<SourceRange>, WireError>
  {
    if |values| == 0 then Ok(None)
    else if |values| == 3 then
      Ok(Some(SourceRange(Position(values[0], values[1]), Position(values[0], values[2]))))
    else if |values| == 4 then
      Ok(Some(SourceRange(Position(values[0], values[1]), Position(values[2], values[3]))))
    else Err(InvalidOccurrenceRange)
  }

  /* The four-slot accumulator of the source. */
  class LegacyRange {
    const values: array<nat>
    var count: nat

    ghost predicate Valid()
      reads this
    {
      values.Length == 4 && count <= 4
    }

    ghost function Contents(): seq<nat>
      requires Valid()
      reads this, values
    {
      values[..count]
    }

    constructor ()
      ensures Valid() && Contents() == [] && fresh(values)
    {
      values := new nat[4](_ => 0);
      count := 0;
    }

    method Push(value: nat) returns (r: Result<(), WireError>)
      requires Valid()
      modifies `count, values
      ensures Valid()
      ensures r == if old(count) < 4 then Ok(()) else Err(InvalidOccurrenceRange)
      ensures Contents() == old(Contents()) + if r.Ok? then [value] else []
    {
      if count >= values.Length {
        return Err(InvalidOccurrenceRange);
      }
      values[count] := value;
      count := count + 1;
      return Ok(());
    }

    method ToRange() returns (r: Result<Option<SourceRange>, WireError>)
      requires Valid()
      ensures r == Finish(Contents())
    {
      match count
      case 0 =>
        r := Ok(None);
      case 3 =>
        r := Ok(Some(SourceRange(Position(values[0], values[1]), Position(values[0], values[2]))));
      case 4 =>
        r := Ok(Some(SourceRange(Position(values[0], values[1]), Position(values[2], values[3]))));
      case _ =>
        r := Err(InvalidOccurrenceRange);
    }
  }

  // Legacy values.

  /* `decode_nonnegative_i32` followed by `LegacyRange::push`. */
  function PushValue(values: seq<nat>, value: nat): Result<seq<nat>, WireError>
  {
    if value >= I32 || |values| >= 4 then Err(InvalidOccurrenceRange) else Ok(values + [value])
  }

  function PushAll(values: seq<nat>, more: seq<nat>): Result<seq<nat>, WireError>
    decreases |more|
  {
    if more == [] then Ok(values)
    else match PushValue(values, more[0])
      case Err(e) => Err(e)
      case Ok(values') => PushAll(values', more[1..])
  }

  /* The varints of a packed payload. */
  function PushPacked(packed: Octets, cursor: nat, values: seq<nat>): Result<seq<nat>, WireError>
    requires cursor <= |packed|
    decreases |packed| - cursor
  {
    if cursor == |packed| then Ok(values)
    else match Read(packed, cursor)
      case Err(e) => Err(e)
      case Ok(v) =>
        match PushValue(values, v.value)
        case Err(e) => Err(e)
        case Ok(values') => PushPacked(packed, v.next, values')
  }

  // Typed ranges.

  /* Field numbers one to `expected` hold the components; each may appear once. */
  function ComponentAdmit(expected: nat): (seq<Option<nat>>, nat, nat, nat) -> Admission
  {
    (seen: seq<Option<nat>>, number: nat, wire: nat, tagEnd: nat) =>
      if 1 <= number <= expected && number <= |seen| && wire == 0 && seen[number - 1].Some?
      then Refuse(InvalidOccurrenceRange)
      else Admit(MAX_DOCUMENT_BYTES)
  }

  function ComponentStep(expected: nat): (seq<Option<nat>>, Field) -> Result<seq<Option<nat>>, WireError>
  {
    (seen: seq<Option<nat>>, f: Field) =>
      if 1 <= f.number <= expected && f.number <= |seen| && f.value.Number? then
        if f.value.number >= I32 then Err(InvalidOccurrenceRange)
        else Ok(seen[f.number - 1 := Some(f.value.number)])
      else Ok(seen)
  }

  function ParseComponents(input: Octets, expected: nat): Result<seq<Option<nat>>, WireError>
  {
    Walk(input, 0, ComponentAdmit(expected), ComponentStep(expected), seq(expected, _ => None))
  }

  /* `parse_single_line_range` (three components) and `parse_multi_line_range` (four). */
  function ParseTyped(input: Octets, expected: nat): Result<SourceRange, WireError>
    requires expected == 3 || expected == 4
  {
    match ParseComponents(input, expected)
    case Err(e) => Err(e)
    case Ok(c) =>
      if |c| != expected || exists i :: 0 <= i < |c| && c[i].None? then Err(InvalidOccurrenceRange)
      else if expected == 3 then
        Ok(SourceRange(Position(c[0].value, c[1].value), Position(c[0].value, c[2].value)))
      else
        Ok(SourceRange(Position(c[0].value, c[1].value), Position(c[2].value, c[3].value)))
  }

  // The occurrence message.

  datatype RangeState = RangeState(legacy: seq<nat>, typed: Option<SourceRange>)

  function RangeAdmit(s: RangeState, number: nat, wire: nat, tagEnd: nat): Admission
  {
    Admit(MAX_DOCUMENT_BYTES)
  }

  function RangeStep(s: RangeState, f: Field): Result<RangeState, WireError>
  {
    if f.number == 1 && f.value.Number? then
      match PushValue(s.legacy, f.value.number)
      case Err(e) => Err(e)
      case Ok(legacy) => Ok(s.(legacy := legacy))
    else if f.number == 1 && f.value.Delimited? then
      match PushPacked(f.value.octets, 0, s.legacy)
      case Err(e) => Err(e)
      case Ok(legacy) => Ok(s.(legacy := legacy))
    else if f.number in {8, 9} && f.value.Delimited? then
      match ParseTyped(f.value.octets, if f.number == 8 then 3 else 4)
      case Err(e) => Err(e)
      case Ok(range) => if s.typed.Some? then Err(InvalidOccurrenceRange) else Ok(s.(typed := Some(range)))
    else Ok(s)
  }

  function Choose(typed: Option<SourceRange>, legacy: Option<SourceRange>): Result<SourceRange, WireError>
  {
    match (typed, legacy)
    case (Some(t), Some(l)) => if t != l then Err(InvalidOccurrenceRange) else Ok(t)
    case (Some(t), None) => Ok(t)
    case (None, Some(l)) => Ok(l)
    case (None, None) => Err(InvalidOccurrenceRange)
  }

  function Conclude(s: RangeState): Result<SourceRange, WireError>
  {
    match Finish(s.legacy)
    case Err(e) => Err(e)
    case Ok(legacy) => Choose(s.typed, legacy)
  }

  /* `parse_scip_occurrence_range`. */
  function ParseRange(input: Octets): Result<SourceRange, WireError>
  {
    match Walk(input, 0, RangeAdmit, RangeStep, RangeState([], None))
    case Err(e) => Err(e)
    case Ok(s) => Conclude(s)
  }

  /* `decode_nonnegative_i32` and `push` on one value. */
  method PushDecoded(legacy: LegacyRange, value: nat) returns (r: Result<(), WireError>)
    requires legacy.Valid()
    modifies legacy`count, legacy.values
    ensures legacy.Valid()
    ensures r.Ok? ==> PushValue(old(legacy.Contents()), value) == Ok(legacy.Contents())
    ensures r.Err? ==> PushValue(old(legacy.Contents()), value) == Err(r.error)
  {
    if value >= I32 {
      return Err(InvalidOccurrenceRange);
    }
    r := legacy.Push(value);
  }

  /* The inner loop over a packed payload. */
  method PushPackedValues(legacy: LegacyRange, packed: Octets) returns (r: Result<(), WireError>)
    requires legacy.Valid()
    modifies legacy`count, legacy.values
    ensures legacy.Valid()
    ensures r.Ok? ==> PushPacked(packed, 0, old(legacy.Contents())) == Ok(legacy.Contents())
    ensures r.Err? ==> PushPacked(packed, 0, old(legacy.Contents())) == Err(r.error)
  {
    hide Read;
    var cursor := 0;
    while cursor < |packed|
      invariant cursor <= |packed| && legacy.Valid()
      invariant PushPacked(packed, 0, old(legacy.Contents())) == PushPacked(packed, cursor, legacy.Contents())
    {
      var value, next := ReadVarint(packed, cursor);
      if value.Err? {
        return Err(value.error);
      }
      r := PushDecoded(legacy, value.value);
      if r.Err? {
        return;
      }
      cursor := next;
    }
    r := Ok(());
  }

  method ParseOccurrenceRange(input: Octets) returns (r: Result<SourceRange, WireError>)
    ensures r == ParseRange(input)
  {
    hide ReadField, PushValue, PushPacked, ParseTyped, Finish;
    var legacy := new LegacyRange();
    var cursor, typed := 0, None;
    ghost var whole := Walk(input, 0, RangeAdmit, RangeStep, RangeState([], None));
    while cursor < |input|
      invariant cursor <= |input| && legacy.Valid() && fresh(legacy) && fresh(legacy.values)
      invariant whole == Walk(input, cursor, RangeAdmit, RangeStep, RangeState(legacy.Contents(), typed))
    {
      var read, next := NextField(input, cursor, RangeAdmit, RangeState([], typed));
      AdmissionIgnoresState(input, cursor, RangeState([], typed), RangeState(legacy.Contents(), typed));
      if read.Err? {
        return Err(read.error);
      }
      var f := read.value;
      if f.number == 1 && f.value.Number? {
        var pushed := PushDecoded(legacy, f.value.number);
        if pushed.Err? {
          return Err(pushed.error);
        }
      } else if f.number == 1 && f.value.Delimited? {
        var pushed := PushPackedValues(legacy, f.value.octets);
        if pushed.Err? {
          return Err(pushed.error);
        }
      } else if f.number in {8, 9} && f.value.Delimited? {
        var range := ParseTyped(f.value.octets, if f.number == 8 then 3 else 4);
        if range.Err? {
          return Err(range.error);
        }
        if typed.Some? {
          return Err(InvalidOccurrenceRange);
        }
        typed := Some(range.value);
      }
      cursor := next;
    }
    var concluded := legacy.ToRange();
    r := if concluded.Err? then Err(concluded.error) else Choose(typed, concluded.value);
  }

  lemma AdmissionIgnoresState(input: Octets, cursor: nat, s: RangeState, t: RangeState)
    requires cursor <= |input|
    ensures ReadField(input, cursor, RangeAdmit, s) == ReadField(input, cursor, RangeAdmit, t)
  {
  }

  // Splitting a legacy range into pieces.

  predicate AllBelow(values: seq<nat>, bound: nat)
  {
    forall i :: 0 <= i < |values| ==> values[i] < bound
  }

  /* From `cursor` on, the payload is a terminated varint for each value, canonical or overlong. */
  predicate Spells(payload: Octets, cursor: nat, values: seq<nat>)
    decreases |values|
  {
    if values == [] then cursor == |payload|
    else exists next :: cursor < next <= |payload| && VarintAt(payload, cursor, next, values[0]) && Spells(payload, next, values[1..])
  }

  datatype Piece = Packed(payload: Octets, values: seq<nat>) | Unpacked(value: nat)

  predicate WellSpelled(p: Piece)
  {
    p.Packed? ==> |p.payload| <= MAX_DOCUMENT_BYTES && Spells(p.payload, 0, p.values)
  }

  function Values(p: Piece): seq<nat>
  {
    match p
    case Packed(_, values) => values
    case Unpacked(value) => [value]
  }

  function Flatten(pieces: seq<Piece>): seq<nat>
  {
    if pieces == [] then [] else Values(pieces[0]) + Flatten(pieces[1..])
  }

  function PieceField(p: Piece): Field
  {
    match p
    case Packed(payload, _) => Field(1, Delimited(payload))
    case Unpacked(value) => Field(1, Number(value))
  }

  function PieceFields(pieces: seq<Piece>): (fields: seq<Field>)
    ensures |fields| == |pieces|
    ensures forall i :: 0 <= i < |pieces| ==> fields[i] == PieceField(pieces[i])
  {
    seq(|pieces|, i requires 0 <= i < |pieces| => PieceField(pieces[i]))
  }

  /* A packed payload is read back value by value, however each varint is spelled. */
  lemma {:induction false} PushPackedIsPushAll(packed: Octets, cursor: nat, more: seq<nat>, values: seq<nat>)
    requires cursor <= |packed| && Spells(packed, cursor, more)
    ensures PushPacked(packed, cursor, values) == PushAll(values, more)
    decreases |more|
  {
    hide Read, VarintAt;
    if more != [] {
      var next :| cursor < next <= |packed| && VarintAt(packed, cursor, next, more[0]) && Spells(packed, next, more[1..]);
      ReadIsVarintAt(packed, cursor, more[0], next);
      match PushValue(values, more[0])
      case Err(_) =>
      case Ok(values') => PushPackedIsPushAll(packed, next, more[1..], values');
    }
  }

  lemma {:induction false} PushAllSplits(values: seq<nat>, a: seq<nat>, b: seq<nat>)
    ensures PushAll(values, a + b) ==
              match PushAll(values, a)
              case Err(e) => Err(e)
              case Ok(values') => PushAll(values', b)
    decreases |a|
  {
    if a == [] {
      assert a + b == b;
    } else {
      assert (a + b)[1..] == a[1..] + b;
      match PushValue(values, a[0])
      case Err(_) =>
      case Ok(values') => PushAllSplits(values', a[1..], b);
    }
  }

  lemma PieceStep(p: Piece, s: RangeState)
    requires WellSpelled(p)
    ensures RangeStep(s, PieceField(p)) ==
              match PushAll(s.legacy, Values(p))
              case Err(e) => Err(e)
              case Ok(legacy) => Ok(s.(legacy := legacy))
  {
    match p
    case Unpacked(value) =>
      assert [value][1..] == [];
    case Packed(payload, values) =>
      PushPackedIsPushAll(payload, 0, values, s.legacy);
  }

  lemma {:induction false} PiecesFold(pieces: seq<Piece>, s: RangeState)
    requires forall p :: p in pieces ==> WellSpelled(p)
    ensures Fold(PieceFields(pieces), RangeStep, s) ==
              match PushAll(s.legacy, Flatten(pieces))
              case Err(e) => Err(e)
              case Ok(legacy) => Ok(s.(legacy := legacy))
    decreases |pieces|
  {
    hide RangeStep, PieceField, WellSpelled;
    if pieces != [] {
      var p, rest := pieces[0], pieces[1..];
      assert PieceFields(pieces)[1..] == PieceFields(rest);
      PieceStep(p, s);
      PushAllSplits(s.legacy, Values(p), Flatten(rest));
      match PushAll(s.legacy, Values(p))
      case Err(_) =>
      case Ok(legacy) => PiecesFold(rest, s.(legacy := legacy));
    }
  }

  lemma {:induction false} PushAllFits(values: seq<nat>, more: seq<nat>)
    ensures PushAll(values, more) ==
              if more == [] || (|values| + |more| <= 4 && AllBelow(more, I32))
              then Ok(values + more) else Err(InvalidOccurrenceRange)
    decreases |more|
  {
    if more == [] {
      assert values + more == values;
    } else {
      assert AllBelow(more, I32) <==> more[0] < I32 && AllBelow(more[1..], I32);
      match PushValue(values, more[0])
      case Err(_) =>
      case Ok(values') =>
        PushAllFits(values', more[1..]);
        assert values + more == values' + more[1..];
    }
  }

  /* The range that values spell: a line and a character, the line of the end if it is another one, and the end character. */
  function FromValues(values: seq<nat>): Result<SourceRange, WireError>
  {
    if (|values| == 3 || |values| == 4) && AllBelow(values, 0x8000_0000) then
      var start := Position(values[0], values[1]);
      Ok(SourceRange(start, Position(if |values| == 3 then start.line else values[2], values[|values| - 1])))
    else Err(InvalidOccurrenceRange)
  }

  lemma PiecesAdmitted(pieces: seq<Piece>)
    requires forall p :: p in pieces ==> WellSpelled(p)
    ensures forall f :: f in PieceFields(pieces) ==> AlwaysAdmits(RangeAdmit, f)
  {
    hide Spells;
    forall f | f in PieceFields(pieces) ensures AlwaysAdmits(RangeAdmit, f) {
      var i :| 0 <= i < |pieces| && f == PieceField(pieces[i]);
      assert pieces[i] in pieces;
    }
  }

  /**
   However the legacy values are split into packed and unpacked pieces, and however their varints
   are spelled on the wire, the range depends only on the values: three or four of them, each below
   2^31, are a range, and anything else is refused.
   */
  lemma PiecesDecodeAlike(input: Octets, pieces: seq<Piece>)
    requires FieldsAt(input, 0, PieceFields(pieces)) && forall p :: p in pieces ==> WellSpelled(p)
    ensures ParseRange(input) == FromValues(Flatten(pieces))
  {
    hide RangeStep, Walk, Fold, FieldsAt, AlwaysAdmits, PushAll, Flatten, WellSpelled, Conclude, FromValues, AllBelow;
    PiecesAdmitted(pieces);
    WalkIsFold(input, 0, PieceFields(pieces), RangeAdmit, RangeStep, RangeState([], None));
    PiecesFold(pieces, RangeState([], None));
    PushAllFits([], Flatten(pieces));
    assert [] + Flatten(pieces) == Flatten(pieces);
    ConcludeLegacy(Flatten(pieces));
  }

  /* Values in range are finished as `FromValues` says, and no values are no range. */
  lemma FinishExactly(values: seq<nat>)
    requires AllBelow(values, I32)
    ensures Finish(values) ==
      if values == [] then Ok(None) else match FromValues(values) case Err(e) => Err(e) case Ok(range) => Ok(Some(range))
  {
  }

  lemma ConcludeLegacy(values: seq<nat>)
    ensures (if values == [] || (|values| <= 4 && AllBelow(values, I32)) then Conclude(RangeState(values, None)) else Err(InvalidOccurrenceRange))
         == FromValues(values)
  {
    if AllBelow(values, I32) {
      FinishExactly(values);
    }
  }

  /* What a printer packs. */
  function Pack(values: seq<nat>): Octets
  {
    if values == [] then [] else Encode(values[0]) + Pack(values[1..])
  }

  lemma {:induction false} PackedSpells(payload: Octets, cursor: nat, values: seq<nat>)
    requires AllBelow(values, U64) && StandsAt(payload, cursor, Pack(values)) && cursor + |Pack(values)| == |payload|
    ensures Spells(payload, cursor, values)
    decreases |values|
  {
    hide Encode, VarintAt;
    if values != [] {
      StandsInTwo(payload, cursor, Encode(values[0]), Pack(values[1..]));
      EncodedVarintAt(payload, cursor, values[0]);
      PackedSpells(payload, cursor + |Encode(values[0])|, values[1..]);
    }
  }

  /* A piece as a printer writes it. */
  predicate Printed(p: Piece)
  {
    match p
    case Packed(payload, values) => payload == Pack(values) && |payload| <= MAX_DOCUMENT_BYTES && AllBelow(values, U64)
    case Unpacked(value) => value < U64
  }

  lemma PrintedWellSpelled(p: Piece)
    requires Printed(p)
    ensures WellSpelled(p)
  {
    if p.Packed? {
      PackedSpells(p.payload, 0, p.values);
    }
  }

  /* In particular two printed splits of the same values decode to the same range. */
  lemma PrintedPiecesDecodeAlike(a: seq<Piece>, b: seq<Piece>)
    requires Flatten(a) == Flatten(b) && forall p :: p in a || p in b ==> Printed(p)
    ensures ParseRange(Print(PieceFields(a))) == ParseRange(Print(PieceFields(b)))
  {
    hide ParseRange, Print, Printed, WellSpelled;
    forall p | p in a || p in b ensures WellSpelled(p) {
      PrintedWellSpelled(p);
    }
    PrintedPieces(a);
    PrintedPieces(b);
    PiecesDecodeAlike(Print(PieceFields(a)), a);
    PiecesDecodeAlike(Print(PieceFields(b)), b);
  }

  lemma PrintedPieces(pieces: seq<Piece>)
    requires forall p :: p in pieces ==> Printed(p)
    ensures FieldsAt(Print(PieceFields(pieces)), 0, PieceFields(pieces))
  {
    hide FieldsAt, Print, Pack;
    forall f | f in PieceFields(pieces) ensures Printable(f) {
      var i :| 0 <= i < |pieces| && f == PieceField(pieces[i]);
      assert pieces[i] in pieces;
    }
    FieldsInvertPrint(Print(PieceFields(pieces)), 0, PieceFields(pieces));
  }

  // Typed ranges, on every message.

  /* Every payload of the message is within the document limit. */
  predicate Short(fields: seq<Field>)
  {
    forall f :: f in fields && f.value.Delimited? ==> |f.value.octets| <= MAX_DOCUMENT_BYTES
  }

  /* At most one value beside the one known, and in range. */
  predicate Component(known: Option<nat>, values: seq<nat>, r: Option<nat>)
  {
    AtMostOne(known, values, r) && AllBelow(values, I32)
  }

  predicate ComponentsFrom(seen: seq<Option<nat>>, fields: seq<Field>, r: seq<Option<nat>>)
  {
    |r| == |seen| && forall k :: 0 <= k < |seen| ==> Component(seen[k], Numbers(fields, k + 1), r[k])
  }

  lemma ComponentFirst(known: Option<nat>, x: nat, rest: seq<nat>, r: Option<nat>)
    ensures Component(known, [x] + rest, r) <==> known.None? && x < I32 && Component(Some(x), rest, r)
  {
    AtMostOneFirst(known, x, rest, r);
    assert AllBelow([x] + rest, I32) <==> x < I32 && AllBelow(rest, I32) by {
      assert ([x] + rest)[0] == x && forall i :: 0 <= i < |rest| ==> ([x] + rest)[i + 1] == rest[i];
    }
  }

  lemma ComponentsFirst(fields: seq<Field>, seen: seq<Option<nat>>, r: seq<Option<nat>>)
    requires fields != []
    ensures var f := fields[0];
      match Guard(ComponentAdmit(|seen|), ComponentStep(|seen|), seen, f)
      case Err(_) => !(Short([f]) && ComponentsFrom(seen, fields, r))
      case Ok(seen') => |seen'| == |seen| && Short([f]) && (ComponentsFrom(seen, fields, r) <==> ComponentsFrom(seen', fields[1..], r))
  {
    hide Component, Numbers;
    var f, rest := fields[0], fields[1..];
    forall k | 0 <= k < |seen| && |r| == |seen|
      ensures Component(seen[k], Numbers(fields, k + 1), r[k]) <==>
        if f.number == k + 1 && f.value.Number?
        then seen[k].None? && f.value.number < I32 && Component(Some(f.value.number), Numbers(rest, k + 1), r[k])
        else Component(seen[k], Numbers(rest, k + 1), r[k])
    {
      PayloadsFirst(fields, k + 1);
      if f.number == k + 1 && f.value.Number? {
        ComponentFirst(seen[k], f.value.number, Numbers(rest, k + 1), r[k]);
      }
    }
    assert Short([f]) <==> (f.value.Delimited? ==> |f.value.octets| <= MAX_DOCUMENT_BYTES);
  }

  lemma ShortFirst(fields: seq<Field>)
    requires fields != []
    ensures Short(fields) <==> Short([fields[0]]) && Short(fields[1..])
  {
    assert fields == [fields[0]] + fields[1..];
  }

  lemma {:induction false} ComponentsFold(fields: seq<Field>, seen: seq<Option<nat>>, r: seq<Option<nat>>)
    ensures Fold(fields, Guarded(ComponentAdmit(|seen|), ComponentStep(|seen|)), seen) == Ok(r) <==> Short(fields) && ComponentsFrom(seen, fields, r)
    decreases |fields|
  {
    hide Guard, Short, ComponentAdmit, ComponentStep, Component;
    if fields == [] {
      NoComponents(seen, r);
    } else {
      hide ComponentsFrom;
      ShortFirst(fields);
      ComponentsFirst(fields, seen, r);
      match Guard(ComponentAdmit(|seen|), ComponentStep(|seen|), seen, fields[0])
      case Err(_) =>
      case Ok(seen') => ComponentsFold(fields[1..], seen', r);
    }
  }

  lemma NoComponents(seen: seq<Option<nat>>, r: seq<Option<nat>>)
    ensures Short([]) && (ComponentsFrom(seen, [], r) <==> r == seen)
  {
  }

  /* Fields 1 to `n` hold one value each. */
  predicate Spell(fields: seq<Field>, values: seq<nat>)
  {
    forall k :: 0 <= k < |values| ==> Numbers(fields, k + 1) == [values[k]]
  }

  /**
   A typed range is accepted exactly when each of its three or four components stands once; it is then
   the range of these values, in the order of the field numbers.
   */
  lemma {:induction false} TypedExactly(input: Octets, fields: seq<Field>, expected: nat, range: SourceRange)
    requires FieldsAt(input, 0, fields) && (expected == 3 || expected == 4)
    ensures ParseTyped(input, expected) == Ok(range) <==>
      Short(fields) && exists values :: |values| == expected && Spell(fields, values) && FromValues(values) == Ok(range)
  {
    hide FieldsAt, Walk, ComponentAdmit, ComponentStep, Guarded, Short, Numbers;
    assert IgnoresPlace(ComponentAdmit(expected)) by { ComponentIgnoresPlace(expected); }
    var none := seq(expected, _ => None);
    WalkIsGuardedFold(input, 0, fields, ComponentAdmit(expected), ComponentStep(expected), none);
    if ParseTyped(input, expected) == Ok(range) {
      var c := ParseComponents(input, expected).value;
      ComponentsFold(fields, none, c);
      var values := seq(expected, k requires 0 <= k < expected => c[k].value);
      forall k | 0 <= k < expected ensures Numbers(fields, k + 1) == [values[k]] && values[k] < I32 {
        assert Component(none[k], Numbers(fields, k + 1), c[k]);
        assert Numbers(fields, k + 1)[0] < I32;
      }
      assert Spell(fields, values) && FromValues(values) == Ok(range);
    }
    if Short(fields) && exists values :: |values| == expected && Spell(fields, values) && FromValues(values) == Ok(range) {
      var values :| |values| == expected && Spell(fields, values) && FromValues(values) == Ok(range);
      var c := seq(expected, k requires 0 <= k < expected => Some(values[k]));
      forall k | 0 <= k < expected ensures Component(none[k], Numbers(fields, k + 1), c[k]) {
        assert Numbers(fields, k + 1) == [values[k]];
      }
      ComponentsFold(fields, none, c);
    }
  }

  lemma ComponentIgnoresPlace(expected: nat)
    ensures IgnoresPlace(ComponentAdmit(expected))
  {
  }

  // Both spellings, on every message.

  /* The values of a packed payload, if it is made of varints. */
  function Varints(packed: Octets, cursor: nat): Option<seq<nat>>
    requires cursor <= |packed|
    decreases |packed| - cursor
  {
    if cursor == |packed| then Some([])
    else match Read(packed, cursor)
      case Err(_) => None
      case Ok(v) =>
        match Varints(packed, v.next)
        case None => None
        case Some(rest) => Some([v.value] + rest)
  }

  lemma {:induction false} VarintsExactly(packed: Octets, cursor: nat, values: seq<nat>)
    requires cursor <= |packed|
    ensures Varints(packed, cursor) == Some(values) <==> Spells(packed, cursor, values)
    decreases |values|
  {
    hide Read, VarintAt;
    if cursor < |packed| && values != [] {
      if Varints(packed, cursor) == Some(values) {
        var v := Read(packed, cursor).value;
        ReadIsVarintAt(packed, cursor, v.value, v.next);
        assert values[1..] == Varints(packed, v.next).value;
        VarintsExactly(packed, v.next, values[1..]);
      }
      if Spells(packed, cursor, values) {
        var next :| cursor < next <= |packed| && VarintAt(packed, cursor, next, values[0]) && Spells(packed, next, values[1..]);
        ReadIsVarintAt(packed, cursor, values[0], next);
        VarintsExactly(packed, next, values[1..]);
        assert values == [values[0]] + values[1..];
      }
    }
  }

  lemma {:induction false} PackedVarints(packed: Octets, cursor: nat, values: seq<nat>, r: seq<nat>)
    requires cursor <= |packed|
    ensures PushPacked(packed, cursor, values) == Ok(r) <==> Varints(packed, cursor).Some? && PushAll(values, Varints(packed, cursor).value) == Ok(r)
    decreases |packed| - cursor
  {
    hide Read, PushValue;
    if cursor < |packed| && Read(packed, cursor).Ok? {
      var v := Read(packed, cursor).value;
      match PushValue(values, v.value)
      case Err(_) =>
      case Ok(values') => PackedVarints(packed, v.next, values', r);
      if Varints(packed, v.next).Some? {
        assert Varints(packed, cursor).value[1..] == Varints(packed, v.next).value;
      }
    }
  }

  /* The legacy values of a message: every number in field 1, packed or not, in order. */
  function Legacy(fields: seq<Field>): Option<seq<nat>>
  {
    if fields == [] then Some([])
    else
      var first := LegacyPart(fields[0]);
      var rest := Legacy(fields[1..]);
      if first.Some? && rest.Some? then Some(first.value + rest.value) else None
  }

  function LegacyPart(f: Field): Option<seq<nat>>
  {
    if f.number != 1 then Some([])
    else match f.value
      case Number(n) => Some([n])
      case Delimited(packed) => Varints(packed, 0)
      case _ => Some([])
  }

  /* The typed ranges of a message: three components in field 8, four in field 9. */
  function Typed(fields: seq<Field>): seq<Result<SourceRange, WireError>>
  {
    if fields == [] then [] else TypedPart(fields[0]) + Typed(fields[1..])
  }

  function TypedPart(f: Field): seq<Result<SourceRange, WireError>>
  {
    if f.number == 8 && f.value.Delimited? then [ParseTyped(f.value.octets, 3)]
    else if f.number == 9 && f.value.Delimited? then [ParseTyped(f.value.octets, 4)]
    else []
  }

  predicate OneRange(known: Option<SourceRange>, ranges: seq<Result<SourceRange, WireError>>, r: Option<SourceRange>)
  {
    match known
    case Some(range) => ranges == [] && r == known
    case None => if r.Some? then ranges == [Ok(r.value)] else ranges == []
  }

  predicate StateFrom(s: RangeState, fields: seq<Field>, r: RangeState)
  {
    && Legacy(fields).Some? && PushAll(s.legacy, Legacy(fields).value) == Ok(r.legacy)
    && OneRange(s.typed, Typed(fields), r.typed)
  }

  lemma OneRangeFirst(known: Option<SourceRange>, x: Result<SourceRange, WireError>, rest: seq<Result<SourceRange, WireError>>, r: Option<SourceRange>)
    ensures OneRange(known, [x] + rest, r) <==> known.None? && x.Ok? && OneRange(Some(x.value), rest, r)
  {
    assert ([x] + rest)[0] == x && ([x] + rest)[1..] == rest;
  }

  lemma LegacyStep(s: RangeState, f: Field)
    requires f.number == 1
    ensures match RangeStep(s, f)
      case Err(_) => LegacyPart(f).None? || PushAll(s.legacy, LegacyPart(f).value).Err?
      case Ok(s') => LegacyPart(f).Some? && PushAll(s.legacy, LegacyPart(f).value) == Ok(s'.legacy) && s'.typed == s.typed
  {
    match f.value
    case Number(n) =>
      var one: seq<nat> := [n];
      assert one[1..] == [];
    case Delimited(packed) =>
      if LegacyPart(f).Some? && PushAll(s.legacy, LegacyPart(f).value).Ok? {
        PackedVarints(packed, 0, s.legacy, PushAll(s.legacy, LegacyPart(f).value).value);
      }
      if PushPacked(packed, 0, s.legacy).Ok? {
        PackedVarints(packed, 0, s.legacy, PushPacked(packed, 0, s.legacy).value);
      }
    case _ =>
  }

  lemma TypedStep(s: RangeState, f: Field)
    requires f.number != 1
    ensures LegacyPart(f) == Some([])
    ensures match RangeStep(s, f)
      case Err(_) => |TypedPart(f)| == 1 && (s.typed.Some? || TypedPart(f)[0].Err?)
      case Ok(s') =>
        && s'.legacy == s.legacy
        && if TypedPart(f) == [] then s'.typed == s.typed
           else s.typed.None? && s'.typed.Some? && TypedPart(f) == [Ok(s'.typed.value)]
  {
    hide ParseTyped;
  }

  lemma {:induction false} StateFirst(fields: seq<Field>, s: RangeState, r: RangeState)
    requires fields != []
    ensures match RangeStep(s, fields[0])
      case Err(_) => !StateFrom(s, fields, r)
      case Ok(s') => StateFrom(s, fields, r) <==> StateFrom(s', fields[1..], r)
  {
    hide RangeStep, OneRange, LegacyPart, TypedPart, PushAll;
    var f, rest := fields[0], fields[1..];
    if LegacyPart(f).Some? && Legacy(rest).Some? {
      PushAllSplits(s.legacy, LegacyPart(f).value, Legacy(rest).value);
    }
    if f.number == 1 {
      LegacyStep(s, f);
      assert TypedPart(f) == [] by { NothingTyped(f); }
      assert Typed(fields) == Typed(rest);
    } else {
      TypedStep(s, f);
      assert Legacy(rest).Some? ==> [] + Legacy(rest).value == Legacy(rest).value;
      assert [] + Typed(rest) == Typed(rest);
      if TypedPart(f) != [] {
        assert TypedPart(f) == [TypedPart(f)[0]];
        OneRangeFirst(s.typed, TypedPart(f)[0], Typed(rest), r.typed);
      }
    }
  }

  lemma NothingTyped(f: Field)
    requires f.number == 1
    ensures TypedPart(f) == []
  {
  }

  lemma {:induction false} RangeFold(fields: seq<Field>, s: RangeState, r: RangeState)
    ensures Fold(fields, Guarded(RangeAdmit, RangeStep), s) == Ok(r) <==> Short(fields) && StateFrom(s, fields, r)
  {
    hide RangeStep, StateFrom, Short;
    if fields == [] {
      NoRange(s, r);
    } else {
      ShortFirst(fields);
      StateFirst(fields, s, r);
      assert Short([fields[0]]) <==> Fits(Admit(MAX_DOCUMENT_BYTES), fields[0].value) by { OneShort(fields[0]); }
      match Guard(RangeAdmit, RangeStep, s, fields[0])
      case Err(_) =>
      case Ok(s') => RangeFold(fields[1..], s', r);
    }
  }

  lemma OneShort(f: Field)
    ensures Short([f]) <==> Fits(Admit(MAX_DOCUMENT_BYTES), f.value)
  {
  }

  lemma NoRange(s: RangeState, r: RangeState)
    ensures Short([]) && (StateFrom(s, [], r) <==> r == s)
  {
  }

  /* The range of legacy values and a typed range: there is one at least, and they agree. */
  lemma ConcludeExactly(values: seq<nat>, typed: Option<SourceRange>, range: SourceRange)
    ensures PushAll([], values) == Ok(values) && Conclude(RangeState(values, typed)) == Ok(range) <==>
      && (values == [] || FromValues(values) == Ok(range))
      && (typed.None? || typed == Some(range))
      && (values != [] || typed.Some?)
  {
    hide PushAll, Finish;
    PushAllFits([], values);
    assert [] + values == values;
    if AllBelow(values, I32) {
      FinishExactly(values);
    }
  }

  lemma PushAllKeeps(values: seq<nat>, r: seq<nat>)
    requires PushAll([], values) == Ok(r)
    ensures r == values
  {
    hide PushAll;
    PushAllFits([], values);
    assert [] + values == values;
  }

  /**
   An occurrence message has a range exactly when it is spelled at least once, as legacy values, as one
   typed message, or both, and every spelling says that range.
   */
  lemma {:induction false} RangeExactly(input: Octets, fields: seq<Field>, range: SourceRange)
    requires FieldsAt(input, 0, fields)
    ensures ParseRange(input) == Ok(range) <==>
      && Short(fields) && Legacy(fields).Some?
      && (Legacy(fields).value == [] || FromValues(Legacy(fields).value) == Ok(range))
      && (Typed(fields) == [] || Typed(fields) == [Ok(range)])
      && (Legacy(fields).value != [] || Typed(fields) != [])
  {
    hide FieldsAt, Walk, RangeStep, Guarded, Short, Legacy, Typed, PushAll, Conclude, FromValues;
    var start := RangeState([], None);
    WalkIsGuardedFold(input, 0, fields, RangeAdmit, RangeStep, start);
    if ParseRange(input) == Ok(range) {
      var s := Walk(input, 0, RangeAdmit, RangeStep, start).value;
      RangeFold(fields, start, s);
      PushAllKeeps(Legacy(fields).value, s.legacy);
      ConcludeExactly(s.legacy, s.typed, range);
    }
    if Legacy(fields).Some? && (Typed(fields) == [] || Typed(fields) == [Ok(range)]) {
      var s := RangeState(Legacy(fields).value, if Typed(fields) == [] then None else Some(range));
      ConcludeExactly(s.legacy, s.typed, range);
      RangeFold(fields, start, s);
    }
  }

  lemma RangeNeedsFields(input: Octets)
    requires Fields(input, 0).None?
    ensures ParseRange(input).Err?
  {
    hide Fields, Walk;
    WalkNeedsFields(input, RangeAdmit, RangeStep, RangeState([], None));
  }
}
