/**
 SCIP source positions: zero-based line and character, the character counted in UTF-8, UTF-16 or
 UTF-32 units, converted to octet offsets in the exact source file.

 The conversion is an order isomorphism between accepted positions and scalar boundaries inside
 line contents, the same boundary having the same offset in all three unit systems.
 */
module ScipPositions {
  import opened Results
  import opened Bytes
  import opened WireErrors
  import opened Utf8

  const LF: Scalar := 10
  const CR: Scalar := 13

  datatype PositionEncoding = Units8 | Units16 | Units32

  datatype Position = Position(line: nat, character: nat)

  datatype SourceRange = SourceRange(start: Position, end: Position)

  datatype Span = Span(start: nat, end: nat)

  /* Lexicographic order of positions. */
  predicate Before(a: Position, b: Position)
  {
    a.line < b.line || (a.line == b.line && a.character < b.character)
  }

  // Lines.

  /* Index of the first line feed at or after `from`, or the text length. */
  function LineEnd(text: seq<Scalar>, from: nat): (end: nat)
    requires from <= |text|
    ensures from <= end <= |text|
    ensures end < |text| ==> text[end] == LF
    ensures forall i :: from <= i < end ==> text[i] != LF
    decreases |text| - from
  {
    if from == |text| || text[from] == LF then from else LineEnd(text, from + 1)
  }

  /* Index of the first scalar of a line: a line begins at the start and after every line feed. */
  function LineStart(text: seq<Scalar>, line: nat): (start: Option<nat>)
    ensures start.Some? ==> start.value <= |text|
  {
    if line == 0 then Some(0)
    else match LineStart(text, line - 1)
      case None => None
      case Some(p) => if LineEnd(text, p) < |text| then Some(LineEnd(text, p) + 1) else None
  }

  /* Where the content of the line beginning at `start` ends: before its LF or CR LF terminator. */
  function ContentEnd(text: seq<Scalar>, start: nat): (end: nat)
    requires start <= |text|
    ensures start <= end <= LineEnd(text, start)
  {
    var end := LineEnd(text, start);
    if start < end < |text| && text[end - 1] == CR then end - 1 else end
  }

  function Content(text: seq<Scalar>, start: nat): seq<Scalar>
    requires start <= |text|
  {
    text[start..ContentEnd(text, start)]
  }

  function LineFeeds(text: seq<Scalar>, upTo: nat): nat
    requires upTo <= |text|
  {
    if upTo == 0 then 0 else LineFeeds(text, upTo - 1) + if text[upTo - 1] == LF then 1 else 0
  }

  lemma {:induction false} NoLineFeeds(text: seq<Scalar>, first: nat, last: nat)
    requires first <= last <= |text| && forall i :: first <= i < last ==> text[i] != LF
    ensures LineFeeds(text, last) == LineFeeds(text, first)
    decreases last
  {
    if first < last {
      NoLineFeeds(text, first, last - 1);
    }
  }

  /* A text has one more line than it has line feeds. */
  lemma {:induction false} LinesExist(text: seq<Scalar>, line: nat)
    ensures LineStart(text, line).Some? <==> line <= LineFeeds(text, |text|)
    ensures LineStart(text, line).Some? ==> LineFeeds(text, LineStart(text, line).value) == line
  {
    if line > 0 {
      LinesExist(text, line - 1);
      if LineStart(text, line - 1).Some? {
        var p := LineStart(text, line - 1).value;
        var end := LineEnd(text, p);
        NoLineFeeds(text, p, end);
        if end < |text| {
          LineFeedsMonotone(text, end + 1, |text|);
        }
      }
    }
  }

  lemma {:induction false} LineFeedsMonotone(text: seq<Scalar>, a: nat, b: nat)
    requires a <= b <= |text|
    ensures LineFeeds(text, a) <= LineFeeds(text, b)
    decreases b
  {
    if a < b {
      LineFeedsMonotone(text, a, b - 1);
    }
  }

  /* A later line begins after the terminator of every earlier one. */
  lemma {:induction false} LinesIncrease(text: seq<Scalar>, a: nat, b: nat)
    requires a < b && LineStart(text, b).Some?
    ensures LineStart(text, a).Some? && LineEnd(text, LineStart(text, a).value) < LineStart(text, b).value
    decreases b
  {
    if a < b - 1 {
      LinesIncrease(text, a, b - 1);
    }
  }

  /* A line starts at the beginning or after a line feed, with as many line feeds before it as its number. */
  lemma {:induction false} LineStartsExactly(text: seq<Scalar>, line: nat, p: nat)
    ensures LineStart(text, line) == Some(p) <==> p <= |text| && (p == 0 || text[p - 1] == 0x0A) && LineFeeds(text, p) == line
  {
    hide LineEnd;
    LinesExist(text, line);
    if LineStart(text, line).Some? {
      LineBegins(text, line);
      var q := LineStart(text, line).value;
      if p <= |text| && (p == 0 || text[p - 1] == LF) && LineFeeds(text, p) == line {
        if p < q {
          LineFeedsMonotone(text, p, q - 1);
        } else if q < p {
          LineFeedsMonotone(text, q, p - 1);
        }
      }
    } else if p <= |text| {
      LineFeedsMonotone(text, p, |text|);
    }
  }

  lemma LineBegins(text: seq<Scalar>, line: nat)
    requires LineStart(text, line).Some?
    ensures var p := LineStart(text, line).value; p == 0 || text[p - 1] == LF
  {
  }

  /* The content of a line has no line feed and is followed by the end of the text, LF or CR LF, the longest of these. */
  lemma ContentExactly(text: seq<Scalar>, start: nat)
    requires start <= |text|
    ensures var end := ContentEnd(text, start);
      && Content(text, start) == text[start..end] && (forall i :: start <= i < end ==> text[i] != 0x0A)
      && (|| end == |text|
          || (text[end] == 0x0A && (end == start || text[end - 1] != 0x0D))
          || (end + 1 < |text| && text[end] == 0x0D && text[end + 1] == 0x0A))
  {
  }

  // Characters.

  function Width(e: PositionEncoding, c: Scalar): (w: nat)
    ensures w > 0
  {
    match e
    case Units8 => Width8(c)
    case Units16 => Width16(c)
    case Units32 => 1
  }

  /* Units before the scalar at index `i` of a line. */
  function UnitOffset(e: PositionEncoding, line: seq<Scalar>, i: nat): nat
    requires i <= |line|
  {
    if i == 0 then 0 else UnitOffset(e, line, i - 1) + Width(e, line[i - 1])
  }

  /* What is counted: octets of UTF-8, code units of UTF-16, or scalars. */
  lemma {:induction false} UnitsExactly(line: seq<Scalar>, i: nat)
    requires i <= |line|
    ensures UnitOffset(Units8, line, i) == |Encode(line[..i])|
    ensures UnitOffset(Units16, line, i) == |EncodeUtf16(line[..i])|
    ensures UnitOffset(Units32, line, i) == i
  {
    if i == 0 {
      assert line[..0] == [];
    } else {
      UnitsExactly(line, i - 1);
      assert line[..i] == line[..i - 1] + [line[i - 1]];
      EncodeConcat(line[..i - 1], [line[i - 1]]);
      EncodeUtf16Concat(line[..i - 1], [line[i - 1]]);
      OneScalar(line[i - 1]);
    }
  }

  lemma {:induction false} UnitsMonotone(e: PositionEncoding, line: seq<Scalar>, i: nat, j: nat)
    requires i < j <= |line|
    ensures UnitOffset(e, line, i) < UnitOffset(e, line, j)
    decreases j
  {
    if i < j - 1 {
      UnitsMonotone(e, line, i, j - 1);
    }
  }

  lemma {:induction false} OctetUnits(line: seq<Scalar>, i: nat)
    requires i <= |line|
    ensures UnitOffset(Units8, line, i) == Offset(line, i)
  {
    if i > 0 {
      OctetUnits(line, i - 1);
    }
  }

  /* `unit_offset_to_byte_offset`: walks the line until the requested units are consumed. */
  method UnitOffsetToByteOffset(line: seq<Scalar>, requested: nat, e: PositionEncoding) returns (r: Result<nat, WireError>)
    ensures r == UnitsToOffset(line, requested, e)
  {
    var units, offset := 0, 0;
    for i := 0 to |line|
      invariant units == UnitOffset(e, line, i) <= requested
      invariant offset == Offset(line, i)
      invariant forall j :: 0 <= j < i ==> UnitOffset(e, line, j) != requested
    {
      if units == requested {
        return Ok(offset);
      }
      units := units + Width(e, line[i]);
      if units > requested {
        forall j | 0 <= j <= |line| ensures UnitOffset(e, line, j) != requested {
          if j > i + 1 {
            UnitsMonotone(e, line, i + 1, j);
          }
        }
        return Err(InvalidSourceRange);
      }
      offset := offset + Width8(line[i]);
    }
    if units == requested {
      r := Ok(offset);
    } else {
      r := Err(InvalidSourceRange);
    }
  }

  /* The offset of the boundary that `units` units precede, if there is one. */
  function UnitsToOffset(line: seq<Scalar>, units: nat, e: PositionEncoding): (r: Result<nat, WireError>)
    ensures forall i :: 0 <= i <= |line| && UnitOffset(e, line, i) == units ==> r == Ok(Offset(line, i))
    ensures r.Ok? ==> exists i :: 0 <= i <= |line| && UnitOffset(e, line, i) == units && r == Ok(Offset(line, i))
    ensures r.Err? ==> r == Err(InvalidSourceRange)
  {
    BoundaryUnique(line, units, e);
    if exists i: nat :: i <= |line| && UnitOffset(e, line, i) == units then
      var i: nat :| i <= |line| && UnitOffset(e, line, i) == units;
      Ok(Offset(line, i))
    else Err(InvalidSourceRange)
  }

  lemma BoundaryUnique(line: seq<Scalar>, units: nat, e: PositionEncoding)
    ensures forall i, j | 0 <= i <= |line| && 0 <= j <= |line| ::
              UnitOffset(e, line, i) == units == UnitOffset(e, line, j) ==> i == j
  {
    forall i, j | 0 <= i < j <= |line| ensures UnitOffset(e, line, i) != UnitOffset(e, line, j) {
      UnitsMonotone(e, line, i, j);
    }
  }

  /* In UTF-8 units a character is a boundary of the octets, and is its own offset. */
  lemma OctetCharacter(line: seq<Scalar>, character: nat)
    ensures UnitsToOffset(line, character, Units8) ==
              if IsBoundary(Encode(line), character) then Ok(character) else Err(InvalidSourceRange)
  {
    hide Encode, IsBoundary;
    if IsBoundary(Encode(line), character) {
      var i := BoundaryIsOffset(line, character);
      OctetUnits(line, i);
    }
    if UnitsToOffset(line, character, Units8).Ok? {
      var i :| 0 <= i <= |line| && UnitOffset(Units8, line, i) == character;
      OctetUnits(line, i);
      OffsetIsBoundary(line, i);
    }
  }

  /* `line_character_to_byte_offset`: UTF-8 tests the octet at the offset, the others walk the line. */
  method LineCharacterToByteOffset(line: seq<Scalar>, character: nat, e: PositionEncoding) returns (r: Result<nat, WireError>)
    ensures r == UnitsToOffset(line, character, e)
  {
    if e.Units8? {
      var octets := Encode(line);
      OctetCharacter(line, character);
      if character > |octets| || !IsBoundary(octets, character) {
        return Err(InvalidSourceRange);
      }
      return Ok(character);
    } else {
      r := UnitOffsetToByteOffset(line, character, e);
    }
  }

  lemma ContentAtEnd(text: seq<Scalar>)
    ensures Content(text, |text|) == []
  {
  }

  /* `source_line`: the octet offset of a line and its content. */
  method SourceLine(text: seq<Scalar>, requested: nat) returns (r: Result<(nat, seq<Scalar>), WireError>)
    ensures r == match LineStart(text, requested)
              case None => Err(InvalidSourceRange)
              case Some(p) => Ok((Offset(text, p), Content(text, p)))
  {
    hide Encode;
    if text == [] {
      if requested == 0 {
        return Ok((0, []));
      }
      EmptyHasOneLine(requested);
      return Err(InvalidSourceRange);
    }
    var start, index, at := 0, 0, 0;
    while at < |text|
      invariant at <= |text| && index <= requested
      invariant LineStart(text, index) == Some(at)
      invariant start == Offset(text, at)
      invariant at == |text| ==> text[|text| - 1] == LF
      decreases |text| - at
    {
      var end := LineEnd(text, at);
      if index == requested {
        var content := StripTerminator(text, at, end);
        return Ok((start, content));
      }
      var past := if end < |text| then end + 1 else end;
      start := start + |Encode(text[at..past])|;
      LineOctets(text, at, past);
      if end == |text| {
        LinesStop(text, index, requested);
        return Err(InvalidSourceRange);
      }
      at, index := past, index + 1;
    }
    if requested == index {
      ContentAtEnd(text);
      return Ok((start, []));
    }
    LinesStop(text, index, requested);
    return Err(InvalidSourceRange);
  }

  method StripTerminator(text: seq<Scalar>, start: nat, end: nat) returns (content: seq<Scalar>)
    requires start <= |text| && end == LineEnd(text, start)
    ensures content == Content(text, start)
  {
    if start < end < |text| && text[end - 1] == CR {
      return text[start..end - 1];
    }
    return text[start..end];
  }

  lemma LineOctets(text: seq<Scalar>, first: nat, last: nat)
    requires first <= last <= |text|
    ensures Offset(text, last) == Offset(text, first) + |Encode(text[first..last])|
  {
    hide Encode;
    EncodeLength(text[first..last]);
    OffsetSlice(text, first, last, last - first);
  }

  lemma EmptyHasOneLine(line: nat)
    requires line > 0
    ensures LineStart([], line).None?
  {
    if line > 1 {
      EmptyHasOneLine(line - 1);
    }
  }

  lemma {:induction false} LinesStop(text: seq<Scalar>, last: nat, line: nat)
    requires last < line && LineStart(text, last).Some? && LineEnd(text, LineStart(text, last).value) == |text|
    ensures LineStart(text, line).None?
    decreases line
  {
    if last < line - 1 {
      LinesStop(text, last, line - 1);
    }
  }

  // Positions and ranges.

  /* `source_position_to_byte_offset`. */
  function Locate(text: seq<Scalar>, p: Position, e: PositionEncoding): Result<nat, WireError>
  {
    match LineStart(text, p.line)
    case None => Err(InvalidSourceRange)
    case Some(start) =>
      match UnitsToOffset(Content(text, start), p.character, e)
      case Err(error) => Err(error)
      case Ok(relative) => Ok(Offset(text, start) + relative)
  }

  /* The boundary before scalar `i` of the line's content is at character `p.character`. */
  ghost predicate PointsAt(text: seq<Scalar>, p: Position, e: PositionEncoding, start: nat, i: nat)
  {
    && LineStart(text, p.line) == Some(start)
    && start + i <= ContentEnd(text, start)
    && UnitOffset(e, Content(text, start), i) == p.character
  }

  /* A boundary of a line is located at its octet offset, whatever the unit system. */
  lemma LocateBoundary(text: seq<Scalar>, p: Position, e: PositionEncoding, start: nat, i: nat)
    requires PointsAt(text, p, e, start, i)
    ensures Locate(text, p, e) == Ok(Offset(text, start + i))
  {
    OffsetSlice(text, start, ContentEnd(text, start), i);
  }

  /* Nothing but a boundary inside the content of an existing line is located. */
  lemma LocateOnlyBoundaries(text: seq<Scalar>, p: Position, e: PositionEncoding) returns (start: nat, i: nat)
    requires Locate(text, p, e).Ok?
    ensures PointsAt(text, p, e, start, i)
  {
    start := LineStart(text, p.line).value;
    i :| 0 <= i <= |Content(text, start)| && UnitOffset(e, Content(text, start), i) == p.character;
  }

  /* The three encodings of one boundary give one octet offset. */
  lemma EncodingsAgree(text: seq<Scalar>, line: nat, i: nat, e: PositionEncoding, f: PositionEncoding)
    requires LineStart(text, line).Some? && i <= |Content(text, LineStart(text, line).value)|
    ensures var content := Content(text, LineStart(text, line).value);
      Locate(text, Position(line, UnitOffset(e, content, i)), e) == Locate(text, Position(line, UnitOffset(f, content, i)), f)
      == Ok(Offset(text, LineStart(text, line).value + i))
  {
    hide Locate, UnitOffset, Content, LineStart, Offset;
    BoundaryLocated(text, line, i, e);
    BoundaryLocated(text, line, i, f);
  }

  lemma BoundaryLocated(text: seq<Scalar>, line: nat, i: nat, e: PositionEncoding)
    requires LineStart(text, line).Some? && i <= |Content(text, LineStart(text, line).value)|
    ensures var start := LineStart(text, line).value;
      Locate(text, Position(line, UnitOffset(e, Content(text, start), i)), e) == Ok(Offset(text, start + i))
  {
    hide Locate, UnitOffset, LineStart;
    var start := LineStart(text, line).value;
    LocateBoundary(text, Position(line, UnitOffset(e, Content(text, start), i)), e, start, i);
  }

  /* Position order is octet order; in particular distinct positions have distinct offsets. */
  lemma OrderIsomorphism(text: seq<Scalar>, a: Position, b: Position, e: PositionEncoding)
    requires Locate(text, a, e).Ok? && Locate(text, b, e).Ok?
    ensures Before(a, b) <==> Locate(text, a, e).value < Locate(text, b, e).value
    ensures a == b <==> Locate(text, a, e) == Locate(text, b, e)
  {
    if Before(a, b) {
      StrictlyBefore(text, a, b, e);
    } else if Before(b, a) {
      StrictlyBefore(text, b, a, e);
    }
  }

  lemma StrictlyBefore(text: seq<Scalar>, a: Position, b: Position, e: PositionEncoding)
    requires Locate(text, a, e).Ok? && Locate(text, b, e).Ok? && Before(a, b)
    ensures Locate(text, a, e).value < Locate(text, b, e).value
  {
    hide Locate, LineEnd, Offset, UnitOffset;
    var s, i := LocateOnlyBoundaries(text, a, e);
    var t, j := LocateOnlyBoundaries(text, b, e);
    LocateBoundary(text, a, e, s, i);
    LocateBoundary(text, b, e, t, j);
    if a.line < b.line {
      LinesIncrease(text, a.line, b.line);
    } else if j < i {
      UnitsMonotone(e, Content(text, s), j, i);
    }
    OffsetMonotone(text, s + i, t + j);
  }

  /* `validate_scip_source_range`, on the octets of the source file. */
  function ValidateRange(range: SourceRange, e: PositionEncoding, source: Octets): Result<Span, WireError>
  {
    match Decode(source)
    case None => Err(SourceNotUtf8)
    case Some(text) =>
      match Locate(text, range.start, e)
      case Err(error) => Err(error)
      case Ok(start) =>
        match Locate(text, range.end, e)
        case Err(error) => Err(error)
        case Ok(end) => if end < start then Err(InvalidSourceRange) else Ok(Span(start, end))
  }

  /* A range over a decodable source is accepted exactly when both ends exist and it is not reversed. */
  lemma RangeAcceptedExactly(text: seq<Scalar>, range: SourceRange, e: PositionEncoding)
    ensures ValidateRange(range, e, Encode(text)).Ok? <==>
              && Locate(text, range.start, e).Ok?
              && Locate(text, range.end, e).Ok?
              && !Before(range.end, range.start)
    ensures var r := ValidateRange(range, e, Encode(text));
      r.Ok? ==> r.value.end <= |Encode(text)| && IsBoundary(Encode(text), r.value.start) && IsBoundary(Encode(text), r.value.end)
  {
    hide Locate, Encode, IsBoundary;
    DecodeInvertsEncode(text);
    if Locate(text, range.start, e).Ok? && Locate(text, range.end, e).Ok? {
      OrderIsomorphism(text, range.end, range.start, e);
      LocatedIsBoundary(text, range.start, e);
      LocatedIsBoundary(text, range.end, e);
    }
  }

  /**
   With its ends at scalars `s + i` and `t + j` of the text, a range is accepted exactly when it is not
   reversed, and its span is then exactly the octets of the scalars between them.
   */
  lemma {:induction false} SpanExactly(text: seq<Scalar>, range: SourceRange, e: PositionEncoding, s: nat, i: nat, t: nat, j: nat)
    requires PointsAt(text, range.start, e, s, i) && PointsAt(text, range.end, e, t, j)
    ensures ValidateRange(range, e, Encode(text)) ==
      if s + i <= t + j then Ok(Span(Offset(text, s + i), Offset(text, t + j))) else Err(InvalidSourceRange)
    ensures s + i <= t + j ==>
      && Offset(text, s + i) <= Offset(text, t + j) <= |Encode(text)|
      && Encode(text)[Offset(text, s + i)..Offset(text, t + j)] == Encode(text[s + i..t + j])
  {
    hide Locate, Encode, Offset, LineEnd, UnitOffset;
    DecodeInvertsEncode(text);
    LocateBoundary(text, range.start, e, s, i);
    LocateBoundary(text, range.end, e, t, j);
    if s + i <= t + j {
      EncodeSlice(text, s + i, t + j);
    } else {
      OffsetMonotone(text, t + j, s + i);
    }
  }

  /* What is refused, and why. */
  lemma {:induction false} RangeRefused(range: SourceRange, e: PositionEncoding, source: Octets)
    ensures ValidateRange(range, e, source) == Err(SourceNotUtf8) <==> Decode(source).None?
    ensures ValidateRange(range, e, source).Err? && Decode(source).Some? ==> ValidateRange(range, e, source) == Err(InvalidSourceRange)
  {
    hide Decode, LineStart, Content, Offset, UnitOffset;
  }

  lemma LocatedIsBoundary(text: seq<Scalar>, p: Position, e: PositionEncoding)
    requires Locate(text, p, e).Ok?
    ensures Locate(text, p, e).value <= |Encode(text)| && IsBoundary(Encode(text), Locate(text, p, e).value)
  {
    hide Locate, Encode;
    var s, i := LocateOnlyBoundaries(text, p, e);
    LocateBoundary(text, p, e, s, i);
    OffsetIsBoundary(text, s + i);
  }
}
