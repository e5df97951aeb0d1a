/**
 Uppercase Base16 text of repository paths (section 8 of RFC 4648): a version tag and two digits for
 each octet.
 */
module PathText {
  import opened Results
  import opened Bytes
  import opened RepositoryPaths

  const PREFIX: Octets := Ascii("rwp1:h:")

  datatype PathTextError =
    | EncodedLengthNotRepresentable
    | EncodedLimitExceeded(actual: nat)
    | InvalidTag
    | EmptyPayload
    | OddPayloadLength
    | NonCanonicalBase16
    | InvalidRepositoryPath(error: PathError)

  function Nibble(n: int): Byte
    requires 0 <= n < 16
  {
    if n < 10 then 48 + n else 65 + (n - 10)
  }

  function DecodeNibble(b: Byte): (r: Option<int>)
    ensures r.Some? ==> 0 <= r.value < 16 && Nibble(r.value) == b
  {
    if 48 <= b <= 57 then Some(b - 48) else if 65 <= b <= 70 then Some(b - 65 + 10) else None
  }

  function Hex(s: Octets): (text: Octets)
    ensures |text| == 2 * |s|
  {
    if s == [] then [] else [Nibble(s[0] / 16), Nibble(s[0] % 16)] + Hex(s[1..])
  }

  function Encode(path: Octets, limit: nat): Result<Octets, PathTextError>
  {
    var length := |PREFIX| + 2 * |path|;
    if length >= U64 then Err(EncodedLengthNotRepresentable)
    else if length > limit then Err(EncodedLimitExceeded(length))
    else Ok(PREFIX + Hex(path))
  }

  function ReadPair(high: Byte, low: Byte): (r: Option<Byte>)
  {
    if DecodeNibble(high).Some? && DecodeNibble(low).Some?
    then Some(DecodeNibble(high).value * 16 + DecodeNibble(low).value)
    else None
  }

  function ReadHex(payload: Octets): Option<Octets>
    requires |payload| % 2 == 0
  {
    if payload == [] then Some([])
    else
      var first, rest := ReadPair(payload[0], payload[1]), ReadHex(payload[2..]);
      if first.Some? && rest.Some? then Some([first.value] + rest.value) else None
  }

  function Decode(text: Octets, limit: nat, paths: PathLimits): Result<Octets, PathTextError>
  {
    if |text| > limit then Err(EncodedLimitExceeded(|text|))
    else if !(PREFIX <= text) then Err(InvalidTag)
    else
      var payload := text[|PREFIX|..];
      if payload == [] then Err(EmptyPayload)
      else if |payload| % 2 != 0 then Err(OddPayloadLength)
      else if |payload| / 2 > paths.maxBytes then Err(InvalidRepositoryPath(ByteLimitExceeded))
      else match ReadHex(payload)
        case None => Err(NonCanonicalBase16)
        case Some(path) =>
          match Validate(path, paths)
          case Some(e) => Err(InvalidRepositoryPath(e))
          case None => Ok(path)
  }

  // Digits.

  /* The digits are those of the upper-case Base16 alphabet, in order. */
  lemma NibbleIsDigit(n: int)
    requires 0 <= n < 16
    ensures Nibble(n) == Ascii("0123456789ABCDEF")[n]
    ensures DecodeNibble(Nibble(n)) == Some(n)
  {
  }

  /* An octet is a digit exactly when it is in the alphabet. */
  lemma DigitExactly(b: Byte)
    ensures DecodeNibble(b).Some? <==> b in Ascii("0123456789ABCDEF")
  {
    if DecodeNibble(b).Some? {
      NibbleIsDigit(DecodeNibble(b).value);
    }
    if b in Ascii("0123456789ABCDEF") {
      var i :| 0 <= i < 16 && Ascii("0123456789ABCDEF")[i] == b;
      NibbleIsDigit(i);
    }
  }

  lemma PairInverts(b: Byte)
    ensures ReadPair(Nibble(b / 16), Nibble(b % 16)) == Some(b)
  {
  }

  lemma PairIsHex(high: Byte, low: Byte)
    requires ReadPair(high, low).Some?
    ensures var b := ReadPair(high, low).value; Nibble(b / 16) == high && Nibble(b % 16) == low
  {
    var x, y := DecodeNibble(high).value, DecodeNibble(low).value;
    assert (x * 16 + y) / 16 == x && (x * 16 + y) % 16 == y;
  }

  lemma {:induction false} ReadInvertsHex(s: Octets)
    ensures ReadHex(Hex(s)) == Some(s)
  {
    if s != [] {
      hide Nibble, ReadPair;
      PairInverts(s[0]);
      ReadInvertsHex(s[1..]);
      assert Hex(s)[2..] == Hex(s[1..]);
      assert s == [s[0]] + s[1..];
    }
  }

  lemma {:induction false} HexInvertsRead(payload: Octets)
    requires |payload| % 2 == 0 && ReadHex(payload).Some?
    ensures Hex(ReadHex(payload).value) == payload
  {
    if payload != [] {
      hide Nibble, ReadPair;
      var s := ReadHex(payload).value;
      PairIsHex(payload[0], payload[1]);
      HexInvertsRead(payload[2..]);
      assert s[1..] == ReadHex(payload[2..]).value;
      assert payload == [payload[0], payload[1]] + payload[2..];
    }
  }

  lemma ByteOrder(a: Byte, b: Byte)
    ensures a < b <==> Nibble(a / 16) < Nibble(b / 16) || (Nibble(a / 16) == Nibble(b / 16) && Nibble(a % 16) < Nibble(b % 16))
    ensures a == b <==> Nibble(a / 16) == Nibble(b / 16) && Nibble(a % 16) == Nibble(b % 16)
  {
    NibbleOrder(a / 16, b / 16);
    NibbleOrder(a % 16, b % 16);
  }

  lemma NibbleOrder(m: int, n: int)
    requires 0 <= m < 16 && 0 <= n < 16
    ensures (m < n <==> Nibble(m) < Nibble(n)) && (m == n <==> Nibble(m) == Nibble(n))
  {
  }

  /* Two octets in front are compared first. */
  lemma LexTwo(a: Octets, b: Octets)
    requires |a| >= 2 && |b| >= 2
    ensures LexLess(a, b) <==>
      a[0] < b[0] || (a[0] == b[0] && (a[1] < b[1] || (a[1] == b[1] && LexLess(a[2..], b[2..]))))
  {
    assert a[1..][1..] == a[2..] && b[1..][1..] == b[2..];
  }

  /* Text order is path order. */
  lemma {:induction false} HexOrder(a: Octets, b: Octets)
    ensures LexLess(Hex(a), Hex(b)) <==> LexLess(a, b)
  {
    if a != [] && b != [] {
      hide Nibble;
      var x, y := Hex(a), Hex(b);
      HexOrder(a[1..], b[1..]);
      ByteOrder(a[0], b[0]);
      LexTwo(x, y);
      assert x[2..] == Hex(a[1..]) && y[2..] == Hex(b[1..]);
    }
  }

  lemma {:induction false} TextOrder(a: Octets, b: Octets)
    ensures LexLess(PREFIX + Hex(a), PREFIX + Hex(b)) <==> LexLess(a, b)
  {
    hide LexLess, Hex;
    LexCommonPrefix(PREFIX, Hex(a), Hex(b));
    HexOrder(a, b);
  }

  // The codec.

  /* A valid path whose text fits is given back. */
  lemma {:induction false} DecodeInvertsEncode(path: Octets, limit: nat, paths: PathLimits)
    requires Validate(path, paths).None? && Encode(path, limit).Ok?
    ensures Decode(Encode(path, limit).value, limit, paths) == Ok(path)
  {
    hide FirstError, Components;
    var text := PREFIX + Hex(path);
    assert text[|PREFIX|..] == Hex(path);
    ReadInvertsHex(path);
  }

  /* Any accepted text is the one encoding of its path. */
  lemma {:induction false} EncodeInvertsDecode(text: Octets, limit: nat, paths: PathLimits)
    requires |text| < U64 && Decode(text, limit, paths).Ok?
    ensures Encode(Decode(text, limit, paths).value, limit) == Ok(text)
    ensures Validate(Decode(text, limit, paths).value, paths).None?
  {
    hide Validate;
    var payload := text[|PREFIX|..];
    HexInvertsRead(payload);
    assert text == PREFIX + payload;
  }

  /* A path is given its text unless the length of that is not a 64-bit number or above the limit. */
  lemma EncodeExactly(path: Octets, limit: nat)
    ensures Encode(path, limit) ==
      var text := Ascii("rwp1:h:") + Hex(path);
      if |text| >= 0x1_0000_0000_0000_0000 then Err(EncodedLengthNotRepresentable)
      else if |text| > limit then Err(EncodedLimitExceeded(|text|)) else Ok(text)
  {
    hide Hex;
  }

  /* The text has the tag, an even and positive number of octets after it, and no more than a path may have. */
  predicate Framed(text: Octets, limit: nat, paths: PathLimits)
  {
    |text| <= limit && Ascii("rwp1:h:") <= text && |text| > 7 && |text| % 2 == 1 && |text| <= 7 + 2 * paths.maxBytes
  }

  lemma {:induction false} HexReadExactly(payload: Octets)
    requires |payload| % 2 == 0
    ensures ReadHex(payload).Some? <==> forall b :: b in payload ==> b in Ascii("0123456789ABCDEF")
  {
    hide DecodeNibble;
    if payload != [] {
      HexReadExactly(payload[2..]);
      DigitExactly(payload[0]);
      DigitExactly(payload[1]);
      assert payload == [payload[0], payload[1]] + payload[2..];
    }
  }

  /* Why a text is refused, for every text. */
  lemma {:induction false} DecodeRefusesExactly(text: Octets, limit: nat, paths: PathLimits)
    ensures Decode(text, limit, paths) == Err(EncodedLimitExceeded(|text|)) <==> |text| > limit
    ensures Decode(text, limit, paths) == Err(InvalidTag) <==> |text| <= limit && !(Ascii("rwp1:h:") <= text)
    ensures Decode(text, limit, paths) == Err(EmptyPayload) <==> |text| <= limit && text == Ascii("rwp1:h:")
    ensures Decode(text, limit, paths) == Err(OddPayloadLength) <==> |text| <= limit && Ascii("rwp1:h:") <= text && |text| % 2 == 0
    ensures Decode(text, limit, paths) == Err(NonCanonicalBase16) <==>
      Framed(text, limit, paths) && !forall b :: b in text[7..] ==> b in Ascii("0123456789ABCDEF")
    ensures forall e :: Decode(text, limit, paths) == Err(InvalidRepositoryPath(e)) <==>
      || (Framed(text, limit, paths) && exists path :: text[7..] == Hex(path) && Validate(path, paths) == Some(e))
      || (e == ByteLimitExceeded && |text| <= limit && Ascii("rwp1:h:") <= text && |text| % 2 == 1 && |text| > 7 + 2 * paths.maxBytes)
  {
    hide Validate, Hex, ReadHex;
    if |text| <= limit && Ascii("rwp1:h:") <= text {
      var payload := text[7..];
      assert text == Ascii("rwp1:h:") + payload;
      if |payload| % 2 == 0 {
        HexReadExactly(payload);
        ReadIsHex(payload);
      }
    }
  }

  /* The path that a payload spells is the one whose digits it is. */
  lemma ReadIsHex(payload: Octets)
    requires |payload| % 2 == 0
    ensures forall path :: ReadHex(payload) == Some(path) <==> payload == Hex(path)
  {
    hide Hex, ReadHex;
    forall path ensures ReadHex(payload) == Some(path) <==> payload == Hex(path) {
      ReadInvertsHex(path);
      if ReadHex(payload).Some? {
        HexInvertsRead(payload);
      }
    }
  }

  // The loops of the source.

  method EncodePath(path: Octets, limit: nat) returns (r: Result<Octets, PathTextError>)
    ensures r == Encode(path, limit)
  {
    hide Nibble;
    var length := |PREFIX| + 2 * |path|;
    if length >= U64 {
      return Err(EncodedLengthNotRepresentable);
    }
    if length > limit {
      return Err(EncodedLimitExceeded(length));
    }
    var encoded := PREFIX;
    for i := 0 to |path|
      invariant encoded == PREFIX + Hex(path[..i])
    {
      HexAppend(path[..i], path[i]);
      assert path[..i + 1] == path[..i] + [path[i]];
      encoded := encoded + [Nibble(path[i] / 16)];
      encoded := encoded + [Nibble(path[i] % 16)];
    }
    assert path[..|path|] == path;
    return Ok(encoded);
  }

  lemma {:induction false} HexAppend(s: Octets, b: Byte)
    ensures Hex(s + [b]) == Hex(s) + [Nibble(b / 16), Nibble(b % 16)]
  {
    hide Nibble;
    if s == [] {
      assert s + [b] == [b];
    } else {
      HexAppend(s[1..], b);
      assert (s + [b])[1..] == s[1..] + [b];
    }
  }

  method DecodePath(text: Octets, limit: nat, paths: PathLimits) returns (r: Result<Octets, PathTextError>)
    ensures r == Decode(text, limit, paths)
  {
    hide Validate, DecodeNibble;
    if |text| > limit {
      return Err(EncodedLimitExceeded(|text|));
    }
    if !(PREFIX <= text) {
      return Err(InvalidTag);
    }
    var payload := text[|PREFIX|..];
    if payload == [] {
      return Err(EmptyPayload);
    }
    if |payload| % 2 != 0 {
      return Err(OddPayloadLength);
    }
    var length := |payload| / 2;
    if length > paths.maxBytes {
      return Err(InvalidRepositoryPath(ByteLimitExceeded));
    }
    var decoded: Octets := [];
    assert payload[0..] == payload && forall rest: Octets :: [] + rest == rest;
    for i := 0 to length
      invariant ReadHex(payload) == match ReadHex(payload[2 * i..]) case None => None case Some(rest) => Some(decoded + rest)
    {
      assert payload[2 * i..][2..] == payload[2 * (i + 1)..];
      var high, low := DecodeNibble(payload[2 * i]), DecodeNibble(payload[2 * i + 1]);
      if high.None? || low.None? {
        return Err(NonCanonicalBase16);
      }
      var octet: Byte := high.value * 16 + low.value;
      ghost var before := decoded;
      decoded := decoded + [octet];
      assert forall rest: Octets :: before + ([octet] + rest) == decoded + rest;
    }
    assert payload[2 * length..] == [] && decoded + [] == decoded;
    var invalid := Validate(decoded, paths);
    if invalid.Some? {
      return Err(InvalidRepositoryPath(invalid.value));
    }
    return Ok(decoded);
  }
}
