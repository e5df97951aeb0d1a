/**
 Crockford Base32 text of 128-bit memory-record identities: a fixed prefix and 26 digits.
 */
module RecordIdText {
  import opened Results
  import opened Bytes

  type RecordId = id: Octets | |id| == 16 witness seq(16, _ => 0)

  const PREFIX: Octets := Ascii("mem_")
  const PAYLOAD: nat := 26
  const U128: nat := 0x1_0000_0000_0000_0000_0000_0000_0000_0000
  const ALPHABET: string := "0123456789ABCDEFGHJKMNPQRSTVWXYZ"

  datatype IdTextError = InvalidLength(actual: nat) | InvalidPrefix | InvalidBase32 | OutOfRange

  // Digits and letters.

  /* The alphabet leaves out I, L, O and U. */
  function Letter(d: int): Byte
    requires 0 <= d < 32
  {
    if d < 10 then 48 + d
    else if d < 18 then 65 + (d - 10)
    else if d < 20 then 74 + (d - 18)
    else if d < 22 then 77 + (d - 20)
    else if d < 27 then 80 + (d - 22)
    else 86 + (d - 27)
  }

  lemma FirstLetters(d: int)
    requires 0 <= d < 8
    ensures ALPHABET[d] as int == Letter(d)
  {
    assert ALPHABET[0] == '0' && ALPHABET[1] == '1' && ALPHABET[2] == '2' && ALPHABET[3] == '3' && ALPHABET[4] == '4' && ALPHABET[5] == '5' && ALPHABET[6] == '6' && ALPHABET[7] == '7';
  }

  lemma SecondLetters(d: int)
    requires 8 <= d < 16
    ensures ALPHABET[d] as int == Letter(d)
  {
    assert ALPHABET[8] == '8' && ALPHABET[9] == '9' && ALPHABET[10] == 'A' && ALPHABET[11] == 'B' && ALPHABET[12] == 'C' && ALPHABET[13] == 'D' && ALPHABET[14] == 'E' && ALPHABET[15] == 'F';
  }

  lemma ThirdLetters(d: int)
    requires 16 <= d < 24
    ensures ALPHABET[d] as int == Letter(d)
  {
    assert ALPHABET[16] == 'G' && ALPHABET[17] == 'H' && ALPHABET[18] == 'J' && ALPHABET[19] == 'K' && ALPHABET[20] == 'M' && ALPHABET[21] == 'N' && ALPHABET[22] == 'P' && ALPHABET[23] == 'Q';
  }

  lemma FourthLetters(d: int)
    requires 24 <= d < 32
    ensures ALPHABET[d] as int == Letter(d)
  {
    assert ALPHABET[24] == 'R' && ALPHABET[25] == 'S' && ALPHABET[26] == 'T' && ALPHABET[27] == 'V' && ALPHABET[28] == 'W' && ALPHABET[29] == 'X' && ALPHABET[30] == 'Y' && ALPHABET[31] == 'Z';
  }

  /* The letters are those of the alphabet, in its order. */
  lemma AlphabetLetters(d: int)
    requires 0 <= d < 32
    ensures ALPHABET[d] as int == Letter(d)
  {
    hide Letter;
    if d < 8 {
      FirstLetters(d);
    } else if d < 16 {
      SecondLetters(d);
    } else if d < 24 {
      ThirdLetters(d);
    } else {
      FourthLetters(d);
    }
  }

  lemma LettersIncrease(d: int, e: int)
    requires 0 <= d < 32 && 0 <= e < 32
    ensures d < e <==> Letter(d) < Letter(e)
  {
  }

  /* Position in the alphabet. */
  function DecodeDigit(b: Byte): (r: Option<int>)
    ensures r.Some? ==> 0 <= r.value < 32 && Letter(r.value) == b
  {
    if 48 <= b <= 57 then Some(b - 48)
    else if 65 <= b <= 72 then Some(b - 65 + 10)
    else if 74 <= b <= 75 then Some(b - 74 + 18)
    else if 77 <= b <= 78 then Some(b - 77 + 20)
    else if 80 <= b <= 84 then Some(b - 80 + 22)
    else if 86 <= b <= 90 then Some(b - 86 + 27)
    else None
  }

  lemma DecodeLetter(d: int)
    requires 0 <= d < 32
    ensures DecodeDigit(Letter(d)) == Some(d)
  {
  }

  /* The search of the source. */
  method FindDigit(b: Byte) returns (r: Option<int>)
    ensures r == DecodeDigit(b)
  {
    hide Letter, DecodeDigit;
    for i := 0 to 32
      invariant forall j :: 0 <= j < i ==> Letter(j) != b
    {
      AlphabetLetters(i);
      if ALPHABET[i] as int == b {
        DecodeLetter(i);
        return Some(i);
      }
    }
    OnlyLetters(b);
    return None;
  }

  lemma OnlyLetters(b: Byte)
    ensures DecodeDigit(b) == None || exists j :: 0 <= j < 32 && Letter(j) == b
  {
    hide Letter, DecodeDigit;
    if DecodeDigit(b).Some? {
      assert Letter(DecodeDigit(b).value) == b;
    }
  }

  function Letters(digits: seq<int>): (text: Octets)
    requires AreDigits(digits, 32)
    ensures |text| == |digits| && forall i :: 0 <= i < |text| ==> text[i] == Letter(digits[i])
  {
    seq(|digits|, i requires 0 <= i < |digits| => Letter(digits[i]))
  }

  function Value(id: RecordId): nat
  {
    DigitsBound(id, 256);
    FromDigits(id, 256)
  }

  function Encode(id: RecordId): Octets
  {
    PREFIX + Letters(ToDigits(Value(id), 32, PAYLOAD))
  }

  /* The loop over the payload: value so far, or the first error. */
  function Accumulate(payload: Octets): (r: Result<nat, IdTextError>)
  {
    if payload == [] then Ok(0)
    else
      var n := |payload| - 1;
      match Accumulate(payload[..n])
      case Err(e) => Err(e)
      case Ok(value) =>
        match DecodeDigit(payload[n])
        case None => Err(InvalidBase32)
        case Some(d) =>
          if n == 0 && d > 7 then Err(OutOfRange)
          else if value * 32 + d >= U128 then Err(OutOfRange)
          else Ok(value * 32 + d)
  }

  function Decode(text: Octets): Result<RecordId, IdTextError>
  {
    if |text| != |PREFIX| + PAYLOAD then Err(InvalidLength(|text|))
    else if !(PREFIX <= text) then Err(InvalidPrefix)
    else match Accumulate(text[|PREFIX|..])
      case Err(e) => Err(e)
      case Ok(value) => Ok(BigEndian(value, 16))
  }

  // The first digit decides the range.

  lemma Powers()
    ensures Power(256, 16) == U128 && 8 * Power(32, 25) == U128 && 4 * U128 == Power(32, 26)
  {
    assert Power(256, 4) == 0x1_0000_0000 by {
      assert Power(256, 1) == 256 by { assert Power(256, 0) == 1; }
      assert Power(256, 2) == 0x1_0000;
      assert Power(256, 3) == 0x100_0000;
    }
    assert Power(256, 8) == 0x1_0000_0000_0000_0000 by {
      assert Power(256, 5) == 0x100_0000_0000;
      assert Power(256, 6) == 0x1_0000_0000_0000;
      assert Power(256, 7) == 0x100_0000_0000_0000;
    }
    assert Power(256, 12) == 0x1_0000_0000_0000_0000_0000_0000 by {
      assert Power(256, 9) == 0x100_0000_0000_0000_0000;
      assert Power(256, 10) == 0x1_0000_0000_0000_0000_0000;
      assert Power(256, 11) == 0x100_0000_0000_0000_0000_0000;
    }
    assert Power(256, 16) == U128 by {
      assert Power(256, 13) == 0x100_0000_0000_0000_0000_0000_0000;
      assert Power(256, 14) == 0x1_0000_0000_0000_0000_0000_0000_0000;
      assert Power(256, 15) == 0x100_0000_0000_0000_0000_0000_0000_0000;
    }
    PowersOf32();
  }

  lemma PowersOf32()
    ensures 8 * Power(32, 25) == U128 && 4 * U128 == Power(32, 26)
  {
    assert Power(32, 5) == 0x200_0000 by {
      assert Power(32, 1) == 32 by { assert Power(32, 0) == 1; }
      assert Power(32, 2) == 0x400;
      assert Power(32, 3) == 0x8000;
      assert Power(32, 4) == 0x10_0000;
    }
    PowerSum(5, 5);
    PowerSum(10, 10);
    PowerSum(20, 5);
    assert Power(32, 26) == Power(32, 25) * 32;
  }

  lemma {:induction false} PowerSum(a: nat, b: nat)
    ensures Power(32, a + b) == Power(32, a) * Power(32, b)
  {
    if b > 0 {
      PowerSum(a, b - 1);
      var x, y := Power(32, a), Power(32, b - 1);
      assert x * y * 32 == x * (y * 32);
    }
  }

  lemma {:induction false} PowerGrows(a: nat, b: nat)
    requires a <= b
    ensures Power(32, a) <= Power(32, b)
  {
    if a < b {
      PowerGrows(a, b - 1);
    }
  }

  /* A first digit of at most seven bounds the whole value. */
  lemma {:induction false} FirstDigitBounds(digits: seq<int>)
    requires AreDigits(digits, 32) && digits != [] && digits[0] <= 7
    ensures 0 <= FromDigits(digits, 32) < 8 * Power(32, |digits| - 1)
  {
    var n := |digits| - 1;
    if n == 0 {
      assert digits[..0] == [];
    } else {
      FirstDigitBounds(digits[..n]);
      assert Power(32, n) == Power(32, n - 1) * 32;
    }
  }

  /* Every octet is a letter of the alphabet. */
  predicate AllLetters(payload: Octets)
  {
    forall i :: 0 <= i < |payload| ==> DecodeDigit(payload[i]).Some?
  }

  function Digits(payload: Octets): (digits: seq<int>)
    requires AllLetters(payload)
    ensures |digits| == |payload| && AreDigits(digits, 32)
    ensures forall i :: 0 <= i < |digits| ==> DecodeDigit(payload[i]) == Some(digits[i]) && Letter(digits[i]) == payload[i]
  {
    seq(|payload|, i requires 0 <= i < |payload| => DecodeDigit(payload[i]).value)
  }

  /**
   The checked arithmetic never fails: a payload of at most 26 letters is accepted exactly when its first
   digit is at most seven, and then its value is that of its digits.
   */
  lemma {:induction false} FirstDigitSuffices(payload: Octets)
    requires |payload| <= PAYLOAD
    ensures Accumulate(payload).Ok? <==> AllLetters(payload) && (payload != [] ==> Digits(payload)[0] <= 7)
    ensures Accumulate(payload).Ok? ==> Accumulate(payload) == Ok(FromDigits(Digits(payload), 32))
  {
    hide Letter, DecodeDigit, AllLetters, Digits, FromDigits, AreDigits, Accumulate;
    if payload == [] {
      NoDigits();
    } else {
      var n := |payload| - 1;
      var init, d := payload[..n], DecodeDigit(payload[n]);
      assert payload == init + [payload[n]];
      FirstDigitSuffices(init);
      AccumulateAppend(init, payload[n]);
      DigitsAppend(init, payload[n]);
      if AllLetters(payload) {
        FromDigitsAppend(Digits(init), d.value, 32);
        if Digits(payload)[0] <= 7 {
          InRange(Digits(payload));
        }
      }
    }
  }

  lemma NoDigits()
    ensures AllLetters([]) && Digits([]) == [] && FromDigits([], 32) == 0 && Accumulate([]) == Ok(0)
  {
  }

  lemma AccumulateAppend(init: Octets, last: Byte)
    ensures Accumulate(init + [last]) ==
      match Accumulate(init)
      case Err(e) => Err(e)
      case Ok(value) =>
        match DecodeDigit(last)
        case None => Err(InvalidBase32)
        case Some(d) => if (init == [] && d > 7) || value * 32 + d >= U128 then Err(OutOfRange) else Ok(value * 32 + d)
  {
    hide DecodeDigit;
    assert (init + [last])[..|init|] == init;
  }

  lemma DigitsAppend(init: Octets, last: Byte)
    ensures AllLetters(init + [last]) <==> AllLetters(init) && DecodeDigit(last).Some?
    ensures AllLetters(init + [last]) ==> Digits(init + [last]) == Digits(init) + [DecodeDigit(last).value]
  {
    hide Letter, DecodeDigit;
    var all := init + [last];
    assert forall i :: 0 <= i < |init| ==> all[i] == init[i];
    assert all[|init|] == last;
  }

  lemma InRange(digits: seq<int>)
    requires AreDigits(digits, 32) && 0 < |digits| <= PAYLOAD && digits[0] <= 7
    ensures 0 <= FromDigits(digits, 32) < U128
  {
    hide Power;
    FirstDigitBounds(digits);
    PowerGrows(|digits| - 1, 25);
    PowersOf32();
  }

  // The codec.

  lemma {:induction false} LettersDecode(digits: seq<int>)
    requires AreDigits(digits, 32)
    ensures AllLetters(Letters(digits)) && Digits(Letters(digits)) == digits
  {
    hide Letter, DecodeDigit;
    forall i | 0 <= i < |digits| ensures DecodeDigit(Letters(digits)[i]) == Some(digits[i]) {
      DecodeLetter(digits[i]);
    }
  }

  /* The first of the 26 digits of a 128-bit value is at most seven. */
  lemma {:induction false} TopDigit(value: nat)
    requires value < U128
    ensures ToDigits(value, 32, PAYLOAD)[0] <= 7
  {
    hide Power, ToDigits;
    var digits := ToDigits(value, 32, PAYLOAD);
    Powers();
    FromToDigits(value, 32, PAYLOAD);
    if digits[0] > 7 {
      BigFirstDigit(digits);
    }
  }

  lemma {:induction false} BigFirstDigit(digits: seq<int>)
    requires AreDigits(digits, 32) && digits != [] && digits[0] >= 8
    ensures FromDigits(digits, 32) >= 8 * Power(32, |digits| - 1)
  {
    var n := |digits| - 1;
    if n == 0 {
      assert digits[..0] == [];
    } else {
      BigFirstDigit(digits[..n]);
      assert Power(32, n) == Power(32, n - 1) * 32;
    }
  }

  lemma ValueInRange(id: RecordId)
    ensures Value(id) < U128 && BigEndian(Value(id), 16) == id
  {
    hide Power, ToDigits, FromDigits;
    Powers();
    DigitsBound(id, 256);
    ToFromDigits(id, 256);
  }

  /* Decoding what was encoded gives the identity back. */
  lemma {:induction false} DecodeInvertsEncode(id: RecordId)
    ensures Decode(Encode(id)) == Ok(id)
  {
    hide Power, ToDigits, FromDigits, Accumulate, BigEndian, Value, AllLetters;
    var digits := ToDigits(Value(id), 32, PAYLOAD);
    var text := Encode(id);
    assert text[|PREFIX|..] == Letters(digits);
    ValueInRange(id);
    TopDigit(Value(id));
    LettersDecode(digits);
    FirstDigitSuffices(Letters(digits));
    Powers();
    FromToDigits(Value(id), 32, PAYLOAD);
  }

  /* Any accepted text is the encoding of what it decodes to. */
  lemma {:induction false} EncodeInvertsDecode(text: Octets)
    requires Decode(text).Ok?
    ensures Encode(Decode(text).value) == text
  {
    hide Power, ToDigits, FromDigits, Accumulate, BigEndian, AllLetters, Letter, DecodeDigit;
    var payload := text[|PREFIX|..];
    FirstDigitSuffices(payload);
    var digits := Digits(payload);
    InRange(digits);
    var value := FromDigits(digits, 32);
    BigEndianValue(value);
    ToFromDigits(digits, 32);
    assert Letters(digits) == payload;
    assert text == PREFIX + payload;
  }

  lemma BigEndianValue(value: nat)
    requires value < U128
    ensures Value(BigEndian(value, 16)) == value
  {
    hide Power, ToDigits, FromDigits;
    Powers();
    FromToDigits(value, 256, 16);
  }

  /* Exactly these texts are accepted. */
  lemma {:induction false} DecodeAcceptsExactly(text: Octets)
    ensures Decode(text).Ok? <==>
      && |text| == |PREFIX| + PAYLOAD && PREFIX <= text
      && AllLetters(text[|PREFIX|..]) && Digits(text[|PREFIX|..])[0] <= 7
  {
    hide Accumulate, AllLetters, Digits;
    if |text| == |PREFIX| + PAYLOAD {
      FirstDigitSuffices(text[|PREFIX|..]);
    }
  }

  /* The first letter is of the alphabet but above seven. */
  predicate TooBig(payload: Octets)
  {
    payload != [] && DecodeDigit(payload[0]).Some? && DecodeDigit(payload[0]).value > 7
  }

  lemma {:induction false} PayloadRefused(payload: Octets)
    requires 0 < |payload| <= PAYLOAD
    ensures Accumulate(payload) == Err(OutOfRange) <==> TooBig(payload)
    ensures Accumulate(payload) == Err(InvalidBase32) <==> !TooBig(payload) && !AllLetters(payload)
    ensures Accumulate(payload).Err? ==> Accumulate(payload).error in {OutOfRange, InvalidBase32}
  {
    hide Letter, DecodeDigit, AllLetters, Digits, FromDigits, Accumulate;
    var n := |payload| - 1;
    var init := payload[..n];
    assert payload == init + [payload[n]];
    FirstDigitSuffices(payload);
    FirstDigitSuffices(init);
    AccumulateAppend(init, payload[n]);
    DigitsAppend(init, payload[n]);
    if n == 0 {
      NoDigits();
    } else {
      PayloadRefused(init);
    }
  }

  /* Why any other text is refused: its length, its prefix, a first digit above seven, or else a letter outside the alphabet. */
  lemma {:induction false} DecodeRefusesExactly(text: Octets)
    ensures Decode(text) == Err(InvalidLength(|text|)) <==> |text| != 30
    ensures Decode(text) == Err(InvalidPrefix) <==> |text| == 30 && !(Ascii("mem_") <= text)
    ensures Decode(text) == Err(OutOfRange) <==> |text| == 30 && Ascii("mem_") <= text && TooBig(text[4..])
    ensures Decode(text) == Err(InvalidBase32) <==>
      |text| == 30 && Ascii("mem_") <= text && !TooBig(text[4..]) && !AllLetters(text[4..])
  {
    hide Accumulate, AllLetters, TooBig;
    if |text| == 30 {
      PayloadRefused(text[4..]);
    }
  }

  lemma {:induction false} LettersOrder(a: seq<int>, b: seq<int>)
    requires |a| == |b| && AreDigits(a, 32) && AreDigits(b, 32)
    ensures LexLess(Letters(a), Letters(b)) <==> LexLess(a, b)
  {
    if a != [] {
      hide Letter;
      LettersOrder(a[1..], b[1..]);
      assert Letters(a)[1..] == Letters(a[1..]) && Letters(b)[1..] == Letters(b[1..]);
      LettersIncrease(a[0], b[0]);
      LettersIncrease(b[0], a[0]);
    }
  }

  /* Text order is identity order. */
  lemma {:induction false} TextOrder(a: RecordId, b: RecordId)
    ensures LexLess(Encode(a), Encode(b)) <==> LexLess(a, b)
  {
    hide Power, ToDigits, FromDigits, LexLess, Letters;
    var x, y := ToDigits(Value(a), 32, PAYLOAD), ToDigits(Value(b), 32, PAYLOAD);
    ValueInRange(a);
    ValueInRange(b);
    Powers();
    FromToDigits(Value(a), 32, PAYLOAD);
    FromToDigits(Value(b), 32, PAYLOAD);
    LexCommonPrefix(PREFIX, Letters(x), Letters(y));
    LettersOrder(x, y);
    DigitsOrder(x, y, 32);
    DigitsOrder(a, b, 256);
  }

  // The loops of the source.

  lemma LastDigit(value: nat, width: nat)
    ensures ToDigits(value, 32, width + 1) == ToDigits(value / 32, 32, width) + [value % 32]
  {
  }

  /* Digits are written from the last one forwards while the value is shifted. */
  method EncodeId(id: RecordId) returns (text: Octets)
    ensures text == Encode(id)
  {
    hide Letter, ToDigits, Value;
    var value := Value(id);
    var payload := new Byte[PAYLOAD](_ => 48);
    ghost var whole := ToDigits(Value(id), 32, PAYLOAD);
    for left := PAYLOAD downto 0
      invariant whole[..left] == ToDigits(value, 32, left)
      invariant forall i :: left <= i < PAYLOAD ==> payload[i] == Letter(whole[i])
    {
      LastDigit(value, left);
      assert whole[left] == whole[..left + 1][left] == value % 32;
      assert whole[..left] == whole[..left + 1][..left];
      AlphabetLetters(value % 32);
      payload[left] := ALPHABET[value % 32] as int;
      value := value / 32;
    }
    assert payload[..] == Letters(whole);
    return PREFIX + payload[..];
  }

  method DecodeId(text: Octets) returns (r: Result<RecordId, IdTextError>)
    ensures r == Decode(text)
  {
    hide DecodeDigit, BigEndian;
    if |text| != |PREFIX| + PAYLOAD {
      return Err(InvalidLength(|text|));
    }
    if !(PREFIX <= text) {
      return Err(InvalidPrefix);
    }
    var payload := text[|PREFIX|..];
    var decoded := 0;
    for i := 0 to |payload|
      invariant Accumulate(payload[..i]) == Ok(decoded)
    {
      assert payload[..i + 1][..i] == payload[..i];
      var digit := FindDigit(payload[i]);
      if digit.None? {
        ErrorStays(payload, i + 1);
        return Err(InvalidBase32);
      }
      if i == 0 && digit.value > 7 {
        ErrorStays(payload, i + 1);
        return Err(OutOfRange);
      }
      if decoded * 32 + digit.value >= U128 {
        ErrorStays(payload, i + 1);
        return Err(OutOfRange);
      }
      decoded := decoded * 32 + digit.value;
    }
    assert payload[..|payload|] == payload;
    return Ok(BigEndian(decoded, 16));
  }

  lemma {:induction false} ErrorStays(payload: Octets, i: nat)
    requires i <= |payload| && Accumulate(payload[..i]).Err?
    ensures Accumulate(payload) == Accumulate(payload[..i])
    decreases |payload|
  {
    if i == |payload| {
      assert payload[..i] == payload;
    } else {
      var n := |payload| - 1;
      assert payload[..n][..i] == payload[..i];
      ErrorStays(payload[..n], i);
    }
  }
}
