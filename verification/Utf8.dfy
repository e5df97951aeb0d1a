/**
 UTF-8 (section 3 of RFC 3629): source text as a sequence of Unicode scalar values and as octets.

 `Decode` stands for the standard library's checked conversion, which the SCIP decoder applies to
 text fields and to source files.
 */
module Utf8 {
  import opened Results
  import opened Bytes

  type Scalar = c: int | 0 <= c < 0xD800 || 0xE000 <= c <= 0x10FFFF

  predicate IsContinuation(b: Byte)
  {
    0x80 <= b < 0xC0
  }

  /* Number of octets, and of UTF-16 code units (section 2.1 of RFC 2781), of one scalar. */
  function Width8(c: Scalar): nat
  {
    if c < 0x80 then 1 else if c < 0x800 then 2 else if c < 0x10000 then 3 else 4
  }

  function Width16(c: Scalar): nat
  {
    if c < 0x10000 then 1 else 2
  }

  function EncodeScalar(c: Scalar): (s: Octets)
    ensures |s| == Width8(c)
    ensures !IsContinuation(s[0]) && forall i :: 0 < i < |s| ==> IsContinuation(s[i])
  {
    if c < 0x80 then [c]
    else if c < 0x800 then [0xC0 + c / 64, 0x80 + c % 64]
    else if c < 0x10000 then [0xE0 + c / 64 / 64, 0x80 + c / 64 % 64, 0x80 + c % 64]
    else [0xF0 + c / 64 / 64 / 64, 0x80 + c / 64 / 64 % 64, 0x80 + c / 64 % 64, 0x80 + c % 64]
  }

  function Encode(text: seq<Scalar>): Octets
  {
    if text == [] then [] else EncodeScalar(text[0]) + Encode(text[1..])
  }

  /* Appends the six payload bits of a continuation octet. */
  function Extend(high: int, continuation: Byte): int
  {
    high * 64 + (continuation - 0x80)
  }

  /* The scalar spelled by the first octets: shortest form only, no surrogates. */
  function DecodeFirst(s: Octets): (c: Option<Scalar>)
    ensures c.Some? ==> Width8(c.value) <= |s|
  {
    if s == [] then None
    else if s[0] < 0x80 then Some(s[0])
    else if |s| < 2 || !IsContinuation(s[1]) then None
    else if 0xC2 <= s[0] < 0xE0 then Some(Extend(s[0] - 0xC0, s[1]))
    else if |s| < 3 || !IsContinuation(s[2]) then None
    else if 0xE0 <= s[0] < 0xF0 then
      var c := Extend(Extend(s[0] - 0xE0, s[1]), s[2]);
      if c < 0x800 || 0xD800 <= c < 0xE000 then None else Some(c)
    else if |s| < 4 || !IsContinuation(s[3]) then None
    else if 0xF0 <= s[0] < 0xF5 then
      var c := Extend(Extend(Extend(s[0] - 0xF0, s[1]), s[2]), s[3]);
      if c < 0x10000 || 0x110000 <= c then None else Some(c)
    else None
  }

  function Decode(s: Octets): Option<seq<Scalar>>
  {
    if s == [] then Some([])
    else match DecodeFirst(s)
      case None => None
      case Some(c) =>
        match Decode(s[Width8(c)..])
        case None => None
        case Some(rest) => Some([c] + rest)
  }

  lemma ExtendSplits(high: int, b: Byte)
    requires IsContinuation(b)
    ensures Extend(high, b) / 64 == high && Extend(high, b) % 64 == b - 0x80
  {
  }

  lemma DecodeFirstInverts(c: Scalar, rest: Octets)
    ensures DecodeFirst(EncodeScalar(c) + rest) == Some(c)
  {
    var e := EncodeScalar(c);
    var s := e + rest;
    assert forall i :: 0 <= i < |e| ==> s[i] == e[i];
    if c < 0x80 {
    } else if c < 0x800 {
      assert Extend(c / 64, e[1]) == c;
    } else if c < 0x10000 {
      assert Extend(c / 64 / 64, e[1]) == c / 64;
      assert Extend(c / 64, e[2]) == c;
    } else {
      assert Extend(c / 64 / 64 / 64, e[1]) == c / 64 / 64;
      assert Extend(c / 64 / 64, e[2]) == c / 64;
      assert Extend(c / 64, e[3]) == c;
    }
  }

  lemma EncodeInvertsFirst(s: Octets)
    requires DecodeFirst(s).Some?
    ensures EncodeScalar(DecodeFirst(s).value) == s[..Width8(DecodeFirst(s).value)]
  {
    hide Extend;
    var c := DecodeFirst(s).value;
    var e := EncodeScalar(c);
    if s[0] < 0x80 {
    } else if s[0] < 0xE0 {
      ExtendSplits(s[0] - 0xC0, s[1]);
      assert 0x80 <= c < 0x800;
    } else if s[0] < 0xF0 {
      ExtendSplits(s[0] - 0xE0, s[1]);
      ExtendSplits(Extend(s[0] - 0xE0, s[1]), s[2]);
    } else {
      ExtendSplits(s[0] - 0xF0, s[1]);
      ExtendSplits(Extend(s[0] - 0xF0, s[1]), s[2]);
      ExtendSplits(Extend(Extend(s[0] - 0xF0, s[1]), s[2]), s[3]);
    }
  }

  lemma {:induction false} EncodeInvertsDecode(s: Octets)
    requires Decode(s).Some?
    ensures Encode(Decode(s).value) == s
    decreases |s|
  {
    hide DecodeFirst, EncodeScalar;
    if s != [] {
      var c := DecodeFirst(s).value;
      var rest := s[Width8(c)..];
      EncodeInvertsFirst(s);
      EncodeInvertsDecode(rest);
      assert Decode(s).value[1..] == Decode(rest).value;
      assert s == s[..Width8(c)] + rest;
    }
  }

  lemma {:induction false} DecodeInvertsEncode(text: seq<Scalar>)
    ensures Decode(Encode(text)) == Some(text)
    decreases |text|
  {
    hide DecodeFirst, EncodeScalar;
    if text != [] {
      var rest := Encode(text[1..]);
      DecodeFirstInverts(text[0], rest);
      DecodeInvertsEncode(text[1..]);
      assert Encode(text)[Width8(text[0])..] == rest;
      assert text == [text[0]] + text[1..];
    }
  }

  /* Octets before the scalar at index `i`. */
  function Offset(text: seq<Scalar>, i: nat): nat
    requires i <= |text|
  {
    if i == 0 then 0 else Offset(text, i - 1) + Width8(text[i - 1])
  }

  /* Offsets inside a slice are relative to the offset of its start. */
  lemma {:induction false} OffsetSlice(text: seq<Scalar>, first: nat, last: nat, i: nat)
    requires first + i <= last <= |text|
    ensures Offset(text, first + i) == Offset(text, first) + Offset(text[first..last], i)
    decreases i
  {
    if i > 0 {
      OffsetSlice(text, first, last, i - 1);
    }
  }

  lemma {:induction false} OffsetMonotone(text: seq<Scalar>, i: nat, j: nat)
    requires i < j <= |text|
    ensures Offset(text, i) < Offset(text, j)
    decreases j
  {
    if i < j - 1 {
      OffsetMonotone(text, i, j - 1);
    }
  }

  lemma {:induction false} EncodeLength(text: seq<Scalar>)
    ensures |Encode(text)| == Offset(text, |text|)
  {
    hide EncodeScalar;
    if text != [] {
      EncodeLength(text[1..]);
      assert text[1..] == text[1..|text|];
      OffsetSlice(text, 1, |text|, |text| - 1);
    }
  }

  /* `str::is_char_boundary`. */
  predicate IsBoundary(s: Octets, at: nat)
  {
    at == |s| || (at < |s| && !IsContinuation(s[at]))
  }

  lemma OffsetOfTail(text: seq<Scalar>, i: nat)
    requires i < |text|
    ensures Offset(text, i + 1) == Width8(text[0]) + Offset(text[1..], i)
  {
    assert text[1..] == text[1..|text|];
    OffsetSlice(text, 1, |text|, i);
  }

  /* The offset of every scalar passes the octet test. */
  lemma {:induction false} OffsetIsBoundary(text: seq<Scalar>, i: nat)
    requires i <= |text|
    ensures IsBoundary(Encode(text), Offset(text, i))
    decreases i
  {
    hide EncodeScalar;
    if text != [] && i > 0 {
      OffsetOfTail(text, i - 1);
      OffsetIsBoundary(text[1..], i - 1);
    }
  }

  /* Nothing else does. */
  lemma {:induction false} BoundaryIsOffset(text: seq<Scalar>, at: nat) returns (i: nat)
    requires IsBoundary(Encode(text), at)
    ensures i <= |text| && Offset(text, i) == at
    decreases |text|
  {
    hide EncodeScalar;
    if at == 0 {
      i := 0;
    } else {
      var first, rest := EncodeScalar(text[0]), Encode(text[1..]);
      var j := BoundaryIsOffset(text[1..], at - |first|);
      OffsetOfTail(text, j);
      i := j + 1;
    }
  }

  lemma {:induction false} EncodeConcat(a: seq<Scalar>, b: seq<Scalar>)
    ensures Encode(a + b) == Encode(a) + Encode(b)
  {
    hide EncodeScalar;
    if a == [] {
      assert a + b == b;
    } else {
      assert (a + b)[1..] == a[1..] + b;
      EncodeConcat(a[1..], b);
    }
  }

  /* UTF-16 (section 2.1 of RFC 2781): one unit, or a pair of surrogates above the first plane. */
  function EncodeUtf16(text: seq<Scalar>): seq<int>
  {
    if text == [] then []
    else
      var c := text[0];
      (if c < 0x1_0000 then [c] else [0xD800 + (c - 0x1_0000) / 0x400, 0xDC00 + (c - 0x1_0000) % 0x400]) + EncodeUtf16(text[1..])
  }

  lemma {:induction false} EncodeUtf16Concat(a: seq<Scalar>, b: seq<Scalar>)
    ensures EncodeUtf16(a + b) == EncodeUtf16(a) + EncodeUtf16(b)
  {
    if a == [] {
      assert a + b == b;
    } else {
      assert (a + b)[1..] == a[1..] + b;
      EncodeUtf16Concat(a[1..], b);
    }
  }

  lemma OneScalar(c: Scalar)
    ensures |Encode([c])| == Width8(c) && |EncodeUtf16([c])| == Width16(c)
  {
    var one: seq<Scalar> := [c];
    assert one[1..] == [];
  }

  lemma OffsetIsLength(text: seq<Scalar>, i: nat)
    requires i <= |text|
    ensures Offset(text, i) == |Encode(text[..i])|
  {
    OffsetSlice(text, 0, i, i);
    assert text[0..i] == text[..i];
    EncodeLength(text[..i]);
  }

  /* The octets between two offsets are the encoding of the scalars between them. */
  lemma {:induction false} EncodeSlice(text: seq<Scalar>, i: nat, j: nat)
    requires i <= j <= |text|
    ensures Offset(text, i) <= Offset(text, j) <= |Encode(text)|
    ensures Encode(text)[Offset(text, i)..Offset(text, j)] == Encode(text[i..j])
  {
    hide Encode, Offset;
    OffsetIsLength(text, i);
    OffsetIsLength(text, j);
    assert text[..j] == text[..i] + text[i..j] && text == text[..j] + text[j..];
    EncodeConcat(text[..i], text[i..j]);
    EncodeConcat(text[..j], text[j..]);
  }
}
