/**
 Base-128 varints (Protobuf encoding specification, "Base 128 Varints"): the reader used by every
 SCIP pass and the printer used by its fixtures.

 A varint is a run of octets with the high bit set followed by one without it; its value is the sum
 of the low seven bits, least significant group first.
 */
module Varint {
  import opened Results
  import opened Bytes
  import opened WireErrors

  const MAX_VARINT_OCTETS: nat := 10

  datatype Reading = Reading(value: nat, next: nat)

  /* A complete varint: only its last octet has the high bit clear. */
  predicate Terminated(s: Octets)
  {
    && s != []
    && s[|s| - 1] < 128
    && forall i :: 0 <= i < |s| - 1 ==> s[i] >= 128
  }

  /* The number spelled by the low seven bits, least significant group first. */
  function Payload(s: Octets): nat
  {
    if s == [] then 0 else s[0] % 128 + 128 * Payload(s[1..])
  }

  /* Index of the first octet at or after `cursor` without a continuation bit, or the input length. */
  function ContinuationEnd(input: Octets, cursor: nat): (end: nat)
    requires cursor <= |input|
    ensures cursor <= end <= |input|
    ensures forall i :: cursor <= i < end ==> input[i] >= 128
    ensures end < |input| ==> input[end] < 128
    decreases |input| - cursor
  {
    if cursor == |input| || input[cursor] < 128 then cursor
    else ContinuationEnd(input, cursor + 1)
  }

  /* What `read_varint` returns at `cursor`, and where it leaves the cursor. */
  function Read(input: Octets, cursor: nat): (r: Result<Reading, WireError>)
    requires cursor <= |input|
    ensures r.Ok? ==> cursor < r.value.next <= |input|
  {
    var end := ContinuationEnd(input, cursor);
    if end - cursor >= MAX_VARINT_OCTETS then Err(VarintOverflow)
    else if end == |input| then Err(Truncated)
    else if end - cursor == MAX_VARINT_OCTETS - 1 && input[end] > 1 then Err(VarintOverflow)
    else Ok(Reading(Payload(input[cursor..end + 1]), end + 1))
  }

  /* What `push_varint` appends. */
  function Encode(value: nat): (s: Octets)
    ensures Terminated(s)
    decreases value
  {
    if value < 128 then [value] else [value % 128 + 128] + Encode(value / 128)
  }

  lemma {:induction false} PayloadAppend(s: Octets, b: Byte)
    ensures Payload(s + [b]) == Payload(s) + (b % 128) * Power(128, |s|)
  {
    if s == [] {
      assert s + [b] == [b];
    } else {
      PayloadAppend(s[1..], b);
      assert (s + [b])[1..] == s[1..] + [b];
      var p := Power(128, |s| - 1);
      assert 128 * ((b % 128) * p) == (b % 128) * (p * 128);
    }
  }

  lemma {:induction false} PayloadBound(s: Octets)
    ensures Payload(s) < Power(128, |s|)
  {
    if s != [] {
      PayloadBound(s[1..]);
    }
  }

  lemma NineGroups()
    ensures Power(128, 9) == 0x8000_0000_0000_0000
  {
    assert Power(128, 3) == 0x20_0000;
    assert Power(128, 6) == 0x400_0000_0000;
  }

  /* A terminated run of at most ten octets fits in 64 bits unless its tenth octet exceeds one. */
  lemma FitsU64(s: Octets)
    requires Terminated(s) && |s| <= MAX_VARINT_OCTETS
    ensures Payload(s) < U64 <==> |s| < MAX_VARINT_OCTETS || s[9] <= 1
  {
    hide Payload;
    NineGroups();
    var init, last := s[..|s| - 1], s[|s| - 1];
    PayloadAppend(init, last);
    PayloadBound(init);
    assert s == init + [last];
    if |s| < MAX_VARINT_OCTETS {
      PayloadBound(s);
      PowerMonotone(|s|, 9);
    }
  }

  lemma {:induction false} PowerMonotone(a: nat, b: nat)
    requires a <= b
    ensures Power(128, a) <= Power(128, b)
    decreases b - a
  {
    if a < b {
      PowerMonotone(a, b - 1);
    }
  }

  /* The continuation run stops exactly where a terminated slice ends. */
  lemma {:induction false} EndOfTerminated(input: Octets, cursor: nat, next: nat)
    requires cursor < next <= |input| && Terminated(input[cursor..next])
    ensures ContinuationEnd(input, cursor) == next - 1
    decreases next - cursor
  {
    var s := input[cursor..next];
    assert s[0] == input[cursor];
    if cursor + 1 < next {
      assert input[cursor + 1..next] == s[1..];
      EndOfTerminated(input, cursor + 1, next);
    }
  }

  /**
   `read_varint` accepts exactly the terminated encodings of at most ten octets whose value is
   below 2^64, and returns that value and the position after the last octet.
   */
  lemma ReadAcceptsExactly(input: Octets, cursor: nat, value: nat, next: nat)
    requires cursor <= |input|
    ensures Read(input, cursor) == Ok(Reading(value, next)) <==>
              && cursor < next <= |input|
              && next - cursor <= MAX_VARINT_OCTETS
              && Terminated(input[cursor..next])
              && Payload(input[cursor..next]) == value
              && value < U64
  {
    var end := ContinuationEnd(input, cursor);
    if end < |input| && end - cursor < MAX_VARINT_OCTETS {
      FitsU64(input[cursor..end + 1]);
    }
    if cursor < next <= |input| && Terminated(input[cursor..next]) {
      EndOfTerminated(input, cursor, next);
    }
  }

  /* The first `n` octets at `cursor` are there and have the continuation bit. */
  predicate Continues(input: Octets, cursor: nat, n: nat)
  {
    cursor + n <= |input| && forall i :: cursor <= i < cursor + n ==> input[i] >= 128
  }

  /* A tenth octet above one overflows; an input that ends before its varint does is truncated. */
  lemma ReadRefusesExactly(input: Octets, cursor: nat)
    requires cursor <= |input|
    ensures Read(input, cursor) == Err(VarintOverflow) <==>
      cursor + 10 <= |input| && Continues(input, cursor, 9) && input[cursor + 9] > 1
    ensures Read(input, cursor) == Err(Truncated) <==> |input| < cursor + 10 && Continues(input, cursor, |input| - cursor)
    ensures Read(input, cursor).Err? ==> Read(input, cursor).error in {VarintOverflow, Truncated}
  {
    hide Payload;
    var end := ContinuationEnd(input, cursor);
    assert end < |input| ==> input[end] < 128;
  }

  /* The reader looks at nothing but the varint it returns. */
  lemma ReadSlice(input: Octets, cursor: nat, s: Octets)
    requires cursor + |s| <= |input| && input[cursor..cursor + |s|] == s
    requires Terminated(s) && |s| <= MAX_VARINT_OCTETS && Payload(s) < U64
    ensures Read(input, cursor) == Ok(Reading(Payload(s), cursor + |s|))
  {
    hide Read, Payload;
    ReadAcceptsExactly(input, cursor, Payload(s), cursor + |s|);
  }

  lemma {:induction false} PayloadOfEncode(value: nat)
    ensures Payload(Encode(value)) == value
    decreases value
  {
    if value >= 128 {
      PayloadOfEncode(value / 128);
      assert Encode(value)[1..] == Encode(value / 128);
    }
  }

  lemma {:induction false} EncodeLength(value: nat, groups: nat)
    requires groups > 0 && value < Power(128, groups)
    ensures |Encode(value)| <= groups
    decreases value
  {
    if value >= 128 {
      EncodeLength(value / 128, groups - 1);
    }
  }

  lemma EncodeFits(value: nat)
    requires value < U64
    ensures |Encode(value)| <= MAX_VARINT_OCTETS && Payload(Encode(value)) == value
  {
    NineGroups();
    assert Power(128, 10) == Power(128, 9) * 128;
    EncodeLength(value, 10);
    PayloadOfEncode(value);
  }

  /* Reading inverts printing, wherever in the input the printed varint stands. */
  lemma ReadInvertsEncode(input: Octets, cursor: nat, value: nat)
    requires value < U64
    requires cursor + |Encode(value)| <= |input| && input[cursor..cursor + |Encode(value)|] == Encode(value)
    ensures Read(input, cursor) == Ok(Reading(value, cursor + |Encode(value)|))
  {
    hide Read, Payload, Encode, Terminated;
    EncodeFits(value);
    ReadSlice(input, cursor, Encode(value));
  }

  /* `read_varint`: one octet per iteration, accumulating seven bits at a growing shift. */
  method ReadVarint(input: Octets, cursor: nat) returns (r: Result<nat, WireError>, next: nat)
    requires cursor <= |input|
    ensures r.Ok? <==> Read(input, cursor).Ok?
    ensures r.Ok? ==> Read(input, cursor) == Ok(Reading(r.value, next))
    ensures r.Err? ==> Read(input, cursor) == Err(r.error)
  {
    var value := 0;
    next := cursor;
    ghost var end := ContinuationEnd(input, cursor);
    assert Payload(input[cursor..cursor]) == 0;
    hide Payload, Power, ContinuationEnd;
    for group := 0 to MAX_VARINT_OCTETS
      invariant next == cursor + group <= end
      invariant value == Payload(input[cursor..next])
    {
      if next >= |input| {
        return Err(Truncated), next;
      }
      var octet := input[next];
      if group == 9 && octet % 128 > 1 {
        return Err(VarintOverflow), next + 1;
      }
      PayloadAppend(input[cursor..next], octet);
      assert input[cursor..next + 1] == input[cursor..next] + [octet];
      value := value + (octet % 128) * Power(128, group);
      next := next + 1;
      if octet < 128 {
        return Ok(value), next;
      }
    }
    return Err(VarintOverflow), next;
  }

  /* `push_varint`: emits seven bits per iteration until fewer than eight bits remain. */
  method PushVarint(value: nat, output: Octets) returns (extended: Octets)
    ensures extended == output + Encode(value)
  {
    var rest := value;
    extended := output;
    while rest >= 128
      invariant extended + Encode(rest) == output + Encode(value)
    {
      extended := extended + [rest % 128 + 128];
      rest := rest / 128;
    }
    extended := extended + [rest];
  }
}
