/**
 Collecting the relationships of one document: every symbol message contributes one pair per
 related symbol, under a bound on the number of pairs and a bound on the symbol octets they own.
 */
module ScipRelationships {
  import opened Results
  import opened Bytes
  import opened WireErrors
  import opened Framing
  import opened ScipDocument

  const MAX_DOCUMENT_RELATIONSHIPS: nat := 250_000
  const MAX_OWNED_SYMBOL_BYTES: nat := 16 * 1024 * 1024

  const MAX_SYMBOL_BYTES: nat := 16 * 1024

  /* The four flags of a relationship; at least one must be set. */
  datatype Kinds = Kinds(reference: bool, implementation: bool, typeDefinition: bool, definition: bool)

  datatype RawRelationship = RawRelationship(target: Octets, kinds: Kinds)

  /* What one symbol message parses to: its symbol, the number of relationships counted, and these. */
  datatype SymbolInformation = SymbolInformation(symbol: Octets, count: nat, related: seq<RawRelationship>)

  datatype Relationship = Relationship(source: Octets, target: Octets, kinds: Kinds)

  datatype Collected = Collected(relationships: seq<Relationship>, owned: nat)

  type SymbolParser = Octets -> Result<SymbolInformation, WireError>

  const REJECTED: WireError := ConsumerRejected(InvalidInput)
  const EXHAUSTED: WireError := ConsumerRejected(ResourceLimit)

  /* `ScipSymbol::try_new`. */
  predicate ValidSymbol(symbol: Octets)
  {
    0 < |symbol| <= MAX_SYMBOL_BYTES
  }

  /* `ScipRelationshipKinds::try_new`. */
  predicate ValidKinds(kinds: Kinds)
  {
    kinds.reference || kinds.implementation || kinds.typeDefinition || kinds.definition
  }

  predicate WithinBounds(c: Collected)
  {
    |c.relationships| <= MAX_DOCUMENT_RELATIONSHIPS && c.owned <= MAX_OWNED_SYMBOL_BYTES
  }

  /* One pair: count, target, octets of the source, octets of the target, kinds, in this order. */
  function Add(c: Collected, source: Octets, raw: RawRelationship): Result<Collected, WireError>
  {
    if |c.relationships| == MAX_DOCUMENT_RELATIONSHIPS then Err(EXHAUSTED)
    else if !ValidSymbol(raw.target) then Err(REJECTED)
    else if c.owned + |source| > MAX_OWNED_SYMBOL_BYTES then Err(EXHAUSTED)
    else if c.owned + |source| + |raw.target| > MAX_OWNED_SYMBOL_BYTES then Err(EXHAUSTED)
    else if !ValidKinds(raw.kinds) then Err(REJECTED)
    else Ok(Collected(c.relationships + [Relationship(source, raw.target, raw.kinds)], c.owned + |source| + |raw.target|))
  }

  function AddAll(c: Collected, source: Octets, related: seq<RawRelationship>): Result<Collected, WireError>
    decreases |related|
  {
    if related == [] then Ok(c)
    else match Add(c, source, related[0])
      case Err(e) => Err(e)
      case Ok(c') => AddAll(c', source, related[1..])
  }

  function Collect(parse: SymbolParser): (Collected, Octets) -> Result<Collected, WireError>
  {
    (c: Collected, message: Octets) =>
      match parse(message)
      case Err(e) => Err(e)
      case Ok(info) =>
        if info.count != |info.related| || !ValidSymbol(info.symbol) then Err(REJECTED)
        else AddAll(c, info.symbol, info.related)
  }

  // The unbounded meaning.

  /* Every related symbol is valid and related in some way. */
  predicate AllRelated(related: seq<RawRelationship>)
  {
    forall raw :: raw in related ==> ValidSymbol(raw.target) && ValidKinds(raw.kinds)
  }

  predicate Acceptable(r: Result<SymbolInformation, WireError>)
  {
    r.Ok? && r.value.count == |r.value.related| && ValidSymbol(r.value.symbol) && AllRelated(r.value.related)
  }

  function Pairs(source: Octets, related: seq<RawRelationship>): seq<Relationship>
  {
    seq(|related|, i requires 0 <= i < |related| => Relationship(source, related[i].target, related[i].kinds))
  }

  function AllPairs(parse: SymbolParser, messages: seq<Octets>): seq<Relationship>
  {
    if messages == [] then []
    else PairsOf(parse(messages[0])) + AllPairs(parse, messages[1..])
  }

  /* A pair is collected exactly when some message has its source as symbol and relates it to its target in its ways. */
  lemma {:induction false} PairsExactly(parse: SymbolParser, messages: seq<Octets>, pair: Relationship)
    ensures pair in AllPairs(parse, messages) <==>
      exists m :: m in messages && parse(m).Ok? && parse(m).value.symbol == pair.source &&
        RawRelationship(pair.target, pair.kinds) in parse(m).value.related
  {
    if messages != [] {
      PairsExactly(parse, messages[1..], pair);
      var first := parse(messages[0]);
      assert forall m :: m in messages <==> m == messages[0] || m in messages[1..];
      if first.Ok? {
        PairIn(first.value.symbol, first.value.related, pair);
      }
    }
  }

  lemma PairIn(source: Octets, related: seq<RawRelationship>, pair: Relationship)
    ensures pair in Pairs(source, related) <==> pair.source == source && RawRelationship(pair.target, pair.kinds) in related
  {
    if pair in Pairs(source, related) {
      var i :| 0 <= i < |related| && Pairs(source, related)[i] == pair;
      assert related[i] == RawRelationship(pair.target, pair.kinds);
    }
    if pair.source == source && RawRelationship(pair.target, pair.kinds) in related {
      var i :| 0 <= i < |related| && related[i] == RawRelationship(pair.target, pair.kinds);
      assert Pairs(source, related)[i] == pair;
    }
  }

  function OwnedBy(relationships: seq<Relationship>): nat
  {
    if relationships == [] then 0
    else |relationships[0].source| + |relationships[0].target| + OwnedBy(relationships[1..])
  }

  lemma {:induction false} OwnedSplits(a: seq<Relationship>, b: seq<Relationship>)
    ensures OwnedBy(a + b) == OwnedBy(a) + OwnedBy(b)
  {
    if a == [] {
      assert a + b == b;
    } else {
      assert (a + b)[1..] == a[1..] + b;
      OwnedSplits(a[1..], b);
    }
  }

  /* Adding succeeds exactly when all related symbols are acceptable and the final totals are within bounds. */
  lemma {:induction false} AddAllExactly(c: Collected, source: Octets, related: seq<RawRelationship>)
    requires WithinBounds(c)
    ensures var whole := Collected(c.relationships + Pairs(source, related), c.owned + OwnedBy(Pairs(source, related)));
      && (AddAll(c, source, related).Ok? <==> AllRelated(related) && WithinBounds(whole))
      && (AddAll(c, source, related).Ok? ==> AddAll(c, source, related) == Ok(whole))
    decreases |related|
  {
    hide ValidSymbol, ValidKinds;
    var pairs := Pairs(source, related);
    if related == [] {
      assert c.relationships + pairs == c.relationships;
    } else {
      assert pairs[1..] == Pairs(source, related[1..]);
      assert forall raw :: raw in related <==> raw == related[0] || raw in related[1..];
      match Add(c, source, related[0])
      case Err(_) =>
      case Ok(c') =>
        AddAllExactly(c', source, related[1..]);
        assert c.relationships + pairs == c'.relationships + pairs[1..];
    }
  }

  /* The pairs of one parsed symbol message. */
  function PairsOf(r: Result<SymbolInformation, WireError>): seq<Relationship>
  {
    match r
    case Err(_) => []
    case Ok(info) => Pairs(info.symbol, info.related)
  }

  lemma CollectOne(parse: SymbolParser, c: Collected, message: Octets)
    requires WithinBounds(c)
    ensures var pairs := PairsOf(parse(message));
      var whole := Collected(c.relationships + pairs, c.owned + OwnedBy(pairs));
      && (Collect(parse)(c, message).Ok? <==> Acceptable(parse(message)) && WithinBounds(whole))
      && (Collect(parse)(c, message).Ok? ==> Collect(parse)(c, message) == Ok(whole))
  {
    hide AddAll, Pairs, AllRelated, ValidSymbol, OwnedBy;
    if parse(message).Ok? {
      AddAllExactly(c, parse(message).value.symbol, parse(message).value.related);
    }
  }

  lemma WholeSplits(c: Collected, a: seq<Relationship>, b: seq<Relationship>)
    ensures var one := Collected(c.relationships + a, c.owned + OwnedBy(a));
      && Collected(c.relationships + (a + b), c.owned + OwnedBy(a + b)) == Collected(one.relationships + b, one.owned + OwnedBy(b))
      && |one.relationships| <= |c.relationships + (a + b)| && one.owned <= c.owned + OwnedBy(a + b)
  {
    hide OwnedBy;
    OwnedSplits(a, b);
    assert c.relationships + (a + b) == c.relationships + a + b;
  }

  /**
   The relationship handler over any list of symbol messages succeeds exactly when every message is
   acceptable and the totals are within bounds, and then it has collected every pair, in order.
   */
  lemma {:induction false} CollectExactly(parse: SymbolParser, c: Collected, messages: seq<Octets>)
    requires WithinBounds(c)
    ensures var whole := Collected(c.relationships + AllPairs(parse, messages), c.owned + OwnedBy(AllPairs(parse, messages)));
      && (FeedSymbols(Collect(parse), c, messages).Ok? <==> (forall m :: m in messages ==> Acceptable(parse(m))) && WithinBounds(whole))
      && (FeedSymbols(Collect(parse), c, messages).Ok? ==> FeedSymbols(Collect(parse), c, messages) == Ok(whole))
    decreases |messages|
  {
    hide Collect, Acceptable, OwnedBy, PairsOf, AllPairs, FeedSymbols;
    if messages == [] {
      NoSymbols(parse, c);
    } else {
      FirstSymbol(parse, c, messages);
      CollectOne(parse, c, messages[0]);
      WholeSplits(c, PairsOf(parse(messages[0])), AllPairs(parse, messages[1..]));
      match Collect(parse)(c, messages[0])
      case Err(_) =>
      case Ok(one) => CollectExactly(parse, one, messages[1..]);
    }
  }

  lemma NoSymbols(parse: SymbolParser, c: Collected)
    ensures FeedSymbols(Collect(parse), c, []) == Ok(c) && AllPairs(parse, []) == [] && OwnedBy([]) == 0
    ensures c.relationships + [] == c.relationships
  {
  }

  lemma FirstSymbol(parse: SymbolParser, c: Collected, messages: seq<Octets>)
    requires messages != []
    ensures AllPairs(parse, messages) == PairsOf(parse(messages[0])) + AllPairs(parse, messages[1..])
    ensures FeedSymbols(Collect(parse), c, messages) ==
      match Collect(parse)(c, messages[0])
      case Err(e) => Err(e)
      case Ok(one) => FeedSymbols(Collect(parse), one, messages[1..])
    ensures forall m :: m in messages <==> m == messages[0] || m in messages[1..]
  {
    hide PairsOf, Collect;
  }

  // Why collecting fails.

  lemma {:induction false} AddAllRefuses(c: Collected, source: Octets, related: seq<RawRelationship>)
    requires WithinBounds(c)
    ensures var whole := Collected(c.relationships + Pairs(source, related), c.owned + OwnedBy(Pairs(source, related)));
      match AddAll(c, source, related)
      case Ok(_) => true
      case Err(e) =>
        || (e == ConsumerRejected(InvalidInput) && !AllRelated(related))
        || (e == ConsumerRejected(ResourceLimit) && !WithinBounds(whole))
    decreases |related|
  {
    hide ValidSymbol, ValidKinds;
    if related != [] {
      var pairs := Pairs(source, related);
      assert pairs[1..] == Pairs(source, related[1..]);
      assert forall raw :: raw in related <==> raw == related[0] || raw in related[1..];
      match Add(c, source, related[0])
      case Err(_) =>
      case Ok(c') => AddAllRefuses(c', source, related[1..]);
    }
  }

  lemma CollectOneRefuses(parse: SymbolParser, c: Collected, message: Octets)
    requires WithinBounds(c)
    ensures var pairs := PairsOf(parse(message));
      match Collect(parse)(c, message)
      case Ok(_) => true
      case Err(e) =>
        || parse(message) == Err(e)
        || (e == ConsumerRejected(InvalidInput) && parse(message).Ok? && !Acceptable(parse(message)))
        || (e == ConsumerRejected(ResourceLimit) && !WithinBounds(Collected(c.relationships + pairs, c.owned + OwnedBy(pairs))))
  {
    hide AddAll, Pairs, AllRelated, ValidSymbol, OwnedBy;
    if parse(message).Ok? {
      AddAllRefuses(c, parse(message).value.symbol, parse(message).value.related);
    }
  }

  /* A failure is that of parsing a message, a message that is not acceptable, or a total out of bounds, and says which. */
  lemma {:induction false} CollectRefuses(parse: SymbolParser, c: Collected, messages: seq<Octets>)
    requires WithinBounds(c)
    ensures var pairs := AllPairs(parse, messages);
      match FeedSymbols(Collect(parse), c, messages)
      case Ok(_) => true
      case Err(e) =>
        || (exists m :: m in messages && parse(m) == Err(e))
        || (e == ConsumerRejected(InvalidInput) && exists m :: m in messages && parse(m).Ok? && !Acceptable(parse(m)))
        || (e == ConsumerRejected(ResourceLimit) && !WithinBounds(Collected(c.relationships + pairs, c.owned + OwnedBy(pairs))))
    decreases |messages|
  {
    hide Collect, Acceptable, OwnedBy, PairsOf, AllPairs, FeedSymbols;
    if messages == [] {
      NoSymbols(parse, c);
    } else {
      FirstSymbol(parse, c, messages);
      CollectOne(parse, c, messages[0]);
      CollectOneRefuses(parse, c, messages[0]);
      WholeSplits(c, PairsOf(parse(messages[0])), AllPairs(parse, messages[1..]));
      match Collect(parse)(c, messages[0])
      case Err(_) =>
      case Ok(one) => CollectRefuses(parse, one, messages[1..]);
    }
  }

  /* `decode_document_relationships`: a cursor loop with an inner loop over the related symbols. */
  method DecodeDocumentRelationships(input: Octets, parse: SymbolParser, owned: nat)
    returns (r: Result<Collected, OverlayError>)
    ensures r == match RelationshipsFrom(input, 0, Collect(parse), Collected([], owned))
              case Err(e) => Err(MapWireError(e))
              case Ok(c) => Ok(c)
  {
    hide ReadField, ValidSymbol, ValidKinds;
    var cursor, relationships := 0, [];
    var total: nat := owned;
    while cursor < |input|
      invariant cursor <= |input|
      invariant RelationshipsFrom(input, 0, Collect(parse), Collected([], owned))
             == RelationshipsFrom(input, cursor, Collect(parse), Collected(relationships, total))
    {
      ghost var before := Collected(relationships, total);
      var read, next := NextField(input, cursor, RelationshipAdmit(), Collected(relationships, total));
      if read.Err? {
        return Err(MapWireError(read.error));
      }
      if IsSymbol(read.value) {
        var info := parse(read.value.value.octets);
        if info.Err? {
          return Err(MapWireError(info.error));
        }
        var source, related := info.value.symbol, info.value.related;
        if info.value.count != |related| || !ValidSymbol(source) {
          return Err(InvalidInput);
        }
        for i := 0 to |related|
          invariant AddAll(before, source, related) == AddAll(Collected(relationships, total), source, related[i..])
        {
          assert related[i..][1..] == related[i + 1..];
          var raw := related[i];
          if |relationships| == MAX_DOCUMENT_RELATIONSHIPS {
            return Err(ResourceLimit);
          }
          if !ValidSymbol(raw.target) {
            return Err(InvalidInput);
          }
          if total + |source| > MAX_OWNED_SYMBOL_BYTES || total + |source| + |raw.target| > MAX_OWNED_SYMBOL_BYTES {
            return Err(ResourceLimit);
          }
          if !ValidKinds(raw.kinds) {
            return Err(InvalidInput);
          }
          total := total + |source| + |raw.target|;
          relationships := relationships + [Relationship(source, raw.target, raw.kinds)];
        }
      }
      cursor := next;
    }
    return Ok(Collected(relationships, total));
  }
}
