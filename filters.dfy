/**
 * The filter-expression deserialiser (`deserialize_query_filter`): one query
 * value, and the value type its field declares, become a mapping from
 * comparison operator to the list of values given for it.
 */
module Filters {
  import opened Options
  import opened Text
  import opened Errors

  /** The value type a filterable field declares: `str`, `int` or `float`. */
  datatype ValueType = StrType | IntType | FloatType

  /** A coerced filter value. A float keeps its literal text; its numeric value is not modelled. */
  datatype Value = StrVal(s: string) | IntVal(i: int) | FloatVal(literal: string)

  /** The comparison operators the grammar accepts. */
  datatype Op = Eq | Ne | Gt | Lt | Gte | Lte | Like

  /** The key the operator is stored under in the result. */
  function OpKey(op: Op): string {
    match op
    case Eq => "$eq"
    case Ne => "$ne"
    case Gt => "$gt"
    case Lt => "$lt"
    case Gte => "$gte"
    case Lte => "$lte"
    case Like => "$like"
  }

  /** `'$' + token.lower()`, accepted only when it is the key of a supported operator. */
  function ParseOp(token: string): (r: Option<Op>)
    ensures r.Some? ==> OpKey(r.value) == "$" + Lower(token)
    ensures r.None? ==> forall op: Op :: OpKey(op) != "$" + Lower(token)
  {
    var key := "$" + Lower(token);
    if key == "$eq" then Some(Eq)
    else if key == "$ne" then Some(Ne)
    else if key == "$gt" then Some(Gt)
    else if key == "$lt" then Some(Lt)
    else if key == "$gte" then Some(Gte)
    else if key == "$lte" then Some(Lte)
    else if key == "$like" then Some(Like)
    else None
  }

  /** Every operator is recognised from its own key without the `$`, in any letter case. */
  lemma ParseOpOfKey(op: Op, token: string)
    requires Lower(token) == OpKey(op)[1..]
    ensures ParseOp(token) == Some(op)
  {
    var key := OpKey(op);
    assert "$" + Lower(token) == key by {
      assert key == [key[0]] + key[1..];
    }
  }

  /** An operator written in upper case is recognised: `GT` is `$gt`. */
  lemma UpperCaseOperator()
    ensures ParseOp("GT") == Some(Gt)
  {
    assert Lower("GT") == "gt";
    ParseOpOfKey(Gt, "GT");
  }

  /** Longer than one character, and starts and ends with the same quote character. */
  predicate IsQuoted(s: string) {
    |s| > 1 && ((s[0] == '"' && s[|s| - 1] == '"') || (s[0] == '\'' && s[|s| - 1] == '\''))
  }

  /** `s[1:-1]`. */
  function Unquote(s: string): string
    requires |s| > 1
  {
    s[1..|s| - 1]
  }

  /**
   * Coerces one value token to the declared type: a string loses one
   * surrounding quote pair, a number must be accepted by `int()` / `float()`.
   */
  function Coerce(token: string, t: ValueType): (r: Result<Value>)
    ensures r.Err? ==> t != StrType && r.error == InvalidValueType
    ensures t == StrType ==> r.Ok? && r.value.StrVal?
    ensures t == IntType ==> (r.Ok? <==> ParseInt(token).Some?)
    ensures t == FloatType ==> (r.Ok? <==> ParsesAsFloat(token))
    ensures t == IntType && r.Ok? ==> r.value == IntVal(ParseInt(token).value)
    ensures t == FloatType && r.Ok? ==> r.value == FloatVal(Strip(token))
  {
    match t
    case StrType => Ok(StrVal(if IsQuoted(token) then Unquote(token) else token))
    case IntType =>
      var n := ParseInt(token);
      if n.Some? then Ok(IntVal(n.value)) else Err(InvalidValueType)
    case FloatType =>
      if ParsesAsFloat(token) then Ok(FloatVal(Strip(token))) else Err(InvalidValueType)
  }

  /** Exactly one surrounding pair of matching quotes is removed from a string value. */
  lemma CoerceStripsOneQuotePair(q: char, inner: string)
    requires q == '"' || q == '\''
    ensures Coerce([q] + inner + [q], StrType) == Ok(StrVal(inner))
  {
    var s := [q] + inner + [q];
    assert s[1..|s| - 1] == inner;
  }

  /** A string value that is not wrapped in a quote pair is kept as written. */
  lemma CoerceKeepsUnquoted(token: string)
    requires !IsQuoted(token)
    ensures Coerce(token, StrType) == Ok(StrVal(token))
  {
  }

  function Tag(op: Op, r: Result<Value>): Result<(Op, Value)> {
    match r
    case Err(e) => Err(e)
    case Ok(v) => Ok((op, v))
  }

  /** One comma-separated piece: `value` or `operator:value`. */
  function ParsePiece(piece: string, t: ValueType): Result<(Op, Value)> {
    var elements := Split(piece, ':');
    if |elements| == 1 then Tag(Eq, Coerce(elements[0], t))
    else if |elements| == 2 then
      match ParseOp(elements[0])
      case None => Err(UnknownComparisonOperator)
      case Some(op) => Tag(op, Coerce(elements[1], t))
    else Err(TooManyValues)
  }

  /** A piece without `:` is an equality on the whole piece. */
  lemma PieceWithoutColon(piece: string, t: ValueType)
    requires ':' !in piece
    ensures ParsePiece(piece, t) == Tag(Eq, Coerce(piece, t))
  {
    SplitSingle(piece, ':');
  }

  /** A piece with one `:` puts its second token under the operator its first token names. */
  lemma PieceWithOneColon(op: string, token: string, t: ValueType)
    requires ':' !in op && ':' !in token
    ensures ParsePiece(op + ":" + token, t) ==
      match ParseOp(op)
      case None => Err(UnknownComparisonOperator)
      case Some(o) => Tag(o, Coerce(token, t))
  {
    SplitTwo(op, token, ':');
    assert op + ":" + token == op + [':'] + token;
  }

  /** A piece with two or more `:` is rejected, whatever its tokens. */
  lemma PieceWithManyColons(piece: string, t: ValueType)
    requires Count(piece, ':') >= 2
    ensures ParsePiece(piece, t) == Err(TooManyValues)
  {
  }

  /** Writing the `eq:` operator out (in any letter case) changes nothing. */
  lemma ExplicitEqualityIsDefault(eq: string, piece: string, t: ValueType)
    requires ParseOp(eq) == Some(Eq) && ':' !in eq
    requires ':' !in piece
    ensures ParsePiece(eq + ":" + piece, t) == ParsePiece(piece, t)
  {
    PieceWithOneColon(eq, piece, t);
    PieceWithoutColon(piece, t);
  }

  /** The result: operator keys in insertion order, each with its values in input order. */
  type Conditions = seq<(Op, seq<Value>)>

  /** The list stored under `op`, or the empty list when `op` is absent. */
  function Lookup(c: Conditions, op: Op): seq<Value> {
    if |c| == 0 then [] else if c[0].0 == op then c[0].1 else Lookup(c[1..], op)
  }

  /** The operator keys, in insertion order. */
  function Ops(c: Conditions): seq<Op> {
    if |c| == 0 then [] else [c[0].0] + Ops(c[1..])
  }

  /** No operator key occurs twice, as in a Python dict. */
  predicate DistinctOps(c: Conditions) {
    |c| == 0 || (c[0].0 !in Ops(c[1..]) && DistinctOps(c[1..]))
  }

  /** The number of values over all operator lists. */
  function TotalValues(c: Conditions): nat {
    if |c| == 0 then 0 else |c[0].1| + TotalValues(c[1..])
  }

  /**
   * `conditions.setdefault(op, []).append(v)`: the list under `op` grows by `v`
   * at its end, a new key goes last, and nothing else changes.
   */
  function SetDefaultAppend(c: Conditions, op: Op, v: Value): (r: Conditions)
    ensures forall o :: Lookup(r, o) == if o == op then Lookup(c, op) + [v] else Lookup(c, o)
    ensures Ops(r) == if op in Ops(c) then Ops(c) else Ops(c) + [op]
    ensures TotalValues(r) == TotalValues(c) + 1
    ensures DistinctOps(c) ==> DistinctOps(r)
  {
    if |c| == 0 then [(op, [v])]
    else if c[0].0 == op then [(op, c[0].1 + [v])] + c[1..]
    else [c[0]] + SetDefaultAppend(c[1..], op, v)
  }

  /** The outcome of parsing one comma piece. */
  type PieceOutcome = Result<(Op, Value)>

  /** Each comma piece parsed on its own, in order. */
  function Outcomes(pieces: seq<string>, t: ValueType): (r: seq<PieceOutcome>)
    ensures |r| == |pieces|
  {
    if |pieces| == 0 then [] else [ParsePiece(pieces[0], t)] + Outcomes(pieces[1..], t)
  }

  lemma {:induction false} OutcomeAt(pieces: seq<string>, t: ValueType, i: nat)
    requires i < |pieces|
    ensures Outcomes(pieces, t)[i] == ParsePiece(pieces[i], t)
  {
    if i > 0 {
      OutcomeAt(pieces[1..], t, i - 1);
      assert pieces[1..][i - 1] == pieces[i];
      assert Outcomes(pieces, t)[i] == Outcomes(pieces[1..], t)[i - 1];
    }
  }

  /** The loop over the parsed pieces, from `acc` on; the first failing piece decides the error. */
  function AccumulateFrom(rs: seq<PieceOutcome>, acc: Conditions): Result<Conditions> {
    if |rs| == 0 then Ok(acc)
    else if rs[0].Err? then Err(rs[0].error)
    else AccumulateFrom(rs[1..], SetDefaultAppend(acc, rs[0].value.0, rs[0].value.1))
  }

  /** The loop over the comma pieces, from `acc` on. */
  function Accumulate(pieces: seq<string>, t: ValueType, acc: Conditions): Result<Conditions> {
    AccumulateFrom(Outcomes(pieces, t), acc)
  }

  /** `deserialize_query_filter(value, value_type)`. */
  function ParseFilter(raw: string, t: ValueType): Result<Conditions> {
    var value := Strip(raw);
    if |value| == 0 then Err(EmptyValue)
    else if IsQuoted(value) then
      if t != StrType then Err(InvalidValueType) else Ok([(Eq, [StrVal(Unquote(value))])])
    else Accumulate(Split(value, ','), t, [])
  }

  /**
   * Reference semantics for the parsed pieces, independent of the
   * accumulation: all the values when every piece parses, else the error of
   * the first one that fails.
   */
  function Each(rs: seq<PieceOutcome>): (r: Result<seq<(Op, Value)>>)
    ensures r.Ok? <==> forall i :: 0 <= i < |rs| ==> rs[i].Ok?
    ensures r.Ok? ==> |r.value| == |rs| && forall i :: 0 <= i < |rs| ==> rs[i] == Ok(r.value[i])
    ensures r.Err? ==> exists k :: 0 <= k < |rs| && rs[k] == Err(r.error) && forall j :: 0 <= j < k ==> rs[j].Ok?
  {
    if |rs| == 0 then Ok([])
    else if rs[0].Err? then Err(rs[0].error)
    else
      var rest := Each(rs[1..]);
      assert rest.Err? ==> exists k :: 1 <= k < |rs| && rs[k] == Err(rest.error) && forall j :: 1 <= j < k ==> rs[j].Ok?;
      if rest.Err? then rest else Ok([rs[0].value] + rest.value)
  }

  /** The reference applied to the comma pieces: parse each on its own, fail with the first failing piece's error. */
  function ParseEach(pieces: seq<string>, t: ValueType): (r: Result<seq<(Op, Value)>>)
    ensures r.Ok? <==> forall i :: 0 <= i < |pieces| ==> ParsePiece(pieces[i], t).Ok?
    ensures r.Ok? ==> |r.value| == |pieces| && forall i :: 0 <= i < |pieces| ==> ParsePiece(pieces[i], t) == Ok(r.value[i])
    ensures r.Err? ==> exists k :: 0 <= k < |pieces| && ParsePiece(pieces[k], t) == Err(r.error)
                                   && forall j :: 0 <= j < k ==> ParsePiece(pieces[j], t).Ok?
  {
    var rs := Outcomes(pieces, t);
    assert forall i :: 0 <= i < |pieces| ==> rs[i] == ParsePiece(pieces[i], t) by {
      forall i | 0 <= i < |pieces| {
        OutcomeAt(pieces, t, i);
      }
    }
    Each(rs)
  }

  /** The values tagged with `op`, in order. */
  function Select(pvs: seq<(Op, Value)>, op: Op): seq<Value> {
    if |pvs| == 0 then []
    else (if pvs[0].0 == op then [pvs[0].1] else []) + Select(pvs[1..], op)
  }

  /**
   * The accumulation loop fails exactly when the reference does, with the
   * first failing piece's error.
   */
  lemma {:induction false} AccumulateFailsLikeEach(rs: seq<PieceOutcome>, acc: Conditions)
    ensures AccumulateFrom(rs, acc).Ok? <==> Each(rs).Ok?
    ensures AccumulateFrom(rs, acc).Err? ==> AccumulateFrom(rs, acc).error == Each(rs).error
  {
    if |rs| > 0 && rs[0].Ok? {
      AccumulateFailsLikeEach(rs[1..], SetDefaultAppend(acc, rs[0].value.0, rs[0].value.1));
    }
  }

  /** `SetDefaultAppend` applied to each pair in turn. */
  function AppendAll(c: Conditions, pvs: seq<(Op, Value)>): Conditions
    decreases |pvs|
  {
    if |pvs| == 0 then c else AppendAll(SetDefaultAppend(c, pvs[0].0, pvs[0].1), pvs[1..])
  }

  /** Appending pairs in turn leaves every operator's list as it was, followed by that operator's values in order. */
  lemma {:induction false} AppendAllLookup(c: Conditions, pvs: seq<(Op, Value)>, op: Op)
    decreases |pvs|
    ensures Lookup(AppendAll(c, pvs), op) == Lookup(c, op) + Select(pvs, op)
  {
    if |pvs| > 0 {
      var pv, rest := pvs[0], pvs[1..];
      var c' := SetDefaultAppend(c, pv.0, pv.1);
      AppendAllLookup(c', rest, op);
      assert AppendAll(c, pvs) == AppendAll(c', rest);
      assert Select(pvs, op) == (if pv.0 == op then [pv.1] else []) + Select(rest, op);
      if pv.0 == op {
        assert Lookup(c', op) == Lookup(c, op) + [pv.1];
        assert Lookup(c, op) + [pv.1] + Select(rest, op) == Lookup(c, op) + ([pv.1] + Select(rest, op));
      } else {
        assert Lookup(c', op) == Lookup(c, op);
        assert Select(pvs, op) == Select(rest, op);
      }
    }
  }

  /** The keys after appending are the old ones and the operators used. */
  lemma {:induction false} AppendAllOps(c: Conditions, pvs: seq<(Op, Value)>, op: Op)
    decreases |pvs|
    ensures op in Ops(AppendAll(c, pvs)) <==> op in Ops(c) || Select(pvs, op) != []
  {
    if |pvs| > 0 {
      var pv, rest := pvs[0], pvs[1..];
      AppendAllOps(SetDefaultAppend(c, pv.0, pv.1), rest, op);
      if pv.0 != op {
        assert Select(pvs, op) == Select(rest, op);
      }
    }
  }

  /** One value is added per pair, and no key is repeated. */
  lemma {:induction false} AppendAllCounts(c: Conditions, pvs: seq<(Op, Value)>)
    decreases |pvs|
    ensures TotalValues(AppendAll(c, pvs)) == TotalValues(c) + |pvs|
    ensures DistinctOps(c) ==> DistinctOps(AppendAll(c, pvs))
  {
    if |pvs| > 0 {
      AppendAllCounts(SetDefaultAppend(c, pvs[0].0, pvs[0].1), pvs[1..]);
    }
  }

  /** When every piece parses, the loop appends their pairs in turn. */
  lemma {:induction false} AccumulateCollectsEach(rs: seq<PieceOutcome>, acc: Conditions)
    requires Each(rs).Ok?
    ensures AccumulateFrom(rs, acc) == Ok(AppendAll(acc, Each(rs).value))
  {
    if |rs| > 0 {
      var pvs := Each(rs).value;
      assert pvs[0] == rs[0].value && pvs[1..] == Each(rs[1..]).value;
      AccumulateCollectsEach(rs[1..], SetDefaultAppend(acc, rs[0].value.0, rs[0].value.1));
    }
  }

  /** An argument that is empty after trimming whitespace is rejected, whatever the declared type. */
  lemma FilterRejectsEmpty(raw: string, t: ValueType)
    requires forall i :: 0 <= i < |raw| ==> IsSpace(raw[i])
    ensures ParseFilter(raw, t) == Err(EmptyValue)
  {
    StripEmptyIff(raw);
  }

  /**
   * A trimmed value wrapped in one matching quote pair is one literal: an
   * equality on the inside for a string field, a type error for any other.
   */
  lemma FilterQuotedLiteral(raw: string, t: ValueType)
    requires IsQuoted(Strip(raw))
    ensures ParseFilter(raw, t) ==
      if t == StrType then Ok([(Eq, [StrVal(Unquote(Strip(raw)))])]) else Err(InvalidValueType)
  {
  }

  /**
   * An unquoted value is one condition per comma piece: it fails exactly when a
   * piece fails (with the first failing piece's error); otherwise the list under
   * each operator holds the values of the pieces naming it, in input order, the
   * keys are exactly the operators used, each once, and the values number as
   * many as the pieces.
   */
  lemma FilterUnquotedPieces(raw: string, t: ValueType)
    requires |Strip(raw)| > 0 && !IsQuoted(Strip(raw))
    ensures var pieces := Split(Strip(raw), ',');
      var r := ParseFilter(raw, t);
      var each := ParseEach(pieces, t);
      && (r.Ok? <==> each.Ok?)
      && (r.Err? ==> r.error == each.error)
      && (r.Ok? ==>
            && (forall op :: Lookup(r.value, op) == Select(each.value, op))
            && (forall op :: op in Ops(r.value) <==> Select(each.value, op) != [])
            && TotalValues(r.value) == |pieces|
            && DistinctOps(r.value))
  {
    var rs := Outcomes(Split(Strip(raw), ','), t);
    assert ParseFilter(raw, t) == AccumulateFrom(rs, []);
    AccumulateFailsLikeEach(rs, []);
    if Each(rs).Ok? {
      var pvs := Each(rs).value;
      AccumulateCollectsEach(rs, []);
      forall op ensures Lookup(AppendAll([], pvs), op) == Select(pvs, op) {
        AppendAllLookup([], pvs, op);
      }
      forall op ensures op in Ops(AppendAll([], pvs)) <==> Select(pvs, op) != [] {
        AppendAllOps([], pvs, op);
      }
      AppendAllCounts([], pvs);
    }
  }

  /** Each piece prefixed with an explicit `eq:`. */
  function WithExplicitEq(pieces: seq<string>): (r: seq<string>)
    ensures |r| == |pieces|
  {
    seq(|pieces|, i requires 0 <= i < |pieces| => "eq:" + pieces[i])
  }

  /** The lower-case `eq:` prefix in particular changes nothing. */
  lemma ExplicitEqPiece(piece: string, t: ValueType)
    requires ':' !in piece
    ensures ParsePiece("eq:" + piece, t) == ParsePiece(piece, t)
  {
    assert "eq:" + piece == "eq" + ":" + piece;
    assert ParseOp("eq") == Some(Eq) by {
      assert Lower("eq") == "eq";
    }
    ExplicitEqualityIsDefault("eq", piece, t);
  }

  /** Giving every piece an explicit `eq:` does not change what the pieces accumulate to. */
  lemma ExplicitEqualityAccumulatesTheSame(pieces: seq<string>, t: ValueType, acc: Conditions)
    requires forall i :: 0 <= i < |pieces| ==> ':' !in pieces[i]
    ensures Accumulate(WithExplicitEq(pieces), t, acc) == Accumulate(pieces, t, acc)
  {
    var eqs := WithExplicitEq(pieces);
    forall i | 0 <= i < |pieces|
      ensures Outcomes(eqs, t)[i] == Outcomes(pieces, t)[i]
    {
      OutcomeAt(eqs, t, i);
      OutcomeAt(pieces, t, i);
      ExplicitEqPiece(pieces[i], t);
    }
    assert Outcomes(eqs, t) == Outcomes(pieces, t);
  }

  /** A trimmed, unquoted value with one comma is accumulated from its two pieces. */
  lemma TwoPieceValue(p1: string, p2: string, t: ValueType)
    requires ',' !in p1 && ',' !in p2
    requires |p1| > 0 && |p2| > 0 && !IsSpace(p1[0]) && !IsSpace(p2[|p2| - 1])
    requires !IsQuoted(p1 + "," + p2)
    ensures ParseFilter(p1 + "," + p2, t) == Accumulate([p1, p2], t, [])
  {
    var v := p1 + "," + p2;
    assert v == p1 + [','] + p2;
    assert v[0] == p1[0] && v[|v| - 1] == p2[|p2| - 1];
    StripOfTrimmed(v);
    SplitTwo(p1, p2, ',');
  }

  /** Two pieces that both parse are appended in order. */
  lemma AccumulateTwo(p1: string, p2: string, t: ValueType)
    requires ParsePiece(p1, t).Ok? && ParsePiece(p2, t).Ok?
    ensures var pv1, pv2 := ParsePiece(p1, t).value, ParsePiece(p2, t).value;
      Accumulate([p1, p2], t, []) == Ok(SetDefaultAppend(SetDefaultAppend([], pv1.0, pv1.1), pv2.0, pv2.1))
  {
    var r1, r2 := ParsePiece(p1, t), ParsePiece(p2, t);
    assert Outcomes([p1, p2], t) == [r1, r2];
    AccumulateFromTwo(r1, r2);
  }

  lemma AccumulateFromTwo(r1: PieceOutcome, r2: PieceOutcome)
    requires r1.Ok? && r2.Ok?
    ensures AccumulateFrom([r1, r2], []) ==
      Ok(SetDefaultAppend(SetDefaultAppend([], r1.value.0, r1.value.1), r2.value.0, r2.value.1))
  {
    var c1 := SetDefaultAppend([], r1.value.0, r1.value.1);
    assert [r1, r2][1..] == [r2] && [r2][1..] == [];
    assert AccumulateFrom([r1, r2], []) == AccumulateFrom([r2], c1);
  }

  /** The two-piece accumulation of two plain strings: both land under `$eq`, in order. */
  lemma TwoEqualities(a: string, b: string)
    requires ':' !in a && ':' !in b
    ensures Accumulate([a, b], StrType, []) == Ok([(Eq, [Coerce(a, StrType).value, Coerce(b, StrType).value])])
  {
    var va, vb := Coerce(a, StrType).value, Coerce(b, StrType).value;
    PieceWithoutColon(a, StrType);
    PieceWithoutColon(b, StrType);
    AccumulateTwo(a, b, StrType);
    assert SetDefaultAppend([], Eq, va) == [(Eq, [va])];
    assert [(Eq, [va])][1..] == [] && [va] + [vb] == [va, vb];
    assert SetDefaultAppend([(Eq, [va])], Eq, vb) == [(Eq, [va, vb])];
  }

  /**
   * Repeated operators accumulate instead of overwriting: `"a,b"` gives
   * `{'$eq': [a, b]}`.
   */
  lemma RepeatedEqualitiesAccumulate(a: string, b: string)
    requires ',' !in a && ':' !in a && ',' !in b && ':' !in b
    requires |a| > 0 && |b| > 0 && !IsSpace(a[0]) && !IsSpace(b[|b| - 1])
    requires !IsQuoted(a + "," + b)
    ensures ParseFilter(a + "," + b, StrType) == Ok([(Eq, [Coerce(a, StrType).value, Coerce(b, StrType).value])])
  {
    TwoPieceValue(a, b, StrType);
    TwoEqualities(a, b);
  }

  /** A trimmed, unquoted, non-empty join of comma-free pieces is accumulated from exactly those pieces. */
  lemma JoinedPiecesParse(pieces: seq<string>, t: ValueType)
    requires forall i :: 0 <= i < |pieces| ==> ',' !in pieces[i]
    requires |pieces| > 0 && |pieces[0]| > 0
    requires Trimmed(Join(pieces, ',')) && !IsQuoted(Join(pieces, ','))
    ensures ParseFilter(Join(pieces, ','), t) == Accumulate(pieces, t, [])
  {
    var v := Join(pieces, ',');
    JoinFirst(pieces, ',');
    StripOfTrimmed(v);
    JoinSplit(pieces, ',');
  }

  /** Prefixing non-empty, comma- and colon-free pieces with `eq:` keeps their join trimmed and unquoted. */
  lemma ExplicitJoinShape(pieces: seq<string>)
    requires |pieces| > 0
    requires forall i :: 0 <= i < |pieces| ==> |pieces[i]| > 0 && ',' !in pieces[i]
    requires Trimmed(Join(pieces, ','))
    ensures var eqs := WithExplicitEq(pieces);
      && (forall i :: 0 <= i < |eqs| ==> ',' !in eqs[i])
      && |eqs[0]| > 0
      && Trimmed(Join(eqs, ',')) && !IsQuoted(Join(eqs, ','))
  {
    var eqs := WithExplicitEq(pieces);
    var n := |pieces| - 1;
    var last := pieces[n];
    assert eqs[n] == "eq:" + last;
    JoinFirst(eqs, ',');
    JoinLast(eqs, ',');
    JoinLast(pieces, ',');
    assert eqs[n][|eqs[n]| - 1] == last[|last| - 1];
  }

  /**
   * Spelling the default operator out changes nothing: `eq:p1,...,eq:pn`
   * parses exactly as `p1,...,pn`, success or error.
   */
  lemma ExplicitEqualitiesParse(pieces: seq<string>, t: ValueType)
    requires |pieces| > 0
    requires forall i :: 0 <= i < |pieces| ==> |pieces[i]| > 0 && ',' !in pieces[i] && ':' !in pieces[i]
    requires Trimmed(Join(pieces, ',')) && !IsQuoted(Join(pieces, ','))
    ensures ParseFilter(Join(WithExplicitEq(pieces), ','), t) == ParseFilter(Join(pieces, ','), t)
  {
    var eqs := WithExplicitEq(pieces);
    assert ParseFilter(Join(pieces, ','), t) == Accumulate(pieces, t, []) by {
      JoinedPiecesParse(pieces, t);
    }
    assert ParseFilter(Join(eqs, ','), t) == Accumulate(eqs, t, []) by {
      ExplicitJoinShape(pieces);
      JoinedPiecesParse(eqs, t);
    }
    ExplicitEqualityAccumulatesTheSame(pieces, t, []);
  }

  /** A quoted number is a string literal: an equality for a string field, a type error for an integer one. */
  lemma QuotedNumberIsString(n: nat)
    ensures ParseFilter("\"" + NatToString(n) + "\"", StrType) == Ok([(Eq, [StrVal(NatToString(n))])])
    ensures ParseFilter("\"" + NatToString(n) + "\"", IntType) == Err(InvalidValueType)
  {
    var v := "\"" + NatToString(n) + "\"";
    StripOfTrimmed(v);
    assert IsQuoted(v) && Unquote(v) == NatToString(n);
  }

  /** An `op:n` piece on an integer field, with `op` naming a supported operator. */
  lemma IntegerPiece(word: string, op: Op, n: nat)
    requires Lower(word) == OpKey(op)[1..] && ':' !in word
    ensures ParsePiece(word + ":" + NatToString(n), IntType) == Ok((op, IntVal(n)))
  {
    ParseOpOfKey(op, word);
    PieceWithOneColon(word, NatToString(n), IntType);
    ParseIntOfNatToString(n);
  }

  /** `"GT:n"` on an integer field is the comparison `$gt n`, as `"gt:n"` is. */
  lemma UpperCaseGreaterPiece(n: nat)
    ensures ParsePiece("GT" + ":" + NatToString(n), IntType) == Ok((Gt, IntVal(n)))
  {
    assert Lower("GT") == "gt";
    assert OpKey(Gt)[1..] == "gt";
    IntegerPiece("GT", Gt, n);
  }

  /** A `$gt` piece followed by a `$lt` piece gives two keys, in that order. */
  lemma GreaterThenLess(p1: string, p2: string, x: int, y: int)
    requires ParsePiece(p1, IntType) == Ok((Gt, IntVal(x)))
    requires ParsePiece(p2, IntType) == Ok((Lt, IntVal(y)))
    ensures Accumulate([p1, p2], IntType, []) == Ok([(Gt, [IntVal(x)]), (Lt, [IntVal(y)])])
  {
    AccumulateTwo(p1, p2, IntType);
    DistinctKeysInOrder(Gt, IntVal(x), Lt, IntVal(y));
  }

  /** Appending under two different operators keeps them as two keys, first one first. */
  lemma DistinctKeysInOrder(o1: Op, v1: Value, o2: Op, v2: Value)
    requires o1 != o2
    ensures SetDefaultAppend(SetDefaultAppend([], o1, v1), o2, v2) == [(o1, [v1]), (o2, [v2])]
  {
    var c1 := SetDefaultAppend([], o1, v1);
    assert c1 == [(o1, [v1])];
    assert c1[1..] == [];
    assert SetDefaultAppend(c1, o2, v2) == [c1[0]] + SetDefaultAppend([], o2, v2);
  }

  /** `"gt:n"` on an integer field is the comparison `$gt n`. */
  lemma GreaterPiece(n: nat)
    ensures ParsePiece("gt" + ":" + NatToString(n), IntType) == Ok((Gt, IntVal(n)))
  {
    LowerKeeps("gt");
    assert OpKey(Gt)[1..] == "gt";
    IntegerPiece("gt", Gt, n);
  }

  /** `"lt:n"` on an integer field is the comparison `$lt n`. */
  lemma LessPiece(n: nat)
    ensures ParsePiece("lt" + ":" + NatToString(n), IntType) == Ok((Lt, IntVal(n)))
  {
    LowerKeeps("lt");
    assert OpKey(Lt)[1..] == "lt";
    IntegerPiece("lt", Lt, n);
  }

  /** `"gt:x,lt:y"` on an integer field gives `{'$gt': [x], '$lt': [y]}`. */
  lemma TwoOperatorsOnIntegers(x: nat, y: nat)
    ensures ParseFilter("gt:" + NatToString(x) + ",lt:" + NatToString(y), IntType)
         == Ok([(Gt, [IntVal(x)]), (Lt, [IntVal(y)])])
  {
    var sx, sy := NatToString(x), NatToString(y);
    var gt, lt := "gt" + ":" + sx, "lt" + ":" + sy;
    assert ParseFilter("gt:" + sx + ",lt:" + sy, IntType) == Accumulate([gt, lt], IntType, []) by {
      assert "gt:" + sx + ",lt:" + sy == gt + "," + lt;
      assert gt[0] == 'g' && lt[|lt| - 1] == sy[|sy| - 1] && IsDigit(sy[|sy| - 1]);
      TwoPieceValue(gt, lt, IntType);
    }
    assert Accumulate([gt, lt], IntType, []) == Ok([(Gt, [IntVal(x)]), (Lt, [IntVal(y)])]) by {
      GreaterPiece(x);
      LessPiece(y);
      GreaterThenLess(gt, lt, x, y);
    }
  }

  /** One step of the accumulation loop. */
  lemma AccumulateStep(rs: seq<PieceOutcome>, i: nat, acc: Conditions)
    requires i < |rs|
    ensures rs[i].Err? ==> AccumulateFrom(rs[i..], acc) == Err(rs[i].error)
    ensures rs[i].Ok? ==>
      AccumulateFrom(rs[i..], acc) == AccumulateFrom(rs[i + 1..], SetDefaultAppend(acc, rs[i].value.0, rs[i].value.1))
  {
    assert rs[i..][0] == rs[i] && rs[i..][1..] == rs[i + 1..];
  }

  /** The imperative deserialiser: the trimming and quote checks, then the loop over the comma pieces. */
  method DeserializeQueryFilter(raw: string, valueType: ValueType) returns (r: Result<Conditions>)
    ensures r == ParseFilter(raw, valueType)
  {
    var value := Strip(raw);
    if |value| == 0 {
      return Err(EmptyValue);
    }
    if IsQuoted(value) {
      if valueType != StrType {
        return Err(InvalidValueType);
      }
      return Ok([(Eq, [StrVal(Unquote(value))])]);
    }
    r := FilterPiecesLoop(Split(value, ','), valueType);
  }

  /** The loop that fills `conditions` in place, one comma piece at a time. */
  method FilterPiecesLoop(pieces: seq<string>, valueType: ValueType) returns (r: Result<Conditions>)
    ensures r == Accumulate(pieces, valueType, [])
  {
    var conditions: Conditions := [];
    ghost var rs := Outcomes(pieces, valueType);
    var i := 0;
    assert rs[i..] == rs;
    while i < |pieces|
      invariant 0 <= i <= |pieces|
      invariant AccumulateFrom(rs[i..], conditions) == AccumulateFrom(rs, [])
    {
      var parsed := ParsePiece(pieces[i], valueType);
      assert parsed == rs[i] by {
        OutcomeAt(pieces, valueType, i);
      }
      AccumulateStep(rs, i, conditions);
      match parsed
      case Err(e) =>
        return Err(e);
      case Ok(pv) =>
        conditions := SetDefaultAppend(conditions, pv.0, pv.1);
        i := i + 1;
    }
    assert rs[i..] == [];
    return Ok(conditions);
  }
}
