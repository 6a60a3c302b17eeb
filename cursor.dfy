/**
 * The paging-cursor validator: the decoded `last` argument must be a
 * non-empty object with an `_id` of exactly 24 hexadecimal characters; every
 * other member passes through unchanged.
 */
module Cursor {
  import opened Errors

  /** A decoded JSON value; an object keeps its members in document order. */
  datatype Json =
    | JNull
    | JBool(b: bool)
    | JNumber(text: string)
    | JString(s: string)
    | JArray(items: seq<Json>)
    | JObject(members: seq<(string, Json)>)

  /** Python's `string.hexdigits`. */
  const HexDigits: string := "0123456789abcdefABCDEF"

  predicate IsHexDigit(c: char) {
    c in HexDigits
  }

  /** What the cursor's `_id` is meant to be: a 24-character hexadecimal string (a Mongo ObjectId). */
  predicate IsObjectId(v: Json) {
    v.JString? && |v.s| == 24 && forall i :: 0 <= i < |v.s| ==> IsHexDigit(v.s[i])
  }

  predicate HasName(members: seq<(string, Json)>, name: string) {
    exists i :: 0 <= i < |members| && members[i].0 == name
  }

  /** The member names of a decoded JSON object are distinct, as the keys of a Python dict are. */
  predicate DistinctNames(members: seq<(string, Json)>) {
    forall i, j :: 0 <= i < j < |members| ==> members[i].0 != members[j].0
  }

  /** The cursor the validator means to accept. */
  predicate CursorAccepted(v: Json) {
    && v.JObject?
    && |v.members| > 0
    && HasName(v.members, "_id")
    && forall i :: 0 <= i < |v.members| && v.members[i].0 == "_id" ==> IsObjectId(v.members[i].1)
  }

  /**
   * The imperative validator: the shape checks, then a loop over the members
   * that rejects an `_id` that is not an ObjectId string. An accepted cursor
   * is returned exactly as it came in.
   */
  method DeserializeQueryLast(fields: Json) returns (r: Result<seq<(string, Json)>>)
    requires fields.JObject? ==> DistinctNames(fields.members)
    ensures r.Ok? <==> CursorAccepted(fields)
    ensures r.Ok? ==> r.value == fields.members
    ensures r.Err? ==> r.error == InvalidCursor
  {
    if !fields.JObject? || |fields.members| == 0 {
      return Err(InvalidCursor);
    }
    var members := fields.members;
    if !HasName(members, "_id") {
      return Err(InvalidCursor);
    }
    var i := 0;
    while i < |members|
      invariant 0 <= i <= |members|
      invariant forall j :: 0 <= j < i && members[j].0 == "_id" ==> IsObjectId(members[j].1)
    {
      if members[i].0 == "_id" && !IsObjectId(members[i].1) {
        return Err(InvalidCursor);
      }
      i := i + 1;
    }
    return Ok(members);
  }

  /** In a decoded object there is one `_id` member, and the cursor is accepted iff it is an ObjectId. */
  lemma CursorAcceptedOneId(fields: Json, k: nat)
    requires fields.JObject? && DistinctNames(fields.members)
    requires k < |fields.members| && fields.members[k].0 == "_id"
    ensures CursorAccepted(fields) <==> IsObjectId(fields.members[k].1)
  {
  }

  // The `_id` check as written applies Python's `len`, iteration and `in` to
  // whatever JSON value `_id` holds, not only to a string.

  /** Outcome of the `_id` check as written: accepted, rejected, or a `TypeError` escaping the validator. */
  datatype IdOutcome = IdValid | IdInvalid | IdTypeError

  /** The `n` characters of `h` starting at `i`. */
  function Window(h: string, i: int, n: nat): string
    requires 0 <= i && i + n <= |h|
  {
    h[i..i + n]
  }

  /** Python's `e in h` for two strings: a substring test. */
  predicate IsSubstring(e: string, h: string) {
    exists i :: 0 <= i <= |h| - |e| && Window(h, i, |e|) == e
  }

  /** The `any(c not in string.hexdigits for c in ...)` scan over a list's elements. */
  function ElementsAsWritten(items: seq<Json>): IdOutcome {
    if |items| == 0 then IdValid
    else if !items[0].JString? then IdTypeError
    else if !IsSubstring(items[0].s, HexDigits) then IdInvalid
    else ElementsAsWritten(items[1..])
  }

  /** The same scan over an object, whose iteration yields its member names. */
  function NamesAsWritten(members: seq<(string, Json)>): IdOutcome {
    if |members| == 0 then IdValid
    else if !IsSubstring(members[0].0, HexDigits) then IdInvalid
    else NamesAsWritten(members[1..])
  }

  /** The `_id` check as written, for every kind of JSON value. */
  function IdCheckAsWritten(v: Json): IdOutcome {
    match v
    case JString(s) =>
      if |s| != 24 then IdInvalid
      else if exists i :: 0 <= i < |s| && s[i] !in HexDigits then IdInvalid
      else IdValid
    case JArray(items) => if |items| != 24 then IdInvalid else ElementsAsWritten(items)
    case JObject(members) => if |members| != 24 then IdInvalid else NamesAsWritten(members)
    case _ => IdTypeError
  }

  /** Outcome of the whole validator as written. */
  datatype LastOutcome = Accepted(members: seq<(string, Json)>) | Rejected | Crashed

  function ScanAsWritten(members: seq<(string, Json)>, all: seq<(string, Json)>): LastOutcome {
    if |members| == 0 then Accepted(all)
    else if members[0].0 != "_id" then ScanAsWritten(members[1..], all)
    else
      match IdCheckAsWritten(members[0].1)
      case IdValid => ScanAsWritten(members[1..], all)
      case IdInvalid => Rejected
      case IdTypeError => Crashed
  }

  function LastAsWritten(fields: Json): LastOutcome {
    if !fields.JObject? || |fields.members| == 0 then Rejected
    else if !HasName(fields.members, "_id") then Rejected
    else ScanAsWritten(fields.members, fields.members)
  }

  /** On a string, the check as written is exactly the ObjectId test, and never raises. */
  lemma IdCheckAgreesOnStrings(s: string)
    ensures IdCheckAsWritten(JString(s)) != IdTypeError
    ensures IdCheckAsWritten(JString(s)) == IdValid <==> IsObjectId(JString(s))
  {
  }

  /** A scan whose `_id` members all hold strings accepts exactly when every `_id` is an ObjectId. */
  lemma {:induction false} ScanAgreesOnStrings(members: seq<(string, Json)>, all: seq<(string, Json)>)
    requires forall i :: 0 <= i < |members| && members[i].0 == "_id" ==> members[i].1.JString?
    ensures ScanAsWritten(members, all) != Crashed
    ensures ScanAsWritten(members, all) == Accepted(all) <==>
      forall i :: 0 <= i < |members| && members[i].0 == "_id" ==> IsObjectId(members[i].1)
  {
    if |members| > 0 {
      ScanAgreesOnStrings(members[1..], all);
      assert forall i :: 1 <= i < |members| ==> members[i] == members[1..][i - 1];
      if members[0].0 == "_id" {
        IdCheckAgreesOnStrings(members[0].1.s);
      }
    }
  }

  /**
   * Where every `_id` member holds a string, the validator as written and the
   * intended one agree: neither raises a `TypeError`, and both accept the same cursors.
   */
  lemma AsWrittenAgreesOnStringIds(fields: Json)
    requires fields.JObject?
    requires forall i :: 0 <= i < |fields.members| && fields.members[i].0 == "_id" ==> fields.members[i].1.JString?
    ensures LastAsWritten(fields) != Crashed
    ensures LastAsWritten(fields) == Accepted(fields.members) <==> CursorAccepted(fields)
  {
    ScanAgreesOnStrings(fields.members, fields.members);
  }

  /** Twenty-four copies of the one-letter string `"a"`. */
  function TwentyFourAs(): (r: seq<Json>)
    ensures |r| == 24 && forall i :: 0 <= i < 24 ==> r[i] == JString("a")
  {
    seq(24, _ => JString("a"))
  }

  /** Every element of a list of one-letter hexadecimal strings passes the scan as written. */
  lemma {:induction false} AllAsPass(items: seq<Json>)
    requires forall i :: 0 <= i < |items| ==> items[i] == JString("a")
    ensures ElementsAsWritten(items) == IdValid
  {
    if |items| > 0 {
      assert Window(HexDigits, 10, 1) == "a";
      AllAsPass(items[1..]);
    }
  }

  /**
   * A cursor whose `_id` is a list of twenty-four `"a"` strings passes the
   * check as written, though it is no ObjectId.
   */
  lemma ListIdAcceptedAsWritten()
    ensures var fields := JObject([("_id", JArray(TwentyFourAs()))]);
      LastAsWritten(fields) == Accepted(fields.members) && !CursorAccepted(fields)
  {
    var id := JArray(TwentyFourAs());
    var members := [("_id", id)];
    assert IdCheckAsWritten(id) == IdValid by {
      AllAsPass(TwentyFourAs());
    }
    assert HasName(members, "_id") by {
      assert members[0].0 == "_id";
    }
    assert ScanAsWritten(members, members) == Accepted(members) by {
      assert members[1..] == [];
    }
    assert !IsObjectId(members[0].1);
  }
}
