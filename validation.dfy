/**
 * The request validators run after the arguments are parsed: unknown
 * parameter names, an empty `[start, stop)` range and a page limit above the
 * ceiling are rejected; the single-variant endpoint also needs either a
 * well-formed `chrom-pos-ref-alt` identifier or a chromosome with a position.
 */
module Validation {
  import opened Options
  import opened Text
  import opened Errors

  /** `BRAVO_API_PAGE_LIMIT` of the shipped configuration. */
  const BravoApiPageLimit: nat := 10000

  /** The parsed arguments the validators look at; `None` where the endpoint has no such argument or it was not given. */
  datatype ParsedArgs = ParsedArgs(
    start: Option<int>,
    stop: Option<int>,
    limit: Option<int>,
    variantId: Option<string>,
    chrom: Option<string>,
    pos: Option<int>)

  /** The first supplied parameter name the endpoint does not declare, if any. */
  function FirstUnknown(names: seq<string>, allArgs: set<string>): (r: Option<string>)
    ensures r.None? <==> forall i :: 0 <= i < |names| ==> names[i] in allArgs
    ensures r.Some? ==> exists k :: 0 <= k < |names| && names[k] == r.value && r.value !in allArgs
                                   && forall j :: 0 <= j < k ==> names[j] in allArgs
  {
    if |names| == 0 then None
    else if names[0] !in allArgs then Some(names[0])
    else
      var rest := FirstUnknown(names[1..], allArgs);
      assert rest.Some? ==> exists k :: 1 <= k < |names| && names[k] == rest.value && forall j :: 1 <= j < k ==> names[j] in allArgs;
      rest
  }

  /** The range check on `start` and `stop`, when both are given. */
  predicate EmptyRange(parsed: ParsedArgs) {
    parsed.start.Some? && parsed.stop.Some? && parsed.start.value >= parsed.stop.value
  }

  /** The page-limit check, when `limit` is given. */
  predicate OverLimit(parsed: ParsedArgs, pageLimit: nat) {
    parsed.limit.Some? && parsed.limit.value > pageLimit
  }

  /** The common validator: unknown names first, then the range, then the limit. */
  function RequestArgsCheck(parsed: ParsedArgs, names: seq<string>, allArgs: set<string>, pageLimit: nat): Check {
    match FirstUnknown(names, allArgs)
    case Some(name) => Fail(UnknownParameter(name))
    case None =>
      if EmptyRange(parsed) then Fail(StartNotBeforeStop)
      else if OverLimit(parsed, pageLimit) then Fail(LimitExceeded(pageLimit))
      else Pass
  }

  /** The common validator accepts exactly the requests with known names, a non-empty range and a limit within the ceiling. */
  lemma RequestArgsAccepted(parsed: ParsedArgs, names: seq<string>, allArgs: set<string>, pageLimit: nat)
    ensures RequestArgsCheck(parsed, names, allArgs, pageLimit) == Pass <==>
      && (forall i :: 0 <= i < |names| ==> names[i] in allArgs)
      && !EmptyRange(parsed)
      && !OverLimit(parsed, pageLimit)
  {
  }

  /** An undeclared name is reported, keyed on itself; the first such name in request order is the one named. */
  lemma UnknownParameterReported(parsed: ParsedArgs, names: seq<string>, allArgs: set<string>, pageLimit: nat, k: nat)
    requires k < |names| && names[k] !in allArgs
    requires forall j :: 0 <= j < k ==> names[j] in allArgs
    ensures RequestArgsCheck(parsed, names, allArgs, pageLimit) == Fail(UnknownParameter(names[k]))
    ensures KeyedField(UnknownParameter(names[k])) == Some(names[k])
  {
    FirstUnknownIsFirst(names, allArgs, k);
  }

  lemma {:induction false} FirstUnknownIsFirst(names: seq<string>, allArgs: set<string>, k: nat)
    requires k < |names| && names[k] !in allArgs
    requires forall j :: 0 <= j < k ==> names[j] in allArgs
    ensures FirstUnknown(names, allArgs) == Some(names[k])
  {
    if k > 0 {
      FirstUnknownIsFirst(names[1..], allArgs, k - 1);
    }
  }

  /** With all names known, `start >= stop` is reported on `start`, before any limit problem. */
  lemma EmptyRangeReported(parsed: ParsedArgs, names: seq<string>, allArgs: set<string>, pageLimit: nat)
    requires forall i :: 0 <= i < |names| ==> names[i] in allArgs
    requires EmptyRange(parsed)
    ensures RequestArgsCheck(parsed, names, allArgs, pageLimit) == Fail(StartNotBeforeStop)
    ensures KeyedField(StartNotBeforeStop) == Some("start")
  {
  }

  /** With all names known and a non-empty range, a limit above the ceiling is reported on `limit`. */
  lemma OverLimitReported(parsed: ParsedArgs, names: seq<string>, allArgs: set<string>, pageLimit: nat)
    requires forall i :: 0 <= i < |names| ==> names[i] in allArgs
    requires !EmptyRange(parsed) && OverLimit(parsed, pageLimit)
    ensures RequestArgsCheck(parsed, names, allArgs, pageLimit) == Fail(LimitExceeded(pageLimit))
    ensures KeyedField(LimitExceeded(pageLimit)) == Some("limit")
  {
  }

  /** The imperative validator: a loop over the supplied names with an early raise, then the two checks. */
  method ValidateHttpRequestArgs(parsed: ParsedArgs, names: seq<string>, allArgs: set<string>, pageLimit: nat)
    returns (r: Check)
    ensures r == RequestArgsCheck(parsed, names, allArgs, pageLimit)
  {
    var i := 0;
    while i < |names|
      invariant 0 <= i <= |names|
      invariant forall j :: 0 <= j < i ==> names[j] in allArgs
    {
      if names[i] !in allArgs {
        FirstUnknownIsFirst(names, allArgs, i);
        return Fail(UnknownParameter(names[i]));
      }
      i := i + 1;
    }
    if parsed.start.Some? && parsed.stop.Some? {
      if parsed.start.value >= parsed.stop.value {
        return Fail(StartNotBeforeStop);
      }
    }
    if parsed.limit.Some? {
      if parsed.limit.value > pageLimit {
        return Fail(LimitExceeded(pageLimit));
      }
    }
    return Pass;
  }

  /** `chrom, pos, ref, alt = variant_id.split('-')` unpacks and `int(pos)` succeeds. */
  predicate VariantIdWellFormed(id: string) {
    var parts := Split(id, '-');
    |parts| == 4 && ParseInt(parts[1]).Some?
  }

  /** The single-variant validator: the common checks, then the identifier rules. */
  function VariantArgsCheck(parsed: ParsedArgs, names: seq<string>, allArgs: set<string>, pageLimit: nat): Check {
    var base := RequestArgsCheck(parsed, names, allArgs, pageLimit);
    if base.Fail? then base
    else if parsed.variantId.Some? then
      if VariantIdWellFormed(parsed.variantId.value) then Pass else Fail(InvalidVariantId)
    else if parsed.chrom.Some? then
      if parsed.pos.None? then Fail(MissingPosition) else Pass
    else if parsed.pos.Some? then
      if parsed.chrom.None? then Fail(MissingChromosome) else Pass
    else Fail(MissingVariantId)
  }

  /**
   * The single-variant validator accepts exactly what the common one accepts
   * that also has a well-formed identifier, or, without one, both a chromosome
   * and a position.
   */
  lemma VariantArgsAccepted(parsed: ParsedArgs, names: seq<string>, allArgs: set<string>, pageLimit: nat)
    ensures VariantArgsCheck(parsed, names, allArgs, pageLimit) == Pass <==>
      && RequestArgsCheck(parsed, names, allArgs, pageLimit) == Pass
      && (parsed.variantId.Some? ==> VariantIdWellFormed(parsed.variantId.value))
      && (parsed.variantId.None? ==> parsed.chrom.Some? && parsed.pos.Some?)
  {
  }

  /**
   * Once the common checks pass, each identifier rule reports its own error
   * on its own field: a malformed identifier on `variant_id`, a chromosome
   * without a position on `pos`, a position without a chromosome on `chrom`,
   * and neither on `variant_id`.
   */
  lemma VariantErrorsReported(parsed: ParsedArgs, names: seq<string>, allArgs: set<string>, pageLimit: nat)
    requires RequestArgsCheck(parsed, names, allArgs, pageLimit) == Pass
    ensures var r := VariantArgsCheck(parsed, names, allArgs, pageLimit);
      && (parsed.variantId.Some? && !VariantIdWellFormed(parsed.variantId.value) ==>
            r == Fail(InvalidVariantId) && KeyedField(r.error) == Some("variant_id"))
      && (parsed.variantId.None? && parsed.chrom.Some? && parsed.pos.None? ==>
            r == Fail(MissingPosition) && KeyedField(r.error) == Some("pos"))
      && (parsed.variantId.None? && parsed.chrom.None? && parsed.pos.Some? ==>
            r == Fail(MissingChromosome) && KeyedField(r.error) == Some("chrom"))
      && (parsed.variantId.None? && parsed.chrom.None? && parsed.pos.None? ==>
            r == Fail(MissingVariantId) && KeyedField(r.error) == Some("variant_id"))
  {
  }

  /** An identifier whose parts do not number four is malformed, whatever they hold. */
  lemma WrongPartCountMalformed(id: string)
    requires Count(id, '-') != 3
    ensures !VariantIdWellFormed(id)
  {
  }

  /**
   * An identifier built from a chromosome, a position and two alleles free of
   * `-` is well formed, and unpacks back into those parts with that position.
   */
  lemma VariantIdRoundTrip(chrom: string, pos: nat, ref: string, alt: string)
    requires '-' !in chrom && '-' !in ref && '-' !in alt
    ensures var id := Join([chrom, NatToString(pos), ref, alt], '-');
      && Split(id, '-') == [chrom, NatToString(pos), ref, alt]
      && ParseInt(Split(id, '-')[1]) == Some(pos)
      && VariantIdWellFormed(id)
  {
    var parts := [chrom, NatToString(pos), ref, alt];
    assert '-' !in NatToString(pos) by {
      assert forall i :: 0 <= i < |NatToString(pos)| ==> IsDigit(NatToString(pos)[i]);
    }
    assert forall i :: 0 <= i < |parts| ==> '-' !in parts[i];
    JoinSplit(parts, '-');
    ParseIntOfNatToString(pos);
  }
}
