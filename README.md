# BRAVO API query-argument layer, in Dafny

BRAVO is a REST back end for browsing genomic variants, genes and coverage.
Every paged endpoint takes its arguments from the query string. It parses them
with a small set of deserialisers, checks them with request validators, and
answers with a uniform JSON envelope `{data, total, limit, next, error}`. That
envelope carries a `next` URL for the following page. This project models that
layer of `bravo_api/api.py` and proves what it promises:

- **Filter expressions** (`Filters`). A value such as `gt:5,lt:10` or `"a,b"`
  becomes a mapping from a comparison operator (`$eq`, `$ne`, `$gt`, `$lt`,
  `$gte`, `$lte`, `$like`) to the values given for it, coerced to the field's
  declared type (`str`, `int`, `float`). The mapping is an association list in
  insertion order, as a Python dict keeps it.
- **Sort specifications** (`Sorting`). `key[:direction],...` becomes an ordered
  list of `(key, asc|desc)`, checked against the SV and SNV whitelists. The
  canonical `key:direction` string that the next URL carries parses back to
  the same list.
- **Paging cursors** (`Cursor`). The decoded `last` argument must be a
  non-empty object whose `_id` is 24 hexadecimal characters. It is given as an
  already-decoded JSON value.
- **Request validators** (`Validation`). They reject unknown parameter names,
  `start >= stop`, and a limit above `BRAVO_API_PAGE_LIMIT`, which is 10000 in
  `config.py:6`. For the single-variant endpoint they also apply the identifier
  rules: a `chrom-pos-ref-alt` id with an integer position, or a chromosome
  together with a position.
- **Responses** (`Envelope`). This covers:
  - the 422 parse-error envelope and the 400 user-error envelope;
  - the 200 page envelope;
  - the next URL of the coverage endpoint and of the sorted region endpoints.

  The request's arguments are the `(name, value)` pairs that
  `request.args.items(True)` yields: all values of one name together, the
  names in the order of their first occurrence. The cursor token and the base
  URL are opaque strings. The next page reads a next URL as the service does:
  the client drops the fragment, the query is cut at `&` and `=`, and each
  name and value is unquoted (`+` to a space, `%XY` to its character).
- **Filter selection** (`Loading`). The argument loader files a field with a
  dotted name such as `annotation.region.lof` under its segments:
  `args['annotation']['region']['lof']`. The region endpoints then hand the
  store the parsed arguments found under a fixed list of top-level keys.

`Text` holds the parts of Python's `str` that these rely on:
- `strip()` over the `isspace()` characters;
- `lower()`;
- `split` and `join` on one character;
- the base-10 syntax that `int()` accepts, including PEP 515 underscores;
- the literal syntax that `float()` accepts;
- `str(n)` for a natural number.

`Errors` has one `ValidationError` constructor per message the source raises,
with the source's exact text. It also records which field a validator keys
each error on. Results and checks are `Result`/`Check` datatypes instead of raises.

The looping parts are methods:
- `DeserializeQueryFilter`, whose loop `FilterPiecesLoop` fills `conditions` piece by piece;
- `DeserializeQuerySort`, whose loop `SortPiecesLoop` appends to `querySort`;
- `DeserializeQueryLast` and `ValidateHttpRequestArgs`, which loop over items with early exits;
- `HandleHttpRequestParsingError`, which loops over the reported fields.

Each method is proved equal to a specification function, or states its
acceptance condition outright. The remaining parts are functions.

The validator's message for `start >= stop` reads "Start position must be
greater than stop position." It is kept verbatim, although the condition it
reports is the opposite.

## Model

| member | source | states |
|---|---|---|
| Filters.ParseFilter | bravo_api/api.py:106-139 | no contract of its own: the recursive definition of the filter deserialiser that the method and the lemmas below are stated against |
| Filters.ParsePiece | bravo_api/api.py:119-137 | no contract of its own: one comma piece split on `:` into an operator and a coerced value, characterised by the `PieceWith…` lemmas |
| Filters.DeserializeQueryFilter | bravo_api/api.py:106-139 | the imperative deserialiser (strip, empty check, quoted shortcut, then the piece loop) returns exactly what the recursive definition `ParseFilter` does, errors included |
| Filters.FilterPiecesLoop | bravo_api/api.py:116-139 | the loop that fills `conditions` with `setdefault(...).append`, stopping at the first failing piece, returns exactly the accumulation `Accumulate` of the comma pieces from the empty mapping |
| Filters.FilterRejectsEmpty | bravo_api/api.py:107-109 | a value that is all whitespace is rejected as "empty value" for every declared type |
| Filters.FilterQuotedLiteral | bravo_api/api.py:110-115 | a trimmed value longer than one character with matching `"` or `'` ends is one literal: `{$eq: [value[1:-1]]}` for `str`, "invalid value type" for any other type |
| Filters.FilterUnquotedPieces | bravo_api/api.py:116-139 | an unquoted value fails exactly when one of its comma pieces fails, with the first failing piece's error. Otherwise each operator's list holds the values of the pieces naming it, in input order; the keys are exactly the operators used, each once; the total number of values equals the number of pieces |
| Filters.AccumulateFailsLikeEach | bravo_api/api.py:118-139 | the accumulating loop, from any starting mapping, succeeds exactly when the piece-by-piece reference `Each` does, and fails with the same first error |
| Filters.AccumulateCollectsEach | bravo_api/api.py:118-139 | when every piece parses, the loop's mapping is the starting one with the reference's pairs appended in turn |
| Filters.AppendAllLookup | bravo_api/api.py:138 | after appending pairs in turn, each operator's list is its old list followed by that operator's values, in input order |
| Filters.AppendAllOps | bravo_api/api.py:138 | after appending pairs in turn, the keys are exactly the old keys and the operators used |
| Filters.AppendAllCounts | bravo_api/api.py:138 | appending pairs in turn adds one value per pair and never repeats a key |
| Filters.Each | bravo_api/api.py:118-139 | reference semantics over the pieces' outcomes: success iff every outcome is a success, one pair per outcome in order, otherwise the error of the first failure |
| Filters.ParseEach | bravo_api/api.py:118-139 | reference semantics: success iff every piece parses, one parsed pair per piece in order, and otherwise the error of the first failing piece |
| Filters.ParseOp | bravo_api/api.py:124-127 | the operator token is accepted iff `'$' + token.lower()` is the key of a supported operator, and then it is that operator |
| Filters.ParseOpOfKey | bravo_api/api.py:124-126 | every supported operator is recognised from its name in any letter case that lower-cases to it |
| Filters.UpperCaseOperator | bravo_api/api.py:124-126 | the operator token `GT` is read as `$gt` |
| Filters.PieceWithoutColon | bravo_api/api.py:119-122 | a piece without `:` is an equality on the whole piece, coerced to the declared type |
| Filters.PieceWithOneColon | bravo_api/api.py:119-127 | a piece `op:token` puts the coerced token under the operator `op` names, or fails with "unknown comparison operator" |
| Filters.PieceWithManyColons | bravo_api/api.py:128-129 | a piece with two or more `:` fails with "too many values for comparison operator" |
| Filters.ExplicitEqualityIsDefault | bravo_api/api.py:120-125 | `eq:v` (any case) parses exactly as `v` |
| Filters.Coerce | bravo_api/api.py:130-137 | a `str` value always succeeds as a string; an `int` value succeeds iff `int()` accepts it and is then the integer `int()` reads; a `float` value succeeds iff `float()` accepts it when written with ASCII digits, and then keeps the stripped literal; the only error is "invalid value type" |
| Filters.CoerceStripsOneQuotePair | bravo_api/api.py:131-133 | exactly one surrounding matching quote pair is removed from a string value |
| Filters.CoerceKeepsUnquoted | bravo_api/api.py:131-133 | a string value without a surrounding quote pair is kept as written |
| Filters.SetDefaultAppend | bravo_api/api.py:138 | `setdefault(op, []).append(v)`: only `op`'s list changes, growing by `v` at its end; a new key goes last; one value is added; distinct keys stay distinct |
| Filters.ExplicitEqualityAccumulatesTheSame | bravo_api/api.py:118-138 | prefixing every colon-free piece with `eq:` leaves the accumulated mapping unchanged |
| Filters.TwoPieceValue | bravo_api/api.py:107-118 | a trimmed, unquoted `p1,p2` with comma-free pieces is accumulated from exactly the two pieces `[p1, p2]` |
| Filters.AccumulateTwo | bravo_api/api.py:117-139 | two pieces that both parse are appended to the mapping in input order |
| Filters.TwoEqualities | bravo_api/api.py:120-138 | two plain string pieces both land under `$eq`, in order |
| Filters.RepeatedEqualitiesAccumulate | bravo_api/api.py:117-139 | `"a,b"` parses to `{$eq: [a, b]}`: a repeated operator accumulates instead of overwriting |
| Filters.JoinedPiecesParse | bravo_api/api.py:107-118 | a trimmed, unquoted join of non-empty, comma-free pieces is accumulated from exactly those pieces |
| Filters.ExplicitEqPiece | bravo_api/api.py:119-127 | a colon-free piece written as `eq:piece` parses exactly as the bare piece |
| Filters.ExplicitEqualitiesParse | bravo_api/api.py:106-139 | `eq:p1,...,eq:pn` parses exactly as `p1,...,pn`, success or error, for comma- and colon-free pieces |
| Filters.QuotedNumberIsString | bravo_api/api.py:110-115 | a quoted number is an equality on its digits for a `str` field and "invalid value type" for an `int` field |
| Filters.IntegerPiece | bravo_api/api.py:123-135 | `op:n` on an integer field, with `op` naming a supported operator in any case, is the comparison `(op, n)` |
| Filters.GreaterPiece | bravo_api/api.py:123-135 | `gt:n` on an integer field is `($gt, n)` |
| Filters.LessPiece | bravo_api/api.py:123-135 | `lt:n` on an integer field is `($lt, n)` |
| Filters.DistinctKeysInOrder | bravo_api/api.py:138 | appending under two different operators gives two keys, first one first |
| Filters.UpperCaseGreaterPiece | bravo_api/api.py:123-135 | `GT:n` on an integer field is the comparison `($gt, n)` |
| Filters.GreaterThenLess | bravo_api/api.py:117-139 | a `$gt` piece then a `$lt` piece give `{$gt: [x], $lt: [y]}` in that key order |
| Filters.TwoOperatorsOnIntegers | bravo_api/api.py:106-139 | `"gt:x,lt:y"` on an integer field parses to `{$gt: [x], $lt: [y]}` |
| Filters.AccumulateStep | bravo_api/api.py:118-138 | one loop iteration: a failing piece ends the accumulation with its error; a parsing piece continues from the mapping with its pair appended |
| Sorting.SvKeys | bravo_api/api.py:26 | the SV whitelist has exactly the eight keys of the source |
| Sorting.SnvKeys | bravo_api/api.py:27-41 | the SNV whitelist has exactly the thirteen keys of the source |
| Sorting.SvWhitelistWellFormed | bravo_api/api.py:26 | every SV whitelist key is non-empty lower-case letters, `_` and `.` |
| Sorting.SnvWhitelistWellFormed | bravo_api/api.py:27-41 | every SNV whitelist key is non-empty lower-case letters, `_` and `.` |
| Sorting.NormaliseDirection | bravo_api/api.py:154-159 | no contract of its own: the direction table, characterised by `DirectionNormalisation` |
| Sorting.ParseSortPiece | bravo_api/api.py:147-160 | no contract of its own: one comma piece of a sort argument, characterised by the `SortPiece…` lemmas |
| Sorting.ParseSort | bravo_api/api.py:142-161 | no contract of its own: the definition of the sort deserialiser that `DeserializeQuerySort` and the lemmas below are stated against |
| Sorting.CanonicalSort | bravo_api/api.py:233 | no contract of its own: the `key:direction` pairs joined by `,`, characterised by `CanonicalPieces` and the re-parse lemmas |
| Sorting.DirectionNormalisation | bravo_api/api.py:154-159 | `''`, `asc` and `1` become ascending; `desc` and `-1` become descending; any other direction fails with "unknown sort direction" naming it |
| Sorting.DirectionNameNormalises | bravo_api/api.py:154-157 | the emitted names `asc` and `desc` normalise back to their direction |
| Sorting.SortPieceTooManyColons | bravo_api/api.py:147-149 | a trimmed piece with two or more `:` fails with "invalid syntax" |
| Sorting.SortPieceKey | bravo_api/api.py:150-152 | an accepted key is in the whitelist |
| Sorting.SortPieceKeyNormalised | bravo_api/api.py:147-150 | an accepted key is the piece's first `:` token, trimmed and lower-cased |
| Sorting.SortPieceUnsupportedKey | bravo_api/api.py:150-152 | a key reported as unsupported is not in the whitelist |
| Sorting.SortPieceRejectsUnlisted | bravo_api/api.py:148-152 | a piece of one or two `:` tokens whose trimmed, lower-cased key is not whitelisted fails with "sort in not supported" naming that key |
| Sorting.SortPieceDefaultsToAscending | bravo_api/api.py:153-155 | a piece without a direction sorts ascending |
| Sorting.SortPieceDirection | bravo_api/api.py:147-160 | a piece of two `:` tokens with a whitelisted key and a known direction parses to the trimmed, lower-cased key and that direction |
| Sorting.SortPieceUnknownDirection | bravo_api/api.py:147-159 | a piece of two `:` tokens with a whitelisted key and an unknown direction fails with "unknown sort direction" naming the trimmed, lower-cased direction |
| Sorting.PaddedSortPieceTokens | bravo_api/api.py:147 | a piece `key : dir` padded with any whitespace splits into the key and the direction with their inner padding |
| Sorting.PaddedSortPieceStrips | bravo_api/api.py:147 | stripping such a padded piece removes exactly the outer whitespace |
| Sorting.SortPieceBodySplits | bravo_api/api.py:147 | the stripped piece splits at its single `:` |
| Sorting.PaddedSortPiece | bravo_api/api.py:147-160 | whitespace around the tokens and letter case do not matter: `key : dir` parses to the lower-cased key and the direction the lower-cased `dir` names |
| Sorting.PaddedSortPieceUnknownDirection | bravo_api/api.py:147-159 | the same padded piece with an unknown direction fails naming the lower-cased direction |
| Sorting.MixedCaseSortPiece | bravo_api/api.py:147-160 | `" pos : DESC "` sorts by `pos`, descending |
| Sorting.UnknownSortDirectionLowered | bravo_api/api.py:147-159 | `"POS:Down"` fails with "unknown sort direction 'down'" |
| Sorting.CollectOk | bravo_api/api.py:147-161 | the reference list exists iff every piece parses |
| Sorting.CollectPointwise | bravo_api/api.py:147-161 | the reference list has one pair per piece, the i-th being the i-th piece's |
| Sorting.CollectFirstError | bravo_api/api.py:147-159 | a failing reference parse carries the error of the first failing piece |
| Sorting.SortFromMatchesCollect | bravo_api/api.py:143-161 | the appending loop yields exactly its starting list followed by the reference list, or the reference error |
| Sorting.SortRejectsBlank | bravo_api/api.py:144-146 | an all-whitespace sort argument fails with "empty argument" |
| Sorting.SortPieces | bravo_api/api.py:144-161 | a non-blank argument parses as the reference list of its comma pieces |
| Sorting.SortPiecesPointwise | bravo_api/api.py:147-161 | a parsed sort list has one pair per comma piece, in input order, each the parse of its piece |
| Sorting.SortFirstError | bravo_api/api.py:147-159 | a failing sort argument reports its first failing comma piece's error |
| Sorting.ParsedSortWhitelisted | bravo_api/api.py:147-161 | a parsed sort list is non-empty and all of its keys are whitelisted |
| Sorting.CanonicalPieces | bravo_api/api.py:233 | the canonical pieces are `key:direction` for each entry, in order |
| Sorting.CanonicalPieceReparses | bravo_api/api.py:147-160 | a canonical piece of a whitelisted key parses back to its pair |
| Sorting.CanonicalPiecesReparse | bravo_api/api.py:147-160 | all canonical pieces of a whitelisted sort list parse back, one per entry |
| Sorting.CanonicalSortReparses | bravo_api/api.py:233 | the canonical string of a non-empty whitelisted sort list parses to exactly that list |
| Sorting.SortIdempotent | bravo_api/api.py:142-161 | whatever a sort argument parses to, its canonical string parses to the same list |
| Sorting.WhitelistedSortIdempotent | bravo_api/api.py:26-41 | the same for the SV and the SNV whitelist |
| Sorting.EmptySortDoesNotReparse | bravo_api/api.py:233 | the empty sort list is written as the empty string, which the parser rejects |
| Sorting.SortFromStep | bravo_api/api.py:147-160 | one loop iteration: a failing piece ends with its error; a parsed piece is appended |
| Sorting.DeserializeQuerySort | bravo_api/api.py:142-161 | the imperative deserialiser (strip, blank check, then the piece loop) returns exactly `ParseSort`, errors included |
| Sorting.SortPiecesLoop | bravo_api/api.py:147-161 | the loop that appends to `query_sort`, stopping at the first failing piece, returns exactly the reference `SortFrom` of the pieces' results from the empty list |
| Sorting.ParseSortOfPieces | bravo_api/api.py:142-161 | a trimmed, non-empty argument whose comma pieces all parse reads back as the list of their pairs |
| Sorting.CanonicalSortIsTrimmed | bravo_api/api.py:233 | the canonical string of a non-empty list of well-formed keys is non-empty and begins and ends with a non-space |
| Cursor.DeserializeQueryLast | bravo_api/api.py:164-178 | for any decoded value (an object's member names being distinct), a cursor is accepted iff it is a non-empty object that has an `_id` member, every `_id` member being a 24-character `string.hexdigits` string; an accepted cursor is returned unchanged; a rejection is "Invalid value." |
| Cursor.CursorAcceptedOneId | bravo_api/api.py:170-173 | in a decoded object, whose member names are distinct, a cursor is accepted iff its one `_id` member is an ObjectId |
| Cursor.LastAsWritten | bravo_api/api.py:164-178 | no contract of its own: the cursor check as written, characterised by the lemmas below |
| Cursor.IdCheckAsWritten | bravo_api/api.py:172 | no contract of its own: the `_id` test as written on any JSON value |
| Cursor.IdCheckAgreesOnStrings | bravo_api/api.py:172-173 | on a string `_id`, the check as written never raises and accepts exactly the ObjectId strings |
| Cursor.ScanAgreesOnStrings | bravo_api/api.py:170-173 | a member scan whose `_id` members are strings never raises and accepts iff every `_id` is an ObjectId |
| Cursor.AsWrittenAgreesOnStringIds | bravo_api/api.py:166-178 | when every `_id` is a string, the validator as written and the intended one accept the same cursors |
| Cursor.AllAsPass | bravo_api/api.py:172 | a list of one-letter `"a"` strings passes the hex-digit scan as written |
| Cursor.ListIdAcceptedAsWritten | bravo_api/api.py:170-173 | a cursor whose `_id` is a list of 24 `"a"` strings is accepted as written but is not a valid cursor |
| Validation.RequestArgsCheck | bravo_api/api.py:58-68 | no contract of its own: the common validator, characterised by `RequestArgsAccepted` and the `…Reported` lemmas |
| Validation.VariantArgsCheck | bravo_api/api.py:87-103 | no contract of its own: the single-variant validator, characterised by `VariantArgsAccepted` and `VariantErrorsReported` |
| Validation.FirstUnknown | bravo_api/api.py:59-61 | none is found iff every supplied name is declared; otherwise the result is the first undeclared name in request order |
| Validation.FirstUnknownIsFirst | bravo_api/api.py:59-61 | the first undeclared name is the one reported |
| Validation.RequestArgsAccepted | bravo_api/api.py:58-68 | the common validator passes iff all names are declared, the range is non-empty when both ends are given, and the limit is within the ceiling when given |
| Validation.UnknownParameterReported | bravo_api/api.py:59-61 | an undeclared name, first in request order, is reported as "Unknown parameter." keyed on itself |
| Validation.EmptyRangeReported | bravo_api/api.py:62-64 | with known names, `start >= stop` is reported on `start`, before any limit problem |
| Validation.OverLimitReported | bravo_api/api.py:65-67 | with known names and a non-empty range, a limit above the ceiling is reported on `limit` |
| Validation.ValidateHttpRequestArgs | bravo_api/api.py:58-68 | the imperative validator (a loop with early exit, then the two checks) returns exactly `RequestArgsCheck` |
| Validation.VariantArgsAccepted | bravo_api/api.py:87-103 | the single-variant validator passes iff the common one does and either the given id is well formed or, without an id, both `chrom` and `pos` are given |
| Validation.VariantErrorsReported | bravo_api/api.py:89-102 | each identifier rule reports its own error on its own field: `variant_id`, `pos`, `chrom`, `variant_id` |
| Validation.WrongPartCountMalformed | bravo_api/api.py:91 | an id without exactly three `-` is malformed |
| Validation.VariantIdRoundTrip | bravo_api/api.py:91-92 | an id joined from `-`-free parts and a natural position splits back into those parts, its position reads back, and it is well formed |
| Envelope.ParsingErrorResponse | bravo_api/api.py:44-49 | no contract of its own: the 422 response the handler builds, characterised by `OneFieldReported` and `LastFieldReported` |
| Envelope.CoverageNextUrl | bravo_api/api.py:192-195 | no contract of its own: the coverage next URL, characterised by `CoverageNextUrlRoundTrip` |
| Envelope.SortedNextUrl | bravo_api/api.py:230-234 | no contract of its own: the next URL of the SV region endpoint (and, with the quoted token of lines 261 and 287, of the SNV region and gene endpoints), characterised by `SortedNextUrlRoundTrip`, `SortedNextUrlDecodesToken`, `QuotedCursorNextUrlRoundTrip` and `NextPageKeepsSort` |
| Envelope.HandleHttpRequestParsingError | bravo_api/api.py:44-49 | the handler's loop reports the first message of the last field with status 422 and a null payload, and raises (None) when there is no field or a field has no message |
| Envelope.ValidationErrorResponse | bravo_api/api.py:46-48 | a rejected request gets 422, null `data`/`total`/`limit`/`next`, and the message naming the validator's field (or the argument being parsed) and quoting the error's text |
| Envelope.OneFieldReported | bravo_api/api.py:46-47 | one field with one message is reported as 422 with that field's message and a null payload |
| Envelope.LastFieldReported | bravo_api/api.py:46-47 | whatever the earlier fields said, the last field's first message is the one reported |
| Envelope.UserErrorResponse | bravo_api/api.py:52-55 | a user error gets status 400, a null payload and its own message |
| Envelope.PageResponse | bravo_api/api.py:196 | a page gets status 200, its data, its total, its limit, its next URL and no error |
| Envelope.WithoutMembers | bravo_api/api.py:194 | the kept arguments are exactly those whose name is not dropped |
| Envelope.WithoutAppend | bravo_api/api.py:232 | dropping names distributes over concatenation, so the kept arguments keep the order in which `items(True)` yields them |
| Envelope.PairTexts | bravo_api/api.py:194 | each argument is written as `name=value`, in order |
| Envelope.ParsePairTexts | bravo_api/api.py:194 | reading back written pairs whose names hold no `=` and whose parts hold no `&` gives the pairs |
| Envelope.QueryWithTail | bravo_api/api.py:194-195 | written pairs followed by `&` and further pieces read back as the pairs followed by what the pieces read as, also when no pair is kept |
| Envelope.QueryWithPair | bravo_api/api.py:194-195 | the written kept arguments followed by `&name=value` read back as those arguments and then that pair |
| Envelope.QueryWithTwoPairs | bravo_api/api.py:232-234 | the written kept arguments followed by `&n1=v1&n2=v2` read back as those arguments and then the two pairs |
| Envelope.CanonicalSortAvoids | bravo_api/api.py:233 | the canonical sort string of well-formed keys holds none of `&`, `#`, `+`, `%` |
| Envelope.CanonicalSortPlain | bravo_api/api.py:233 | the canonical sort string of well-formed keys is neither cut nor decoded by the query reader |
| Envelope.UnquotePlus | bravo_api/api.py:194 | no contract beyond length: the unquoting `request.args` applies to each name and value (`+` to a space, `%XY` to its character), characterised by the lemmas below |
| Envelope.ReadPairs | bravo_api/api.py:194 | each name and value unquoted, in order |
| Envelope.ReadQuery | bravo_api/api.py:194 | no contract of its own: the arguments the service reads from a query string |
| Envelope.SentQuery | bravo_api/api.py:194 | no contract of its own: the query a client sends for a URL, after the first `?` and before the first `#` |
| Envelope.UnquotePlain | bravo_api/api.py:194 | text holding neither `+` nor `%` unquotes to itself |
| Envelope.UnquotePlusSign | bravo_api/api.py:194 | a `+` between plain texts is read as a space |
| Envelope.ReadTransparent | bravo_api/api.py:194 | pairs whose names hold no `=` and whose names and values hold none of `&`, `#`, `+`, `%` are read as themselves |
| Envelope.EncodeAvoids | bravo_api/api.py:194 | a character in no name and no value, other than `&` and `=`, is not in the written query |
| Envelope.EncodedPairsParse | bravo_api/api.py:194 | written pairs whose names hold no `=` and whose parts hold no `&` split back into the pairs, also when there are none |
| Envelope.CoverageQuerySplits | bravo_api/api.py:194-195 | before unquoting, the coverage query splits into the arguments without `last`, in order, then `last` with the token |
| Envelope.SortedQuerySplits | bravo_api/api.py:232-234 | before unquoting, the sorted query splits into the arguments without `last` and `sort`, then `sort`, then `last` |
| Envelope.CoverageNextUrlReads | bravo_api/api.py:192-195 | as written, for any arguments that hold no `&` or `#` and no `=` in a name: the next page reads every kept value unquoted a second time, then the new `last` unquoted once, for any token without `&` or `#` |
| Envelope.SortedNextUrlReads | bravo_api/api.py:230-234 | as written, for the same arguments and any token without `&` or `#` (every quoted token of lines 261 and 287): the next page reads every kept value unquoted a second time, then the canonical `sort`, then the new `last` unquoted once |
| Envelope.CoverageQueryParses | bravo_api/api.py:194-195 | for arguments without `&`, `#`, `+` or `%` (and no `=` in a name), the service reads the coverage query, unquoting included, as the arguments without `last`, in order, then `last` with the token |
| Envelope.SortedQueryParses | bravo_api/api.py:232-234 | for the same arguments, the service reads the sorted query, unquoting included, as the arguments without `last` and `sort`, in order, then `sort` with the canonical sort string, then `last` with the token |
| Envelope.CoverageNextUrlRoundTrip | bravo_api/api.py:192-195 | the coverage next URL exists iff there is a new cursor; for arguments and a token without `&`, `#`, `+` or `%` (and no `=` in a name), the next page reads, after cutting at `#` and unquoting, the arguments without `last`, then the new `last` |
| Envelope.SortedNextUrlRoundTrip | bravo_api/api.py:230-234 | the region next URL exists iff there is a new cursor; for the same arguments and token, the next page reads, after cutting at `#` and unquoting, the arguments without `last` and `sort`, then `sort`, then `last` |
| Envelope.NextPageKeepsSort | bravo_api/api.py:233 | for any arguments without `&` or `#` (and no `=` in a name) and any token without `&` or `#`, the quoted JSON cursors included, the `sort` argument the next page reads parses, under the same whitelist, to exactly the sort the store reported |
| Envelope.SortedNextUrlDecodesToken | bravo_api/api.py:257-261 | for transparent arguments and any token without `&` or `#`, the next page reads the arguments without `last` and `sort`, then `sort`, then `last` with the token unquoted once |
| Envelope.Quote | bravo_api/api.py:261 | `urllib.parse.quote` on ASCII text: letters, digits, `_.-~/` kept, every other character as `%XY` in upper-case hexadecimal; the result holds no `&`, `#`, `+` or `=` |
| Envelope.UnquoteQuote | bravo_api/api.py:261 | unquoting gives back any quoted ASCII text |
| Envelope.QuotedCursorNextUrlRoundTrip | bravo_api/api.py:283-287 | with the cursor written as `quote(json.dumps(last))`, the next page reads the arguments without `last` and `sort`, then `sort`, then `last` holding exactly the JSON text |
| Envelope.PlusValueChangesOnNextPage | bravo_api/api.py:194 | a `chrom` value `a+b` (sent as `a%2Bb`) is read on the next page as `a b` |
| Envelope.FragmentValueCutsNextUrl | bravo_api/api.py:232-234 | a sorted next URL written from one argument whose value holds `#` is read only up to the `#`: that argument's value before it, and neither `sort` nor `last` |
| Envelope.FragmentDropsSortAndCursor | bravo_api/api.py:232-234 | a `filter` value `a#b` (sent as `a%23b`) leaves the next page with the filter `a` and no `sort` and no `last` |
| Envelope.Escape | bravo_api/api.py:194 | the escaped text holds none of `&`, `#`, `+`, `=` |
| Envelope.EscapePairs | bravo_api/api.py:194 | each name and value escaped, in order |
| Envelope.EscapedCoverageNextUrl | bravo_api/api.py:192-195 | no contract of its own: the coverage next URL with names and values percent-encoded |
| Envelope.EscapedSortedNextUrl | bravo_api/api.py:230-234 | no contract of its own: the sorted next URL with names and values percent-encoded |
| Envelope.UnquoteEscape | bravo_api/api.py:194 | unquoting undoes escaping, for every text |
| Envelope.EscapedQueryReads | bravo_api/api.py:194 | any arguments, escaped and written, are read back as themselves |
| Envelope.EscapedCoverageNextUrlRoundTrip | bravo_api/api.py:192-195 | with escaping, for every argument list and cursor token, the next page reads the arguments without `last`, in order, then the new `last` |
| Envelope.EscapedSortedNextUrlRoundTrip | bravo_api/api.py:230-234 | with escaping, for every argument list, sort and token, the next page reads the arguments without `last` and `sort`, then `sort`, then `last` |
| Loading.SetPathAt | bravo_api/api.py:254 | a value the loader sets at a dotted name is found at that name's path |
| Loading.SetPathElsewhere | bravo_api/api.py:254 | setting a value leaves every path that parts ways with it unchanged |
| Loading.SetPathValues | bravo_api/api.py:254 | after setting a value, any value elsewhere was already there |
| Loading.SetPathSucceeds | bravo_api/api.py:254 | setting succeeds when no value sits on a proper prefix of the path |
| Loading.LoadFromAll | bravo_api/api.py:254 | loading fields whose paths part ways pairwise succeeds, holds every field at its path, and holds nothing else |
| Loading.LoadAll | bravo_api/api.py:254 | the same from the empty arguments |
| Loading.SelectFilters | bravo_api/api.py:255 | no contract of its own: the comprehension that picks the filter from the loaded arguments, characterised by `SelectAt` |
| Loading.SelectAt | bravo_api/api.py:255 | below the top level, the selected filter is the loaded arguments wherever the first segment is a selected key, and empty elsewhere |
| Loading.FiltersReachStore | bravo_api/api.py:254-256 | when the declared names part ways and the keys are the first segments of exactly the filter fields, the store gets every given filter field at its path with its value, no other given field, and no other value |
| Loading.ShapedUnambiguous | bravo_api/api.py:242-253 | single-segment names and three-segment names under `annotation` part ways pairwise |
| Loading.RegionSvFiltersReachStore | bravo_api/api.py:217-229 | the SV region endpoint hands the store exactly the given `type` and `filter` arguments |
| Loading.RegionSnvFiltersReachStore | bravo_api/api.py:242-256 | the SNV region endpoint hands the store exactly the given `filter`, `allele_freq` and both `annotation.region.*` arguments, the latter nested under `annotation` |
| Loading.GeneSnvFiltersReachStore | bravo_api/api.py:269-282 | the gene endpoint hands the store exactly the given `filter`, `allele_freq` and both `annotation.gene.*` arguments, the latter nested under `annotation` |
| Errors.Message | bravo_api/api.py:61-173 | no contract of its own: the exact text of each raised message |
| Errors.KeyedField | bravo_api/api.py:61-102 | no contract of its own: the parameter each validator error is keyed on |
| Text.Strip | bravo_api/api.py:107 | `str.strip()`: the result has no surrounding whitespace and is no longer than the input |
| Text.Lower | bravo_api/api.py:124 | `str.lower()`: same length; each `A`–`Z` becomes its lower-case letter, the Kelvin sign becomes `k`, every other character is kept; no upper-case ASCII letter is left |
| Text.Split | bravo_api/api.py:118 | `str.split(sep)`: one piece more than there are separators, no piece holding the separator |
| Text.Join | bravo_api/api.py:233 | no contract of its own: `sep.join(parts)`, characterised by `SplitJoin` and `JoinSplit` |
| Text.ParseInt | bravo_api/api.py:135 | no contract of its own: the base-10 text `int()` accepts, characterised by `ParseIntOfNatToString` |
| Text.ParsesAsFloat | bravo_api/api.py:135 | no contract of its own: the literal syntax `float()` accepts, with ASCII digits |
| Text.SplitJoin | bravo_api/api.py:118 | joining the pieces of a split gives back the string |
| Text.JoinSplit | bravo_api/api.py:233 | splitting a join of separator-free pieces gives back the pieces |
| Text.StripSurrounded | bravo_api/api.py:147 | `strip()` of a non-empty trimmed string with whitespace on either side gives that string |
| Text.StripTrailingSpace | bravo_api/api.py:150 | `strip()` removes trailing whitespace after a non-empty trimmed string |
| Text.StripLeadingSpace | bravo_api/api.py:153 | `strip()` removes leading whitespace before a non-empty trimmed string |
| Text.StripEmptyIff | bravo_api/api.py:107-108 | a string strips to empty iff it is all whitespace |
| Text.ParseIntOfNatToString | bravo_api/api.py:92 | `int(str(n)) == n` for every natural `n` |

## Left out

- The Flask, webargs and marshmallow machinery is not modelled: routing, `parser.parse`, `abort`, `make_response`, `jsonify`, CORS and compression. The model starts from the parsed arguments and the request's `(name, value)` pairs.
- How webargs files a deserialiser's message is not modelled: a `List` field's messages are nested by index, and a per-field `validate=` lambda has its own messages. `ErrorMessages` uses the plain `{field: [message]}` shape.
- The store calls are not modelled: `variants.get_region`, `get_region_snv`, `get_gene_snv`, `coverage.get_coverage` and the other endpoints into `bravo_api/models`. Their results (`last` and `sort`) are inputs to the URL builders. The store code is not part of this model.
- `json.loads` and `json.dumps` are not modelled. The cursor is an already-decoded JSON value, and the next URL's token is a string: `Quote` models `urllib.parse.quote` on the JSON text, which is ASCII because `json.dumps` escapes every other character by default. Duplicate keys in the cursor's JSON text are left to the decoder: the members are given as decoded, with distinct names (`DistinctNames`), as the keys of a Python dict are.
- The next URL writes the request's already-decoded values back without re-encoding them (api.py:194, 232). The service's reader is modelled as `SentQuery` (the client drops the fragment), `ParseQuery` and `UnquotePlus`. The round trips as written hold only for arguments whose names hold no `=` and whose names and values hold none of `&`, `#`, `+`, `%`; the Findings record what happens otherwise.
- Envelope.CoverageQueryParses: requires values without `+`, `%`, `#` and `&`, because as written such a value comes back changed or cut short on the next page (`CoverageNextUrlReads`, `PlusValueChangesOnNextPage`).
- Envelope.SortedQueryParses: requires values without `+`, `%`, `#` and `&`, for the same reason (`SortedNextUrlReads`, `FragmentDropsSortAndCursor`).
- Envelope.CoverageNextUrlRoundTrip: holds as written only for such values; `EscapedCoverageNextUrlRoundTrip` is the round trip for every value once names and values are escaped.
- Envelope.SortedNextUrlRoundTrip: holds as written only for such values; `EscapedSortedNextUrlRoundTrip` is the round trip for every value once names and values are escaped.
- `UnquotePlus` turns an escape `%XY` into the character with code `XY`. Python joins escapes above `7F` as UTF-8 bytes; that decoding is not modelled. The escapes `Escape` writes are all ASCII.
- The SV region endpoint writes its cursor as the Python dict's `repr` (api.py:234), not as JSON. The token is opaque here, so this difference is not modelled.
- The cross-checks between cursor and sort that are commented out (api.py:78-83, 174-177) are not enforced by the source, so they are not modelled as if they were.
- `validate_coverage_http_request_args` and `validate_region_http_request_args` add nothing to `validate_http_request_args`, so there is no separate member for them.
- Float coercion checks only the ASCII literal syntax `float()` accepts. A `FloatVal` keeps the stripped text and no numeric value.
- `Text.Lower` covers ASCII `A`–`Z` and the Kelvin sign, the only character outside ASCII that Python lower-cases to a letter of an operator, key or direction name. Other Unicode case mappings are not modelled.
- `Text.ParseInt` accepts ASCII digits only. Python's `int()` also accepts other Unicode decimal digits.
- Text.ParsesAsFloat: accepts ASCII digits only. Python's `float()` also accepts other Unicode decimal digits (`float('١.٥')` is `1.5`), so a value such as `allele_freq=lt:١.٥` is a `$lt` filter in the service but "invalid value type" here.
- Envelope.Quote: requires ASCII text; `quote` writes a character outside ASCII as the `%XY` escapes of its UTF-8 bytes, which `json.dumps` never leaves in its output.
- Text.ParseInt: accepts digit strings of any length. CPython 3.11 and later, and the security releases 3.7.14, 3.8.14, 3.9.14 and 3.10.7, make `int()` raise `ValueError` on more than 4300 digits by default. The limit can be changed at run time, and the Python version is not pinned. A longer variant-id position or integer filter value is therefore accepted here, where such an interpreter would answer 'Invalid variant ID format.' or 'invalid value type'.
- Filters.Coerce: its `int` case inherits the missing 4300-digit limit of `Text.ParseInt`, and its `float` case rejects the non-ASCII decimal digits `Text.ParsesAsFloat` does not accept.
- `Cursor.DeserializeQueryLast` is the intended check. The check as written also raises a `TypeError` on a numeric, boolean or null `_id`. `LastAsWritten` models that as `Crashed`; in the real service this surfaces as a server error rather than a 422.
- `Sorting.EmptySortDoesNotReparse`: the store may report an empty sort, and then the next URL carries `sort=`, which does not parse again. The round trip is proved for non-empty sorts only.
- Flask's `MultiDict` is not modelled. The request's arguments are given as the sequence `items(True)` yields, which groups all values of a name at that name's first occurrence; `filter=a&chrom=1&filter=b` is written back as `filter=a&filter=b&chrom=1`.
- The loader's nesting of dotted names (marshmallow's `set_value`) is modelled in `Loading` from its documented behaviour; its code is not part of this model. Defaults filled in for missing fields (`missing=`) are not modelled.

## Findings

| source | as written | input that shows it | evidently intended | confidence | as-written member | corrected member |
|---|---|---|---|---|---|---|
| bravo_api/api.py:194 | the next URL writes each `request.args` value, already unquoted, back raw: `f'{arg}={value}'` | a `chrom` sent as `a%2Bb` is read on the next page as `a b` | the next page reads the same arguments | not executed; high | Envelope.PlusValueChangesOnNextPage | Envelope.EscapedCoverageNextUrlRoundTrip |
| bravo_api/api.py:232 | the sorted next URL writes the values back raw in the same way, before `&sort=` and `&last=` | a `filter` sent as `a%23b` puts a `#` in the next URL, and the next page reads the filter `a` with no `sort` and no `last` | the next page reads the same arguments, the store's sort and the new cursor | not executed; high | Envelope.FragmentDropsSortAndCursor | Envelope.EscapedSortedNextUrlRoundTrip |
| bravo_api/api.py:172 | the `_id` check uses `len` and an element-wise `in string.hexdigits` test on whatever JSON value `_id` holds; `in` on two strings is a substring test | the cursor `{"_id": ["a", "a", …, "a"]}` with 24 strings is accepted | `_id` must be a string of exactly 24 hexadecimal characters | not executed; high | Cursor.ListIdAcceptedAsWritten | Cursor.DeserializeQueryLast |
