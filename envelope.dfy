/**
 * The response side of the query layer: the uniform
 * `{data, total, limit, next, error}` envelope with its status, the
 * parse-error and user-error handlers, and the next-page URL that the paged
 * endpoints rebuild from the request's own arguments.
 */
module Envelope {
  import opened Options
  import opened Text
  import opened Errors
  import opened Sorting

  datatype Envelope<D> = Envelope(
    data: Option<D>,
    total: Option<nat>,
    limit: Option<int>,
    next: Option<string>,
    error: Option<string>)

  datatype Response<D> = Response(status: nat, body: Envelope<D>)

  /** The null-payload envelope that carries an error message. */
  function ErrorEnvelope<D>(message: string): Envelope<D> {
    Envelope(None, None, None, None, Some(message))
  }

  predicate IsErrorEnvelope<D>(e: Envelope<D>) {
    e.data.None? && e.total.None? && e.limit.None? && e.next.None? && e.error.Some?
  }

  /** The text the parse-error handler reports for one field. */
  function ParsingMessage(field: string, message: string): string {
    "Error while parsing '" + field + "' query parameter: " + message
  }

  /**
   * The parse-error handler as a whole: it reports the first message of the
   * last field. With no field at all the message variable is never bound, and
   * a field with no message fails to index; both make the handler raise
   * instead of responding (`None`).
   */
  function ParsingErrorResponse<D>(messages: seq<(string, seq<string>)>): Option<Response<D>> {
    if |messages| == 0 || exists i :: 0 <= i < |messages| && |messages[i].1| == 0 then None
    else
      var last := messages[|messages| - 1];
      Some(Response(422, ErrorEnvelope(ParsingMessage(last.0, last.1[0]))))
  }

  /** The imperative handler: a loop over the fields that overwrites the message each time. */
  method HandleHttpRequestParsingError<D>(messages: seq<(string, seq<string>)>) returns (r: Option<Response<D>>)
    ensures r == ParsingErrorResponse(messages)
  {
    var userMessage: Option<string> := None;
    var i := 0;
    while i < |messages|
      invariant 0 <= i <= |messages|
      invariant forall j :: 0 <= j < i ==> |messages[j].1| > 0
      invariant i == 0 <==> userMessage.None?
      invariant i > 0 ==> userMessage == Some(ParsingMessage(messages[i - 1].0, messages[i - 1].1[0]))
    {
      if |messages[i].1| == 0 {
        return None;
      }
      userMessage := Some(ParsingMessage(messages[i].0, messages[i].1[0]));
      i := i + 1;
    }
    if userMessage.None? {
      return None;
    }
    return Some(Response(422, ErrorEnvelope(userMessage.value)));
  }

  /**
   * How a `ValidationError` reaches the handler: a validator's error is keyed
   * on the field it names; a deserialiser's error is filed under the argument
   * being deserialised.
   */
  function ErrorMessages(e: ValidationError, argName: string): seq<(string, seq<string>)> {
    var field := match KeyedField(e) case Some(f) => f case None => argName;
    [(field, [Message(e)])]
  }

  /**
   * A rejected request gets status 422, a null payload and one message that
   * names the offending parameter and quotes the error's own text.
   */
  lemma ValidationErrorResponse<D>(e: ValidationError, argName: string)
    ensures var r: Option<Response<D>> := ParsingErrorResponse(ErrorMessages(e, argName));
      var field := if KeyedField(e).Some? then KeyedField(e).value else argName;
      && r.Some? && r.value.status == 422 && IsErrorEnvelope(r.value.body)
      && r.value.body.error == Some("Error while parsing '" + field + "' query parameter: " + Message(e))
  {
    var field := if KeyedField(e).Some? then KeyedField(e).value else argName;
    assert ErrorMessages(e, argName) == [(field, [Message(e)])];
    OneFieldReported<D>(field, Message(e));
  }

  /** One field with one message is reported as that message. */
  lemma OneFieldReported<D>(field: string, message: string)
    ensures var r: Option<Response<D>> := ParsingErrorResponse([(field, [message])]);
      r == Some(Response(422, ErrorEnvelope(ParsingMessage(field, message))))
  {
    var msgs := [(field, [message])];
    assert forall i :: 0 <= i < |msgs| ==> |msgs[i].1| > 0;
  }

  /** The handler reports the last field's first message, whatever the fields before it said. */
  lemma LastFieldReported<D>(earlier: seq<(string, seq<string>)>, field: string, messages: seq<string>)
    requires forall i :: 0 <= i < |earlier| ==> |earlier[i].1| > 0
    requires |messages| > 0
    ensures var r: Option<Response<D>> := ParsingErrorResponse(earlier + [(field, messages)]);
      r == Some(Response(422, ErrorEnvelope(ParsingMessage(field, messages[0]))))
  {
    var all := earlier + [(field, messages)];
    assert forall i :: 0 <= i < |all| ==> |all[i].1| > 0 by {
      assert forall i :: 0 <= i < |earlier| ==> all[i] == earlier[i];
    }
  }

  /** The user-error handler: status 400 and the same null payload. */
  function UserErrorResponse<D>(message: string): (r: Response<D>)
    ensures r.status == 400 && IsErrorEnvelope(r.body) && r.body.error == Some(message)
  {
    Response(400, ErrorEnvelope(message))
  }

  /** A page of results: status 200 and no error. */
  function PageResponse<D>(data: D, total: nat, limit: int, next: Option<string>): (r: Response<D>)
    ensures r.status == 200 && r.body.error.None? && r.body.data == Some(data) && r.body.next == next
    ensures r.body.total == Some(total) && r.body.limit == Some(limit)
  {
    Response(200, Envelope(Some(data), Some(total), Some(limit), next, None))
  }

  // The next-page URL. The request's arguments are the `(name, value)` pairs
  // that `request.args.items(True)` yields: every value of a name together, the
  // names in order of first occurrence. The cursor token and the base URL
  // (which holds no query) are opaque.

  type Args = seq<(string, string)>

  /** The arguments whose names are not in `drop`, in their original order. */
  function Without(args: Args, drop: set<string>): Args {
    if |args| == 0 then []
    else (if args[0].0 in drop then [] else [args[0]]) + Without(args[1..], drop)
  }

  /** Filtering keeps exactly the pairs whose names are not dropped. */
  lemma {:induction false} WithoutMembers(args: Args, drop: set<string>)
    ensures forall p :: p in Without(args, drop) <==> p in args && p.0 !in drop
  {
    if |args| > 0 {
      WithoutMembers(args[1..], drop);
      assert args == [args[0]] + args[1..];
    }
  }

  /** Filtering distributes over concatenation, so the kept pairs stay in their original order. */
  lemma {:induction false} WithoutAppend(a: Args, b: Args, drop: set<string>)
    ensures Without(a + b, drop) == Without(a, drop) + Without(b, drop)
  {
    if |a| == 0 {
      assert a + b == b;
    } else {
      assert (a + b)[0] == a[0] && (a + b)[1..] == a[1..] + b;
      WithoutAppend(a[1..], b, drop);
    }
  }

  /** `name=value` for each pair. */
  function PairTexts(args: Args): (r: seq<string>)
    ensures |r| == |args|
    ensures forall i :: 0 <= i < |args| ==> r[i] == args[i].0 + "=" + args[i].1
  {
    if |args| == 0 then [] else [args[0].0 + "=" + args[0].1] + PairTexts(args[1..])
  }

  /** The pairs written back as a query string. */
  function EncodePairs(args: Args): string {
    Join(PairTexts(args), '&')
  }

  /** The next URL of the coverage endpoint: every argument but `last`, then the new `last`. */
  function CoverageNextUrl(baseUrl: string, args: Args, last: Option<string>): Option<string> {
    if last.None? then None else Some(baseUrl + "?" + CoverageQuery(args, last.value))
  }

  function CoverageQuery(args: Args, token: string): string {
    EncodePairs(Without(args, {"last"})) + "&last=" + token
  }

  /**
   * The next URL of the sorted region endpoints: every argument but `last`
   * and `sort`, then the sort the store reports, then the new `last`.
   */
  function SortedNextUrl(baseUrl: string, args: Args, sort: SortSpec, last: Option<string>): Option<string> {
    if last.None? then None else Some(baseUrl + "?" + SortedQuery(args, sort, last.value))
  }

  function SortedQuery(args: Args, sort: SortSpec, token: string): string {
    EncodePairs(Without(args, {"last", "sort"})) + "&sort=" + CanonicalSort(sort) + "&last=" + token
  }

  // A reference reading of a query string: split on `&`, skip empty pieces,
  // and cut each piece at its first `=` (a piece without one has an empty value).

  function IndexOf(s: string, c: char): (k: nat)
    ensures k <= |s|
    ensures forall i :: 0 <= i < k ==> s[i] != c
    ensures k < |s| ==> s[k] == c
  {
    if |s| == 0 || s[0] == c then 0 else 1 + IndexOf(s[1..], c)
  }

  function SplitPair(piece: string): (string, string) {
    var k := IndexOf(piece, '=');
    if k == |piece| then (piece, "") else (piece[..k], piece[k + 1..])
  }

  function ParsePairs(pieces: seq<string>): Args {
    if |pieces| == 0 then []
    else (if pieces[0] == "" then [] else [SplitPair(pieces[0])]) + ParsePairs(pieces[1..])
  }

  function ParseQuery(query: string): Args {
    ParsePairs(Split(query, '&'))
  }

  /** A pair whose name holds no `=` and neither part holds `&` is cut back out of the query string intact. */
  predicate Splittable(p: (string, string)) {
    '=' !in p.0 && '&' !in p.0 && '&' !in p.1
  }

  predicate AllSplittable(args: Args) {
    forall i :: 0 <= i < |args| ==> Splittable(args[i])
  }

  /** Text that the query reader neither cuts (`&`, `#`) nor decodes (`+`, `%`). */
  predicate PlainText(s: string) {
    '&' !in s && '#' !in s && '+' !in s && '%' !in s
  }

  /** A pair, written back raw, that the service reads back as itself. */
  predicate Transparent(p: (string, string)) {
    '=' !in p.0 && PlainText(p.0) && PlainText(p.1)
  }

  predicate AllTransparent(args: Args) {
    forall i :: 0 <= i < |args| ==> Transparent(args[i])
  }

  lemma WithoutTransparent(args: Args, drop: set<string>)
    requires AllTransparent(args)
    ensures AllTransparent(Without(args, drop))
  {
    var kept := Without(args, drop);
    WithoutMembers(args, drop);
    forall i | 0 <= i < |kept|
      ensures Transparent(kept[i])
    {
      assert kept[i] in kept;
    }
  }

  /** A piece cut at its first `=` gives back the name and the value. */
  lemma SplitPairOf(name: string, value: string)
    requires '=' !in name
    ensures SplitPair(name + "=" + value) == (name, value)
  {
    var piece := name + "=" + value;
    assert piece[|name|] == '=';
    assert forall i :: 0 <= i < |name| ==> piece[i] == name[i];
    assert piece[..|name|] == name && piece[|name| + 1..] == value;
  }

  lemma {:induction false} ParsePairsAppend(a: seq<string>, b: seq<string>)
    ensures ParsePairs(a + b) == ParsePairs(a) + ParsePairs(b)
  {
    if |a| == 0 {
      assert a + b == b;
    } else {
      assert (a + b)[0] == a[0] && (a + b)[1..] == a[1..] + b;
      ParsePairsAppend(a[1..], b);
    }
  }

  /** Reading back the written pairs gives the pairs. */
  lemma {:induction false} ParsePairTexts(args: Args)
    requires AllSplittable(args)
    ensures ParsePairs(PairTexts(args)) == args
  {
    if |args| > 0 {
      assert AllSplittable(args[1..]) by {
        assert forall i :: 0 <= i < |args[1..]| ==> args[1..][i] == args[i + 1];
      }
      var texts := PairTexts(args);
      assert texts[1..] == PairTexts(args[1..]);
      assert |texts[0]| == |args[0].0| + 1 + |args[0].1|;
      SplitPairOf(args[0].0, args[0].1);
      ParsePairTexts(args[1..]);
      assert [args[0]] + args[1..] == args;
    }
  }

  /** The pieces the written pairs contribute to a query string that is followed by more: one empty piece when there are none. */
  function Lead(kept: Args): seq<string> {
    if |kept| == 0 then [""] else PairTexts(kept)
  }

  lemma LeadJoin(kept: Args, tail: seq<string>)
    requires |tail| > 0
    ensures EncodePairs(kept) + "&" + Join(tail, '&') == Join(Lead(kept) + tail, '&')
  {
    JoinAppend(Lead(kept), tail, '&');
    if |kept| == 0 {
      assert Join([""], '&') == "" == EncodePairs(kept);
    }
  }

  lemma LeadParses(kept: Args)
    requires AllSplittable(kept)
    ensures ParsePairs(Lead(kept)) == kept
  {
    if |kept| > 0 {
      ParsePairTexts(kept);
    }
  }

  lemma LeadAvoidsAmpersand(kept: Args)
    requires AllSplittable(kept)
    ensures forall i :: 0 <= i < |Lead(kept)| ==> '&' !in Lead(kept)[i]
  {
    if |kept| > 0 {
      forall i | 0 <= i < |kept|
        ensures '&' !in PairTexts(kept)[i]
      {
        assert Splittable(kept[i]);
      }
    }
  }

  lemma AppendAvoids(a: seq<string>, b: seq<string>, c: char)
    requires forall i :: 0 <= i < |a| ==> c !in a[i]
    requires forall i :: 0 <= i < |b| ==> c !in b[i]
    ensures forall i :: 0 <= i < |a + b| ==> c !in (a + b)[i]
  {
  }

  /** Appending `&t1&...` to the written pairs reads back as the pairs followed by the appended pieces. */
  lemma QueryWithTail(kept: Args, tail: seq<string>)
    requires AllSplittable(kept)
    requires |tail| > 0 && forall i :: 0 <= i < |tail| ==> '&' !in tail[i]
    ensures ParseQuery(EncodePairs(kept) + "&" + Join(tail, '&')) == kept + ParsePairs(tail)
  {
    LeadJoin(kept, tail);
    LeadAvoidsAmpersand(kept);
    AppendAvoids(Lead(kept), tail, '&');
    JoinSplit(Lead(kept) + tail, '&');
    ParsePairsAppend(Lead(kept), tail);
    LeadParses(kept);
  }

  /** The pieces `name=value` read back as the one pair each. */
  lemma ParseOnePair(name: string, value: string)
    requires '=' !in name && name != ""
    ensures ParsePairs([name + "=" + value]) == [(name, value)]
  {
    SplitPairOf(name, value);
    assert [name + "=" + value][1..] == [];
  }

  lemma ParseTwoPairs(n1: string, v1: string, n2: string, v2: string)
    requires '=' !in n1 && n1 != "" && '=' !in n2 && n2 != ""
    ensures ParsePairs([n1 + "=" + v1, n2 + "=" + v2]) == [(n1, v1), (n2, v2)]
  {
    ParsePairsAppend([n1 + "=" + v1], [n2 + "=" + v2]);
    assert [n1 + "=" + v1] + [n2 + "=" + v2] == [n1 + "=" + v1, n2 + "=" + v2];
    ParseOnePair(n1, v1);
    ParseOnePair(n2, v2);
  }

  /** The characters the reader gives a meaning to are not in the canonical sort string of well-formed keys. */
  lemma CanonicalSortAvoids(sort: SortSpec, c: char)
    requires forall i :: 0 <= i < |sort| ==> WellFormedKey(sort[i].0)
    requires c == '&' || c == '#' || c == '+' || c == '%'
    ensures c !in CanonicalSort(sort)
  {
    var pieces := CanonicalPieces(sort);
    forall i | 0 <= i < |sort|
      ensures c !in pieces[i]
    {
      var k := sort[i].0;
      assert c !in k by {
        assert forall j :: 0 <= j < |k| ==> KeyChar(k[j]);
      }
      assert c !in DirectionName(sort[i].1);
    }
    JoinAvoids(pieces, ',', c);
  }

  /** The canonical sort string of well-formed keys is plain text. */
  lemma CanonicalSortPlain(sort: SortSpec)
    requires forall i :: 0 <= i < |sort| ==> WellFormedKey(sort[i].0)
    ensures PlainText(CanonicalSort(sort))
  {
    CanonicalSortAvoids(sort, '&');
    CanonicalSortAvoids(sort, '#');
    CanonicalSortAvoids(sort, '+');
    CanonicalSortAvoids(sort, '%');
  }

  /** The query part of a URL built as `base?query`, for a base that holds no `?`. */
  function QueryOf(url: string): string {
    var k := IndexOf(url, '?');
    if k == |url| then "" else url[k + 1..]
  }

  lemma QueryOfBuilt(baseUrl: string, query: string)
    requires '?' !in baseUrl
    ensures QueryOf(baseUrl + "?" + query) == query
  {
    var url := baseUrl + "?" + query;
    assert url[|baseUrl|] == '?';
    assert forall i :: 0 <= i < |baseUrl| ==> url[i] == baseUrl[i];
    assert url[|baseUrl| + 1..] == query;
  }

  /** The written pairs followed by `&name=value` read back as the pairs and then that one pair. */
  lemma QueryWithPair(kept: Args, name: string, value: string)
    requires AllSplittable(kept)
    requires '=' !in name && '&' !in name && name != "" && '&' !in value
    ensures ParseQuery(EncodePairs(kept) + "&" + (name + "=" + value)) == kept + [(name, value)]
  {
    var piece := name + "=" + value;
    assert Join([piece], '&') == piece;
    QueryWithTail(kept, [piece]);
    ParseOnePair(name, value);
  }

  /** The written pairs followed by `&n1=v1&n2=v2` read back as the pairs and then those two. */
  lemma QueryWithTwoPairs(kept: Args, n1: string, v1: string, n2: string, v2: string)
    requires AllSplittable(kept)
    requires '=' !in n1 && '&' !in n1 && n1 != "" && '&' !in v1
    requires '=' !in n2 && '&' !in n2 && n2 != "" && '&' !in v2
    ensures ParseQuery(EncodePairs(kept) + "&" + (n1 + "=" + v1) + "&" + (n2 + "=" + v2))
         == kept + [(n1, v1), (n2, v2)]
  {
    var p1, p2 := n1 + "=" + v1, n2 + "=" + v2;
    assert Join([p1, p2], '&') == p1 + "&" + p2 by {
      assert [p1, p2][1..] == [p2];
    }
    var e := EncodePairs(kept);
    assert e + "&" + p1 + "&" + p2 == e + "&" + (p1 + "&" + p2);
    QueryWithTail(kept, [p1, p2]);
    ParseTwoPairs(n1, v1, n2, v2);
  }

  lemma Regroup(e: string, amp: string, n1: string, eq: string, v1: string, n2: string, v2: string)
    ensures e + (amp + n1 + eq) + v1 + (amp + n2 + eq) + v2 == e + amp + (n1 + eq + v1) + amp + (n2 + eq + v2)
  {
  }

  // How the service reads a next URL back. A client sends the URL without
  // its fragment (from the first `#` on); the framework cuts the query string
  // as `ParseQuery` does and unquotes each name and value as Python's
  // `urllib.parse.unquote_plus` does.

  predicate IsHexChar(c: char) {
    ('0' <= c <= '9') || ('a' <= c <= 'f') || ('A' <= c <= 'F')
  }

  function HexValue(c: char): (v: nat)
    requires IsHexChar(c)
    ensures v < 16
  {
    if '0' <= c <= '9' then c as int - '0' as int
    else if 'a' <= c <= 'f' then c as int - 'a' as int + 10
    else c as int - 'A' as int + 10
  }

  /** `+` becomes a space and `%XY` the character with hexadecimal code `XY`; every other character is kept. */
  function UnquotePlus(s: string): (r: string)
    ensures |r| <= |s|
  {
    if |s| == 0 then ""
    else if s[0] == '%' && |s| >= 3 && IsHexChar(s[1]) && IsHexChar(s[2]) then
      [(16 * HexValue(s[1]) + HexValue(s[2])) as char] + UnquotePlus(s[3..])
    else if s[0] == '+' then " " + UnquotePlus(s[1..])
    else [s[0]] + UnquotePlus(s[1..])
  }

  /** Each name and value unquoted, in order. */
  function ReadPairs(pairs: Args): (r: Args)
    ensures |r| == |pairs|
    ensures forall i :: 0 <= i < |pairs| ==> r[i] == (UnquotePlus(pairs[i].0), UnquotePlus(pairs[i].1))
  {
    if |pairs| == 0 then [] else [(UnquotePlus(pairs[0].0), UnquotePlus(pairs[0].1))] + ReadPairs(pairs[1..])
  }

  /** The arguments the service reads from a query string. */
  function ReadQuery(query: string): Args {
    ReadPairs(ParseQuery(query))
  }

  /** The query string a client sends for a URL: after the first `?`, up to the first `#`. */
  function SentQuery(url: string): string {
    QueryOf(url[..IndexOf(url, '#')])
  }

  /** Text without `+` and `%` unquotes to itself. */
  lemma {:induction false} UnquotePlain(s: string)
    requires '+' !in s && '%' !in s
    ensures UnquotePlus(s) == s
  {
    if |s| > 0 {
      UnquotePlain(s[1..]);
      assert s == [s[0]] + s[1..];
    }
  }

  /** Transparent pairs read as themselves. */
  lemma ReadTransparent(args: Args)
    requires AllTransparent(args)
    ensures ReadPairs(args) == args
  {
    forall i | 0 <= i < |args|
      ensures ReadPairs(args)[i] == args[i]
    {
      UnquotePlain(args[i].0);
      UnquotePlain(args[i].1);
    }
  }

  lemma SentQueryOfBuilt(baseUrl: string, query: string)
    requires '?' !in baseUrl && '#' !in baseUrl && '#' !in query
    ensures SentQuery(baseUrl + "?" + query) == query
  {
    var url := baseUrl + "?" + query;
    assert url[..IndexOf(url, '#')] == url;
    QueryOfBuilt(baseUrl, query);
  }

  /** A character in no name and no value, other than `&` and `=`, is not in the written query. */
  lemma EncodeAvoids(args: Args, c: char)
    requires c != '&' && c != '='
    requires forall i :: 0 <= i < |args| ==> c !in args[i].0 && c !in args[i].1
    ensures c !in EncodePairs(args)
  {
    var texts := PairTexts(args);
    forall i | 0 <= i < |texts|
      ensures c !in texts[i]
    {
      assert texts[i] == args[i].0 + "=" + args[i].1;
    }
    JoinAvoids(texts, '&', c);
  }

  /** The written pairs on their own split back into the pairs. */
  lemma EncodedPairsParse(kept: Args)
    requires AllSplittable(kept)
    ensures ParseQuery(EncodePairs(kept)) == kept
  {
    if |kept| == 0 {
      assert Split("", '&') == [""];
      assert [""][1..] == [];
    } else {
      LeadAvoidsAmpersand(kept);
      JoinSplit(PairTexts(kept), '&');
      ParsePairTexts(kept);
    }
  }

  lemma TransparentAppend(a: Args, b: Args)
    requires AllTransparent(a) && AllTransparent(b)
    ensures AllTransparent(a + b)
  {
    forall i | 0 <= i < |a + b|
      ensures Transparent((a + b)[i])
    {
      if i < |a| {
        assert (a + b)[i] == a[i];
      } else {
        assert (a + b)[i] == b[i - |a|];
      }
    }
  }

  /** A pair that the raw write-back carries to the next page in one piece, though not undecoded. */
  predicate Intact(p: (string, string)) {
    Splittable(p) && '#' !in p.0 && '#' !in p.1
  }

  predicate AllIntact(args: Args) {
    forall i :: 0 <= i < |args| ==> Intact(args[i])
  }

  lemma WithoutIntact(args: Args, drop: set<string>)
    requires AllIntact(args)
    ensures AllIntact(Without(args, drop))
  {
    var kept := Without(args, drop);
    WithoutMembers(args, drop);
    forall i | 0 <= i < |kept|
      ensures Intact(kept[i])
    {
      assert kept[i] in kept;
    }
  }

  lemma {:induction false} ReadPairsAppend(a: Args, b: Args)
    ensures ReadPairs(a + b) == ReadPairs(a) + ReadPairs(b)
  {
    if |a| == 0 {
      assert a + b == b;
    } else {
      assert (a + b)[0] == a[0] && (a + b)[1..] == a[1..] + b;
      ReadPairsAppend(a[1..], b);
    }
  }

  /** The coverage query splits back into the kept arguments followed by the new `last`. */
  lemma CoverageQuerySplits(args: Args, token: string)
    requires AllIntact(args) && '&' !in token
    ensures ParseQuery(CoverageQuery(args, token)) == Without(args, {"last"}) + [("last", token)]
  {
    var kept := Without(args, {"last"});
    WithoutIntact(args, {"last"});
    assert CoverageQuery(args, token) == EncodePairs(kept) + "&" + ("last" + "=" + token);
    QueryWithPair(kept, "last", token);
  }

  /** The sorted query splits back into the kept arguments, then `sort`, then `last`. */
  lemma SortedQuerySplits(args: Args, sort: SortSpec, token: string)
    requires AllIntact(args) && '&' !in token
    requires forall i :: 0 <= i < |sort| ==> WellFormedKey(sort[i].0)
    ensures ParseQuery(SortedQuery(args, sort, token))
         == Without(args, {"last", "sort"}) + [("sort", CanonicalSort(sort)), ("last", token)]
  {
    var kept := Without(args, {"last", "sort"});
    var cs := CanonicalSort(sort);
    WithoutIntact(args, {"last", "sort"});
    CanonicalSortAvoids(sort, '&');
    var e := EncodePairs(kept);
    assert SortedQuery(args, sort, token) == e + "&" + ("sort" + "=" + cs) + "&" + ("last" + "=" + token) by {
      assert "&sort=" == "&" + "sort" + "=" && "&last=" == "&" + "last" + "=";
      Regroup(e, "&", "sort", "=", cs, "last", token);
    }
    QueryWithTwoPairs(kept, "sort", cs, "last", token);
  }

  lemma CoverageQueryAvoidsFragment(args: Args, token: string)
    requires AllIntact(args) && '#' !in token
    ensures '#' !in CoverageQuery(args, token)
  {
    WithoutIntact(args, {"last"});
    EncodeAvoids(Without(args, {"last"}), '#');
  }

  lemma SortedQueryAvoidsFragment(args: Args, sort: SortSpec, token: string)
    requires AllIntact(args) && '#' !in token
    requires forall i :: 0 <= i < |sort| ==> WellFormedKey(sort[i].0)
    ensures '#' !in SortedQuery(args, sort, token)
  {
    WithoutIntact(args, {"last", "sort"});
    EncodeAvoids(Without(args, {"last", "sort"}), '#');
    CanonicalSortAvoids(sort, '#');
  }

  lemma LastTransparent(token: string)
    requires PlainText(token)
    ensures AllTransparent([("last", token)])
  {
  }

  lemma SortLastTransparent(cs: string, token: string)
    requires PlainText(cs) && PlainText(token)
    ensures AllTransparent([("sort", cs), ("last", token)])
  {
  }

  /** Pairs followed by transparent ones read as the former unquoted, then the latter unchanged. */
  lemma ReadThenTransparent(kept: Args, tail: Args)
    requires AllTransparent(tail)
    ensures ReadPairs(kept + tail) == ReadPairs(kept) + tail
  {
    ReadPairsAppend(kept, tail);
    ReadTransparent(tail);
  }

  /** Pairs followed by one with a plain name read as the former unquoted, then that pair's value unquoted. */
  lemma ReadThenOne(kept: Args, n: string, v: string)
    requires PlainText(n)
    ensures ReadPairs(kept + [(n, v)]) == ReadPairs(kept) + [(n, UnquotePlus(v))]
  {
    ReadPairsAppend(kept, [(n, v)]);
    UnquotePlain(n);
  }

  /** The same with a plain pair in between. */
  lemma ReadThenTwo(kept: Args, n1: string, v1: string, n2: string, v2: string)
    requires PlainText(n1) && PlainText(v1) && PlainText(n2)
    ensures ReadPairs(kept + [(n1, v1), (n2, v2)]) == ReadPairs(kept) + [(n1, v1), (n2, UnquotePlus(v2))]
  {
    ReadPairsAppend(kept, [(n1, v1), (n2, v2)]);
    UnquotePlain(n1);
    UnquotePlain(v1);
    UnquotePlain(n2);
  }

  /**
   * The coverage next URL as written: the next page reads the kept arguments
   * unquoted once more, then the new `last`, unquoted once.
   */
  lemma CoverageNextUrlReads(baseUrl: string, args: Args, token: string)
    requires '?' !in baseUrl && '#' !in baseUrl && AllIntact(args) && '&' !in token && '#' !in token
    ensures ReadQuery(SentQuery(CoverageNextUrl(baseUrl, args, Some(token)).value))
         == ReadPairs(Without(args, {"last"})) + [("last", UnquotePlus(token))]
  {
    var query := CoverageQuery(args, token);
    CoverageQueryAvoidsFragment(args, token);
    SentQueryOfBuilt(baseUrl, query);
    CoverageQuerySplits(args, token);
    ReadThenOne(Without(args, {"last"}), "last", token);
  }

  /**
   * The sorted next URL as written: the next page reads the kept arguments
   * unquoted once more, then the canonical `sort`, then the new `last`,
   * unquoted once.
   */
  lemma SortedNextUrlReads(baseUrl: string, args: Args, sort: SortSpec, token: string)
    requires '?' !in baseUrl && '#' !in baseUrl && AllIntact(args) && '&' !in token && '#' !in token
    requires forall i :: 0 <= i < |sort| ==> WellFormedKey(sort[i].0)
    ensures ReadQuery(SentQuery(SortedNextUrl(baseUrl, args, sort, Some(token)).value))
         == ReadPairs(Without(args, {"last", "sort"})) + [("sort", CanonicalSort(sort)), ("last", UnquotePlus(token))]
  {
    var query := SortedQuery(args, sort, token);
    SortedQueryAvoidsFragment(args, sort, token);
    SentQueryOfBuilt(baseUrl, query);
    SortedQuerySplits(args, sort, token);
    CanonicalSortPlain(sort);
    ReadThenTwo(Without(args, {"last", "sort"}), "sort", CanonicalSort(sort), "last", token);
  }

  lemma TransparentIntact(args: Args)
    requires AllTransparent(args)
    ensures AllIntact(args)
  {
  }

  /** The coverage query is read back as the kept arguments followed by the new `last`. */
  lemma CoverageQueryParses(args: Args, token: string)
    requires AllTransparent(args) && PlainText(token)
    ensures ReadQuery(CoverageQuery(args, token)) == Without(args, {"last"}) + [("last", token)]
  {
    var kept := Without(args, {"last"});
    TransparentIntact(args);
    CoverageQuerySplits(args, token);
    LastTransparent(token);
    ReadThenTransparent(kept, [("last", token)]);
    WithoutTransparent(args, {"last"});
    ReadTransparent(kept);
  }

  /** The sorted query is read back as the kept arguments, then `sort`, then `last`. */
  lemma SortedQueryParses(args: Args, sort: SortSpec, token: string)
    requires AllTransparent(args) && PlainText(token)
    requires forall i :: 0 <= i < |sort| ==> WellFormedKey(sort[i].0)
    ensures ReadQuery(SortedQuery(args, sort, token))
         == Without(args, {"last", "sort"}) + [("sort", CanonicalSort(sort)), ("last", token)]
  {
    var kept := Without(args, {"last", "sort"});
    var tail := [("sort", CanonicalSort(sort)), ("last", token)];
    TransparentIntact(args);
    SortedQuerySplits(args, sort, token);
    CanonicalSortPlain(sort);
    SortLastTransparent(CanonicalSort(sort), token);
    ReadThenTransparent(kept, tail);
    WithoutTransparent(args, {"last", "sort"});
    ReadTransparent(kept);
  }

  /**
   * The coverage endpoint's next URL is absent exactly when there is no new
   * cursor; otherwise the next page reads its query as the original
   * arguments without `last`, in order, followed by the new `last`.
   */
  lemma CoverageNextUrlRoundTrip(baseUrl: string, args: Args, last: Option<string>)
    requires '?' !in baseUrl && '#' !in baseUrl && AllTransparent(args)
    requires last.Some? ==> PlainText(last.value)
    ensures CoverageNextUrl(baseUrl, args, last).Some? <==> last.Some?
    ensures last.Some? ==>
      ReadQuery(SentQuery(CoverageNextUrl(baseUrl, args, last).value)) == Without(args, {"last"}) + [("last", last.value)]
  {
    if last.Some? {
      TransparentIntact(args);
      CoverageNextUrlReads(baseUrl, args, last.value);
      UnquotePlain(last.value);
      WithoutTransparent(args, {"last"});
      ReadTransparent(Without(args, {"last"}));
    }
  }

  /**
   * The sorted endpoints' next URL is absent exactly when there is no new
   * cursor; otherwise the next page reads its query as the original
   * arguments without `last` and `sort`, in order, then `sort` with the
   * canonical sort string, then `last` with the token.
   */
  lemma SortedNextUrlRoundTrip(baseUrl: string, args: Args, sort: SortSpec, last: Option<string>)
    requires '?' !in baseUrl && '#' !in baseUrl && AllTransparent(args)
    requires forall i :: 0 <= i < |sort| ==> WellFormedKey(sort[i].0)
    requires last.Some? ==> PlainText(last.value)
    ensures SortedNextUrl(baseUrl, args, sort, last).Some? <==> last.Some?
    ensures last.Some? ==>
      ReadQuery(SentQuery(SortedNextUrl(baseUrl, args, sort, last).value))
        == Without(args, {"last", "sort"}) + [("sort", CanonicalSort(sort)), ("last", last.value)]
  {
    if last.Some? {
      SortedNextUrlDecodesToken(baseUrl, args, sort, last.value);
      UnquotePlain(last.value);
    }
  }

  /**
   * For transparent arguments and any token without `&` or `#` (the quoted
   * JSON cursors of api.py:261 and 287 included), the next page reads the
   * arguments without `last` and `sort`, then `sort`, then `last` with the
   * token unquoted once.
   */
  lemma SortedNextUrlDecodesToken(baseUrl: string, args: Args, sort: SortSpec, token: string)
    requires '?' !in baseUrl && '#' !in baseUrl && AllTransparent(args) && '&' !in token && '#' !in token
    requires forall i :: 0 <= i < |sort| ==> WellFormedKey(sort[i].0)
    ensures ReadQuery(SentQuery(SortedNextUrl(baseUrl, args, sort, Some(token)).value))
         == Without(args, {"last", "sort"}) + [("sort", CanonicalSort(sort)), ("last", UnquotePlus(token))]
  {
    TransparentIntact(args);
    SortedNextUrlReads(baseUrl, args, sort, token);
    WithoutTransparent(args, {"last", "sort"});
    ReadTransparent(Without(args, {"last", "sort"}));
  }

  /**
   * Following the next link resumes the same query: when the store reports a
   * non-empty sort over whitelisted keys, the `sort` the next page reads
   * parses, under the same whitelist, back to that very sort.
   */
  lemma NextPageKeepsSort(baseUrl: string, args: Args, sort: SortSpec, allowed: Whitelist, token: string)
    requires '?' !in baseUrl && '#' !in baseUrl && AllIntact(args) && '&' !in token && '#' !in token
    requires WellFormedWhitelist(allowed)
    requires |sort| > 0 && forall i :: 0 <= i < |sort| ==> sort[i].0 in allowed
    ensures var pairs := ReadQuery(SentQuery(SortedNextUrl(baseUrl, args, sort, Some(token)).value));
      var k := |Without(args, {"last", "sort"})|;
      |pairs| == k + 2 && pairs[k].0 == "sort" && ParseSort(pairs[k].1, allowed) == Ok(sort)
  {
    SortedNextUrlReads(baseUrl, args, sort, token);
    CanonicalSortReparses(sort, allowed);
  }

  // The raw write-back as it stands changes or loses values that the reader decodes or cuts.

  /** Plain text in front is kept as it is. */
  lemma {:induction false} UnquoteAfterPlain(a: string, t: string)
    requires '+' !in a && '%' !in a
    ensures UnquotePlus(a + t) == a + UnquotePlus(t)
  {
    if |a| > 0 {
      assert (a + t)[1..] == a[1..] + t;
      UnquoteAfterPlain(a[1..], t);
      assert a == [a[0]] + a[1..];
    } else {
      assert a + t == t;
    }
  }

  /** A `+` between two plain texts is read as a space. */
  lemma UnquotePlusSign(a: string, b: string)
    requires '+' !in a && '%' !in a && '+' !in b && '%' !in b
    ensures UnquotePlus(a + "+" + b) == a + " " + b
  {
    UnquoteAfterPlain(a, "+" + b);
    assert ("+" + b)[1..] == b;
    UnquotePlain(b);
    assert a + "+" + b == a + ("+" + b);
  }

  /**
   * A request whose `chrom` was sent as `a%2Bb` holds the value `a+b`; its
   * next URL carries `chrom=a+b`, which the next page reads as `a b`.
   */
  lemma PlusValueChangesOnNextPage(baseUrl: string, token: string)
    requires '?' !in baseUrl && '#' !in baseUrl && PlainText(token)
    ensures var args := [("chrom", "a" + "+" + "b")];
      var read := ReadQuery(SentQuery(CoverageNextUrl(baseUrl, args, Some(token)).value));
      read == [("chrom", "a" + " " + "b"), ("last", token)] && read != Without(args, {"last"}) + [("last", token)]
  {
    var name, x, y := "chrom", "a", "b";
    var args := [(name, x + "+" + y)];
    assert Without(args, {"last"}) == args;
    CoverageNextUrlReads(baseUrl, args, token);
    UnquotePlain(token);
    UnquotePlusSign(x, y);
    UnquotePlain(name);
    assert ReadPairs(args) == [(name, x + " " + y)];
    assert (x + " " + y)[1] != (x + "+" + y)[1];
  }

  lemma IndexOfAfter(a: string, c: char, b: string)
    requires c !in a
    ensures IndexOf(a + [c] + b, c) == |a|
  {
    assert (a + [c] + b)[|a|] == c;
  }

  /** The URL a client sends is cut at the first `#`. */
  lemma FragmentCut(pre: string, tail: string)
    requires '#' !in pre
    ensures var url := pre + "#" + tail; url[..IndexOf(url, '#')] == pre
  {
    IndexOfAfter(pre, '#', tail);
    assert pre + "#" + tail == pre + ['#'] + tail;
  }

  lemma SortedNextUrlOfOne(baseUrl: string, name: string, head: string, rest: string, sort: SortSpec, token: string)
    requires name != "last" && name != "sort"
    ensures SortedNextUrl(baseUrl, [(name, head + "#" + rest)], sort, Some(token)).value
         == (baseUrl + "?" + (name + "=" + head)) + "#" + (rest + "&sort=" + CanonicalSort(sort) + "&last=" + token)
  {
    var args := [(name, head + "#" + rest)];
    assert Without(args, {"last", "sort"}) == args;
    assert PairTexts(args) == [name + "=" + (head + "#" + rest)];
    assert EncodePairs(args) == name + "=" + (head + "#" + rest);
  }

  /**
   * The sorted next URL as written, for a request whose one argument holds a
   * `#` in its value: the next page reads that argument only up to the `#`,
   * and neither `sort` nor `last`.
   */
  lemma FragmentValueCutsNextUrl(baseUrl: string, name: string, head: string, rest: string, sort: SortSpec, token: string)
    requires '?' !in baseUrl && '#' !in baseUrl
    requires name != "" && name != "last" && name != "sort" && '=' !in name && '&' !in name && '#' !in name
    requires '&' !in head && '#' !in head
    ensures ReadQuery(SentQuery(SortedNextUrl(baseUrl, [(name, head + "#" + rest)], sort, Some(token)).value))
         == ReadPairs([(name, head)])
  {
    var args := [(name, head + "#" + rest)];
    var shown := [(name, head)];
    var text := name + "=" + head;
    var tail := rest + "&sort=" + CanonicalSort(sort) + "&last=" + token;
    assert Without(args, {"last", "sort"}) == args;
    assert EncodePairs(args) == text + "#" + rest by {
      assert PairTexts(args) == [name + "=" + (head + "#" + rest)];
    }
    assert EncodePairs(shown) == text by {
      assert PairTexts(shown) == [text];
    }
    var pre := baseUrl + "?" + text;
    SortedNextUrlOfOne(baseUrl, name, head, rest, sort, token);
    FragmentCut(pre, tail);
    QueryOfBuilt(baseUrl, text);
    EncodedPairsParse(shown);
  }

  /**
   * A request whose `filter` was sent as `a%23b` holds the value `a#b`; its
   * next URL carries `filter=a#b`, and a client sends only what precedes the
   * `#`, so the next page reads the filter `a` and neither `sort` nor `last`.
   */
  lemma FragmentDropsSortAndCursor(baseUrl: string, sort: SortSpec, token: string)
    requires '?' !in baseUrl && '#' !in baseUrl
    ensures var args := [("filter", "a" + "#" + "b")];
      var read := ReadQuery(SentQuery(SortedNextUrl(baseUrl, args, sort, Some(token)).value));
      read == [("filter", "a")] && read != Without(args, {"last", "sort"}) + [("sort", CanonicalSort(sort)), ("last", token)]
  {
    var name, head, rest := "filter", "a", "b";
    var args := [(name, head + "#" + rest)];
    assert Without(args, {"last", "sort"}) == args;
    FragmentValueCutsNextUrl(baseUrl, name, head, rest, sort, token);
    assert Transparent((name, head));
    ReadTransparent([(name, head)]);
  }

  // The write-back with a minimal percent-encoding of the characters the reader interprets.

  /** Percent-encodes the characters the reader gives a meaning to: `%`, `+`, `&`, `#` and `=`. */
  function EscapeChar(c: char): string {
    match c
    case '%' => "%25"
    case '+' => "%2B"
    case '&' => "%26"
    case '#' => "%23"
    case '=' => "%3D"
    case _ => [c]
  }

  function Escape(s: string): (r: string)
    ensures '&' !in r && '#' !in r && '+' !in r && '=' !in r
  {
    if |s| == 0 then "" else EscapeChar(s[0]) + Escape(s[1..])
  }

  function EscapePairs(args: Args): (r: Args)
    ensures |r| == |args|
    ensures forall i :: 0 <= i < |args| ==> r[i] == (Escape(args[i].0), Escape(args[i].1))
  {
    if |args| == 0 then [] else [(Escape(args[0].0), Escape(args[0].1))] + EscapePairs(args[1..])
  }

  /** The arguments written back with every name and value escaped. */
  function EscapedQuery(args: Args): string {
    EncodePairs(EscapePairs(args))
  }

  /** The coverage next URL with its names and values escaped. */
  function EscapedCoverageNextUrl(baseUrl: string, args: Args, last: Option<string>): Option<string> {
    if last.None? then None
    else Some(baseUrl + "?" + EscapedQuery(Without(args, {"last"}) + [("last", last.value)]))
  }

  /** The sorted next URL with its names and values escaped. */
  function EscapedSortedNextUrl(baseUrl: string, args: Args, sort: SortSpec, last: Option<string>): Option<string> {
    if last.None? then None
    else Some(baseUrl + "?" + EscapedQuery(Without(args, {"last", "sort"}) + [("sort", CanonicalSort(sort)), ("last", last.value)]))
  }

  lemma UnquoteEscapeChar(c: char, t: string)
    ensures UnquotePlus(EscapeChar(c) + t) == [c] + UnquotePlus(t)
  {
    var u := EscapeChar(c) + t;
    if c == '%' || c == '+' || c == '&' || c == '#' || c == '=' {
      assert u[3..] == t;
    } else {
      assert u[0] == c && u[1..] == t;
    }
  }

  /** Unquoting undoes escaping. */
  lemma {:induction false} UnquoteEscape(s: string)
    ensures UnquotePlus(Escape(s)) == s
  {
    if |s| > 0 {
      UnquoteEscapeChar(s[0], Escape(s[1..]));
      UnquoteEscape(s[1..]);
      assert s == [s[0]] + s[1..];
    }
  }

  /** Any arguments, escaped and written, are read back as themselves. */
  lemma EscapedQueryReads(args: Args)
    ensures ReadQuery(EscapedQuery(args)) == args
  {
    var e := EscapePairs(args);
    EncodedPairsParse(e);
    forall i | 0 <= i < |args|
      ensures ReadPairs(e)[i] == args[i]
    {
      UnquoteEscape(args[i].0);
      UnquoteEscape(args[i].1);
    }
  }

  /**
   * With escaping, the coverage next URL round-trips for every argument and
   * every cursor token: the next page reads the original arguments without
   * `last`, in order, followed by the new `last`.
   */
  lemma EscapedCoverageNextUrlRoundTrip(baseUrl: string, args: Args, last: Option<string>)
    requires '?' !in baseUrl && '#' !in baseUrl
    ensures EscapedCoverageNextUrl(baseUrl, args, last).Some? <==> last.Some?
    ensures last.Some? ==>
      ReadQuery(SentQuery(EscapedCoverageNextUrl(baseUrl, args, last).value)) == Without(args, {"last"}) + [("last", last.value)]
  {
    if last.Some? {
      var all := Without(args, {"last"}) + [("last", last.value)];
      EncodeAvoids(EscapePairs(all), '#');
      SentQueryOfBuilt(baseUrl, EscapedQuery(all));
      EscapedQueryReads(all);
    }
  }

  /**
   * With escaping, the sorted next URL round-trips for every argument, sort
   * and cursor token.
   */
  lemma EscapedSortedNextUrlRoundTrip(baseUrl: string, args: Args, sort: SortSpec, last: Option<string>)
    requires '?' !in baseUrl && '#' !in baseUrl
    ensures EscapedSortedNextUrl(baseUrl, args, sort, last).Some? <==> last.Some?
    ensures last.Some? ==>
      ReadQuery(SentQuery(EscapedSortedNextUrl(baseUrl, args, sort, last).value))
        == Without(args, {"last", "sort"}) + [("sort", CanonicalSort(sort)), ("last", last.value)]
  {
    if last.Some? {
      var all := Without(args, {"last", "sort"}) + [("sort", CanonicalSort(sort)), ("last", last.value)];
      EncodeAvoids(EscapePairs(all), '#');
      SentQueryOfBuilt(baseUrl, EscapedQuery(all));
      EscapedQueryReads(all);
    }
  }

  // The cursor token of api.py:261 and 287: `urllib.parse.quote(json.dumps(last))`.
  // `json.dumps` escapes every character outside ASCII, so its text is ASCII.

  predicate Ascii(s: string) {
    forall i :: 0 <= i < |s| ==> s[i] as int < 128
  }

  /** The upper-case hexadecimal digit `quote` writes for `n`. */
  function HexDigit(n: nat): (c: char)
    requires n < 16
    ensures IsHexChar(c) && HexValue(c) == n
  {
    if n < 10 then ('0' as int + n) as char else ('A' as int + n - 10) as char
  }

  /** The characters `quote` leaves as they are: letters, digits, `_.-~` and its default safe `/`. */
  predicate QuoteSafe(c: char) {
    ('a' <= c <= 'z') || ('A' <= c <= 'Z') || ('0' <= c <= '9') || c == '_' || c == '.' || c == '-' || c == '~' || c == '/'
  }

  function QuoteChar(c: char): string
    requires c as int < 128
  {
    if QuoteSafe(c) then [c] else ['%', HexDigit(c as int / 16), HexDigit(c as int % 16)]
  }

  /** `urllib.parse.quote` on ASCII text. */
  function Quote(s: string): (r: string)
    requires Ascii(s)
    ensures '&' !in r && '#' !in r && '+' !in r && '=' !in r
  {
    if |s| == 0 then "" else QuoteChar(s[0]) + Quote(s[1..])
  }

  lemma UnquoteQuoteChar(c: char, t: string)
    requires c as int < 128
    ensures UnquotePlus(QuoteChar(c) + t) == [c] + UnquotePlus(t)
  {
    var u := QuoteChar(c) + t;
    if QuoteSafe(c) {
      assert u[0] == c && u[1..] == t;
    } else {
      assert u[3..] == t;
    }
  }

  /** Unquoting gives back the quoted text. */
  lemma {:induction false} UnquoteQuote(s: string)
    requires Ascii(s)
    ensures UnquotePlus(Quote(s)) == s
  {
    if |s| > 0 {
      UnquoteQuoteChar(s[0], Quote(s[1..]));
      UnquoteQuote(s[1..]);
      assert s == [s[0]] + s[1..];
    }
  }

  /**
   * The SNV region and gene endpoints' next URL: with transparent arguments
   * and the cursor written as quoted ASCII JSON text, the next page reads the
   * arguments without `last` and `sort`, then `sort`, then `last` holding
   * exactly that JSON text, which is what its cursor deserialiser decodes.
   */
  lemma QuotedCursorNextUrlRoundTrip(baseUrl: string, args: Args, sort: SortSpec, cursorText: string)
    requires '?' !in baseUrl && '#' !in baseUrl && AllTransparent(args) && Ascii(cursorText)
    requires forall i :: 0 <= i < |sort| ==> WellFormedKey(sort[i].0)
    ensures ReadQuery(SentQuery(SortedNextUrl(baseUrl, args, sort, Some(Quote(cursorText))).value))
         == Without(args, {"last", "sort"}) + [("sort", CanonicalSort(sort)), ("last", cursorText)]
  {
    SortedNextUrlDecodesToken(baseUrl, args, sort, Quote(cursorText));
    UnquoteQuote(cursorText);
  }
}
