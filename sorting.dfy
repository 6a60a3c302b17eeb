/**
 * The sort-specification parser: a query value `key[:direction],...` becomes
 * an ordered list of `(key, direction)` pairs, each key checked against the
 * endpoint's whitelist of sortable fields; and the canonical `key:direction`
 * join that the next-page URL carries, which parses back to the same list.
 */
module Sorting {
  import opened Text
  import opened Errors

  datatype Direction = Asc | Desc

  /** The direction as it is stored in the parsed list and written into the next URL. */
  function DirectionName(d: Direction): string {
    match d
    case Asc => "asc"
    case Desc => "desc"
  }

  /** The Python type a whitelist associates with a sortable field. */
  datatype SortKeyType = IntKey | StrKey | FloatKey | ListKey

  type Whitelist = map<string, SortKeyType>

  /** Sortable fields of the structural-variant region endpoint. */
  const AllowedSvSortKeys: Whitelist := map[
    "pos" := IntKey, "stop" := IntKey, "support" := IntKey, "avglen" := IntKey,
    "filter" := StrKey, "qual" := FloatKey, "type" := StrKey, "variant_id" := StrKey]

  /** Sortable fields of the SNV region and gene endpoints. */
  const AllowedSnvSortKeys: Whitelist := map[
    "pos" := IntKey, "filter" := StrKey, "qual" := FloatKey, "variant_id" := StrKey,
    "allele_num" := IntKey, "allele_freq" := FloatKey, "hom_count" := IntKey,
    "het_count" := IntKey, "cadd_phred" := FloatKey,
    "annotation.region.lof" := ListKey, "annotation.region.consequence" := ListKey,
    "annotation.gene.lof" := ListKey, "annotation.gene.consequence" := ListKey]

  /** An ordered sort specification. */
  type SortSpec = seq<(string, Direction)>

  /** Direction normalisation on the trimmed, lower-cased direction token. */
  function NormaliseDirection(d: string): Result<Direction> {
    if d == "" || d == "asc" || d == "1" then Ok(Asc)
    else if d == "desc" || d == "-1" then Ok(Desc)
    else Err(UnknownSortDirection(d))
  }

  /**
   * `''`, `'asc'` and `'1'` mean ascending, `'desc'` and `'-1'` descending, and
   * anything else is rejected with the token in the message.
   */
  lemma DirectionNormalisation(d: string)
    ensures NormaliseDirection(d) == Ok(Asc) <==> d in {"", "asc", "1"}
    ensures NormaliseDirection(d) == Ok(Desc) <==> d in {"desc", "-1"}
    ensures NormaliseDirection(d).Err? <==> d !in {"", "asc", "1", "desc", "-1"}
    ensures NormaliseDirection(d).Err? ==> NormaliseDirection(d).error == UnknownSortDirection(d)
  {
  }

  /** The canonical name of a direction normalises back to that direction. */
  lemma DirectionNameNormalises(d: Direction)
    ensures NormaliseDirection(DirectionName(d)) == Ok(d)
  {
  }

  /**
   * One comma piece: trimmed and split on `:`, at most two tokens, the first
   * (trimmed, lower-cased) a whitelisted key, the second (trimmed, lower-cased,
   * empty when absent) a direction.
   */
  function ParseSortPiece(piece: string, allowed: Whitelist): Result<(string, Direction)> {
    var tokens := Split(Strip(piece), ':');
    if |tokens| == 0 || |tokens| > 2 then Err(InvalidSyntax)
    else
      var key := Lower(Strip(tokens[0]));
      if key !in allowed then Err(UnsupportedSortKey(key))
      else
        var direction := if |tokens| > 1 then Lower(Strip(tokens[1])) else "";
        match NormaliseDirection(direction)
        case Err(e) => Err(e)
        case Ok(d) => Ok((key, d))
  }

  /** A piece with two or more `:` is a syntax error. */
  lemma SortPieceTooManyColons(piece: string, allowed: Whitelist)
    requires Count(Strip(piece), ':') > 1
    ensures ParseSortPiece(piece, allowed) == Err(InvalidSyntax)
  {
  }

  /** An accepted key is in the whitelist. */
  lemma SortPieceKey(piece: string, allowed: Whitelist)
    requires ParseSortPiece(piece, allowed).Ok?
    ensures ParseSortPiece(piece, allowed).value.0 in allowed
  {
  }

  /** An accepted key is the piece's first `:` token, trimmed and lower-cased. */
  lemma SortPieceKeyNormalised(piece: string, allowed: Whitelist)
    requires ParseSortPiece(piece, allowed).Ok?
    ensures ParseSortPiece(piece, allowed).value.0 == Lower(Strip(Split(Strip(piece), ':')[0]))
  {
  }

  /** A key rejected as unsupported is not in the whitelist. */
  lemma SortPieceUnsupportedKey(piece: string, allowed: Whitelist)
    requires ParseSortPiece(piece, allowed).Err? && ParseSortPiece(piece, allowed).error.UnsupportedSortKey?
    ensures ParseSortPiece(piece, allowed).error.key !in allowed
  {
  }

  /** A piece of one or two tokens whose key is not whitelisted is rejected, naming that key. */
  lemma SortPieceRejectsUnlisted(piece: string, allowed: Whitelist)
    requires 1 <= |Split(Strip(piece), ':')| <= 2
    requires Lower(Strip(Split(Strip(piece), ':')[0])) !in allowed
    ensures ParseSortPiece(piece, allowed) == Err(UnsupportedSortKey(Lower(Strip(Split(Strip(piece), ':')[0]))))
  {
  }

  /**
   * A piece of two `:` tokens with a whitelisted key takes as its direction
   * the second token, trimmed and lower-cased, and normalised.
   */
  lemma SortPieceDirection(piece: string, allowed: Whitelist, d: Direction)
    requires |Split(Strip(piece), ':')| == 2
    requires Lower(Strip(Split(Strip(piece), ':')[0])) in allowed
    requires NormaliseDirection(Lower(Strip(Split(Strip(piece), ':')[1]))) == Ok(d)
    ensures ParseSortPiece(piece, allowed) == Ok((Lower(Strip(Split(Strip(piece), ':')[0])), d))
  {
  }

  /**
   * A piece of two `:` tokens with a whitelisted key and a direction that is
   * none of the five accepted ones fails with "unknown sort direction",
   * naming the trimmed, lower-cased direction.
   */
  lemma SortPieceUnknownDirection(piece: string, allowed: Whitelist)
    requires |Split(Strip(piece), ':')| == 2
    requires Lower(Strip(Split(Strip(piece), ':')[0])) in allowed
    requires NormaliseDirection(Lower(Strip(Split(Strip(piece), ':')[1]))).Err?
    ensures ParseSortPiece(piece, allowed) == Err(UnknownSortDirection(Lower(Strip(Split(Strip(piece), ':')[1]))))
  {
  }

  /** Splitting a piece `key : dir` padded with whitespace gives the key and the direction with their inner padding. */
  lemma PaddedSortPieceTokens(w1: string, key: string, w2: string, w3: string, dir: string, w4: string)
    requires AllSpace(w1) && AllSpace(w2) && AllSpace(w3) && AllSpace(w4)
    requires |key| > 0 && Trimmed(key) && ':' !in key
    requires |dir| > 0 && Trimmed(dir) && ':' !in dir
    ensures Split(Strip(w1 + key + w2 + ":" + w3 + dir + w4), ':') == [key + w2, w3 + dir]
  {
    PaddedSortPieceStrips(w1, key, w2, w3, dir, w4);
    SortPieceBodySplits(key, w2, w3, dir);
  }

  /** Stripping such a piece leaves `key`, the inner padding, `:` and `dir`. */
  lemma PaddedSortPieceStrips(w1: string, key: string, w2: string, w3: string, dir: string, w4: string)
    requires AllSpace(w1) && AllSpace(w4)
    requires |key| > 0 && Trimmed(key)
    requires |dir| > 0 && Trimmed(dir)
    ensures Strip(w1 + key + w2 + ":" + w3 + dir + w4) == (key + w2) + [':'] + (w3 + dir)
  {
    var body := (key + w2) + [':'] + (w3 + dir);
    assert w1 + key + w2 + ":" + w3 + dir + w4 == w1 + body + w4;
    assert body[0] == key[0] && body[|body| - 1] == dir[|dir| - 1];
    StripSurrounded(w1, body, w4);
  }

  /** The stripped piece splits at its one `:`. */
  lemma SortPieceBodySplits(key: string, w2: string, w3: string, dir: string)
    requires AllSpace(w2) && AllSpace(w3)
    requires ':' !in key && ':' !in dir
    ensures Split((key + w2) + [':'] + (w3 + dir), ':') == [key + w2, w3 + dir]
  {
    SplitTwo(key + w2, w3 + dir, ':');
  }

  /**
   * Letter case and whitespace around the tokens do not matter: a piece
   * `key : dir`, padded with any whitespace, sorts by the lower-cased key in
   * the direction the lower-cased `dir` names.
   */
  lemma PaddedSortPiece(w1: string, key: string, w2: string, w3: string, dir: string, w4: string, allowed: Whitelist, d: Direction)
    requires AllSpace(w1) && AllSpace(w2) && AllSpace(w3) && AllSpace(w4)
    requires |key| > 0 && Trimmed(key) && ':' !in key
    requires |dir| > 0 && Trimmed(dir) && ':' !in dir
    requires Lower(key) in allowed && NormaliseDirection(Lower(dir)) == Ok(d)
    ensures ParseSortPiece(w1 + key + w2 + ":" + w3 + dir + w4, allowed) == Ok((Lower(key), d))
  {
    PaddedSortPieceTokens(w1, key, w2, w3, dir, w4);
    StripTrailingSpace(key, w2);
    StripLeadingSpace(w3, dir);
    SortPieceDirection(w1 + key + w2 + ":" + w3 + dir + w4, allowed, d);
  }

  /** The same piece with a direction none of the five is rejected, naming the lower-cased direction. */
  lemma PaddedSortPieceUnknownDirection(w1: string, key: string, w2: string, w3: string, dir: string, w4: string, allowed: Whitelist)
    requires AllSpace(w1) && AllSpace(w2) && AllSpace(w3) && AllSpace(w4)
    requires |key| > 0 && Trimmed(key) && ':' !in key
    requires |dir| > 0 && Trimmed(dir) && ':' !in dir
    requires Lower(key) in allowed && NormaliseDirection(Lower(dir)).Err?
    ensures ParseSortPiece(w1 + key + w2 + ":" + w3 + dir + w4, allowed) == Err(UnknownSortDirection(Lower(dir)))
  {
    PaddedSortPieceTokens(w1, key, w2, w3, dir, w4);
    StripTrailingSpace(key, w2);
    StripLeadingSpace(w3, dir);
    SortPieceUnknownDirection(w1 + key + w2 + ":" + w3 + dir + w4, allowed);
  }

  /** `" pos : DESC "` sorts by `pos`, descending. */
  lemma MixedCaseSortPiece()
    ensures ParseSortPiece(" " + "pos" + " " + ":" + " " + "DESC" + " ", AllowedSvSortKeys) == Ok(("pos", Desc))
  {
    var key, dir := "pos", "DESC";
    LowerKeeps(key);
    assert Lower(dir) == "desc";
    PaddedSortPiece(" ", key, " ", " ", dir, " ", AllowedSvSortKeys, Desc);
  }

  /** `"POS:Down"` is rejected with the lower-cased direction `down`. */
  lemma UnknownSortDirectionLowered()
    ensures ParseSortPiece("" + "POS" + "" + ":" + "" + "Down" + "", AllowedSvSortKeys) == Err(UnknownSortDirection("down"))
  {
    var key, dir := "POS", "Down";
    assert Lower(key) == "pos";
    assert Lower(dir) == "down";
    PaddedSortPieceUnknownDirection("", key, "", "", dir, "", AllowedSvSortKeys);
  }

  /** A piece without `:` sorts ascending. */
  lemma SortPieceDefaultsToAscending(piece: string, allowed: Whitelist)
    requires Count(Strip(piece), ':') == 0
    requires ParseSortPiece(piece, allowed).Ok?
    ensures ParseSortPiece(piece, allowed).value.1 == Asc
  {
  }

  /** The outcome of parsing one comma piece. */
  type PieceResult = Result<(string, Direction)>

  /** Each comma piece parsed on its own, in order. */
  function PieceResults(pieces: seq<string>, allowed: Whitelist): (r: seq<PieceResult>)
    ensures |r| == |pieces|
  {
    if |pieces| == 0 then [] else [ParseSortPiece(pieces[0], allowed)] + PieceResults(pieces[1..], allowed)
  }

  lemma {:induction false} PieceResultAt(pieces: seq<string>, allowed: Whitelist, i: nat)
    requires i < |pieces|
    ensures PieceResults(pieces, allowed)[i] == ParseSortPiece(pieces[i], allowed)
  {
    var r := PieceResults(pieces, allowed);
    assert r == [ParseSortPiece(pieces[0], allowed)] + PieceResults(pieces[1..], allowed);
    if i > 0 {
      PieceResultAt(pieces[1..], allowed, i - 1);
      assert pieces[1..][i - 1] == pieces[i];
    }
  }

  /** The loop over the parsed pieces: append each pair to `acc`, stop at the first error. */
  function SortFrom(rs: seq<PieceResult>, acc: SortSpec): Result<SortSpec> {
    if |rs| == 0 then Ok(acc)
    else if rs[0].Err? then Err(rs[0].error)
    else SortFrom(rs[1..], acc + [rs[0].value])
  }

  /** The whole sort argument. */
  function ParseSort(values: string, allowed: Whitelist): Result<SortSpec> {
    var v := Strip(values);
    if |v| == 0 then Err(EmptyArgument)
    else SortFrom(PieceResults(Split(v, ','), allowed), [])
  }

  /**
   * Reference semantics: the list of all the pieces' pairs, or the error of
   * the first piece that fails.
   */
  function Collect(rs: seq<PieceResult>): Result<SortSpec> {
    if |rs| == 0 then Ok([])
    else if rs[0].Err? then Err(rs[0].error)
    else
      match Collect(rs[1..])
      case Err(e) => Err(e)
      case Ok(rest) => Ok([rs[0].value] + rest)
  }

  /** The reference list exists exactly when every piece parses. */
  lemma {:induction false} CollectOk(rs: seq<PieceResult>)
    ensures Collect(rs).Ok? <==> forall i :: 0 <= i < |rs| ==> rs[i].Ok?
  {
    if |rs| > 0 {
      CollectOk(rs[1..]);
      assert forall i :: 1 <= i < |rs| ==> rs[i] == rs[1..][i - 1];
    }
  }

  /** The reference list holds one pair per piece, in order. */
  lemma {:induction false} CollectPointwise(rs: seq<PieceResult>)
    requires Collect(rs).Ok?
    ensures |Collect(rs).value| == |rs|
    ensures forall i :: 0 <= i < |rs| ==> rs[i] == Ok(Collect(rs).value[i])
  {
    if |rs| > 0 {
      CollectPointwise(rs[1..]);
      var r := Collect(rs).value;
      assert r[1..] == Collect(rs[1..]).value;
      assert forall i :: 1 <= i < |rs| ==> rs[i] == rs[1..][i - 1] && r[i] == r[1..][i - 1];
    }
  }

  /** A failing reference parse carries the error of the first piece that fails. */
  lemma {:induction false} CollectFirstError(rs: seq<PieceResult>)
    requires Collect(rs).Err?
    ensures exists k :: 0 <= k < |rs| && rs[k] == Err(Collect(rs).error) && forall j :: 0 <= j < k ==> rs[j].Ok?
  {
    if rs[0].Ok? {
      CollectFirstError(rs[1..]);
      var k :| 0 <= k < |rs[1..]| && rs[1..][k] == Err(Collect(rs[1..]).error) && forall j :: 0 <= j < k ==> rs[1..][j].Ok?;
      assert forall j :: 1 <= j <= k + 1 ==> rs[j] == rs[1..][j - 1];
    }
  }

  /** The accumulating loop appends exactly the reference list to what it started with. */
  lemma {:induction false} SortFromMatchesCollect(rs: seq<PieceResult>, acc: SortSpec)
    ensures SortFrom(rs, acc) == if Collect(rs).Ok? then Ok(acc + Collect(rs).value) else Err(Collect(rs).error)
  {
    if |rs| == 0 {
      assert acc + [] == acc;
    } else if rs[0].Ok? {
      SortFromMatchesCollect(rs[1..], acc + [rs[0].value]);
      if Collect(rs[1..]).Ok? {
        assert acc + [rs[0].value] + Collect(rs[1..]).value == acc + ([rs[0].value] + Collect(rs[1..]).value);
      }
    }
  }

  /** A sort argument that is empty after trimming is rejected. */
  lemma SortRejectsBlank(values: string, allowed: Whitelist)
    requires forall i :: 0 <= i < |values| ==> IsSpace(values[i])
    ensures ParseSort(values, allowed) == Err(EmptyArgument)
  {
    StripEmptyIff(values);
  }

  /** A non-blank sort argument parses as the reference list of its comma pieces. */
  lemma SortPieces(values: string, allowed: Whitelist)
    requires |Strip(values)| > 0
    ensures ParseSort(values, allowed) == Collect(PieceResults(Split(Strip(values), ','), allowed))
  {
    var rs := PieceResults(Split(Strip(values), ','), allowed);
    SortFromMatchesCollect(rs, []);
    if Collect(rs).Ok? {
      assert [] + Collect(rs).value == Collect(rs).value;
    }
  }

  /**
   * A non-blank sort argument parses exactly when each comma piece does, to
   * one pair per piece in input order.
   */
  lemma SortPiecesPointwise(values: string, allowed: Whitelist)
    requires |Strip(values)| > 0
    ensures var pieces := Split(Strip(values), ',');
      ParseSort(values, allowed).Ok? ==>
        |ParseSort(values, allowed).value| == |pieces|
        && forall i :: 0 <= i < |pieces| ==> ParseSortPiece(pieces[i], allowed) == Ok(ParseSort(values, allowed).value[i])
  {
    var pieces := Split(Strip(values), ',');
    var rs := PieceResults(pieces, allowed);
    SortPieces(values, allowed);
    if Collect(rs).Ok? {
      CollectPointwise(rs);
      forall i | 0 <= i < |pieces|
        ensures ParseSortPiece(pieces[i], allowed) == Ok(ParseSort(values, allowed).value[i])
      {
        PieceResultAt(pieces, allowed, i);
      }
    }
  }

  /** A non-blank sort argument that fails reports the error of its first failing comma piece. */
  lemma SortFirstError(values: string, allowed: Whitelist)
    requires |Strip(values)| > 0
    ensures var pieces := Split(Strip(values), ',');
      ParseSort(values, allowed).Err? ==>
        exists k :: 0 <= k < |pieces| && ParseSortPiece(pieces[k], allowed) == Err(ParseSort(values, allowed).error)
          && forall j :: 0 <= j < k ==> ParseSortPiece(pieces[j], allowed).Ok?
  {
    var pieces := Split(Strip(values), ',');
    var rs := PieceResults(pieces, allowed);
    SortPieces(values, allowed);
    if Collect(rs).Err? {
      CollectFirstError(rs);
      var k :| 0 <= k < |rs| && rs[k] == Err(Collect(rs).error) && forall j :: 0 <= j < k ==> rs[j].Ok?;
      PieceResultAt(pieces, allowed, k);
      forall j | 0 <= j < k
        ensures ParseSortPiece(pieces[j], allowed).Ok?
      {
        PieceResultAt(pieces, allowed, j);
      }
    }
  }

  /** A parsed sort list is non-empty and every key in it is whitelisted. */
  lemma ParsedSortWhitelisted(values: string, allowed: Whitelist)
    requires ParseSort(values, allowed).Ok?
    ensures |ParseSort(values, allowed).value| > 0
    ensures forall i :: 0 <= i < |ParseSort(values, allowed).value| ==> ParseSort(values, allowed).value[i].0 in allowed
  {
    var pieces := Split(Strip(values), ',');
    SortPiecesPointwise(values, allowed);
    var s := ParseSort(values, allowed).value;
    forall i | 0 <= i < |s|
      ensures s[i].0 in allowed
    {
      assert ParseSortPiece(pieces[i], allowed).Ok?;
      SortPieceKey(pieces[i], allowed);
    }
  }

  /** The characters a whitelisted field name is made of. */
  predicate KeyChar(c: char) {
    ('a' <= c <= 'z') || c == '_' || c == '.'
  }

  /** A field name that survives trimming, lower-casing and splitting on `,`, `:` and `&`. */
  predicate WellFormedKey(k: string) {
    |k| > 0 && forall i :: 0 <= i < |k| ==> KeyChar(k[i])
  }

  predicate WellFormedWhitelist(allowed: Whitelist) {
    forall k :: k in allowed ==> WellFormedKey(k)
  }

  lemma SharedKeysWellFormed()
    ensures WellFormedKey("pos") && WellFormedKey("filter") && WellFormedKey("qual") && WellFormedKey("variant_id")
  {
  }

  lemma SvKeysWellFormed()
    ensures WellFormedKey("stop") && WellFormedKey("support") && WellFormedKey("avglen") && WellFormedKey("type")
  {
  }

  lemma SnvCountKeysWellFormed()
    ensures WellFormedKey("allele_num") && WellFormedKey("allele_freq") && WellFormedKey("hom_count")
    ensures WellFormedKey("het_count") && WellFormedKey("cadd_phred")
  {
  }

  lemma AnnotationKeysWellFormed()
    ensures WellFormedKey("annotation.region.lof") && WellFormedKey("annotation.region.consequence")
    ensures WellFormedKey("annotation.gene.lof") && WellFormedKey("annotation.gene.consequence")
  {
  }

  lemma SvKeys()
    ensures AllowedSvSortKeys.Keys == {"pos", "stop", "support", "avglen", "filter", "qual", "type", "variant_id"}
  {
  }

  lemma SnvKeys()
    ensures AllowedSnvSortKeys.Keys == {
      "pos", "filter", "qual", "variant_id", "allele_num", "allele_freq", "hom_count", "het_count", "cadd_phred",
      "annotation.region.lof", "annotation.region.consequence", "annotation.gene.lof", "annotation.gene.consequence"}
  {
  }

  /** The structural-variant whitelist names its fields in lower-case letters, `_` and `.` only. */
  lemma SvWhitelistWellFormed()
    ensures WellFormedWhitelist(AllowedSvSortKeys)
  {
    SvKeys();
    SharedKeysWellFormed();
    SvKeysWellFormed();
  }

  /** So does the SNV whitelist. */
  lemma SnvWhitelistWellFormed()
    ensures WellFormedWhitelist(AllowedSnvSortKeys)
  {
    SnvKeys();
    SharedKeysWellFormed();
    SnvCountKeysWellFormed();
    AnnotationKeysWellFormed();
  }

  /** The canonical `key:direction` pieces of a sort list. */
  function CanonicalPieces(sort: SortSpec): (r: seq<string>)
    ensures |r| == |sort|
    ensures forall i :: 0 <= i < |sort| ==> r[i] == sort[i].0 + ":" + DirectionName(sort[i].1)
  {
    if |sort| == 0 then [] else [sort[0].0 + ":" + DirectionName(sort[0].1)] + CanonicalPieces(sort[1..])
  }

  /** The sort list as the next URL writes it: `key:direction` pairs joined by commas. */
  function CanonicalSort(sort: SortSpec): string {
    Join(CanonicalPieces(sort), ',')
  }

  /** A well-formed key is already trimmed and lower-case, and holds neither `:` nor `,`. */
  lemma WellFormedKeyNormal(key: string)
    requires WellFormedKey(key)
    ensures Lower(Strip(key)) == key
    ensures ':' !in key && ',' !in key
  {
    WellFormedKeyTrimmed(key);
    WellFormedKeyLower(key);
    WellFormedKeyAvoids(key);
  }

  lemma WellFormedKeyTrimmed(key: string)
    requires WellFormedKey(key)
    ensures Strip(key) == key
  {
    assert KeyChar(key[0]) && KeyChar(key[|key| - 1]);
    StripOfTrimmed(key);
  }

  lemma WellFormedKeyLower(key: string)
    requires WellFormedKey(key)
    ensures Lower(key) == key
  {
    assert forall i :: 0 <= i < |key| ==> KeyChar(key[i]);
    LowerKeeps(key);
  }

  lemma WellFormedKeyAvoids(key: string)
    requires WellFormedKey(key)
    ensures ':' !in key && ',' !in key
  {
    assert forall i :: 0 <= i < |key| ==> KeyChar(key[i]);
  }

  /** A direction name is already trimmed and lower-case. */
  lemma DirectionNameNormal(d: Direction)
    ensures Lower(Strip(DirectionName(d))) == DirectionName(d)
  {
    StripOfTrimmed(DirectionName(d));
    LowerKeeps(DirectionName(d));
  }

  /** A canonical piece is already trimmed. */
  lemma CanonicalPieceTrimmed(key: string, d: Direction)
    requires WellFormedKey(key)
    ensures Strip(key + ":" + DirectionName(d)) == key + ":" + DirectionName(d)
  {
    CanonicalPieceEnds(key, d);
    StripOfTrimmed(key + ":" + DirectionName(d));
  }

  /** A canonical piece starts with its key's first letter and ends with its direction's last, neither of them a space. */
  lemma CanonicalPieceEnds(key: string, d: Direction)
    requires WellFormedKey(key)
    ensures var piece := key + ":" + DirectionName(d);
      |piece| > 0 && !IsSpace(piece[0]) && !IsSpace(piece[|piece| - 1]) && Trimmed(piece)
  {
    var name := DirectionName(d);
    var piece := key + ":" + name;
    assert piece[0] == key[0] && piece[|piece| - 1] == name[|name| - 1];
    assert KeyChar(key[0]);
  }

  /** A canonical piece is trimmed and splits on `:` into its key and its direction name. */
  lemma CanonicalPieceTokens(key: string, d: Direction)
    requires WellFormedKey(key)
    ensures Split(Strip(key + ":" + DirectionName(d)), ':') == [key, DirectionName(d)]
  {
    var name := DirectionName(d);
    CanonicalPieceTrimmed(key, d);
    assert key + ":" + name == key + [':'] + name;
    WellFormedKeyNormal(key);
    SplitTwo(key, name, ':');
  }

  /** A canonical piece parses back to its pair. */
  lemma CanonicalPieceReparses(key: string, d: Direction, allowed: Whitelist)
    requires key in allowed && WellFormedKey(key)
    ensures ParseSortPiece(key + ":" + DirectionName(d), allowed) == Ok((key, d))
  {
    CanonicalPieceTokens(key, d);
    WellFormedKeyNormal(key);
    DirectionNameNormal(d);
    DirectionNameNormalises(d);
  }

  /** A sort list as the outcomes of pieces that all parse. */
  function Oks(sort: SortSpec): (r: seq<PieceResult>)
    ensures |r| == |sort|
  {
    if |sort| == 0 then [] else [Ok(sort[0])] + Oks(sort[1..])
  }

  lemma {:induction false} SortFromOks(sort: SortSpec, acc: SortSpec)
    ensures SortFrom(Oks(sort), acc) == Ok(acc + sort)
  {
    if |sort| == 0 {
      assert acc + [] == acc;
    } else {
      assert Oks(sort)[1..] == Oks(sort[1..]);
      SortFromOks(sort[1..], acc + [sort[0]]);
      assert acc + [sort[0]] + sort[1..] == acc + sort;
    }
  }

  /** The canonical pieces of a whitelisted sort list parse back to it, one by one. */
  lemma {:induction false} CanonicalPiecesReparse(sort: SortSpec, allowed: Whitelist)
    requires WellFormedWhitelist(allowed)
    requires forall i :: 0 <= i < |sort| ==> sort[i].0 in allowed
    ensures PieceResults(CanonicalPieces(sort), allowed) == Oks(sort)
  {
    if |sort| > 0 {
      var pieces := CanonicalPieces(sort);
      assert pieces[1..] == CanonicalPieces(sort[1..]);
      CanonicalPieceReparses(sort[0].0, sort[0].1, allowed);
      CanonicalPiecesReparse(sort[1..], allowed);
    }
  }

  /** One canonical piece with a well-formed key is non-empty and free of `,`. */
  lemma CanonicalPieceAvoidsComma(key: string, d: Direction)
    requires WellFormedKey(key)
    ensures ',' !in key + ":" + DirectionName(d) && |key + ":" + DirectionName(d)| > 0
  {
    WellFormedKeyAvoids(key);
  }

  /** The canonical pieces of a sort list with well-formed keys are non-empty and free of `,`. */
  lemma CanonicalPiecesAvoidComma(sort: SortSpec)
    requires forall i :: 0 <= i < |sort| ==> WellFormedKey(sort[i].0)
    ensures forall i :: 0 <= i < |sort| ==> ',' !in CanonicalPieces(sort)[i] && |CanonicalPieces(sort)[i]| > 0
  {
    var pieces := CanonicalPieces(sort);
    forall i | 0 <= i < |sort|
      ensures ',' !in pieces[i] && |pieces[i]| > 0
    {
      CanonicalPieceAvoidsComma(sort[i].0, sort[i].1);
    }
  }

  /** The canonical string of a non-empty sort list with well-formed keys is non-empty and trimmed. */
  lemma CanonicalSortIsTrimmed(sort: SortSpec)
    requires |sort| > 0
    requires forall i :: 0 <= i < |sort| ==> WellFormedKey(sort[i].0)
    ensures |CanonicalSort(sort)| > 0 && Trimmed(CanonicalSort(sort))
  {
    var pieces := CanonicalPieces(sort);
    var n := |sort| - 1;
    assert |pieces[0]| > 0 && !IsSpace(pieces[0][0]) by {
      CanonicalPieceEnds(sort[0].0, sort[0].1);
    }
    assert |pieces[n]| > 0 && !IsSpace(pieces[n][|pieces[n]| - 1]) by {
      CanonicalPieceEnds(sort[n].0, sort[n].1);
    }
    JoinTrimmed(pieces, ',');
  }

  /** A trimmed, non-empty argument whose comma pieces all parse reads back as their pairs. */
  lemma ParseSortOfPieces(values: string, allowed: Whitelist, pieces: seq<string>, sort: SortSpec)
    requires Strip(values) == values && |values| > 0
    requires Split(values, ',') == pieces
    requires SortFrom(PieceResults(pieces, allowed), []) == Ok(sort)
    ensures ParseSort(values, allowed) == Ok(sort)
  {
  }

  /** The canonical string of a non-empty whitelisted sort list parses back to that list. */
  lemma CanonicalSortReparses(sort: SortSpec, allowed: Whitelist)
    requires |sort| > 0
    requires WellFormedWhitelist(allowed)
    requires forall i :: 0 <= i < |sort| ==> sort[i].0 in allowed
    ensures ParseSort(CanonicalSort(sort), allowed) == Ok(sort)
  {
    var pieces := CanonicalPieces(sort);
    CanonicalSortIsTrimmed(sort);
    StripOfTrimmed(CanonicalSort(sort));
    CanonicalPiecesAvoidComma(sort);
    JoinSplit(pieces, ',');
    CanonicalPiecesReparse(sort, allowed);
    SortFromOks(sort, []);
    assert [] + sort == sort;
    ParseSortOfPieces(CanonicalSort(sort), allowed, pieces, sort);
  }

  /**
   * Parsing is idempotent through the canonical form: whatever a sort argument
   * parses to, its canonical string parses to the same list.
   */
  lemma SortIdempotent(values: string, allowed: Whitelist)
    requires WellFormedWhitelist(allowed)
    requires ParseSort(values, allowed).Ok?
    ensures ParseSort(CanonicalSort(ParseSort(values, allowed).value), allowed) == ParseSort(values, allowed)
  {
    ParsedSortWhitelisted(values, allowed);
    CanonicalSortReparses(ParseSort(values, allowed).value, allowed);
  }

  /** The same for the two endpoint whitelists. */
  lemma WhitelistedSortIdempotent(values: string)
    ensures ParseSort(values, AllowedSvSortKeys).Ok? ==>
      ParseSort(CanonicalSort(ParseSort(values, AllowedSvSortKeys).value), AllowedSvSortKeys) == ParseSort(values, AllowedSvSortKeys)
    ensures ParseSort(values, AllowedSnvSortKeys).Ok? ==>
      ParseSort(CanonicalSort(ParseSort(values, AllowedSnvSortKeys).value), AllowedSnvSortKeys) == ParseSort(values, AllowedSnvSortKeys)
  {
    SvWhitelistWellFormed();
    SnvWhitelistWellFormed();
    if ParseSort(values, AllowedSvSortKeys).Ok? {
      SortIdempotent(values, AllowedSvSortKeys);
    }
    if ParseSort(values, AllowedSnvSortKeys).Ok? {
      SortIdempotent(values, AllowedSnvSortKeys);
    }
  }

  /** The empty sort list is written as the empty string, which the parser rejects. */
  lemma EmptySortDoesNotReparse(allowed: Whitelist)
    ensures CanonicalSort([]) == ""
    ensures ParseSort(CanonicalSort([]), allowed) == Err(EmptyArgument)
  {
  }

  /** One step of the loop over the pieces. */
  lemma SortFromStep(rs: seq<PieceResult>, i: nat, acc: SortSpec)
    requires i < |rs|
    ensures rs[i].Err? ==> SortFrom(rs[i..], acc) == Err(rs[i].error)
    ensures rs[i].Ok? ==> SortFrom(rs[i..], acc) == SortFrom(rs[i + 1..], acc + [rs[i].value])
  {
    assert rs[i..][0] == rs[i] && rs[i..][1..] == rs[i + 1..];
  }

  /** The imperative deserialiser: strip, reject a blank argument, then the loop over the comma pieces. */
  method DeserializeQuerySort(values: string, allowed: Whitelist) returns (r: Result<SortSpec>)
    ensures r == ParseSort(values, allowed)
  {
    var v := Strip(values);
    if |v| == 0 {
      return Err(EmptyArgument);
    }
    r := SortPiecesLoop(Split(v, ','), allowed);
  }

  /** The loop of the deserialiser: parse each comma piece in turn and append it to `querySort`, stopping at the first error. */
  method SortPiecesLoop(pieces: seq<string>, allowed: Whitelist) returns (r: Result<SortSpec>)
    ensures r == SortFrom(PieceResults(pieces, allowed), [])
  {
    var querySort: SortSpec := [];
    ghost var rs := PieceResults(pieces, allowed);
    var i := 0;
    assert rs[i..] == rs;
    while i < |pieces|
      invariant 0 <= i <= |pieces|
      invariant SortFrom(rs[i..], querySort) == SortFrom(rs, [])
    {
      var parsed := ParseSortPiece(pieces[i], allowed);
      assert parsed == rs[i] by {
        PieceResultAt(pieces, allowed, i);
      }
      SortFromStep(rs, i, querySort);
      if parsed.Err? {
        return Err(parsed.error);
      }
      querySort := querySort + [parsed.value];
      i := i + 1;
    }
    assert rs[i..] == [];
    return Ok(querySort);
  }
}
