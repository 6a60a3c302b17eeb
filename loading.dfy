/**
 * What the argument parser hands an endpoint, and which part of it the region
 * endpoints pass to the store as their filter. The parser's schema loader
 * stores each loaded field under its name split on `.`, creating a dictionary
 * for each segment but the last: the field `annotation.region.lof` lands at
 * `args['annotation']['region']['lof']`. An endpoint then selects the filter
 * with `{key: args[key] for key in keys if key in args}` over first segments.
 */
module Loading {
  import opened Options
  import opened Text

  /** A loaded field value, or a dictionary keyed by one name segment. */
  datatype Loaded<V> = Value(value: V) | Dict(entries: map<string, Loaded<V>>)

  type Entries<V> = map<string, Loaded<V>>

  /** The segments of a field name, split on `.`. */
  function Path(name: string): (r: seq<string>)
    ensures |r| > 0
  {
    Split(name, '.')
  }

  /** The part of `d` found by following `path`, if there is one. */
  function At<V>(d: Loaded<V>, path: seq<string>): Option<Loaded<V>>
    decreases |path|
  {
    if |path| == 0 then Some(d)
    else if d.Dict? && path[0] in d.entries then At(d.entries[path[0]], path[1..])
    else None
  }

  predicate ValueAt<V>(d: Loaded<V>, path: seq<string>) {
    At(d, path).Some? && At(d, path).value.Value?
  }

  /**
   * The loader's `set_value`: the last segment is assigned; every earlier one
   * is looked up with `setdefault(head, {})`, and a value that is not a
   * dictionary in the way is a `ValueError` (`None`).
   */
  function SetPath<V>(e: Entries<V>, path: seq<string>, v: V): Option<Entries<V>>
    requires |path| > 0
    decreases |path|
  {
    if |path| == 1 then Some(e[path[0] := Value(v)])
    else
      var target := if path[0] in e then e[path[0]] else Dict(map[]);
      if !target.Dict? then None
      else
        match SetPath(target.entries, path[1..], v)
        case None => None
        case Some(sub) => Some(e[path[0] := Dict(sub)])
  }

  /** The loaded fields set one after the other into `e`. */
  function LoadFrom<V>(e: Entries<V>, fields: seq<(string, V)>): Option<Entries<V>>
    decreases |fields|
  {
    if |fields| == 0 then Some(e)
    else
      match SetPath(e, Path(fields[0].0), fields[0].1)
      case None => None
      case Some(e') => LoadFrom(e', fields[1..])
  }

  /** The parsed arguments, from the loaded `(name, value)` fields in schema order. */
  function Load<V>(fields: seq<(string, V)>): Option<Entries<V>> {
    LoadFrom(map[], fields)
  }

  /** Two paths part ways: neither is a prefix of the other. */
  predicate Diverge(p: seq<string>, q: seq<string>) {
    exists i :: 0 <= i < |p| && i < |q| && p[i] != q[i]
  }

  /** Every field's value sits at that field's path. */
  ghost predicate Settled<V>(d: Loaded<V>, fields: seq<(string, V)>) {
    forall i :: 0 <= i < |fields| ==> At(d, Path(fields[i].0)) == Some(Value(fields[i].1))
  }

  /** Every value in `d` is the value of one of `fields`, at that field's path. */
  ghost predicate HoldsOnly<V>(d: Loaded<V>, fields: seq<(string, V)>) {
    forall q :: ValueAt(d, q) ==>
      exists i :: 0 <= i < |fields| && Path(fields[i].0) == q && fields[i].1 == At(d, q).value.value
  }

  /** The paths of any two different fields part ways. */
  predicate Separate<V>(fields: seq<(string, V)>) {
    forall i, j :: 0 <= i < |fields| && 0 <= j < |fields| && i != j ==> Diverge(Path(fields[i].0), Path(fields[j].0))
  }

  /** A set value is found at its path. */
  lemma {:induction false} SetPathAt<V>(e: Entries<V>, p: seq<string>, v: V)
    requires |p| > 0 && SetPath(e, p, v).Some?
    ensures At(Dict(SetPath(e, p, v).value), p) == Some(Value(v))
    decreases |p|
  {
    if |p| > 1 {
      var target := if p[0] in e then e[p[0]] else Dict(map[]);
      SetPathAt(target.entries, p[1..], v);
    }
  }

  /** Setting a value leaves every path that parts ways with it as it was. */
  lemma {:induction false} SetPathElsewhere<V>(e: Entries<V>, p: seq<string>, v: V, q: seq<string>)
    requires |p| > 0 && SetPath(e, p, v).Some?
    requires Diverge(p, q)
    ensures At(Dict(SetPath(e, p, v).value), q) == At(Dict(e), q)
    decreases |p|
  {
    if p[0] == q[0] {
      var i :| 0 <= i < |p| && i < |q| && p[i] != q[i];
      assert Diverge(p[1..], q[1..]) by {
        assert p[1..][i - 1] != q[1..][i - 1];
      }
      var target := if p[0] in e then e[p[0]] else Dict(map[]);
      SetPathElsewhere(target.entries, p[1..], v, q[1..]);
    }
  }

  /** After setting a value at `p`, a value anywhere else was there before. */
  lemma {:induction false} SetPathValues<V>(e: Entries<V>, p: seq<string>, v: V, q: seq<string>)
    requires |p| > 0 && SetPath(e, p, v).Some?
    requires ValueAt(Dict(SetPath(e, p, v).value), q)
    ensures q == p || At(Dict(e), q) == At(Dict(SetPath(e, p, v).value), q)
    decreases |p|
  {
    var e' := SetPath(e, p, v).value;
    assert |q| > 0;
    if q[0] == p[0] && |p| > 1 {
      var target := if p[0] in e then e[p[0]] else Dict(map[]);
      var sub := SetPath(target.entries, p[1..], v).value;
      assert At(Dict(e'), q) == At(Dict(sub), q[1..]);
      SetPathValues(target.entries, p[1..], v, q[1..]);
      if q[1..] == p[1..] {
        assert q == [q[0]] + q[1..] && p == [p[0]] + p[1..];
      }
    } else if q[0] == p[0] {
      assert At(Dict(e'), q) == At(Value(v), q[1..]);
      assert q == [q[0]] + q[1..] && p == [p[0]];
    }
  }

  /** Setting succeeds when no value sits at a proper prefix of the path. */
  lemma {:induction false} SetPathSucceeds<V>(e: Entries<V>, p: seq<string>, v: V)
    requires |p| > 0
    requires forall k :: 0 < k < |p| ==> !ValueAt(Dict(e), p[..k])
    ensures SetPath(e, p, v).Some?
    decreases |p|
  {
    if |p| > 1 {
      assert At(Dict(e), p[..1]) == if p[0] in e then Some(e[p[0]]) else None by {
        assert p[..1][0] == p[0] && p[..1][1..] == [];
      }
      var target := if p[0] in e then e[p[0]] else Dict(map[]);
      forall k | 0 < k < |p| - 1
        ensures !ValueAt(Dict(target.entries), p[1..][..k])
      {
        assert p[..k + 1][0] == p[0] && p[..k + 1][1..] == p[1..][..k];
        assert !ValueAt(Dict(e), p[..k + 1]);
      }
      SetPathSucceeds(target.entries, p[1..], v);
    }
  }

  /** A path that parts ways with `p` is not a proper prefix of it. */
  lemma PrefixDoesNotDiverge(p: seq<string>, k: nat)
    requires k <= |p|
    ensures !Diverge(p[..k], p)
  {
  }

  /** A prefix of fields whose paths part ways pairwise parts ways pairwise. */
  lemma SeparatePrefix<V>(all: seq<(string, V)>, n: nat)
    requires n <= |all| && Separate(all)
    ensures Separate(all[..n])
  {
    forall i, j | 0 <= i < n && 0 <= j < n && i != j
      ensures Diverge(Path(all[..n][i].0), Path(all[..n][j].0))
    {
      assert all[..n][i] == all[i] && all[..n][j] == all[j];
    }
  }

  /** When the loaded fields part ways with the next one, no value sits on a proper prefix of its path. */
  lemma NoValueOnPrefix<V>(e: Entries<V>, done: seq<(string, V)>, f: (string, V))
    requires Separate(done + [f]) && HoldsOnly(Dict(e), done)
    ensures forall k :: 0 < k < |Path(f.0)| ==> !ValueAt(Dict(e), Path(f.0)[..k])
  {
    var all := done + [f];
    var p := Path(f.0);
    assert all[|done|] == f;
    forall k | 0 < k < |p|
      ensures !ValueAt(Dict(e), p[..k])
    {
      if ValueAt(Dict(e), p[..k]) {
        var i :| 0 <= i < |done| && Path(done[i].0) == p[..k] && done[i].1 == At(Dict(e), p[..k]).value.value;
        assert all[i] == done[i];
        assert Diverge(Path(all[i].0), Path(all[|done|].0));
        PrefixDoesNotDiverge(p, k);
        assert false;
      }
    }
  }

  /** Setting the next field keeps the earlier ones at their paths and puts it at its own. */
  lemma SettledAfterSet<V>(e: Entries<V>, done: seq<(string, V)>, f: (string, V))
    requires Separate(done + [f]) && Settled(Dict(e), done)
    requires SetPath(e, Path(f.0), f.1).Some?
    ensures Settled(Dict(SetPath(e, Path(f.0), f.1).value), done + [f])
  {
    var p := Path(f.0);
    var e' := SetPath(e, p, f.1).value;
    var done' := done + [f];
    forall i | 0 <= i < |done'|
      ensures At(Dict(e'), Path(done'[i].0)) == Some(Value(done'[i].1))
    {
      if i < |done| {
        assert done'[i] == done[i];
        assert done'[|done|] == f;
        assert Diverge(Path(done'[|done|].0), Path(done'[i].0));
        SetPathElsewhere(e, p, f.1, Path(done[i].0));
      } else {
        SetPathAt(e, p, f.1);
      }
    }
  }

  /** After setting the next field, every value is that field's or an earlier one's. */
  lemma HoldsOnlyAfterSet<V>(e: Entries<V>, done: seq<(string, V)>, f: (string, V))
    requires HoldsOnly(Dict(e), done)
    requires SetPath(e, Path(f.0), f.1).Some?
    ensures HoldsOnly(Dict(SetPath(e, Path(f.0), f.1).value), done + [f])
  {
    var p := Path(f.0);
    var e' := SetPath(e, p, f.1).value;
    var done' := done + [f];
    forall q | ValueAt(Dict(e'), q)
      ensures exists i :: 0 <= i < |done'| && Path(done'[i].0) == q && done'[i].1 == At(Dict(e'), q).value.value
    {
      SetPathValues(e, p, f.1, q);
      if q == p {
        SetPathAt(e, p, f.1);
        assert done'[|done|] == f;
      } else {
        var i :| 0 <= i < |done| && Path(done[i].0) == q && done[i].1 == At(Dict(e), q).value.value;
        assert done'[i] == done[i];
      }
    }
  }

  /**
   * Loading fields whose paths part ways pairwise always succeeds; afterwards
   * every field's value is at its path, and nothing else is in the result.
   */
  lemma {:induction false} LoadFromAll<V>(e: Entries<V>, done: seq<(string, V)>, fields: seq<(string, V)>)
    requires Separate(done + fields)
    requires Settled(Dict(e), done) && HoldsOnly(Dict(e), done)
    ensures LoadFrom(e, fields).Some?
    ensures Settled(Dict(LoadFrom(e, fields).value), done + fields)
    ensures HoldsOnly(Dict(LoadFrom(e, fields).value), done + fields)
    decreases |fields|
  {
    if |fields| == 0 {
      assert done + fields == done;
    } else {
      var all := done + fields;
      var f := fields[0];
      var done' := done + [f];
      assert all[..|done| + 1] == done';
      SeparatePrefix(all, |done| + 1);
      NoValueOnPrefix(e, done, f);
      SetPathSucceeds(e, Path(f.0), f.1);
      SettledAfterSet(e, done, f);
      HoldsOnlyAfterSet(e, done, f);
      assert done' + fields[1..] == all;
      LoadFromAll(SetPath(e, Path(f.0), f.1).value, done', fields[1..]);
    }
  }

  /** Loading fields whose paths part ways pairwise succeeds and holds exactly their values, each at its path. */
  lemma LoadAll<V>(fields: seq<(string, V)>)
    requires Separate(fields)
    ensures Load(fields).Some?
    ensures Settled(Dict(Load(fields).value), fields)
    ensures HoldsOnly(Dict(Load(fields).value), fields)
  {
    var empty: Entries<V> := map[];
    assert HoldsOnly(Dict(empty), []) by {
      forall q
        ensures !ValueAt(Dict(empty), q)
      {
        if |q| > 0 {
          assert At(Dict(empty), q) == None;
        }
      }
    }
    assert [] + fields == fields;
    LoadFromAll(empty, [], fields);
  }

  /** `{key: args[key] for key in keys if key in args}`. */
  function SelectFilters<V>(args: Entries<V>, keys: seq<string>): Entries<V> {
    map k | k in args && k in keys :: args[k]
  }

  /** Below the top level, the selection is the arguments themselves where the first segment is selected. */
  lemma SelectAt<V>(args: Entries<V>, keys: seq<string>, q: seq<string>)
    requires |q| > 0
    ensures At(Dict(SelectFilters(args, keys)), q) == if q[0] in keys then At(Dict(args), q) else None
  {
  }

  /**
   * What the store receives as the filter: every given filter field, at its
   * path with its value; no segment of any other given field; and no value
   * that is not a given filter field's.
   */
  ghost predicate StoreGetsFilters<V>(given: seq<(string, V)>, filters: set<string>, keys: seq<string>) {
    Load(given).Some? &&
    var store := Dict(SelectFilters(Load(given).value, keys));
    && (forall i :: 0 <= i < |given| && given[i].0 in filters ==> At(store, Path(given[i].0)) == Some(Value(given[i].1)))
    && (forall i :: 0 <= i < |given| && given[i].0 !in filters ==> Path(given[i].0)[0] !in store.entries)
    && (forall q :: ValueAt(store, q) ==>
          exists i :: 0 <= i < |given| && given[i].0 in filters && Path(given[i].0) == q && given[i].1 == At(store, q).value.value)
  }

  /** The declared field names part ways pairwise. */
  predicate Unambiguous(declared: set<string>) {
    forall a, b :: a in declared && b in declared && a != b ==> Diverge(Path(a), Path(b))
  }

  /** A field is a filter exactly when its first segment is a selected key. */
  predicate SelectsFilters(declared: set<string>, filters: set<string>, keys: seq<string>) {
    forall a :: a in declared ==> (Path(a)[0] in keys <==> a in filters)
  }

  /** Each given name is declared and given once, as the loader's result holds it. */
  predicate GivenOnce<V>(given: seq<(string, V)>, declared: set<string>) {
    && (forall i :: 0 <= i < |given| ==> given[i].0 in declared)
    && (forall i, j :: 0 <= i < j < |given| ==> given[i].0 != given[j].0)
  }

  /**
   * For an endpoint whose declared field names part ways pairwise, and whose
   * selected keys are the first segments of exactly its filter fields, the
   * store receives exactly the given filter fields.
   */
  lemma FiltersReachStore<V>(declared: set<string>, filters: set<string>, keys: seq<string>, given: seq<(string, V)>)
    requires Unambiguous(declared) && SelectsFilters(declared, filters, keys)
    requires GivenOnce(given, declared)
    ensures StoreGetsFilters(given, filters, keys)
  {
    assert Separate(given) by {
      forall i, j | 0 <= i < |given| && 0 <= j < |given| && i != j
        ensures Diverge(Path(given[i].0), Path(given[j].0))
      {
        assert given[i].0 != given[j].0 by {
          if i > j {
            assert given[j].0 != given[i].0;
          }
        }
      }
    }
    LoadAll(given);
    var args := Load(given).value;
    var store := Dict(SelectFilters(args, keys));
    forall i | 0 <= i < |given| && given[i].0 in filters
      ensures At(store, Path(given[i].0)) == Some(Value(given[i].1))
    {
      SelectAt(args, keys, Path(given[i].0));
    }
    forall q | ValueAt(store, q)
      ensures exists i :: 0 <= i < |given| && given[i].0 in filters && Path(given[i].0) == q && given[i].1 == At(store, q).value.value
    {
      assert |q| > 0;
      SelectAt(args, keys, q);
      var i :| 0 <= i < |given| && Path(given[i].0) == q && given[i].1 == At(Dict(args), q).value.value;
      assert given[i].0 in filters;
    }
  }

  lemma DivergeAt(p: seq<string>, q: seq<string>, i: nat)
    requires i < |p| && i < |q| && p[i] != q[i]
    ensures Diverge(p, q)
  {
  }

  /** A name without `.` is a path of one segment. */
  lemma PlainPath(a: string)
    requires '.' !in a
    ensures Path(a) == [a]
  {
    SplitSingle(a, '.');
  }

  /** `a.b.c` is the path `[a, b, c]`. */
  lemma DottedPath(a: string, b: string, c: string)
    requires '.' !in a && '.' !in b && '.' !in c
    ensures Path(Dotted(a, b, c)) == [a, b, c]
  {
    assert a + "." + b + "." + c == a + ['.'] + (b + ['.'] + c);
    SplitAtSeparator(a, b + ['.'] + c, '.');
    SplitTwo(b, c, '.');
  }

  // The declared fields of the three region endpoints, and the keys each selects.

  const RegionSvFields: set<string> := {"chrom", "start", "stop", "filter", "type", "sort", "limit", "last"}
  const RegionSvFilterFields: set<string> := {"type", "filter"}
  const RegionSvFilterKeys: seq<string> := ["type", "filter"]

  /** The dotted field name `a.b.c`. */
  function Dotted(a: string, b: string, c: string): string {
    a + "." + b + "." + c
  }

  /** `annotation.region.lof` and `annotation.region.consequence`. */
  const RegionSnvAnnotationFields: set<string> :=
    {Dotted("annotation", "region", "lof"), Dotted("annotation", "region", "consequence")}
  const RegionSnvPlainFields: set<string> := {"chrom", "start", "stop", "filter", "allele_freq", "sort", "limit", "last"}
  const RegionSnvFields: set<string> := RegionSnvPlainFields + RegionSnvAnnotationFields
  const RegionSnvFilterFields: set<string> := {"filter", "allele_freq"} + RegionSnvAnnotationFields

  /** `annotation.gene.lof` and `annotation.gene.consequence`. */
  const GeneSnvAnnotationFields: set<string> :=
    {Dotted("annotation", "gene", "lof"), Dotted("annotation", "gene", "consequence")}
  const GeneSnvPlainFields: set<string> := {"name", "filter", "allele_freq", "sort", "introns", "limit", "last"}
  const GeneSnvFields: set<string> := GeneSnvPlainFields + GeneSnvAnnotationFields
  const GeneSnvFilterFields: set<string> := {"filter", "allele_freq"} + GeneSnvAnnotationFields

  /** The keys the SNV region and gene endpoints select. */
  const SnvFilterKeys: seq<string> := ["filter", "allele_freq", "annotation"]

  /**
   * The shape of every declared name: one segment, or three segments under
   * `annotation`; and no field is called `annotation` itself.
   */
  predicate Shaped(declared: set<string>) {
    && "annotation" !in declared
    && forall a :: a in declared ==> |Path(a)| == 1 || (|Path(a)| == 3 && Path(a)[0] == "annotation")
  }

  /** Two different paths of the same length part ways. */
  lemma SameLengthDiverge(p: seq<string>, q: seq<string>)
    requires |p| == |q| && p != q
    ensures Diverge(p, q)
  {
    var i :| 0 <= i < |p| && p[i] != q[i];
  }

  /** Names of that shape part ways pairwise. */
  lemma ShapedUnambiguous(declared: set<string>)
    requires Shaped(declared)
    ensures Unambiguous(declared)
  {
    forall a, b | a in declared && b in declared && a != b
      ensures Diverge(Path(a), Path(b))
    {
      SplitJoin(a, '.');
      SplitJoin(b, '.');
      var p, q := Path(a), Path(b);
      assert p != q;
      if |p| == |q| {
        SameLengthDiverge(p, q);
      } else if |p| == 1 {
        assert p[0] == a;
        DivergeAt(p, q, 0);
      } else {
        assert q[0] == b;
        DivergeAt(p, q, 0);
      }
    }
  }

  /** Names without `.` are single segments. */
  lemma PlainPaths(names: set<string>)
    requires forall a :: a in names ==> '.' !in a
    ensures forall a :: a in names ==> Path(a) == [a]
  {
    forall a | a in names
      ensures Path(a) == [a]
    {
      PlainPath(a);
    }
  }

  /** Names of one segment and names under `annotation` together are of that shape. */
  lemma ShapedOf(plain: set<string>, nested: set<string>)
    requires forall a :: a in plain ==> '.' !in a
    requires forall a :: a in nested ==> |Path(a)| == 3 && Path(a)[0] == "annotation"
    requires "annotation" !in plain
    ensures Shaped(plain + nested)
  {
    PlainPaths(plain);
    assert "annotation" !in nested by {
      if "annotation" in nested {
        PlainPath("annotation");
      }
    }
  }

  /** An endpoint selects exactly its filter fields when it selects plain ones by name and every nested one by `annotation`. */
  lemma SelectsOf(plain: set<string>, nested: set<string>, filters: set<string>, keys: seq<string>)
    requires forall a :: a in plain ==> '.' !in a
    requires forall a :: a in nested ==> |Path(a)| == 3 && Path(a)[0] == "annotation"
    requires forall a :: a in plain ==> (a in keys <==> a in filters)
    requires "annotation" in keys && nested <= filters
    ensures SelectsFilters(plain + nested, filters, keys)
  {
    PlainPaths(plain);
  }

  lemma RegionSvNoDots()
    ensures forall a :: a in RegionSvFields ==> '.' !in a
  {
  }

  lemma RegionSvPlainSelected()
    ensures forall a :: a in RegionSvFields ==> (a in RegionSvFilterKeys <==> a in RegionSvFilterFields)
  {
  }

  /** The SV region endpoint hands the store exactly the given `type` and `filter` fields. */
  lemma RegionSvFiltersReachStore<V>(given: seq<(string, V)>)
    requires GivenOnce(given, RegionSvFields)
    ensures StoreGetsFilters(given, RegionSvFilterFields, RegionSvFilterKeys)
  {
    var none: set<string> := {};
    assert RegionSvFields + none == RegionSvFields;
    RegionSvNoDots();
    assert "annotation" !in RegionSvFields;
    ShapedOf(RegionSvFields, none);
    ShapedUnambiguous(RegionSvFields);
    RegionSvPlainSelected();
    PlainPaths(RegionSvFields);
    FiltersReachStore(RegionSvFields, RegionSvFilterFields, RegionSvFilterKeys, given);
  }

  lemma RegionSnvNoDots()
    ensures forall a :: a in RegionSnvPlainFields ==> '.' !in a
  {
  }

  lemma RegionSnvNoBareAnnotation()
    ensures "annotation" !in RegionSnvPlainFields
  {
  }

  lemma RegionSnvPlainSelected()
    ensures forall a :: a in RegionSnvPlainFields ==> (a in SnvFilterKeys <==> a in RegionSnvFilterFields)
  {
  }

  lemma RegionSnvAnnotations()
    ensures forall a :: a in RegionSnvAnnotationFields ==> |Path(a)| == 3 && Path(a)[0] == "annotation"
  {
    forall a | a in RegionSnvAnnotationFields
      ensures |Path(a)| == 3 && Path(a)[0] == "annotation"
    {
      if a == Dotted("annotation", "region", "lof") {
        DottedPath("annotation", "region", "lof");
      } else {
        DottedPath("annotation", "region", "consequence");
      }
    }
  }

  lemma RegionSnvShaped()
    ensures Shaped(RegionSnvFields)
  {
    RegionSnvNoDots();
    RegionSnvAnnotations();
    RegionSnvNoBareAnnotation();
    ShapedOf(RegionSnvPlainFields, RegionSnvAnnotationFields);
  }

  lemma RegionSnvSelects()
    ensures SelectsFilters(RegionSnvFields, RegionSnvFilterFields, SnvFilterKeys)
  {
    RegionSnvNoDots();
    RegionSnvAnnotations();
    RegionSnvPlainSelected();
    SelectsOf(RegionSnvPlainFields, RegionSnvAnnotationFields, RegionSnvFilterFields, SnvFilterKeys);
  }

  /**
   * The SNV region endpoint, selecting `filter`, `allele_freq` and
   * `annotation`, hands the store exactly the given filter fields, the two
   * annotation filters among them, nested under `annotation` and `region`.
   */
  lemma RegionSnvFiltersReachStore<V>(given: seq<(string, V)>)
    requires GivenOnce(given, RegionSnvFields)
    ensures StoreGetsFilters(given, RegionSnvFilterFields, SnvFilterKeys)
  {
    RegionSnvShaped();
    ShapedUnambiguous(RegionSnvFields);
    RegionSnvSelects();
    FiltersReachStore(RegionSnvFields, RegionSnvFilterFields, SnvFilterKeys, given);
  }

  lemma GeneSnvNoDots()
    ensures forall a :: a in GeneSnvPlainFields ==> '.' !in a
  {
  }

  lemma GeneSnvNoBareAnnotation()
    ensures "annotation" !in GeneSnvPlainFields
  {
  }

  lemma GeneSnvPlainSelected()
    ensures forall a :: a in GeneSnvPlainFields ==> (a in SnvFilterKeys <==> a in GeneSnvFilterFields)
  {
  }

  lemma GeneSnvAnnotations()
    ensures forall a :: a in GeneSnvAnnotationFields ==> |Path(a)| == 3 && Path(a)[0] == "annotation"
  {
    forall a | a in GeneSnvAnnotationFields
      ensures |Path(a)| == 3 && Path(a)[0] == "annotation"
    {
      if a == Dotted("annotation", "gene", "lof") {
        DottedPath("annotation", "gene", "lof");
      } else {
        DottedPath("annotation", "gene", "consequence");
      }
    }
  }

  lemma GeneSnvShaped()
    ensures Shaped(GeneSnvFields)
  {
    GeneSnvNoDots();
    GeneSnvAnnotations();
    GeneSnvNoBareAnnotation();
    ShapedOf(GeneSnvPlainFields, GeneSnvAnnotationFields);
  }

  lemma GeneSnvSelects()
    ensures SelectsFilters(GeneSnvFields, GeneSnvFilterFields, SnvFilterKeys)
  {
    GeneSnvNoDots();
    GeneSnvAnnotations();
    GeneSnvPlainSelected();
    SelectsOf(GeneSnvPlainFields, GeneSnvAnnotationFields, GeneSnvFilterFields, SnvFilterKeys);
  }

  /**
   * The SNV gene endpoint, selecting the same keys, hands the store exactly
   * the given filter fields, the annotation filters nested under
   * `annotation` and `gene`.
   */
  lemma GeneSnvFiltersReachStore<V>(given: seq<(string, V)>)
    requires GivenOnce(given, GeneSnvFields)
    ensures StoreGetsFilters(given, GeneSnvFilterFields, SnvFilterKeys)
  {
    GeneSnvShaped();
    ShapedUnambiguous(GeneSnvFields);
    GeneSnvSelects();
    FiltersReachStore(GeneSnvFields, GeneSnvFilterFields, SnvFilterKeys, given);
  }
}
