/**
  The whole of `StructureDataCore.get_kinds`: step 1 clusters the site
  properties (`_to_kinds`), step 2 is the walk of `KindResolution`, step 3
  lets the tags override the generated names and step 4 checks the tags
  against the walk.

  The sites enter as their chemical symbols and one `SiteProperty` per site
  property name, in the order the structure lists them, each holding one value
  per site.
*/
module Kinds {
  import opened Common
  import Clustering
  import opened KindResolution

  /** The values one site property takes on the sites, in site order. */
  datatype SiteProperty = SiteProperty(name: string, values: seq<real>)

  /** The exceptions `get_kinds` can raise. */
  datatype KindsError =
    | MissingThreshold(property: string)    // a `None` threshold divides: TypeError
    | EmptyPropertyArray(property: string)  // `np.min` of no values: ValueError
    | TagIndexOutOfRange(position: nat)     // a falsy tag past the last site: IndexError
    | InconsistentTags                      // step 4's ValueError

  /** Step 1's output: one column of labels per clustered property, and the representatives by name. */
  datatype Columns = Columns(labels: seq<seq<int>>, values: map<string, seq<real>>)

  /** The dictionary `get_kinds` returns. */
  datatype KindsDictionary = KindsDictionary(
    values: map<string, seq<real>>,
    kinds: seq<string>,
    index: seq<int>,
    symbols: seq<string>)

  /** Every property holds one value per site. */
  ghost predicate SitesAgree(symbols: seq<string>, props: seq<SiteProperty>) {
    forall p :: p in props ==> |p.values| == |symbols|
  }

  /** A property takes part in step 1 unless it is fixed or excluded. */
  predicate Clustered(name: string, exclude: seq<string>) {
    name !in ["symbol", "position", "kind_name"] + exclude
  }

  /** The built-in thresholds; any other property has none. */
  function DefaultThreshold(name: string): (thr: Option<real>)
    ensures thr.Some? <==> name == "charge" || name == "mass" || name == "magnetization"
    ensures thr.Some? ==> thr.value > 0.0
  {
    if name == "charge" then Some(0.1)
    else if name == "mass" then Some(0.0001)
    else if name == "magnetization" then Some(0.01)
    else None
  }

  /** `custom_thr.get(name, default_thresholds.get(name))`. */
  function ThresholdOf(name: string, custom: map<string, real>): (thr: Option<real>)
    ensures name in custom ==> thr == Some(custom[name])
    ensures thr.None? <==> name !in custom && name != "charge" && name != "mass" && name != "magnetization"
    ensures name !in custom && thr.Some? ==> thr.value > 0.0
  {
    if name in custom then Some(custom[name]) else DefaultThreshold(name)
  }

  /** `_to_kinds` accepts a property with this threshold. */
  predicate Accepted(values: seq<real>, thr: Option<real>) {
    thr == Some(0.0) || (|values| > 0 && thr.Some?)
  }

  /**
    `_to_kinds` on one property: a zero threshold returns at once, otherwise
    `np.min` fails on no values before a missing threshold is divided by.
  */
  ghost function PropertyKinds(p: SiteProperty, thr: Option<real>): (r: Result<(seq<int>, seq<real>), KindsError>)
    ensures r.Ok? <==> Accepted(p.values, thr)
    ensures r.Ok? ==>
              && r.value.0 == Clustering.ClusterLabels(p.values, thr.value)
              && r.value.1 == Clustering.ClusterValues(p.values, thr.value)
    ensures r.Err? ==> r.error == (if |p.values| == 0 then EmptyPropertyArray(p.name) else MissingThreshold(p.name))
  {
    if thr == Some(0.0) then Ok((Clustering.ClusterLabels(p.values, 0.0), Clustering.ClusterValues(p.values, 0.0)))
    else if |p.values| == 0 then Err(EmptyPropertyArray(p.name))
    else if thr.None? then Err(MissingThreshold(p.name))
    else Ok((Clustering.ClusterLabels(p.values, thr.value), Clustering.ClusterValues(p.values, thr.value)))
  }

  /** Step 1 over the first `|props|` properties, in order; the first error ends it. */
  ghost function ClusterAll(props: seq<SiteProperty>, exclude: seq<string>, custom: map<string, real>): Result<Columns, KindsError>
    decreases |props|
  {
    if |props| == 0 then Ok(Columns([], map[]))
    else
      var p := props[|props| - 1];
      match ClusterAll(props[..|props| - 1], exclude, custom)
      case Err(e) => Err(e)
      case Ok(c) =>
        if !Clustered(p.name, exclude) then Ok(c)
        else match PropertyKinds(p, ThresholdOf(p.name, custom))
          case Err(e) => Err(e)
          case Ok(r) => Ok(Columns(c.labels + [r.0], c.values[p.name := r.1]))
  }

  /** An error in a prefix is the error of the whole. */
  lemma {:induction false} ErrorStops(props: seq<SiteProperty>, exclude: seq<string>, custom: map<string, real>, k: nat)
    requires k <= |props| && ClusterAll(props[..k], exclude, custom).Err?
    ensures ClusterAll(props, exclude, custom) == ClusterAll(props[..k], exclude, custom)
    decreases |props| - k
  {
    if k < |props| {
      assert props[..k + 1][..k] == props[..k];
      ErrorStops(props, exclude, custom, k + 1);
    } else {
      assert props[..k] == props;
    }
  }

  /** Step 1: the loop over the site properties. */
  method ClusterProperties(props: seq<SiteProperty>, exclude: seq<string>, custom: map<string, real>)
    returns (r: Result<Columns, KindsError>)
    ensures r == ClusterAll(props, exclude, custom)
  {
    var labels: seq<seq<int>> := [];
    var values: map<string, seq<real>> := map[];
    var k := 0;
    while k < |props|
      invariant k <= |props|
      invariant ClusterAll(props[..k], exclude, custom) == Ok(Columns(labels, values))
    {
      var p := props[k];
      assert props[..k + 1][..k] == props[..k];
      if Clustered(p.name, exclude) {
        var thr := ThresholdOf(p.name, custom);
        if thr == Some(0.0) {
          var column, reps := Clustering.ToKinds(p.values, 0.0);
          labels, values := labels + [column], values[p.name := reps];
        } else if |p.values| == 0 {
          r := Err(EmptyPropertyArray(p.name));
          ErrorStops(props, exclude, custom, k + 1);
          return;
        } else if thr.None? {
          r := Err(MissingThreshold(p.name));
          ErrorStops(props, exclude, custom, k + 1);
          return;
        } else {
          var column, reps := Clustering.ToKinds(p.values, thr.value);
          labels, values := labels + [column], values[p.name := reps];
        }
      }
      k := k + 1;
    }
    assert props[..k] == props;
    r := Ok(Columns(labels, values));
  }

  /** The properties step 1 clusters, in order. */
  function Selected(props: seq<SiteProperty>, exclude: seq<string>): (s: seq<SiteProperty>)
    ensures forall p :: p in s <==> p in props && Clustered(p.name, exclude)
  {
    if |props| == 0 then []
    else
      var p := props[|props| - 1];
      Selected(props[..|props| - 1], exclude) + (if Clustered(p.name, exclude) then [p] else [])
  }

  /** The names of some properties. */
  function NameSet(s: seq<SiteProperty>): set<string> {
    set p | p in s :: p.name
  }

  /** `_to_kinds` accepts each of the properties with its threshold. */
  predicate AllAccepted(s: seq<SiteProperty>, custom: map<string, real>) {
    forall k :: 0 <= k < |s| ==> Accepted(s[k].values, ThresholdOf(s[k].name, custom))
  }

  /** One more property: step 1 still succeeds when `_to_kinds` accepts it or it is not clustered. */
  lemma ClusterAllStep(props: seq<SiteProperty>, exclude: seq<string>, custom: map<string, real>)
    requires |props| > 0
    ensures var p := props[|props| - 1];
      ClusterAll(props, exclude, custom).Ok? <==>
        && ClusterAll(props[..|props| - 1], exclude, custom).Ok?
        && (Clustered(p.name, exclude) ==> Accepted(p.values, ThresholdOf(p.name, custom)))
  {
  }

  /** Step 1 succeeds exactly when `_to_kinds` accepts every clustered property. */
  lemma {:induction false} ClusterAllSucceeds(props: seq<SiteProperty>, exclude: seq<string>, custom: map<string, real>)
    ensures ClusterAll(props, exclude, custom).Ok? <==> AllAccepted(Selected(props, exclude), custom)
    decreases |props|
  {
    if |props| > 0 {
      var init, p := props[..|props| - 1], props[|props| - 1];
      ClusterAllSucceeds(init, exclude, custom);
      ClusterAllStep(props, exclude, custom);
      var s0, s := Selected(init, exclude), Selected(props, exclude);
      if !Clustered(p.name, exclude) {
        assert s == s0;
      } else {
        assert s == s0 + [p];
        AllAcceptedAppend(s0, p, custom);
      }
    }
  }

  lemma AllAcceptedAppend(s: seq<SiteProperty>, p: SiteProperty, custom: map<string, real>)
    ensures AllAccepted(s + [p], custom) <==> AllAccepted(s, custom) && Accepted(p.values, ThresholdOf(p.name, custom))
  {
    if AllAccepted(s + [p], custom) {
      assert (s + [p])[|s|] == p;
      forall k | 0 <= k < |s| ensures Accepted(s[k].values, ThresholdOf(s[k].name, custom)) {
        assert (s + [p])[k] == s[k];
      }
    }
  }

  /**
    When step 1 succeeds there is one column per clustered property, in order,
    holding its cluster labels, and the representatives are stored under
    exactly the clustered names.
  */
  lemma {:induction false} ClusterAllColumns(props: seq<SiteProperty>, exclude: seq<string>, custom: map<string, real>)
    requires ClusterAll(props, exclude, custom).Ok?
    ensures var s, c := Selected(props, exclude), ClusterAll(props, exclude, custom).value;
      && |c.labels| == |s|
      && (forall k :: 0 <= k < |s| ==>
            && Accepted(s[k].values, ThresholdOf(s[k].name, custom))
            && c.labels[k] == Clustering.ClusterLabels(s[k].values, ThresholdOf(s[k].name, custom).value))
      && c.values.Keys == NameSet(s)
    decreases |props|
  {
    if |props| > 0 {
      var init, p := props[..|props| - 1], props[|props| - 1];
      ClusterAllColumns(init, exclude, custom);
      var s0, s := Selected(init, exclude), Selected(props, exclude);
      if Clustered(p.name, exclude) {
        assert s == s0 + [p];
        assert NameSet(s) == NameSet(s0) + {p.name};
      }
    }
  }

  /** Step 1 gives one column per clustered property. */
  lemma ColumnCount(props: seq<SiteProperty>, exclude: seq<string>, custom: map<string, real>)
    requires ClusterAll(props, exclude, custom).Ok?
    ensures |ClusterAll(props, exclude, custom).value.labels| == |Selected(props, exclude)|
  {
    ClusterAllColumns(props, exclude, custom);
  }

  /** Every column holds one label per site. */
  ghost predicate ColumnsFit(c: Columns, n: nat) {
    forall col :: 0 <= col < |c.labels| ==> |c.labels[col]| == n
  }

  /** Step 1 gives every column one label per site. */
  lemma ColumnsFitSites(symbols: seq<string>, props: seq<SiteProperty>, exclude: seq<string>, custom: map<string, real>)
    requires SitesAgree(symbols, props) && ClusterAll(props, exclude, custom).Ok?
    ensures ColumnsFit(ClusterAll(props, exclude, custom).value, |symbols|)
  {
    ClusterAllColumns(props, exclude, custom);
    var s, c := Selected(props, exclude), ClusterAll(props, exclude, custom).value;
    forall col | 0 <= col < |c.labels| ensures |c.labels[col]| == |symbols| {
      assert s[col] in props;
    }
  }

  /** `kind_tags`, or `[None] * N` when none are given. */
  function KindTags(tags: seq<Tag>, n: nat): seq<Tag> {
    if |tags| == 0 then seq(n, _ => NoTag) else tags
  }

  /**
    Step 3, `[kind_names[i] if not kind_tags[i] else kind_tags[i] for i in
    range(len(kind_tags))]`: a truthy tag replaces the name; a falsy tag past
    the last name raises at the first such position.
  */
  function ApplyTags(names: seq<string>, tags: seq<Tag>): (r: Result<seq<string>, KindsError>)
    ensures r.Ok? <==> forall i :: |names| <= i < |tags| ==> Truthy(tags[i])
    ensures r.Ok? ==>
              && |r.value| == |tags|
              && forall i :: 0 <= i < |tags| ==> r.value[i] == if Truthy(tags[i]) then tags[i].name else names[i]
    ensures r.Err? ==>
              && r.error.TagIndexOutOfRange?
              && |names| <= r.error.position < |tags| && !Truthy(tags[r.error.position])
              && forall i :: |names| <= i < r.error.position ==> Truthy(tags[i])
    decreases |tags|
  {
    if |tags| == 0 then Ok([])
    else
      var i := |tags| - 1;
      match ApplyTags(names, tags[..i])
      case Err(e) => Err(e)
      case Ok(prefix) =>
        if Truthy(tags[i]) then Ok(prefix + [tags[i].name])
        else if i < |names| then Ok(prefix + [names[i]])
        else Err(TagIndexOutOfRange(i))
  }

  /**
    Steps 2 to 4 once step 1 has produced the columns `c`; `check` is the
    array step 4 compares with the tags' first occurrences.
  */
  ghost function Conclude(symbols: seq<string>, c: Columns, tags: seq<Tag>, check: seq<int>): Result<KindsDictionary, KindsError>
    requires ColumnsFit(c, |symbols|)
  {
    var kindTags := KindTags(tags, |symbols|);
    var rows := Rows(c.labels, |symbols|);
    match ApplyTags(NamesAt(rows, symbols, kindTags, Visited(rows)), kindTags)
    case Err(e) => Err(e)
    case Ok(kinds) =>
      if |tags| > 0 && check != FirstOccurrences(tags) then Err(InconsistentTags)
      else Ok(KindsDictionary(c.values, kinds, Numeration(rows, symbols, kindTags, Visited(rows)), symbols))
  }

  /** The whole of `get_kinds`, as written. */
  ghost function KindsOf(symbols: seq<string>, props: seq<SiteProperty>, tags: seq<Tag>,
                         exclude: seq<string>, custom: map<string, real>): (r: Result<KindsDictionary, KindsError>)
    requires SitesAgree(symbols, props)
    ensures ClusterAll(props, exclude, custom).Err? ==> r == Err(ClusterAll(props, exclude, custom).error)
    ensures r.Ok? ==> r.value.symbols == symbols && r.value.values == ClusterAll(props, exclude, custom).value.values
    ensures r.Ok? ==> |r.value.kinds| == if |tags| == 0 then |symbols| else |tags|
  {
    match ClusterAll(props, exclude, custom)
    case Err(e) => Err(e)
    case Ok(c) =>
      ColumnsFitSites(symbols, props, exclude, custom);
      var rows := Rows(c.labels, |symbols|);
      Conclude(symbols, c, tags, CheckAt(rows, |symbols|, Visited(rows)))
  }

  /** `get_kinds`. */
  method GetKinds(symbols: seq<string>, props: seq<SiteProperty>, tags: seq<Tag>,
                  exclude: seq<string>, custom: map<string, real>) returns (r: Result<KindsDictionary, KindsError>)
    requires SitesAgree(symbols, props)
    ensures r == KindsOf(symbols, props, tags, exclude, custom)
  {
    var n := |symbols|;
    var kindTags := KindTags(tags, n);
    var step1 := ClusterProperties(props, exclude, custom);
    if step1.Err? {
      return Err(step1.error);
    }
    var c := step1.value;
    ColumnsFitSites(symbols, props, exclude, custom);
    var rows := Rows(c.labels, n);
    var names, numeration, check := GroupSites(rows, symbols, kindTags);
    var kinds := ApplyTags(names, kindTags);
    if kinds.Err? {
      return Err(kinds.error);
    }
    if |tags| > 0 && check != FirstOccurrences(tags) {
      return Err(InconsistentTags);
    }
    return Ok(KindsDictionary(c.values, kinds.value, numeration, symbols));
  }

  // ----- Properties of the whole call -----

  /** Property `p`, clustered with `thr`, puts sites `a` and `b` in the same cluster. */
  ghost predicate SameCluster(p: SiteProperty, thr: Option<real>, a: nat, b: nat) {
    && a < |p.values| && b < |p.values| && Accepted(p.values, thr)
    && Clustering.ClusterLabels(p.values, thr.value)[a] == Clustering.ClusterLabels(p.values, thr.value)[b]
  }

  /** Every clustered property puts sites `a` and `b` in the same cluster. */
  ghost predicate SameClusters(props: seq<SiteProperty>, exclude: seq<string>, custom: map<string, real>, a: nat, b: nat) {
    var s := Selected(props, exclude);
    forall k :: 0 <= k < |s| ==> SameCluster(s[k], ThresholdOf(s[k].name, custom), a, b)
  }

  /** Two sites share a row of the label matrix exactly when every clustered property clusters them together. */
  lemma RowsEqualIffSameClusters(symbols: seq<string>, props: seq<SiteProperty>, exclude: seq<string>,
                                 custom: map<string, real>, a: nat, b: nat)
    requires SitesAgree(symbols, props) && ClusterAll(props, exclude, custom).Ok?
    requires |Selected(props, exclude)| > 0 && a < |symbols| && b < |symbols|
    ensures ColumnsFit(ClusterAll(props, exclude, custom).value, |symbols|)
    ensures |ClusterAll(props, exclude, custom).value.labels| == |Selected(props, exclude)|
    ensures var rows := Rows(ClusterAll(props, exclude, custom).value.labels, |symbols|);
      rows[a] == rows[b] <==> SameClusters(props, exclude, custom, a, b)
  {
    var s, c := Selected(props, exclude), ClusterAll(props, exclude, custom).value;
    ClusterAllColumns(props, exclude, custom);
    ColumnsFitSites(symbols, props, exclude, custom);
    RowsEqualIffColumnsAgree(c.labels, |symbols|, a, b);
    forall k | 0 <= k < |s|
      ensures c.labels[k][a] == c.labels[k][b] <==> SameCluster(s[k], ThresholdOf(s[k].name, custom), a, b)
    {
      assert s[k] in props;
    }
  }

  /** Without tags nothing overrides the generated names. */
  lemma NoTagsKeepNames(names: seq<string>)
    ensures ApplyTags(names, KindTags([], |names|)) == Ok(names)
  {
    var tags := KindTags([], |names|);
    assert |tags| == |names|;
    var r := ApplyTags(names, tags);
    assert r.Ok?;
    forall i | 0 <= i < |names| ensures r.value[i] == names[i] {
      assert !Truthy(tags[i]);
    }
    assert r.value == names;
  }

  /** After a successful step 1, `get_kinds` is the rest of the steps on its columns. */
  lemma KindsOfAfterStepOne(symbols: seq<string>, props: seq<SiteProperty>, tags: seq<Tag>,
                            exclude: seq<string>, custom: map<string, real>)
    requires SitesAgree(symbols, props) && ClusterAll(props, exclude, custom).Ok?
    ensures ColumnsFit(ClusterAll(props, exclude, custom).value, |symbols|)
    ensures var c := ClusterAll(props, exclude, custom).value;
      var rows := Rows(c.labels, |symbols|);
      KindsOf(symbols, props, tags, exclude, custom) == Conclude(symbols, c, tags, CheckAt(rows, |symbols|, Visited(rows)))
  {
    ColumnsFitSites(symbols, props, exclude, custom);
  }

  /**
    Without tags, `get_kinds` fails only in step 1; it then names every site
    as the walk does, and the index is the walk's numeration.
  */
  lemma UntaggedOnlyStepOneFails(symbols: seq<string>, props: seq<SiteProperty>, exclude: seq<string>, custom: map<string, real>)
    requires SitesAgree(symbols, props)
    ensures KindsOf(symbols, props, [], exclude, custom).Ok? <==> ClusterAll(props, exclude, custom).Ok?
    ensures KindsOf(symbols, props, [], exclude, custom).Ok? ==>
      var c, r := ClusterAll(props, exclude, custom).value, KindsOf(symbols, props, [], exclude, custom).value;
      && ColumnsFit(c, |symbols|)
      && var rows, tags := Rows(c.labels, |symbols|), KindTags([], |symbols|);
      && r.kinds == NamesAt(rows, symbols, tags, Visited(rows))
      && r.index == Numeration(rows, symbols, tags, Visited(rows))
      && r.values == c.values && r.symbols == symbols
  {
    if ClusterAll(props, exclude, custom).Ok? {
      KindsOfAfterStepOne(symbols, props, [], exclude, custom);
      var c := ClusterAll(props, exclude, custom).value;
      var rows, tags := Rows(c.labels, |symbols|), KindTags([], |symbols|);
      NoTagsKeepNames(NamesAt(rows, symbols, tags, Visited(rows)));
    }
  }

  /** When every property is fixed or excluded, the kinds are the chemical symbols and the index is empty. */
  lemma NothingClusteredKeepsSymbols(symbols: seq<string>, props: seq<SiteProperty>, exclude: seq<string>, custom: map<string, real>)
    requires SitesAgree(symbols, props) && |Selected(props, exclude)| == 0
    ensures KindsOf(symbols, props, [], exclude, custom).Ok?
    ensures KindsOf(symbols, props, [], exclude, custom).value.kinds == symbols
    ensures KindsOf(symbols, props, [], exclude, custom).value.index == []
  {
    ClusterAllSucceeds(props, exclude, custom);
    ClusterAllColumns(props, exclude, custom);
    UntaggedOnlyStepOneFails(symbols, props, exclude, custom);
  }

  /**
    Without tags and with digit-free chemical symbols, two sites get the same
    kind name exactly when every clustered property puts them in the same
    cluster.
  */
  lemma SameKindIffSameClusters(symbols: seq<string>, props: seq<SiteProperty>, exclude: seq<string>,
                                custom: map<string, real>, a: nat, b: nat)
    requires SitesAgree(symbols, props) && ClusterAll(props, exclude, custom).Ok?
    requires |Selected(props, exclude)| > 0 && a < |symbols| && b < |symbols|
    requires forall k :: 0 <= k < |symbols| ==> Decimal.NoDigits(symbols[k])
    ensures KindsOf(symbols, props, [], exclude, custom).Ok?
    ensures var kinds := KindsOf(symbols, props, [], exclude, custom).value.kinds;
      kinds[a] == kinds[b] <==> SameClusters(props, exclude, custom, a, b)
  {
    UntaggedOnlyStepOneFails(symbols, props, exclude, custom);
    RowsEqualIffSameClusters(symbols, props, exclude, custom, a, b);
    var c := ClusterAll(props, exclude, custom).value;
    var rows, tags := Rows(c.labels, |symbols|), KindTags([], |symbols|);
    if rows[a] == rows[b] {
      SameRowSameKind(rows, symbols, tags, a, b);
    } else {
      DifferentRowsDifferentNames(rows, symbols, tags, a, b);
    }
  }

  /**
    A successful call with tags returns one kind per tag, each truthy tag
    verbatim, and only when there is one tag per site.
  */
  lemma TagsOverrideNames(symbols: seq<string>, props: seq<SiteProperty>, tags: seq<Tag>,
                          exclude: seq<string>, custom: map<string, real>)
    requires SitesAgree(symbols, props) && |tags| > 0
    requires KindsOf(symbols, props, tags, exclude, custom).Ok?
    ensures var kinds := KindsOf(symbols, props, tags, exclude, custom).value.kinds;
      && |tags| == |symbols| && |kinds| == |tags|
      && forall i :: 0 <= i < |tags| && Truthy(tags[i]) ==> kinds[i] == tags[i].name
  {
  }

  /**
    The check as written is sound: when it accepts the tags, two sites carry
    equal tags only if every clustered property clusters them together, and
    conversely.
  */
  lemma AcceptedTagsGroupLikeClusters(symbols: seq<string>, props: seq<SiteProperty>, tags: seq<Tag>,
                                      exclude: seq<string>, custom: map<string, real>, a: nat, b: nat)
    requires SitesAgree(symbols, props) && |tags| > 0 && |Selected(props, exclude)| > 0
    requires KindsOf(symbols, props, tags, exclude, custom).Ok?
    requires a < |symbols| && b < |symbols|
    ensures a < |tags| && b < |tags|
    ensures tags[a] == tags[b] <==> SameClusters(props, exclude, custom, a, b)
  {
    TagsOverrideNames(symbols, props, tags, exclude, custom);
    KindsOfAfterStepOne(symbols, props, tags, exclude, custom);
    RowsEqualIffSameClusters(symbols, props, exclude, custom, a, b);
    var c := ClusterAll(props, exclude, custom).value;
    var rows := Rows(c.labels, |symbols|);
    assert CheckAt(rows, |symbols|, Visited(rows)) == FirstOccurrences(tags);
    CheckGroupsLikeRows(rows, |symbols|, a, b);
    FirstOccurrencesGroup(tags, a, b);
  }

  // ----- The consistency check of step 4 -----

  /**
    The check step 4 evidently intends: each site's first site with an equal
    row (with no clustered property every site has the same, empty, row).
  */
  function IntendedCheck(rows: seq<seq<int>>, n: nat): (check: seq<int>)
    requires |rows| == 0 || |rows| == n
    ensures |check| == n
  {
    if |rows| == 0 then seq(n, _ => 0) else FirstOccurrences(rows)
  }

  /** `get_kinds` with the intended check in step 4. */
  ghost function KindsOfIntended(symbols: seq<string>, props: seq<SiteProperty>, tags: seq<Tag>,
                                 exclude: seq<string>, custom: map<string, real>): (r: Result<KindsDictionary, KindsError>)
    requires SitesAgree(symbols, props)
    ensures ClusterAll(props, exclude, custom).Err? ==> r == Err(ClusterAll(props, exclude, custom).error)
    ensures r.Ok? ==> r.value.symbols == symbols && r.value.values == ClusterAll(props, exclude, custom).value.values
    ensures r.Ok? ==> |r.value.kinds| == if |tags| == 0 then |symbols| else |tags|
  {
    match ClusterAll(props, exclude, custom)
    case Err(e) => Err(e)
    case Ok(c) =>
      ColumnsFitSites(symbols, props, exclude, custom);
      Conclude(symbols, c, tags, IntendedCheck(Rows(c.labels, |symbols|), |symbols|))
  }

  /** The tags group the sites as the clustered properties do. */
  ghost predicate TagsMatchClusters(props: seq<SiteProperty>, tags: seq<Tag>, exclude: seq<string>, custom: map<string, real>) {
    forall a: nat, b: nat :: a < |tags| && b < |tags| ==> (tags[a] == tags[b] <==> SameClusters(props, exclude, custom, a, b))
  }

  /** With no clustered property, the intended check accepts exactly tags that are all equal. */
  lemma IntendedCheckWithoutColumns(tags: seq<Tag>)
    requires |tags| > 0
    ensures IntendedCheck([], |tags|) == FirstOccurrences(tags) <==> forall a :: 0 <= a < |tags| ==> tags[a] == tags[0]
  {
    if IntendedCheck([], |tags|) == FirstOccurrences(tags) {
      forall a | 0 <= a < |tags| ensures tags[a] == tags[0] {
        assert FirstOccurrences(tags)[a] == 0;
      }
    }
    if forall a :: 0 <= a < |tags| ==> tags[a] == tags[0] {
      forall a | 0 <= a < |tags| ensures FirstOccurrences(tags)[a] == 0 {
        assert IndexOf(tags, tags[a]) == 0;
      }
    }
  }

  /** With one tag per site, steps 2 to 4 fail only in the check. */
  lemma FullTagsOnlyCheckFails(symbols: seq<string>, c: Columns, tags: seq<Tag>, check: seq<int>)
    requires ColumnsFit(c, |symbols|) && |tags| == |symbols| > 0
    ensures Conclude(symbols, c, tags, check).Ok? <==> check == FirstOccurrences(tags)
  {
    var rows := Rows(c.labels, |symbols|);
    assert ApplyTags(NamesAt(rows, symbols, tags, Visited(rows)), tags).Ok?;
  }

  /** With no clustered property, the intended check accepts exactly the tags that match the (single) cluster. */
  lemma IntendedCheckNoColumns(symbols: seq<string>, props: seq<SiteProperty>, tags: seq<Tag>,
                               exclude: seq<string>, custom: map<string, real>)
    requires |Selected(props, exclude)| == 0 && |tags| > 0
    ensures IntendedCheck([], |tags|) == FirstOccurrences(tags) <==> TagsMatchClusters(props, tags, exclude, custom)
  {
    IntendedCheckWithoutColumns(tags);
    if TagsMatchClusters(props, tags, exclude, custom) {
      forall a | 0 <= a < |tags| ensures tags[a] == tags[0] {
        assert SameClusters(props, exclude, custom, a, 0);
      }
    }
  }

  /** With clustered properties, the intended check accepts exactly the tags that match the clusters. */
  lemma IntendedCheckWithColumns(symbols: seq<string>, props: seq<SiteProperty>, tags: seq<Tag>,
                                 exclude: seq<string>, custom: map<string, real>)
    requires SitesAgree(symbols, props) && ClusterAll(props, exclude, custom).Ok?
    requires |Selected(props, exclude)| > 0 && |tags| == |symbols|
    ensures ColumnsFit(ClusterAll(props, exclude, custom).value, |symbols|)
    ensures var rows := Rows(ClusterAll(props, exclude, custom).value.labels, |symbols|);
      IntendedCheck(rows, |symbols|) == FirstOccurrences(tags) <==> TagsMatchClusters(props, tags, exclude, custom)
  {
    ColumnsFitSites(symbols, props, exclude, custom);
    ColumnCount(props, exclude, custom);
    var rows := Rows(ClusterAll(props, exclude, custom).value.labels, |symbols|);
    forall a: nat, b: nat | a < |symbols| && b < |symbols|
      ensures rows[a] == rows[b] <==> SameClusters(props, exclude, custom, a, b)
    {
      RowsEqualIffSameClusters(symbols, props, exclude, custom, a, b);
    }
    assert |rows| == |symbols|;
    if SamePartition(rows, tags) {
      forall a: nat, b: nat | a < |tags| && b < |tags|
        ensures tags[a] == tags[b] <==> SameClusters(props, exclude, custom, a, b)
      {
        assert rows[a] == rows[b] <==> tags[a] == tags[b];
      }
    }
    if TagsMatchClusters(props, tags, exclude, custom) {
      forall a, b | 0 <= a < |rows| && 0 <= b < |rows|
        ensures rows[a] == rows[b] <==> tags[a] == tags[b]
      {
        assert tags[a] == tags[b] <==> SameClusters(props, exclude, custom, a, b);
      }
    }
    CorrectedCheckIffSamePartition(rows, tags);
  }

  /**
    With one tag per site, the intended check accepts the tags exactly when
    they group the sites as the clustered properties do.
  */
  lemma IntendedCheckAcceptsExactlyMatchingTags(symbols: seq<string>, props: seq<SiteProperty>, tags: seq<Tag>,
                                                exclude: seq<string>, custom: map<string, real>)
    requires SitesAgree(symbols, props) && ClusterAll(props, exclude, custom).Ok?
    requires |tags| == |symbols| > 0
    ensures KindsOfIntended(symbols, props, tags, exclude, custom).Ok? <==> TagsMatchClusters(props, tags, exclude, custom)
  {
    ColumnsFitSites(symbols, props, exclude, custom);
    ClusterAllColumns(props, exclude, custom);
    var c := ClusterAll(props, exclude, custom).value;
    var rows := Rows(c.labels, |symbols|);
    assert KindsOfIntended(symbols, props, tags, exclude, custom) == Conclude(symbols, c, tags, IntendedCheck(rows, |symbols|));
    FullTagsOnlyCheckFails(symbols, c, tags, IntendedCheck(rows, |symbols|));
    if |Selected(props, exclude)| == 0 {
      IntendedCheckNoColumns(symbols, props, tags, exclude, custom);
    } else {
      IntendedCheckWithColumns(symbols, props, tags, exclude, custom);
    }
  }

  /** Sites Li, Li, Cu with charges 0, 0 and 1. */
  function ExampleProps(): seq<SiteProperty> {
    [SiteProperty("charge", [0.0, 0.0, 1.0])]
  }

  /** At threshold 0.1 the charges 0, 0 and 1 fall into buckets 0, 0 and 10. */
  lemma ExampleLabels()
    ensures var labels := Clustering.ClusterLabels([0.0, 0.0, 1.0], 0.1);
      labels[0] == labels[1] && labels[1] != labels[2]
  {
    var values := [0.0, 0.0, 1.0];
    assert Clustering.Min(values) == 0.0;
    var keys := Clustering.Buckets(values, 0.1);
    assert keys[0] == 0 && keys[1] == 0;
    assert keys[2] == Clustering.Trunc(1.0 / 0.1) == 10;
    Clustering.ClustersAreBuckets(values, 0.1, 0, 1);
    Clustering.ClustersAreBuckets(values, 0.1, 1, 2);
  }

  /** At the default charge threshold 0.1 the two Li sites share a cluster and the Cu site is alone. */
  lemma ExampleClusters()
    ensures ClusterAll(ExampleProps(), [], map[]).Ok?
    ensures var c := ClusterAll(ExampleProps(), [], map[]).value;
      && |c.labels| == 1 && |c.labels[0]| == 3
      && c.labels[0][0] == c.labels[0][1] && c.labels[0][1] != c.labels[0][2]
  {
    var values := [0.0, 0.0, 1.0];
    var p := SiteProperty("charge", values);
    var props := ExampleProps();
    assert props == [p] && props[..0] == [];
    assert ClusterAll([], [], map[]) == Ok(Columns([], map[]));
    assert Clustered("charge", []);
    assert ThresholdOf("charge", map[]) == Some(0.1);
    var labels, reps := Clustering.ClusterLabels(values, 0.1), Clustering.ClusterValues(values, 0.1);
    assert PropertyKinds(p, Some(0.1)) == Ok((labels, reps));
    assert ClusterAll(props, [], map[]) == Ok(Columns([] + [labels], map[]["charge" := reps]));
    ExampleLabels();
  }

  /** The tags A, A, B group Li, Li, Cu as the charges do. */
  lemma ExampleTagsMatch()
    ensures TagsMatchClusters(ExampleProps(), [Named("A"), Named("A"), Named("B")], [], map[])
  {
    var tags := [Named("A"), Named("A"), Named("B")];
    var p := SiteProperty("charge", [0.0, 0.0, 1.0]);
    assert ExampleProps() == [p];
    assert Clustered("charge", []);
    assert ThresholdOf("charge", map[]) == Some(0.1);
    ExampleLabels();
    var labels := Clustering.ClusterLabels(p.values, 0.1);
    assert tags[0] == tags[1] && tags[1] != tags[2];
    TwoGroupsOfThree(tags, labels);
    TagsMatchSingleProperty(p, tags, 0.1);
  }

  /** With one clustered property, tags match the clusters when they group the sites as its labels do. */
  lemma TagsMatchSingleProperty(p: SiteProperty, tags: seq<Tag>, thr: real)
    requires Clustered(p.name, []) && ThresholdOf(p.name, map[]) == Some(thr)
    requires Accepted(p.values, Some(thr)) && SamePartition(tags, Clustering.ClusterLabels(p.values, thr))
    ensures TagsMatchClusters([p], tags, [], map[])
  {
    assert [p][..0] == [];
    assert Selected([p], []) == [p];
  }

  /** `get_kinds` as written raises on the tags A, A, B. */
  lemma ExampleRejected()
    ensures KindsOf(["Li", "Li", "Cu"], ExampleProps(), [Named("A"), Named("A"), Named("B")], [], map[]) == Err(InconsistentTags)
  {
    ExampleClusters();
    assert SitesAgree(["Li", "Li", "Cu"], ExampleProps());
    OneColumnTwoGroupsRejected(["Li", "Li", "Cu"], ExampleProps());
  }

  /** A single column that groups three sites as {0, 1} and {2} makes the tags A, A, B fail the check. */
  lemma OneColumnTwoGroupsRejected(symbols: seq<string>, props: seq<SiteProperty>)
    requires |symbols| == 3 && SitesAgree(symbols, props) && ClusterAll(props, [], map[]).Ok?
    requires var c := ClusterAll(props, [], map[]).value;
      && |c.labels| == 1 && |c.labels[0]| == 3
      && c.labels[0][0] == c.labels[0][1] && c.labels[0][1] != c.labels[0][2]
    ensures KindsOf(symbols, props, [Named("A"), Named("A"), Named("B")], [], map[]) == Err(InconsistentTags)
  {
    KindsOfAfterStepOne(symbols, props, [Named("A"), Named("A"), Named("B")], [], map[]);
    var c := ClusterAll(props, [], map[]).value;
    RowsEqualIffColumnsAgree(c.labels, 3, 0, 1);
    RowsEqualIffColumnsAgree(c.labels, 3, 1, 2);
    TwoKindsRejected(symbols, c);
  }

  /** Whenever sites 0 and 1 share a row and site 2 has another, the tags A, A, B are rejected. */
  lemma TwoKindsRejected(symbols: seq<string>, c: Columns)
    requires |symbols| == 3 && ColumnsFit(c, 3) && |c.labels| > 0
    requires var rows := Rows(c.labels, 3); rows[0] == rows[1] && rows[1] != rows[2]
    ensures var rows := Rows(c.labels, 3);
      Conclude(symbols, c, [Named("A"), Named("A"), Named("B")], CheckAt(rows, 3, Visited(rows))) == Err(InconsistentTags)
  {
    var rows := Rows(c.labels, 3);
    LastVisitCheckRejectsConsistentTags(rows);
    FullTagsOnlyCheckFails(symbols, c, [Named("A"), Named("A"), Named("B")], CheckAt(rows, 3, Visited(rows)));
  }

  /**
    The check as written rejects consistent tags: tagging the two Li sites A
    and the Cu site B groups the sites exactly as the charges do, yet
    `get_kinds` raises, while the intended check accepts them.
  */
  lemma ConsistentTagsRejected()
    ensures var tags := [Named("A"), Named("A"), Named("B")];
      && TagsMatchClusters(ExampleProps(), tags, [], map[])
      && KindsOf(["Li", "Li", "Cu"], ExampleProps(), tags, [], map[]) == Err(InconsistentTags)
      && KindsOfIntended(["Li", "Li", "Cu"], ExampleProps(), tags, [], map[]).Ok?
  {
    ExampleClusters();
    ExampleTagsMatch();
    ExampleRejected();
    IntendedCheckAcceptsExactlyMatchingTags(["Li", "Li", "Cu"], ExampleProps(), [Named("A"), Named("A"), Named("B")], [], map[]);
  }
}
