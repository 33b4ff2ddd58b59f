/**
  The data layout of `StructureDataCore` (`__init__`, `from_dict`,
  `to_dict`), its slicing (`__getitem__`), its length (`__len__`) and the
  checks of `_validate`.

  The structure's data is a dictionary with the keys "pbc", "cell" and
  "sites"; "sites" holds one dictionary per site. `to_dict` returns a deep
  copy, so every value here is immutable and no aliasing arises.
*/
module Structure {
  import opened Common
  import opened Dimensionality
  import ListIndexing

  /** One site dictionary; the keys of the site model other than these are kept in `properties`. */
  datatype Site = Site(symbol: string, position: seq<real>, kindName: string, properties: map<string, real>)

  /**
    What is stored under "sites": a list of site dictionaries or, once an
    `int` index has been applied, one site dictionary on its own.
  */
  datatype SitesEntry = SiteList(sites: seq<Site>) | BareSite(site: Site)

  /** `self._data`. */
  datatype StructureData = StructureData(pbc: seq<bool>, cell: seq<Vec3>, sites: SitesEntry)

  /** The dictionary given to `__init__` or `from_dict`, with each key present or absent. */
  datatype RawStructure = RawStructure(pbc: Option<seq<bool>>, cell: Option<seq<Vec3>>, sites: Option<SitesEntry>)

  function GetOr<T>(o: Option<T>, default: T): T {
    if o.Some? then o.value else default
  }

  /** `__init__` (and `from_dict`): a missing key takes its default. */
  function FromDict(raw: RawStructure): (s: StructureData)
    ensures raw.pbc.Some? ==> s.pbc == raw.pbc.value
    ensures raw.cell.Some? ==> s.cell == raw.cell.value
    ensures raw.sites.Some? ==> s.sites == raw.sites.value
    ensures raw.pbc.None? ==> s.pbc == [true, true, true]
    ensures raw.cell.None? ==> s.cell == [Zero, Zero, Zero]
    ensures raw.sites.None? ==> s.sites == SiteList([])
  {
    StructureData(GetOr(raw.pbc, DefaultPbc), GetOr(raw.cell, DefaultCell), GetOr(raw.sites, SiteList([])))
  }

  /** `to_dict`: every key is present. */
  function ToDict(s: StructureData): (raw: RawStructure)
    ensures raw.pbc.Some? && raw.cell.Some? && raw.sites.Some?
    ensures raw.pbc.value == s.pbc && raw.cell.value == s.cell && raw.sites.value == s.sites
  {
    RawStructure(Some(s.pbc), Some(s.cell), Some(s.sites))
  }

  /** `__len__`: the number of sites; `None` where "sites" holds a bare site dictionary. */
  function Len(s: StructureData): (n: Option<nat>)
    ensures n.Some? <==> s.sites.SiteList?
  {
    match s.sites
    case SiteList(xs) => Some(|xs|)
    case BareSite(_) => None
  }

  /** The argument of `__getitem__`. */
  datatype Index =
    | IntIndex(i: int)
    | SliceIndex(start: Option<int>, stop: Option<int>, step: Option<int>)
    | OtherIndex

  /** The exceptions `__getitem__` raises. */
  datatype GetItemError =
    | InvalidIndexType                          // TypeError for an index that is neither int nor slice
    | ListIndexFailed(e: ListIndexing.IndexError) // IndexError or ValueError from the list lookup
    | NotAList                                  // looking up a bare site dictionary by position

  /**
    `__getitem__` as written: the selected sites replace "sites", and a new
    structure is built from the dictionary. An `int` index selects one site
    dictionary, which is stored as it is rather than as a list.
  */
  function GetItem(s: StructureData, index: Index): (r: Result<StructureData, GetItemError>)
    ensures r.Ok? ==> r.value.pbc == s.pbc && r.value.cell == s.cell
    ensures index.OtherIndex? ==> r == Err(InvalidIndexType)
  {
    match index
    case OtherIndex => Err(InvalidIndexType)
    case IntIndex(i) =>
      (match s.sites
       case BareSite(_) => Err(NotAList)
       case SiteList(xs) =>
         match ListIndexing.At(xs, i)
         case Err(e) => Err(ListIndexFailed(e))
         case Ok(x) => Ok(FromDict(RawStructure(Some(s.pbc), Some(s.cell), Some(BareSite(x))))))
    case SliceIndex(start, stop, step) =>
      (match s.sites
       case BareSite(_) => Err(NotAList)
       case SiteList(xs) =>
         match ListIndexing.Slice(xs, start, stop, step)
         case Err(e) => Err(ListIndexFailed(e))
         case Ok(ys) => Ok(FromDict(RawStructure(Some(s.pbc), Some(s.cell), Some(SiteList(ys))))))
  }

  /**
    `__getitem__` as evidently intended: an `int` index gives a structure
    with a one-site list, like the matching slice.
  */
  function GetItemIntended(s: StructureData, index: Index): (r: Result<StructureData, GetItemError>)
    ensures r.Ok? ==> r.value.pbc == s.pbc && r.value.cell == s.cell && r.value.sites.SiteList?
  {
    match index
    case IntIndex(i) =>
      (match s.sites
       case BareSite(_) => Err(NotAList)
       case SiteList(xs) =>
         match ListIndexing.At(xs, i)
         case Err(e) => Err(ListIndexFailed(e))
         case Ok(x) => Ok(StructureData(s.pbc, s.cell, SiteList([x]))))
    case _ =>
      var r := GetItem(s, index);
      assert r.Ok? ==> index.SliceIndex? && s.sites.SiteList?;
      r
  }

  // ----- Construction -----

  /** `to_dict` followed by `from_dict` gives back the same structure. */
  lemma FromDictToDict(s: StructureData)
    ensures FromDict(ToDict(s)) == s
  {
  }

  /** Every key given to `from_dict` is kept, and `to_dict` then reports it. */
  lemma ToDictKeepsGivenKeys(raw: RawStructure)
    ensures raw.pbc.Some? ==> ToDict(FromDict(raw)).pbc == raw.pbc
    ensures raw.cell.Some? ==> ToDict(FromDict(raw)).cell == raw.cell
    ensures raw.sites.Some? ==> ToDict(FromDict(raw)).sites == raw.sites
    ensures ToDict(FromDict(raw)).pbc.Some? && ToDict(FromDict(raw)).cell.Some? && ToDict(FromDict(raw)).sites.Some?
  {
  }

  /** An empty dictionary gives the periodic, all-zero cell with no sites. */
  lemma EmptyDictDefaults()
    ensures FromDict(RawStructure(None, None, None)) == StructureData([true, true, true], [Zero, Zero, Zero], SiteList([]))
    ensures Len(FromDict(RawStructure(None, None, None))) == Some(0)
  {
  }

  // ----- Slicing -----

  /** `__getitem__` fails exactly for a wrong index type, a bare site dictionary, an index out of range or a zero step. */
  lemma GetItemFailures(s: StructureData, index: Index)
    ensures GetItem(s, index).Err? <==>
              || index.OtherIndex?
              || s.sites.BareSite?
              || (index.IntIndex? && !(-|s.sites.sites| <= index.i < |s.sites.sites|))
              || (index.SliceIndex? && index.step == Some(0))
  {
  }

  /** A slice keeps cell and pbc and holds exactly the sliced sites. */
  lemma SliceSelectsSites(xs: seq<Site>, pbc: seq<bool>, cell: seq<Vec3>, start: Option<int>, stop: Option<int>, step: Option<int>)
    requires step != Some(0)
    ensures GetItem(StructureData(pbc, cell, SiteList(xs)), SliceIndex(start, stop, step))
              == Ok(StructureData(pbc, cell, SiteList(ListIndexing.Slice(xs, start, stop, step).value)))
  {
  }

  /** `s[a:b]` within bounds has `b - a` sites, the contiguous run `a..b`. */
  lemma ContiguousSliceLength(s: StructureData, a: nat, b: nat)
    requires s.sites.SiteList? && a <= b <= |s.sites.sites|
    ensures GetItem(s, SliceIndex(Some(a), Some(b), None)) == Ok(StructureData(s.pbc, s.cell, SiteList(s.sites.sites[a..b])))
    ensures Len(GetItem(s, SliceIndex(Some(a), Some(b), None)).value) == Some(b - a)
  {
    ListIndexing.ContiguousSlice(s.sites.sites, a, b);
  }

  /** `s[:]` is a copy of `s`. */
  lemma WholeSliceCopies(s: StructureData)
    requires s.sites.SiteList?
    ensures GetItem(s, SliceIndex(None, None, None)) == Ok(s)
  {
    ListIndexing.WholeSlice(s.sites.sites);
  }

  /**
    As written, `s[i]` stores the site dictionary itself under "sites": the
    result has no length and cannot be indexed again, where `s[i:i+1]` has
    one site.
  */
  lemma IntIndexStoresBareSite(s: StructureData, i: nat)
    requires s.sites.SiteList? && i < |s.sites.sites|
    ensures GetItem(s, IntIndex(i)) == Ok(StructureData(s.pbc, s.cell, BareSite(s.sites.sites[i])))
    ensures Len(GetItem(s, IntIndex(i)).value) == None
    ensures GetItem(GetItem(s, IntIndex(i)).value, IntIndex(0)) == Err(NotAList)
    ensures Len(GetItem(s, SliceIndex(Some(i), Some(i + 1), None)).value) == Some(1)
  {
    ListIndexing.SingletonSlice(s.sites.sites, i);
  }

  /**
    The intended `s[i]` agrees with the one-site slice at the same position,
    negative positions counted from the end, and has length 1; other indices
    behave as written.
  */
  lemma IntendedIntIndexIsOneSiteSlice(s: StructureData, i: int)
    requires s.sites.SiteList? && -|s.sites.sites| <= i < |s.sites.sites|
    ensures var k := if i < 0 then i + |s.sites.sites| else i;
            GetItemIntended(s, IntIndex(i)) == GetItem(s, SliceIndex(Some(k), Some(k + 1), None))
    ensures Len(GetItemIntended(s, IntIndex(i)).value) == Some(1)
  {
    var k := if i < 0 then i + |s.sites.sites| else i;
    ListIndexing.SingletonSlice(s.sites.sites, k);
  }

  /** The intended `__getitem__` fails on the same indices as the written one. */
  lemma IntendedFailsLikeWritten(s: StructureData, index: Index)
    ensures GetItemIntended(s, index).Err? <==> GetItem(s, index).Err?
    ensures GetItemIntended(s, index).Err? ==> GetItemIntended(s, index) == GetItem(s, index)
  {
  }

  // ----- Validation -----

  /**
    The errors `_validate` raises: `ValidationError`s, except that
    `WrongDimensionality` stands for the `ValueError` of
    `_validate_dimensionality`, which `_validate` lets through unwrapped.
  */
  datatype ValidationError =
    | InvalidCell
    | InvalidPeriodicBoundaryConditions
    | WrongDimensionality(e: DimensionError)
    | UnreadableSites
    | DuplicateKind(name: string)
    | UnknownKind(name: string)
    | KindsWithoutSites(names: set<string>)

  /** `set(self.get_site_property("kind_name"))`. */
  function KindNames(sites: seq<Site>): (kinds: set<string>)
    ensures forall i :: 0 <= i < |sites| ==> sites[i].kindName in kinds
    ensures forall k :: k in kinds ==> exists i :: 0 <= i < |sites| && sites[i].kindName == k
  {
    set i | 0 <= i < |sites| :: sites[i].kindName
  }

  /** The first site, in order, whose kind is not among `kinds`. */
  function FirstUnknownKind(sites: seq<Site>, kinds: set<string>): (r: Option<string>)
    ensures r.None? <==> forall i :: 0 <= i < |sites| ==> sites[i].kindName in kinds
    ensures r.Some? ==> r.value !in kinds
  {
    if |sites| == 0 then None
    else if sites[0].kindName !in kinds then Some(sites[0].kindName)
    else
      var r := FirstUnknownKind(sites[1..], kinds);
      assert forall i :: 1 <= i < |sites| ==> sites[1..][i - 1] == sites[i];
      r
  }

  /**
    `[k for k in kinds]`: the kind set listed once per element, in the order
    the set iterates, which nothing in the program fixes.
  */
  ghost function ListOfSet(kinds: set<string>): (ks: seq<string>)
    ensures forall k :: k in ks <==> k in kinds
    ensures |ks| == |kinds|
  {
    if kinds == {} then []
    else
      var k :| k in kinds;
      [k] + ListOfSet(kinds - {k})
  }

  /** The first entry of `ks` that `Counter(ks)` does not count exactly once. */
  function FirstRepeated(ks: seq<string>, counts: multiset<string>): (r: Option<string>)
    ensures r.None? <==> forall i :: 0 <= i < |ks| ==> counts[ks[i]] == 1
    ensures r.Some? ==> r.value in ks && counts[r.value] != 1
  {
    if |ks| == 0 then None
    else if counts[ks[0]] != 1 then Some(ks[0])
    else
      var r := FirstRepeated(ks[1..], counts);
      assert forall i :: 1 <= i < |ks| ==> ks[1..][i - 1] == ks[i];
      r
  }

  /**
    The kind part of `_validate`: `Counter` over the listed kind set must
    count every kind once, every site's kind must be in the set, and every
    kind in the set must have a site.
  */
  ghost function KindChecks(sites: seq<Site>): (r: Result<(), ValidationError>)
    ensures r.Err? ==> r.error.DuplicateKind? || r.error.UnknownKind? || r.error.KindsWithoutSites?
  {
    var kinds := KindNames(sites);
    var ks := ListOfSet(kinds);
    match FirstRepeated(ks, multiset(ks))
    case Some(k) => Err(DuplicateKind(k))
    case None =>
      match FirstUnknownKind(sites, kinds)
      case Some(k) => Err(UnknownKind(k))
      case None =>
        if kinds - KindNames(sites) != {} then Err(KindsWithoutSites(kinds - KindNames(sites)))
        else Ok(())
  }

  /**
    `_validate` without the node-level checks: the cell and the pbc
    (represented by their length), the dimensionality, the sites and the kinds.
  */
  ghost function Validate(s: StructureData): (r: Result<(), ValidationError>)
    ensures |s.cell| != 3 ==> r == Err(InvalidCell)
    ensures |s.cell| == 3 && |s.pbc| != 3 ==> r == Err(InvalidPeriodicBoundaryConditions)
    ensures s.sites.BareSite? ==> r.Err?
    ensures r.Ok? ==> |s.cell| == 3 && |s.pbc| == 3 && ValidateDimensionality(s.pbc, s.cell).Ok?
  {
    if |s.cell| != 3 then Err(InvalidCell)
    else if |s.pbc| != 3 then Err(InvalidPeriodicBoundaryConditions)
    else match ValidateDimensionality(s.pbc, s.cell)
      case Err(e) => Err(WrongDimensionality(e))
      case Ok(_) =>
        match s.sites
        case BareSite(_) => Err(UnreadableSites)
        case SiteList(xs) => KindChecks(xs)
  }

  /** The kind set is built from the sites themselves, so none of the three kind checks can fail. */
  lemma KindChecksNeverFail(sites: seq<Site>)
    ensures KindChecks(sites) == Ok(())
  {
    var ks := ListOfSet(KindNames(sites));
    ListOfSetDistinct(KindNames(sites));
    forall i | 0 <= i < |ks|
      ensures multiset(ks)[ks[i]] == 1
    {
      DistinctCountsOnce(ks, i);
    }
  }

  predicate Distinct(ks: seq<string>) {
    forall i, j :: 0 <= i < j < |ks| ==> ks[i] != ks[j]
  }

  /** No kind appears twice when a set is listed. */
  lemma {:induction false} ListOfSetDistinct(kinds: set<string>)
    ensures Distinct(ListOfSet(kinds))
  {
    if kinds != {} {
      var ks := ListOfSet(kinds);
      var k := ks[0];
      var rest := ListOfSet(kinds - {k});
      assert ks == [k] + rest;
      ListOfSetDistinct(kinds - {k});
      assert k !in rest;
      forall i, j | 0 <= i < j < |ks|
        ensures ks[i] != ks[j]
      {
        assert ks[j] == rest[j - 1];
        if i > 0 {
          assert ks[i] == rest[i - 1];
        } else {
          assert ks[j] in rest;
        }
      }
    }
  }

  /** In a list without repeats, `Counter` counts each entry once. */
  lemma {:induction false} DistinctCountsOnce(ks: seq<string>, i: nat)
    requires i < |ks|
    requires Distinct(ks)
    ensures multiset(ks)[ks[i]] == 1
  {
    var last := |ks| - 1;
    assert ks == ks[..last] + [ks[last]];
    if i == last {
      assert ks[i] !in ks[..last];
    } else {
      DistinctCountsOnce(ks[..last], i);
    }
  }

  /** A structure with a site list passes `_validate` exactly when its cell and pbc have three entries and its dimensionality check passes. */
  lemma ValidateIsDimensionalityCheck(s: StructureData)
    requires s.sites.SiteList?
    ensures Validate(s).Ok? <==> |s.cell| == 3 && |s.pbc| == 3 && ValidateDimensionality(s.pbc, s.cell).Ok?
  {
    KindChecksNeverFail(s.sites.sites);
  }

  /** A structure built without a cell gets the zero cell and so fails validation. */
  lemma DefaultCellStructureInvalid(sites: seq<Site>)
    ensures Validate(FromDict(RawStructure(None, None, Some(SiteList(sites))))) == Err(WrongDimensionality(ZeroMeasure(3)))
  {
    var s := FromDict(RawStructure(None, None, Some(SiteList(sites))));
    assert s == StructureData(DefaultPbc, DefaultCell, SiteList(sites));
    DefaultsFailAsVolume();
  }
}
