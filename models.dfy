/**
  The pydantic structure models: the field validators `validate_pbc` and
  `validate_cell` of `StructureBaseModel`, the field defaults, and the
  `check_minimal_requirements` model validator of `ImmutableStructureModel`.

  The validators read the class-level `_mutable` flag: `MutableStructureModel`
  warns about a malformed value and keeps it, `ImmutableStructureModel`
  rejects it and freezes a well-formed one.
*/
module Models {
  import opened Common

  /**
    A field value as the validators see it: a list, `frozen` once it has gone
    through `freeze_nested`, or some other value, which is kept only with its
    Python truthiness.
  */
  datatype Field<T> = List(items: seq<T>, frozen: bool) | Other(truthy: bool)

  /** A value a validator let through, with the warning the mutable model emitted for it. */
  datatype Checked<T> = Checked(value: Field<T>, warning: Option<string>)

  const PbcNotListError := "pbc must be a list"
  const PbcLengthError := "pbc must be a list of length 3"
  const CellNotListError := "cell must be a 3x3 list"
  const PbcNotListWarning := "pbc should be a list"
  const PbcLengthWarning := "pbc should be a list of length 3"
  const CellNotListWarning := "cell should be a 3x3 list"

  /** `freeze_nested` on a list: the same entries, now frozen. */
  function Freeze<T>(v: Field<T>): (f: Field<T>)
    requires v.List?
    ensures f.List? && f.items == v.items && f.frozen
  {
    List(v.items, true)
  }

  /** A malformed value: the mutable model warns and keeps it, the immutable one raises. */
  function Malformed<T>(v: Field<T>, mutable: bool, warning: string, error: string): Result<Checked<T>, string> {
    if mutable then Ok(Checked(v, Some(warning))) else Err(error)
  }

  /** A well-formed value: the immutable model freezes it. */
  function WellFormed<T>(v: Field<T>, mutable: bool): Result<Checked<T>, string>
    requires v.List?
  {
    Ok(Checked(if mutable then v else Freeze(v), None))
  }

  /** `validate_pbc`: a list of three entries. */
  function ValidatePbc(v: Field<bool>, mutable: bool): (r: Result<Checked<bool>, string>)
    ensures r.Err? <==> !mutable && !PbcWellFormed(v)
    ensures r.Ok? ==> (r.value.warning.Some? <==> !PbcWellFormed(v))
    ensures r.Ok? && mutable ==> r.value.value == v
    ensures r.Ok? && !mutable ==> PbcWellFormed(r.value.value) && r.value.value.frozen && r.value.value.items == v.items
  {
    if !v.List? then Malformed(v, mutable, PbcNotListWarning, PbcNotListError)
    else if |v.items| != 3 then Malformed(v, mutable, PbcLengthWarning, PbcLengthError)
    else WellFormed(v, mutable)
  }

  /** `validate_cell`: only the outer value is checked to be a list. */
  function ValidateCell(v: Field<seq<real>>, mutable: bool): (r: Result<Checked<seq<real>>, string>)
    ensures r.Err? <==> !mutable && !v.List?
    ensures r.Ok? ==> (r.value.warning.Some? <==> !v.List?)
    ensures r.Ok? && mutable ==> r.value.value == v
    ensures r.Ok? && !mutable ==> r.value.value.List? && r.value.value.frozen && r.value.value.items == v.items
  {
    if !v.List? then Malformed(v, mutable, CellNotListWarning, CellNotListError)
    else WellFormed(v, mutable)
  }

  /** The `pbc` default: periodic along all three axes. */
  const DefaultPbc: Field<bool> := List([true, true, true], false)

  /** The `cell` default, `_DEFAULT_CELL`: three zero rows. */
  const DefaultCell: Field<seq<real>> := List([[0.0, 0.0, 0.0], [0.0, 0.0, 0.0], [0.0, 0.0, 0.0]], false)

  /** A `pbc` the validator accepts silently. */
  predicate PbcWellFormed(v: Field<bool>) {
    v.List? && |v.items| == 3
  }

  // ----- Validator properties -----

  /** The immutable model rejects `pbc` exactly when it is not a list or not of length 3, with the matching message. */
  lemma ImmutablePbcRejectsIffMalformed(v: Field<bool>)
    ensures ValidatePbc(v, false).Err? <==> !PbcWellFormed(v)
    ensures !v.List? ==> ValidatePbc(v, false) == Err(PbcNotListError)
    ensures v.List? && |v.items| != 3 ==> ValidatePbc(v, false) == Err(PbcLengthError)
  {
  }

  /** The mutable model never raises: it returns the value unchanged, warning exactly on malformed input. */
  lemma MutableOnlyWarns(p: Field<bool>, c: Field<seq<real>>)
    ensures ValidatePbc(p, true).Ok? && ValidateCell(c, true).Ok?
    ensures ValidatePbc(p, true).value.value == p
    ensures ValidateCell(c, true).value.value == c
    ensures ValidatePbc(p, true).value.warning.Some? <==> !PbcWellFormed(p)
    ensures ValidateCell(c, true).value.warning.Some? <==> !c.List?
  {
  }

  /** A well-formed value comes back with its entries, frozen by the immutable model and as-is by the mutable one, with no warning. */
  lemma WellFormedPassesThrough(p: Field<bool>, c: Field<seq<real>>, mutable: bool)
    requires PbcWellFormed(p) && c.List?
    ensures ValidatePbc(p, mutable) == Ok(Checked(if mutable then p else List(p.items, true), None))
    ensures ValidateCell(c, mutable) == Ok(Checked(if mutable then c else List(c.items, true), None))
  {
  }

  /** `validate_cell` checks no shape: any list is accepted, for instance one row of one entry. */
  lemma CellShapeUnchecked(rows: seq<seq<real>>, frozen: bool, mutable: bool)
    ensures ValidateCell(List(rows, frozen), mutable).Ok?
    ensures ValidateCell(List([[1.0]], false), false) == Ok(Checked(List([[1.0]], true), None))
  {
  }

  /** Validating what a validator returned, frozen or not, gives the same result again. */
  lemma ValidatorsIdempotent(p: Field<bool>, c: Field<seq<real>>, mutable: bool)
    requires ValidatePbc(p, mutable).Ok? && ValidateCell(c, mutable).Ok?
    ensures ValidatePbc(ValidatePbc(p, mutable).value.value, mutable) == ValidatePbc(p, mutable)
    ensures ValidateCell(ValidateCell(c, mutable).value.value, mutable) == ValidateCell(c, mutable)
  {
  }

  /**
    The defaults are well formed, and both validators would accept them in
    either model without a warning. Pydantic does not validate defaults, so
    the program itself never runs a validator on them.
  */
  lemma DefaultsAccepted(mutable: bool)
    ensures PbcWellFormed(DefaultPbc)
    ensures ValidatePbc(DefaultPbc, mutable) == Ok(Checked(if mutable then DefaultPbc else Freeze(DefaultPbc), None))
    ensures ValidateCell(DefaultCell, mutable) == Ok(Checked(if mutable then DefaultCell else Freeze(DefaultCell), None))
    ensures forall i, j :: 0 <= i < 3 && 0 <= j < 3 ==> DefaultCell.items[i][j] == 0.0
  {
  }

  // ----- Model construction -----

  /** The data handed to a model, each key present (`Some`) or absent. */
  datatype ModelInput = ModelInput(sites: Option<Field<int>>, cell: Option<Field<seq<real>>>, pbc: Option<Field<bool>>)

  /** `data.get(key, None)` is truthy: present, and a non-empty list or a truthy other value. */
  predicate Truthy<T>(o: Option<Field<T>>) {
    o.Some? && match o.value
               case List(items, _) => |items| > 0
               case Other(t) => t
  }

  /** The errors of `check_minimal_requirements`; `InvalidSites` stands for whatever `_check_valid_sites` raises. */
  datatype RequirementError = NoSites | InvalidSites | NoCell | NoPbc

  /**
    `check_minimal_requirements`, run before field validation: the sites, then
    the cell, then the pbc must be truthy; `sitesValid` is the outcome of
    `_check_valid_sites`. The data is returned unchanged.
  */
  function CheckMinimalRequirements(data: ModelInput, sitesValid: bool): (r: Result<ModelInput, RequirementError>)
    ensures r.Ok? <==> Truthy(data.sites) && sitesValid && Truthy(data.cell) && Truthy(data.pbc)
    ensures r.Ok? ==> r.value == data
  {
    if !Truthy(data.sites) then Err(NoSites)
    else if !sitesValid then Err(InvalidSites)
    else if !Truthy(data.cell) then Err(NoCell)
    else if !Truthy(data.pbc) then Err(NoPbc)
    else Ok(data)
  }

  /** The fields of a built model. */
  datatype StructureModel = StructureModel(sites: Field<int>, cell: Checked<seq<real>>, pbc: Checked<bool>)

  /** The errors of building a model: the model validator's, or a field validator's message. */
  datatype BuildError = Requirement(e: RequirementError) | FieldRejected(message: string)

  /** Building an `ImmutableStructureModel`: the model validator first, then the field validators. */
  function BuildImmutable(data: ModelInput, sitesValid: bool): (r: Result<StructureModel, BuildError>)
    ensures CheckMinimalRequirements(data, sitesValid).Err? ==>
              r == Err(Requirement(CheckMinimalRequirements(data, sitesValid).error))
    ensures r.Err? && CheckMinimalRequirements(data, sitesValid).Ok? ==> r.error.FieldRejected?
    ensures r.Ok? ==> r.value.sites == data.sites.value && r.value.pbc.warning.None? && r.value.cell.warning.None?
  {
    match CheckMinimalRequirements(data, sitesValid)
    case Err(e) => Err(Requirement(e))
    case Ok(d) =>
      match ValidatePbc(d.pbc.value, false)
      case Err(m) => Err(FieldRejected(m))
      case Ok(p) =>
        match ValidateCell(d.cell.value, false)
        case Err(m) => Err(FieldRejected(m))
        case Ok(c) => Ok(StructureModel(d.sites.value, c, p))
  }

  /**
    Building a `MutableStructureModel`: a missing field takes its default,
    which is not validated; a given one goes through its validator.
  */
  function BuildMutable(data: ModelInput): (r: Result<StructureModel, BuildError>)
    ensures r.Ok? ==> (r.value.pbc.warning.Some? <==> data.pbc.Some? && !PbcWellFormed(data.pbc.value))
    ensures r.Ok? ==> (r.value.cell.warning.Some? <==> data.cell.Some? && !data.cell.value.List?)
  {
    var sites := if data.sites.Some? then data.sites.value else List([], false);
    var pbc := if data.pbc.Some? then ValidatePbc(data.pbc.value, true) else Ok(Checked(DefaultPbc, None));
    var cell := if data.cell.Some? then ValidateCell(data.cell.value, true) else Ok(Checked(DefaultCell, None));
    match pbc
    case Err(m) => Err(FieldRejected(m))
    case Ok(p) =>
      match cell
      case Err(m) => Err(FieldRejected(m))
      case Ok(c) => Ok(StructureModel(sites, c, p))
  }

  // ----- Construction properties -----

  /** The checks run in order: missing sites are reported before a missing cell, and a missing cell before a missing pbc. */
  lemma MinimalRequirementsOrder(data: ModelInput, sitesValid: bool)
    ensures !Truthy(data.sites) ==> CheckMinimalRequirements(data, sitesValid) == Err(NoSites)
    ensures Truthy(data.sites) && sitesValid && !Truthy(data.cell) ==> CheckMinimalRequirements(data, sitesValid) == Err(NoCell)
    ensures Truthy(data.sites) && sitesValid && Truthy(data.cell) && !Truthy(data.pbc) ==> CheckMinimalRequirements(data, sitesValid) == Err(NoPbc)
  {
  }

  /**
    The requirements run before the defaults apply, so an immutable model
    without a cell or a pbc is rejected although both fields have defaults.
  */
  lemma DefaultsDoNotSatisfyRequirements(sites: Field<int>)
    requires Truthy(Some(sites))
    ensures BuildImmutable(ModelInput(Some(sites), None, Some(DefaultPbc)), true) == Err(Requirement(NoCell))
    ensures BuildImmutable(ModelInput(Some(sites), Some(DefaultCell), None), true) == Err(Requirement(NoPbc))
  {
  }

  /** A built immutable model holds a frozen pbc of three entries and a frozen list as cell, with exactly the entries given. */
  lemma ImmutableModelWellFormed(data: ModelInput, sitesValid: bool)
    requires BuildImmutable(data, sitesValid).Ok?
    ensures var m := BuildImmutable(data, sitesValid).value;
            && PbcWellFormed(m.pbc.value) && m.pbc.value == Freeze(data.pbc.value)
            && m.cell.value.List? && m.cell.value == Freeze(data.cell.value)
            && m.sites == data.sites.value && Truthy(Some(m.sites))
  {
  }

  /** An immutable model is built exactly when the requirements hold, the pbc has three entries and the cell is a list. */
  lemma ImmutableBuildIff(data: ModelInput, sitesValid: bool)
    ensures BuildImmutable(data, sitesValid).Ok? <==>
              CheckMinimalRequirements(data, sitesValid).Ok? && PbcWellFormed(data.pbc.value) && data.cell.value.List?
  {
  }

  /** Building a mutable model never fails; missing fields take the defaults. */
  lemma MutableAlwaysBuilds(data: ModelInput)
    ensures BuildMutable(data).Ok?
    ensures data.pbc.None? ==> BuildMutable(data).value.pbc.value == DefaultPbc
    ensures data.cell.None? ==> BuildMutable(data).value.cell.value == DefaultCell
    ensures data.sites.None? ==> BuildMutable(data).value.sites == List([], false)
    ensures data.pbc.Some? ==> BuildMutable(data).value.pbc.value == data.pbc.value
    ensures data.cell.Some? ==> BuildMutable(data).value.cell.value == data.cell.value
  {
  }
}
