/**
 * The metadata mapper of the tree-ensemble PMML import: it turns the columns of a PMML data dictionary
 * into a name-to-helper table for the attribute columns and a helper for the target column.
 *
 * The data dictionary is given as the column list the dictionary translator produces; reading the PMML
 * document is not part of this model.  Whether a name looks like a vector field is decided by a function
 * the caller supplies.
 */
module MetaDataMapper {
  import opened Outcomes

  // ---------------------------------------------------------------------------
  // Data model
  // ---------------------------------------------------------------------------

  /** The two compatibilities the mapper asks a column type about. */
  datatype DataType = DataType(isStringCompatible: bool, isDoubleCompatible: bool)

  /** A column domain: the possible values, if known, and whether lower and upper bounds are known. */
  datatype Domain = Domain(values: Option<set<string>>, hasBounds: bool)

  datatype ColumnSpec = ColumnSpec(name: string, columnType: DataType, domain: Domain)

  /** An attribute helper, recording its column and its position in the attribute-only spec. */
  datatype ColumnHelper = Nominal(spec: ColumnSpec, index: nat) | Numeric(spec: ColumnSpec, index: nat)

  /** The helper for the target column; what a concrete mapper builds from it is not part of this model. */
  datatype TargetColumnHelper = TargetColumnHelper(spec: ColumnSpec)

  /** Metadata of one attribute, as an attribute helper reports it. */
  datatype AttributeMetaData = AttributeMetaData(name: string, index: nat, nominal: bool)

  datatype TreeMetaData = TreeMetaData(attributes: set<AttributeMetaData>, target: ColumnSpec)

  datatype MapperError =
    | NoColumns                            // the target index is -1 when the dictionary is empty
    | VectorColumn(column: ColumnSpec)     // the column seems to originate from a vector column
    | UnsupportedType(column: ColumnSpec)  // only string- and double-compatible types are supported
    | UnknownField(field: string)          // the field is not part of the data dictionary
    | NotNominal(field: string)
    | NotNumeric(field: string)

  /** The mapper's final fields: the learn spec, the attribute helpers by name, the target helper. */
  datatype Mapper = Mapper(learnSpec: seq<ColumnSpec>, helpers: map<string, ColumnHelper>,
                           targetHelper: TargetColumnHelper)

  // ---------------------------------------------------------------------------
  // Checking and classifying one column
  // ---------------------------------------------------------------------------

  /** `checkForVectorColumn`: a column is rejected exactly when its name looks like a vector field and
      its domain information is missing, where "missing" depends on the column type. */
  function CheckForVectorColumn(column: ColumnSpec, isVectorFieldName: string -> bool): (r: Option<MapperError>)
    ensures r.Some? ==> r.value == VectorColumn(column)
    ensures r.Some? <==>
              && isVectorFieldName(column.name)
              && (|| (column.columnType.isStringCompatible &&
                       (column.domain.values.None? || column.domain.values.value == {}))
                  || (!column.columnType.isStringCompatible && column.columnType.isDoubleCompatible &&
                       !column.domain.hasBounds))
  {
    var possibleVectorName := isVectorFieldName(column.name);
    var domainInformationIsMissing :=
      if column.columnType.isStringCompatible then
        if column.domain.values.Some? then column.domain.values.value == {} else true
      else if column.columnType.isDoubleCompatible then !column.domain.hasBounds
      else false;
    if possibleVectorName && domainInformationIsMissing then Some(VectorColumn(column)) else None
  }

  /** The helper built for the column at `index`: nominal for string-compatible types, numeric for the
      other double-compatible types, an error otherwise. */
  function Classify(column: ColumnSpec, index: nat): (r: Result<ColumnHelper, MapperError>)
    ensures r.Ok? <==> column.columnType.isStringCompatible || column.columnType.isDoubleCompatible
    ensures r.Ok? ==> r.value.spec == column && r.value.index == index
    ensures r.Ok? ==> (r.value.Nominal? <==> column.columnType.isStringCompatible)
    ensures r.Err? ==> r.error == UnsupportedType(column)
  {
    if column.columnType.isStringCompatible then Ok(Nominal(column, index))
    else if column.columnType.isDoubleCompatible then Ok(Numeric(column, index))
    else Err(UnsupportedType(column))
  }

  /** What happens to the column at `index`: the vector check first, then the type classification. */
  function ColumnOutcome(column: ColumnSpec, index: nat, isVectorFieldName: string -> bool): Result<ColumnHelper, MapperError>
  {
    match CheckForVectorColumn(column, isVectorFieldName)
    case Some(e) => Err(e)
    case None => Classify(column, index)
  }

  // ---------------------------------------------------------------------------
  // The helper table
  // ---------------------------------------------------------------------------

  /** The table `createColumnHelperMapFromSpec` builds from an attribute-only spec: columns are processed
      in order, each put under its name; the first failing column aborts the construction. */
  function HelperMap(columns: seq<ColumnSpec>, isVectorFieldName: string -> bool): Result<map<string, ColumnHelper>, MapperError>
  {
    if |columns| == 0 then Ok(map[])
    else
      var n := |columns| - 1;
      match HelperMap(columns[..n], isVectorFieldName)
      case Err(e) => Err(e)
      case Ok(m) =>
        match ColumnOutcome(columns[n], n, isVectorFieldName)
        case Err(e) => Err(e)
        case Ok(h) => Ok(m[columns[n].name := h])
  }

  /** `createColumnHelperMapFromSpec`: the loop filling the table. */
  method CreateColumnHelperMapFromSpec(columns: seq<ColumnSpec>, isVectorFieldName: string -> bool)
    returns (r: Result<map<string, ColumnHelper>, MapperError>)
    ensures r == HelperMap(columns, isVectorFieldName)
  {
    var helpers: map<string, ColumnHelper> := map[];
    for i := 0 to |columns|
      invariant HelperMap(columns[..i], isVectorFieldName) == Ok(helpers)
    {
      var colSpec := columns[i];
      assert columns[..i + 1][..i] == columns[..i];
      var check := CheckForVectorColumn(colSpec, isVectorFieldName);
      if check.Some? {
        HelperMapErrorPersists(columns, i + 1, isVectorFieldName);
        return Err(check.value);
      }
      if colSpec.columnType.isStringCompatible {
        helpers := helpers[colSpec.name := Nominal(colSpec, i)];
      } else if colSpec.columnType.isDoubleCompatible {
        helpers := helpers[colSpec.name := Numeric(colSpec, i)];
      } else {
        HelperMapErrorPersists(columns, i + 1, isVectorFieldName);
        return Err(UnsupportedType(colSpec));
      }
    }
    assert columns[..|columns|] == columns;
    r := Ok(helpers);
  }

  /** Once a prefix of the columns fails, the whole table fails with the same error. */
  lemma {:induction false} HelperMapErrorPersists(columns: seq<ColumnSpec>, i: nat, isVectorFieldName: string -> bool)
    requires i <= |columns|
    requires HelperMap(columns[..i], isVectorFieldName).Err?
    ensures HelperMap(columns, isVectorFieldName) == HelperMap(columns[..i], isVectorFieldName)
    decreases |columns| - i
  {
    if i < |columns| {
      assert columns[..i + 1][..i] == columns[..i];
      assert HelperMap(columns[..i + 1], isVectorFieldName) == HelperMap(columns[..i], isVectorFieldName);
      HelperMapErrorPersists(columns, i + 1, isVectorFieldName);
    } else {
      assert columns[..i] == columns;
    }
  }

  /** The table is built exactly when every column passes the vector check and has a supported type. */
  lemma {:induction false} HelperMapSucceeds(columns: seq<ColumnSpec>, isVectorFieldName: string -> bool)
    ensures HelperMap(columns, isVectorFieldName).Ok? <==>
              forall i :: 0 <= i < |columns| ==> ColumnOutcome(columns[i], i, isVectorFieldName).Ok?
  {
    if |columns| > 0 {
      var n := |columns| - 1;
      HelperMapSucceeds(columns[..n], isVectorFieldName);
      assert forall i :: 0 <= i < n ==> columns[..n][i] == columns[i];
    }
  }

  /** A failed construction reports the first failing column's error, and the vector check of that column
      takes precedence over its type check. */
  lemma {:induction false} HelperMapReportsFirstFailure(columns: seq<ColumnSpec>, isVectorFieldName: string -> bool)
    requires HelperMap(columns, isVectorFieldName).Err?
    ensures exists i :: && 0 <= i < |columns|
                        && (forall j :: 0 <= j < i ==> ColumnOutcome(columns[j], j, isVectorFieldName).Ok?)
                        && ColumnOutcome(columns[i], i, isVectorFieldName).Err? && HelperMap(columns, isVectorFieldName).error == ColumnOutcome(columns[i], i, isVectorFieldName).error
  {
    var n := |columns| - 1;
    var prefix := columns[..n];
    assert forall j :: 0 <= j < n ==> prefix[j] == columns[j];
    if HelperMap(prefix, isVectorFieldName).Err? {
      HelperMapReportsFirstFailure(prefix, isVectorFieldName);
      var i :| && 0 <= i < |prefix|
               && (forall j :: 0 <= j < i ==> ColumnOutcome(prefix[j], j, isVectorFieldName).Ok?)
               && ColumnOutcome(prefix[i], i, isVectorFieldName).Err? && HelperMap(prefix, isVectorFieldName).error == ColumnOutcome(prefix[i], i, isVectorFieldName).error;
      assert ColumnOutcome(columns[i], i, isVectorFieldName).Err? && HelperMap(columns, isVectorFieldName).error == ColumnOutcome(columns[i], i, isVectorFieldName).error;
    } else {
      HelperMapSucceeds(prefix, isVectorFieldName);
      assert ColumnOutcome(columns[n], n, isVectorFieldName).Err? && HelperMap(columns, isVectorFieldName).error == ColumnOutcome(columns[n], n, isVectorFieldName).error;
    }
  }

  /** The table's keys are exactly the column names. */
  lemma {:induction false} HelperMapKeys(columns: seq<ColumnSpec>, isVectorFieldName: string -> bool)
    requires HelperMap(columns, isVectorFieldName).Ok?
    ensures HelperMap(columns, isVectorFieldName).value.Keys == set i | 0 <= i < |columns| :: columns[i].name
  {
    if |columns| > 0 {
      var n := |columns| - 1;
      var prefix := columns[..n];
      HelperMapKeys(prefix, isVectorFieldName);
      var before := set i | 0 <= i < n :: prefix[i].name;
      var after := set i | 0 <= i < |columns| :: columns[i].name;
      forall k | k in after
        ensures k in before + {columns[n].name}
      {
        var i :| 0 <= i < |columns| && columns[i].name == k;
        if i < n {
          assert prefix[i].name == k;
        }
      }
      forall k | k in before
        ensures k in after
      {
        var i :| 0 <= i < n && prefix[i].name == k;
        assert columns[i].name == k;
      }
    }
  }

  /** Every entry is keyed by its own column's name and records that column's position. */
  lemma {:induction false} HelperMapEntriesSelfNamed(columns: seq<ColumnSpec>, isVectorFieldName: string -> bool)
    requires HelperMap(columns, isVectorFieldName).Ok?
    ensures var m := HelperMap(columns, isVectorFieldName).value;
            forall k :: k in m ==> m[k].spec.name == k && m[k].index < |columns| && m[k].spec == columns[m[k].index]
  {
    if |columns| > 0 {
      var n := |columns| - 1;
      var prefix := columns[..n];
      HelperMapEntriesSelfNamed(prefix, isVectorFieldName);
      var m0 := HelperMap(prefix, isVectorFieldName).value;
      var m := HelperMap(columns, isVectorFieldName).value;
      forall k | k in m
        ensures m[k].spec.name == k && m[k].index < |columns| && m[k].spec == columns[m[k].index]
      {
        if k != columns[n].name {
          assert m[k] == m0[k];
          assert prefix[m0[k].index] == columns[m0[k].index];
        }
      }
    }
  }

  /** The entry under a column's name is that column's helper, unless a later column has the same name
      (the later `put` wins). */
  lemma {:induction false} HelperMapLastPutWins(columns: seq<ColumnSpec>, isVectorFieldName: string -> bool, i: nat)
    requires HelperMap(columns, isVectorFieldName).Ok?
    requires i < |columns|
    requires forall j :: i < j < |columns| ==> columns[j].name != columns[i].name
    ensures columns[i].name in HelperMap(columns, isVectorFieldName).value
    ensures ColumnOutcome(columns[i], i, isVectorFieldName) == Ok(HelperMap(columns, isVectorFieldName).value[columns[i].name])
  {
    var n := |columns| - 1;
    var prefix := columns[..n];
    if i < n {
      assert prefix[i] == columns[i];
      forall j | i < j < |prefix|
        ensures prefix[j].name != prefix[i].name
      {
        assert prefix[j] == columns[j];
      }
      HelperMapLastPutWins(prefix, isVectorFieldName, i);
    }
  }

  /** With distinct column names there is one entry per column, each recording its own position. */
  lemma HelperMapOnePerColumn(columns: seq<ColumnSpec>, isVectorFieldName: string -> bool)
    requires HelperMap(columns, isVectorFieldName).Ok?
    requires forall i, j :: 0 <= i < j < |columns| ==> columns[i].name != columns[j].name
    ensures var m := HelperMap(columns, isVectorFieldName).value;
            && |m| == |columns|
            && forall i :: 0 <= i < |columns| ==>
                 columns[i].name in m && m[columns[i].name].index == i &&
                 (m[columns[i].name].Nominal? <==> columns[i].columnType.isStringCompatible)
  {
    var m := HelperMap(columns, isVectorFieldName).value;
    HelperMapSize(columns, isVectorFieldName);
    forall i | 0 <= i < |columns|
      ensures columns[i].name in m && m[columns[i].name].index == i
      ensures m[columns[i].name].Nominal? <==> columns[i].columnType.isStringCompatible
    {
      HelperMapLastPutWins(columns, isVectorFieldName, i);
    }
  }

  /** With distinct column names every `put` adds a new key. */
  lemma {:induction false} HelperMapSize(columns: seq<ColumnSpec>, isVectorFieldName: string -> bool)
    requires HelperMap(columns, isVectorFieldName).Ok?
    requires forall i, j :: 0 <= i < j < |columns| ==> columns[i].name != columns[j].name
    ensures |HelperMap(columns, isVectorFieldName).value| == |columns|
  {
    if |columns| > 0 {
      var n := |columns| - 1;
      var prefix := columns[..n];
      forall i, j | 0 <= i < j < n
        ensures prefix[i].name != prefix[j].name
      {
        assert prefix[i] == columns[i] && prefix[j] == columns[j];
      }
      HelperMapSize(prefix, isVectorFieldName);
      HelperMapKeys(prefix, isVectorFieldName);
      forall i | 0 <= i < n
        ensures prefix[i].name != columns[n].name
      {
        assert prefix[i] == columns[i];
      }
    }
  }

  // ---------------------------------------------------------------------------
  // The mapper
  // ---------------------------------------------------------------------------

  /** The constructor: the last dictionary column is the target, the others make up the attribute-only
      spec the helper table is built from. */
  function NewMapper(dictionary: seq<ColumnSpec>, isVectorFieldName: string -> bool): Result<Mapper, MapperError>
  {
    if |dictionary| == 0 then Err(NoColumns)
    else
      var targetIdx := |dictionary| - 1;
      match HelperMap(dictionary[..targetIdx], isVectorFieldName)
      case Err(e) => Err(e)
      case Ok(m) => Ok(Mapper(dictionary, m, TargetColumnHelper(dictionary[targetIdx])))
  }

  /** A built mapper keeps the dictionary as learn spec, takes the last column as target and registers
      helpers for the other columns only, each with its position in the attribute-only spec; an empty
      dictionary is rejected. */
  lemma NewMapperSplitsTarget(dictionary: seq<ColumnSpec>, isVectorFieldName: string -> bool)
    ensures |dictionary| == 0 ==> NewMapper(dictionary, isVectorFieldName) == Err(NoColumns)
    ensures NewMapper(dictionary, isVectorFieldName).Ok? ==>
              var mapper := NewMapper(dictionary, isVectorFieldName).value;
              && |dictionary| > 0
              && mapper.learnSpec == dictionary
              && mapper.targetHelper.spec == dictionary[|dictionary| - 1]
              && forall k :: k in mapper.helpers ==>
                   mapper.helpers[k].index < |dictionary| - 1 &&
                   mapper.helpers[k].spec == dictionary[mapper.helpers[k].index]
  {
    if |dictionary| > 0 && NewMapper(dictionary, isVectorFieldName).Ok? {
      var attributes := dictionary[..|dictionary| - 1];
      HelperMapEntriesSelfNamed(attributes, isVectorFieldName);
      assert forall i :: 0 <= i < |attributes| ==> attributes[i] == dictionary[i];
    }
  }

  /** The mapper is built exactly when the dictionary is non-empty and every attribute column (the target
      excluded) passes the vector check and has a supported type. */
  lemma NewMapperSucceeds(dictionary: seq<ColumnSpec>, isVectorFieldName: string -> bool)
    ensures NewMapper(dictionary, isVectorFieldName).Ok? <==>
              |dictionary| > 0 &&
              forall i :: 0 <= i < |dictionary| - 1 ==> ColumnOutcome(dictionary[i], i, isVectorFieldName).Ok?
  {
    if |dictionary| > 0 {
      var attributes := dictionary[..|dictionary| - 1];
      HelperMapSucceeds(attributes, isVectorFieldName);
      assert forall i :: 0 <= i < |attributes| ==> attributes[i] == dictionary[i];
    }
  }

  /** `getColumnHelper`: the registered helper, or an error for a field outside the dictionary. */
  function GetColumnHelper(mapper: Mapper, field: string): (r: Result<ColumnHelper, MapperError>)
    ensures r.Ok? <==> field in mapper.helpers
    ensures r.Ok? ==> r.value == mapper.helpers[field]
    ensures r.Err? ==> r.error == UnknownField(field)
  {
    if field in mapper.helpers then Ok(mapper.helpers[field]) else Err(UnknownField(field))
  }

  /** `isNominal`: whether the registered helper is nominal; unknown fields fail. */
  function IsNominal(mapper: Mapper, field: string): (r: Result<bool, MapperError>)
    ensures r.Ok? <==> field in mapper.helpers
    ensures r.Ok? ==> (r.value <==> mapper.helpers[field].Nominal?)
    ensures r.Err? ==> r.error == UnknownField(field)
  {
    match GetColumnHelper(mapper, field)
    case Err(e) => Err(e)
    case Ok(h) => Ok(h.Nominal?)
  }

  /** `getNominalColumnHelper`: fails for unknown fields and for numeric ones. */
  function GetNominalColumnHelper(mapper: Mapper, field: string): (r: Result<ColumnHelper, MapperError>)
    ensures r.Ok? <==> field in mapper.helpers && mapper.helpers[field].Nominal?
    ensures r.Ok? ==> r.value == mapper.helpers[field]
    ensures field !in mapper.helpers ==> r == Err(UnknownField(field))
    ensures field in mapper.helpers && mapper.helpers[field].Numeric? ==> r == Err(NotNominal(field))
  {
    match GetColumnHelper(mapper, field)
    case Err(e) => Err(e)
    case Ok(h) => if h.Nominal? then Ok(h) else Err(NotNominal(field))
  }

  /** `getNumericColumnHelper`: fails for unknown fields and for nominal ones. */
  function GetNumericColumnHelper(mapper: Mapper, field: string): (r: Result<ColumnHelper, MapperError>)
    ensures r.Ok? <==> field in mapper.helpers && mapper.helpers[field].Numeric?
    ensures r.Ok? ==> r.value == mapper.helpers[field]
    ensures field !in mapper.helpers ==> r == Err(UnknownField(field))
    ensures field in mapper.helpers && mapper.helpers[field].Nominal? ==> r == Err(NotNumeric(field))
  {
    match GetColumnHelper(mapper, field)
    case Err(e) => Err(e)
    case Ok(h) => if h.Numeric? then Ok(h) else Err(NotNumeric(field))
  }

  /** For a field of the dictionary exactly one of the two typed getters succeeds, and `isNominal` says
      which. */
  lemma TypedGettersPartition(mapper: Mapper, field: string)
    requires field in mapper.helpers
    ensures GetNominalColumnHelper(mapper, field).Ok? != GetNumericColumnHelper(mapper, field).Ok?
    ensures IsNominal(mapper, field) == Ok(GetNominalColumnHelper(mapper, field).Ok?)
  {
  }

  /** The metadata an attribute helper reports. */
  function MetaDataOf(h: ColumnHelper): AttributeMetaData
  {
    AttributeMetaData(h.spec.name, h.index, h.Nominal?)
  }

  /** `getTreeMetaData`: the metadata of every registered helper (in the table's unspecified iteration
      order, hence a set), plus the target's. */
  function GetTreeMetaData(mapper: Mapper): TreeMetaData
  {
    TreeMetaData(set k | k in mapper.helpers :: MetaDataOf(mapper.helpers[k]), mapper.targetHelper.spec)
  }

  /** For a mapper built from a dictionary, the tree metadata holds exactly one attribute entry per
      registered helper, each naming its field, and describes the target column. */
  lemma TreeMetaDataOnePerHelper(dictionary: seq<ColumnSpec>, isVectorFieldName: string -> bool)
    requires NewMapper(dictionary, isVectorFieldName).Ok?
    ensures var mapper := NewMapper(dictionary, isVectorFieldName).value;
            var meta := GetTreeMetaData(mapper);
            && |meta.attributes| == |mapper.helpers|
            && (forall k :: k in mapper.helpers ==> MetaDataOf(mapper.helpers[k]) in meta.attributes)
            && (forall a :: a in meta.attributes ==> a.name in mapper.helpers && MetaDataOf(mapper.helpers[a.name]) == a)
            && meta.target == dictionary[|dictionary| - 1]
  {
    var mapper := NewMapper(dictionary, isVectorFieldName).value;
    HelperMapEntriesSelfNamed(dictionary[..|dictionary| - 1], isVectorFieldName);
    InjectiveImageCard(mapper.helpers);
  }

  /** The helper metadata of a table whose helpers carry their own key have as many elements as keys. */
  lemma {:induction false} InjectiveImageCard(m: map<string, ColumnHelper>)
    requires forall k :: k in m ==> m[k].spec.name == k
    ensures |set k | k in m :: MetaDataOf(m[k])| == |m|
    decreases |m|
  {
    if |m| > 0 {
      var k :| k in m;
      var rest := m - {k};
      InjectiveImageCard(rest);
      var image := set j | j in m :: MetaDataOf(m[j]);
      var restImage := set j | j in rest :: MetaDataOf(rest[j]);
      forall a | a in image
        ensures a in restImage + {MetaDataOf(m[k])}
      {
        var j :| j in m && MetaDataOf(m[j]) == a;
        if j != k {
          assert j in rest && MetaDataOf(rest[j]) == a;
        }
      }
      forall a | a in restImage
        ensures a in image
      {
        var j :| j in rest && MetaDataOf(rest[j]) == a;
        assert j in m && m[j] == rest[j];
      }
      assert image == restImage + {MetaDataOf(m[k])};
      assert MetaDataOf(m[k]).name == k;
      assert forall a :: a in restImage ==> a.name != k;
    }
  }
}
