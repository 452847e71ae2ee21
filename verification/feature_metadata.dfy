/** Feature metadata of the responsible-AI toolbox: the roles a user declares for the columns
    of a dataset (an identity feature, a time column, categorical features, dropped features
    and time-series ID columns) and the check that every declared column exists.

    The class FeatureMetadata below is the object `__init__` evidently means to build: its
    four parameters plus the time-series ID columns that its last assignment reads. The module
    as written cannot produce such an object (`__init__` reads an undefined name), and its
    `to_dict` and `__eq__` read an attribute that is never assigned; the functions named
    ...AsWritten model that code line by line over the object's attribute dictionary. */
module Metadata {
  import opened Results

  /** A Python value given for a column group: None, one str, or a list of str. The
      parameters are annotated Optional[str] or Optional[List[str]], but Python does not
      enforce annotations, so each field may hold any of the three. */
  datatype PyValue = PyNone | PyStr(s: string) | PyList(items: seq<string>)

  /** The exceptions this code raises. */
  datatype PyError =
    | UserConfigValidation(purpose: string, column: string, featureNames: seq<string>)
    | NotIterable             // TypeError: 'NoneType' object is not iterable
    | NameError(name: string)
    | AttributeError(name: string)

  /** The five column groups of a metadata object. */
  datatype Fields = Fields(
    identityFeatureName: PyValue,
    timeColumnName: PyValue,
    categoricalFeatures: PyValue,
    droppedFeatures: PyValue,
    timeSeriesIdColumnNames: PyValue)

  // ---------------------------------------------------------------------------------------
  // The column check

  /** `_validate_columns` over the columns its loop visits: returns normally exactly when
      every column is a feature; otherwise raises for the first missing column, naming the
      group's purpose, that column and the whole feature list. */
  function ValidateColumns(purpose: string, columns: seq<string>, featureNames: seq<string>): (r: Outcome<PyError>)
    ensures r.Pass? <==> forall c :: c in columns ==> c in featureNames
    ensures r.Fail? ==>
      exists i :: 0 <= i < |columns| &&
        r.error == UserConfigValidation(purpose, columns[i], featureNames) &&
        columns[i] !in featureNames &&
        forall j :: 0 <= j < i ==> columns[j] in featureNames
  {
    if columns == [] then Pass
    else if columns[0] !in featureNames then Fail(UserConfigValidation(purpose, columns[0], featureNames))
    else
      var r := ValidateColumns(purpose, columns[1..], featureNames);
      assert forall i :: 0 <= i < |columns[1..]| ==> columns[1..][i] == columns[i + 1];
      assert forall c :: c in columns ==> c == columns[0] || c in columns[1..];
      r
  }

  /** Python's `for column_name in v`: a list yields its items, a str yields its characters
      one at a time, and None cannot be iterated. */
  function Iterate(v: PyValue): (r: Result<seq<string>, PyError>)
    ensures r.Failure? <==> v.PyNone?
    ensures r.Failure? ==> r.error == NotIterable
    ensures v.PyList? ==> r == Success(v.items)
    ensures v.PyStr? ==> (r.Success? && |r.value| == |v.s| &&
      forall i :: 0 <= i < |v.s| ==> r.value[i] == [v.s[i]])
  {
    match v
    case PyNone => Failure(NotIterable)
    case PyStr(s) => Success(seq(|s|, i requires 0 <= i < |s| => [s[i]]))
    case PyList(items) => Success(items)
  }

  /** The columns a value declares, as the type annotations mean it: None declares none, a str
      names one column, a list names its items. */
  function DeclaredColumns(v: PyValue): seq<string> {
    match v
    case PyNone => []
    case PyStr(s) => [s]
    case PyList(items) => items
  }

  function Declared(v: PyValue): Result<seq<string>, PyError> {
    Success(DeclaredColumns(v))
  }

  /** One call of `_validate_columns`: a purpose label and the value passed for it. */
  datatype Group = Group(purpose: string, value: PyValue)

  /** The five calls `validate` makes, in its order: dropped, categorical, identity, time
      column, time-series ID. */
  function Groups(f: Fields): seq<Group> {
    [Group("dropped feature", f.droppedFeatures),
     Group("categorical feature", f.categoricalFeatures),
     Group("identity feature", f.identityFeatureName),
     Group("time column", f.timeColumnName),
     Group("time series ID column", f.timeSeriesIdColumnNames)]
  }

  /** One group's check; read turns the value into the columns the loop visits. */
  function CheckGroup(read: PyValue -> Result<seq<string>, PyError>, g: Group, featureNames: seq<string>): (r: Outcome<PyError>)
    ensures r.Pass? <==> read(g.value).Success? && forall c :: c in read(g.value).value ==> c in featureNames
    ensures r.Fail? && read(g.value).Failure? ==> r.error == read(g.value).error
    ensures r.Fail? && read(g.value).Success? ==>
      r.error.UserConfigValidation? && r.error.purpose == g.purpose &&
      r.error.column in read(g.value).value && r.error.column !in featureNames
  {
    match read(g.value)
    case Failure(e) => Fail(e)
    case Success(columns) => ValidateColumns(g.purpose, columns, featureNames)
  }

  /** The groups from index k on, one after another: the first that raises ends the call. */
  function CheckGroupsFrom(read: PyValue -> Result<seq<string>, PyError>, groups: seq<Group>, featureNames: seq<string>, k: nat): (r: Outcome<PyError>)
    requires k <= |groups|
    ensures r.Pass? <==> forall i :: k <= i < |groups| ==> CheckGroup(read, groups[i], featureNames).Pass?
    ensures r.Fail? ==>
      exists i :: k <= i < |groups| &&
        CheckGroup(read, groups[i], featureNames) == r &&
        forall j :: k <= j < i ==> CheckGroup(read, groups[j], featureNames).Pass?
    decreases |groups| - k
  {
    if k == |groups| then Pass
    else match CheckGroup(read, groups[k], featureNames)
      case Fail(e) => Fail(e)
      case Pass => CheckGroupsFrom(read, groups, featureNames, k + 1)
  }

  /** Every column the five groups declare, in the order `validate` checks them. */
  function AllDeclared(f: Fields): seq<string> {
    DeclaredColumns(f.droppedFeatures) + DeclaredColumns(f.categoricalFeatures) +
    DeclaredColumns(f.identityFeatureName) + DeclaredColumns(f.timeColumnName) +
    DeclaredColumns(f.timeSeriesIdColumnNames)
  }

  /** `validate` with each group read as the columns it declares. */
  function ValidateDeclared(f: Fields, featureNames: seq<string>): Outcome<PyError> {
    CheckGroupsFrom(Declared, Groups(f), featureNames, 0)
  }

  /** `validate` as written: each group is iterated, so a str is checked character by
      character and None raises TypeError. */
  function ValidateAsWritten(f: Fields, featureNames: seq<string>): (r: Outcome<PyError>)
    ensures r.Pass? <==> forall g :: g in Groups(f) ==>
      g.value != PyNone && forall c :: c in Iterate(g.value).value ==> c in featureNames
    ensures r.Fail? ==>
      r.error == NotIterable || (r.error.UserConfigValidation? && r.error.column !in featureNames)
  {
    var gs := Groups(f);
    assert forall g :: g in gs <==> exists i :: 0 <= i < |gs| && gs[i] == g;
    CheckGroupsFrom(Iterate, gs, featureNames, 0)
  }

  /** Validation with declared columns succeeds exactly when every column declared in any of
      the five groups is one of the features. */
  lemma ValidateDeclaredIff(f: Fields, featureNames: seq<string>)
    ensures ValidateDeclared(f, featureNames).Pass? <==>
      forall c :: c in AllDeclared(f) ==> c in featureNames
  {
    var gs := Groups(f);
    var d0, d1, d2 := DeclaredColumns(gs[0].value), DeclaredColumns(gs[1].value), DeclaredColumns(gs[2].value);
    var d3, d4 := DeclaredColumns(gs[3].value), DeclaredColumns(gs[4].value);
    assert AllDeclared(f) == d0 + d1 + d2 + d3 + d4;
    assert forall c :: c in AllDeclared(f) <==> c in d0 || c in d1 || c in d2 || c in d3 || c in d4;
    assert (forall i :: 0 <= i < |gs| ==> CheckGroup(Declared, gs[i], featureNames).Pass?) <==>
      CheckGroup(Declared, gs[0], featureNames).Pass? && CheckGroup(Declared, gs[1], featureNames).Pass? &&
      CheckGroup(Declared, gs[2], featureNames).Pass? && CheckGroup(Declared, gs[3], featureNames).Pass? &&
      CheckGroup(Declared, gs[4], featureNames).Pass?;
  }

  /** A failed validation with declared columns reports a declared column that is missing,
      together with the whole feature list. */
  lemma ValidateDeclaredFailure(f: Fields, featureNames: seq<string>)
    requires ValidateDeclared(f, featureNames).Fail?
    ensures ValidateDeclared(f, featureNames).error.UserConfigValidation?
    ensures ValidateDeclared(f, featureNames).error.featureNames == featureNames
    ensures ValidateDeclared(f, featureNames).error.column in AllDeclared(f)
    ensures ValidateDeclared(f, featureNames).error.column !in featureNames
  {
    var gs := Groups(f);
    var r := ValidateDeclared(f, featureNames);
    var i :| 0 <= i < |gs| && CheckGroup(Declared, gs[i], featureNames) == r;
    var cols := DeclaredColumns(gs[i].value);
    var m :| 0 <= m < |cols| && r.error == UserConfigValidation(gs[i].purpose, cols[m], featureNames) &&
      cols[m] !in featureNames;
    assert AllDeclared(f) == DeclaredColumns(gs[0].value) + DeclaredColumns(gs[1].value) +
      DeclaredColumns(gs[2].value) + DeclaredColumns(gs[3].value) + DeclaredColumns(gs[4].value);
    assert cols[m] in cols;
  }

  /** The groups are checked in a fixed order, so the error of the first group that has a
      missing column is the one raised, whatever the later groups hold. */
  lemma EarlierGroupWins(f: Fields, featureNames: seq<string>, k: nat)
    requires k < 5
    requires forall j :: 0 <= j < k ==>
      forall c :: c in DeclaredColumns(Groups(f)[j].value) ==> c in featureNames
    requires exists c :: c in DeclaredColumns(Groups(f)[k].value) && c !in featureNames
    ensures ValidateDeclared(f, featureNames) ==
      ValidateColumns(Groups(f)[k].purpose, DeclaredColumns(Groups(f)[k].value), featureNames)
  {
    var gs := Groups(f);
    var r := ValidateDeclared(f, featureNames);
    assert CheckGroup(Declared, gs[k], featureNames).Fail?;
    var i :| 0 <= i < |gs| && CheckGroup(Declared, gs[i], featureNames) == r &&
      forall j :: 0 <= j < i ==> CheckGroup(Declared, gs[j], featureNames).Pass?;
  }

  /** A dropped feature missing from the dataset is always the error reported, naming the first
      such column. */
  lemma DroppedFeatureReportedFirst(f: Fields, featureNames: seq<string>, i: nat)
    requires i < |DeclaredColumns(f.droppedFeatures)|
    requires DeclaredColumns(f.droppedFeatures)[i] !in featureNames
    requires forall j :: 0 <= j < i ==> DeclaredColumns(f.droppedFeatures)[j] in featureNames
    ensures ValidateDeclared(f, featureNames) ==
      Fail(UserConfigValidation("dropped feature", DeclaredColumns(f.droppedFeatures)[i], featureNames))
  {
    var cols := DeclaredColumns(f.droppedFeatures);
    assert cols[i] in cols;
    EarlierGroupWins(f, featureNames, 0);
    var r := ValidateColumns("dropped feature", cols, featureNames);
    var m :| 0 <= m < |cols| && r.error == UserConfigValidation("dropped feature", cols[m], featureNames) &&
      cols[m] !in featureNames && forall j :: 0 <= j < m ==> cols[j] in featureNames;
  }

  // ---------------------------------------------------------------------------------------
  // The object

  class FeatureMetadata {
    var identityFeatureName: PyValue
    var timeColumnName: PyValue
    var categoricalFeatures: PyValue
    var droppedFeatures: PyValue
    var timeSeriesIdColumnNames: PyValue

    /** `__init__`, with the time-series ID parameter its body reads: every argument is stored
        unchanged in the field of the same name. */
    constructor (identityFeatureName: PyValue := PyNone, timeColumnName: PyValue := PyNone,
                 categoricalFeatures: PyValue := PyNone, droppedFeatures: PyValue := PyNone,
                 timeSeriesIdColumnNames: PyValue := PyNone)
      ensures this.identityFeatureName == identityFeatureName
      ensures this.timeColumnName == timeColumnName
      ensures this.categoricalFeatures == categoricalFeatures
      ensures this.droppedFeatures == droppedFeatures
      ensures this.timeSeriesIdColumnNames == timeSeriesIdColumnNames
    {
      this.identityFeatureName := identityFeatureName;
      this.timeColumnName := timeColumnName;
      this.categoricalFeatures := categoricalFeatures;
      this.droppedFeatures := droppedFeatures;
      this.timeSeriesIdColumnNames := timeSeriesIdColumnNames;
    }

    function Snapshot(): Fields
      reads this
    {
      Fields(identityFeatureName, timeColumnName, categoricalFeatures, droppedFeatures,
             timeSeriesIdColumnNames)
    }

    /** `validate(feature_names)`: returns normally exactly when every declared column is a
        feature; otherwise raises for a declared column that is missing. It reads the object
        and changes nothing. */
    function Validate(featureNames: seq<string>): (r: Outcome<PyError>)
      reads this
      ensures r.Pass? <==> forall c :: c in AllDeclared(Snapshot()) ==> c in featureNames
      ensures r.Fail? ==> (
        r.error.UserConfigValidation? && r.error.featureNames == featureNames &&
        r.error.column in AllDeclared(Snapshot()) && r.error.column !in featureNames)
    {
      var f := Snapshot();
      ValidateDeclaredIff(f, featureNames);
      var r := ValidateDeclared(f, featureNames);
      if r.Fail? then ValidateDeclaredFailure(f, featureNames); r else r
    }

    /** `to_dict()`: exactly the four keys identity_feature_name, datetime_features,
        categorical_features and dropped_features, with the time column under
        datetime_features. */
    function ToDict(): (d: map<string, PyValue>)
      reads this
      ensures d.Keys == {"identity_feature_name", "datetime_features", "categorical_features", "dropped_features"}
      ensures d["identity_feature_name"] == identityFeatureName
      ensures d["datetime_features"] == timeColumnName
      ensures d["categorical_features"] == categoricalFeatures
      ensures d["dropped_features"] == droppedFeatures
    {
      map["identity_feature_name" := identityFeatureName,
          "datetime_features" := timeColumnName,
          "categorical_features" := categoricalFeatures,
          "dropped_features" := droppedFeatures]
    }

    /** `__eq__(other)`: true exactly when all five fields are pairwise equal. */
    function Equals(other: FeatureMetadata): (r: bool)
      reads this, other
      ensures r <==> Snapshot() == other.Snapshot()
    {
      identityFeatureName == other.identityFeatureName &&
      timeColumnName == other.timeColumnName &&
      categoricalFeatures == other.categoricalFeatures &&
      droppedFeatures == other.droppedFeatures &&
      timeSeriesIdColumnNames == other.timeSeriesIdColumnNames
    }
  }

  /** Equality is reflexive, symmetric and transitive. */
  lemma EqualsIsEquivalence(a: FeatureMetadata, b: FeatureMetadata, c: FeatureMetadata)
    ensures a.Equals(a)
    ensures a.Equals(b) <==> b.Equals(a)
    ensures a.Equals(b) && b.Equals(c) ==> a.Equals(c)
  {
  }

  /** Equal metadata objects convert to equal dictionaries. */
  lemma EqualMetadataSameDict(a: FeatureMetadata, b: FeatureMetadata)
    requires a.Equals(b)
    ensures a.ToDict() == b.ToDict()
  {
  }

  // ---------------------------------------------------------------------------------------
  // The code as written, over the object's attribute dictionary

  /** An object's attributes (`__dict__`). */
  type Attributes = map<string, PyValue>

  /** `obj.name`: the attribute's value, or AttributeError when it was never assigned. */
  function GetAttr(obj: Attributes, name: string): (r: Result<PyValue, PyError>)
    ensures r.Success? <==> name in obj
    ensures r.Success? ==> r.value == obj[name]
    ensures r.Failure? ==> r.error == AttributeError(name)
  {
    if name in obj then Success(obj[name]) else Failure(AttributeError(name))
  }

  /** The attributes `__init__` assigns, when it completes. */
  function AttributesOf(f: Fields): Attributes {
    map["identity_feature_name" := f.identityFeatureName,
        "time_column_name" := f.timeColumnName,
        "categorical_features" := f.categoricalFeatures,
        "dropped_features" := f.droppedFeatures,
        "time_series_id_column_names" := f.timeSeriesIdColumnNames]
  }

  /** `__init__` as written, with its four parameters: the assignment of
      time_series_id_column_names reads a name that is neither a parameter nor one of the
      module's globals (its imports and the class), so every construction raises NameError. */
  function InitAsWritten(identityFeatureName: PyValue, timeColumnName: PyValue,
                         categoricalFeatures: PyValue, droppedFeatures: PyValue): (r: Result<Attributes, PyError>)
    ensures r == Failure(NameError("time_series_id_column_names"))
  {
    var locals := map["identity_feature_name" := identityFeatureName,
                      "time_column_name" := timeColumnName,
                      "categorical_features" := categoricalFeatures,
                      "dropped_features" := droppedFeatures];
    match LookupName(locals, "time_series_id_column_names")
    case Failure(e) => Failure(e)
    case Success(v) =>
      Success(AttributesOf(Fields(identityFeatureName, timeColumnName, categoricalFeatures,
                                  droppedFeatures, v)))
  }

  /** Reading a variable: its value in the scope, or NameError. */
  function LookupName(scope: map<string, PyValue>, name: string): (r: Result<PyValue, PyError>)
    ensures r.Success? <==> name in scope
    ensures r.Failure? ==> r.error == NameError(name)
  {
    if name in scope then Success(scope[name]) else Failure(NameError(name))
  }

  /** The attributes the dictionary display of `to_dict` reads, in its order. */
  const DictAttributes: seq<string> :=
    ["identity_feature_name", "datetime_features", "categorical_features", "dropped_features"]

  /** `to_dict` as written: the dictionary display reads its four attributes in order, and
      the first one that was never assigned raises AttributeError. */
  function ToDictAsWritten(obj: Attributes): (r: Result<map<string, PyValue>, PyError>)
    ensures r.Success? <==> forall n :: n in DictAttributes ==> n in obj
    ensures r.Success? ==>
      (forall n :: n in r.value <==> n in DictAttributes) &&
      forall n :: n in r.value ==> n in obj && r.value[n] == obj[n]
    ensures r.Failure? ==>
      exists i :: 0 <= i < |DictAttributes| && r.error == AttributeError(DictAttributes[i]) &&
        DictAttributes[i] !in obj && forall j :: 0 <= j < i ==> DictAttributes[j] in obj
  {
    match GetAttr(obj, "identity_feature_name")
    case Failure(e) =>
      assert DictAttributes[0] == "identity_feature_name";
      Failure(e)
    case Success(identity) =>
      match GetAttr(obj, "datetime_features")
      case Failure(e) =>
        assert DictAttributes[0] in obj && DictAttributes[1] == "datetime_features";
        Failure(e)
      case Success(datetime) =>
        match GetAttr(obj, "categorical_features")
        case Failure(e) =>
          assert DictAttributes[0] in obj && DictAttributes[1] in obj;
          assert DictAttributes[2] == "categorical_features";
          Failure(e)
        case Success(categorical) =>
          match GetAttr(obj, "dropped_features")
          case Failure(e) =>
            assert DictAttributes[0] in obj && DictAttributes[1] in obj && DictAttributes[2] in obj;
            assert DictAttributes[3] == "dropped_features";
            Failure(e)
          case Success(dropped) =>
            Success(map["identity_feature_name" := identity,
                        "datetime_features" := datetime,
                        "categorical_features" := categorical,
                        "dropped_features" := dropped])
  }

  /** The attributes `__eq__` compares, in its order. */
  const ComparedAttributes: seq<string> :=
    ["identity_feature_name", "datetime_features", "categorical_features",
     "dropped_features", "time_series_id_column_names"]

  /** `__eq__` as written from the k-th compared attribute on: a chain of `and`, which stops at
      the first comparison that is false. */
  function EqualsAsWrittenFrom(obj: Attributes, other: Attributes, k: nat): (r: Result<bool, PyError>)
    requires k <= |ComparedAttributes|
    ensures r == Success(true) <==> AgreeOn(obj, other, k, |ComparedAttributes|)
    ensures r == Success(false) ==>
      exists i :: k <= i < |ComparedAttributes| && AgreeOn(obj, other, k, i) &&
        ComparedAttributes[i] in obj && ComparedAttributes[i] in other &&
        obj[ComparedAttributes[i]] != other[ComparedAttributes[i]]
    ensures r.Failure? ==>
      exists i :: k <= i < |ComparedAttributes| && AgreeOn(obj, other, k, i) &&
        (ComparedAttributes[i] !in obj || ComparedAttributes[i] !in other) &&
        r.error == AttributeError(ComparedAttributes[i])
    decreases |ComparedAttributes| - k
  {
    if k == |ComparedAttributes| then Success(true)
    else
      var name := ComparedAttributes[k];
      assert AgreeOn(obj, other, k, k);
      match GetAttr(obj, name)
      case Failure(e) => Failure(e)
      case Success(mine) =>
        match GetAttr(other, name)
        case Failure(e) => Failure(e)
        case Success(theirs) =>
          if mine != theirs then Success(false)
          else
            AgreeOnStep(obj, other, k);
            EqualsAsWrittenFrom(obj, other, k + 1)
  }

  /** When the k-th attribute agrees, agreement from k is agreement from k + 1. */
  lemma AgreeOnStep(obj: Attributes, other: Attributes, k: nat)
    requires k < |ComparedAttributes|
    requires ComparedAttributes[k] in obj && ComparedAttributes[k] in other
    requires obj[ComparedAttributes[k]] == other[ComparedAttributes[k]]
    ensures forall i :: k < i <= |ComparedAttributes| ==>
      (AgreeOn(obj, other, k, i) <==> AgreeOn(obj, other, k + 1, i))
  {
  }

  /** Both objects have the compared attributes k up to i, with equal values. */
  predicate AgreeOn(obj: Attributes, other: Attributes, k: nat, i: nat)
    requires k <= i <= |ComparedAttributes|
  {
    forall j :: k <= j < i ==>
      ComparedAttributes[j] in obj && ComparedAttributes[j] in other &&
      obj[ComparedAttributes[j]] == other[ComparedAttributes[j]]
  }

  /** `__eq__` as written: true exactly when both objects have every compared attribute, with
      equal values; an attribute missing from either before a difference raises. */
  function EqualsAsWritten(obj: Attributes, other: Attributes): (r: Result<bool, PyError>)
    ensures r == Success(true) <==>
      forall n :: n in ComparedAttributes ==> n in obj && n in other && obj[n] == other[n]
    ensures r.Failure? ==>
      exists n :: n in ComparedAttributes && (n !in obj || n !in other) && r.error == AttributeError(n)
  {
    assert forall n :: n in ComparedAttributes <==> exists j :: 0 <= j < |ComparedAttributes| && ComparedAttributes[j] == n;
    EqualsAsWrittenFrom(obj, other, 0)
  }

  /** Every object `__init__` would build makes `to_dict` raise AttributeError. */
  lemma ToDictAsWrittenRaises(f: Fields)
    ensures ToDictAsWritten(AttributesOf(f)) == Failure(AttributeError("datetime_features"))
  {
  }

  /** `__eq__` as written is false when the identity features differ and raises otherwise: it
      can never return true, not even for an object compared with itself. */
  lemma EqualsAsWrittenOutcome(f: Fields, g: Fields)
    ensures EqualsAsWritten(AttributesOf(f), AttributesOf(g)) ==
      if f.identityFeatureName != g.identityFeatureName then Success(false)
      else Failure(AttributeError("datetime_features"))
  {
  }

  /** As written, a str identity feature is checked one character at a time: the identity
      column "age" of a dataset whose only feature is "age" is reported missing as "a". */
  lemma IdentityCheckedPerCharacter()
    ensures ValidateAsWritten(Fields(PyStr("age"), PyList([]), PyList([]), PyList([]), PyList([])), ["age"]) ==
      Fail(UserConfigValidation("identity feature", "a", ["age"]))
  {
    var f := Fields(PyStr("age"), PyList([]), PyList([]), PyList([]), PyList([]));
    var gs := Groups(f);
    assert Iterate(PyStr("age")).value[0] == "a";
    assert "a" !in ["age"];
    assert CheckGroup(Iterate, gs[0], ["age"]) == Pass;
    assert CheckGroup(Iterate, gs[1], ["age"]) == Pass;
    assert CheckGroup(Iterate, gs[2], ["age"]) == Fail(UserConfigValidation("identity feature", "a", ["age"]));
  }

  /** Read as declared, the same identity column validates. */
  lemma IdentityCheckedWhole()
    ensures ValidateDeclared(Fields(PyStr("age"), PyList([]), PyList([]), PyList([]), PyList([])), ["age"]) == Pass
  {
    ValidateDeclaredIff(Fields(PyStr("age"), PyList([]), PyList([]), PyList([]), PyList([])), ["age"]);
  }

  /** As written, a group left at its default None raises TypeError, so metadata built with
      no arguments never validates. */
  lemma DefaultsNotIterable(featureNames: seq<string>)
    ensures ValidateAsWritten(Fields(PyNone, PyNone, PyNone, PyNone, PyNone), featureNames) == Fail(NotIterable)
  {
    var gs := Groups(Fields(PyNone, PyNone, PyNone, PyNone, PyNone));
    assert CheckGroup(Iterate, gs[0], featureNames) == Fail(NotIterable);
  }

  /** Read as declared, the same defaults validate against any dataset. */
  lemma DefaultsValidate(featureNames: seq<string>)
    ensures ValidateDeclared(Fields(PyNone, PyNone, PyNone, PyNone, PyNone), featureNames) == Pass
  {
    ValidateDeclaredIff(Fields(PyNone, PyNone, PyNone, PyNone, PyNone), featureNames);
  }
}
