# Feature metadata validation and scatter-marker parsing, verified in Dafny

This project models two self-contained pieces of logic from the Responsible AI Toolbox
repository and proves properties about them.

**Feature metadata** (`responsibleai/responsibleai/feature_metadata.py`, module `Metadata` in
`feature_metadata.dfy`). A `FeatureMetadata` object records the roles a user gives to dataset
columns: an identity feature, a time column, categorical features, dropped features and
time-series ID columns. `validate(feature_names)` checks the groups in a fixed order (dropped,
categorical, identity, time column, time-series ID). Each check is `_validate_columns`, which
raises `UserConfigValidationException` for the first column that is not a feature. A Python
value handed to a group is modelled as `PyValue`: `None`, one `str`, or a list of `str`.
Python does not enforce the type annotations, so each field can hold any of the three.

The class `Metadata.FeatureMetadata` is the object that lines 32-36 of `__init__` evidently mean
to build: its four parameters, plus the time-series ID columns that its last assignment reads.
The code as written cannot build that object, and two of its methods read an attribute that is never
assigned (see Findings). The `...AsWritten` functions therefore model the code line by line,
over the object's attribute dictionary, and lemmas show where each one goes wrong. Two
readings of a group are modelled. `Iterate` is Python's `for`: a `str` is visited one
character at a time, and `None` raises `TypeError`. `DeclaredColumns` is the intended reading:
a `str` names one column, and `None` names none.

**Scatter markers** (`apps/dashboard-e2e/src/util/ScatterHighchart.ts`, modules `PathRegex` in
`path_regex.dfy` and `ScatterHighchart` in `scatter_highchart.dfy`). The browser-test helper
reads the `d` attribute of each SVG `path` element of a scatter plot. It matches the attribute
against two anchored regular expressions. Each one is a fixed sentence of the path-data grammar
in section 8.3 of SVG 1.1. `dReg` is an arc marker, `M x y A 3 3 0 1 1 a b Z`. `qReg` is a
quadrilateral, `M x1 y1 L x2 y2 L x3 y3 L x4 y4 Z`. The captured numbers are mapped onto a
coordinate record. `Elements` does this for every path element, and `sortByH` orders the
records by `top`.

A template is a list of pieces (literal text or a `([\d.]+)` group). `Match` is a greedy,
anchored matcher. Every group in both templates is followed by a space, so a greedy group never
needs to backtrack. `MatchIff` proves that the matcher accepts exactly the strings a regex
engine accepts, with the same groups. `Number(...)` is a parameter, `number: string -> real`.

The arc branch destructures six values from a match that has only four groups. The model keeps
this behaviour: `right` and `top` stay undefined on that branch, and the tip check compares the
third and fourth groups. As a consequence, `sortByH` leaves a plot of arc markers in its original
order (`ScatterHighchart.ArcMarkersKeepOrder`).

## Model

| member | source | states |
|---|---|---|
| `Metadata.ValidateColumns` | responsibleai/responsibleai/feature_metadata.py:107-112 | Returns normally exactly when every visited column is a feature. Otherwise the error carries the purpose label, the first missing column in list order and the whole feature list. |
| `Metadata.Iterate` | responsibleai/responsibleai/feature_metadata.py:107 | `for` over a group: a list yields its items, a str yields one-character strings, and None fails with TypeError exactly when the value is None. |
| `Metadata.CheckGroup` | responsibleai/responsibleai/feature_metadata.py:107-112 | One `_validate_columns` call on a group: passes exactly when reading the value succeeds and every column it yields is a feature. A reading error (TypeError) is raised unchanged; otherwise the error names the group's purpose and a yielded column that is not a feature. |
| `Metadata.CheckGroupsFrom` | responsibleai/responsibleai/feature_metadata.py:47-58 | The groups are checked one after another. The result passes exactly when every group passes; otherwise it is the error of the first group that fails, and every earlier group passed. |
| `Metadata.ValidateDeclaredIff` | responsibleai/responsibleai/feature_metadata.py:41-58 | Validation succeeds exactly when every column declared in any of the five groups is a feature. |
| `Metadata.ValidateDeclaredFailure` | responsibleai/responsibleai/feature_metadata.py:41-58 | A failed validation reports a declared column that is missing from the features, with the full feature list. |
| `Metadata.EarlierGroupWins` | responsibleai/responsibleai/feature_metadata.py:47-58 | Order dropped, categorical, identity, time column, time-series ID: the first group with a missing column decides the error, whatever later groups hold. |
| `Metadata.DroppedFeatureReportedFirst` | responsibleai/responsibleai/feature_metadata.py:47-48 | A missing dropped feature is always the one reported: the first such column, labelled "dropped feature". |
| `Metadata.FeatureMetadata.constructor` | responsibleai/responsibleai/feature_metadata.py:32-36 | Each argument is stored unchanged in the field of the same name; every parameter defaults to None. |
| `Metadata.FeatureMetadata.Validate` | responsibleai/responsibleai/feature_metadata.py:41-58 | Passes exactly when every declared column is a feature. On failure it reports a declared, missing column and the feature list. It is a function, so it changes neither the object nor the feature list. |
| `Metadata.FeatureMetadata.ToDict` | responsibleai/responsibleai/feature_metadata.py:66-71 | Exactly the four keys identity_feature_name, datetime_features, categorical_features and dropped_features, each with the matching field; the time column is under datetime_features. |
| `Metadata.FeatureMetadata.Equals` | responsibleai/responsibleai/feature_metadata.py:82-91 | True exactly when all compared fields are pairwise equal. |
| `Metadata.EqualsIsEquivalence` | responsibleai/responsibleai/feature_metadata.py:82-91 | Equality is reflexive, symmetric and transitive. |
| `Metadata.EqualMetadataSameDict` | responsibleai/responsibleai/feature_metadata.py:60-91 | Objects that compare equal convert to equal dictionaries. |
| `Metadata.ValidateAsWritten` | responsibleai/responsibleai/feature_metadata.py:41-58 | As written: passes exactly when no group is None and every column that Python's iteration visits is a feature. Every failure is TypeError or a missing-column error. |
| `Metadata.ToDictAsWritten` | responsibleai/responsibleai/feature_metadata.py:66-71 | As written: succeeds exactly when the object has all four attributes the dictionary display reads. The result then has exactly those keys, each with the attribute's value. Otherwise it raises AttributeError for the first missing one, in display order. |
| `Metadata.EqualsAsWrittenFrom` | responsibleai/responsibleai/feature_metadata.py:82-91 | The `and` chain from the k-th compared attribute on: true exactly when both objects have every remaining attribute with equal values. False means some attribute differs after all earlier ones agree. An error means an attribute missing from either object after all earlier ones agree. |
| `Metadata.EqualsAsWritten` | responsibleai/responsibleai/feature_metadata.py:82-91 | As written: true exactly when both objects have all five compared attributes with equal values. Any error is AttributeError for a compared attribute that one of them lacks. |
| `Metadata.InitAsWritten` | responsibleai/responsibleai/feature_metadata.py:36 | As written, every construction raises NameError for time_series_id_column_names. |
| `Metadata.ToDictAsWrittenRaises` | responsibleai/responsibleai/feature_metadata.py:66-71 | As written, to_dict raises AttributeError for datetime_features on every object the constructor would build. |
| `Metadata.EqualsAsWrittenOutcome` | responsibleai/responsibleai/feature_metadata.py:82-91 | As written, `__eq__` is false when the identity features differ and raises AttributeError otherwise, so it never returns true, not even for an object compared with itself. |
| `Metadata.IdentityCheckedPerCharacter` | responsibleai/responsibleai/feature_metadata.py:51-52 | As written, the identity column "age" checked against the features ["age"] fails, reporting the column "a". |
| `Metadata.IdentityCheckedWhole` | responsibleai/responsibleai/feature_metadata.py:51-52 | Read as declared columns, the same identity column validates. |
| `Metadata.DefaultsNotIterable` | responsibleai/responsibleai/feature_metadata.py:47-48 | As written, metadata left at its None defaults fails validation with TypeError, whatever the features. |
| `Metadata.DefaultsValidate` | responsibleai/responsibleai/feature_metadata.py:41-58 | Read as declared columns, metadata left at its defaults validates against any feature list. |
| `PathRegex.Match` | apps/dashboard-e2e/src/util/ScatterHighchart.ts:6-8 | Soundness: a match yields one group per capture, each a non-empty run of digits and dots, and substituting them into the template gives back exactly the input. |
| `PathRegex.MatchRender` | apps/dashboard-e2e/src/util/ScatterHighchart.ts:6-8 | Completeness: every string a delimited template produces from token groups is matched, with exactly those groups. |
| `PathRegex.MatchIff` | apps/dashboard-e2e/src/util/ScatterHighchart.ts:6-8 | A string matches with given groups if and only if it is the template with those token-shaped groups substituted. Both ends are anchored. |
| `PathRegex.ArcMatchIff` | apps/dashboard-e2e/src/util/ScatterHighchart.ts:6 | `dReg` matches with groups c exactly when the string is `M c0 c1 A 3 3 0 1 1 c2 c3 Z`, with single spaces and every group a token. |
| `PathRegex.QuadMatchIff` | apps/dashboard-e2e/src/util/ScatterHighchart.ts:7-8 | `qReg` matches with groups c exactly when the string is `M c0 c1 L c2 c3 L c4 c5 L c6 c7 Z`, with single spaces and every group a token. |
| `PathRegex.ArcRejectsQuadPath` | apps/dashboard-e2e/src/util/ScatterHighchart.ts:6-8 | No quadrilateral path matches the arc template, so the quadrilateral template is reached for it. |
| `ScatterHighchart.GetCoordinate` | apps/dashboard-e2e/src/util/ScatterHighchart.ts:51-95 | A missing or empty `d` attribute, and nothing else, gives the error naming the element index. Every error is one of the three the source throws. |
| `ScatterHighchart.ArcCoordinate` | apps/dashboard-e2e/src/util/ScatterHighchart.ts:82-94 | Arc marker: an error when the third and fourth numbers are equal; otherwise bottom is the first number and left the second, with right, top, x, y1, y2 and y3 undefined. |
| `ScatterHighchart.QuadCoordinate` | apps/dashboard-e2e/src/util/ScatterHighchart.ts:63-76 | Quadrilateral: x=x1, y1=y1, y2=y2, y3=y3, bottom=x2, right=x3, left=x4, top=y4. |
| `ScatterHighchart.InvalidIffNoTemplate` | apps/dashboard-e2e/src/util/ScatterHighchart.ts:61-80 | A present, non-empty attribute gets the "invalid d attribute" error exactly when it is neither an arc nor a quadrilateral marker. |
| `ScatterHighchart.MapIndexedFrom` | apps/dashboard-e2e/src/util/ScatterHighchart.ts:18-20 | `map` with a callback given the element and its index, from position k on: succeeds exactly when every call does, the i-th result being the callback's value at index i; otherwise the error of the first call that throws, every earlier call having succeeded. |
| `ScatterHighchart.Elements` | apps/dashboard-e2e/src/util/ScatterHighchart.ts:17-21 | One record per path element, in order, the i-th read with index i. It fails exactly when some element fails, and then with the error of the first failing element. |
| `ScatterHighchart.CompareTop` | apps/dashboard-e2e/src/util/ScatterHighchart.ts:24 | The comparator `a.top - b.top`: negative exactly when a's top is below b's, positive exactly when above, and 0 (NaN read as +0) exactly when a top is undefined or the tops are equal. |
| `ScatterHighchart.Insert` | apps/dashboard-e2e/src/util/ScatterHighchart.ts:24 | Adds exactly one record, keeping the others, and keeps a list with defined tops ordered by top. |
| `ScatterHighchart.SortByTop` | apps/dashboard-e2e/src/util/ScatterHighchart.ts:24 | The result is a permutation of the input. When every top is defined it is ordered by non-decreasing top, and the records sharing a top keep their original relative order, as the stable sort with a consistent comparator promises. |
| `ScatterHighchart.SortByH` | apps/dashboard-e2e/src/util/ScatterHighchart.ts:23-25 | Fails exactly when `Elements` fails, with its error. Otherwise it returns a permutation of the records. When every top is defined, the result is ordered by top and records with the same top stay in the order of `Elements`. |
| `ScatterHighchart.QuadMarkersSort` | apps/dashboard-e2e/src/util/ScatterHighchart.ts:23-25 | A plot whose markers are all quadrilaterals always sorts, and the result is ordered by top. |
| `ScatterHighchart.InsertTied` | apps/dashboard-e2e/src/util/ScatterHighchart.ts:24 | A record the comparator ranks equal to every record of the list is inserted after all of them. |
| `ScatterHighchart.InsertKeepsTies` | apps/dashboard-e2e/src/util/ScatterHighchart.ts:24 | Inserting a record with a defined top into a list sorted by defined tops keeps the records of every top in order, and puts the new one after those with the same top. |
| `ScatterHighchart.TiedKeepsOrder` | apps/dashboard-e2e/src/util/ScatterHighchart.ts:24 | When the comparator answers "equal" for every pair (every top undefined, or the defined tops all the same), the sort returns the records in their original order. |
| `ScatterHighchart.UndefinedTopsKeepOrder` | apps/dashboard-e2e/src/util/ScatterHighchart.ts:23-25 | When every record of `Elements` lacks a top, `sortByH` returns exactly `Elements`, unsorted. |
| `ScatterHighchart.ArcMarkersKeepOrder` | apps/dashboard-e2e/src/util/ScatterHighchart.ts:23-25 | A plot of arc markers (tips different from lengths) reads without error, and `sortByH` returns it in the order of `Elements`, because the arc branch leaves every top undefined. |

## Findings

| source | as written | input that shows it | evidently intended | confidence | as-written member | corrected member |
|---|---|---|---|---|---|---|
| responsibleai/responsibleai/feature_metadata.py:36 | `__init__` assigns `time_series_id_column_names`, which is neither a parameter nor a global of the module | `FeatureMetadata()` with any arguments raises NameError | a fifth parameter `time_series_id_column_names`, default None, stored in the field | high; not executed | `Metadata.InitAsWritten` | `Metadata.FeatureMetadata.constructor` |
| responsibleai/responsibleai/feature_metadata.py:68 | `to_dict` reads `self.datetime_features`, which is never assigned | any object raises AttributeError | the time column under the `datetime_features` key (the docstring at line 22 still calls `time_column_name` by that name) | medium; not executed | `Metadata.ToDictAsWrittenRaises` | `Metadata.FeatureMetadata.ToDict` |
| responsibleai/responsibleai/feature_metadata.py:84 | `__eq__` reads `self.datetime_features` once the identity features agree | an object compared with itself raises AttributeError | compare every stored field, which makes equality reflexive | medium; not executed | `Metadata.EqualsAsWrittenOutcome` | `Metadata.FeatureMetadata.Equals` |
| responsibleai/responsibleai/feature_metadata.py:51-54 | the identity feature and time column (a str or None) are iterated like lists | identity "age" with features ["age"] reports column "a" as missing; a None group raises TypeError | a str names one column and None names none | high; not executed | `Metadata.IdentityCheckedPerCharacter` | `Metadata.FeatureMetadata.Validate` |

## Left out

- `warnings.warn` in `__init__` (feature_metadata.py:38-39) is a logging side effect and is not modelled.
- Exception message text: errors are modelled by their components (purpose, column and feature list, or element index). The f-string formatting and the `", ".join` are not modelled.
- `Metadata.FeatureMetadata.Equals` compares with another `FeatureMetadata` only. Comparison with an object of another class is modelled only as written, by `Metadata.EqualsAsWritten` over arbitrary attribute dictionaries.
- Lists holding values other than `str` are not modelled: a list group holds strings.
- `Number(...)` is the parameter `number`. NaN (for example from `"1.2.3"`) is not modelled, and neither is `NaN !== NaN` in the tip check or floating-point rounding.
- `ScatterHighchart.SortByH`: states the order fully only when the comparator is consistent. That is the case when every `top` is defined (sorted, ties in input order) and when every pair compares equal (`ScatterHighchart.TiedKeepsOrder`: all tops undefined, or the defined ones all equal, e.g. one quadrilateral among arc markers). When two defined tops differ and some `top` is undefined, the comparator is inconsistent (a < b, yet both compare equal to the undefined one). The resulting order is then left to the JavaScript engine: the model fixes one order (insertion) and promises only a permutation.
- `getHighChartHtmlElements` belongs to the `Chart` base class, which is not part of this model. Its result is the input sequence of optional `d` attribute values.
- `clickNthPoint` and `getNthPointOffset` (ScatterHighchart.ts:26-49) are browser queries and synthetic mouse events, i.e. I/O.
- `libs/fairness/src/lib/v2/Controls/PerformancePlot.tsx` only assembles chart configuration from localisation strings, themes and metric formatting. That is presentation, and it is not modelled.
- `libs/core-ui/src/lib/Interfaces/IMetaData.ts` is a type declaration with no behaviour. The widget test `datasetExplorer.spec.ts` is a single call into a test-suite helper.
