# EntityParser in Dafny

EntityParser is a code generator. It reads the describe schema of a Salesforce
entity and one sample record of that entity. From them it builds one ordered,
validated list of output fields, and it writes C# classes and a query from that
list. This project models the part that builds and checks the list, and proves
properties of it:

- **Name refinement and type tables** (`module Utility`, `utility.dfy`).
  - `RefineEntityName` first rewrites the custom-field suffixes `_1__c`, `_s__c`
    and `__c` to `C`, in that order.
  - It then removes underscores one at a time, upper-casing the character after
    each one (`What_can_we_help_with` becomes `WhatCanWeHelpWith`).
  - The method keeps both loops of the C# program. It is proved equal to the
    function `Refined`. With refinement on, `Refined` is proved equal to
    `PascalScan` of the suffix-stripped name (`RefinedIsPascalScan`);
    `PascalScan` is an independent single-pass definition. A name whose
    suffix-stripped form ends in `_` makes EntityParser throw (`Substring` out
    of range); here that is `None`.
  - Beside it sit the four fixed tables: `IsCompoundType`,
    `SoapTypeToCSharpTypeMap`, `AddNullableMarker` and `GetSQLType`.
- **Field descriptors** (`entity.dfy`, `entity_describe.dfy`). `Entity`,
  `SFEntityDescribe` and `MSAEntityDescribe` have private setters and never
  change after construction, so they are datatypes.
  - The `SFEntityDescribe` constructor stores its three arguments as given,
    which is exactly what the datatype constructor does.
  - The two constructors that derive attributes are the functions `NewEntity`
    and `MSAEntityDescribeOf`.
- **Reconciliation** (`module Parsing`, `parser.dfy`). The class `Parser`
  holds three fields:
  - the describe list, `SFDescribes.Fields`;
  - the compound names, `SFDescribes.CompoundFieldNames`;
  - the output list, `AdsDescribe.Fields`.

  `Process` runs the following steps in order:
  1. load the describe entries;
  2. reject duplicate describe names;
  3. refine every sample name and reject refined duplicates;
  4. walk the sample names in order, and for each one:
     - skip a compounded entry;
     - skip the sentinel `attributes`;
     - throw on any other name that has no describe entry;
  5. re-check the output list for duplicates;
  6. reject every field whose type is `"unknown"`.

  A thrown exception is a `Fail` carrying a `ProcessError`. Fields appended
  before a throw stay in the output list, as they do in EntityParser. The
  method is proved against the function `Reconcile`, and lemmas about
  `Reconcile` state each of these rules. `DefaultQuery` is the query string of
  the generated query builder.

`wrappers.dfy`, `sequences.dfy` and `text.dfy` hold the supporting pieces:

- the `Option`, `Result` and `Outcome` datatypes;
- `Distinct` and `Duplicates`, modelling LINQ's `Distinct` and the
  `GroupBy(...).Where(g => g.Count() > 1)` duplicate report;
- `IndexOf`, `Replace` and `string.Join`, with `Split` as the inverse of `Join`.

The static flag `Utility.TurnOffRefineEntityName` is an explicit `turnOff`
parameter wherever it is read.

## Model

| member | source | states |
|---|---|---|
| Utility.RefineEntityName | EntityParser/Utility.cs:8-44 | The method, with the C# program's pattern loop and underscore loop, returns exactly `Refined(name, turnOff)`. |
| Utility.Refined | EntityParser/Utility.cs:7-44 | With the flag set, the name comes back unchanged. Otherwise, a successful result contains no `_`, and refinement fails exactly when the suffix-stripped name ends in `_`. |
| Utility.RefinedIsPascalScan | EntityParser/Utility.cs:15-41 | With refinement on, the result of both loops equals the independent single-pass scan of the suffix-stripped name, in failure as well as success. |
| Utility.SuffixOrder | EntityParser/Utility.cs:15-25 | The patterns are applied in their fixed order, so `X_1__c` becomes `XC` and not `X1C`. |
| Utility.StripSuffixesSteps | EntityParser/Utility.cs:15-25 | Suffix stripping is three successive replace-all calls: `_1__c`, then `_s__c`, then `__c`, each with `C`. |
| Utility.StripSuffixesUnderscoreFree | EntityParser/Utility.cs:15-25 | Every pattern contains `_`, so a name without `_` is left unchanged by the suffix rewriting. |
| Utility.UnderscorePass | EntityParser/Utility.cs:30-35 | One pass of the underscore loop shortens the name by exactly one character and removes exactly one `_` (the termination measure). |
| Utility.DropUnderscoresIsPascalScan | EntityParser/Utility.cs:28-41 | The loop's result equals the independent single-pass definition `PascalScan`, in failure as well as success. |
| Utility.PascalScanFailsIffTrailingUnderscore | EntityParser/Utility.cs:30-35 | The scan fails (out-of-range `Substring`) exactly when the string ends in `_`. |
| Utility.PascalScanNoUnderscore | EntityParser/Utility.cs:28-41 | On success the result contains no `_`. |
| Utility.PascalScanLength | EntityParser/Utility.cs:28-41 | On success the result is shorter than the input by exactly its number of underscores. |
| Utility.RefinedUnderscoreFree | EntityParser/Utility.cs:15-41 | A name without `_` is returned unchanged, whatever the flag. |
| Utility.RefinedIdempotent | EntityParser/Utility.cs:8-44 | Refining a successfully refined name again gives the same name. |
| Utility.RefinedDocExample | EntityParser/Utility.cs:27 | `What_can_we_help_with` refines to `WhatCanWeHelpWith`. |
| Utility.RefinedCustomField | EntityParser/Utility.cs:15-41 | `First_Name__c` refines to `FirstNameC`: the suffix first, then the underscore. |
| Utility.RefinedCollision | EntityParser/Utility.cs:28-41 | `Foo_Bar` and `Foo__Bar` both refine to `FooBar`, so distinct raw names can collide after refinement. |
| Utility.IsCompoundType | EntityParser/Utility.cs:46-55 | A compound tag is never one of the seven mapped SOAP tags. |
| Utility.SoapTypeToCSharpTypeMap | EntityParser/Utility.cs:57-79 | The map is total, and its result is one of the six C# type names. It is `"unknown"` exactly for tags outside the seven listed, including `urn:address`. |
| Utility.SoapTypePreimages | EntityParser/Utility.cs:57-79 | Gives the exact preimage of each C# type: `DateTime` comes from `xsd:dateTime` or `xsd:date`, and `string` from `tns:ID` or `xsd:string`. `bool`, `double` and `int` each come from one tag. Every compound tag maps to `"unknown"`. |
| Utility.AddNullableMarker | EntityParser/Utility.cs:81-90 | The result starts with the type. It is exactly one character longer, ending in `?`, if and only if the type is not `string` and the field is nullable. |
| Utility.RemoveNullableMarker | EntityParser/Utility.cs:81-90 | Removing the marker gives back the mapped C# type. |
| Utility.GetSQLType | EntityParser/Utility.cs:92-111 | The result is not `"unknown"` exactly for the five mapped C# types, and it is `DECIMAL(18,2)` exactly for `double`. |
| Utility.SqlTypePreimages | EntityParser/Utility.cs:94-109 | `NVARCHAR(200)` comes exactly from `string` and `DateTime`, `BIT` exactly from `bool`, `INT` exactly from `int` and `DECIMAL(18,2)` exactly from `double`. |
| Utility.SqlTypeOfMappedType | EntityParser/Utility.cs:57-111 | Every C# type the SOAP map produces, other than `"unknown"`, has a SQL type, and `"unknown"` maps to `"unknown"`. |
| Entities.NewEntity | EntityParser/Entity.cs:5-13 | The constructor succeeds exactly when refinement does. It stores name, type and nullability verbatim, and its refined name is `Refined(name)`, without `_` when refinement is on. The C# type is one of the six names, and it is `"unknown"` exactly for an unmapped tag. |
| Entities.EntityDerivedStable | EntityParser/Entity.cs:11-12 | The stored refined name is a fixed point of refinement, and the stored C# type is the mapping of the stored SOAP type. |
| EntityDescribes.MSAEntityDescribeOf | EntityParser/EntityDescribe.cs:24-29 | The name is the refined source name, without `_` when refinement is on. The type is the mapped SOAP type, one of six names. Nullability is copied from the source record. |
| EntityDescribes.MSANameOfUnderscoreFree | EntityParser/EntityDescribe.cs:26 | A source name without `_` is kept as it is. |
| Parsing.ValidateFields | EntityParser/Parser.cs:289-300 | Passes exactly when all names are distinct (ordinal comparison). On failure, the report is non-empty, lists each name once, and holds exactly the names that occur more than once. |
| Parsing.CompoundNamesOf | EntityParser/Parser.cs:96-102 | Holds exactly the non-empty compound names of the entries, and never `""`. |
| Parsing.AddCompoundNames | EntityParser/Parser.cs:96-105 | The existing compound names stay in front. |
| Parsing.AddCompoundNamesIsDistinct | EntityParser/Parser.cs:96-105 | The loading loop keeps the first occurrence of each non-empty compound name, in first-seen order (`Distinct` of old names followed by the new ones). |
| Parsing.CompoundNamesUnique | EntityParser/Parser.cs:96-105 | After loading, the compound names are distinct and non-empty, with the old names in front. They are exactly the old names plus the entries' non-empty compound names. |
| Parsing.Parser.LoadDescribe | EntityParser/Parser.cs:96-105 | Every entry's field is appended to the describe list, compound or not. The compound names are updated as `AddCompoundNames` says, and the output list is untouched. |
| Parsing.FindIndex | EntityParser/Parser.cs:57 | Gives the first position whose raw name equals the sample name exactly, or -1 exactly when no entry has that name. |
| Parsing.Accepted | EntityParser/Parser.cs:55-73 | The walk adds at most one field per sample name. |
| Parsing.AcceptedAppend | EntityParser/Parser.cs:55-73 | The output of a concatenation of sample lists is the concatenation of their outputs, so sample order is kept and nothing is re-sorted. |
| Parsing.AcceptedFromDescribe | EntityParser/Parser.cs:55-65 | Every output field is the conversion of a non-compounded describe entry that is the first match of some sample name. |
| Parsing.SkippedColumn | EntityParser/Parser.cs:55-73 | A sample name that contributes no field can be removed from the sample list without changing the output. |
| Parsing.SentinelSkipped | EntityParser/Parser.cs:66-72 | `attributes`, when it has no describe entry, neither throws nor adds a field. |
| Parsing.FirstUnmatched | EntityParser/Parser.cs:55-73 | Gives the first sample name that is neither found nor the sentinel, or -1 exactly when there is none. |
| Parsing.RefineAll | EntityParser/Parser.cs:41 | Succeeds exactly when every sample name refines, with one refined name per sample, in order. |
| Parsing.RefineAllFailure | EntityParser/Parser.cs:41 | A failure reports the first sample name that does not refine: every name before it refines. |
| Parsing.RefineAllFailurePersists | EntityParser/Parser.cs:41 | Once a prefix of the names fails, the whole list fails with the same name. |
| Parsing.RefineSamples | EntityParser/Parser.cs:41 | The method, refining with the `RefineEntityName` method name by name, returns exactly `RefineAll`. |
| Parsing.UnknownFields | EntityParser/Parser.cs:78 | Holds exactly the output fields whose type is `"unknown"`. |
| Parsing.UnknownFieldsEmpty | EntityParser/Parser.cs:78-79 | Nothing is reported exactly when no field has type `"unknown"`. |
| Parsing.ReconcileDescribeDuplicates | EntityParser/Parser.cs:38-39 | Duplicate describe names fail before any sample is processed. The output list is unchanged, and each duplicate is reported once. |
| Parsing.ReconcileRefinedDuplicates | EntityParser/Parser.cs:41-52 | Two sample names that refine alike fail with `DuplicatedPropertyNames` naming that refined name. This happens before any lookup, with no field added. |
| Parsing.ReconcileColumnNotFound | EntityParser/Parser.cs:55-72 | The first sample name that is neither found nor the sentinel fails with `ColumnNotFound`. The fields accepted before it stay in the output list. |
| Parsing.ReconcilePass | EntityParser/Parser.cs:38-88 | `Process` passes every check exactly when all of these hold: the describe names are distinct; every sample name refines; the refined names are distinct; every sample is found or is the sentinel; the output names are distinct (the re-check at line 75); and no output field is `"unknown"`. The output is then the old list followed by the accepted fields in sample order. |
| Parsing.ReconcileUnknown | EntityParser/Parser.cs:75-82 | The unknown-type failure comes only after every earlier check has passed. Its report is non-empty and holds exactly the output fields of type `"unknown"`. |
| Parsing.ReconcileOutputIsPrefixWalk | EntityParser/Parser.cs:38-82 | However `Process` ends, the output list is the old list followed by the fields accepted from some prefix of the sample names. |
| Parsing.Parser.AddSampleField | EntityParser/Parser.cs:57-72 | One turn of the `foreach`: the name counts as found exactly when it is not unmatched, and the output list grows by exactly that name's contribution. |
| Parsing.Parser.AddSampleFields | EntityParser/Parser.cs:55-73 | The `foreach` stops at the first unmatched sample name. It appends exactly the fields `Accepted` gives for the names before that point, and leaves the describe list alone. |
| Parsing.Parser.Process | EntityParser/Parser.cs:38-82 | After loading the entries, the outcome and the new output list are exactly `Reconcile` of the describe list, the old output list and the sample names. |
| Parsing.DefaultQuery | EntityParser/Parser.cs:142 | The query starts with `SELECT +` and ends with `+FROM+` followed by the entity name; with no output fields it is exactly `SELECT ++FROM+` and the entity name. |
| Parsing.DefaultQuerySelectList | EntityParser/Parser.cs:142 | The select list between the two parts splits at `,` back into the output fields' Salesforce names in list order, when none of them contains a comma. |
| Text.SplitJoin | EntityParser/Parser.cs:142 | `Split` inverts `string.Join` with a one-character separator on a non-empty list whose parts do not contain it. |

## Left out

- File and JSON I/O. This covers reading the describe file and the sample file, `Directory.CreateDirectory` and every `File.WriteAllText`. `Process` takes parsed describe entries and the sample's property names in their order instead.
- The text layout of the generated C# files (`GenerateFSEntityFile`, `GenerateParquetWriter` and the template of `GenerateQueryBuilder`). Only the default query string is modelled. `Process` ends at the point where it would call the generators and return `true`.
- `EntityParser/Program.cs`: hard-coded paths and one call to `Process`.
- `SFEntityFieldDescribe`, `MSAEntityFieldDescribe`, `AdsEntityDescribe` and `EntityFieldDescribe` are not part of this model. They are records carrying only the attributes the parser reads.
  - `IsCompounded` is a given attribute.
  - `new MSAEntityFieldDescribe(property)` is the parameter `convert`, so no formula is asserted for its name, type or `TypeWithNullable`. A throw inside that constructor is not modelled.
- The `int.Parse` of precision and scale while loading. Both are given integers.
- A `compoundFieldName` that is null and one that is empty are the same `""`.
- `ToUpper` is culture-sensitive in the C# program. Here it is ASCII upper-casing of one character.
- The `Dictionary` of suffix patterns is the fixed sequence in its written order, which is the order the C# program enumerates it in practice.
- Exception messages are left out. Each failure keeps only its cause and the names or fields it reports. EntityParser's unknown-type message prints the fields' types; here the failure carries the fields themselves.
- Utility.IsCompoundType: its contract states that a compound tag is unmapped, not the single tag it accepts. That tag is `urn:address`, and `SoapTypePreimages` states what it maps to.
- Precision and scale do not affect the SQL type. EntityParser hard-codes `DECIMAL(18,2)` for `double` and has no argument check there, and the model follows the code.
