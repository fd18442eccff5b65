/** `Parser`: reconciles the describe schema of an entity with the property
    names of a sample record into one ordered, validated field list.

    The file reads and JSON parsing are not modelled: `Process` receives the
    describe entries already parsed and the sample's property names in their
    order. The descriptor classes `SFEntityFieldDescribe` and
    `MSAEntityFieldDescribe` are records holding only the attributes the parser
    reads; how `new MSAEntityFieldDescribe(property)` derives its attributes is
    outside the model, so that conversion is the parameter `convert`. A thrown
    exception is a `Fail` carrying a `ProcessError`. */
module Parsing {
  import opened Wrappers
  import opened Sequences
  import opened Text
  import opened Utility

  /** `SFEntityFieldDescribe`: a describe-file field. `isCompounded` is taken
      as given. */
  datatype SFField = SFField(
    name: string,
    soapType: string,
    isNullable: bool,
    precision: int,
    scale: int,
    isCompounded: bool)

  /** One entry of the describe file's `fields` array, already parsed:
      the field and its `compoundFieldName` (`""` standing for null or empty). */
  datatype DescribeEntry = DescribeEntry(field: SFField, compoundFieldName: string)

  /** `MSAEntityFieldDescribe`: a field of the output list. */
  datatype AdsField = AdsField(name: string, sfName: string, cSharpType: string, typeWithNullable: string)

  /** The conditions under which `Process` throws. */
  datatype ProcessError =
    | DuplicatedFields(names: seq<string>)           // ValidateFields on the describe or the output list
    | DuplicatedPropertyNames(names: seq<string>)    // refined sample names collide
    | RefineOutOfRange(name: string)                 // RefineEntityName throws on a sample name
    | ColumnNotFound(column: string)                 // a sample name missing from the describe list
    | UnknownDataFields(fields: seq<AdsField>)       // output fields whose type is "unknown"

  /** The metadata key of a sample record, skipped when it has no describe entry. */
  const Sentinel := "attributes"

  function FieldsOf(entries: seq<DescribeEntry>): seq<SFField> {
    seq(|entries|, i requires 0 <= i < |entries| => entries[i].field)
  }

  function NamesOf(fields: seq<SFField>): seq<string> {
    seq(|fields|, i requires 0 <= i < |fields| => fields[i].name)
  }

  function AdsNamesOf(fields: seq<AdsField>): seq<string> {
    seq(|fields|, i requires 0 <= i < |fields| => fields[i].name)
  }

  function SFNamesOf(fields: seq<AdsField>): seq<string> {
    seq(|fields|, i requires 0 <= i < |fields| => fields[i].sfName)
  }

  // ---------------------------------------------------------------------------
  // ValidateFields
  // ---------------------------------------------------------------------------

  /** `Parser.ValidateFields` over the selected names: throws exactly when two
      names are equal (ordinal), reporting every duplicated name once. */
  function ValidateFields(names: seq<string>): (r: Outcome<seq<string>>)
    ensures r.Pass? <==> AllDistinct(names)
    ensures r.Fail? ==> r.error != [] && AllDistinct(r.error)
    ensures r.Fail? ==> forall x :: x in r.error <==> multiset(names)[x] > 1
  {
    DistinctLength(names);
    DuplicatesEmpty(names);
    if |names| != |Distinct(names)| then Fail(Duplicates(names)) else Pass
  }

  // ---------------------------------------------------------------------------
  // Describe-file loading (the loop body over already-parsed entries)
  // ---------------------------------------------------------------------------

  /** The non-empty compound field names of `entries`, in entry order. */
  function CompoundNamesOf(entries: seq<DescribeEntry>): (c: seq<string>)
    ensures "" !in c
    ensures forall x :: x in c <==> x != "" && exists i | 0 <= i < |entries| :: entries[i].compoundFieldName == x
  {
    if entries == [] then []
    else
      var pre := entries[..|entries| - 1];
      var name := entries[|entries| - 1].compoundFieldName;
      assert forall i | 0 <= i < |pre| :: pre[i] == entries[i];
      CompoundNamesOf(pre) + (if name == "" then [] else [name])
  }

  /** `CompoundFieldNames` after the loading loop: a non-empty name is appended
      when it is not yet in the list. */
  function AddCompoundNames(names: seq<string>, entries: seq<DescribeEntry>): (r: seq<string>)
    ensures names <= r
  {
    if entries == [] then names
    else
      var p := AddCompoundNames(names, entries[..|entries| - 1]);
      var c := entries[|entries| - 1].compoundFieldName;
      if c != "" && c !in p then p + [c] else p
  }

  /** The loading loop keeps exactly the first occurrence of each non-empty
      compound name: it computes `Distinct` of the old list followed by the
      entries' compound names. */
  lemma {:induction false} AddCompoundNamesIsDistinct(names: seq<string>, entries: seq<DescribeEntry>)
    requires AllDistinct(names)
    ensures AddCompoundNames(names, entries) == Distinct(names + CompoundNamesOf(entries))
  {
    if entries == [] {
      assert names + [] == names;
      DistinctOfDistinct(names);
    } else {
      var pre := entries[..|entries| - 1];
      var c := entries[|entries| - 1].compoundFieldName;
      AddCompoundNamesIsDistinct(names, pre);
      var x := names + CompoundNamesOf(pre);
      if c != "" {
        assert names + CompoundNamesOf(entries) == x + [c];
        DistinctSnoc(x, c);
      } else {
        assert CompoundNamesOf(entries) == CompoundNamesOf(pre);
      }
    }
  }

  /** Hence the list never holds a name twice or an empty name, keeps its old
      entries in front, and holds exactly the old names and the non-empty
      compound names of the entries. */
  lemma CompoundNamesUnique(names: seq<string>, entries: seq<DescribeEntry>)
    requires AllDistinct(names) && "" !in names
    ensures var r := AddCompoundNames(names, entries);
      AllDistinct(r) && "" !in r && names <= r &&
      forall x :: x in r <==> x in names || (x != "" && exists i | 0 <= i < |entries| :: entries[i].compoundFieldName == x)
  {
    AddCompoundNamesIsDistinct(names, entries);
  }

  // ---------------------------------------------------------------------------
  // Lookups and the walk over the sample names
  // ---------------------------------------------------------------------------

  /** The position `List.Find(item => item.Name.Equals(name))` stops at, or -1. */
  function FindIndex(fields: seq<SFField>, name: string): (i: int)
    ensures -1 <= i < |fields|
    ensures 0 <= i ==> fields[i].name == name && forall j | 0 <= j < i :: fields[j].name != name
    ensures i == -1 <==> forall j | 0 <= j < |fields| :: fields[j].name != name
  {
    if fields == [] then -1
    else if fields[0].name == name then 0
    else
      var j := FindIndex(fields[1..], name);
      if j < 0 then -1 else j + 1
  }

  /** `List.Find`: the first field whose raw name equals `name` exactly. */
  function FindByName(fields: seq<SFField>, name: string): Option<SFField> {
    var i := FindIndex(fields, name);
    if i < 0 then None else Some(fields[i])
  }

  /** A sample name that makes `Process` throw: no describe entry and not the sentinel. */
  predicate Unmatched(fields: seq<SFField>, column: string) {
    FindByName(fields, column).None? && column != Sentinel
  }

  /** What one sample name adds to the output list. */
  function Contribution(fields: seq<SFField>, column: string, convert: SFField -> AdsField): seq<AdsField> {
    match FindByName(fields, column)
    case Some(f) => if f.isCompounded then [] else [convert(f)]
    case None => []
  }

  /** The output list built from `samples`, in sample order. */
  function Accepted(fields: seq<SFField>, samples: seq<string>, convert: SFField -> AdsField): (r: seq<AdsField>)
    ensures |r| <= |samples|
  {
    if samples == [] then []
    else Accepted(fields, samples[..|samples| - 1], convert) + Contribution(fields, samples[|samples| - 1], convert)
  }

  /** The output of a concatenation is the concatenation of the outputs: the
      walk keeps sample order and never re-sorts. */
  lemma {:induction false} AcceptedAppend(fields: seq<SFField>, a: seq<string>, b: seq<string>, convert: SFField -> AdsField)
    ensures Accepted(fields, a + b, convert) == Accepted(fields, a, convert) + Accepted(fields, b, convert)
  {
    if b == [] {
      assert a + b == a;
    } else {
      var b', c := b[..|b| - 1], b[|b| - 1];
      var x, y, z := Accepted(fields, a, convert), Accepted(fields, b', convert), Contribution(fields, c, convert);
      assert a + b == (a + b') + [c];
      assert b == b' + [c];
      calc {
        Accepted(fields, a + b, convert);
        { AcceptedSnoc(fields, a + b', c, convert); }
        Accepted(fields, a + b', convert) + z;
        { AcceptedAppend(fields, a, b', convert); }
        (x + y) + z;
        x + (y + z);
        { AcceptedSnoc(fields, b', c, convert); }
        x + Accepted(fields, b, convert);
      }
    }
  }

  /** One more sample name adds its contribution at the end. */
  lemma AcceptedSnoc(fields: seq<SFField>, samples: seq<string>, column: string, convert: SFField -> AdsField)
    ensures Accepted(fields, samples + [column], convert)
         == Accepted(fields, samples, convert) + Contribution(fields, column, convert)
  {
    assert (samples + [column])[..|samples|] == samples;
  }

  /** Each output field is the conversion of the first describe entry named
      like some sample, and that entry is not compounded. */
  lemma {:induction false} AcceptedFromDescribe(fields: seq<SFField>, samples: seq<string>, convert: SFField -> AdsField)
    ensures forall x | x in Accepted(fields, samples, convert) ::
      exists k | 0 <= k < |samples| :: (FindByName(fields, samples[k]).Some? &&
        !FindByName(fields, samples[k]).value.isCompounded && x == convert(FindByName(fields, samples[k]).value))
  {
    if samples != [] {
      var pre := samples[..|samples| - 1];
      AcceptedFromDescribe(fields, pre, convert);
      forall x | x in Accepted(fields, samples, convert)
        ensures exists k | 0 <= k < |samples| :: (FindByName(fields, samples[k]).Some? &&
          !FindByName(fields, samples[k]).value.isCompounded && x == convert(FindByName(fields, samples[k]).value))
      {
        if x in Accepted(fields, pre, convert) {
          var k :| 0 <= k < |pre| && FindByName(fields, pre[k]).Some? &&
            !FindByName(fields, pre[k]).value.isCompounded && x == convert(FindByName(fields, pre[k]).value);
          assert samples[k] == pre[k];
        } else {
          assert samples[|samples| - 1] == samples[|samples| - 1];
        }
      }
    }
  }

  /** The sentinel without a describe entry neither throws nor adds a field. */
  lemma SentinelSkipped(fields: seq<SFField>, a: seq<string>, b: seq<string>, convert: SFField -> AdsField)
    requires FindByName(fields, Sentinel).None?
    ensures !Unmatched(fields, Sentinel)
    ensures Accepted(fields, a + [Sentinel] + b, convert) == Accepted(fields, a + b, convert)
  {
    SkippedColumn(fields, a, Sentinel, b, convert);
  }

  /** A sample name that contributes nothing can be dropped from the walk. */
  lemma SkippedColumn(fields: seq<SFField>, a: seq<string>, column: string, b: seq<string>, convert: SFField -> AdsField)
    requires Contribution(fields, column, convert) == []
    ensures Accepted(fields, a + [column] + b, convert) == Accepted(fields, a + b, convert)
  {
    var one := [column];
    var left := Accepted(fields, a, convert);
    var right := Accepted(fields, b, convert);
    AcceptedSingle(fields, column, convert);
    AcceptedAppend(fields, a, one, convert);
    assert Accepted(fields, a + one, convert) == left;
    AcceptedAppend(fields, a + one, b, convert);
    AcceptedAppend(fields, a, b, convert);
  }

  /** The walk over one sample name adds that name's contribution. */
  lemma AcceptedSingle(fields: seq<SFField>, column: string, convert: SFField -> AdsField)
    ensures Accepted(fields, [column], convert) == Contribution(fields, column, convert)
  {
    assert [column][..0] == [];
  }

  /** One turn of the walk over the sample names. */
  lemma AcceptedStep(fields: seq<SFField>, samples: seq<string>, k: nat, convert: SFField -> AdsField)
    requires k < |samples|
    ensures Accepted(fields, samples[..k + 1], convert)
         == Accepted(fields, samples[..k], convert) + Contribution(fields, samples[k], convert)
  {
    assert samples[..k + 1][..k] == samples[..k];
  }

  /** The first sample name that would make the walk throw, or -1. */
  function FirstUnmatched(fields: seq<SFField>, samples: seq<string>): (k: int)
    ensures -1 <= k < |samples|
    ensures 0 <= k ==> Unmatched(fields, samples[k]) && forall j {:trigger Unmatched(fields, samples[j])} | 0 <= j < k :: !Unmatched(fields, samples[j])
    ensures k == -1 <==> forall j {:trigger Unmatched(fields, samples[j])} | 0 <= j < |samples| :: !Unmatched(fields, samples[j])
  {
    if samples == [] then -1
    else if Unmatched(fields, samples[0]) then 0
    else
      var j := FirstUnmatched(fields, samples[1..]);
      if j < 0 then -1 else j + 1
  }

  /** The walk stops at a name that is unmatched when every earlier one is matched. */
  lemma FirstUnmatchedAt(fields: seq<SFField>, samples: seq<string>, k: nat)
    requires k < |samples| && Unmatched(fields, samples[k])
    requires forall j {:trigger Unmatched(fields, samples[j])} | 0 <= j < k :: !Unmatched(fields, samples[j])
    ensures FirstUnmatched(fields, samples) == k
  {
  }

  /** The walk completes when no name is unmatched. */
  lemma FirstUnmatchedNone(fields: seq<SFField>, samples: seq<string>)
    requires forall j {:trigger Unmatched(fields, samples[j])} | 0 <= j < |samples| :: !Unmatched(fields, samples[j])
    ensures FirstUnmatched(fields, samples) == -1
  {
  }

  // ---------------------------------------------------------------------------
  // Refining the sample names
  // ---------------------------------------------------------------------------

  /** `Select(name => Utility.RefineEntityName(name)).ToList()`: refines in
      order and stops at the first name that throws. */
  function RefineAll(names: seq<string>, turnOff: bool): (r: Result<seq<string>, string>)
    ensures r.Success? <==> forall k {:trigger Refined(names[k], turnOff)} | 0 <= k < |names| :: Refined(names[k], turnOff).Some?
    ensures r.Success? ==> |r.value| == |names|
    ensures r.Success? ==> forall k {:trigger Refined(names[k], turnOff)} | 0 <= k < |names| :: Refined(names[k], turnOff) == Some(r.value[k])
  {
    if names == [] then Success([])
    else
      var pre := names[..|names| - 1];
      var last := names[|names| - 1];
      assert forall k | 0 <= k < |pre| :: pre[k] == names[k];
      match RefineAll(pre, turnOff)
      case Failure(e) => Failure(e)
      case Success(prev) =>
        match Refined(last, turnOff)
        case None => Failure(last)
        case Some(v) => Success(prev + [v])
  }

  /** One more name either fails the refinement or adds its refined form. */
  lemma RefineAllStep(names: seq<string>, k: nat, turnOff: bool)
    requires k < |names| && RefineAll(names[..k], turnOff).Success?
    ensures Refined(names[k], turnOff).None? ==> RefineAll(names[..k + 1], turnOff) == Failure(names[k])
    ensures Refined(names[k], turnOff).Some? ==>
      RefineAll(names[..k + 1], turnOff) == Success(RefineAll(names[..k], turnOff).value + [Refined(names[k], turnOff).value])
  {
    assert names[..k + 1][..k] == names[..k];
  }

  /** A failure names the first sample name that does not refine. */
  lemma {:induction false} RefineAllFailure(names: seq<string>, turnOff: bool)
    requires RefineAll(names, turnOff).Failure?
    ensures exists k | 0 <= k < |names| :: (names[k] == RefineAll(names, turnOff).error &&
      Refined(names[k], turnOff).None? && forall j {:trigger Refined(names[j], turnOff)} | 0 <= j < k :: Refined(names[j], turnOff).Some?)
  {
    var pre := names[..|names| - 1];
    assert forall j | 0 <= j < |pre| :: pre[j] == names[j];
    if RefineAll(pre, turnOff).Failure? {
      RefineAllFailure(pre, turnOff);
      var k :| 0 <= k < |pre| && pre[k] == RefineAll(pre, turnOff).error &&
        Refined(pre[k], turnOff).None? && forall j {:trigger Refined(pre[j], turnOff)} | 0 <= j < k :: Refined(pre[j], turnOff).Some?;
      assert names[k] == RefineAll(names, turnOff).error;
    } else {
      var k := |names| - 1;
      assert names[k] == RefineAll(names, turnOff).error && Refined(names[k], turnOff).None?;
    }
  }

  /** Once a prefix fails, the whole list fails with the same name. */
  lemma {:induction false} RefineAllFailurePersists(names: seq<string>, k: nat, turnOff: bool)
    requires k <= |names|
    requires RefineAll(names[..k], turnOff).Failure?
    ensures RefineAll(names, turnOff) == RefineAll(names[..k], turnOff)
    decreases |names| - k
  {
    if k < |names| {
      assert names[..k + 1][..k] == names[..k];
      RefineAllFailurePersists(names, k + 1, turnOff);
    } else {
      assert names[..k] == names;
    }
  }

  // ---------------------------------------------------------------------------
  // The whole reconciliation
  // ---------------------------------------------------------------------------

  /** The fields with type `"unknown"`, in list order (`FindAll`). */
  function UnknownFields(fields: seq<AdsField>): (r: seq<AdsField>)
    ensures forall x | x in r :: x in fields && x.cSharpType == "unknown"
    ensures forall k | 0 <= k < |fields| :: fields[k].cSharpType == "unknown" ==> fields[k] in r
  {
    if fields == [] then []
    else
      var pre := fields[..|fields| - 1];
      var last := fields[|fields| - 1];
      assert forall k | 0 <= k < |pre| :: pre[k] == fields[k];
      UnknownFields(pre) + (if last.cSharpType == "unknown" then [last] else [])
  }

  /** No field is reported exactly when no field has type `"unknown"`. */
  lemma UnknownFieldsEmpty(fields: seq<AdsField>)
    ensures UnknownFields(fields) == [] <==> forall x | x in fields :: x.cSharpType != "unknown"
  {
    if UnknownFields(fields) != [] {
      assert UnknownFields(fields)[0] in fields;
    }
    if exists x | x in fields :: x.cSharpType == "unknown" {
      var x :| x in fields && x.cSharpType == "unknown";
      var k :| 0 <= k < |fields| && fields[k] == x;
      assert x in UnknownFields(fields);
    }
  }

  /** The result of `Process`: how it ends, and the output list it leaves. */
  datatype Run = Run(outcome: Outcome<ProcessError>, fields: seq<AdsField>)

  /** What `Process` does after loading the describe file, on the describe
      list `describe` and an output list that starts as `ads`. */
  function Reconcile(describe: seq<SFField>, ads: seq<AdsField>, samples: seq<string>,
                     convert: SFField -> AdsField, turnOff: bool): Run
  {
    match ValidateFields(NamesOf(describe))
    case Fail(d) => Run(Fail(DuplicatedFields(d)), ads)
    case Pass =>
      match RefineAll(samples, turnOff)
      case Failure(name) => Run(Fail(RefineOutOfRange(name)), ads)
      case Success(refined) =>
        match ValidateFields(refined)
        case Fail(d) => Run(Fail(DuplicatedPropertyNames(d)), ads)
        case Pass =>
          var k := FirstUnmatched(describe, samples);
          if 0 <= k then Run(Fail(ColumnNotFound(samples[k])), ads + Accepted(describe, samples[..k], convert))
          else
            var out := ads + Accepted(describe, samples, convert);
            match ValidateFields(AdsNamesOf(out))
            case Fail(d) => Run(Fail(DuplicatedFields(d)), out)
            case Pass =>
              var unknown := UnknownFields(out);
              if unknown != [] then Run(Fail(UnknownDataFields(unknown)), out) else Run(Pass, out)
  }

  /** Duplicate describe names are rejected before any sample name is looked
      at: nothing is added, and each duplicated name is reported once. */
  lemma ReconcileDescribeDuplicates(describe: seq<SFField>, ads: seq<AdsField>, samples: seq<string>,
                                    convert: SFField -> AdsField, turnOff: bool)
    requires !AllDistinct(NamesOf(describe))
    ensures var r := Reconcile(describe, ads, samples, convert, turnOff);
      r.fields == ads && r.outcome.Fail? && r.outcome.error.DuplicatedFields? &&
      AllDistinct(r.outcome.error.names) &&
      forall x :: x in r.outcome.error.names <==> multiset(NamesOf(describe))[x] > 1
  {
  }

  /** Two sample names that refine to the same string are rejected before
      any describe lookup, and nothing is added to the output list. */
  lemma ReconcileRefinedDuplicates(describe: seq<SFField>, ads: seq<AdsField>, samples: seq<string>,
                                   convert: SFField -> AdsField, turnOff: bool, i: nat, j: nat)
    requires AllDistinct(NamesOf(describe))
    requires forall k {:trigger Refined(samples[k], turnOff)} | 0 <= k < |samples| :: Refined(samples[k], turnOff).Some?
    requires i < j < |samples| && Refined(samples[i], turnOff) == Refined(samples[j], turnOff)
    ensures var r := Reconcile(describe, ads, samples, convert, turnOff);
      r.fields == ads && r.outcome.Fail? && r.outcome.error.DuplicatedPropertyNames? &&
      Refined(samples[i], turnOff).value in r.outcome.error.names
  {
    var refined := RefineAll(samples, turnOff).value;
    assert refined[i] == refined[j];
    TwoPositionsMakeADuplicate(refined, i, j);
  }

  /** A sample name without a describe entry, other than the sentinel, stops
      the walk there: the fields accepted before it stay in the output list. */
  lemma ReconcileColumnNotFound(describe: seq<SFField>, ads: seq<AdsField>, samples: seq<string>,
                                convert: SFField -> AdsField, turnOff: bool, k: nat)
    requires AllDistinct(NamesOf(describe))
    requires RefineAll(samples, turnOff).Success? && AllDistinct(RefineAll(samples, turnOff).value)
    requires k < |samples| && Unmatched(describe, samples[k])
    requires forall j {:trigger Unmatched(describe, samples[j])} | 0 <= j < k :: !Unmatched(describe, samples[j])
    ensures Reconcile(describe, ads, samples, convert, turnOff)
         == Run(Fail(ColumnNotFound(samples[k])), ads + Accepted(describe, samples[..k], convert))
  {
    FirstUnmatchedAt(describe, samples, k);
  }

  /** `Process` gets past every check exactly when the describe names are
      distinct, every sample name refines, the refined names are distinct,
      every sample name is found or is the sentinel, the output names are
      distinct and no output field has type "unknown"; the output list is then
      the old list followed by the accepted fields in sample order. */
  lemma ReconcilePass(describe: seq<SFField>, ads: seq<AdsField>, samples: seq<string>,
                      convert: SFField -> AdsField, turnOff: bool)
    ensures var r := Reconcile(describe, ads, samples, convert, turnOff);
      var out := ads + Accepted(describe, samples, convert);
      r.outcome.Pass? <==>
        AllDistinct(NamesOf(describe)) &&
        RefineAll(samples, turnOff).Success? && AllDistinct(RefineAll(samples, turnOff).value) &&
        (forall k {:trigger Unmatched(describe, samples[k])} | 0 <= k < |samples| :: !Unmatched(describe, samples[k])) &&
        AllDistinct(AdsNamesOf(out)) &&
        (forall x | x in out :: x.cSharpType != "unknown")
    ensures var r := Reconcile(describe, ads, samples, convert, turnOff);
      r.outcome.Pass? ==> r.fields == ads + Accepted(describe, samples, convert)
  {
    UnknownFieldsEmpty(ads + Accepted(describe, samples, convert));
  }

  /** The unknown-type check runs once on the finished list and reports every
      offending field, after all the earlier checks have passed. */
  lemma ReconcileUnknown(describe: seq<SFField>, ads: seq<AdsField>, samples: seq<string>,
                         convert: SFField -> AdsField, turnOff: bool)
    ensures var r := Reconcile(describe, ads, samples, convert, turnOff);
      r.outcome.Fail? && r.outcome.error.UnknownDataFields? ==>
        r.fields == ads + Accepted(describe, samples, convert) &&
        AllDistinct(AdsNamesOf(r.fields)) &&
        (forall k {:trigger Unmatched(describe, samples[k])} | 0 <= k < |samples| :: !Unmatched(describe, samples[k])) &&
        r.outcome.error.fields != [] &&
        forall x :: x in r.outcome.error.fields <==> x in r.fields && x.cSharpType == "unknown"
  {
    var r := Reconcile(describe, ads, samples, convert, turnOff);
    if r.outcome.Fail? && r.outcome.error.UnknownDataFields? {
      forall x | x in r.fields && x.cSharpType == "unknown"
        ensures x in r.outcome.error.fields
      {
        var k :| 0 <= k < |r.fields| && r.fields[k] == x;
      }
    }
  }

  /** However `Process` ends, its output list is the old list followed by the
      fields accepted from some prefix of the sample names. */
  lemma ReconcileOutputIsPrefixWalk(describe: seq<SFField>, ads: seq<AdsField>, samples: seq<string>,
                                    convert: SFField -> AdsField, turnOff: bool)
    ensures exists m | 0 <= m <= |samples| ::
      Reconcile(describe, ads, samples, convert, turnOff).fields == ads + Accepted(describe, samples[..m], convert)
  {
    var r := Reconcile(describe, ads, samples, convert, turnOff);
    var k := FirstUnmatched(describe, samples);
    if r.fields == ads {
      assert samples[..0] == [];
      assert r.fields == ads + Accepted(describe, samples[..0], convert);
    } else if 0 <= k {
      assert r.fields == ads + Accepted(describe, samples[..k], convert);
    } else {
      assert samples[..|samples|] == samples;
      assert r.fields == ads + Accepted(describe, samples[..|samples|], convert);
    }
  }

  // ---------------------------------------------------------------------------
  // The default query
  // ---------------------------------------------------------------------------

  /** The default query of the generated query builder: "SELECT +", the
      output fields' Salesforce names joined by ",", "+FROM+" and the entity. */
  function DefaultQuery(entityName: string, fields: seq<AdsField>): (q: string)
    ensures |q| >= 14 + |entityName|
    ensures q[..8] == "SELECT +"
    ensures q[|q| - 6 - |entityName|..] == "+FROM+" + entityName
    ensures fields == [] ==> q == "SELECT ++FROM+" + entityName
  {
    "SELECT +" + Join(",", SFNamesOf(fields)) + "+FROM+" + entityName
  }

  /** The select list between the two fixed parts splits back into the output
      fields' Salesforce names, in list order, when none holds a comma. */
  lemma DefaultQuerySelectList(entityName: string, fields: seq<AdsField>)
    requires fields != []
    requires forall k | 0 <= k < |fields| :: ',' !in fields[k].sfName
    ensures var q := DefaultQuery(entityName, fields);
      Split(q[8..|q| - 6 - |entityName|], ',') == SFNamesOf(fields)
  {
    var names := SFNamesOf(fields);
    var q := DefaultQuery(entityName, fields);
    assert q[8..|q| - 6 - |entityName|] == Join([','], names);
    SplitJoin(names, ',');
  }

  /** The refining `Select(...).ToList()`, name by name with the
      `RefineEntityName` method: stops at the first name that throws. */
  method RefineSamples(samples: seq<string>, turnOff: bool) returns (r: Result<seq<string>, string>)
    ensures r == RefineAll(samples, turnOff)
  {
    var refined: seq<string> := [];
    for k := 0 to |samples|
      invariant RefineAll(samples[..k], turnOff) == Success(refined)
    {
      var name := RefineEntityName(samples[k], turnOff);
      RefineAllStep(samples, k, turnOff);
      if name.None? {
        RefineAllFailurePersists(samples, k + 1, turnOff);
        return Failure(samples[k]);
      }
      refined := refined + [name.value];
    }
    assert samples[..|samples|] == samples;
    return Success(refined);
  }

  // ---------------------------------------------------------------------------
  // The parser object
  // ---------------------------------------------------------------------------

  /** `Parser`, holding the describe list (`SFDescribes.Fields`), the compound
      names (`SFDescribes.CompoundFieldNames`) and the output list
      (`AdsDescribe.Fields`). The file paths are not modelled. */
  class Parser {
    const entityName: string
    var sfFields: seq<SFField>
    var compoundFieldNames: seq<string>
    var adsFields: seq<AdsField>

    constructor (entityName: string)
      ensures this.entityName == entityName
      ensures sfFields == [] && compoundFieldNames == [] && adsFields == []
    {
      this.entityName := entityName;
      sfFields := [];
      compoundFieldNames := [];
      adsFields := [];
    }

    /** The loop of `GetAllPropertiesFromItsDescribeFile` over parsed entries:
        every entry's field is appended; its compound name is appended when
        non-empty and not yet present. */
    method LoadDescribe(entries: seq<DescribeEntry>)
      modifies this
      ensures sfFields == old(sfFields) + FieldsOf(entries)
      ensures compoundFieldNames == AddCompoundNames(old(compoundFieldNames), entries)
      ensures adsFields == old(adsFields)
    {
      for i := 0 to |entries|
        invariant sfFields == old(sfFields) + FieldsOf(entries[..i])
        invariant compoundFieldNames == AddCompoundNames(old(compoundFieldNames), entries[..i])
        invariant adsFields == old(adsFields)
      {
        assert entries[..i + 1][..i] == entries[..i];
        var compoundFieldName := entries[i].compoundFieldName;
        if compoundFieldName != "" && compoundFieldName !in compoundFieldNames {
          compoundFieldNames := compoundFieldNames + [compoundFieldName];
        }
        sfFields := sfFields + [entries[i].field];
      }
      assert entries[..|entries|] == entries;
    }

    /** The `foreach` over the sample names: each name found in the describe
        list and not compounded appends its converted field; the first name
        neither found nor the sentinel stops the walk, and its position is
        returned (-1 when the walk completes). */
    method AddSampleFields(samples: seq<string>, convert: SFField -> AdsField) returns (stop: int)
      modifies this
      ensures sfFields == old(sfFields) && compoundFieldNames == old(compoundFieldNames)
      ensures stop == FirstUnmatched(sfFields, samples)
      ensures adsFields == old(adsFields) + Accepted(sfFields, samples[..if stop < 0 then |samples| else stop], convert)
    {
      ghost var describe := sfFields;
      for k := 0 to |samples|
        invariant sfFields == describe && compoundFieldNames == old(compoundFieldNames)
        invariant adsFields == old(adsFields) + Accepted(describe, samples[..k], convert)
        invariant forall j {:trigger Unmatched(describe, samples[j])} | 0 <= j < k :: !Unmatched(describe, samples[j])
      {
        AcceptedStep(describe, samples, k, convert);
        var found := AddSampleField(samples[k], convert);
        if !found {
          FirstUnmatchedAt(describe, samples, k);
          return k;
        }
      }
      FirstUnmatchedNone(describe, samples);
      assert samples[..|samples|] == samples;
      return -1;
    }

    /** One turn of that `foreach`: looks the name up by its exact raw name,
        appends the converted field unless it is compounded, and reports
        whether the name was found or is the sentinel. */
    method AddSampleField(column: string, convert: SFField -> AdsField) returns (found: bool)
      modifies this
      ensures sfFields == old(sfFields) && compoundFieldNames == old(compoundFieldNames)
      ensures found == !Unmatched(sfFields, column)
      ensures adsFields == old(adsFields) + Contribution(sfFields, column, convert)
    {
      var property := FindByName(sfFields, column);
      if property.Some? {
        if !property.value.isCompounded {
          adsFields := adsFields + [convert(property.value)];
        }
      } else if column != Sentinel {
        return false;
      }
      return true;
    }

    /** `Process` from the file reads to the generators: loads the describe
        entries, then checks and walks the sample names. A throw is a `Fail`;
        fields appended before it stay in `adsFields`. */
    method Process(entries: seq<DescribeEntry>, samples: seq<string>, convert: SFField -> AdsField, turnOff: bool)
      returns (r: Outcome<ProcessError>)
      modifies this
      ensures sfFields == old(sfFields) + FieldsOf(entries)
      ensures compoundFieldNames == AddCompoundNames(old(compoundFieldNames), entries)
      ensures Run(r, adsFields) == Reconcile(sfFields, old(adsFields), samples, convert, turnOff)
    {
      LoadDescribe(entries);
      var describeCheck := ValidateFields(NamesOf(sfFields));
      if describeCheck.Fail? {
        return Fail(DuplicatedFields(describeCheck.error));
      }

      var refinement := RefineSamples(samples, turnOff);
      if refinement.Failure? {
        return Fail(RefineOutOfRange(refinement.error));
      }
      var sampleCheck := ValidateFields(refinement.value);
      if sampleCheck.Fail? {
        return Fail(DuplicatedPropertyNames(sampleCheck.error));
      }

      var stop := AddSampleFields(samples, convert);
      if 0 <= stop {
        return Fail(ColumnNotFound(samples[stop]));
      }
      assert samples[..|samples|] == samples;

      var resultCheck := ValidateFields(AdsNamesOf(adsFields));
      if resultCheck.Fail? {
        return Fail(DuplicatedFields(resultCheck.error));
      }
      var unknown := UnknownFields(adsFields);
      if |unknown| > 0 {
        return Fail(UnknownDataFields(unknown));
      }
      return Pass;
    }
  }
}
