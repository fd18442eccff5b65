/** The two describe records of `EntityDescribe.cs`: the raw Salesforce view
    and the refined/mapped view built from it. Both have private setters and
    are never changed after construction, so they are values here. */
module EntityDescribes {
  import opened Wrappers
  import opened Utility

  /** `SFEntityDescribe`: name, SOAP type and nullability as declared. Its
      constructor stores the three arguments verbatim, which is what the
      datatype constructor does. */
  datatype SFEntityDescribe = SFEntityDescribe(name: string, soapType: string, isNullable: bool)

  /** `MSAEntityDescribe`: refined name, C# type and nullability. */
  datatype MSAEntityDescribe = MSAEntityDescribe(name: string, cSharpType: string, isNullable: bool)

  /** The `MSAEntityDescribe(SFEntityDescribe)` constructor; `None` when
      `RefineEntityName` throws on the name. */
  function MSAEntityDescribeOf(sf: SFEntityDescribe, turnOff: bool): (r: Option<MSAEntityDescribe>)
    ensures r.Some? <==> Refined(sf.name, turnOff).Some?
    ensures r.Some? ==> r.value.name == Refined(sf.name, turnOff).value
    ensures r.Some? && !turnOff ==> '_' !in r.value.name
    ensures r.Some? ==> r.value.cSharpType in CSharpTypes
    ensures r.Some? ==> (r.value.cSharpType == "unknown" <==> sf.soapType !in KnownSoapTypes)
    ensures r.Some? ==> r.value.isNullable == sf.isNullable
  {
    match Refined(sf.name, turnOff)
    case None => None
    case Some(refined) => Some(MSAEntityDescribe(refined, SoapTypeToCSharpTypeMap(sf.soapType), sf.isNullable))
  }

  /** A raw record whose name has no underscore keeps its name in the refined view. */
  lemma MSANameOfUnderscoreFree(sf: SFEntityDescribe, turnOff: bool)
    requires '_' !in sf.name
    ensures MSAEntityDescribeOf(sf, turnOff).Some?
    ensures MSAEntityDescribeOf(sf, turnOff).value.name == sf.name
  {
    RefinedUnderscoreFree(sf.name, turnOff);
  }
}
