/** `Entity`: a field descriptor that keeps the raw name, SOAP type and
    nullability and derives the refined name and the C# type from them. Its
    setters are private and nothing changes it after construction, so it is a
    value here. */
module Entities {
  import opened Wrappers
  import opened Utility

  datatype Entity = Entity(
    name: string,
    soapType: string,
    isNullable: bool,
    refineName: string,
    cSharpType: string)

  /** The `Entity` constructor; `None` when `RefineEntityName` throws on the name. */
  function NewEntity(name: string, soapType: string, isNullable: bool, turnOff: bool): (r: Option<Entity>)
    ensures r.Some? <==> Refined(name, turnOff).Some?
    ensures r.Some? ==> r.value.name == name && r.value.soapType == soapType && r.value.isNullable == isNullable
    ensures r.Some? ==> r.value.refineName == Refined(name, turnOff).value
    ensures r.Some? && !turnOff ==> '_' !in r.value.refineName
    ensures r.Some? ==> r.value.cSharpType in CSharpTypes
    ensures r.Some? ==> (r.value.cSharpType == "unknown" <==> soapType !in KnownSoapTypes)
  {
    match Refined(name, turnOff)
    case None => None
    case Some(refined) => Some(Entity(name, soapType, isNullable, refined, SoapTypeToCSharpTypeMap(soapType)))
  }

  /** The derived attributes are consistent with the raw ones: refining the
      refined name again changes nothing, and its C# type is the mapping of its
      SOAP type. */
  lemma EntityDerivedStable(name: string, soapType: string, isNullable: bool, turnOff: bool)
    requires NewEntity(name, soapType, isNullable, turnOff).Some?
    ensures var e := NewEntity(name, soapType, isNullable, turnOff).value;
      Refined(e.refineName, turnOff) == Some(e.refineName) &&
      e.cSharpType == SoapTypeToCSharpTypeMap(e.soapType)
  {
    RefinedIdempotent(name, turnOff);
  }
}
