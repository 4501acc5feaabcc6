/** The validation rules of the request that creates a competition. */
module AddCompetitionRules {
  import opened Wrappers
  import opened Data
  import opened Validation

  /** The body of a create-competition request; `None` is a JSON null or a
      missing property. */
  datatype AddCompetitionDto = AddCompetitionDto(
    nameEn: Option<string>,
    nameAr: Option<string>,
    companyName: Option<string>,
    description: Option<string>,
    link: Option<string>,
    dateOfCreation: DateTime,
    supervisorAccountId: Int32,
    statusName: Option<string>)

  /** The `[Required]` messages of the six string properties, in declaration order. */
  const Messages: seq<string> := [
    "NameEn is required", "NameAr is required", "CompanyName is required",
    "Description is required", "Link is required", "StatusName is required"]

  /** The messages of the failed `[Required]` checks, in declaration order.
      `DateOfCreation` and `SupervisorAccountId` are value types, which
      `[Required]` never rejects. */
  function Errors(dto: AddCompetitionDto): (r: seq<string>)
    ensures r == [] <==>
              && IsPresent(dto.nameEn) && IsPresent(dto.nameAr) && IsPresent(dto.companyName)
              && IsPresent(dto.description) && IsPresent(dto.link) && IsPresent(dto.statusName)
  {
    RequiredString(dto.nameEn, Messages[0])
    + RequiredString(dto.nameAr, Messages[1])
    + RequiredString(dto.companyName, Messages[2])
    + RequiredString(dto.description, Messages[3])
    + RequiredString(dto.link, Messages[4])
    + RequiredString(dto.statusName, Messages[5])
  }

  /** A request the web layer lets through to `AddAsync`. */
  predicate IsValid(dto: AddCompetitionDto)
  {
    Errors(dto) == []
  }

  /** Each missing string field is reported by its own message, and only then. */
  lemma EachMissingFieldHasItsMessage(dto: AddCompetitionDto)
    ensures "NameEn is required" in Errors(dto) <==> !IsPresent(dto.nameEn)
    ensures "NameAr is required" in Errors(dto) <==> !IsPresent(dto.nameAr)
    ensures "CompanyName is required" in Errors(dto) <==> !IsPresent(dto.companyName)
    ensures "Description is required" in Errors(dto) <==> !IsPresent(dto.description)
    ensures "Link is required" in Errors(dto) <==> !IsPresent(dto.link)
    ensures "StatusName is required" in Errors(dto) <==> !IsPresent(dto.statusName)
  {
    forall m | m in Messages
      ensures m in Errors(dto) <==>
                || (m == Messages[0] && !IsPresent(dto.nameEn))
                || (m == Messages[1] && !IsPresent(dto.nameAr))
                || (m == Messages[2] && !IsPresent(dto.companyName))
                || (m == Messages[3] && !IsPresent(dto.description))
                || (m == Messages[4] && !IsPresent(dto.link))
                || (m == Messages[5] && !IsPresent(dto.statusName))
    {
      MessageOfRequiredString(dto.nameEn, Messages[0], m);
      MessageOfRequiredString(dto.nameAr, Messages[1], m);
      MessageOfRequiredString(dto.companyName, Messages[2], m);
      MessageOfRequiredString(dto.description, Messages[3], m);
      MessageOfRequiredString(dto.link, Messages[4], m);
      MessageOfRequiredString(dto.statusName, Messages[5], m);
    }
  }

  /** The date and the supervisor id never make a request invalid: a
      supervisor id of 0 passes. */
  lemma ValueTypesAreNeverRejected(dto: AddCompetitionDto, date: DateTime, supervisor: Int32)
    ensures Errors(dto.(dateOfCreation := date, supervisorAccountId := supervisor)) == Errors(dto)
  {
  }
}
