/** The validation rules of the request that creates or updates a scholarship. */
module ScholarshipRules {
  import opened Wrappers
  import opened Text
  import opened Validation

  /** A `DateOnly`, kept opaque: nothing computes with dates. */
  datatype DateOnly = DateOnly(dayNumber: int)

  /** `decimal.MaxValue`, 2^96 - 1. */
  const DecimalMax: real := 79228162514264337593543950335.0

  /** The smallest amount the `[Range]` attribute accepts. */
  const MinAmount: real := 0.01

  /** A C# `decimal`: a base-10 value no larger in magnitude than `decimal.MaxValue`. */
  type Decimal = r: real | -DecimalMax <= r <= DecimalMax

  /** The body of a scholarship request; `None` is a JSON null or a missing property. */
  datatype ScholarshipDto = ScholarshipDto(
    scholarshipName: Option<string>,
    scholarshipDescription: Option<string>,
    regestrationLink: Option<string>,
    amount: Decimal,
    providerName: Option<string>,
    startDate: Option<DateOnly>,
    endDate: Option<DateOnly>,
    statusName: Option<string>)

  /** `[Range(typeof(decimal), "0.01", "79228162514264337593543950335")]`. */
  predicate AmountInRange(amount: Decimal)
  {
    MinAmount <= amount <= DecimalMax
  }

  /** The error list of the `[Range]` check on `Amount` (its `[Required]`
      never fails on a value type). */
  function AmountErrors(amount: Decimal): (r: seq<string>)
    ensures r == [] <==> AmountInRange(amount)
    ensures amount <= 0.0 ==> r == ["Amount must be greater than 0"]
  {
    if AmountInRange(amount) then [] else ["Amount must be greater than 0"]
  }

  /** Every field is present and the amount in range. */
  predicate AllRulesHold(dto: ScholarshipDto)
  {
    && IsPresent(dto.scholarshipName) && IsPresent(dto.scholarshipDescription)
    && IsPresent(dto.regestrationLink) && AmountInRange(dto.amount)
    && IsPresent(dto.providerName) && dto.startDate.Some? && dto.endDate.Some?
    && IsPresent(dto.statusName)
  }

  /** The failed checks' messages in declaration order, as written: a
      missing `statusName` is reported as "EndDate is required". */
  function Errors(dto: ScholarshipDto): (r: seq<string>)
    ensures r == [] <==> AllRulesHold(dto)
  {
    RequiredString(dto.scholarshipName, "ScholarshipName is required")
    + RequiredString(dto.scholarshipDescription, "ScholarshipDescription is required")
    + RequiredString(dto.regestrationLink, "RegestrationLink is required")
    + AmountErrors(dto.amount)
    + RequiredString(dto.providerName, "ProviderName is required")
    + RequiredValue(dto.startDate, "StartDate is required")
    + RequiredValue(dto.endDate, "EndDate is required")
    + RequiredString(dto.statusName, "EndDate is required")
  }

  /** The same checks with the message `statusName` was evidently meant to have. */
  function IntendedErrors(dto: ScholarshipDto): (r: seq<string>)
    ensures r == [] <==> AllRulesHold(dto)
  {
    RequiredString(dto.scholarshipName, "ScholarshipName is required")
    + RequiredString(dto.scholarshipDescription, "ScholarshipDescription is required")
    + RequiredString(dto.regestrationLink, "RegestrationLink is required")
    + AmountErrors(dto.amount)
    + RequiredString(dto.providerName, "ProviderName is required")
    + RequiredValue(dto.startDate, "StartDate is required")
    + RequiredValue(dto.endDate, "EndDate is required")
    + RequiredString(dto.statusName, "statusName is required")
  }

  /** A request the web layer lets through to the scholarship service. */
  predicate IsValid(dto: ScholarshipDto)
  {
    IntendedErrors(dto) == []
  }

  /** The slip in the messages does not change which requests pass. */
  lemma MessagesDoNotChangeValidity(dto: ScholarshipDto)
    ensures Errors(dto) == [] <==> IsValid(dto)
  {
  }

  /** Amounts up to zero, and positive amounts below 0.01, are rejected;
      the upper bound never rejects a decimal. */
  lemma AmountBounds(amount: Decimal)
    ensures AmountErrors(amount) == [] <==> amount >= MinAmount
    ensures 0.0 < amount < MinAmount ==> AmountErrors(amount) == ["Amount must be greater than 0"]
  {
  }

  /** Nothing relates the start and end dates: once both are present,
      their values change no message, so a request that ends before it
      starts passes exactly when the same request with ordered dates does. */
  lemma DatesAreNotOrdered(dto: ScholarshipDto, start: DateOnly, end: DateOnly, start2: DateOnly, end2: DateOnly)
    ensures Errors(dto.(startDate := Some(start), endDate := Some(end)))
            == Errors(dto.(startDate := Some(start2), endDate := Some(end2)))
    ensures IsValid(dto.(startDate := Some(start), endDate := Some(end)))
            <==> IsValid(dto.(startDate := Some(start2), endDate := Some(end2)))
  {
  }

  /** As written, a request missing only its end date and one missing only
      its status name get the same messages. */
  lemma MissingStatusNameReportedAsEndDate(dto: ScholarshipDto)
    requires AllRulesHold(dto)
    ensures Errors(dto.(endDate := None)) == Errors(dto.(statusName := None)) == ["EndDate is required"]
  {
  }

  /** With the intended messages, each missing field is reported by a
      message of its own, so the two cases above are told apart. */
  lemma IntendedMessagesNameTheField(dto: ScholarshipDto)
    requires AllRulesHold(dto)
    ensures IntendedErrors(dto.(endDate := None)) == ["EndDate is required"]
    ensures IntendedErrors(dto.(statusName := None)) == ["statusName is required"]
    ensures IntendedErrors(dto.(endDate := None)) != IntendedErrors(dto.(statusName := None))
  {
    assert "EndDate is required"[0] != "statusName is required"[0];
  }
}
