/** The declarative request checks the web layer applies before a service
    is called: `RequiredAttribute` on strings and nullable values. */
module Validation {
  import opened Wrappers
  import opened Text

  /** `[Required]` on a string: not null, and not empty or white space only. */
  predicate IsPresent(value: Option<string>)
  {
    value.Some? && !IsBlank(value.value)
  }

  /** `RequiredAttribute` tests a string by trimming it: it is present
      exactly when something is left after `Trim`. */
  lemma PresentIffTrimLeavesText(s: string)
    ensures IsPresent(Some(s)) <==> Trim(s) != []
  {
    BlankIffTrimsToEmpty(s);
  }

  /** The error list of one `[Required]` string: empty when it is present,
      otherwise the attribute's message. */
  function RequiredString(value: Option<string>, message: string): (r: seq<string>)
    ensures r == [] <==> IsPresent(value)
    ensures r != [] ==> r == [message]
  {
    if IsPresent(value) then [] else [message]
  }

  /** A message occurs in the error list of one `[Required]` string
      exactly when it is that attribute's message and the value is missing. */
  lemma MessageOfRequiredString(value: Option<string>, message: string, m: string)
    ensures m in RequiredString(value, message) <==> m == message && !IsPresent(value)
  {
  }

  /** The error list of one `[Required]` nullable value type: null is rejected. */
  function RequiredValue<T>(value: Option<T>, message: string): (r: seq<string>)
    ensures r == [] <==> value.Some?
    ensures r != [] ==> r == [message]
  {
    if value.Some? then [] else [message]
  }
}
