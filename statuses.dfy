/** The status lookup listing (`StatusRepository`). */
module Statuses {
  import opened Wrappers
  import opened Data

  /** One entry of the listing: the id as an `int`, and the name. */
  datatype StatusDto = StatusDto(id: Int32, statusName: string)

  /** The error the database raises when the `(int)` cast of the query,
      run as SQL `CAST(... AS int)`, meets an id outside the `int` range. */
  const CastOverflow: string := "Arithmetic overflow error converting expression to data type int."

  /** The id fits in C#'s `int`. */
  predicate FitsInt32(id: int)
  {
    -0x8000_0000 <= id < 0x8000_0000
  }

  /** Every status id fits in an `int`. */
  predicate AllIdsFit(statuses: seq<Status>)
  {
    forall i :: 0 <= i < |statuses| ==> FitsInt32(statuses[i].id)
  }

  /** `GetAllStatusesAsync`: one entry per status row, in storage order, with
      the row's id and name; the query fails as a whole when some id does
      not fit in an `int`. */
  function GetAllStatuses(statuses: seq<Status>): (r: Result<seq<StatusDto>>)
    ensures r.Err? <==> !AllIdsFit(statuses)
    ensures r.Err? ==> r.error == CastOverflow
    ensures r.Ok? ==> |r.value| == |statuses|
    ensures r.Ok? ==> forall i :: 0 <= i < |statuses| ==>
              r.value[i].id == statuses[i].id && r.value[i].statusName == statuses[i].statusName
  {
    if statuses == [] then Ok([])
    else if !FitsInt32(statuses[0].id) then Err(CastOverflow)
    else
      match GetAllStatuses(statuses[1..])
      case Err(e) => Err(e)
      case Ok(rest) => Ok([StatusDto(statuses[0].id, statuses[0].statusName)] + rest)
  }

  /** The listing keeps storage order: listing two runs of rows one after
      the other gives the two listings one after the other, and it fails
      exactly when one of the runs fails. */
  lemma {:induction false} ListingOfConcatenation(a: seq<Status>, b: seq<Status>)
    ensures GetAllStatuses(a + b).Ok? <==> GetAllStatuses(a).Ok? && GetAllStatuses(b).Ok?
    ensures GetAllStatuses(a + b).Ok? ==>
              GetAllStatuses(a + b).value == GetAllStatuses(a).value + GetAllStatuses(b).value
  {
    if a == [] {
      assert a + b == b;
    } else {
      assert (a + b)[1..] == a[1..] + b;
      ListingOfConcatenation(a[1..], b);
    }
  }

  /** An id outside the `int` range makes the whole listing fail. */
  lemma LargeIdFailsTheListing(statuses: seq<Status>)
    requires exists i :: 0 <= i < |statuses| && statuses[i].id == 0x1_0000_0001
    ensures GetAllStatuses(statuses) == Err(CastOverflow)
  {
  }
}
