/** The rows the competition and status services read and write, the
    tables that hold them, and the data context that owns the tables. */
module Data {
  import opened Wrappers

  /** C#'s `int`. */
  type Int32 = x: int | -0x8000_0000 <= x < 0x8000_0000

  /** C#'s `long`. */
  type Int64 = x: int | -0x8000_0000_0000_0000 <= x < 0x8000_0000_0000_0000

  /** A `DateTime`, kept opaque: nothing computes with dates. */
  datatype DateTime = DateTime(ticks: int)

  /** A row of the Status lookup table. */
  datatype Status = Status(id: Int64, statusName: string, businessEntity: Option<string>)

  /** The part of an Account row that the competition service shows. */
  datatype Account = Account(id: Int64, fullNameEn: string, fullNameAr: string)

  /** A row of the Project table: a competition. */
  datatype Project = Project(
    id: int,
    nameAr: string,
    nameEn: string,
    companyName: string,
    additionalInformation: Option<string>,
    dateOfCreation: DateTime,
    projectDescription: string,
    statusId: Int64,
    supervisorAccountId: Int64)

  /** The contents of the database: the rows of each table in storage order,
      and the next value of the Project identity column. */
  datatype Tables = Tables(
    statuses: seq<Status>,
    projects: seq<Project>,
    accounts: seq<Account>,
    nextProjectId: int)
  {
    /** Primary keys are unique, every project id was issued by the identity
        column, and every project refers to an existing status. */
    ghost predicate Valid()
    {
      && (forall i, j :: 0 <= i < j < |projects| ==> projects[i].id != projects[j].id)
      && (forall i :: 0 <= i < |projects| ==> projects[i].id < nextProjectId)
      && (forall i, j :: 0 <= i < j < |statuses| ==> statuses[i].id != statuses[j].id)
      && (forall i, j :: 0 <= i < j < |accounts| ==> accounts[i].id != accounts[j].id)
      && (forall i :: 0 <= i < |projects| ==> HasStatusId(statuses, projects[i].statusId))
    }
  }

  /** `FirstOrDefault(predicate)`: the index of the first row that matches,
      or `None` when no row does. */
  function FirstIndex<T>(rows: seq<T>, matches: T -> bool): (r: Option<nat>)
    ensures r.None? <==> forall i :: 0 <= i < |rows| ==> !matches(rows[i])
    ensures r.Some? ==> r.value < |rows| && matches(rows[r.value])
                        && forall i :: 0 <= i < r.value ==> !matches(rows[i])
  {
    if rows == [] then None
    else if matches(rows[0]) then Some(0)
    else match FirstIndex(rows[1..], matches)
      case None => None
      case Some(k) => Some(k + 1)
  }

  /** The first project with the given id. */
  function ProjectWithId(projects: seq<Project>, id: int): (r: Option<nat>)
    ensures r.None? <==> !HasProject(projects, id)
    ensures r.Some? ==> r.value < |projects| && projects[r.value].id == id
                        && forall j :: 0 <= j < r.value ==> projects[j].id != id
  {
    FirstIndex(projects, (p: Project) => p.id == id)
  }

  /** The first status with the given name (exact comparison). */
  function StatusNamed(statuses: seq<Status>, name: string): (r: Option<nat>)
    ensures r.None? <==> !HasStatusNamed(statuses, name)
    ensures r.Some? ==> r.value < |statuses| && statuses[r.value].statusName == name
                        && forall j :: 0 <= j < r.value ==> statuses[j].statusName != name
  {
    FirstIndex(statuses, (s: Status) => s.statusName == name)
  }

  /** The first status with the given id. */
  function StatusWithId(statuses: seq<Status>, id: int): (r: Option<nat>)
    ensures r.None? <==> !HasStatusId(statuses, id)
    ensures r.Some? ==> r.value < |statuses| && statuses[r.value].id == id
                        && forall j :: 0 <= j < r.value ==> statuses[j].id != id
  {
    FirstIndex(statuses, (s: Status) => s.id == id)
  }

  /** The first account with the given id. */
  function AccountWithId(accounts: seq<Account>, id: int): (r: Option<nat>)
    ensures r.None? <==> forall i :: 0 <= i < |accounts| ==> accounts[i].id != id
    ensures r.Some? ==> r.value < |accounts| && accounts[r.value].id == id
                        && forall j :: 0 <= j < r.value ==> accounts[j].id != id
  {
    FirstIndex(accounts, (a: Account) => a.id == id)
  }

  predicate HasProject(projects: seq<Project>, id: int)
  {
    exists i :: 0 <= i < |projects| && projects[i].id == id
  }

  predicate HasStatusNamed(statuses: seq<Status>, name: string)
  {
    exists i :: 0 <= i < |statuses| && statuses[i].statusName == name
  }

  predicate HasStatusId(statuses: seq<Status>, id: int)
  {
    exists i :: 0 <= i < |statuses| && statuses[i].id == id
  }

  /** With unique keys, the lookup by id finds exactly the row holding that id. */
  lemma ProjectWithIdUnique(t: Tables, k: nat)
    requires t.Valid() && k < |t.projects|
    ensures ProjectWithId(t.projects, t.projects[k].id) == Some(k)
  {
    var r := ProjectWithId(t.projects, t.projects[k].id);
    assert r.Some?;
  }

  /** With unique keys, the lookup by id finds exactly the status holding that id. */
  lemma StatusWithIdUnique(t: Tables, k: nat)
    requires t.Valid() && k < |t.statuses|
    ensures StatusWithId(t.statuses, t.statuses[k].id) == Some(k)
  {
    var r := StatusWithId(t.statuses, t.statuses[k].id);
    assert r.Some?;
  }

  /** The data context: the tables as fields that the services update in place. */
  class Context {
    var statuses: seq<Status>
    var projects: seq<Project>
    var accounts: seq<Account>
    var nextProjectId: int

    /** A database with the given lookup rows and no project yet; the
        identity column starts at 1. */
    constructor (statuses: seq<Status>, accounts: seq<Account>)
      ensures Snapshot() == Tables(statuses, [], accounts, 1)
    {
      this.statuses := statuses;
      this.projects := [];
      this.accounts := accounts;
      this.nextProjectId := 1;
    }

    /** The current contents of the tables. */
    function Snapshot(): Tables
      reads this
    {
      Tables(statuses, projects, accounts, nextProjectId)
    }
  }
}
