/** The competition service (`CompetitionImp`): listing, details, creation
    and update of competitions, which are stored as Project rows. */
module Competitions {
  import opened Wrappers
  import opened Text
  import opened Description
  import opened Data
  import opened AddCompetitionRules

  const CompetitionNotFound: string := "Competition not found"
  const StatusNotFoundOnAdd: string := "status not found"
  const StatusNotFoundOnUpdate: string := "Status not found"

  /** An entry of the competition list. */
  datatype CompetitionSummary = CompetitionSummary(companyName: string, nameEn: string)

  /** What the details page shows of one competition. */
  datatype CompetitionDetails = CompetitionDetails(
    nameAr: string,
    nameEn: string,
    companyName: string,
    additionalInformation: Option<string>,
    dateOfCreation: DateTime,
    supervisorName: Option<string>,
    statusName: Option<string>,
    descriptionWithLink: string)

  /** What creating a competition returns. */
  datatype CreatedCompetition = CreatedCompetition(id: int, nameAr: string, nameEn: string, statusName: string)

  /** The body of an update request (it carries no validation attributes). */
  datatype UpdateCompetitionDto = UpdateCompetitionDto(
    nameAr: string,
    nameEn: string,
    companyName: string,
    dateOfCreation: DateTime,
    description: Option<string>,
    link: Option<string>,
    supervisorAccountId: Int64,
    statusName: Option<string>)

  /** `k` is the first row of `projects` with id `id`. */
  predicate IsFirstProjectWithId(projects: seq<Project>, id: int, k: int)
  {
    0 <= k < |projects| && projects[k].id == id
    && forall j :: 0 <= j < k ==> projects[j].id != id
  }

  /** A string interpolated into `$"..."`: a null becomes the empty string. */
  function Interpolated(value: Option<string>): (r: string)
    ensures value.None? ==> r == []
    ensures value.Some? ==> r == value.value
  {
    match value
    case None => []
    case Some(v) => v
  }

  /** Some status has the requested name. The query compares the non-null
      name column with the request's name, so a null name matches no row. */
  predicate HasRequestedStatus(statuses: seq<Status>, name: Option<string>)
  {
    name.Some? && HasStatusNamed(statuses, name.value)
  }

  /** `k` is the first row of `statuses` named `name`. */
  predicate IsFirstStatusNamed(statuses: seq<Status>, name: string, k: int)
  {
    0 <= k < |statuses| && statuses[k].statusName == name
    && forall j :: 0 <= j < k ==> statuses[j].statusName != name
  }

  /** `get`: the company and English name of every competition, in storage order. */
  function List(projects: seq<Project>): (r: seq<CompetitionSummary>)
    ensures |r| == |projects|
    ensures forall i :: 0 <= i < |projects| ==>
              r[i].companyName == projects[i].companyName && r[i].nameEn == projects[i].nameEn
  {
    if projects == [] then []
    else [CompetitionSummary(projects[0].companyName, projects[0].nameEn)] + List(projects[1..])
  }

  /** The supervisor's English name, or null when no account has that id. */
  function SupervisorName(accounts: seq<Account>, id: int): (r: Option<string>)
    ensures r.None? <==> forall i :: 0 <= i < |accounts| ==> accounts[i].id != id
  {
    match AccountWithId(accounts, id)
    case None => None
    case Some(i) => Some(accounts[i].fullNameEn)
  }

  /** The status's name, or null when no status has that id. */
  function StatusNameOf(statuses: seq<Status>, id: int): (r: Option<string>)
    ensures r.None? <==> !HasStatusId(statuses, id)
  {
    match StatusWithId(statuses, id)
    case None => None
    case Some(i) => Some(statuses[i].statusName)
  }

  /** `d` is how the details page shows project `p` of tables `t`. */
  predicate ShowsProject(t: Tables, p: Project, d: CompetitionDetails)
  {
    && d.nameAr == p.nameAr && d.nameEn == p.nameEn && d.companyName == p.companyName
    && d.additionalInformation == p.additionalInformation
    && d.dateOfCreation == p.dateOfCreation
    && d.supervisorName == SupervisorName(t.accounts, p.supervisorAccountId)
    && d.statusName == StatusNameOf(t.statuses, p.statusId)
    && d.descriptionWithLink == Display(Split(p.projectDescription))
  }

  /** `GetByIdAsync`: fails with "Competition not found" exactly when no
      project has the id; otherwise shows the first project with that id,
      its description split into text and link (see `DetailsOfStoredProject`). */
  function Details(t: Tables, id: int): (r: Result<CompetitionDetails>)
    ensures r.Err? <==> !HasProject(t.projects, id)
    ensures r.Err? ==> r.error == CompetitionNotFound
  {
    match ProjectWithId(t.projects, id)
    case None => Err(CompetitionNotFound)
    case Some(k) =>
      var p := t.projects[k];
      Ok(CompetitionDetails(
        p.nameAr, p.nameEn, p.companyName, p.additionalInformation, p.dateOfCreation,
        SupervisorName(t.accounts, p.supervisorAccountId),
        StatusNameOf(t.statuses, p.statusId),
        Display(Split(p.projectDescription))))
  }

  /** The row `AddAsync` inserts for a valid request. */
  function NewProject(id: int, dto: AddCompetitionDto, statusId: Int64): (r: Project)
    requires IsValid(dto)
    ensures r.id == id && r.statusId == statusId && r.additionalInformation == None
    ensures r.supervisorAccountId == dto.supervisorAccountId
    ensures IsTrimmed(r.projectDescription)
  {
    Project(
      id := id,
      nameAr := dto.nameAr.value,
      nameEn := dto.nameEn.value,
      companyName := dto.companyName.value,
      additionalInformation := None,
      dateOfCreation := dto.dateOfCreation,
      projectDescription := Join(dto.description.value, dto.link.value),
      statusId := statusId,
      supervisorAccountId := dto.supervisorAccountId)
  }

  /** `AddAsync` on the tables: the result and the tables afterwards
      (see `AddInsertsOneRow` for the success case). */
  function Add(t: Tables, dto: AddCompetitionDto): (r: (Result<CreatedCompetition>, Tables))
    requires IsValid(dto)
    ensures r.1.statuses == t.statuses && r.1.accounts == t.accounts
    ensures r.0.Err? <==> !HasStatusNamed(t.statuses, dto.statusName.value)
    ensures r.0.Err? ==> r.0.error == StatusNotFoundOnAdd && r.1 == t
  {
    match StatusNamed(t.statuses, dto.statusName.value)
    case None => (Err(StatusNotFoundOnAdd), t)
    case Some(k) =>
      var status := t.statuses[k];
      var p := NewProject(t.nextProjectId, dto, status.id);
      (Ok(CreatedCompetition(p.id, p.nameAr, p.nameEn, status.statusName)),
       t.(projects := t.projects + [p], nextProjectId := t.nextProjectId + 1))
  }

  /** A successful creation appends exactly one row, under an id no existing
      row has, holding the request's fields, the joined description and the
      id of the first status with the requested name; it returns that id,
      the names and the status's name. */
  lemma AddInsertsOneRow(t: Tables, dto: AddCompetitionDto)
    requires IsValid(dto) && Add(t, dto).0.Ok?
    ensures var (r, t') := Add(t, dto);
            var k := StatusNamed(t.statuses, dto.statusName.value).value;
            && IsFirstStatusNamed(t.statuses, dto.statusName.value, k)
            && |t'.projects| == |t.projects| + 1
            && t'.projects[..|t.projects|] == t.projects
            && t'.projects[|t.projects|] == NewProject(r.value.id, dto, t.statuses[k].id)
            && r.value == CreatedCompetition(r.value.id, dto.nameAr.value, dto.nameEn.value, dto.statusName.value)
            && (t.Valid() ==> !HasProject(t.projects, r.value.id))
  {
    var (r, t') := Add(t, dto);
    assert t'.projects[..|t.projects|] == t.projects;
  }

  /** The seven fields `UpdateAsync` overwrites; the id and the additional
      information are kept. */
  function Overwrite(p: Project, dto: UpdateCompetitionDto, statusId: Int64): (q: Project)
    ensures q.id == p.id && q.additionalInformation == p.additionalInformation
  {
    p.(nameAr := dto.nameAr, nameEn := dto.nameEn, companyName := dto.companyName,
       dateOfCreation := dto.dateOfCreation,
       projectDescription := Join(Interpolated(dto.description), Interpolated(dto.link)),
       supervisorAccountId := dto.supervisorAccountId, statusId := statusId)
  }

  /** A null description or link is stored as an empty one would be. */
  lemma NullTextIsStoredAsEmpty(p: Project, dto: UpdateCompetitionDto, statusId: Int64)
    ensures Overwrite(p, dto.(description := None), statusId) == Overwrite(p, dto.(description := Some("")), statusId)
    ensures Overwrite(p, dto.(link := None), statusId) == Overwrite(p, dto.(link := Some("")), statusId)
  {
  }

  /** `UpdateAsync` on the tables: the project is looked up before the
      status, and a failure changes no row (see `UpdateOverwritesOneRow`
      for the success case). */
  function Update(t: Tables, dto: UpdateCompetitionDto, id: int): (r: (Result<()>, Tables))
    ensures r.1.statuses == t.statuses && r.1.accounts == t.accounts
    ensures r.1.nextProjectId == t.nextProjectId && |r.1.projects| == |t.projects|
    ensures r.0.Ok? <==> HasProject(t.projects, id) && HasRequestedStatus(t.statuses, dto.statusName)
    ensures !HasProject(t.projects, id) ==> r == (Err(CompetitionNotFound), t)
    ensures HasProject(t.projects, id) && !HasRequestedStatus(t.statuses, dto.statusName) ==>
              r == (Err(StatusNotFoundOnUpdate), t)
  {
    match ProjectWithId(t.projects, id)
    case None => (Err(CompetitionNotFound), t)
    case Some(k) =>
      if dto.statusName.None? then (Err(StatusNotFoundOnUpdate), t)
      else
      match StatusNamed(t.statuses, dto.statusName.value)
      case None => (Err(StatusNotFoundOnUpdate), t)
      case Some(s) =>
        (Ok(()), t.(projects := t.projects[k := Overwrite(t.projects[k], dto, t.statuses[s].id)]))
  }

  /** A successful update rewrites the first project with the id, using the
      first status with the requested name, and leaves every other row as it was. */
  lemma UpdateOverwritesOneRow(t: Tables, dto: UpdateCompetitionDto, id: int)
    requires Update(t, dto, id).0.Ok?
    ensures var t' := Update(t, dto, id).1;
            var k := ProjectWithId(t.projects, id).value;
            var s := StatusNamed(t.statuses, dto.statusName.value).value;
            && IsFirstProjectWithId(t.projects, id, k)
            && IsFirstStatusNamed(t.statuses, dto.statusName.value, s)
            && t'.projects[k] == Overwrite(t.projects[k], dto, t.statuses[s].id)
            && forall j :: 0 <= j < |t.projects| && j != k ==> t'.projects[j] == t.projects[j]
  {
  }

  /** Creating a competition keeps keys unique, ids issued by the identity
      column and status references intact. */
  lemma AddPreservesValid(t: Tables, dto: AddCompetitionDto)
    requires t.Valid() && IsValid(dto)
    ensures Add(t, dto).1.Valid()
  {
    var (r, t') := Add(t, dto);
    if r.Ok? {
      AddInsertsOneRow(t, dto);
      var n := |t.projects|;
      var k := StatusNamed(t.statuses, dto.statusName.value).value;
      assert HasStatusId(t.statuses, t.statuses[k].id);
      forall i | 0 <= i < n ensures t'.projects[i] == t.projects[i] {
        assert t'.projects[i] == t'.projects[..n][i];
      }
    }
  }

  /** Updating a competition keeps keys unique, ids issued by the identity
      column and status references intact. */
  lemma UpdatePreservesValid(t: Tables, dto: UpdateCompetitionDto, id: int)
    requires t.Valid()
    ensures Update(t, dto, id).1.Valid()
  {
    var (r, t') := Update(t, dto, id);
    if r.Ok? {
      UpdateOverwritesOneRow(t, dto, id);
      var s := StatusNamed(t.statuses, dto.statusName.value).value;
      assert HasStatusId(t.statuses, t.statuses[s].id);
      assert forall i :: 0 <= i < |t.projects| ==> t'.projects[i].id == t.projects[i].id;
    }
  }

  /** With unique keys, the details of a stored project show its own fields,
      its status's name and its description split for display. */
  lemma DetailsOfStoredProject(t: Tables, k: nat)
    requires t.Valid() && k < |t.projects|
    ensures Details(t, t.projects[k].id).Ok?
    ensures ShowsProject(t, t.projects[k], Details(t, t.projects[k].id).value)
    ensures Details(t, t.projects[k].id).value.statusName.Some?
  {
    ProjectWithIdUnique(t, k);
  }

  /** The details of a newly created competition give back the request's
      names, company, date and status name, with no additional information;
      when the description and link are trimmed and the link starts with
      its only "http", the display shows them unchanged. */
  lemma AddThenDetails(t: Tables, dto: AddCompetitionDto)
    requires t.Valid() && IsValid(dto)
    requires Add(t, dto).0.Ok?
    ensures var d := Details(Add(t, dto).1, Add(t, dto).0.value.id);
            && d.Ok?
            && d.value.nameAr == dto.nameAr.value && d.value.nameEn == dto.nameEn.value
            && d.value.companyName == dto.companyName.value
            && d.value.dateOfCreation == dto.dateOfCreation
            && d.value.additionalInformation == None
            && d.value.supervisorName == SupervisorName(t.accounts, dto.supervisorAccountId)
            && d.value.statusName == Some(dto.statusName.value)
            && d.value.descriptionWithLink == Display(Split(Join(dto.description.value, dto.link.value)))
    ensures var d := Details(Add(t, dto).1, Add(t, dto).0.value.id);
            IsTrimmed(dto.description.value) && IsTrimmed(dto.link.value) && IsLink(dto.link.value) ==>
              d.value.descriptionWithLink == dto.description.value + LinkCaption + dto.link.value
  {
    var (r, t') := Add(t, dto);
    AddInsertsOneRow(t, dto);
    AddPreservesValid(t, dto);
    var n := |t.projects|;
    var s := StatusNamed(t.statuses, dto.statusName.value).value;
    DetailsOfStoredProject(t', n);
    StatusWithIdUnique(t, s);
    if IsTrimmed(dto.description.value) && IsTrimmed(dto.link.value) && IsLink(dto.link.value) {
      SplitInvertsJoin(dto.description.value, dto.link.value);
    }
  }

  /** Creating a competition leaves the details of every existing one unchanged. */
  lemma AddKeepsOtherDetails(t: Tables, dto: AddCompetitionDto, id: int)
    requires t.Valid() && IsValid(dto) && HasProject(t.projects, id)
    ensures Details(Add(t, dto).1, id) == Details(t, id)
  {
    var (r, t') := Add(t, dto);
    if r.Ok? {
      AddInsertsOneRow(t, dto);
      AddPreservesValid(t, dto);
      var k :| 0 <= k < |t.projects| && t.projects[k].id == id;
      assert t'.projects[k] == t'.projects[..|t.projects|][k];
      ProjectWithIdUnique(t, k);
      ProjectWithIdUnique(t', k);
    }
  }

  /** Creating a competition appends exactly its entry to the list. */
  lemma AddThenList(t: Tables, dto: AddCompetitionDto)
    requires IsValid(dto) && Add(t, dto).0.Ok?
    ensures List(Add(t, dto).1.projects)
            == List(t.projects) + [CompetitionSummary(dto.companyName.value, dto.nameEn.value)]
  {
    var (r, t') := Add(t, dto);
    AddInsertsOneRow(t, dto);
    var n := |t.projects|;
    forall i | 0 <= i < n ensures t'.projects[i] == t.projects[i] {
      assert t'.projects[i] == t'.projects[..n][i];
    }
  }

  /** After a successful update the details show the request's fields, the
      kept additional information and the new status's name. */
  lemma UpdateThenDetails(t: Tables, dto: UpdateCompetitionDto, id: int)
    requires t.Valid() && Update(t, dto, id).0.Ok?
    ensures var d := Details(Update(t, dto, id).1, id);
            && d.Ok?
            && d.value.nameAr == dto.nameAr && d.value.nameEn == dto.nameEn
            && d.value.companyName == dto.companyName
            && d.value.dateOfCreation == dto.dateOfCreation
            && d.value.statusName == dto.statusName
            && d.value.supervisorName == SupervisorName(t.accounts, dto.supervisorAccountId)
            && d.value.descriptionWithLink
               == Display(Split(Join(Interpolated(dto.description), Interpolated(dto.link))))
            && d.value.additionalInformation == Details(t, id).value.additionalInformation
  {
    var (r, t') := Update(t, dto, id);
    UpdateOverwritesOneRow(t, dto, id);
    UpdatePreservesValid(t, dto, id);
    var k := ProjectWithId(t.projects, id).value;
    var s := StatusNamed(t.statuses, dto.statusName.value).value;
    ProjectWithIdUnique(t, k);
    ProjectWithIdUnique(t', k);
    StatusWithIdUnique(t, s);
  }

  /** An update changes nothing the details of any other competition show. */
  lemma UpdateKeepsOtherDetails(t: Tables, dto: UpdateCompetitionDto, id: int, other: int)
    requires t.Valid() && other != id
    ensures Details(Update(t, dto, id).1, other) == Details(t, other)
  {
    var (r, t') := Update(t, dto, id);
    if r.Ok? {
      UpdateOverwritesOneRow(t, dto, id);
      UpdatePreservesValid(t, dto, id);
      var k := ProjectWithId(t.projects, id).value;
      if HasProject(t.projects, other) {
        var j :| 0 <= j < |t.projects| && t.projects[j].id == other;
        assert j != k;
        ProjectWithIdUnique(t, j);
        ProjectWithIdUnique(t', j);
      } else {
        assert forall i :: 0 <= i < |t'.projects| ==> t'.projects[i].id == t.projects[i].id;
      }
    }
  }

  /** The competition service over a data context. */
  class CompetitionImp {
    const db: Context

    constructor (context: Context)
      ensures db == context
    {
      db := context;
    }

    /** Resolves the status by name, then inserts the new project and
        advances the identity column. */
    method AddAsync(dto: AddCompetitionDto) returns (r: Result<CreatedCompetition>)
      requires IsValid(dto)
      modifies db
      ensures (r, db.Snapshot()) == Add(old(db.Snapshot()), dto)
      ensures old(db.Snapshot()).Valid() ==> db.Snapshot().Valid()
    {
      ghost var before := db.Snapshot();
      var found := StatusNamed(db.statuses, dto.statusName.value);
      if found.None? {
        return Err(StatusNotFoundOnAdd);
      }
      var status := db.statuses[found.value];
      var project := NewProject(db.nextProjectId, dto, status.id);
      db.projects := db.projects + [project];
      db.nextProjectId := db.nextProjectId + 1;
      r := Ok(CreatedCompetition(project.id, project.nameAr, project.nameEn, status.statusName));
      assert (r, db.Snapshot()) == Add(before, dto);
      if before.Valid() {
        AddPreservesValid(before, dto);
      }
    }

    /** Finds the project, resolves the status, then overwrites seven fields
        of the project in place. */
    method UpdateAsync(dto: UpdateCompetitionDto, id: int) returns (r: Result<()>)
      modifies db
      ensures (r, db.Snapshot()) == Update(old(db.Snapshot()), dto, id)
      ensures old(db.Snapshot()).Valid() ==> db.Snapshot().Valid()
    {
      if db.Snapshot().Valid() {
        UpdatePreservesValid(db.Snapshot(), dto, id);
      }
      var found := ProjectWithId(db.projects, id);
      if found.None? {
        return Err(CompetitionNotFound);
      }
      if dto.statusName.None? {
        return Err(StatusNotFoundOnUpdate);
      }
      var status := StatusNamed(db.statuses, dto.statusName.value);
      if status.None? {
        return Err(StatusNotFoundOnUpdate);
      }
      var k := found.value;
      var project := db.projects[k];
      project := project.(nameAr := dto.nameAr);
      project := project.(nameEn := dto.nameEn);
      project := project.(companyName := dto.companyName);
      project := project.(dateOfCreation := dto.dateOfCreation);
      project := project.(projectDescription := Join(Interpolated(dto.description), Interpolated(dto.link)));
      project := project.(supervisorAccountId := dto.supervisorAccountId);
      project := project.(statusId := db.statuses[status.value].id);
      db.projects := db.projects[k := project];
      r := Ok(());
    }
  }
}
