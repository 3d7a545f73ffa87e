/**
 * The two record shapes the store is instantiated with (the departments store
 * and the people store add no behaviour of their own), the partial records
 * that update them, and the typed view of both.
 */
module Entities {
  import opened Wrappers
  import opened Records

  datatype Department = Department(id: string, name: string)

  datatype Person = Person(
    id: string,
    firstName: string,
    lastName: string,
    jobTitle: string,
    departmentId: string,
    managerId: Option<string>)

  /** The update input of a department: every field optional. */
  datatype DepartmentPatch = DepartmentPatch(name: Option<string>)

  /** The update input of a person: every field optional, the id not patchable. */
  datatype PersonPatch = PersonPatch(
    firstName: Option<string>,
    lastName: Option<string>,
    jobTitle: Option<string>,
    departmentId: Option<string>,
    managerId: Option<string>)

  const DepartmentFields: set<FieldName> := {"id", "name"}
  const RequiredPersonFields: set<FieldName> := {"id", "firstName", "lastName", "jobTitle", "departmentId"}
  const PersonFields: set<FieldName> := RequiredPersonFields + {"managerId"}

  /** A record of type `Department`: a string `id` and a string `name`, nothing else. */
  predicate IsDepartmentRecord(r: Record)
  {
    r.Keys <= DepartmentFields && Get(r, "id").Str? && Get(r, "name").Str?
  }

  /** A `Partial<Department>`: some of its fields, each a string. */
  predicate IsDepartmentPatch(p: Record)
  {
    p.Keys <= DepartmentFields && forall f :: f in p ==> p[f].Str?
  }

  /** A record of type `Person`: the required string fields and an optional string `managerId`. */
  predicate IsPersonRecord(r: Record)
  {
    && r.Keys <= PersonFields
    && (forall f :: f in RequiredPersonFields ==> Get(r, f).Str?)
    && (Get(r, "managerId").Str? || Get(r, "managerId").Absent?)
  }

  /** A `Partial<Person>`: some of its fields; only the optional `managerId` may be `undefined`. */
  predicate IsPersonPatch(p: Record)
  {
    && p.Keys <= PersonFields
    && (forall f :: f in p && f != "managerId" ==> p[f].Str?)
    && (Get(p, "managerId").Str? || Get(p, "managerId").Absent?)
  }

  function DepartmentToRecord(d: Department): (r: Record)
    ensures IsDepartmentRecord(r)
    ensures Get(r, "id") == Str(d.id) && Get(r, "name") == Str(d.name)
  {
    map["id" := Str(d.id), "name" := Str(d.name)]
  }

  function DepartmentFromRecord(r: Record): (d: Option<Department>)
    ensures d.Some? <==> IsDepartmentRecord(r)
    ensures d.Some? ==> Get(r, "id") == Str(d.value.id) && Get(r, "name") == Str(d.value.name)
  {
    if IsDepartmentRecord(r) then Some(Department(Get(r, "id").s, Get(r, "name").s)) else None
  }

  function StrOrAbsent(o: Option<string>): Value
  {
    match o
    case Some(s) => Str(s)
    case None => Absent
  }

  function PersonToRecord(p: Person): (r: Record)
    ensures IsPersonRecord(r)
    ensures Get(r, "id") == Str(p.id) && Get(r, "firstName") == Str(p.firstName)
    ensures Get(r, "lastName") == Str(p.lastName) && Get(r, "jobTitle") == Str(p.jobTitle)
    ensures Get(r, "departmentId") == Str(p.departmentId)
    ensures Get(r, "managerId") == StrOrAbsent(p.managerId)
  {
    var required := map[
      "id" := Str(p.id),
      "firstName" := Str(p.firstName),
      "lastName" := Str(p.lastName),
      "jobTitle" := Str(p.jobTitle),
      "departmentId" := Str(p.departmentId)];
    match p.managerId
    case Some(m) => required["managerId" := Str(m)]
    case None => required
  }

  function PersonFromRecord(r: Record): (p: Option<Person>)
    ensures p.Some? <==> IsPersonRecord(r)
    ensures p.Some? ==> Get(r, "id") == Str(p.value.id) && Get(r, "firstName") == Str(p.value.firstName)
    ensures p.Some? ==> Get(r, "lastName") == Str(p.value.lastName) && Get(r, "jobTitle") == Str(p.value.jobTitle)
    ensures p.Some? ==> Get(r, "departmentId") == Str(p.value.departmentId)
    ensures p.Some? ==> Get(r, "managerId") == StrOrAbsent(p.value.managerId)
  {
    if IsPersonRecord(r) then
      var m := Get(r, "managerId");
      Some(Person(
        Get(r, "id").s,
        Get(r, "firstName").s,
        Get(r, "lastName").s,
        Get(r, "jobTitle").s,
        Get(r, "departmentId").s,
        if m.Str? then Some(m.s) else None))
    else None
  }

  lemma DepartmentRoundTrip(d: Department)
    ensures DepartmentFromRecord(DepartmentToRecord(d)) == Some(d)
  {
  }

  lemma DepartmentRecordRoundTrip(r: Record)
    requires IsDepartmentRecord(r)
    ensures DepartmentToRecord(DepartmentFromRecord(r).value) == r
  {
  }

  lemma PersonRoundTrip(p: Person)
    ensures PersonFromRecord(PersonToRecord(p)) == Some(p)
  {
  }

  /**
   * A person record read back from its typed view agrees with it on every
   * field; only an own `managerId` holding `undefined` is dropped.
   */
  lemma PersonRecordRoundTrip(r: Record)
    requires IsPersonRecord(r)
    ensures forall f :: Get(PersonToRecord(PersonFromRecord(r).value), f) == Get(r, f)
  {
  }

  /** The patch `r` sets field `f` exactly when the input `o` is given, to its value. */
  predicate Carries(r: Record, f: FieldName, o: Option<string>)
  {
    (f in r <==> o.Some?) && (o.Some? ==> r[f] == Str(o.value))
  }

  function DepartmentPatchToRecord(p: DepartmentPatch): (r: Record)
    ensures IsDepartmentPatch(r)
    ensures r.Keys <= {"name"} && Carries(r, "name", p.name)
  {
    match p.name
    case Some(n) => map["name" := Str(n)]
    case None => map[]
  }

  /** The patch `r` with field `f` set when the input `o` is given; every other field as in `r`. */
  function SetIfGiven(r: Record, f: FieldName, o: Option<string>): (r': Record)
    requires f !in r
    ensures r'.Keys <= r.Keys + {f} && Carries(r', f, o)
    ensures forall g :: g in r ==> g in r' && r'[g] == r[g]
    ensures (forall g :: g in r ==> r[g].Str?) ==> forall g :: g in r' ==> r'[g].Str?
  {
    match o
    case Some(s) => r[f := Str(s)]
    case None => r
  }

  /** The person's field names are pairwise different. */
  lemma PersonFieldNamesDistinct()
    ensures "id" != "firstName"
    ensures "id" != "lastName"
    ensures "id" != "jobTitle"
    ensures "id" != "departmentId"
    ensures "id" != "managerId"
    ensures "firstName" != "lastName"
    ensures "firstName" != "jobTitle"
    ensures "firstName" != "departmentId"
    ensures "firstName" != "managerId"
    ensures "lastName" != "jobTitle"
    ensures "lastName" != "departmentId"
    ensures "lastName" != "managerId"
    ensures "jobTitle" != "departmentId"
    ensures "jobTitle" != "managerId"
    ensures "departmentId" != "managerId"
  {
    assert "id"[0] != "firstName"[0];
    assert "id"[0] != "lastName"[0];
    assert "id"[0] != "jobTitle"[0];
    assert "id"[0] != "departmentId"[0];
    assert "id"[0] != "managerId"[0];
    assert "firstName"[0] != "lastName"[0];
    assert "firstName"[0] != "jobTitle"[0];
    assert "firstName"[0] != "departmentId"[0];
    assert "firstName"[0] != "managerId"[0];
    assert "lastName"[0] != "jobTitle"[0];
    assert "lastName"[0] != "departmentId"[0];
    assert "lastName"[0] != "managerId"[0];
    assert "jobTitle"[0] != "departmentId"[0];
    assert "jobTitle"[0] != "managerId"[0];
    assert "departmentId"[0] != "managerId"[0];
  }

  function PersonPatchToRecord(p: PersonPatch): (r: Record)
    ensures IsPersonPatch(r)
    ensures "id" !in r
    ensures Carries(r, "firstName", p.firstName) && Carries(r, "lastName", p.lastName)
    ensures Carries(r, "jobTitle", p.jobTitle) && Carries(r, "departmentId", p.departmentId)
    ensures Carries(r, "managerId", p.managerId)
  {
    PersonFieldNamesDistinct();
    var r1 := SetIfGiven(map[], "firstName", p.firstName);
    var r2 := SetIfGiven(r1, "lastName", p.lastName);
    var r3 := SetIfGiven(r2, "jobTitle", p.jobTitle);
    var r4 := SetIfGiven(r3, "departmentId", p.departmentId);
    SetIfGiven(r4, "managerId", p.managerId)
  }

  function Override(current: string, o: Option<string>): string
  {
    match o
    case Some(s) => s
    case None => current
  }

  /** A department with the fields of the patch replaced. */
  function PatchDepartment(d: Department, p: DepartmentPatch): Department
  {
    d.(name := Override(d.name, p.name))
  }

  /** A person with the fields of the patch replaced. */
  function PatchPerson(q: Person, p: PersonPatch): Person
  {
    q.(firstName := Override(q.firstName, p.firstName),
       lastName := Override(q.lastName, p.lastName),
       jobTitle := Override(q.jobTitle, p.jobTitle),
       departmentId := Override(q.departmentId, p.departmentId),
       managerId := if p.managerId.Some? then p.managerId else q.managerId)
  }

  /** Merging a `Partial<Department>` into a `Department` gives a `Department`. */
  lemma MergeKeepsDepartment(r: Record, p: Record)
    requires IsDepartmentRecord(r) && IsDepartmentPatch(p)
    ensures IsDepartmentRecord(Merge(r, p))
  {
  }

  /** Merging a `Partial<Person>` into a `Person` gives a `Person`. */
  lemma MergeKeepsPerson(r: Record, p: Record)
    requires IsPersonRecord(r) && IsPersonPatch(p)
    ensures IsPersonRecord(Merge(r, p))
  {
  }

  /** The shallow merge of an update input is the typed update of the department. */
  lemma DepartmentMergeIsPatch(d: Department, p: DepartmentPatch)
    ensures DepartmentFromRecord(Merge(DepartmentToRecord(d), DepartmentPatchToRecord(p)))
      == Some(PatchDepartment(d, p))
  {
  }

  /** A field the patch carries reads, after the merge, as the overridden value. */
  lemma MergeOverrides(r: Record, patch: Record, f: FieldName, current: string, o: Option<string>)
    requires Get(r, f) == Str(current) && Carries(patch, f, o)
    ensures Get(Merge(r, patch), f) == Str(Override(current, o))
  {
  }

  /** The shallow merge of an update input is the typed update of the person. */
  lemma PersonMergeIsPatch(q: Person, p: PersonPatch)
    ensures PersonFromRecord(Merge(PersonToRecord(q), PersonPatchToRecord(p)))
      == Some(PatchPerson(q, p))
  {
    var r, patch := PersonToRecord(q), PersonPatchToRecord(p);
    MergeKeepsPerson(r, patch);
    MergeOverrides(r, patch, "firstName", q.firstName, p.firstName);
    MergeOverrides(r, patch, "lastName", q.lastName, p.lastName);
    MergeOverrides(r, patch, "jobTitle", q.jobTitle, p.jobTitle);
    MergeOverrides(r, patch, "departmentId", q.departmentId, p.departmentId);
  }
}
