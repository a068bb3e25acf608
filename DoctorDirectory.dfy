/** The doctor directory page (`js/doctors.js`): the active-doctor list, the
    department id-to-name dictionary, and the search and department filter
    of `filterDoctors`. */
module DoctorDirectory {
  import opened Seqs
  import opened Text
  import opened Records

  /** The dictionary `m` after `depts.forEach(dept => m[dept.id] = dept.name)`. */
  function WithDepartmentNames(m: map<string, string>, depts: seq<Department>): map<string, string>
    decreases |depts|
  {
    if depts == [] then m else WithDepartmentNames(m[depts[0].id := depts[0].name], depts[1..])
  }

  /** The keys afterwards are the old keys and the fetched ids. */
  lemma {:induction false} DepartmentNamesKeys(m: map<string, string>, depts: seq<Department>, x: string)
    ensures x in WithDepartmentNames(m, depts) <==>
            x in m || exists i :: 0 <= i < |depts| && depts[i].id == x
    decreases |depts|
  {
    if depts != [] {
      DepartmentNamesKeys(m[depts[0].id := depts[0].name], depts[1..], x);
      if exists i :: 0 <= i < |depts[1..]| && depts[1..][i].id == x {
        var i :| 0 <= i < |depts[1..]| && depts[1..][i].id == x;
        assert depts[i + 1].id == x;
      }
      if exists i :: 0 <= i < |depts| && depts[i].id == x {
        var i :| 0 <= i < |depts| && depts[i].id == x;
        if i > 0 {
          assert depts[1..][i - 1].id == x;
        }
      }
    }
  }

  /** An id no fetched department carries keeps its old entry. */
  lemma {:induction false} DepartmentNamesUntouched(m: map<string, string>, depts: seq<Department>, x: string)
    requires x in m
    requires forall i :: 0 <= i < |depts| ==> depts[i].id != x
    ensures x in WithDepartmentNames(m, depts) && WithDepartmentNames(m, depts)[x] == m[x]
    decreases |depts|
  {
    if depts != [] {
      assert depts[0].id != x;
      DepartmentNamesUntouched(m[depts[0].id := depts[0].name], depts[1..], x);
    }
  }

  /** The last department with a given id decides its name: a later
      duplicate overwrites an earlier one. */
  lemma {:induction false} LastDuplicateWins(m: map<string, string>, depts: seq<Department>, k: int)
    requires 0 <= k < |depts|
    requires forall j :: k < j < |depts| ==> depts[j].id != depts[k].id
    ensures depts[k].id in WithDepartmentNames(m, depts)
    ensures WithDepartmentNames(m, depts)[depts[k].id] == depts[k].name
    decreases |depts|
  {
    var m' := m[depts[0].id := depts[0].name];
    if k == 0 {
      DepartmentNamesUntouched(m', depts[1..], depts[0].id);
    } else {
      LastDuplicateWins(m', depts[1..], k - 1);
    }
  }

  /** `allDepartmentsData[doctor.department_id] || 'N/A'`: a missing entry
      and an empty name are both falsy. */
  function DepartmentLabel(m: map<string, string>, doc: Doctor): (r: string)
    ensures doc.departmentId !in m ==> r == "N/A"
    ensures doc.departmentId in m && m[doc.departmentId] != "" ==> r == m[doc.departmentId]
    ensures doc.departmentId in m && m[doc.departmentId] == "" ==> r == "N/A"
  {
    if doc.departmentId in m && m[doc.departmentId] != "" then m[doc.departmentId] else "N/A"
  }

  /** A doctor whose department was fetched, and named, shows that name; one
      whose department id is in neither the old dictionary nor the fetched
      list shows 'N/A'. */
  lemma DoctorDepartmentShown(m: map<string, string>, depts: seq<Department>, doc: Doctor)
    ensures forall k :: 0 <= k < |depts| && depts[k].id == doc.departmentId && depts[k].name != ""
                        && (forall j :: k < j < |depts| ==> depts[j].id != depts[k].id)
                        ==> DepartmentLabel(WithDepartmentNames(m, depts), doc) == depts[k].name
    ensures doc.departmentId !in m && (forall i :: 0 <= i < |depts| ==> depts[i].id != doc.departmentId)
            ==> DepartmentLabel(WithDepartmentNames(m, depts), doc) == "N/A"
  {
    forall k | 0 <= k < |depts| && depts[k].id == doc.departmentId && depts[k].name != ""
                        && (forall j :: k < j < |depts| ==> depts[j].id != depts[k].id)
      ensures DepartmentLabel(WithDepartmentNames(m, depts), doc) == depts[k].name
    {
      LastDuplicateWins(m, depts, k);
    }
    DepartmentNamesKeys(m, depts, doc.departmentId);
  }

  /** The search predicate: the lowercased query occurs in the lowercased
      name or specialization. */
  function MatchesQuery(q: string): Doctor -> bool
  {
    (doc: Doctor) => Contains(ToLower(doc.name), q) || Contains(ToLower(doc.specialization), q)
  }

  function InDepartment(departmentId: string): Doctor -> bool
  {
    (doc: Doctor) => doc.departmentId == departmentId
  }

  /** `filterDoctors`: the search box value lowercased (not trimmed) and,
      when non-empty, used as a substring filter; then the department
      dropdown value, when non-empty, as an exact filter. */
  function FilterDoctors(all: seq<Doctor>, searchInput: string, departmentFilter: string): seq<Doctor>
  {
    var q := ToLower(searchInput);
    var bySearch := if q != "" then Filter(all, MatchesQuery(q)) else all;
    if departmentFilter != "" then Filter(bySearch, InDepartment(departmentFilter)) else bySearch
  }

  /** The filtered list keeps the order of the loaded list. */
  lemma FilterDoctorsIsSubsequence(all: seq<Doctor>, searchInput: string, departmentFilter: string)
    ensures IsSubsequence(FilterDoctors(all, searchInput, departmentFilter), all)
  {
    var q := ToLower(searchInput);
    var bySearch := if q != "" then Filter(all, MatchesQuery(q)) else all;
    if q != "" {
      FilterIsSubsequence(all, MatchesQuery(q));
    } else {
      SubsequenceReflexive(all);
    }
    if departmentFilter != "" {
      FilterIsSubsequence(bySearch, InDepartment(departmentFilter));
      SubsequenceTransitive(Filter(bySearch, InDepartment(departmentFilter)), bySearch, all);
    }
  }

  /** With an empty search box and "All Departments" the list is shown as
      loaded. */
  lemma FilterDoctorsUnfiltered(all: seq<Doctor>)
    ensures FilterDoctors(all, "", "") == all
  {
    assert ToLower("") == "";
  }

  /** The search ignores the case of what is typed: lowercasing the input
      first shows the same list. */
  lemma SearchIgnoresCase(all: seq<Doctor>, searchInput: string, departmentFilter: string)
    ensures FilterDoctors(all, ToLower(searchInput), departmentFilter)
         == FilterDoctors(all, searchInput, departmentFilter)
  {
    ToLowerIdempotent(searchInput);
  }

  /** `q` occurs, in the sense of `OccursAt`, in `s`. */
  ghost predicate HasSubstring(s: string, q: string)
  {
    exists k :: OccursAt(s, q, k)
  }

  /** Exactly the loaded doctors that satisfy both filters are shown: those
      whose lowercased name or specialization contains the lowercased query
      (when there is one) and whose department is the selected one (when
      there is one). */
  lemma FilterDoctorsExactly(all: seq<Doctor>, searchInput: string, departmentFilter: string, doc: Doctor)
    ensures var q := ToLower(searchInput);
      doc in FilterDoctors(all, searchInput, departmentFilter) <==>
        && doc in all
        && (searchInput != "" ==> HasSubstring(ToLower(doc.name), q) || HasSubstring(ToLower(doc.specialization), q))
        && (departmentFilter != "" ==> doc.departmentId == departmentFilter)
  {
    var q := ToLower(searchInput);
    var bySearch := if q != "" then Filter(all, MatchesQuery(q)) else all;
    ContainsIffOccurs(ToLower(doc.name), q);
    ContainsIffOccurs(ToLower(doc.specialization), q);
    if q != "" {
      FilterSound(all, MatchesQuery(q));
      FilterComplete(all, MatchesQuery(q));
    }
    if departmentFilter != "" {
      FilterSound(bySearch, InDepartment(departmentFilter));
      FilterComplete(bySearch, InDepartment(departmentFilter));
    }
  }

  class DoctorsPage {
    /** The active doctors as last loaded. */
    var allDoctorsData: seq<Doctor>
    /** Department id to name, accumulated over every load. */
    var allDepartmentsData: map<string, string>

    constructor()
      ensures allDoctorsData == [] && allDepartmentsData == map[]
    {
      allDoctorsData := [];
      allDepartmentsData := map[];
    }

    /** `loadDoctors` with the two `fetchData` answers (`None` for `null`).
        The departments are merged into the dictionary one by one; the
        doctor list is replaced only when the fetch returned a non-empty
        list. */
    method LoadDoctors(depts: Option<seq<Department>>, docs: Option<seq<Doctor>>)
      modifies this
      ensures depts.Some? ==> allDepartmentsData == WithDepartmentNames(old(allDepartmentsData), depts.value)
      ensures depts.None? ==> allDepartmentsData == old(allDepartmentsData)
      ensures docs.None? || docs.value == [] ==> allDoctorsData == old(allDoctorsData)
      ensures docs.Some? && docs.value != [] ==> allDoctorsData == Filter(docs.value, IsActiveDoctor)
    {
      if depts.Some? {
        var ds := depts.value;
        var i := 0;
        while i < |ds|
          invariant 0 <= i <= |ds|
          invariant WithDepartmentNames(allDepartmentsData, ds[i..]) == WithDepartmentNames(old(allDepartmentsData), ds)
          invariant allDoctorsData == old(allDoctorsData)
        {
          assert ds[i..][1..] == ds[i + 1..];
          allDepartmentsData := allDepartmentsData[ds[i].id := ds[i].name];
          i := i + 1;
        }
      }
      if docs.None? || docs.value == [] {
        return;
      }
      allDoctorsData := Filter(docs.value, IsActiveDoctor);
    }
  }

  /** The loaded list is exactly the active fetched doctors, in fetch
      order. */
  lemma ActiveDoctorsLoaded(docs: seq<Doctor>)
    ensures IsSubsequence(Filter(docs, IsActiveDoctor), docs)
    ensures forall d :: d in Filter(docs, IsActiveDoctor) <==> d in docs && d.status == "active"
    ensures |Filter(docs, IsActiveDoctor)| == CountWhere(docs, IsActiveDoctor)
  {
    FilterIsSubsequence(docs, IsActiveDoctor);
    FilterSound(docs, IsActiveDoctor);
    FilterComplete(docs, IsActiveDoctor);
    FilterLength(docs, IsActiveDoctor);
  }
}
