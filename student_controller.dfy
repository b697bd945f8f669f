/**
 * StudentController: the student list of `index` (search, class and section filters, name order,
 * pagination) and the order of effects in `destroy`.
 */
module StudentController {
  import opened Wrappers
  import opened Text
  import opened Models
  import opened Schema

  // ---- index: filters

  /** Query-string parameters of `index`; a missing one is None. */
  datatype IndexQuery = IndexQuery(search: Option<string>, className: Option<string>, section: Option<string>,
                                   perPage: Option<nat>, page: Option<int>)

  /** PHP truthiness of a present string parameter: "" and "0" are false. */
  predicate Truthy(p: Option<string>)
  {
    p.Some? && p.value != "" && p.value != "0"
  }

  /** `name LIKE %term% OR student_id LIKE %term%`, compared without regard to ASCII letter case. */
  predicate MatchesSearch(st: Student, term: string)
  {
    Contains(Lower(st.name), Lower(term)) || Contains(Lower(st.studentId), Lower(term))
  }

  /** The search clause on its own. */
  function SearchFilter(students: seq<Student>, term: string): seq<Student>
  {
    Filter(students, (st: Student) => MatchesSearch(st, term))
  }

  /** The three conditional where-clauses, applied in the order the query builder adds them. */
  function SearchStep(students: seq<Student>, q: IndexQuery): seq<Student>
  {
    if Truthy(q.search) then SearchFilter(students, q.search.value) else students
  }

  function ClassStep(students: seq<Student>, q: IndexQuery): seq<Student>
  {
    if Truthy(q.className) then ByClass(students, q.className.value) else students
  }

  function SectionStep(students: seq<Student>, q: IndexQuery): seq<Student>
  {
    if Truthy(q.section) then BySection(students, q.section.value) else students
  }

  function Matches(students: seq<Student>, q: IndexQuery): seq<Student>
  {
    SectionStep(ClassStep(SearchStep(students, q), q), q)
  }

  /** A student passes every active filter; an inactive one imposes nothing. */
  predicate Selected(st: Student, q: IndexQuery)
  {
    && (Truthy(q.search) ==> MatchesSearch(st, q.search.value))
    && (Truthy(q.className) ==> st.className == q.className.value)
    && (Truthy(q.section) ==> st.section == q.section.value)
  }

  /** The filters keep exactly the selected students, each as often as it occurs in the table. */
  lemma MatchesExactly(students: seq<Student>, q: IndexQuery)
    ensures forall st :: st in Matches(students, q) <==> st in students && Selected(st, q)
    ensures forall st :: multiset(Matches(students, q))[st] == if Selected(st, q) then multiset(students)[st] else 0
  {
    var a := SearchStep(students, q);
    var b := ClassStep(a, q);
    forall st
      ensures multiset(Matches(students, q))[st] == if Selected(st, q) then multiset(students)[st] else 0
    {
      StepCounts(students, a, b, q, st);
    }
    forall st ensures st in Matches(students, q) <==> st in students && Selected(st, q) {
      StepCounts(students, a, b, q, st);
      assert st in Matches(students, q) <==> multiset(Matches(students, q))[st] > 0;
      assert st in students <==> multiset(students)[st] > 0;
    }
  }

  /** How often one student survives each of the three where-clauses. */
  lemma StepCounts(students: seq<Student>, a: seq<Student>, b: seq<Student>, q: IndexQuery, st: Student)
    requires a == SearchStep(students, q) && b == ClassStep(a, q)
    ensures multiset(a)[st] == if !Truthy(q.search) || MatchesSearch(st, q.search.value) then multiset(students)[st] else 0
    ensures multiset(b)[st] == if !Truthy(q.className) || st.className == q.className.value then multiset(a)[st] else 0
    ensures multiset(SectionStep(b, q))[st] == if !Truthy(q.section) || st.section == q.section.value then multiset(b)[st] else 0
  {
  }

  /** With no truthy search, class or section the list is the whole table. */
  lemma NoFiltersNoRestriction(students: seq<Student>, q: IndexQuery)
    requires !Truthy(q.search) && !Truthy(q.className) && !Truthy(q.section)
    ensures Matches(students, q) == students
  {
  }

  /** A search for "John" finds both "John Doe" and "Bob Johnson" by name. */
  lemma SearchByNameExample(a: Student, b: Student)
    requires a.name == "John Doe" && b.name == "Bob Johnson"
    ensures MatchesSearch(a, "John") && MatchesSearch(b, "John")
  {
    assert Lower("John") == "john";
    assert Lower(a.name)[0..4] == "john";
    assert OccursAt(Lower(a.name), "john", 0);
    assert Lower(b.name)[4..8] == "john";
    assert OccursAt(Lower(b.name), "john", 4);
  }

  // ---- index: order

  /** Ascending string order (`orderBy('name', 'asc')`), character by character. */
  predicate NameLe(a: string, b: string)
  {
    a == [] || (b != [] && (a[0] < b[0] || (a[0] == b[0] && NameLe(a[1..], b[1..]))))
  }

  lemma {:induction false} NameLeTotal(a: string, b: string)
    ensures NameLe(a, b) || NameLe(b, a)
  {
    if a != [] && b != [] && a[0] == b[0] {
      NameLeTotal(a[1..], b[1..]);
    }
  }

  predicate SortedByName(s: seq<Student>)
  {
    forall i :: 0 < i < |s| ==> NameLe(s[i - 1].name, s[i].name)
  }

  function InsertByName(x: Student, s: seq<Student>): (r: seq<Student>)
    requires SortedByName(s)
    ensures SortedByName(r)
    ensures multiset(r) == multiset(s) + multiset{x}
    ensures r[0] == x || (s != [] && r[0] == s[0])
  {
    if s == [] then [x]
    else if NameLe(x.name, s[0].name) then [x] + s
    else
      NameLeTotal(x.name, s[0].name);
      assert s == [s[0]] + s[1..];
      [s[0]] + InsertByName(x, s[1..])
  }

  /** The list in name order: sorted, and a permutation of the input. */
  function SortByName(s: seq<Student>): (r: seq<Student>)
    ensures SortedByName(r)
    ensures multiset(r) == multiset(s) && |r| == |s|
  {
    if s == [] then []
    else
      assert s == [s[0]] + s[1..];
      InsertByName(s[0], SortByName(s[1..]))
  }

  // ---- index: pagination

  const DefaultPerPage: nat := 15

  /** `per_page` defaults to 15; a zero falls back to the model's page size, also 15. */
  function PerPage(q: IndexQuery): (n: nat)
    ensures n >= 1
    ensures q.perPage.Some? && q.perPage.value >= 1 ==> n == q.perPage.value
    ensures q.perPage.None? || q.perPage.value == 0 ==> n == DefaultPerPage
  {
    if q.perPage.None? || q.perPage.value == 0 then DefaultPerPage else q.perPage.value
  }

  /** The requested page when it is an integer of at least 1, else page 1. */
  function CurrentPage(q: IndexQuery): (p: nat)
    ensures p >= 1
    ensures q.page.Some? && q.page.value >= 1 ==> p == q.page.value
    ensures q.page.None? || q.page.value < 1 ==> p == 1
  {
    if q.page.Some? && q.page.value >= 1 then q.page.value else 1
  }

  /** `lastPage`: ceil(total / perPage), at least 1. */
  function LastPage(total: nat, perPage: nat): (p: nat)
    requires perPage >= 1
    ensures p >= 1
    ensures (p - 1) * perPage < total || (total == 0 && p == 1)
    ensures total <= p * perPage
  {
    if total == 0 then 1 else (total + perPage - 1) / perPage
  }

  /** The number of items before page `page`. */
  function Skipped(page: nat, perPage: nat): nat
    requires page >= 1
  {
    (page - 1) * perPage
  }

  /** The items of one page: skip the earlier pages' items, take at most perPage. */
  function PageSlice(s: seq<Student>, page: nat, perPage: nat): (r: seq<Student>)
    requires page >= 1 && perPage >= 1
    ensures |r| <= perPage && (r != [] ==> Skipped(page, perPage) + |r| <= |s|)
    ensures forall j :: 0 <= j < |r| ==> Skipped(page, perPage) + j < |s| && r[j] == s[Skipped(page, perPage) + j]
    ensures Skipped(page, perPage) + perPage <= |s| ==> |r| == perPage
    ensures |r| == if Skipped(page, perPage) >= |s| then 0
                   else if |s| - Skipped(page, perPage) < perPage then |s| - Skipped(page, perPage)
                   else perPage
  {
    var from := if Skipped(page, perPage) < |s| then Skipped(page, perPage) else |s|;
    var to := if from + perPage < |s| then from + perPage else |s|;
    s[from..to]
  }

  /** A page of a list in name order is itself in name order. */
  lemma PageSliceSorted(s: seq<Student>, page: nat, perPage: nat)
    requires page >= 1 && perPage >= 1 && SortedByName(s)
    ensures SortedByName(PageSlice(s, page, perPage))
  {
    var r := PageSlice(s, page, perPage);
    var o := Skipped(page, perPage);
    forall i | 0 < i < |r|
      ensures NameLe(r[i - 1].name, r[i].name)
    {
      assert r[i - 1] == s[o + i - 1] && r[i] == s[o + i];
    }
  }

  lemma MulMonotone(a: nat, b: nat, c: nat)
    requires a <= b
    ensures a * c <= b * c
  {
  }

  /** If n is at least b whole pages, n / perPage is at least b. */
  lemma DivAtLeast(n: nat, b: nat, perPage: nat)
    requires perPage >= 1 && b * perPage <= n
    ensures b <= n / perPage
  {
    if n / perPage < b {
      MulMonotone(n / perPage + 1, b, perPage);
    }
  }

  /** Every matching student is on exactly the page its position says, so paging loses nobody. */
  lemma EveryItemOnItsPage(s: seq<Student>, perPage: nat, i: nat)
    requires perPage >= 1 && i < |s|
    ensures var page := i / perPage + 1;
      Skipped(page, perPage) + i % perPage == i
      && i % perPage < |PageSlice(s, page, perPage)| && PageSlice(s, page, perPage)[i % perPage] == s[i]
      && page <= LastPage(|s|, perPage)
  {
    var page, r := i / perPage + 1, i % perPage;
    PageOfPosition(i, perPage, |s|);
    assert r < |PageSlice(s, page, perPage)|;
  }

  datatype Meta = Meta(currentPage: nat, lastPage: nat, perPage: nat, total: nat)

  datatype IndexResponse = IndexResponse(data: seq<Student>, meta: Meta)

  /**
   * r's data is the page of `ordered` that r's meta names: the items from position
   * (currentPage - 1) * perPage on, as many as fit on a page.
   */
  predicate ListsPage(r: IndexResponse, ordered: seq<Student>)
  {
    && r.meta.currentPage >= 1 && r.meta.total == |ordered|
    && var skipped := Skipped(r.meta.currentPage, r.meta.perPage);
    && |r.data| == (if skipped >= |ordered| then 0
                    else if |ordered| - skipped < r.meta.perPage then |ordered| - skipped
                    else r.meta.perPage)
    && forall j :: 0 <= j < |r.data| ==> skipped + j < |ordered| && r.data[j] == ordered[skipped + j]
  }

  /** The response of `index` for a table and a query. */
  function IndexOf(students: seq<Student>, q: IndexQuery): (r: IndexResponse)
    ensures r.meta.total == |Matches(students, q)|
    ensures r.meta.perPage == PerPage(q) && r.meta.currentPage == CurrentPage(q)
    ensures r.meta.lastPage == LastPage(r.meta.total, r.meta.perPage)
    ensures ListsPage(r, SortByName(Matches(students, q)))
    ensures SortedByName(r.data)
  {
    var ordered := SortByName(Matches(students, q));
    var page, perPage := CurrentPage(q), PerPage(q);
    var slice := PageSlice(ordered, page, perPage);
    PageSliceSorted(ordered, page, perPage);
    IndexResponse(slice, Meta(page, LastPage(|ordered|, perPage), perPage, |ordered|))
  }

  /**
   * Paging loses nobody: a request for page k / perPage + 1 lists the k-th matching student in
   * name order at position k % perPage, and that page is within lastPage.
   */
  lemma IndexListsEveryMatch(students: seq<Student>, q: IndexQuery, k: nat)
    requires k < |Matches(students, q)| && q.page == Some(k / PerPage(q) + 1)
    ensures var r := IndexOf(students, q);
      r.meta.currentPage <= r.meta.lastPage && k % PerPage(q) < |r.data|
      && r.data[k % PerPage(q)] == SortByName(Matches(students, q))[k]
  {
    PageOfPosition(k, PerPage(q), |Matches(students, q)|);
    PageEntry(IndexOf(students, q), SortByName(Matches(students, q)), k);
  }

  /** On the page of position k, the k-th item sits at k % perPage, and that page is not past the last. */
  lemma PageEntry(r: IndexResponse, ordered: seq<Student>, k: nat)
    requires ListsPage(r, ordered) && r.meta.perPage >= 1
    requires k < |ordered| && r.meta.currentPage == k / r.meta.perPage + 1
    ensures r.meta.currentPage <= LastPage(|ordered|, r.meta.perPage)
    ensures k % r.meta.perPage < |r.data| && r.data[k % r.meta.perPage] == ordered[k]
  {
    var perPage, x := r.meta.perPage, k % r.meta.perPage;
    PageOfPosition(k, perPage, |ordered|);
    WithinPage(Skipped(r.meta.currentPage, perPage), x, perPage, |ordered|, |r.data|);
  }

  /** An offset below both the page size and the remaining items falls within the page. */
  lemma WithinPage(skipped: nat, x: nat, perPage: nat, total: nat, length: nat)
    requires skipped + x < total && x < perPage
    requires length == if skipped >= total then 0 else if total - skipped < perPage then total - skipped else perPage
    ensures x < length
  { }

  /** Position k lies on page k / perPage + 1, at offset k % perPage, within the last page. */
  lemma PageOfPosition(k: nat, perPage: nat, total: nat)
    requires perPage >= 1 && k < total
    ensures k / perPage >= 0
    ensures Skipped(k / perPage + 1, perPage) + k % perPage == k && k % perPage < perPage
    ensures k / perPage + 1 <= LastPage(total, perPage)
  {
    var q, r := k / perPage, k % perPage;
    assert k == q * perPage + r;
    assert (q + 1) * perPage == q * perPage + perPage;
    DivAtLeast(total + perPage - 1, q + 1, perPage);
  }

  /** Every student on the page is in the table and passes every active filter. */
  lemma IndexDataSelected(students: seq<Student>, q: IndexQuery, st: Student)
    requires st in IndexOf(students, q).data
    ensures st in students && Selected(st, q)
  {
    var ordered := SortByName(Matches(students, q));
    var data := IndexOf(students, q).data;
    var j :| 0 <= j < |data| && data[j] == st;
    assert st in ordered;
    assert multiset(ordered)[st] > 0;
    MatchesExactly(students, q);
  }

  /** `index`: narrow the query step by step, order by name, and cut out the requested page. */
  method Index(students: seq<Student>, q: IndexQuery) returns (response: IndexResponse)
    ensures response == IndexOf(students, q)
  {
    var matched := students;
    if Truthy(q.search) {
      matched := SearchFilter(matched, q.search.value);
    }
    if Truthy(q.className) {
      matched := ByClass(matched, q.className.value);
    }
    if Truthy(q.section) {
      matched := BySection(matched, q.section.value);
    }
    var perPage := PerPage(q);
    var page := CurrentPage(q);
    var ordered := SortByName(matched);
    response := IndexResponse(PageSlice(ordered, page, perPage),
                              Meta(page, LastPage(|ordered|, perPage), perPage, |ordered|));
  }

  // ---- destroy

  /** The side effects of `destroy`, in the order they happen. */
  datatype Effect = DeletePhotoFile(path: string) | DeleteStudentRow(id: int)

  datatype DestroyStep = PhotoStep | RowStep

  datatype DestroyResponse = Deleted | DestroyFailed | NotFound

  /**
   * `destroy`: an unknown id never reaches the action (404). Otherwise the stored photo is deleted
   * first, only when the attribute is truthy, then the row, whose attendance rows cascade. An
   * exception from either step answers 500 and leaves the rows in place.
   */
  method Destroy(db: Database, id: int, failing: Option<DestroyStep>) returns (response: DestroyResponse, effects: seq<Effect>)
    requires db.Valid()
    modifies db`students, db`attendances
    ensures db.Valid()
    ensures id !in old(StudentIds(db.students)) ==>
      response == NotFound && effects == [] && db.students == old(db.students) && db.attendances == old(db.attendances)
    ensures id in old(StudentIds(db.students)) ==>
      var st := StudentWithId(old(db.students), id);
      var photoEffects := if Truthy(st.photo) then [DeletePhotoFile(st.photo.value)] else [];
      if failing == Some(PhotoStep) && Truthy(st.photo) then
        response == DestroyFailed && effects == [] && db.students == old(db.students)
        && db.attendances == old(db.attendances)
      else if failing == Some(RowStep) then
        response == DestroyFailed && effects == photoEffects && db.students == old(db.students)
        && db.attendances == old(db.attendances)
      else
        response == Deleted && effects == photoEffects + [DeleteStudentRow(id)]
        && db.students == RemoveStudent(old(db.students), id)
        && db.attendances == WithoutStudent(old(db.attendances), id)
  {
    if id !in StudentIds(db.students) {
      return NotFound, [];
    }
    var st := StudentWithId(db.students, id);
    effects := [];
    if Truthy(st.photo) {
      if failing == Some(PhotoStep) {
        return DestroyFailed, effects;
      }
      effects := effects + [DeletePhotoFile(st.photo.value)];
    }
    if failing == Some(RowStep) {
      return DestroyFailed, effects;
    }
    db.DeleteStudent(id);
    effects := effects + [DeleteStudentRow(id)];
    response := Deleted;
  }

  /** The student row bound to the route parameter. */
  function StudentWithId(students: seq<Student>, id: int): (st: Student)
    requires id in StudentIds(students)
    ensures st in students && st.id == id
  {
    if students[0].id == id then students[0]
    else
      assert id in StudentIds(students[1..]) by {
        var i :| 0 <= i < |students| && students[i].id == id;
        assert students[1..][i - 1] == students[i];
      }
      StudentWithId(students[1..], id)
  }

  /** The photo is never removed after the row: a deleted student's photo deletion, if any, came first. */
  lemma PhotoBeforeRow(effects: seq<Effect>, st: Student)
    requires effects == (if Truthy(st.photo) then [DeletePhotoFile(st.photo.value)] else []) + [DeleteStudentRow(st.id)]
    ensures effects[|effects| - 1] == DeleteStudentRow(st.id)
    ensures forall i :: 0 <= i < |effects| - 1 ==> effects[i].DeletePhotoFile?
    ensures (exists i :: 0 <= i < |effects| && effects[i].DeletePhotoFile?) <==> Truthy(st.photo)
  {
    if Truthy(st.photo) {
      assert effects[0].DeletePhotoFile?;
    }
  }
}
