/** The student service over the `students` table: lookup, paged search, create, update, delete,
    CSV export and CSV import. The table is a map from generated id to row plus the counter that
    generates ids; `findAll` returns the rows in ascending id order. */
module StudentService {
  import opened Wrappers
  import opened Levels
  import opened Entities
  import opened Dtos
  import opened Mapper
  import opened Tables
  import opened Paging
  import opened Search
  import opened Csv

  /** The exceptions the service lets escape: `ResourceNotFoundException`, a violated column
      constraint of the table (unique or not-null username, not-null level), and a failed import. */
  datatype ServiceError = NotFound(id: int) | ConstraintViolation | ImportFailed(cause: ImportError)

  /** No two rows share a username (`unique = true`). */
  ghost predicate UniqueUsernames<L>(m: map<int, Student<L>>)
  {
    forall a, b :: a in m && b in m && a != b ==> m[a].username != m[b].username
  }

  /** The table invariant: ids are the generated keys below the counter, each row knows its own id,
      the not-null columns are set, and usernames are unique. */
  ghost predicate StoreInvariant<L>(m: map<int, Student<L>>, nextId: int)
  {
    && nextId >= 1
    && (forall k :: k in m ==> 1 <= k < nextId && m[k].id == Some(k) && Persistable(m[k]))
    && UniqueUsernames(m)
  }

  /** Some row has username `u`. */
  predicate UsernameTaken<L>(m: map<int, Student<L>>, u: string)
  {
    exists k :: k in m && m[k].username == Some(u)
  }

  /** Some row other than row `id` has username `u`. */
  predicate TakenByOther<L>(m: map<int, Student<L>>, id: int, u: string)
  {
    exists k :: k in m && k != id && m[k].username == Some(u)
  }

  /** On a table satisfying the invariant, each row of the ascending listing is the row stored
      under its own id, and the ids increase along the listing. */
  lemma AscendingIds<L>(m: map<int, Student<L>>, nextId: int)
    requires StoreInvariant(m, nextId)
    ensures var xs := Ascending(m, nextId);
      && (forall i :: 0 <= i < |xs| ==> xs[i].id.Some? && xs[i].id.value in m && m[xs[i].id.value] == xs[i])
      && (forall i, j :: 0 <= i < j < |xs| ==> xs[i].id.value < xs[j].id.value)
  {
    KeysBelowSpec(m, nextId);
    var ks := KeysBelow(m, nextId);
    assert forall i :: 0 <= i < |ks| ==> ks[i] in ks;
  }

  /** On a table satisfying the invariant, the rows in ascending id order are every row exactly
      once, each complete, with pairwise distinct usernames. */
  lemma AscendingRows<L>(m: map<int, Student<L>>, nextId: int)
    ensures StoreInvariant(m, nextId) ==>
      && |Ascending(m, nextId)| == |m|
      && (forall x :: x in Ascending(m, nextId) <==> exists k :: k in m && m[k] == x)
      && (forall i :: 0 <= i < |Ascending(m, nextId)| ==>
            Ascending(m, nextId)[i].id.Some? && Ascending(m, nextId)[i].id.value in m &&
            m[Ascending(m, nextId)[i].id.value] == Ascending(m, nextId)[i])
      && (forall i, j :: 0 <= i < j < |Ascending(m, nextId)| ==>
            Ascending(m, nextId)[i].id.value < Ascending(m, nextId)[j].id.value)
      && (forall i :: 0 <= i < |Ascending(m, nextId)| ==> Complete(Ascending(m, nextId)[i]))
      && (forall i, j :: 0 <= i < j < |Ascending(m, nextId)| ==>
            Ascending(m, nextId)[i].username != Ascending(m, nextId)[j].username)
  {
    if StoreInvariant(m, nextId) {
      AscendingSpec(m, nextId);
      AscendingIds(m, nextId);
      var xs := Ascending(m, nextId);
      forall i, j | 0 <= i < j < |xs|
        ensures xs[i].username != xs[j].username
      {
        assert xs[i].id.value != xs[j].id.value;
      }
    }
  }

  /** `findAll()`: on a table satisfying the invariant, every row exactly once, in ascending id
      order, each complete, with pairwise distinct usernames. */
  function Listing<L>(m: map<int, Student<L>>, nextId: int): (r: seq<Student<L>>)
    ensures StoreInvariant(m, nextId) ==>
      && |r| == |m|
      && (forall k :: k in m ==> m[k] in r)
      && (forall i :: 0 <= i < |r| ==> r[i].id.Some? && r[i].id.value in m && m[r[i].id.value] == r[i])
      && (forall i, j :: 0 <= i < j < |r| ==> r[i].id.value < r[j].id.value)
      && (forall i :: 0 <= i < |r| ==> Complete(r[i]))
      && (forall i, j :: 0 <= i < j < |r| ==> r[i].username != r[j].username)
  {
    AscendingRows(m, nextId);
    Ascending(m, nextId)
  }

  /** Every DTO in `c` is a stored match of `f`. */
  ghost predicate StoredMatches<L>(m: map<int, Student<L>>, f: Filter<L>, c: seq<StudentDto<L>>)
  {
    forall i :: 0 <= i < |c| ==> StoredMatch(m, f, c[i])
  }

  /** `d` is the DTO of a stored row that filter `f` admits. */
  ghost predicate StoredMatch<L>(m: map<int, Student<L>>, f: Filter<L>, d: StudentDto<L>)
  {
    exists k :: k in m && d == ToDto(m[k]) && Admits(f, m[k])
  }

  /** Every stored row that `f` admits has its DTO in `c`. */
  ghost predicate HoldsAllMatches<L>(m: map<int, Student<L>>, f: Filter<L>, c: seq<StudentDto<L>>)
  {
    forall k :: k in m && Admits(f, m[k]) ==> ToDto(m[k]) in c
  }

  /** `c` is the DTOs of `ms[lo..hi]`, in order. */
  ghost predicate DtosOfSlice<L>(c: seq<StudentDto<L>>, ms: seq<Student<L>>, lo: int, hi: int)
  {
    0 <= lo <= hi <= |ms| && |c| == hi - lo && forall i :: 0 <= i < |c| ==> c[i] == ToDto(ms[lo + i])
  }

  /** The rows a search with filter `f` matches, in store order. */
  function SearchMatches<L(==)>(m: map<int, Student<L>>, nextId: int, f: Filter<L>): seq<Student<L>>
  {
    Select(f, Listing(m, nextId))
  }

  /** The page `p` of the matches of `f`, mapped to DTOs. */
  function SearchPage<L(==)>(m: map<int, Student<L>>, nextId: int, f: Filter<L>, p: Pageable): Page<StudentDto<L>>
  {
    MapPage(PageOf(SearchMatches(m, nextId, f), p), ToDto)
  }

  /** What a search page is: its total counts the matches, its entries are DTOs of stored matches,
      an unpaged result holds all of them, and a page request gets its slice of the matches. */
  lemma SearchPageSpec<L>(m: map<int, Student<L>>, nextId: int, f: Filter<L>, p: Pageable)
    requires StoreInvariant(m, nextId)
    ensures var pg, ms := SearchPage(m, nextId, f, p), SearchMatches(m, nextId, f);
      && pg.total == |ms| <= |m|
      && pg.pageable == p
      && (p.PageRequest? ==> |pg.content| <= p.size)
      && (f.MatchAll? ==> pg.total == |m|)
      && StoredMatches(m, f, pg.content)
      && (p.Unpaged? ==> |pg.content| == pg.total && HoldsAllMatches(m, f, pg.content))
      && (p.PageRequest? ==> var o := p.page * p.size;
            DtosOfSlice(pg.content, ms, Min(o, |ms|), Min(o + p.size, |ms|)))
  {
    PageHoldsStoredMatches(m, nextId, f, p);
    match p
    case Unpaged => UnpagedHoldsAllMatches(m, nextId, f);
    case PageRequest(page, size) => PagedSliceOfMatches(m, nextId, f, page, size);
  }

  /** Every entry of a page of search results is the DTO of a stored row that the filter admits;
      an unpaged result holds all of them, and a page request gets its slice of the matches. */
  lemma PageHoldsStoredMatches<L>(m: map<int, Student<L>>, nextId: int, f: Filter<L>, p: Pageable)
    requires StoreInvariant(m, nextId)
    ensures var pg := SearchPage(m, nextId, f, p);
      && pg.total == |SearchMatches(m, nextId, f)| <= |m|
      && pg.pageable == p
      && (p.PageRequest? ==> |pg.content| <= p.size)
      && (f.MatchAll? ==> pg.total == |m|)
      && StoredMatches(m, f, pg.content)
  {
    var xs := Listing(m, nextId);
    AscendingRows(m, nextId);
    SelectMembers(f, xs);
    if f.MatchAll? {
      SelectKeepsAll(f, xs);
    }
    var pg := PageOf(Select(f, xs), p);
    var c := MapPage(pg, ToDto).content;
    forall i | 0 <= i < |c| ensures StoredMatch(m, f, c[i]) {
      assert pg.content[i] in Select(f, xs);
      assert pg.content[i] in xs && Admits(f, pg.content[i]);
      var k :| k in m && m[k] == pg.content[i];
      assert c[i] == ToDto(m[k]);
    }
    assert StoredMatches(m, f, c);
  }

  /** The unpaged search result holds the DTO of every stored row the filter admits. */
  lemma UnpagedHoldsAllMatches<L>(m: map<int, Student<L>>, nextId: int, f: Filter<L>)
    requires StoreInvariant(m, nextId)
    ensures var pg := SearchPage(m, nextId, f, Unpaged);
      |pg.content| == pg.total && HoldsAllMatches(m, f, pg.content)
  {
    var ms := Select(f, Listing(m, nextId));
    var c := MapPage(PageOf(ms, Unpaged), ToDto).content;
    SelectMembers(f, Listing(m, nextId));
    forall k | k in m && Admits(f, m[k]) ensures ToDto(m[k]) in c {
      assert m[k] in ms;
      var j :| 0 <= j < |ms| && ms[j] == m[k];
      assert c[j] == ToDto(m[k]);
    }
  }

  /** A page request gets the DTOs of its slice of the ordered matches. */
  lemma PagedSliceOfMatches<L>(m: map<int, Student<L>>, nextId: int, f: Filter<L>, page: nat, size: PageSize)
    ensures var c, ms, o := SearchPage(m, nextId, f, PageRequest(page, size)).content, SearchMatches(m, nextId, f), page * size;
      DtosOfSlice(c, ms, Min(o, |ms|), Min(o + size, |ms|))
  {
    PageIsSlice(SearchMatches(m, nextId, f), page, size);
  }

  /** `saveAll` would go through: every entity satisfies the not-null columns, no username is
      already stored, and no two entities share one. */
  predicate CanSaveAll<L>(m: map<int, Student<L>>, batch: seq<Student<L>>)
  {
    && (forall i :: 0 <= i < |batch| ==> Persistable(batch[i]) && !UsernameTaken(m, batch[i].username.value))
    && (forall i, j :: 0 <= i < j < |batch| ==> batch[i].username != batch[j].username)
  }

  /** The table after `saveAll(batch)`: entity `j` is inserted under the generated id `next + j`. */
  function Appended<L>(m: map<int, Student<L>>, next: int, batch: seq<Student<L>>): map<int, Student<L>>
  {
    m + map k | next <= k < next + |batch| :: batch[k - next].(id := Some(k))
  }

  /** A successful `saveAll` keeps the table invariant. */
  lemma AppendedKeepsInvariant<L>(m: map<int, Student<L>>, next: int, batch: seq<Student<L>>)
    requires StoreInvariant(m, next) && CanSaveAll(m, batch)
    ensures StoreInvariant(Appended(m, next, batch), next + |batch|)
    ensures forall k :: k in m ==> k in Appended(m, next, batch) && Appended(m, next, batch)[k] == m[k]
  {
    var m' := Appended(m, next, batch);
    forall a, b | a in m' && b in m' && a != b
      ensures m'[a].username != m'[b].username
    {
      if a !in m {
        if b !in m {
          if a < b { assert batch[a - next].username != batch[b - next].username; }
          else { assert batch[b - next].username != batch[a - next].username; }
        } else {
          assert !UsernameTaken(m, batch[a - next].username.value);
        }
      } else if b !in m {
        assert !UsernameTaken(m, batch[b - next].username.value);
      }
    }
  }

  /** The (username, level) pairs stored in a table. */
  ghost function Pairs<L>(m: map<int, Student<L>>): set<(Option<string>, Option<L>)>
  {
    set k | k in m :: (m[k].username, m[k].level)
  }

  /** The students read back from an export of a valid table can all be saved into an empty one. */
  lemma ListingBatchSavable<L>(m: map<int, Student<L>>, nextId: int)
    requires StoreInvariant(m, nextId)
    ensures CanSaveAll(map[], WithoutIds(Listing(m, nextId)))
  {
    var xs := Listing(m, nextId);
    var batch := WithoutIds(xs);
    forall i, j | 0 <= i < j < |batch| ensures batch[i].username != batch[j].username {
      assert xs[i].username != xs[j].username;
    }
  }

  /** Saving those students into an empty table stores exactly the pairs of the original table. */
  lemma ListingBatchPairs<L>(m: map<int, Student<L>>, nextId: int)
    requires StoreInvariant(m, nextId)
    ensures Pairs(Appended(map[], 1, WithoutIds(Listing(m, nextId)))) == Pairs(m)
  {
    BatchPairsStored(m, nextId);
    StoredPairsInBatch(m, nextId);
  }

  lemma BatchPairsStored<L>(m: map<int, Student<L>>, nextId: int)
    requires StoreInvariant(m, nextId)
    ensures Pairs(Appended(map[], 1, WithoutIds(Listing(m, nextId)))) <= Pairs(m)
  {
    var xs := Listing(m, nextId);
    var batch := WithoutIds(xs);
    var m' := Appended(map[], 1, batch);
    forall p | p in Pairs(m') ensures p in Pairs(m) {
      var k :| k in m' && p == (m'[k].username, m'[k].level);
      assert m'[k] == batch[k - 1].(id := Some(k));
      var k0 := xs[k - 1].id.value;
      assert p == (m[k0].username, m[k0].level);
    }
  }

  lemma StoredPairsInBatch<L>(m: map<int, Student<L>>, nextId: int)
    requires StoreInvariant(m, nextId)
    ensures Pairs(m) <= Pairs(Appended(map[], 1, WithoutIds(Listing(m, nextId))))
  {
    var xs := Listing(m, nextId);
    forall p | p in Pairs(m) ensures p in Pairs(Appended(map[], 1, WithoutIds(xs))) {
      var k :| k in m && p == (m[k].username, m[k].level);
      assert m[k] in xs;
      var j :| 0 <= j < |xs| && xs[j] == m[k];
      AppendedPair(WithoutIds(xs), j);
    }
  }

  /** Entity `j` of a batch saved into an empty table shows up with its username and level. */
  lemma AppendedPair<L>(batch: seq<Student<L>>, j: int)
    requires 0 <= j < |batch|
    ensures (batch[j].username, batch[j].level) in Pairs(Appended(map[], 1, batch))
  {
    var m' := Appended(map[], 1, batch);
    assert 1 + j in m' && m'[1 + j] == batch[j].(id := Some(1 + j));
  }

  /** Round trip through CSV: exporting a table and importing the file into an empty table
      succeeds and stores the same (username, level) pairs, one row for each exported row. */
  lemma ExportThenImportIntoEmptyStore<L(!new)>(m: map<int, Student<L>>, nextId: int,
                                                 name: L -> string, valueOf: string -> Option<L>)
    requires StoreInvariant(m, nextId) && IsEnum(name, valueOf)
    ensures ParseRows(ExportRows(Listing(m, nextId), name), valueOf).Ok?
    ensures var batch := ParseRows(ExportRows(Listing(m, nextId), name), valueOf).value;
      && |batch| == |m|
      && CanSaveAll(map[], batch)
      && StoreInvariant(Appended(map[], 1, batch), 1 + |batch|)
      && Pairs(Appended(map[], 1, batch)) == Pairs(m)
  {
    ExportThenImport(Listing(m, nextId), name, valueOf);
    ListingBatchSavable(m, nextId);
    ListingBatchPairs(m, nextId);
    AppendedKeepsInvariant(map[], 1, WithoutIds(Listing(m, nextId)));
  }

  /** The first row at index `i` of the file that fails to parse decides the import's error. */
  lemma FirstBadRow<L>(rows: seq<Row>, i: int, valueOf: string -> Option<L>, batch: seq<Student<L>>)
    requires 1 <= i < |rows|
    requires ParseBody(rows[1..i], valueOf) == Ok(batch)
    requires ParseRow(rows[i], valueOf).Err?
    ensures ParseRows(rows, valueOf) == Err(ParseRow(rows[i], valueOf).error)
  {
    assert rows[1..i + 1][..i - 1] == rows[1..i];
    ErrorPersists(rows[1..i + 1], rows[i + 1..], valueOf);
    assert rows[1..i + 1] + rows[i + 1..] == rows[1..];
  }

  class StudentStore<L(==)> {
    var students: map<int, Student<L>>
    var nextId: int

    ghost predicate Valid()
      reads this
    {
      StoreInvariant(students, nextId)
    }

    /** An empty table whose first generated id is 1. */
    constructor ()
      ensures Valid() && students == map[] && nextId == 1
    {
      students := map[];
      nextId := 1;
    }

    /** `getStudentById`: the stored row as a DTO, or `ResourceNotFoundException`. */
    function GetStudentById(id: int): (r: Result<StudentDto<L>, ServiceError>)
      reads this
      requires Valid()
      ensures r.Ok? <==> id in students
      ensures r.Err? ==> r.error == NotFound(id)
      ensures r.Ok? ==> && r.value.id == Some(id)
                        && r.value.username == students[id].username && r.value.username.Some?
                        && r.value.level == students[id].level && r.value.level.Some?
    {
      if id in students then Ok(ToDto(students[id])) else Err(NotFound(id))
    }

    /** `getAllStudents`: resolve the criteria, run the query over the rows in store order,
        cut out the requested page and map it to DTOs. */
    function GetAllStudents(term: Option<string>, level: Option<L>, pageable: Pageable): (r: Page<StudentDto<L>>)
      reads this
      requires Valid()
      ensures var ms := SearchMatches(students, nextId, Resolve(term, level));
        && r.total == |ms| <= |students|
        && r.pageable == pageable
        && (pageable.PageRequest? ==> |r.content| <= pageable.size)
        && (!Present(term) && level.None? ==> r.total == |students|)
        && StoredMatches(students, Resolve(term, level), r.content)
        && (pageable.Unpaged? ==> |r.content| == r.total && HoldsAllMatches(students, Resolve(term, level), r.content))
        && (pageable.PageRequest? ==> var o := pageable.page * pageable.size;
              DtosOfSlice(r.content, ms, Min(o, |ms|), Min(o + pageable.size, |ms|)))
    {
      SearchPageSpec(students, nextId, Resolve(term, level), pageable);
      SearchPage(students, nextId, Resolve(term, level), pageable)
    }

    /** `studentRepository.save`: a new entity (no id) is inserted under the next generated id; an
        entity with an id overwrites its row. A violated column constraint fails the save and
        leaves the table as it was. */
    method Save(entity: Student<L>) returns (r: Result<Student<L>, ServiceError>)
      requires Valid()
      requires entity.id.Some? ==> entity.id.value in students
      modifies this
      ensures Valid()
      ensures var id := if entity.id.Some? then entity.id.value else old(nextId);
        && (r.Err? <==> !Persistable(entity) || TakenByOther(old(students), id, entity.username.value))
        && (r.Err? ==> r.error == ConstraintViolation && students == old(students) && nextId == old(nextId))
        && (r.Ok? ==> && r.value == entity.(id := Some(id))
                      && students == old(students)[id := r.value]
                      && nextId == if entity.id.Some? then old(nextId) else old(nextId) + 1)
    {
      var id := if entity.id.Some? then entity.id.value else nextId;
      if !Persistable(entity) || TakenByOther(students, id, entity.username.value) {
        return Err(ConstraintViolation);
      }
      var saved := entity.(id := Some(id));
      students := students[id := saved];
      if entity.id.None? {
        nextId := nextId + 1;
      }
      r := Ok(saved);
    }

    /** `createStudent`: map the request to an entity and save it. A missing username or level, or a
        username already stored, violates the table constraints and changes nothing; otherwise
        exactly one row is added, under a fresh id, and can be read back. */
    method CreateStudent(dto: StudentCreateUpdateDto<L>) returns (r: Result<StudentDto<L>, ServiceError>)
      requires Valid()
      modifies this
      ensures Valid()
      ensures r.Err? <==> dto.username.None? || dto.level.None? || UsernameTaken(old(students), dto.username.value)
      ensures ValidCreateUpdate(dto) ==> (r.Err? <==> UsernameTaken(old(students), dto.username.value))
      ensures r.Err? ==> r.error == ConstraintViolation && students == old(students) && nextId == old(nextId)
      ensures r.Ok? ==>
        && old(nextId) !in old(students)
        && r.value == StudentDto(Some(old(nextId)), dto.username, dto.level)
        && students == old(students)[old(nextId) := Student(Some(old(nextId)), dto.username, dto.level)]
        && |students| == |old(students)| + 1
        && nextId == old(nextId) + 1
        && GetStudentById(old(nextId)) == Ok(r.value)
    {
      var entity := ToEntity(dto);
      var saved := Save(entity);
      if saved.Err? {
        return Err(saved.error);
      }
      r := Ok(ToDto(saved.value));
    }

    /** `updateStudent`: an absent id throws `ResourceNotFoundException` and changes nothing; else the
        row's username and level are overwritten from the request, its id kept, and it is saved.
        Taking another row's username, or a missing field, fails and changes nothing. */
    method UpdateStudent(id: int, dto: StudentCreateUpdateDto<L>) returns (r: Result<StudentDto<L>, ServiceError>)
      requires Valid()
      modifies this
      ensures Valid()
      ensures nextId == old(nextId)
      ensures id !in old(students) ==> r == Err(NotFound(id)) && students == old(students)
      ensures id in old(students) ==>
        && (r.Err? <==> dto.username.None? || dto.level.None? || TakenByOther(old(students), id, dto.username.value))
        && (ValidCreateUpdate(dto) ==> (r.Err? <==> TakenByOther(old(students), id, dto.username.value)))
        && (r.Err? ==> r.error == ConstraintViolation && students == old(students))
        && (r.Ok? ==> && r.value == StudentDto(Some(id), dto.username, dto.level)
                      && students == old(students)[id := Student(Some(id), dto.username, dto.level)]
                      && |students| == |old(students)|)
    {
      if id !in students {
        return Err(NotFound(id));
      }
      var student := students[id];
      student := UpdateFromDto(dto, student);
      var saved := Save(student);
      if saved.Err? {
        return Err(saved.error);
      }
      r := Ok(ToDto(saved.value));
    }

    /** `deleteStudent`: an absent id throws `ResourceNotFoundException` and changes nothing; a
        present one removes exactly that row. */
    method DeleteStudent(id: int) returns (r: Outcome<ServiceError>)
      requires Valid()
      modifies this
      ensures Valid()
      ensures nextId == old(nextId)
      ensures id !in old(students) ==> r == Fail(NotFound(id)) && students == old(students)
      ensures id in old(students) ==> r == Pass && students == old(students) - {id} && |students| == |old(students)| - 1
    {
      if id !in students {
        return Fail(NotFound(id));
      }
      students := students - {id};
      r := Pass;
    }

    /** `exportStudents`: the header row, then one row per stored record in store order. */
    method ExportStudents(name: L -> string) returns (rows: seq<Row>)
      requires Valid()
      ensures |rows| == |students| + 1
      ensures rows == ExportRows(Listing(students, nextId), name)
    {
      var all := Listing(students, nextId);
      rows := [Header];
      var i := 0;
      while i < |all|
        invariant 0 <= i <= |all|
        invariant rows == [Header] + ExportBody(all[..i], name)
      {
        assert all[..i + 1][..i] == all[..i];
        rows := rows + [ExportRow(all[i], name)];
        i := i + 1;
      }
      assert all[..i] == all;
      ExportShape(all, name);
    }

    /** `saveAll` of new entities (no ids), in one transaction: either every entity is inserted,
        under consecutive fresh ids in list order, or a constraint fails and nothing is written. */
    method SaveAll(batch: seq<Student<L>>) returns (r: Outcome<ServiceError>)
      requires Valid()
      requires forall i :: 0 <= i < |batch| ==> batch[i].id.None?
      modifies this
      ensures Valid()
      ensures r.Pass? <==> CanSaveAll(old(students), batch)
      ensures r.Pass? ==> students == Appended(old(students), old(nextId), batch) && nextId == old(nextId) + |batch|
      ensures r.Fail? ==> r.error == ConstraintViolation && students == old(students) && nextId == old(nextId)
    {
      if !CanSaveAll(students, batch) {
        return Fail(ConstraintViolation);
      }
      AppendedKeepsInvariant(students, nextId, batch);
      students := Appended(students, nextId, batch);
      nextId := nextId + |batch|;
      r := Pass;
    }

    /** `importStudents`: skip the first row, build one entity per later row, then save them all
        at once. A short row or an unknown level aborts before anything is written; an empty file
        writes nothing; the new rows are appended to the existing ones. */
    method ImportStudents(rows: seq<Row>, valueOf: string -> Option<L>) returns (r: Outcome<ServiceError>)
      requires Valid()
      modifies this
      ensures Valid()
      ensures ParseRows(rows, valueOf).Err? ==>
        r == Fail(ImportFailed(ParseRows(rows, valueOf).error)) && students == old(students) && nextId == old(nextId)
      ensures ParseRows(rows, valueOf).Ok? ==>
        var batch := ParseRows(rows, valueOf).value;
        && (r.Pass? <==> CanSaveAll(old(students), batch))
        && (r.Pass? ==> students == Appended(old(students), old(nextId), batch) && nextId == old(nextId) + |batch|)
        && (r.Fail? ==> r.error == ConstraintViolation && students == old(students) && nextId == old(nextId))
    {
      var batch: seq<Student<L>> := [];
      if |rows| > 0 {
        var i := 1;
        while i < |rows|
          invariant 1 <= i <= |rows|
          invariant ParseBody(rows[1..i], valueOf) == Ok(batch)
          invariant forall j :: 0 <= j < |batch| ==> batch[j].id.None?
        {
          var row := rows[i];
          assert rows[1..i + 1][..i - 1] == rows[1..i];
          if |row| < 2 {
            FirstBadRow(rows, i, valueOf, batch);
            return Fail(ImportFailed(MissingField(1)));
          }
          var username := row[1];
          if |row| < 3 {
            FirstBadRow(rows, i, valueOf, batch);
            return Fail(ImportFailed(MissingField(2)));
          }
          var level := valueOf(row[2]);
          if level.None? {
            FirstBadRow(rows, i, valueOf, batch);
            return Fail(ImportFailed(UnknownLevel(row[2])));
          }
          batch := batch + [Student(None, Some(username), Some(level.value))];
          i := i + 1;
        }
        assert rows[1..i] == rows[1..];
      }
      r := SaveAll(batch);
    }
  }
}
