# School-Management student backend, modelled in Dafny

This project models the student-record backend of School-Management, a Spring Boot
application. It also models the small admin registry beside it.

- **Students.** The `students` table is a class, `StudentService.StudentStore`. It holds a map
  from generated id to row and the counter that generates ids. Its methods are the operations of
  `StudentServiceImpl`: lookup, paged search, create, update, delete, CSV export and CSV import.
  Each keeps the table invariant: ids below the counter, every row knowing its own id, the
  not-null columns set, and usernames unique.
- **Search.** The four-way dispatch of `getAllStudents` (module `Search`) resolves a term and
  an optional level into one filter. It tries the term as a Java `long` (`Numbers.ParseLong`)
  and drops the id clause when the parse fails. The repository's derived and `@Query` queries
  are modelled as row predicates (module `Repository`). Pagination is a slice of the ordered
  matches (module `Paging`).
- **Validation and mapping.** The DTO validators are predicates in `Dtos`: `@NotBlank`,
  `@Size` counted in UTF-16 units, `@Pattern` and `@NotNull`. The MapStruct mapper is in
  `Mapper`.
- **CSV.** The CSV format is modelled at row level, with a row as a sequence of fields (module
  `Csv`).
- **Admins.** `AdminService.AdminRepository` is the `admins` table. `AdminService.Register`
  and `AdminService.LoadUserByUsername` are the registration and the security lookup.
  `DataInitializer.Run` is the seed-when-empty step.
- **Level and encoder.** The `Level` enum is a type parameter `L` with its `name()` and
  `valueOf`; `Levels.IsEnum` states the two are inverse. The password encoder is a deterministic,
  otherwise uninterpreted function parameter.

Java `null` is `None` throughout. Entities and DTOs have `Option` fields; the table
invariants say which of them a stored row always has.

Two places where the model takes a position:

- **Search calls.** Lines 42 and 50 of `StudentServiceImpl.java` call repository methods that
  `StudentRepository` does not declare with those parameters. Line 42 calls a method that does
  not exist. Line 50 passes three arguments to a two-parameter query. The model gives these
  calls their evident meaning: the id, or a case-insensitive username substring, and the level
  when one is given. The id is compared as the parsed number. The `@Query` text compares the
  decimal text instead. `Search.ResolverAgreesWithSearchQuery` proves the two agree whenever
  the term is written canonically or is no number. `Search.NonCanonicalTermDisagrees` shows they
  differ on "007".
- **Import.** Import appends: `importStudents` (`StudentServiceImpl.java` lines 104-119) only
  calls `saveAll`, so the rows already stored stay.

## Model

| member | source | states |
|---|---|---|
| Text.Trim | backend/src/main/java/org/example/backend/dto/StudentCreateUpdateDto.java:11 | `String.trim`: result no longer than the input, and when non-empty it starts and ends with a character above U+0020 |
| Text.TrimIsInfix | backend/src/main/java/org/example/backend/dto/StudentCreateUpdateDto.java:11 | `String.trim` returns one contiguous slice of the input, and every character cut off before or after it is at or below U+0020 |
| Text.NotBlankIffVisible | backend/src/main/java/org/example/backend/dto/StudentCreateUpdateDto.java:11 | `@NotBlank` holds exactly when the username contains a character above U+0020 |
| Text.Utf16LengthBounds | backend/src/main/java/org/example/backend/dto/StudentCreateUpdateDto.java:12 | the length `@Size` checks lies between the number of code points and twice that, and equals it for text in the Basic Multilingual Plane |
| Text.ToLower | backend/src/main/java/org/example/backend/repository/StudentRepository.java:18 | `LOWER` keeps the length and lower-cases each character |
| Text.ContainsIffOccurs | backend/src/main/java/org/example/backend/repository/StudentRepository.java:18 | `LIKE '%t%'` holds exactly when `t` occurs at some index of the username |
| Text.ContainsEmpty | backend/src/main/java/org/example/backend/repository/StudentRepository.java:18 | an empty term is contained in every username |
| Numbers.LongToString | backend/src/main/java/org/example/backend/service/StudentServiceImpl.java:93 | `String.valueOf` of a long, also the text `CAST(s.id AS string)` compares: a minus sign for negatives, then the decimal digits without leading zeros |
| Numbers.DigitChar | backend/src/main/java/org/example/backend/service/StudentServiceImpl.java:93 | a digit value below 10 is written as an ASCII digit |
| Numbers.Decimal | backend/src/main/java/org/example/backend/service/StudentServiceImpl.java:93 | `String.valueOf` of a natural number is a non-empty string of digits |
| Numbers.ParseLong | backend/src/main/java/org/example/backend/service/StudentServiceImpl.java:38 | `Long.parseLong` only ever returns a value in the 64-bit range |
| Numbers.DecimalValue | backend/src/main/java/org/example/backend/service/StudentServiceImpl.java:93 | the digits written for n read back as n |
| Numbers.DecimalCanonical | backend/src/main/java/org/example/backend/service/StudentServiceImpl.java:93 | the written form starts with '0' only for zero (no leading zeros) |
| Numbers.ParseLongToString | backend/src/main/java/org/example/backend/service/StudentServiceImpl.java:36-41 | parsing the decimal text of any long gives that long back |
| Numbers.LongToStringInjective | backend/src/main/java/org/example/backend/repository/StudentRepository.java:18 | distinct ids have distinct decimal text, so `CAST(s.id AS string) = term` matches at most one id |
| Numbers.ParseLongNonCanonical | backend/src/main/java/org/example/backend/service/StudentServiceImpl.java:36-41 | "007" and "+7" parse to 7 although 7 is written "7" |
| Numbers.ParseLongRejects | backend/src/main/java/org/example/backend/service/StudentServiceImpl.java:37-41 | non-numbers, a bare sign, surrounding blanks and the empty string throw `NumberFormatException` (modelled as no id) |
| Levels.ValueOfIffName | backend/src/main/java/org/example/backend/service/StudentServiceImpl.java:112 | `Level.valueOf(s)` returns `l` exactly when `s` is `l.name()` |
| Levels.NameInjective | backend/src/main/java/org/example/backend/service/StudentServiceImpl.java:95 | distinct levels are exported under distinct names |
| Dtos.ValidCreateUpdate | backend/src/main/java/org/example/backend/dto/StudentCreateUpdateDto.java:11-16 | the request constraints: username `@NotBlank` and `@Size(min = 3, max = 20)`, level `@NotNull` |
| Dtos.ValidStudentDto | backend/src/main/java/org/example/backend/dto/StudentDto.java:23-32 | the output constraints: username `@NotBlank`, `@Size(min = 3, max = 50)` and the `@Pattern` of letters, digits, `.`, `_` and `-`; level `@NotNull` |
| Dtos.CreateUpdateValidIff | backend/src/main/java/org/example/backend/dto/StudentCreateUpdateDto.java:11-16 | a create/update request is valid exactly when username and level are set, the username has a visible character and is 3 to 20 UTF-16 units long |
| Dtos.BlankOrMissingRejected | backend/src/main/java/org/example/backend/dto/StudentCreateUpdateDto.java:11-16 | three blanks, a missing username and a missing level are each refused |
| Dtos.PatternAndSizeImplyNotBlank | backend/src/main/java/org/example/backend/dto/StudentDto.java:23-28 | on `StudentDto`, the pattern and the size bound already imply `@NotBlank` |
| Dtos.PatternUsernameLength | backend/src/main/java/org/example/backend/dto/StudentDto.java:24-25 | a username matching the pattern is ASCII, so its UTF-16 length is its number of characters |
| Dtos.SpaceAllowedOnlyInRequest | backend/src/main/java/org/example/backend/dto/StudentDto.java:23-28 | "a b" passes the request validator but not the `StudentDto` pattern |
| Dtos.OutputNameFitsRequest | backend/src/main/java/org/example/backend/dto/StudentDto.java:23-32 | a valid `StudentDto` whose username is at most 20 units long is also a valid request |
| Mapper.ToDto | backend/src/main/java/org/example/backend/mapper/StudentMapper.java:12 | the DTO carries the entity's id, username and level |
| Mapper.ToEntity | backend/src/main/java/org/example/backend/mapper/StudentMapper.java:13 | the entity has no id and the request's username and level |
| Mapper.UpdateFromDto | backend/src/main/java/org/example/backend/mapper/StudentMapper.java:14 | the target keeps its id and takes the request's username and level |
| Mapper.ToDtoOfToEntity | backend/src/main/java/org/example/backend/mapper/StudentMapper.java:12-13 | mapping a request to an entity and back loses only the id |
| Mapper.UpdateFromDtoIdempotent | backend/src/main/java/org/example/backend/mapper/StudentMapper.java:14 | applying the same update twice equals applying it once |
| Mapper.UpdateFromDtoLastWins | backend/src/main/java/org/example/backend/mapper/StudentMapper.java:14 | of two updates, only the later one shows |
| Mapper.UpdateIsToEntityWithId | backend/src/main/java/org/example/backend/mapper/StudentMapper.java:13-14 | an update is the fresh entity of the request under the target's id |
| Tables.KeysBelowSpec | backend/src/main/java/org/example/backend/entity/Student.java:16-18 | the listed ids are exactly the stored ids below the counter, strictly increasing |
| Tables.KeysBelowCount | backend/src/main/java/org/example/backend/entity/Student.java:16-18 | as many ids are listed as are stored in range |
| Tables.AllKeysBelow | backend/src/main/java/org/example/backend/entity/Student.java:16-18 | when every id lies below the counter, every stored id is listed |
| Tables.ValuesAt | backend/src/main/java/org/example/backend/service/StudentServiceImpl.java:91 | one row per listed id, the row stored under that id |
| Tables.AscendingSpec | backend/src/main/java/org/example/backend/service/StudentServiceImpl.java:91 | `findAll` lists one entry per stored row, and lists a row exactly when it is stored |
| Repository.TermClause | backend/src/main/java/org/example/backend/repository/StudentRepository.java:18 | `:searchTerm IS NULL`, or the id's decimal text equals the term, or the lower-cased username contains the lower-cased term |
| Repository.Matches | backend/src/main/java/org/example/backend/repository/StudentRepository.java:14-22 | the WHERE clause of each query method: all rows, the username substring, the level, both, the id-or-username `@Query`, and that query further restricted to a non-null level |
| Repository.Run | backend/src/main/java/org/example/backend/repository/StudentRepository.java:14-22 | a query's result: the stored rows its WHERE clause holds for, in store order |
| Repository.RunMembers | backend/src/main/java/org/example/backend/repository/StudentRepository.java:14-22 | a query returns exactly the stored rows its predicate holds for, never more rows than are stored |
| Repository.RunKeepsAll | backend/src/main/java/org/example/backend/repository/StudentRepository.java:18-19 | a query holding for every row returns all rows in order |
| Repository.RunMonotone | backend/src/main/java/org/example/backend/repository/StudentRepository.java:14-22 | a stronger predicate returns a subset of the rows |
| Repository.NullSearchReturnsAll | backend/src/main/java/org/example/backend/repository/StudentRepository.java:18-22 | `:searchTerm IS NULL` (and a null level) returns every row |
| Repository.SearchTermAndLevelSplits | backend/src/main/java/org/example/backend/repository/StudentRepository.java:21 | `findBySearchTermAndLevel` is the id-or-username query, further restricted to the level when one is given |
| Repository.UsernameAndLevelSplits | backend/src/main/java/org/example/backend/repository/StudentRepository.java:16 | the derived `...AndLevel` query is the username query and the level query together |
| Repository.RestrictedQueriesShrink | backend/src/main/java/org/example/backend/repository/StudentRepository.java:14-22 | the level-restricted queries return subsets of the unrestricted ones and of `findByLevel` |
| Repository.JoFindsJohnJonesMojo | backend/src/main/java/org/example/backend/repository/StudentRepository.java:14 | "jo" finds John, Jones and mojo, ignoring case |
| Repository.JoMissesMike | backend/src/main/java/org/example/backend/repository/StudentRepository.java:14 | "jo" does not find Mike |
| Repository.IdClauseIsTextual | backend/src/main/java/org/example/backend/repository/StudentRepository.java:18 | the id clause compares text: "7" finds id 7, "07" does not |
| Search.Resolve | backend/src/main/java/org/example/backend/service/StudentServiceImpl.java:35-55 | the four-way dispatch on a present term and a given level, with the term parsed as a long or null |
| Search.Admits | backend/src/main/java/org/example/backend/service/StudentServiceImpl.java:42-54 | what each branch's query selects: every row, the level, the id or a case-insensitive username substring, and that with the level |
| Search.Select | backend/src/main/java/org/example/backend/service/StudentServiceImpl.java:42-54 | the rows the resolved filter admits, in store order |
| Search.SelectMembers | backend/src/main/java/org/example/backend/service/StudentServiceImpl.java:34-56 | the search returns exactly the rows the resolved filter admits, never more than are stored |
| Search.SelectKeepsAll | backend/src/main/java/org/example/backend/service/StudentServiceImpl.java:54 | a filter admitting every row (the `findAll` branch) returns all rows in order |
| Search.ResolveDispatch | backend/src/main/java/org/example/backend/service/StudentServiceImpl.java:35-55 | a present term gives the id-or-username filter with the parsed id, restricted to the level exactly when one is given; otherwise the level filter, or everything |
| Search.ResolveMeaning | backend/src/main/java/org/example/backend/service/StudentServiceImpl.java:35-55 | a row is found iff it has the requested level (if any) and, for a present term, its id equals the parsed term or its username contains the term ignoring case |
| Search.EmptyTermIsNull | backend/src/main/java/org/example/backend/service/StudentServiceImpl.java:35 | an empty term is treated exactly like a missing one |
| Search.UnparsableTermMatchesUsernameOnly | backend/src/main/java/org/example/backend/service/StudentServiceImpl.java:37-41 | a term that is no long never fails the search; only the username clause can select |
| Search.SevenFindsIdSeven | backend/src/main/java/org/example/backend/service/StudentServiceImpl.java:43-50 | term "7" finds the row with id 7 whatever its name |
| Search.LevelNarrows | backend/src/main/java/org/example/backend/service/StudentServiceImpl.java:35-52 | adding a level only narrows the result, and every row found has that level |
| Search.ResolverAgreesWithSearchQuery | backend/src/main/java/org/example/backend/repository/StudentRepository.java:21 | for a canonical or non-numeric term, the numeric id comparison and the textual `@Query` select the same rows |
| Search.NonCanonicalTermDisagrees | backend/src/main/java/org/example/backend/service/StudentServiceImpl.java:36-42 | for "007" the numeric comparison finds id 7 and the textual one does not |
| Paging.PageOf | backend/src/main/java/org/example/backend/service/StudentServiceImpl.java:34 | a page reports the total number of matches and its request, is unpaged in full, holds at most `size` rows, and holds only matches |
| Paging.PageIsSlice | backend/src/main/java/org/example/backend/service/StudentServiceImpl.java:34 | page p of size n is the slice of the matches from p * n up to (p + 1) * n, both cut at the number of matches |
| Paging.MapPage | backend/src/main/java/org/example/backend/service/StudentServiceImpl.java:54 | `Page.map` converts each entry and keeps the total and the request |
| Paging.OffsetIsProduct | backend/src/main/java/org/example/backend/service/StudentServiceImpl.java:34 | page p of size n starts at entry p * n |
| Paging.FirstPagesUpToOffset | backend/src/main/java/org/example/backend/service/StudentServiceImpl.java:34 | the first k pages are the matches before the start of page k |
| Paging.FirstPagesArePrefix | backend/src/main/java/org/example/backend/service/StudentServiceImpl.java:34 | the first k pages, one after another, are the first k*size matches: nothing is skipped or repeated |
| Paging.AllPagesCoverMatches | backend/src/main/java/org/example/backend/service/StudentServiceImpl.java:34 | enough pages reproduce the whole match list |
| Paging.FiveInPagesOfTwo | backend/src/main/java/org/example/backend/service/StudentServiceImpl.java:34 | five matches in pages of two come as 2, 2, 1, 0, with total 5 on every page |
| Csv.ExportRow | backend/src/main/java/org/example/backend/service/StudentServiceImpl.java:92-96 | one CSV row of a student: its id as decimal text, its username and its level's name |
| Csv.ExportRows | backend/src/main/java/org/example/backend/service/StudentServiceImpl.java:90-96 | the header "ID","Username","Level", then one row per student in listing order |
| Csv.ParseRow | backend/src/main/java/org/example/backend/service/StudentServiceImpl.java:110-113 | a row becomes an id-less student with field 1 as username and `Level.valueOf` of field 2 as level; a short row or an unknown level is an error |
| Csv.ParseBody | backend/src/main/java/org/example/backend/service/StudentServiceImpl.java:109-114 | the rows after the header, parsed in order, stopping at the first failing row |
| Csv.ParseRows | backend/src/main/java/org/example/backend/service/StudentServiceImpl.java:108-114 | skip the first row, then parse the rest |
| Csv.WithoutIds | backend/src/main/java/org/example/backend/service/StudentServiceImpl.java:110-113 | imported students carry no id, only the username and level |
| Csv.ParseRowSpec | backend/src/main/java/org/example/backend/service/StudentServiceImpl.java:110-113 | a row imports iff it has a third field naming a level; the student gets field 1 as username and that level; field 0 is ignored |
| Csv.ParseBodySpec | backend/src/main/java/org/example/backend/service/StudentServiceImpl.java:109-114 | the rows import iff every row does, pointwise; otherwise the error is that of the first failing row |
| Csv.ErrorPersists | backend/src/main/java/org/example/backend/service/StudentServiceImpl.java:109-115 | once a row has failed, later rows do not change the outcome |
| Csv.EmptyImports | backend/src/main/java/org/example/backend/service/StudentServiceImpl.java:108-115 | an empty file and a header-only file import nothing; the first row is always skipped |
| Csv.ExportShape | backend/src/main/java/org/example/backend/service/StudentServiceImpl.java:90-97 | the export is the header "ID","Username","Level" followed by one row per student, in order |
| Csv.ExportBodyShape | backend/src/main/java/org/example/backend/service/StudentServiceImpl.java:91-97 | row i of the body is id, username and level name of student i |
| Csv.ExportThenImport | backend/src/main/java/org/example/backend/service/StudentServiceImpl.java:88-119 | importing an export yields the exported students without their ids |
| StudentService.StoreInvariant | backend/src/main/java/org/example/backend/entity/Student.java:16-25 | the table invariant: ids are the generated keys below the counter, each row holds its own id, username and level are set, and usernames are unique |
| StudentService.AscendingIds | backend/src/main/java/org/example/backend/service/StudentServiceImpl.java:91 | on a valid table, each id-ordered row is the row stored under its own id, and the ids strictly increase |
| StudentService.AscendingRows | backend/src/main/java/org/example/backend/service/StudentServiceImpl.java:91 | on a valid table, the id-ordered rows are every row once, complete, with distinct usernames |
| StudentService.Listing | backend/src/main/java/org/example/backend/service/StudentServiceImpl.java:91 | `findAll` on a valid table lists every stored row and only stored rows (each is the row under its own id), one entry per row, in strictly increasing id order, each complete, with pairwise distinct usernames |
| StudentService.SearchMatches | backend/src/main/java/org/example/backend/service/StudentServiceImpl.java:42-54 | the rows a search with a resolved filter returns: the filter applied to `findAll`'s rows in store order |
| StudentService.SearchPage | backend/src/main/java/org/example/backend/service/StudentServiceImpl.java:34-56 | the requested page of those matches, mapped to DTOs with `toDto` |
| StudentService.PageHoldsStoredMatches | backend/src/main/java/org/example/backend/service/StudentServiceImpl.java:34-56 | every DTO on a search page comes from a stored row the filter admits; the page respects its size; with no criteria the total is the table size |
| StudentService.UnpagedHoldsAllMatches | backend/src/main/java/org/example/backend/service/StudentServiceImpl.java:34-56 | an unpaged search result has one entry per match and holds the DTO of every stored row the filter admits |
| StudentService.PagedSliceOfMatches | backend/src/main/java/org/example/backend/service/StudentServiceImpl.java:34-56 | page p of size n holds, in order, the DTOs of the matches from index p * n up to (p + 1) * n, both cut at the number of matches |
| StudentService.SearchPageSpec | backend/src/main/java/org/example/backend/service/StudentServiceImpl.java:34-56 | a search page totals the matches, keeps its request and size bound, holds only DTOs of admitted stored rows, all of them when unpaged and its slice of the ordered matches when paged |
| StudentService.CanSaveAll | backend/src/main/java/org/example/backend/service/StudentServiceImpl.java:115 | `saveAll` passes the constraints: each entity has username and level, no username is already stored, and no two entities share one |
| StudentService.Appended | backend/src/main/java/org/example/backend/service/StudentServiceImpl.java:115 | the table after a passing `saveAll`: the old rows, plus entity j under the generated id next + j |
| StudentService.AppendedKeepsInvariant | backend/src/main/java/org/example/backend/service/StudentServiceImpl.java:115 | a `saveAll` that passes the constraints keeps the table invariant and every existing row |
| StudentService.ListingBatchSavable | backend/src/main/java/org/example/backend/service/StudentServiceImpl.java:115 | the students read back from an export of a valid table pass every constraint of an empty table |
| StudentService.ListingBatchPairs | backend/src/main/java/org/example/backend/service/StudentServiceImpl.java:88-119 | saving them into an empty table stores exactly the original (username, level) pairs |
| StudentService.ExportThenImportIntoEmptyStore | backend/src/main/java/org/example/backend/service/StudentServiceImpl.java:88-119 | exporting a table and importing the file into an empty table succeeds and stores the same (username, level) pairs, one row per exported row |
| StudentService.FirstBadRow | backend/src/main/java/org/example/backend/service/StudentServiceImpl.java:109-114 | the first row that fails to parse decides the error of the whole import |
| StudentService.StudentStore.constructor | backend/src/main/java/org/example/backend/entity/Student.java:16-18 | a new table is empty and generates ids from 1 |
| StudentService.StudentStore.GetStudentById | backend/src/main/java/org/example/backend/service/StudentServiceImpl.java:59-63 | a stored id yields its DTO with that id and the stored username and level, both set; an absent id raises not-found |
| StudentService.StudentStore.GetAllStudents | backend/src/main/java/org/example/backend/service/StudentServiceImpl.java:34-56 | the page totals the rows the resolved filter admits, keeps the request and its size bound, totals the whole table with no criteria, and holds only DTOs of admitted stored rows; unpaged it holds every admitted row's DTO, and page p of size n is the DTOs of matches p * n up to (p + 1) * n in store order |
| StudentService.StudentStore.Save | backend/src/main/java/org/example/backend/service/StudentServiceImpl.java:68 | a new entity is inserted under the next id, an existing one overwritten; a null column or a duplicate username fails and changes nothing |
| StudentService.StudentStore.CreateStudent | backend/src/main/java/org/example/backend/service/StudentServiceImpl.java:66-69 | fails, changing nothing, iff username or level is null or the username is taken; otherwise adds exactly one row under a fresh id that reads back; for a valid request only a taken username fails |
| StudentService.StudentStore.UpdateStudent | backend/src/main/java/org/example/backend/service/StudentServiceImpl.java:72-77 | an absent id raises not-found; otherwise the row keeps its id and takes the new username and level, unless a field is null or another row has the username, in which case nothing changes |
| StudentService.StudentStore.DeleteStudent | backend/src/main/java/org/example/backend/service/StudentServiceImpl.java:80-85 | an absent id raises not-found and changes nothing; a present id removes exactly that row |
| StudentService.StudentStore.ExportStudents | backend/src/main/java/org/example/backend/service/StudentServiceImpl.java:88-101 | the written rows are the header followed by one row per stored student in id order |
| StudentService.StudentStore.SaveAll | backend/src/main/java/org/example/backend/service/StudentServiceImpl.java:115 | all new (id-less) entities are inserted under consecutive fresh ids, or, on a null column or a duplicate username, nothing is |
| StudentService.StudentStore.ImportStudents | backend/src/main/java/org/example/backend/service/StudentServiceImpl.java:104-119 | a bad row aborts with its error before any write; otherwise the parsed students are appended through `saveAll`, all or nothing |
| AdminService.AdminInvariant | backend/src/main/java/org/example/backend/entity/Admin.java:15-23 | the admin table invariant: ids are the generated keys below the counter, each row holds its own id, username and password are set, and usernames are unique |
| AdminService.FirstNamed | backend/src/main/java/org/example/backend/service/AdminDetailsService.java:21 | finds an admin with the username exactly when one is in the list |
| AdminService.AdminRepository.constructor | backend/src/main/java/org/example/backend/entity/Admin.java:15-17 | a new admin table is empty and generates ids from 1 |
| AdminService.AdminRepository.FindByUsername | backend/src/main/java/org/example/backend/service/AdminServiceImpl.java:31 | present iff some stored admin has the username; the result is that stored row, with its id and a password |
| AdminService.AdminRepository.Count | backend/src/main/java/org/example/backend/config/DataInitializer.java:24 | the count is zero exactly when the table is empty |
| AdminService.AdminRepository.Save | backend/src/main/java/org/example/backend/service/AdminServiceImpl.java:37 | inserts a new admin under the next id, or fails on a null column or a taken username and changes nothing |
| AdminService.Register | backend/src/main/java/org/example/backend/service/AdminServiceImpl.java:30-38 | a stored username conflicts and nothing is written; otherwise exactly one admin with the username and `encode(password)` is added, after which the username is stored, so registering it again conflicts |
| AdminService.LoadUserByUsername | backend/src/main/java/org/example/backend/service/AdminDetailsService.java:20-24 | a stored non-empty username yields a user with that username, the stored encoded password and no authorities; an absent one raises username-not-found; a stored empty username makes `User`'s constructor throw `IllegalArgumentException` |
| DataInitializer.Seeded | backend/src/main/java/org/example/backend/config/DataInitializer.java:24-29 | the seed step: an empty table gets one admin "admin" holding `encode("password")` under the next id; any other table is unchanged |
| DataInitializer.SeededKeepsInvariant | backend/src/main/java/org/example/backend/config/DataInitializer.java:24-31 | seeding keeps the admin table invariant and leaves at least one admin |
| DataInitializer.SeedOfEmpty | backend/src/main/java/org/example/backend/config/DataInitializer.java:24-29 | an empty table gets exactly one admin, "admin", holding `encode("password")` |
| DataInitializer.SeedOfNonEmpty | backend/src/main/java/org/example/backend/config/DataInitializer.java:24 | a table with any admin is left unchanged |
| DataInitializer.SeedIdempotent | backend/src/main/java/org/example/backend/config/DataInitializer.java:24-31 | seeding twice equals seeding once |
| DataInitializer.Run | backend/src/main/java/org/example/backend/config/DataInitializer.java:22-32 | `run` changes the table exactly as the seed step says and keeps its invariant |

## Left out

- HTTP layer: controllers, status codes, the `HttpServletResponse` writer and the `MultipartFile` upload. Export returns rows and import takes rows.
- CSV text: opencsv quoting, escaping and line splitting. A row is a sequence of fields. The wrapping of `IOException` and `CsvValidationException` cannot arise without I/O.
- Authentication: `login`, the JWT utility and the authentication manager are foreign calls. The password encoder is an uninterpreted function parameter.
- Password encoding: `encode` is a deterministic function, so the same password always yields the same stored value. A salted encoder such as BCrypt yields a new hash on each call; the model does not capture that; checking a password against its hash happens in authentication, which is left out.
- Logging on line 30 of `DataInitializer.java`.
- Concurrency. Every operation is one atomic step, so the check-then-insert race of register is not modelled.
- Sorting in `Pageable`. Rows come in ascending id order, which stands in for the database's unspecified order.
- `AdminRegistrationRequest` is not part of this model. `AdminService.Register` assumes that the username and password reach it as non-null strings; the model takes this as given and does not derive it from the request's annotations.
- Repository.Matches: `LIKE` wildcards (`%`, `_`) inside the search term are matched literally.
- Text.ToLower: lower-cases ASCII letters only, not full Unicode case mapping, because the database collation is unknown.
- Numbers.ParseLong: accepts ASCII digits only, although `Character.digit` also accepts other Unicode decimal digits.
- StudentService.StudentStore.Save: the ids are unbounded integers, so 64-bit overflow of the identity counter is not modelled. A failed insert does not use up an id, though a database identity column may.
- StudentService.StudentStore.Save: merging an entity whose id is not stored is not modelled (it requires the id to be stored). No caller in the service does that.
- StudentService.StudentStore.UpdateStudent: `updateFromDto` mutates the managed entity in place. The model computes the updated value and saves it, which has the same effect on the table.
- StudentService.StudentStore.SaveAll: all or nothing, as Spring Data's default `saveAll` (`SimpleJpaRepository`, annotated `@Transactional`) rolls the whole list back when one insert fails. Saving entities that already carry ids is not modelled; `importStudents` only ever passes new ones.
- Column length: the generated schema would make `username` a `varchar(255)`, but the DDL is not part of this model, so length limits of the columns are not modelled; an imported or saved username of any length is stored.
- Username uniqueness is exact string equality: "Alice" and "alice" are different usernames here. Whether the database's unique index folds case depends on its collation, which is unknown.
- StudentService.StudentStore.ImportStudents: the distinct exceptions a bad row raises (`ArrayIndexOutOfBoundsException`, `IllegalArgumentException` from `valueOf`) are collapsed into one import error carrying the row's problem.
- Bean validation runs in the controller, not in the service. The validators are predicates. `CreateStudent` and `UpdateStudent` relate to them in their contracts (for a valid request only a username clash fails).
