/** The query methods of the student repository, each as the predicate a row must satisfy to be
    returned, and `Run`, which evaluates a query over the stored rows in store order. */
module Repository {
  import opened Wrappers
  import opened Text
  import opened Numbers
  import opened Entities

  /** `LOWER(s.username) LIKE LOWER('%' || term || '%')`; a NULL username never matches. */
  predicate UsernameContainsIgnoreCase<L>(s: Student<L>, term: string)
  {
    s.username.Some? && Contains(ToLower(s.username.value), ToLower(term))
  }

  /** `CAST(s.id AS string) = :searchTerm`: the decimal text of the id equals the term. */
  predicate IdTextIs<L>(s: Student<L>, term: string)
  {
    s.id.Some? && LongToString(s.id.value) == term
  }

  /** `(:searchTerm IS NULL OR CAST(s.id AS string) = :searchTerm OR LOWER(s.username) LIKE ...)`. */
  predicate TermClause<L>(s: Student<L>, term: Option<string>)
  {
    term.None? || IdTextIs(s, term.value) || UsernameContainsIgnoreCase(s, term.value)
  }

  /** One value per repository query method, carrying its parameters. */
  datatype Query<L> =
    | FindAll
    | FindByUsernameContainingIgnoreCase(username: string)
    | FindByLevel(level: L)
    | FindByUsernameContainingIgnoreCaseAndLevel(username: string, level: L)
    | FindByIdOrUsernameContainingIgnoreCase(searchTerm: Option<string>)
    | FindBySearchTermAndLevel(searchTerm: Option<string>, levelOrNull: Option<L>)

  /** The row `s` satisfies the WHERE clause of query `q`. */
  predicate Matches<L(==)>(q: Query<L>, s: Student<L>)
  {
    match q
    case FindAll => true
    case FindByUsernameContainingIgnoreCase(u) => UsernameContainsIgnoreCase(s, u)
    case FindByLevel(l) => s.level == Some(l)
    case FindByUsernameContainingIgnoreCaseAndLevel(u, l) => UsernameContainsIgnoreCase(s, u) && s.level == Some(l)
    case FindByIdOrUsernameContainingIgnoreCase(t) => TermClause(s, t)
    case FindBySearchTermAndLevel(t, l) => (l.None? || s.level == l) && TermClause(s, t)
  }

  /** The rows of `rows` that satisfy `q`, in their original order. */
  function Run<L(==)>(q: Query<L>, rows: seq<Student<L>>): seq<Student<L>>
  {
    if rows == [] then [] else (if Matches(q, rows[0]) then [rows[0]] else []) + Run(q, rows[1..])
  }

  /** A query returns exactly the stored rows that satisfy it, and no more of them than are stored. */
  lemma {:induction false} RunMembers<L>(q: Query<L>, rows: seq<Student<L>>)
    ensures forall x :: x in Run(q, rows) <==> x in rows && Matches(q, x)
    ensures |Run(q, rows)| <= |rows|
  {
    if rows != [] {
      RunMembers(q, rows[1..]);
      assert rows == [rows[0]] + rows[1..];
    }
  }

  /** A query every row satisfies returns the rows unchanged. */
  lemma {:induction false} RunKeepsAll<L>(q: Query<L>, rows: seq<Student<L>>)
    requires forall i :: 0 <= i < |rows| ==> Matches(q, rows[i])
    ensures Run(q, rows) == rows
  {
    if rows != [] {
      RunKeepsAll(q, rows[1..]);
    }
  }

  /** A query returns the rows its stronger counterpart returns, in which ever rows it runs on. */
  lemma {:induction false} RunMonotone<L>(strong: Query<L>, weak: Query<L>, rows: seq<Student<L>>)
    requires forall s :: Matches(strong, s) ==> Matches(weak, s)
    ensures forall x :: x in Run(strong, rows) ==> x in Run(weak, rows)
  {
    RunMembers(strong, rows);
    RunMembers(weak, rows);
    forall x | x in Run(strong, rows)
      ensures x in Run(weak, rows)
    {
      assert Matches(strong, x);
    }
  }

  /** With a null term the id-or-username query, and with both parameters null the search query,
      return every stored row. */
  lemma NullSearchReturnsAll<L>(rows: seq<Student<L>>)
    ensures Run(FindByIdOrUsernameContainingIgnoreCase(None), rows) == rows
    ensures Run(FindBySearchTermAndLevel(None, None), rows) == rows
  {
    RunKeepsAll(FindByIdOrUsernameContainingIgnoreCase(None), rows);
    RunKeepsAll(FindBySearchTermAndLevel(None, None), rows);
  }

  /** `findBySearchTermAndLevel`: a null level adds no constraint, a non-null one is conjoined
      as `findByLevel`. */
  lemma SearchTermAndLevelSplits<L>(t: Option<string>, l: L, s: Student<L>)
    ensures Matches(FindBySearchTermAndLevel(t, None), s) <==> Matches(FindByIdOrUsernameContainingIgnoreCase(t), s)
    ensures Matches(FindBySearchTermAndLevel(t, Some(l)), s) <==>
      Matches(FindByIdOrUsernameContainingIgnoreCase(t), s) && Matches(FindByLevel(l), s)
  {
  }

  /** The derived `...AndLevel` query is the conjunction of its two parts. */
  lemma UsernameAndLevelSplits<L>(u: string, l: L, s: Student<L>)
    ensures Matches(FindByUsernameContainingIgnoreCaseAndLevel(u, l), s) <==>
      Matches(FindByUsernameContainingIgnoreCase(u), s) && Matches(FindByLevel(l), s)
  {
  }

  /** Every level-restricted query returns a subset of its unrestricted counterpart, and every
      query returns a subset of the store. */
  lemma RestrictedQueriesShrink<L>(u: string, t: Option<string>, l: L, rows: seq<Student<L>>)
    ensures forall x :: x in Run(FindByUsernameContainingIgnoreCaseAndLevel(u, l), rows) ==>
      x in Run(FindByUsernameContainingIgnoreCase(u), rows)
    ensures forall x :: x in Run(FindBySearchTermAndLevel(t, Some(l)), rows) ==>
      x in Run(FindBySearchTermAndLevel(t, None), rows)
    ensures forall x :: x in Run(FindByLevel(l), rows) ==> x in rows
    ensures forall x :: x in Run(FindBySearchTermAndLevel(t, Some(l)), rows) ==> x in Run(FindByLevel(l), rows)
  {
    RunMonotone(FindByUsernameContainingIgnoreCaseAndLevel(u, l), FindByUsernameContainingIgnoreCase(u), rows);
    RunMonotone(FindBySearchTermAndLevel(t, Some(l)), FindBySearchTermAndLevel(t, None), rows);
    RunMonotone(FindBySearchTermAndLevel(t, Some(l)), FindByLevel(l), rows);
    RunMembers(FindByLevel(l), rows);
  }

  /** The term "jo" finds John, Jones and mojo, whatever the case. */
  lemma JoFindsJohnJonesMojo<L>(l: L)
    ensures Matches(FindByUsernameContainingIgnoreCase("jo"), Student(None, Some("John"), Some(l)))
    ensures Matches(FindByUsernameContainingIgnoreCase("jo"), Student(None, Some("Jones"), Some(l)))
    ensures Matches(FindByUsernameContainingIgnoreCase("jo"), Student(None, Some("mojo"), Some(l)))
  {
    assert ToLower("jo") == "jo";
    assert ToLower("John") == "john";
    assert StartsWith("john", "jo");
    assert ToLower("Jones") == "jones";
    assert StartsWith("jones", "jo");
    assert ToLower("mojo") == "mojo";
    assert "mojo"[1..][1..] == "jo";
    assert StartsWith("mojo"[1..][1..], "jo");
  }

  /** The term "jo" does not find Mike. */
  lemma JoMissesMike<L>(l: L)
    ensures !Matches(FindByUsernameContainingIgnoreCase("jo"), Student(None, Some("Mike"), Some(l)))
  {
    assert ToLower("jo") == "jo";
    assert ToLower("Mike") == "mike";
    var mike := "mike";
    assert !StartsWith(mike, "jo") && !StartsWith(mike[1..], "jo") && !StartsWith(mike[1..][1..], "jo");
    assert mike[1..][1..][1..] == "e" && !StartsWith("e", "jo") && "e"[1..] == [];
    assert !Contains(mike[1..][1..][1..], "jo");
  }

  /** The id clause compares decimal text: "07" does not reach the row with id 7 through it,
      while "7" does. */
  lemma IdClauseIsTextual<L>(l: L)
    ensures !Matches(FindByIdOrUsernameContainingIgnoreCase(Some("07")), Student(Some(7), Some("bob"), Some(l)))
    ensures Matches(FindByIdOrUsernameContainingIgnoreCase(Some("7")), Student(Some(7), Some("bob"), Some(l)))
  {
    assert LongToString(7) == "7";
    assert ToLower("bob") == "bob" && ToLower("07") == "07";
    var bob := "bob";
    assert !StartsWith(bob, "07") && !StartsWith(bob[1..], "07") && !StartsWith(bob[1..][1..], "07");
    assert bob[1..][1..][1..] == [];
    assert !Contains(bob[1..][1..][1..], "07");
  }
}
