/** The search resolver of the student service: a free-text term and an optional level are
    turned into one filter, and the filter is applied to the rows in store order. The term is
    tried as a `long` id; when it does not parse, only the username clause remains. */
module Search {
  import opened Wrappers
  import opened Numbers
  import opened Entities
  import opened Repository

  /** `searchTerm != null && !searchTerm.isEmpty()`; a term of blanks is present. */
  predicate Present(term: Option<string>)
  {
    term.Some? && term.value != ""
  }

  /** The four branches of the dispatch, with the id the term parsed to (if any). */
  datatype Filter<L> =
    | MatchAll
    | ByLevel(level: L)
    | ByTermOrId(term: string, id: Option<int>)
    | ByTermOrIdAndLevel(term: string, id: Option<int>, level: L)

  /** The dispatch on (term present?, level present?); a `NumberFormatException` leaves `id` null. */
  function Resolve<L>(term: Option<string>, level: Option<L>): Filter<L>
  {
    if Present(term) && level.Some? then ByTermOrIdAndLevel(term.value, ParseLong(term.value), level.value)
    else if Present(term) then ByTermOrId(term.value, ParseLong(term.value))
    else if level.Some? then ByLevel(level.value)
    else MatchAll
  }

  /** The id clause compares the parsed number; the username clause is a case-insensitive substring. */
  predicate IdOrUsername<L>(s: Student<L>, term: string, id: Option<int>)
  {
    (id.Some? && s.id == id) || UsernameContainsIgnoreCase(s, term)
  }

  /** The row `s` is selected by filter `f`. */
  predicate Admits<L(==)>(f: Filter<L>, s: Student<L>)
  {
    match f
    case MatchAll => true
    case ByLevel(l) => s.level == Some(l)
    case ByTermOrId(t, id) => IdOrUsername(s, t, id)
    case ByTermOrIdAndLevel(t, id, l) => IdOrUsername(s, t, id) && s.level == Some(l)
  }

  /** The rows `f` admits, in store order. */
  function Select<L(==)>(f: Filter<L>, rows: seq<Student<L>>): seq<Student<L>>
  {
    if rows == [] then [] else (if Admits(f, rows[0]) then [rows[0]] else []) + Select(f, rows[1..])
  }

  /** `Select` returns exactly the admitted rows. */
  lemma {:induction false} SelectMembers<L>(f: Filter<L>, rows: seq<Student<L>>)
    ensures forall x :: x in Select(f, rows) <==> x in rows && Admits(f, x)
    ensures |Select(f, rows)| <= |rows|
  {
    if rows != [] {
      SelectMembers(f, rows[1..]);
      assert rows == [rows[0]] + rows[1..];
    }
  }

  /** A filter that admits every row keeps the whole list. */
  lemma {:induction false} SelectKeepsAll<L>(f: Filter<L>, rows: seq<Student<L>>)
    requires forall i :: 0 <= i < |rows| ==> Admits(f, rows[i])
    ensures Select(f, rows) == rows
  {
    if rows != [] {
      SelectKeepsAll(f, rows[1..]);
      assert rows == [rows[0]] + rows[1..];
    }
  }

  /** Which query the dispatch picks: a present term always yields the id-or-username filter with
      the parsed id, restricted to the level exactly when one is given; otherwise the level filter
      or, with no level, everything. */
  lemma ResolveDispatch<L>(term: Option<string>, level: Option<L>)
    ensures Present(term) ==> Resolve(term, level).term == term.value && Resolve(term, level).id == ParseLong(term.value)
    ensures Present(term) ==> (Resolve(term, level).ByTermOrIdAndLevel? <==> level.Some?)
    ensures Present(term) ==> (Resolve(term, level).ByTermOrId? <==> level.None?)
    ensures Present(term) && level.Some? ==> Resolve(term, level).level == level.value
    ensures !Present(term) && level.Some? ==> Resolve(term, level) == ByLevel(level.value)
    ensures !Present(term) && level.None? ==> Resolve(term, level) == MatchAll
  {
  }

  /** What the resolved filter selects, in one formula: the level constraint when a level is
      given, and, when a term is given, the id clause or the username clause. */
  lemma ResolveMeaning<L>(term: Option<string>, level: Option<L>, s: Student<L>)
    ensures Admits(Resolve(term, level), s) <==>
      && (level.None? || s.level == level)
      && (!Present(term) || (ParseLong(term.value).Some? && s.id == ParseLong(term.value)) || UsernameContainsIgnoreCase(s, term.value))
  {
  }

  /** An empty term is treated exactly like a missing one. */
  lemma EmptyTermIsNull<L>(level: Option<L>)
    ensures Resolve(Some(""), level) == Resolve(None, level)
  {
  }

  /** A term that is not a number never fails the search: the id clause is dropped and only the
      username clause can select a row. */
  lemma UnparsableTermMatchesUsernameOnly<L>(t: string, level: Option<L>, s: Student<L>)
    requires t != "" && ParseLong(t).None?
    ensures Admits(Resolve(Some(t), level), s) <==> (level.None? || s.level == level) && UsernameContainsIgnoreCase(s, t)
  {
  }

  /** Term "7" and no level: the row with id 7 is selected whatever its name. */
  lemma SevenFindsIdSeven<L>(name: Option<string>, l: Option<L>)
    ensures Admits(Resolve(Some("7"), None), Student(Some(7), name, l))
  {
    assert "7"[..0] == [];
    assert ParseLong("7") == Some(7);
  }

  /** Giving a level only narrows the search, and every row found has that level. */
  lemma LevelNarrows<L>(term: Option<string>, l: L, s: Student<L>)
    ensures Admits(Resolve(term, Some(l)), s) ==> Admits(Resolve(term, None), s) && s.level == Some(l)
  {
    ResolveMeaning(term, Some(l), s);
    ResolveMeaning(term, None, s);
  }

  /** The term is written the way `String.valueOf(long)` writes a number, or is no number at all. */
  predicate CanonicalOrNotNumeric(t: string)
  {
    ParseLong(t).None? || LongToString(ParseLong(t).value) == t
  }

  /** The resolver (numeric id comparison) and the repository's `findBySearchTermAndLevel`
      (textual id comparison) select the same stored rows whenever the term is canonical or not
      numeric; the empty term, which the resolver treats as absent, matches every username. */
  lemma ResolverAgreesWithSearchQuery<L>(term: Option<string>, level: Option<L>, s: Student<L>)
    requires term.Some? ==> CanonicalOrNotNumeric(term.value)
    requires s.id.Some? ==> IsLong(s.id.value)
    requires s.username.Some?
    ensures Admits(Resolve(term, level), s) <==> Matches(FindBySearchTermAndLevel(term, level), s)
  {
    ResolveMeaning(term, level, s);
    if term.Some? {
      var t := term.value;
      if t == "" {
        Text.ContainsEmpty(Text.ToLower(s.username.value));
      } else if s.id.Some? {
        var i := s.id.value;
        ParseLongToString(i);
        if ParseLong(t).Some? {
          LongToStringInjective(i, ParseLong(t).value);
        }
      }
    }
  }

  /** Where they differ: "007" parses to 7, so the resolver selects the row with id 7 (named
      "bob"), while the textual comparison of the query does not. */
  lemma NonCanonicalTermDisagrees<L>(l: L)
    ensures Admits(Resolve(Some("007"), None), Student(Some(7), Some("bob"), Some(l)))
    ensures !Matches(FindBySearchTermAndLevel(Some("007"), None), Student(Some(7), Some("bob"), Some(l)))
  {
    ParseLongNonCanonical();
    assert Text.ToLower("bob") == "bob" && Text.ToLower("007") == "007";
    var bob := "bob";
    assert !Text.StartsWith(bob, "007") && !Text.StartsWith(bob[1..], "007") && !Text.StartsWith(bob[1..][1..], "007");
    assert bob[1..][1..][1..] == [];
    assert !Text.Contains(bob[1..][1..][1..], "007");
  }
}
