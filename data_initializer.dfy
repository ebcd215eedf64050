/** The start-up step that seeds the admin table with a default account when it is empty. */
module DataInitializer {
  import opened Wrappers
  import opened Entities
  import opened AdminService

  const DefaultUsername := "admin"
  const DefaultPassword := "password"

  /** The table after the seed step, as a pure function of the table before it: unchanged when
      some admin exists, otherwise the one default admin under the next generated id. */
  function Seeded(m: map<int, Admin>, nextId: int, encode: string -> string): (map<int, Admin>, int)
  {
    if |m| == 0 then (map[nextId := Admin(Some(nextId), Some(DefaultUsername), Some(encode(DefaultPassword)))], nextId + 1)
    else (m, nextId)
  }

  /** Seeding keeps the table invariant and leaves at least one admin. */
  lemma SeededKeepsInvariant(m: map<int, Admin>, nextId: int, encode: string -> string)
    requires AdminInvariant(m, nextId)
    ensures AdminInvariant(Seeded(m, nextId, encode).0, Seeded(m, nextId, encode).1)
    ensures |Seeded(m, nextId, encode).0| >= 1
  {
  }

  /** An empty table gets exactly one admin, named "admin", holding `encode("password")`. */
  lemma SeedOfEmpty(nextId: int, encode: string -> string)
    ensures var (m', _) := Seeded(map[], nextId, encode);
      && |m'| == 1
      && (forall k :: k in m' ==> m'[k].username == Some("admin") && m'[k].password == Some(encode("password")))
  {
  }

  /** A non-empty table is left alone. */
  lemma SeedOfNonEmpty(m: map<int, Admin>, nextId: int, encode: string -> string)
    requires |m| > 0
    ensures Seeded(m, nextId, encode) == (m, nextId)
  {
  }

  /** Running the seed step twice gives the same table as running it once. */
  lemma SeedIdempotent(m: map<int, Admin>, nextId: int, encode: string -> string)
    ensures var (m', n') := Seeded(m, nextId, encode); Seeded(m', n', encode) == (m', n')
  {
  }

  /** `run`: when the table is empty, save the default admin with the encoded default password. */
  method Run(repo: AdminRepository, encode: string -> string)
    requires repo.Valid()
    modifies repo
    ensures repo.Valid()
    ensures (repo.admins, repo.nextId) == Seeded(old(repo.admins), old(repo.nextId), encode)
  {
    if repo.Count() == 0 {
      var admin := Admin(None, Some(DefaultUsername), Some(encode(DefaultPassword)));
      var saved := repo.Save(admin);
      if saved.Err? {
        assert false;
      }
    }
  }
}
