/** The MapStruct mapper: copies the fields of the same name between the entity and the DTOs.
    Properties missing on the source side (the id of a request body) are left untouched. */
module Mapper {
  import opened Wrappers
  import opened Entities
  import opened Dtos

  /** `toDto`: id, username and level copied unchanged. */
  function ToDto<L>(s: Student<L>): (d: StudentDto<L>)
    ensures d.id == s.id && d.username == s.username && d.level == s.level
  {
    StudentDto(s.id, s.username, s.level)
  }

  /** `toEntity`: username and level copied; the request has no id, so the entity has none. */
  function ToEntity<L>(d: StudentCreateUpdateDto<L>): (s: Student<L>)
    ensures s.id.None? && s.username == d.username && s.level == d.level
  {
    Student(None, d.username, d.level)
  }

  /** `updateFromDto(dto, target)`: the target's username and level are overwritten (nulls
      included); its id is kept. Returns the updated target. */
  function UpdateFromDto<L>(d: StudentCreateUpdateDto<L>, target: Student<L>): (s: Student<L>)
    ensures s.id == target.id && s.username == d.username && s.level == d.level
  {
    target.(username := d.username, level := d.level)
  }

  /** Mapping a request to an entity and back yields the request's username and level. */
  lemma ToDtoOfToEntity<L>(d: StudentCreateUpdateDto<L>)
    ensures ToDto(ToEntity(d)) == StudentDto(None, d.username, d.level)
  {
  }

  /** Updating is idempotent: the second application changes nothing. */
  lemma UpdateFromDtoIdempotent<L>(d: StudentCreateUpdateDto<L>, target: Student<L>)
    ensures UpdateFromDto(d, UpdateFromDto(d, target)) == UpdateFromDto(d, target)
  {
  }

  /** Only the latest update matters: the fields written earlier are all overwritten. */
  lemma UpdateFromDtoLastWins<L>(d1: StudentCreateUpdateDto<L>, d2: StudentCreateUpdateDto<L>, target: Student<L>)
    ensures UpdateFromDto(d2, UpdateFromDto(d1, target)) == UpdateFromDto(d2, target)
  {
  }

  /** An updated entity is the entity the request maps to, carrying the target's id. */
  lemma UpdateIsToEntityWithId<L>(d: StudentCreateUpdateDto<L>, target: Student<L>)
    ensures UpdateFromDto(d, target) == ToEntity(d).(id := target.id)
  {
  }
}
