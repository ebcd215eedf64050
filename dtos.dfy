/** The two student DTOs and the Bean Validation constraints declared on their fields. Each
    constraint is checked as its standard validator does: `@NotBlank` and `@NotNull` reject `null`,
    while `@Size` and `@Pattern` accept it. */
module Dtos {
  import opened Wrappers
  import opened Text

  /** The record sent back to clients; `id` is read-only and always comes from the store. */
  datatype StudentDto<L> = StudentDto(id: Option<int>, username: Option<string>, level: Option<L>)

  /** The request body of create and update: no id at all. */
  datatype StudentCreateUpdateDto<L> = StudentCreateUpdateDto(username: Option<string>, level: Option<L>)

  /** `@NotBlank`: not null, and not empty after `trim()`. */
  predicate NotBlankOk(u: Option<string>)
  {
    u.Some? && NotBlank(u.value)
  }

  /** `@Size(min, max)`: the `length()` (UTF-16 code units) of a non-null string lies in range. */
  predicate SizeOk(u: Option<string>, min: nat, max: nat)
  {
    u.None? || min <= Utf16Length(u.value) <= max
  }

  /** A character of the class `[a-zA-Z0-9_.-]`. */
  predicate UsernameChar(c: char)
  {
    ('a' <= c <= 'z') || ('A' <= c <= 'Z') || ('0' <= c <= '9') || c == '_' || c == '.' || c == '-'
  }

  /** `@Pattern("^[a-zA-Z0-9_.-]+$")`: the whole non-null string is one or more class characters. */
  predicate PatternOk(u: Option<string>)
  {
    u.None? || (|u.value| >= 1 && forall i :: 0 <= i < |u.value| ==> UsernameChar(u.value[i]))
  }

  /** The constraints of the create/update request body. */
  predicate ValidCreateUpdate<L>(d: StudentCreateUpdateDto<L>)
  {
    NotBlankOk(d.username) && SizeOk(d.username, 3, 20) && d.level.Some?
  }

  /** The constraints declared on the output DTO. */
  predicate ValidStudentDto<L>(d: StudentDto<L>)
  {
    NotBlankOk(d.username) && SizeOk(d.username, 3, 50) && PatternOk(d.username) && d.level.Some?
  }

  /** A request body is valid exactly when the username is present, has a character above U+0020,
      is 3 to 20 UTF-16 units long, and a level is present. No character class is imposed. */
  lemma CreateUpdateValidIff<L>(d: StudentCreateUpdateDto<L>)
    ensures ValidCreateUpdate(d) <==>
      && d.username.Some? && d.level.Some?
      && HasVisible(d.username.value)
      && 3 <= Utf16Length(d.username.value) <= 20
  {
    if d.username.Some? {
      NotBlankIffVisible(d.username.value);
    }
  }

  /** On the output DTO, size and pattern already imply `@NotBlank`. */
  lemma PatternAndSizeImplyNotBlank(u: string)
    requires SizeOk(Some(u), 3, 50) && PatternOk(Some(u))
    ensures NotBlankOk(Some(u))
  {
    assert !IsTrimmed(u[0]);
    assert HasVisible(u);
    NotBlankIffVisible(u);
  }

  /** Pattern characters are all single UTF-16 units, so for a pattern-conforming username the
      `@Size` bound counts characters. */
  lemma PatternUsernameLength(u: string)
    requires PatternOk(Some(u))
    ensures Utf16Length(u) == |u|
  {
    Utf16LengthBounds(u);
  }

  /** A name with a space passes the request validator but not the output DTO's pattern. */
  lemma SpaceAllowedOnlyInRequest<L>(l: L)
    ensures ValidCreateUpdate(StudentCreateUpdateDto(Some("a b"), Some(l)))
    ensures !ValidStudentDto(StudentDto(None, Some("a b"), Some(l)))
  {
    assert !IsTrimmed("a b"[0]);
    assert HasVisible("a b");
    NotBlankIffVisible("a b");
    assert !UsernameChar("a b"[1]);
  }

  /** Three blanks have the right length but are rejected by `@NotBlank`; a missing level or
      username is rejected too. */
  lemma BlankOrMissingRejected<L>(l: L)
    ensures Utf16Length("   ") == 3
    ensures !ValidCreateUpdate(StudentCreateUpdateDto(Some("   "), Some(l)))
    ensures !ValidCreateUpdate(StudentCreateUpdateDto(None, Some(l)))
    ensures var noLevel: Option<L> := None; !ValidCreateUpdate(StudentCreateUpdateDto(Some("abc"), noLevel))
  {
    NotBlankIffVisible("   ");
  }

  /** A username the output DTO accepts is accepted by the request validator whenever it also
      fits the request's tighter 20-unit bound. */
  lemma OutputNameFitsRequest<L>(d: StudentDto<L>)
    requires ValidStudentDto(d)
    requires Utf16Length(d.username.value) <= 20
    ensures ValidCreateUpdate(StudentCreateUpdateDto(d.username, d.level))
  {
  }
}
