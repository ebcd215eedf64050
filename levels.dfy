/** The student level enum. Its constants are not part of this model, so the level type stays a
    type parameter `L`, seen through the two operations every Java enum has: `name()` and
    `valueOf(String)` (which throws for an unknown label; `None` here). */
module Levels {
  import opened Wrappers

  /** `name` and `valueOf` behave as they do on a Java enum: `valueOf` undoes `name`, and
      it only succeeds on labels that are the name of the constant it returns. */
  ghost predicate IsEnum<L(!new)>(name: L -> string, valueOf: string -> Option<L>)
  {
    && (forall l :: valueOf(name(l)) == Some(l))
    && (forall s :: valueOf(s).Some? ==> name(valueOf(s).value) == s)
  }

  /** On an enum, `valueOf(s)` returns `l` exactly when `s` is `l.name()`. */
  lemma ValueOfIffName<L(!new)>(name: L -> string, valueOf: string -> Option<L>, s: string, l: L)
    requires IsEnum(name, valueOf)
    ensures valueOf(s) == Some(l) <==> name(l) == s
  {
  }

  /** Distinct constants have distinct names. */
  lemma NameInjective<L(!new)>(name: L -> string, valueOf: string -> Option<L>, a: L, b: L)
    requires IsEnum(name, valueOf)
    ensures name(a) == name(b) ==> a == b
  {
    assert valueOf(name(a)) == Some(a) && valueOf(name(b)) == Some(b);
  }
}
