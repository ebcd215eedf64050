/** The few `java.lang.String` operations the core relies on, over `seq<char>`. */
module Text {

  /** `c` is one of the characters `String.trim` removes (code point at most U+0020). */
  predicate IsTrimmed(c: char)
  {
    c <= ' '
  }

  /** `String.trim`: drops leading and trailing characters at or below U+0020. */
  function Trim(s: string): (r: string)
    ensures |r| <= |s|
    ensures r != [] ==> !IsTrimmed(r[0]) && !IsTrimmed(r[|r| - 1])
    decreases |s|
  {
    if s == [] then []
    else if IsTrimmed(s[0]) then Trim(s[1..])
    else if IsTrimmed(s[|s| - 1]) then Trim(s[..|s| - 1])
    else s
  }

  /** `r` is `s[i..j]`, and everything of `s` outside that slice is trimmable. */
  ghost predicate TrimmedTo(s: string, r: string, i: int, j: int)
  {
    && 0 <= i <= j <= |s| && r == s[i..j]
    && (forall k :: 0 <= k < i ==> IsTrimmed(s[k]))
    && (forall k :: j <= k < |s| ==> IsTrimmed(s[k]))
  }

  /** `trim` keeps one contiguous piece of `s` and removes only trimmable characters around it. */
  lemma {:induction false} TrimIsInfix(s: string)
    ensures exists i, j :: TrimmedTo(s, Trim(s), i, j)
    decreases |s|
  {
    if s == [] {
      assert TrimmedTo(s, Trim(s), 0, 0);
    } else if IsTrimmed(s[0]) {
      TrimIsInfix(s[1..]);
      var i, j :| TrimmedTo(s[1..], Trim(s[1..]), i, j);
      TrimmedDropFirst(s, Trim(s), i, j);
    } else if IsTrimmed(s[|s| - 1]) {
      TrimIsInfix(s[..|s| - 1]);
      var i, j :| TrimmedTo(s[..|s| - 1], Trim(s[..|s| - 1]), i, j);
      TrimmedDropLast(s, Trim(s), i, j);
    } else {
      assert TrimmedTo(s, Trim(s), 0, |s|);
    }
  }

  lemma TrimmedDropFirst(s: string, r: string, i: int, j: int)
    requires s != [] && IsTrimmed(s[0]) && TrimmedTo(s[1..], r, i, j)
    ensures TrimmedTo(s, r, i + 1, j + 1)
  {
    assert forall k :: 0 < k < |s| ==> s[k] == s[1..][k - 1];
    assert s[1..][i..j] == s[i + 1..j + 1];
  }

  lemma TrimmedDropLast(s: string, r: string, i: int, j: int)
    requires s != [] && IsTrimmed(s[|s| - 1]) && TrimmedTo(s[..|s| - 1], r, i, j)
    ensures TrimmedTo(s, r, i, j)
  {
    assert forall k :: 0 <= k < |s| - 1 ==> s[k] == s[..|s| - 1][k];
    assert s[..|s| - 1][i..j] == s[i..j];
  }

  /** Bean Validation's `@NotBlank` on a non-null string: `trim().length() > 0`. */
  predicate NotBlank(s: string)
  {
    |Trim(s)| > 0
  }

  /** Some character of `s` lies above U+0020. */
  predicate HasVisible(s: string)
  {
    exists i :: 0 <= i < |s| && !IsTrimmed(s[i])
  }

  /** A string is non-blank exactly when one of its characters lies above U+0020. */
  lemma {:induction false} NotBlankIffVisible(s: string)
    ensures NotBlank(s) <==> HasVisible(s)
    decreases |s|
  {
    if s == [] {
    } else if IsTrimmed(s[0]) {
      NotBlankIffVisible(s[1..]);
      assert forall i :: 0 < i < |s| ==> s[i] == s[1..][i - 1];
      assert HasVisible(s) <==> HasVisible(s[1..]);
    } else if IsTrimmed(s[|s| - 1]) {
      NotBlankIffVisible(s[..|s| - 1]);
      assert !IsTrimmed(s[..|s| - 1][0]);
      assert forall i :: 0 <= i < |s| - 1 ==> s[..|s| - 1][i] == s[i];
      assert HasVisible(s) <==> HasVisible(s[..|s| - 1]);
    } else {
      assert !IsTrimmed(s[0]);
    }
  }

  /** `String.length()`: the number of UTF-16 code units; a character above U+FFFF takes two. */
  function Utf16Length(s: string): nat
  {
    if s == [] then 0 else (if s[0] as int > 0xFFFF then 2 else 1) + Utf16Length(s[1..])
  }

  /** The UTF-16 length lies between the number of characters and twice that. */
  lemma {:induction false} Utf16LengthBounds(s: string)
    ensures |s| <= Utf16Length(s) <= 2 * |s|
    ensures (forall i :: 0 <= i < |s| ==> s[i] as int <= 0xFFFF) ==> Utf16Length(s) == |s|
  {
    if s != [] {
      Utf16LengthBounds(s[1..]);
      assert forall i :: 0 <= i < |s| - 1 ==> s[1..][i] == s[i + 1];
    }
  }

  /** Lower-casing of one character; only the ASCII letters `A`-`Z` are folded. */
  function LowerChar(c: char): char
  {
    if 'A' <= c <= 'Z' then (c as int + ('a' as int - 'A' as int)) as char else c
  }

  /** `String.toLowerCase` / SQL `LOWER`, restricted to ASCII folding. */
  function ToLower(s: string): (r: string)
    ensures |r| == |s|
    ensures forall i :: 0 <= i < |s| ==> r[i] == LowerChar(s[i])
  {
    if s == [] then [] else [LowerChar(s[0])] + ToLower(s[1..])
  }

  /** `p` is a prefix of `s`. */
  predicate StartsWith(s: string, p: string)
  {
    |p| <= |s| && s[..|p|] == p
  }

  /** `s.contains(t)`: `t` occurs in `s` as a contiguous substring. */
  predicate Contains(s: string, t: string)
    decreases |s|
  {
    StartsWith(s, t) || (s != [] && Contains(s[1..], t))
  }

  /** `t` occurs in `s` starting at index `i`. */
  predicate OccursAt(s: string, t: string, i: int)
  {
    0 <= i && i + |t| <= |s| && s[i..i + |t|] == t
  }

  /** `Contains` agrees with the textbook definition: `t` occurs at some index of `s`. */
  lemma {:induction false} ContainsIffOccurs(s: string, t: string)
    ensures Contains(s, t) <==> exists i :: OccursAt(s, t, i)
    decreases |s|
  {
    if s != [] {
      ContainsIffOccurs(s[1..], t);
      if StartsWith(s, t) {
        assert OccursAt(s, t, 0);
      }
      if Contains(s[1..], t) {
        var i :| OccursAt(s[1..], t, i);
        assert s[i + 1..i + 1 + |t|] == s[1..][i..i + |t|];
        assert OccursAt(s, t, i + 1);
      }
      if exists i :: OccursAt(s, t, i) {
        var i :| OccursAt(s, t, i);
        if i > 0 {
          assert s[1..][i - 1..i - 1 + |t|] == s[i..i + |t|];
          assert OccursAt(s[1..], t, i - 1);
        }
      }
    } else {
      if exists i :: OccursAt(s, t, i) {
        var i :| OccursAt(s, t, i);
        assert t == [] && StartsWith(s, t);
      }
      if Contains(s, t) {
        assert OccursAt(s, t, 0);
      }
    }
  }

  /** Every string contains the empty string, so `LIKE '%%'` matches everything. */
  lemma ContainsEmpty(s: string)
    ensures Contains(s, [])
  {
  }
}
