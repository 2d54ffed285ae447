/** String predicates shared by the backend queries and the request validation. */
module Text {
  import opened Wrappers

  /** Ordinal substring containment: `s.Contains(sub)` in C#. Collation-dependent
      matching in the database is not modelled; this is exact, case-sensitive matching. */
  predicate Contains(s: string, sub: string) {
    exists i :: 0 <= i <= |s| - |sub| && OccursAt(s, sub, i)
  }

  /** `sub` appears in `s` starting at index `i`. */
  predicate OccursAt(s: string, sub: string, i: int) {
    0 <= i && i + |sub| <= |s| && s[i..i + |sub|] == sub
  }

  /** `string.IsNullOrEmpty` on a nullable string. */
  predicate IsNullOrEmpty(s: Option<string>) {
    s.None? || s.value == ""
  }

  /** The white-space characters of the Latin-1 range, as `char.IsWhiteSpace` classifies them. */
  predicate IsWhiteSpace(c: char) {
    c == ' ' || c == '\t' || c == '\n' || c == '\r' || c == 11 as char || c == 12 as char
    || c == 0x85 as char || c == 0xA0 as char
  }

  /** `string.IsNullOrWhiteSpace`, the test behind the `[Required]` validation attribute. */
  predicate IsBlank(s: string) {
    forall i :: 0 <= i < |s| ==> IsWhiteSpace(s[i])
  }
}
