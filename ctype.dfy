/**
 * Character classes of the C locale and NUL-terminated strings.
 * A C string is modelled by the characters before its terminator; reading
 * at or past the end yields the terminator, as `*line` does in C.
 */
module CType {
  /** A string that, like a C string, holds no NUL before its terminator. */
  type CString = s: string | '\0' !in s

  /** `isdigit` */
  predicate IsDigit(c: char) { '0' <= c <= '9' }

  /** `isalpha` */
  predicate IsAlpha(c: char) { 'A' <= c <= 'Z' || 'a' <= c <= 'z' }

  /** `isspace`: blank, tab, newline, vertical tab, form feed, carriage return. */
  predicate IsSpace(c: char) { c == ' ' || '\t' <= c <= '\r' }

  /** The character at position `i`, or the terminator at and past the end. */
  function At(s: string, i: nat): char
  {
    if i < |s| then s[i] else '\0'
  }

  datatype Class = Alpha | Digit | Space

  predicate In(c: char, k: Class)
  {
    match k
    case Alpha => IsAlpha(c)
    case Digit => IsDigit(c)
    case Space => IsSpace(c)
  }

  /** The end of the longest run of class `k` that starts at `i`. */
  function SpanEnd(s: string, i: nat, k: Class): (e: nat)
    requires i <= |s|
    ensures i <= e <= |s|
    ensures i < e ==> In(s[i], k) && In(s[e - 1], k)
    ensures !In(At(s, e), k)
    decreases |s| - i
  {
    if i < |s| && In(s[i], k) then SpanEnd(s, i + 1, k) else i
  }

  /** A run of class `k` is ended by exactly one position. */
  lemma {:induction false} SpanEndUnique(s: string, i: nat, e: nat, k: Class)
    requires i <= e <= |s|
    requires forall j :: i <= j < e ==> In(s[j], k)
    requires !In(At(s, e), k)
    ensures SpanEnd(s, i, k) == e
    decreases e - i
  {
    if i < e {
      SpanEndUnique(s, i + 1, e, k);
    }
  }

  /** Every character of the run belongs to class `k`. */
  lemma {:induction false} SpanEndRun(s: string, i: nat, k: Class)
    requires i <= |s|
    ensures forall j :: i <= j < SpanEnd(s, i, k) ==> In(s[j], k)
    decreases |s| - i
  {
    if i < |s| && In(s[i], k) {
      SpanEndRun(s, i + 1, k);
    }
  }

  /** The terminator belongs to no class. */
  lemma NulInNoClass(k: Class)
    ensures !In('\0', k)
  {
  }
}
