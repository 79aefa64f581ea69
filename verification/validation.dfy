/**
 The input rules the two services enforce: Java's notion of a blank string,
 the message-text bound and the password minimum.
 */
module Validation {
  import opened Common

  /** The longest message text the services accept. */
  const MaxTextLength := 255

  /** The shortest password registration accepts. */
  const MinPasswordLength := 4

  /**
   Java's `Character.isWhitespace`: the ASCII controls tab to carriage return
   and the four separators U+001C..U+001F, plus every Unicode space, line or
   paragraph separator except the non-breaking ones (U+00A0, U+2007, U+202F).
   */
  predicate IsWhitespace(c: char)
  {
    || '\U{9}' <= c <= '\U{D}'
    || '\U{1C}' <= c <= '\U{20}'
    || c == '\U{1680}'
    || '\U{2000}' <= c <= '\U{2006}'
    || '\U{2008}' <= c <= '\U{200A}'
    || c == '\U{2028}' || c == '\U{2029}'
    || c == '\U{205F}' || c == '\U{3000}'
  }

  /** The position of the first non-whitespace character, or `|s|` if there is none. */
  function IndexOfNonWhitespace(s: string): (i: nat)
    ensures i <= |s|
    ensures forall j :: 0 <= j < i ==> IsWhitespace(s[j])
    ensures i < |s| ==> !IsWhitespace(s[i])
  {
    if |s| == 0 || !IsWhitespace(s[0]) then 0
    else 1 + IndexOfNonWhitespace(s[1..])
  }

  /** Java's `String.isBlank`: no character is outside the whitespace set. */
  predicate IsBlank(s: string)
  {
    IndexOfNonWhitespace(s) == |s|
  }

  /** A string is blank exactly when every character in it is whitespace; the empty string is blank. */
  lemma BlankIffAllWhitespace(s: string)
    ensures IsBlank(s) <==> forall j :: 0 <= j < |s| ==> IsWhitespace(s[j])
    ensures IsBlank([])
  {
  }

  /** The text may be stored in a message: not blank and at most 255 characters. */
  predicate IsStorableText(t: string)
  {
    !IsBlank(t) && |t| <= MaxTextLength
  }

  /** The text check that both message create and message update make: present, not blank, not too long. */
  predicate AcceptableText(t: Option<string>)
  {
    t.Some? && IsStorableText(t.value)
  }

  /** The username check of registration: present and not blank. */
  predicate AcceptableUsername(u: Option<string>)
  {
    u.Some? && !IsBlank(u.value)
  }

  /** The password check of registration: present and at least four characters. */
  predicate AcceptablePassword(p: Option<string>)
  {
    p.Some? && |p.value| >= MinPasswordLength
  }
}
