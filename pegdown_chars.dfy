/** Character classes and small matchers of the host pegdown grammar that the XWiki
    extension rules are built from (Sp, Spn1, Newline, Spacechar, Nonspacechar,
    Alphanumeric). Positions are indices into the input; a matcher returns the
    position just after what it consumed. */
module PegdownChars {

  /** Spacechar: a blank or a tab. */
  predicate IsSpacechar(c: char) { c == ' ' || c == '\t' }

  /** A character that starts a Newline (LF, or CR optionally followed by LF). */
  predicate IsNewlineChar(c: char) { c == '\n' || c == '\r' }

  /** Nonspacechar: any character that is neither a Spacechar nor the start of a Newline. */
  predicate IsNonspacechar(c: char) { !IsSpacechar(c) && !IsNewlineChar(c) }

  /** Alphanumeric: an ASCII letter or digit. */
  predicate IsAlphanumeric(c: char) { ('a' <= c <= 'z') || ('A' <= c <= 'Z') || ('0' <= c <= '9') }

  /** A character allowed in an identifier: alphanumeric, '-' or '_'. */
  predicate IsIdentifierChar(c: char) { IsAlphanumeric(c) || c == '-' || c == '_' }

  /** The literal `lit` occurs in `s` at position `i`. */
  predicate LiteralAt(s: seq<char>, i: nat, lit: seq<char>)
  {
    i + |lit| <= |s| && s[i..i + |lit|] == lit
  }

  /** The end of the longest run of characters satisfying `p` that starts at `i`. */
  function Span(s: seq<char>, i: nat, p: char -> bool): (j: nat)
    requires i <= |s|
    ensures i <= j <= |s|
    ensures forall k :: i <= k < j ==> p(s[k])
    ensures j == |s| || !p(s[j])
    decreases |s| - i
  {
    if i < |s| && p(s[i]) then Span(s, i + 1, p) else i
  }

  /** The run found by Span is determined by its two boundary conditions. */
  lemma {:induction false} SpanIs(s: seq<char>, i: nat, j: nat, p: char -> bool)
    requires i <= j <= |s|
    requires forall k :: i <= k < j ==> p(s[k])
    requires j == |s| || !p(s[j])
    ensures Span(s, i, p) == j
    decreases j - i
  {
    if i < j {
      SpanIs(s, i + 1, j, p);
    }
  }

  /** Sp: zero or more Spacechars. */
  function Sp(s: seq<char>, i: nat): (j: nat)
    requires i <= |s|
    ensures i <= j <= |s|
    ensures forall k :: i <= k < j ==> IsSpacechar(s[k])
    ensures j == |s| || !IsSpacechar(s[j])
  {
    Span(s, i, IsSpacechar)
  }

  /** Skips one line break ("\n", "\r\n" or "\r") at `i` if one is there. */
  function OptionalNewline(s: seq<char>, i: nat): (j: nat)
    requires i <= |s|
    ensures i <= j <= |s| && j <= i + 2
    ensures j == i <==> (i == |s| || !IsNewlineChar(s[i]))
    ensures j == i + 2 ==> s[i] == '\r' && s[i + 1] == '\n'
    ensures j == i + 1 ==> IsNewlineChar(s[i]) && (s[i] == '\r' ==> i + 1 == |s| || s[i + 1] != '\n')
  {
    if i < |s| && s[i] == '\n' then i + 1
    else if i < |s| && s[i] == '\r' then (if i + 1 < |s| && s[i + 1] == '\n' then i + 2 else i + 1)
    else i
  }

  /** Blanks, then optionally one line break followed by more blanks. */
  function Spn1(s: seq<char>, i: nat): (j: nat)
    requires i <= |s|
    ensures i <= j <= |s|
    ensures forall k :: i <= k < j ==> IsSpacechar(s[k]) || IsNewlineChar(s[k])
    ensures j == |s| || !IsSpacechar(s[j])
  {
    Sp(s, OptionalNewline(s, Sp(s, i)))
  }

  /** Spn1 consumes nothing at a character that is neither blank nor a line break. */
  lemma Spn1AtNonspace(s: seq<char>, i: nat)
    requires i <= |s|
    requires i == |s| || IsNonspacechar(s[i])
    ensures Spn1(s, i) == i
  {
    SpanIs(s, i, i, IsSpacechar);
  }

  /** Spn1 consumes exactly one blank in front of a non-blank character. */
  lemma Spn1OneBlank(s: seq<char>, i: nat)
    requires i + 1 <= |s| && s[i] == ' '
    requires i + 1 == |s| || IsNonspacechar(s[i + 1])
    ensures Spn1(s, i) == i + 1
  {
    SpanIs(s, i, i + 1, IsSpacechar);
    SpanIs(s, i + 1, i + 1, IsSpacechar);
  }

  /** Sp consumes exactly one blank in front of a non-blank character. */
  lemma SpOneBlank(s: seq<char>, i: nat)
    requires i + 1 <= |s| && s[i] == ' '
    requires i + 1 == |s| || !IsSpacechar(s[i + 1])
    ensures Sp(s, i) == i + 1
  {
    SpanIs(s, i, i + 1, IsSpacechar);
  }
}
