/**
 * Python's `str.strip()` with no argument, as used by the task-title guards:
 * it removes leading and trailing whitespace, and a title is rejected when
 * nothing is left.
 */
module Text {

  /** The characters for which Python's `str.isspace()` holds, which are the
      characters `str.strip()` removes when called without an argument. */
  predicate IsSpace(c: char) {
    || ('\t' <= c <= '\r')                // TAB, LF, VT, FF, CR
    || ('\U{1C}' <= c <= '\U{1F}')        // file, group, record, unit separators
    || c == ' '
    || c == '\U{85}'                      // NEXT LINE
    || c == '\U{A0}'                      // NO-BREAK SPACE
    || c == '\U{1680}'                    // OGHAM SPACE MARK
    || ('\U{2000}' <= c <= '\U{200A}')    // EN QUAD .. HAIR SPACE
    || c == '\U{2028}' || c == '\U{2029}' // LINE and PARAGRAPH SEPARATOR
    || c == '\U{202F}' || c == '\U{205F}' || c == '\U{3000}'
  }

  /** The edges of that set: of printable ASCII only the space is whitespace;
      the no-break and ideographic spaces are, while the zero-width space, the
      Mongolian vowel separator and the byte-order mark are not. */
  lemma IsSpaceFacts()
    ensures forall c: char :: ' ' < c <= '~' ==> !IsSpace(c)
    ensures IsSpace(' ') && IsSpace('\n') && IsSpace('\U{A0}') && IsSpace('\U{3000}')
    ensures !IsSpace('\U{200B}') && !IsSpace('\U{180E}') && !IsSpace('\U{FEFF}')
    ensures !IsSpace('\U{0}') && !IsSpace('\U{7F}')
  {
  }

  /** Reference meaning of "blank": every character is whitespace. */
  ghost predicate IsBlank(s: string) {
    forall i :: 0 <= i < |s| ==> IsSpace(s[i])
  }

  /** Drops the leading whitespace of `s`. */
  function TrimStart(s: string): (r: string)
    ensures |r| <= |s| && r == s[|s| - |r|..]
    ensures forall i :: 0 <= i < |s| - |r| ==> IsSpace(s[i])
    ensures r == [] || !IsSpace(r[0])
  {
    if s != [] && IsSpace(s[0]) then TrimStart(s[1..]) else s
  }

  /** Drops the trailing whitespace of `s`. */
  function TrimEnd(s: string): (r: string)
    ensures |r| <= |s| && r == s[..|r|]
    ensures forall i :: |r| <= i < |s| ==> IsSpace(s[i])
    ensures r == [] || !IsSpace(r[|r| - 1])
  {
    if s != [] && IsSpace(s[|s| - 1]) then TrimEnd(s[..|s| - 1]) else s
  }

  /** `s.strip()`: the slice of `s` left once the whitespace at both ends is
      cut off; what remains neither starts nor ends with whitespace. */
  function Strip(s: string): (r: string)
    ensures var k := |s| - |TrimStart(s)|;
      && k + |r| <= |s| && r == s[k..k + |r|]
      && (forall i :: 0 <= i < k ==> IsSpace(s[i]))
      && (forall i :: k + |r| <= i < |s| ==> IsSpace(s[i]))
    ensures r == [] || (!IsSpace(r[0]) && !IsSpace(r[|r| - 1]))
  {
    TrimEnd(TrimStart(s))
  }

  /** A title passes `if title.strip():` exactly when it is not blank. */
  lemma StripEmptyIffBlank(s: string)
    ensures Strip(s) == [] <==> IsBlank(s)
  {
    var r := Strip(s);
    if r != [] {
      var k := |s| - |TrimStart(s)|;
      assert s[k] == r[0];
    }
  }
}
