/** Character classes and line ends of Python's strings. */
module Text {
  /** Python's str.isspace. */
  predicate IsSpace(c: char) {
    var n := c as int;
    || 0x9 <= n <= 0xD || 0x1C <= n <= 0x20 || n == 0x85 || n == 0xA0 || n == 0x1680
    || 0x2000 <= n <= 0x200A || 0x2028 <= n <= 0x2029 || n == 0x202F || n == 0x205F || n == 0x3000
  }

  predicate IsJavaBreak(c: char) { c == '\n' || c == '\r' }

  /** The characters at which Python's splitlines ends a line. */
  predicate IsPythonBreak(c: char) {
    IsJavaBreak(c) || c as int in {0xB, 0xC, 0x1C, 0x1D, 0x1E, 0x85, 0x2028, 0x2029}
  }

  /** Behind the line break at `n`; CR and LF together are one. */
  function Behind(text: string, n: nat): (r: nat)
    requires n < |text|
    ensures n < r <= |text|
  {
    if text[n] == '\r' && n + 1 < |text| && text[n + 1] == '\n' then n + 2 else n + 1
  }

  /** The white space of Python's strings, one by one. */
  lemma SpaceTable(c: char)
    ensures IsSpace(c) <==> c in {
              '\t', '\n', '\U{000B}', '\U{000C}', '\r', '\U{001C}', '\U{001D}', '\U{001E}', '\U{001F}', ' ', '\U{0085}', '\U{00A0}',
              '\U{1680}', '\U{2000}', '\U{2001}', '\U{2002}', '\U{2003}', '\U{2004}', '\U{2005}', '\U{2006}', '\U{2007}', '\U{2008}',
              '\U{2009}', '\U{200A}', '\U{2028}', '\U{2029}', '\U{202F}', '\U{205F}', '\U{3000}'}
  {
  }

  /** The line ends of Python's strings, one by one. */
  lemma BreakTable(c: char)
    ensures IsPythonBreak(c) <==> c in {
              '\n', '\r', '\U{000B}', '\U{000C}', '\U{001C}', '\U{001D}', '\U{001E}', '\U{0085}', '\U{2028}', '\U{2029}'}
  {
  }
}
