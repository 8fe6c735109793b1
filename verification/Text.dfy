/** What `str::trim` takes off. */
module Text {
  predicate IsWhitespace(c: char) {
    var u := c as int;
    || 0x09 <= u <= 0x0D || u == 0x20 || u == 0x85 || u == 0xA0 || u == 0x1680 || 0x2000 <= u <= 0x200A
    || u == 0x2028 || u == 0x2029 || u == 0x202F || u == 0x205F || u == 0x3000
  }

  /** The code points with the Unicode property `White_Space`. */
  const WHITE_SPACE: set<int> := {
    0x0009, 0x000A, 0x000B, 0x000C, 0x000D, 0x0020, 0x0085, 0x00A0, 0x1680, 0x2000, 0x2001, 0x2002, 0x2003,
    0x2004, 0x2005, 0x2006, 0x2007, 0x2008, 0x2009, 0x200A, 0x2028, 0x2029, 0x202F, 0x205F, 0x3000
  }

  predicate IsBlank(s: string) {
    forall i | 0 <= i < |s| :: IsWhitespace(s[i])
  }

  lemma WhitespaceIff(c: char)
    ensures IsWhitespace(c) <==> c as int in WHITE_SPACE
  {
  }

  /** A text is blank iff it holds nothing but white space. */
  lemma BlankIff(s: string)
    ensures IsBlank(s) <==> forall i | 0 <= i < |s| :: s[i] as int in WHITE_SPACE
  {
    forall i | 0 <= i < |s| ensures IsWhitespace(s[i]) <==> s[i] as int in WHITE_SPACE {
      WhitespaceIff(s[i]);
    }
  }
}
