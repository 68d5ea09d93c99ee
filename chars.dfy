/**
 * The character classes of java.lang.Character and the String methods
 * (trim, equalsIgnoreCase, toLowerCase) that the library relies on.
 */
module Chars {
  /** Character.isWhitespace: the space separators other than the no-break
    * spaces, the line and paragraph separators, and U+0009..U+000D, U+001C..U+001F. */
  predicate IsWhitespace(c: char)
  {
    (9 <= c as int <= 13) || (28 <= c as int <= 32)
    || c as int == 0x1680
    || (0x2000 <= c as int <= 0x2006) || (0x2008 <= c as int <= 0x200A)
    || c as int == 0x2028 || c as int == 0x2029 || c as int == 0x205F || c as int == 0x3000
  }

  predicate IsAsciiDigit(c: char) { '0' <= c <= '9' }

  /** Character.isLetterOrDigit on the Latin-1 range (what an ISO-8859-1
    * decoded file contains); characters above U+00FF count as neither. */
  predicate IsLetterOrDigit(c: char)
  {
    IsAsciiDigit(c) || ('A' <= c <= 'Z') || ('a' <= c <= 'z')
    || c as int == 0xAA || c as int == 0xB5 || c as int == 0xBA
    || (0xC0 <= c as int <= 0xFF && c as int != 0xD7 && c as int != 0xF7)
  }

  /** Character.toUpperCase on ASCII and Latin-1 letters; identity elsewhere. */
  function ToUpper(c: char): (u: char)
    ensures 'a' <= c <= 'z' ==> 'A' <= u <= 'Z'
    ensures !('a' <= c <= 'z') && !(0xE0 <= c as int <= 0xFE && c as int != 0xF7) ==> u == c
  {
    if 'a' <= c <= 'z' then (c as int - 32) as char
    else if 0xE0 <= c as int <= 0xFE && c as int != 0xF7 then (c as int - 32) as char
    else c
  }

  /** Character.toLowerCase on ASCII and Latin-1 letters; identity elsewhere. */
  function ToLower(c: char): (l: char)
    ensures 'A' <= c <= 'Z' ==> 'a' <= l <= 'z'
    ensures !('A' <= c <= 'Z') && !(0xC0 <= c as int <= 0xDE && c as int != 0xD7) ==> l == c
  {
    if 'A' <= c <= 'Z' then (c as int + 32) as char
    else if 0xC0 <= c as int <= 0xDE && c as int != 0xD7 then (c as int + 32) as char
    else c
  }

  /** The per-character test of String.equalsIgnoreCase. */
  predicate CharEqualsIgnoreCase(a: char, b: char)
  {
    a == b || ToUpper(a) == ToUpper(b) || ToLower(ToUpper(a)) == ToLower(ToUpper(b))
  }

  /** String.equalsIgnoreCase. */
  predicate EqualsIgnoreCase(a: string, b: string)
  {
    |a| == |b| && forall i :: 0 <= i < |a| ==> CharEqualsIgnoreCase(a[i], b[i])
  }

  /** String.toLowerCase, character by character. */
  function ToLowerCase(s: string): (r: string)
    ensures |r| == |s| && forall i :: 0 <= i < |s| ==> r[i] == ToLower(s[i])
  {
    seq(|s|, i requires 0 <= i < |s| => ToLower(s[i]))
  }

  /** Folding a character up and then down is folding it down. */
  lemma LowerOfUpper(c: char)
    ensures ToLower(ToUpper(c)) == ToLower(c)
  {
  }

  /** equalsIgnoreCase holds exactly when the two lower-case forms are equal;
    * it is therefore symmetric. */
  lemma EqualsIgnoreCaseLower(a: string, b: string)
    ensures EqualsIgnoreCase(a, b) <==> ToLowerCase(a) == ToLowerCase(b)
    ensures EqualsIgnoreCase(a, b) <==> EqualsIgnoreCase(b, a)
  {
    forall c: char
      ensures ToLower(ToUpper(c)) == ToLower(c)
    {
      LowerOfUpper(c);
    }
    if ToLowerCase(a) == ToLowerCase(b) {
      forall i | 0 <= i < |a|
        ensures CharEqualsIgnoreCase(a[i], b[i])
      {
        assert ToLowerCase(a)[i] == ToLowerCase(b)[i];
      }
    }
    if EqualsIgnoreCase(a, b) {
      forall i | 0 <= i < |a|
        ensures ToLowerCase(a)[i] == ToLowerCase(b)[i]
      {
        assert CharEqualsIgnoreCase(a[i], b[i]);
      }
    }
  }

  /** String.trim drops every leading and trailing character at or below U+0020. */
  predicate Trimmable(c: char) { c <= ' ' }

  function TrimStart(s: string): (r: string)
    ensures |r| <= |s| && r == s[|s| - |r|..]
    ensures r == [] || !Trimmable(r[0])
    ensures forall i :: 0 <= i < |s| - |r| ==> Trimmable(s[i])
  {
    if s == [] || !Trimmable(s[0]) then s else TrimStart(s[1..])
  }

  function TrimEnd(s: string): (r: string)
    ensures |r| <= |s| && r == s[..|r|]
    ensures r == [] || !Trimmable(r[|r| - 1])
    ensures forall i :: |r| <= i < |s| ==> Trimmable(s[i])
  {
    if s == [] || !Trimmable(s[|s| - 1]) then s else TrimEnd(s[..|s| - 1])
  }

  /** String.trim: the longest infix of s whose ends are both above U+0020. */
  function Trim(s: string): (r: string)
  {
    TrimEnd(TrimStart(s))
  }

  /** Where trim cuts: everything before a and from b on is trimmable, and
    * what is kept is s[a..b]. */
  lemma TrimBounds(s: string) returns (a: nat, b: nat)
    ensures a <= b <= |s| && Trim(s) == s[a..b]
    ensures forall i :: 0 <= i < a ==> Trimmable(s[i])
    ensures forall i :: b <= i < |s| ==> Trimmable(s[i])
  {
    var t := TrimStart(s);
    a := |s| - |t|;
    var r := TrimEnd(t);
    b := a + |r|;
    forall i | b <= i < |s| ensures Trimmable(s[i]) {
      assert s[i] == t[i - a];
    }
  }

  /** trim keeps no trimmable character at either end. */
  lemma TrimEnds(s: string)
    ensures Trim(s) == [] || (!Trimmable(Trim(s)[0]) && !Trimmable(Trim(s)[|Trim(s)| - 1]))
  {
    var t := TrimStart(s);
    var r := TrimEnd(t);
    assert r != [] ==> r[0] == t[0];
  }

  /** What trim keeps: an infix of s with no trimmable character at either end,
    * everything cut off being trimmable. */
  lemma TrimIsInfix(s: string)
    ensures exists a, b ::
      (0 <= a <= b <= |s| && Trim(s) == s[a..b]
       && (forall i :: 0 <= i < a ==> Trimmable(s[i]))
       && (forall i :: b <= i < |s| ==> Trimmable(s[i])))
    ensures Trim(s) == [] || (!Trimmable(Trim(s)[0]) && !Trimmable(Trim(s)[|Trim(s)| - 1]))
  {
    var a, b := TrimBounds(s);
    TrimEnds(s);
  }
}
