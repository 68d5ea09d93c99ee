/**
 * The string helpers of ClausewitzUtils: blankness, quoting, counting a
 * character, and the fragments the writers print.
 */
module ClausewitzUtils {
  import opened Wrappers
  import opened Chars

  const QUOTE: char := '"'

  /** A string is blank when every character is whitespace (the empty string included). */
  predicate Blank(s: string)
  {
    forall i :: 0 <= i < |s| ==> IsWhitespace(s[i])
  }

  /** isBlank: scans for a character that is not whitespace. */
  method IsBlank(s: string) returns (r: bool)
    ensures r <==> Blank(s)
  {
    if |s| == 0 {
      return true;
    }
    var i := 0;
    while i < |s|
      invariant 0 <= i <= |s|
      invariant forall k :: 0 <= k < i ==> IsWhitespace(s[k])
    {
      if !IsWhitespace(s[i]) {
        return false;
      }
      i := i + 1;
    }
    return true;
  }

  method IsNotBlank(s: string) returns (r: bool)
    ensures r <==> exists i :: 0 <= i < |s| && !IsWhitespace(s[i])
  {
    var blank := IsBlank(s);
    r := !blank;
  }

  /** hasQuotes: the first and the last character are both a double quote
    * (charAt(0) raises on the empty string, hence the precondition). */
  predicate HasQuotes(s: string)
    requires |s| >= 1
  {
    s[0] == QUOTE && s[|s| - 1] == QUOTE
  }

  /** addQuotes: null for the empty string, otherwise s with a quote added at
    * each end that lacks one. */
  function AddQuotes(s: string): (r: Option<string>)
    ensures r.None? <==> s == []
    ensures r.Some? ==> |r.value| >= 1 && HasQuotes(r.value)
    ensures r.Some? ==> exists pre, post ::
      (|pre| <= 1 && |post| <= 1 && r.value == pre + s + post
       && (pre == [] <==> s[0] == QUOTE))
  {
    if |s| < 1 then None
    else
      var t := if s[0] != QUOTE then [QUOTE] + s else s;
      var u := if t[|t| - 1] != QUOTE then t + [QUOTE] else t;
      assert u == (if s[0] != QUOTE then [QUOTE] else []) + s + (if t[|t| - 1] != QUOTE then [QUOTE] else []);
      Some(u)
  }

  /** removeQuotes: drops a leading quote, then a trailing quote of what is
    * left (charAt(0) raises on the empty string, hence the precondition). */
  function RemoveQuotes(s: string): (r: string)
    requires |s| >= 1
    ensures |s| - 2 <= |r| <= |s|
    ensures s[0] != QUOTE && s[|s| - 1] != QUOTE ==> r == s
    ensures HasQuotes(s) && |s| >= 2 ==> r == s[1..|s| - 1]
  {
    var t := if s[0] == QUOTE then s[1..] else s;
    if |t| >= 1 && t[|t| - 1] == QUOTE then t[..|t| - 1] else t
  }

  /** Quoting and unquoting are inverse on strings that carry no quote at either end. */
  lemma RemoveQuotesOfAddQuotes(s: string)
    requires |s| >= 1 && s[0] != QUOTE && s[|s| - 1] != QUOTE
    ensures AddQuotes(s) == Some([QUOTE] + s + [QUOTE])
    ensures RemoveQuotes(AddQuotes(s).value) == s
  {
    var q := [QUOTE] + s + [QUOTE];
    assert q[1..|q| - 1] == s;
  }

  /** A quoted string is left as it is by addQuotes. */
  lemma AddQuotesOfQuoted(s: string)
    requires |s| >= 1 && HasQuotes(s)
    ensures AddQuotes(s) == Some(s)
  {
  }

  /** The number of occurrences of c in s. */
  function Count(s: string, c: char): nat
  {
    if s == [] then 0 else Count(s[..|s| - 1], c) + (if s[|s| - 1] == c then 1 else 0)
  }

  lemma {:induction false} CountPrefix(s: string, c: char, i: nat)
    requires i <= |s|
    ensures Count(s[..i], c) <= Count(s, c)
  {
    if i < |s| {
      CountPrefix(s[..|s| - 1], c, i);
      assert s[..|s| - 1][..i] == s[..i];
    } else {
      assert s[..i] == s;
    }
  }

  /** hasAtLeast: counts c and answers true as soon as the count reaches
    * atLeast, so a bound of zero or less is never reached. */
  method HasAtLeast(s: string, c: char, atLeast: int) returns (r: bool)
    ensures r <==> atLeast >= 1 && Count(s, c) >= atLeast
  {
    var count := 0;
    var i := 0;
    while i < |s|
      invariant 0 <= i <= |s|
      invariant count == Count(s[..i], c)
      invariant atLeast < 1 || count < atLeast
    {
      assert s[..i + 1][..i] == s[..i];
      if s[i] == c {
        count := count + 1;
        if count == atLeast {
          CountPrefix(s, c, i + 1);
          return true;
        }
      }
      i := i + 1;
    }
    assert s[..i] == s;
    return false;
  }

  /** hasOnlyOne: stops with false at a second occurrence; true when there was exactly one. */
  method HasOnlyOne(s: string, c: char) returns (r: bool)
    ensures r <==> Count(s, c) == 1
  {
    var count := 0;
    var i := 0;
    while i < |s|
      invariant 0 <= i <= |s|
      invariant count == Count(s[..i], c) && count < 2
    {
      assert s[..i + 1][..i] == s[..i];
      if s[i] == c {
        count := count + 1;
        if count == 2 {
          CountPrefix(s, c, i + 1);
          return false;
        }
      }
      i := i + 1;
    }
    assert s[..i] == s;
    return count != 0;
  }

  /** printTabs: depth tab characters. */
  function Tabs(depth: nat): (t: string)
    ensures |t| == depth && forall i :: 0 <= i < |t| ==> t[i] == '\t'
  {
    seq(depth, _ => '\t')
  }

  const EQUALS: string := "="
  const OPEN: string := "{"
  const CLOSE: string := "}"
  const SPACE: string := " "
  /** printEqualsOpen prints the equals sign and then the opening brace. */
  const EQUALS_OPEN: string := EQUALS + OPEN
}
