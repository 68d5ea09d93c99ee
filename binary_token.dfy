/** The BinaryToken enumeration: the fixed two-byte ids of the binary save format. */
module BinaryTokens {
  import opened Wrappers

  datatype BinaryToken =
    | QuotedString
    | NotQuotedString
    | Equals
    | End
    | Open
    | UnsignedInt
    | UnsignedLong
    | Int
    | Bool
    | Float
    | Double
    | Color

  /** getToken: the id of each constant, a Java short. */
  function Token(b: BinaryToken): (t: int)
    ensures -0x8000 <= t < 0x8000
  {
    match b
    case QuotedString => 0x000F
    case NotQuotedString => 0x0017
    case Equals => 0x0001
    case End => 0x0004
    case Open => 0x0003
    case UnsignedInt => 0x0014
    case UnsignedLong => 0x029C
    case Int => 0x000C
    case Bool => 0x000E
    case Float => 0x000D
    case Double => 0x0167
    case Color => 0x0243
  }

  /** values(), in declaration order. */
  const VALUES: seq<BinaryToken> :=
    [QuotedString, NotQuotedString, Equals, End, Open, UnsignedInt, UnsignedLong, Int, Bool, Float, Double, Color]

  /** The map from id to constant is well defined: no two constants share an id
    * (Collectors.toMap would otherwise fail when the enum is initialised). */
  lemma TokensDistinct()
    ensures forall i, j :: 0 <= i < j < |VALUES| ==> Token(VALUES[i]) != Token(VALUES[j])
  {
  }

  lemma ValuesComplete(b: BinaryToken)
    ensures b in VALUES
  {
  }

  /** The first constant of s whose id is t. */
  function Lookup(t: int, s: seq<BinaryToken>): (r: Option<BinaryToken>)
    ensures r.Some? ==> r.value in s && Token(r.value) == t
    ensures r.None? ==> forall b :: b in s ==> Token(b) != t
  {
    if s == [] then None
    else if Token(s[0]) == t then Some(s[0])
    else Lookup(t, s[1..])
  }

  /** ofToken: the constant with id t, if there is one. */
  function OfToken(t: int): (r: Option<BinaryToken>)
  {
    Lookup(t, VALUES)
  }

  /** ofToken and getToken are inverse: every constant is found by its own id,
    * and an id that is found is the found constant's id. */
  lemma OfTokenRoundTrip(b: BinaryToken, t: int)
    ensures OfToken(Token(b)) == Some(b)
    ensures OfToken(t).Some? ==> Token(OfToken(t).value) == t
    ensures OfToken(t).None? <==> forall c: BinaryToken {:trigger Token(c)} :: Token(c) != t
  {
    ValuesComplete(b);
    TokensDistinct();
    forall c: BinaryToken ensures OfToken(t).None? ==> Token(c) != t {
      ValuesComplete(c);
    }
  }
}
