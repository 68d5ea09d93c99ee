/**
 * The value of a ClausewitzVariable: the text each setValue overload stores,
 * the getAs* conversions that read it back, and equals.
 */
module Variables {
  import opened Wrappers
  import opened Chars
  import opened Numbers
  import opened Dates
  import opened ClausewitzUtils
  import opened Tree

  /** setValue(boolean): "yes" or "no". */
  function BoolText(b: bool): string
  {
    if b then "yes" else "no"
  }

  /** setValue(LocalDate, quotes): the y.M.d text, wrapped in quotes when asked. */
  function DateText(d: Date, quotes: bool): (s: string)
    requires ValidDate(d)
    ensures quotes ==> |s| >= 1 && HasQuotes(s)
    ensures !quotes ==> s == DateToString(d)
  {
    var t := DateToString(d);
    if quotes then AddQuotes(t).value else t
  }

  /** getAsInt: null for a blank value, otherwise Integer.parseInt of the value
    * with its surrounding quotes removed. */
  function GetAsInt(value: string): Outcome<Option<int>>
  {
    if Blank(value) then Ok(None)
    else match ParseInt(RemoveQuotes(value))
      case Ok(x) => Ok(Some(x))
      case Thrown(e) => Thrown(e)
  }

  /** getAsLong: as getAsInt with Long.parseLong. */
  function GetAsLong(value: string): Outcome<Option<int>>
  {
    if Blank(value) then Ok(None)
    else match ParseLong(RemoveQuotes(value))
      case Ok(x) => Ok(Some(x))
      case Thrown(e) => Thrown(e)
  }

  /** getAsBool: null for a blank value, otherwise whether the unquoted value is "yes". */
  function GetAsBool(value: string): Option<bool>
  {
    if Blank(value) then None else Some(RemoveQuotes(value) == "yes")
  }

  /** getAsDate: null for a blank value or one that is not a date once unquoted. */
  function GetAsDate(value: string): Option<Date>
  {
    if Blank(value) then None else ParseDate(RemoveQuotes(value))
  }

  /** Decimal text starts with '-' or a digit and ends with a digit. */
  lemma IntToStringShape(x: int)
    ensures var s := IntToString(x);
      !Blank(s) && s[0] != QUOTE && s[|s| - 1] != QUOTE
  {
    var s := IntToString(x);
    var digits := if x < 0 then NatToString(-x) else NatToString(x);
    assert s[|s| - 1] == digits[|digits| - 1];
    assert IsAsciiDigit(digits[|digits| - 1]);
    assert !IsWhitespace(s[|s| - 1]);
  }

  /** setValue(int) followed by getAsInt gives the number back. */
  lemma GetAsIntOfSetValue(x: int)
    requires IsInt(x)
    ensures GetAsInt(IntToString(x)) == Ok(Some(x))
  {
    IntToStringShape(x);
    ParseIntOfIntToString(x);
  }

  /** setValue(long) followed by getAsLong gives the number back. */
  lemma GetAsLongOfSetValue(x: int)
    requires IsLong(x)
    ensures GetAsLong(IntToString(x)) == Ok(Some(x))
  {
    IntToStringShape(x);
    ParseLongOfIntToString(x);
  }

  /** setValue(boolean) followed by getAsBool gives the flag back, and so does
    * the quoted form of the stored text. */
  lemma GetAsBoolOfSetValue(b: bool)
    ensures GetAsBool(BoolText(b)) == Some(b)
    ensures GetAsBool([QUOTE] + BoolText(b) + [QUOTE]) == Some(b)
  {
    var t := BoolText(b);
    assert !IsWhitespace(t[0]);
    var q := [QUOTE] + t + [QUOTE];
    assert q[1..|q| - 1] == t;
    assert !IsWhitespace(q[0]);
  }

  /** The text of a date of the current era starts and ends with a digit. */
  lemma DateToStringShape(d: Date)
    requires ValidDate(d)
    ensures var s := DateToString(d);
      |s| >= 1 && !Blank(s) && s[0] != QUOTE && s[|s| - 1] != QUOTE
  {
    var s := DateToString(d);
    var ys, ds := NatToString(YearOfEra(d.year)), NatToString(d.day);
    assert s[0] == ys[0] && s[|s| - 1] == ds[|ds| - 1];
    assert IsAsciiDigit(ys[0]) && IsAsciiDigit(ds[|ds| - 1]);
    assert !IsWhitespace(s[0]);
  }

  /** Reading a date back goes through its unquoted text. */
  lemma GetAsDateOfText(s: string, t: string, d: Date)
    requires !Blank(s) && |s| >= 1 && RemoveQuotes(s) == t && ParseDate(t) == Some(d)
    ensures GetAsDate(s) == Some(d)
  {
  }

  /** The quoted date text is the plain text between two quotes. */
  lemma QuotedDateText(d: Date)
    requires ValidDate(d)
    ensures DateText(d, true) == [QUOTE] + DateToString(d) + [QUOTE]
    ensures RemoveQuotes(DateText(d, true)) == DateToString(d)
    ensures !Blank(DateText(d, true))
  {
    DateToStringShape(d);
    RemoveQuotesOfAddQuotes(DateToString(d));
    assert !IsWhitespace(DateText(d, true)[0]);
  }

  /** setValue(date, quotes) followed by getAsDate gives the date back, quoted or not. */
  lemma GetAsDateOfSetValue(d: Date, quotes: bool)
    requires ValidDate(d) && d.year >= 1
    ensures GetAsDate(DateText(d, quotes)) == Some(d)
  {
    DateToStringShape(d);
    ParseDateOfDateToString(d);
    if quotes {
      QuotedDateText(d);
      GetAsDateOfText(DateText(d, true), DateToString(d), d);
    } else {
      GetAsDateOfText(DateToString(d), DateToString(d), d);
    }
  }

  /** The setValue overloads: a text, an int, a long, a boolean, or a date
    * written with or without quotes. */
  datatype Setting =
    | Text(text: string)
    | IntValue(i: int)
    | LongValue(l: int)
    | BoolValue(b: bool)
    | DateValue(d: Date, quotes: bool)

  /** The argument fits the Java parameter type. */
  predicate SettingOk(v: Setting)
  {
    match v
    case IntValue(i) => IsInt(i)
    case LongValue(l) => IsLong(l)
    case DateValue(d, _) => ValidDate(d)
    case _ => true
  }

  /** The text each setValue overload stores. */
  function SettingText(v: Setting): string
    requires SettingOk(v)
  {
    match v
    case Text(t) => t
    case IntValue(i) => IntToString(i)
    case LongValue(l) => IntToString(l)
    case BoolValue(b) => BoolText(b)
    case DateValue(d, quotes) => DateText(d, quotes)
  }

  /** The stored text gives the argument back through the matching getAs*
    * accessor (for dates of the current era, the ones y.M.d text can hold). */
  predicate ReadsBack(text: string, v: Setting)
  {
    match v
    case Text(t) => text == t
    case IntValue(i) => GetAsInt(text) == Ok(Some(i))
    case LongValue(l) => GetAsLong(text) == Ok(Some(l))
    case BoolValue(b) => GetAsBool(text) == Some(b)
    case DateValue(d, _) => d.year >= 1 ==> GetAsDate(text) == Some(d)
  }

  /** Every setValue overload is undone by its getter. */
  lemma SettingReadsBack(v: Setting)
    requires SettingOk(v)
    ensures ReadsBack(SettingText(v), v)
  {
    match v
    case Text(_) =>
    case IntValue(i) => GetAsIntOfSetValue(i);
    case LongValue(l) => GetAsLongOfSetValue(l);
    case BoolValue(b) => GetAsBoolOfSetValue(b);
    case DateValue(d, quotes) =>
      if d.year >= 1 {
        GetAsDateOfSetValue(d, quotes);
      }
  }

  /** ClausewitzVariable.equals on two nodes: the same object, or two variables
    * whose names are equal ignoring case and whose values are equal. */
  predicate VariableEquals(nodes: seq<Node>, x: Id, y: Id)
  {
    x == y
    || (x < |nodes| && y < |nodes| && nodes[x].VariableNode? && nodes[y].VariableNode?
        && EqualsIgnoreCase(nodes[x].name, nodes[y].name) && nodes[x].value == nodes[y].value)
  }

  /** ClausewitzVariable.equals is an equivalence: reflexive, symmetric and
    * transitive; two different nodes are equal exactly when both are
    * variables whose names have the same lower-case form and whose values
    * are the same. */
  lemma VariableEqualsSpec(nodes: seq<Node>, x: Id, y: Id, z: Id)
    ensures VariableEquals(nodes, x, x)
    ensures VariableEquals(nodes, x, y) <==> VariableEquals(nodes, y, x)
    ensures VariableEquals(nodes, x, y) && VariableEquals(nodes, y, z) ==> VariableEquals(nodes, x, z)
    ensures x != y ==>
      (VariableEquals(nodes, x, y)
       <==> x < |nodes| && y < |nodes| && nodes[x].VariableNode? && nodes[y].VariableNode?
            && ToLowerCase(nodes[x].name) == ToLowerCase(nodes[y].name) && nodes[x].value == nodes[y].value)
  {
    if x < |nodes| && y < |nodes| {
      EqualsIgnoreCaseLower(nodes[x].name, nodes[y].name);
    }
    if y < |nodes| && z < |nodes| {
      EqualsIgnoreCaseLower(nodes[y].name, nodes[z].name);
    }
    if x < |nodes| && z < |nodes| {
      EqualsIgnoreCaseLower(nodes[x].name, nodes[z].name);
    }
  }

  /** equals ignores the case of names but not of values. */
  lemma VariableEqualsCases(nodes: seq<Node>)
    requires |nodes| == 3
    requires nodes[0] == VariableNode("Tag", 0, "yes")
    requires nodes[1] == VariableNode("tag", 1, "yes")
    requires nodes[2] == VariableNode("tag", 2, "YES")
    ensures VariableEquals(nodes, 0, 1) && !VariableEquals(nodes, 1, 2)
  {
    assert CharEqualsIgnoreCase('T', 't');
  }
}
