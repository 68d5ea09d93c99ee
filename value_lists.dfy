/**
 * The values of a ClausewitzList: a list of strings allocated on the first
 * write, with add / addAll / set / setAll / change / remove* / clear and the
 * read-only get / getAs* / size / indexOf / contains / getValues / isEmpty,
 * and ClausewitzList.equals.
 */
module ValueLists {
  import opened Wrappers
  import opened Chars
  import opened Numbers
  import opened Dates
  import opened ClausewitzUtils
  import opened Variables

  /** The values field: `created` is false while the Java field is still null. */
  datatype Values = Values(created: bool, items: seq<string>)

  const NoValues: Values := Values(false, [])

  /** A null list holds nothing. */
  predicate ValuesWF(v: Values)
  {
    !v.created ==> v.items == []
  }

  /** The new values and what the call returned or raised. */
  datatype Applied<T> = Applied(values: Values, out: Outcome<T>)

  // ---------------------------------------------------------------------
  // Reading

  /** get(id): null for a negative index, a null list or an index past the end. */
  function Get(v: Values, id: int): (r: Option<string>)
    ensures r.Some? <==> v.created && 0 <= id < |v.items|
    ensures r.Some? ==> r.value == v.items[id]
  {
    if id < 0 || !v.created || id >= |v.items| then None else Some(v.items[id])
  }

  /** size(): 0 for a null list. */
  function Size(v: Values): nat
  {
    if v.created then |v.items| else 0
  }

  /** The position of the first element exactly equal to s, -1 without one. */
  function IndexIn(items: seq<string>, s: string): (r: int)
    ensures -1 <= r < |items|
    ensures r == -1 <==> s !in items
    ensures r >= 0 ==> items[r] == s && forall j :: 0 <= j < r ==> items[j] != s
  {
    if items == [] then -1
    else if items[0] == s then 0
    else
      var r := IndexIn(items[1..], s);
      if r == -1 then -1 else r + 1
  }

  /** indexOf(val): List.indexOf, -1 for a null list. */
  function IndexOf(v: Values, s: string): int
  {
    if v.created then IndexIn(v.items, s) else -1
  }

  /** contains(val): exact, case-sensitive membership. */
  predicate Contains(v: Values, s: string)
  {
    v.created && s in v.items
  }

  /** isEmpty() */
  predicate IsEmpty(v: Values)
  {
    !v.created || v.items == []
  }

  /** getValues(): a copy of the values, empty for a null list. */
  function GetValues(v: Values): seq<string>
  {
    if v.created then v.items else []
  }

  /** getAsInt(id): null for a missing or blank value, otherwise
    * Integer.parseInt of the value as it is (quotes are not stripped). */
  function GetAsInt(v: Values, id: int): Outcome<Option<int>>
  {
    match Get(v, id)
    case None => Ok(None)
    case Some(s) =>
      if Blank(s) then Ok(None)
      else match ParseInt(s)
        case Ok(x) => Ok(Some(x))
        case Thrown(e) => Thrown(e)
  }

  /** getAsBool(id): null for a missing or blank value, otherwise whether it is "yes". */
  function GetAsBool(v: Values, id: int): Option<bool>
  {
    match Get(v, id)
    case None => None
    case Some(s) => if Blank(s) then None else Some(s == "yes")
  }

  /** getAsDate(id): null for a missing or blank value or one that is not a
    * date once unquoted. */
  function GetAsDate(v: Values, id: int): Option<Date>
  {
    match Get(v, id)
    case None => None
    case Some(s) => if Blank(s) then None else ParseDate(RemoveQuotes(s))
  }

  /** Lookups by index agree with the list: size bounds the indexes that
    * answer, and indexOf and contains agree. */
  lemma ReadSpec(v: Values, id: int, s: string)
    requires ValuesWF(v)
    ensures Get(v, id).Some? <==> 0 <= id < Size(v)
    ensures Contains(v, s) <==> IndexOf(v, s) >= 0
    ensures IndexOf(v, s) >= 0 ==> Get(v, IndexOf(v, s)) == Some(s)
    ensures GetValues(v) == v.items && Size(v) == |v.items|
    ensures IsEmpty(v) <==> Size(v) == 0
  {
  }

  /** getAsBool reads "yes" as true, "no" as false, and anything else
    * non-blank as false. */
  lemma GetAsBoolSpec(v: Values, id: int)
    ensures GetAsBool(v, id).Some? <==> Get(v, id).Some? && !Blank(Get(v, id).value)
    ensures GetAsBool(v, id) == Some(true) <==> Get(v, id) == Some("yes")
  {
    if Get(v, id) == Some("yes") {
      assert !IsWhitespace("yes"[0]);
    }
  }

  // ---------------------------------------------------------------------
  // Adding

  predicate HasSpace(s: string)
  {
    exists i :: 0 <= i < |s| && s[i] == ' '
  }

  /** What add(val) stores: nothing for a blank value; a value holding a
    * space that is not already quoted is wrapped in quotes. */
  function Normalize(s: string): (r: Option<string>)
    ensures r.None? <==> Blank(s)
    ensures r.Some? ==> |r.value| >= 1 && !Blank(r.value)
    ensures r.Some? && !HasSpace(s) ==> r.value == s
    ensures r.Some? && HasQuotes(s) ==> r.value == s
    ensures r.Some? && HasSpace(s) ==> HasQuotes(r.value)
  {
    if Blank(s) then None
    else if HasSpace(s) && !HasQuotes(s) then
      var q := AddQuotes(s).value;
      QuotedNotBlank(q);
      Some(q)
    else Some(s)
  }

  lemma QuotedNotBlank(q: string)
    requires |q| >= 1 && HasQuotes(q)
    ensures !Blank(q)
  {
    assert !IsWhitespace(q[0]);
  }

  /** add(String) */
  function Add(v: Values, s: string): Values
  {
    match Normalize(s)
    case None => v
    case Some(n) => Values(true, v.items + [n])
  }

  /** The values of a sequence that add keeps, each as add stores it. */
  function Normalized(ss: seq<string>): (r: seq<string>)
    ensures |r| <= |ss|
  {
    if ss == [] then []
    else Normalized(ss[..|ss| - 1]) + (match Normalize(ss[|ss| - 1]) case None => [] case Some(n) => [n])
  }

  /** addAll(values): add of each value in turn. */
  function AddAll(v: Values, ss: seq<string>): Values
  {
    if ss == [] then v else Add(AddAll(v, ss[..|ss| - 1]), ss[|ss| - 1])
  }

  /** add(int) / add(boolean) / add(LocalDate) go through add(String) with
    * the decimal text, "yes"/"no" and the y.M.d text. */
  function AddInt(v: Values, x: int): Values { Add(v, IntToString(x)) }

  function AddBool(v: Values, b: bool): Values { Add(v, BoolText(b)) }

  function AddDate(v: Values, d: Date): Values
    requires ValidDate(d)
  {
    Add(v, DateToString(d))
  }

  /** add ignores a blank value and otherwise appends it at the end, quoted
    * when it holds a space; the earlier values do not move. */
  lemma AddSpec(v: Values, s: string)
    requires ValuesWF(v)
    ensures ValuesWF(Add(v, s))
    ensures Blank(s) ==> Add(v, s) == v
    ensures !Blank(s) ==> (Size(Add(v, s)) == Size(v) + 1
      && Get(Add(v, s), Size(v)) == Normalize(s)
      && Contains(Add(v, s), Normalize(s).value))
    ensures forall i :: 0 <= i < Size(v) ==> Get(Add(v, s), i) == Get(v, i)
  {
  }

  /** addAll appends, in order, what add keeps of each value. */
  lemma {:induction false} AddAllSpec(v: Values, ss: seq<string>)
    ensures ValuesWF(v) ==> ValuesWF(AddAll(v, ss))
    ensures AddAll(v, ss).items == v.items + Normalized(ss)
    ensures AddAll(v, ss).created <==> v.created || Normalized(ss) != []
    decreases |ss|
  {
    if ss != [] {
      AddAllSpec(v, ss[..|ss| - 1]);
    }
  }

  /** Every value addAll stores is non-blank. */
  lemma {:induction false} NormalizedNotBlank(ss: seq<string>)
    ensures forall i :: 0 <= i < |Normalized(ss)| ==> !Blank(Normalized(ss)[i])
    decreases |ss|
  {
    if ss != [] {
      NormalizedNotBlank(ss[..|ss| - 1]);
    }
  }

  /** add(int) stores the decimal text, which getAsInt reads back. */
  lemma AddIntSpec(v: Values, x: int)
    requires ValuesWF(v) && IsInt(x)
    ensures AddInt(v, x).items == v.items + [IntToString(x)]
    ensures GetAsInt(AddInt(v, x), Size(v)) == Ok(Some(x))
    ensures Contains(AddInt(v, x), IntToString(x))
  {
    IntToStringShape(x);
    IntToStringHasNoSpace(x);
    ParseIntOfIntToString(x);
  }

  lemma IntToStringHasNoSpace(x: int)
    ensures !HasSpace(IntToString(x))
  {
    var s := IntToString(x);
    var digits := if x < 0 then NatToString(-x) else NatToString(x);
    forall i | 0 <= i < |s|
      ensures s[i] != ' '
    {
      if x < 0 && i > 0 {
        assert s[i] == digits[i - 1];
      } else if x >= 0 {
        assert s[i] == digits[i];
      }
    }
  }

  /** add(boolean) stores yes or no, which getAsBool reads back. */
  lemma AddBoolSpec(v: Values, b: bool)
    requires ValuesWF(v)
    ensures AddBool(v, b).items == v.items + [BoolText(b)]
    ensures GetAsBool(AddBool(v, b), Size(v)) == Some(b)
  {
    var t := BoolText(b);
    assert !IsWhitespace(t[0]);
    assert !HasSpace(t) by {
      forall i | 0 <= i < |t| ensures t[i] != ' ' { }
    }
  }

  // ---------------------------------------------------------------------
  // Removing

  /** The position of the first value equal to s ignoring case. */
  function FirstIgnoreCase(items: seq<string>, s: string): (r: Option<nat>)
    ensures r.Some? ==> r.value < |items| && EqualsIgnoreCase(items[r.value], s)
                        && forall j :: 0 <= j < r.value ==> !EqualsIgnoreCase(items[j], s)
    ensures r.None? ==> forall j :: 0 <= j < |items| ==> !EqualsIgnoreCase(items[j], s)
  {
    if items == [] then None
    else if EqualsIgnoreCase(items[0], s) then Some(0)
    else match FirstIgnoreCase(items[1..], s)
      case None => None
      case Some(i) => Some(i + 1)
  }

  /** The position of the last value equal to s ignoring case. */
  function LastIgnoreCase(items: seq<string>, s: string): (r: Option<nat>)
    ensures r.Some? ==> r.value < |items| && EqualsIgnoreCase(items[r.value], s)
                        && forall j :: r.value < j < |items| ==> !EqualsIgnoreCase(items[j], s)
    ensures r.None? ==> forall j :: 0 <= j < |items| ==> !EqualsIgnoreCase(items[j], s)
  {
    if items == [] then None
    else if EqualsIgnoreCase(items[|items| - 1], s) then Some(|items| - 1)
    else LastIgnoreCase(items[..|items| - 1], s)
  }

  function Delete(items: seq<string>, i: nat): (r: seq<string>)
    requires i < |items|
    ensures |r| == |items| - 1
    ensures forall j :: 0 <= j < i ==> r[j] == items[j]
    ensures forall j :: i <= j < |r| ==> r[j] == items[j + 1]
    ensures multiset(r) + multiset{items[i]} == multiset(items)
  {
    assert items == items[..i] + [items[i]] + items[i + 1..];
    items[..i] + items[i + 1..]
  }

  /** remove(int): false for a null list, List.remove(int) otherwise, which
    * raises for an index outside the list; values are never null, so a
    * removal returns true. */
  function RemoveAt(v: Values, id: int): Applied<bool>
  {
    if !v.created then Applied(v, Ok(false))
    else if id < 0 || id >= |v.items| then Applied(v, Thrown(IndexOutOfBounds))
    else Applied(Values(true, Delete(v.items, id)), Ok(true))
  }

  /** remove(String): removes the first value equal to s ignoring case. */
  function RemoveFirst(v: Values, s: string): Applied<bool>
  {
    if !v.created then Applied(v, Ok(false))
    else match FirstIgnoreCase(v.items, s)
      case None => Applied(v, Ok(false))
      case Some(i) => Applied(Values(true, Delete(v.items, i)), Ok(true))
  }

  /** removeLast(String): removes the last value equal to s ignoring case. */
  function RemoveLast(v: Values, s: string): Applied<bool>
  {
    if !v.created then Applied(v, Ok(false))
    else match LastIgnoreCase(v.items, s)
      case None => Applied(v, Ok(false))
      case Some(i) => Applied(Values(true, Delete(v.items, i)), Ok(true))
  }

  /** The values not equal to s ignoring case, in order. */
  function Unequal(items: seq<string>, s: string): (r: seq<string>)
    ensures |r| <= |items|
  {
    if items == [] then []
    else Unequal(items[..|items| - 1], s) + (if EqualsIgnoreCase(items[|items| - 1], s) then [] else [items[|items| - 1]])
  }

  /** removeAll(String): List.removeIf of every value equal to s ignoring case. */
  function RemoveEvery(v: Values, s: string): Applied<bool>
  {
    if !v.created then Applied(v, Ok(false))
    else
      var kept := Unequal(v.items, s);
      Applied(Values(true, kept), Ok(|kept| != |v.items|))
  }

  /** clear() */
  function Clear(v: Values): (r: Values)
  {
    if v.created then Values(true, []) else v
  }

  /** remove(String) drops exactly the first case-insensitive match and
    * reports whether there was one; the values before it and after it keep
    * their order. */
  lemma RemoveFirstSpec(v: Values, s: string)
    requires ValuesWF(v)
    ensures RemoveFirst(v, s).out == Ok(exists j :: 0 <= j < |v.items| && EqualsIgnoreCase(v.items[j], s))
    ensures RemoveFirst(v, s).out == Ok(true) ==>
      exists i :: 0 <= i < |v.items| && EqualsIgnoreCase(v.items[i], s)
        && (forall j :: 0 <= j < i ==> !EqualsIgnoreCase(v.items[j], s))
        && RemoveFirst(v, s).values.items == v.items[..i] + v.items[i + 1..]
    ensures RemoveFirst(v, s).out == Ok(false) ==> RemoveFirst(v, s).values == v
  {
    var m := FirstIgnoreCase(v.items, s);
    if v.created && m.Some? {
      var i := m.value;
      assert Delete(v.items, i) == v.items[..i] + v.items[i + 1..];
    }
  }

  /** removeLast drops exactly the last case-insensitive match. */
  lemma RemoveLastSpec(v: Values, s: string)
    requires ValuesWF(v)
    ensures RemoveLast(v, s).out == Ok(exists j :: 0 <= j < |v.items| && EqualsIgnoreCase(v.items[j], s))
    ensures RemoveLast(v, s).out == Ok(true) ==>
      exists i :: 0 <= i < |v.items| && EqualsIgnoreCase(v.items[i], s)
        && (forall j :: i < j < |v.items| ==> !EqualsIgnoreCase(v.items[j], s))
        && RemoveLast(v, s).values.items == v.items[..i] + v.items[i + 1..]
    ensures RemoveLast(v, s).out == Ok(false) ==> RemoveLast(v, s).values == v
  {
    var m := LastIgnoreCase(v.items, s);
    if v.created && m.Some? {
      var i := m.value;
      assert Delete(v.items, i) == v.items[..i] + v.items[i + 1..];
    }
  }

  lemma {:induction false} UnequalMembers(items: seq<string>, s: string, x: string)
    ensures x in Unequal(items, s) <==> x in items && !EqualsIgnoreCase(x, s)
    decreases |items|
  {
    if items != [] {
      var front := items[..|items| - 1];
      assert items == front + [items[|items| - 1]];
      UnequalMembers(front, s, x);
    }
  }

  lemma {:induction false} UnequalLength(items: seq<string>, s: string)
    ensures |Unequal(items, s)| == |items| <==> forall j :: 0 <= j < |items| ==> !EqualsIgnoreCase(items[j], s)
    decreases |items|
  {
    if items != [] {
      var front := items[..|items| - 1];
      UnequalLength(front, s);
      assert forall j :: 0 <= j < |front| ==> front[j] == items[j];
    }
  }

  /** removeAll keeps exactly the values that differ from s ignoring case,
    * in order, and reports whether it dropped any. */
  lemma RemoveEverySpec(v: Values, s: string)
    requires ValuesWF(v)
    ensures RemoveEvery(v, s).out == Ok(exists j :: 0 <= j < |v.items| && EqualsIgnoreCase(v.items[j], s))
    ensures forall x :: x in RemoveEvery(v, s).values.items <==> x in v.items && !EqualsIgnoreCase(x, s)
    ensures RemoveEvery(v, s).values.created == v.created
  {
    forall x
      ensures x in RemoveEvery(v, s).values.items <==> x in v.items && !EqualsIgnoreCase(x, s)
    {
      UnequalMembers(v.items, s, x);
    }
    UnequalLength(v.items, s);
  }

  /** remove(int) drops the value at that index; on an allocated list an
    * index outside it raises and changes nothing. */
  lemma RemoveAtSpec(v: Values, id: int)
    requires ValuesWF(v)
    ensures RemoveAt(v, id).out.Ok? ==> ValuesWF(RemoveAt(v, id).values)
    ensures RemoveAt(v, id).out == Ok(true) <==> Get(v, id).Some?
    ensures RemoveAt(v, id).out == Ok(true) ==>
      Size(RemoveAt(v, id).values) == Size(v) - 1
      && multiset(RemoveAt(v, id).values.items) + multiset{v.items[id]} == multiset(v.items)
    ensures RemoveAt(v, id).out.Thrown? <==> v.created && !(0 <= id < |v.items|)
  {
  }

  // ---------------------------------------------------------------------
  // Replacing

  /** set(id, val): nothing for a blank value; otherwise List.set on the
    * (now allocated) list, which raises for an index outside it. */
  function Set(v: Values, id: int, s: string): Applied<()>
  {
    if Blank(s) then Applied(v, Ok(()))
    else if 0 <= id < |v.items| then Applied(Values(true, v.items[id := s]), Ok(()))
    else Applied(Values(true, v.items), Thrown(IndexOutOfBounds))
  }

  /** setAll(values): clear, then addAll. */
  function SetAll(v: Values, ss: seq<string>): Values
  {
    AddAll(Clear(v), ss)
  }

  /** change(previous, newOne): for an allocated list and a non-blank new
    * value, the first value equal to previous ignoring case becomes newOne. */
  function Change(v: Values, prev: string, s: string): Values
  {
    if !v.created || Blank(s) then v
    else match FirstIgnoreCase(v.items, prev)
      case None => v
      case Some(i) => Values(true, v.items[i := s])
  }

  /** set stores the value as given, at its index only. */
  lemma SetSpec(v: Values, id: int, s: string)
    requires ValuesWF(v)
    ensures Blank(s) ==> Set(v, id, s) == Applied(v, Ok(()))
    ensures !Blank(s) && 0 <= id < Size(v) ==>
      Set(v, id, s).out.Ok? && Get(Set(v, id, s).values, id) == Some(s)
      && Size(Set(v, id, s).values) == Size(v)
      && forall j :: 0 <= j < Size(v) && j != id ==> Get(Set(v, id, s).values, j) == Get(v, j)
    ensures !Blank(s) && !(0 <= id < Size(v)) ==> Set(v, id, s).out == Thrown(IndexOutOfBounds)
  {
  }

  /** setAll leaves exactly what addAll keeps of the new values. */
  lemma SetAllSpec(v: Values, ss: seq<string>)
    requires ValuesWF(v)
    ensures GetValues(SetAll(v, ss)) == Normalized(ss)
    ensures ValuesWF(SetAll(v, ss))
  {
    AddAllSpec(Clear(v), ss);
  }

  /** change replaces only the first case-insensitive match, and only with a
    * non-blank value; every other value stays where it was. */
  lemma ChangeSpec(v: Values, prev: string, s: string)
    requires ValuesWF(v)
    ensures Size(Change(v, prev, s)) == Size(v)
    ensures Blank(s) ==> Change(v, prev, s) == v
    ensures (forall j :: 0 <= j < |v.items| ==> !EqualsIgnoreCase(v.items[j], prev)) ==> Change(v, prev, s) == v
    ensures !Blank(s) && v.created ==> forall j :: 0 <= j < |v.items| ==>
      Get(Change(v, prev, s), j)
        == if EqualsIgnoreCase(v.items[j], prev) && (forall i :: 0 <= i < j ==> !EqualsIgnoreCase(v.items[i], prev))
           then Some(s) else Get(v, j)
  {
    if !Blank(s) && v.created {
      var m := FirstIgnoreCase(v.items, prev);
      forall j | 0 <= j < |v.items|
        ensures Get(Change(v, prev, s), j)
          == if EqualsIgnoreCase(v.items[j], prev) && (forall i :: 0 <= i < j ==> !EqualsIgnoreCase(v.items[i], prev))
             then Some(s) else Get(v, j)
      {
        if m.Some? && j > m.value {
          assert EqualsIgnoreCase(v.items[m.value], prev);
        }
      }
    }
  }

  // ---------------------------------------------------------------------
  // equals

  /** ClausewitzList.equals on two lists other than the same object: equal
    * names and equal values, where a null values field on the receiver
    * raises NullPointerException once the names agree. */
  function ListEquals(name: string, v: Values, otherName: string, w: Values): Outcome<bool>
  {
    if name != otherName then Ok(false)
    else if !v.created then Thrown(NullPointer)
    else Ok(w.created && v.items == w.items)
  }

  /** equals is symmetric on two allocated lists, and raises only for a
    * receiver whose values were never allocated. */
  lemma ListEqualsSpec(name: string, v: Values, otherName: string, w: Values)
    ensures ListEquals(name, v, otherName, w).Thrown? <==> name == otherName && !v.created
    ensures v.created && w.created ==> ListEquals(name, v, otherName, w) == ListEquals(otherName, w, name, v)
    ensures ListEquals(name, v, otherName, w) == Ok(true) ==> GetValues(v) == GetValues(w)
  {
  }
}
