/**
 * The text a ClausewitzVariable, a ClausewitzList and a ClausewitzItem
 * write: first as functions of the arena, then as a writer object that
 * appends to its text step by step the way the Java write methods call a
 * BufferedWriter, proved to append exactly that text.  A line break is
 * written as "\n".
 */
module Writers {
  import opened Wrappers
  import opened Chars
  import opened ClausewitzUtils
  import opened Tree
  import opened Items

  const NEWLINE: string := "\n"

  // ---------------------------------------------------------------------
  // Variables and lists

  /** ClausewitzVariable.write: tabs, name, "=", the raw value; no line break. */
  function VariableText(name: string, value: string, depth: nat): string
  {
    Tabs(depth) + name + EQUALS + value
  }

  /** Each value followed by a space. */
  function ValuesSpaced(values: seq<string>): string
  {
    if values == [] then "" else ValuesSpaced(values[..|values| - 1]) + values[|values| - 1] + SPACE
  }

  /** Each value on its own line, indented by depth tabs. */
  function ValuesLined(values: seq<string>, depth: nat): string
  {
    if values == [] then "" else ValuesLined(values[..|values| - 1], depth) + Tabs(depth) + values[|values| - 1] + NEWLINE
  }

  /** ClausewitzList.write: tabs; "name=" for a non-blank name; with
    * brackets "{" and a line break; the values, on one line each followed by
    * a space (indented and ended by a line break with brackets) or one per
    * line at depth + 1; with brackets, tabs and "}". */
  function ListText(name: string, values: seq<string>, sameLine: bool, hasBrackets: bool, depth: nat): string
  {
    ListHead(name, hasBrackets, depth) + ListBody(values, sameLine, hasBrackets, depth) + ListClose(hasBrackets, depth)
  }

  function ListHead(name: string, hasBrackets: bool, depth: nat): string
  {
    Tabs(depth) + (if Blank(name) then "" else name + EQUALS) + (if hasBrackets then OPEN + NEWLINE else "")
  }

  function ListBody(values: seq<string>, sameLine: bool, hasBrackets: bool, depth: nat): string
  {
    if sameLine then (if hasBrackets then Tabs(depth + 1) else "") + ValuesSpaced(values) + (if hasBrackets then NEWLINE else "")
    else ValuesLined(values, depth + 1)
  }

  function ListClose(hasBrackets: bool, depth: nat): string
  {
    if hasBrackets then Tabs(depth) + CLOSE else ""
  }

  // ---------------------------------------------------------------------
  // Items

  /** The entries of an item come after it in the arena. */
  lemma OrderedAfter(nodes: seq<Node>, p: Id)
    requires WF(nodes) && p < |nodes|
    ensures After(nodes, p, AllOrdered(nodes, p))
  {
    AllOrderedSpec(nodes, p);
    var all := AllOrdered(nodes, p);
    forall j | 0 <= j < |all|
      ensures p < all[j] < |nodes|
    {
      assert all[j] in multiset(all);
      assert all[j] in multiset(AllEntries(nodes, p));
      EntryAfter(nodes, p, all[j]);
    }
  }

  lemma EntryAfter(nodes: seq<Node>, p: Id, m: Id)
    requires WF(nodes) && p < |nodes| && m in AllEntries(nodes, p)
    ensures p < m < |nodes|
  {
    assert NodeWF(nodes, p);
    var c := Entries(nodes, p, Children);
    var v := Entries(nodes, p, Variables);
    if m in c {
      var j :| 0 <= j < |c| && c[j] == m;
    } else if m in v {
      var j :| 0 <= j < |v| && v[j] == m;
    } else {
      var l := Entries(nodes, p, Lists);
      var j :| 0 <= j < |l| && l[j] == m;
    }
  }

  predicate After(nodes: seq<Node>, p: Id, s: seq<Id>)
  {
    forall j :: 0 <= j < |s| ==> p < s[j] < |nodes|
  }

  /** What write(depth) of object i produces.  An item not named
    * DEFAULT_NAME writes a header line (tabs, name, "={" or "{"), then its
    * ordered entries, all on one line at depth 0 followed by spaces when
    * sameLine is set and it has a child item, or else one per line at
    * depth + 1, then tabs and "}"; an item named DEFAULT_NAME writes its
    * entries at depth, separated by line breaks. */
  function ObjectText(nodes: seq<Node>, i: Id, depth: nat): string
    requires WF(nodes) && i < |nodes|
    decreases |nodes| - i, 3, 0
  {
    match nodes[i]
    case VariableNode(name, _, value) => VariableText(name, value, depth)
    case ListNode(name, _, _, _, values, sameLine, hasBrackets) => ListText(name, values, sameLine, hasBrackets, depth)
    case ItemNode(_, _, _, _, _, _, _, _) => ItemText(nodes, i, depth)
  }

  function ItemText(nodes: seq<Node>, i: Id, depth: nat): string
    requires WF(nodes) && i < |nodes| && nodes[i].ItemNode?
    decreases |nodes| - i, 2, 0
  {
    if nodes[i].name != DEFAULT_NAME then
      Header(nodes[i].name, nodes[i].hasEquals, depth) + ItemBody(nodes, i, depth) + Tabs(depth) + CLOSE
    else
      OrderedAfter(nodes, i);
      JoinedText(nodes, i, AllOrdered(nodes, i), depth)
  }

  /** Between the header and the closing line: the sameLine layout when the
    * flag is set and the item has a child item, else one entry per line. */
  function ItemBody(nodes: seq<Node>, i: Id, depth: nat): string
    requires WF(nodes) && i < |nodes| && nodes[i].ItemNode?
    decreases |nodes| - i, 1, 0
  {
    OrderedAfter(nodes, i);
    var all := AllOrdered(nodes, i);
    if nodes[i].sameLine && nodes[i].children.entries != [] then Tabs(depth + 1) + SpacedText(nodes, i, all) + NEWLINE
    else LinedText(nodes, i, all, depth + 1)
  }

  /** The first line of an item: tabs, name, "={" or "{", line break. */
  function Header(name: string, hasEquals: bool, depth: nat): string
  {
    Tabs(depth) + name + (if hasEquals then EQUALS_OPEN else OPEN) + NEWLINE
  }

  /** Entries written at depth 0, each followed by a space. */
  function SpacedText(nodes: seq<Node>, p: Id, s: seq<Id>): string
    requires WF(nodes) && After(nodes, p, s)
    decreases |nodes| - p, 0, |s|
  {
    if s == [] then "" else SpacedText(nodes, p, s[..|s| - 1]) + ObjectText(nodes, s[|s| - 1], 0) + SPACE
  }

  /** Entries written at depth, each followed by a line break. */
  function LinedText(nodes: seq<Node>, p: Id, s: seq<Id>, depth: nat): string
    requires WF(nodes) && After(nodes, p, s)
    decreases |nodes| - p, 0, |s|
  {
    if s == [] then "" else LinedText(nodes, p, s[..|s| - 1], depth) + ObjectText(nodes, s[|s| - 1], depth) + NEWLINE
  }

  /** Entries written at depth, separated by line breaks. */
  function JoinedText(nodes: seq<Node>, p: Id, s: seq<Id>, depth: nat): string
    requires WF(nodes) && After(nodes, p, s)
    decreases |nodes| - p, 0, |s|
  {
    if s == [] then ""
    else if |s| == 1 then ObjectText(nodes, s[0], depth)
    else JoinedText(nodes, p, s[..|s| - 1], depth) + NEWLINE + ObjectText(nodes, s[|s| - 1], depth)
  }

  // ---------------------------------------------------------------------
  // The writer

  /** The BufferedWriter the write methods append to, as the text written so far. */
  class TextWriter {
    var text: string

    constructor ()
      ensures text == ""
    {
      text := "";
    }

    method Write(s: string)
      modifies this
      ensures text == old(text) + s
    {
      text := text + s;
    }

    /** ClausewitzVariable.write */
    method WriteVariable(name: string, value: string, depth: nat)
      modifies this
      ensures text == old(text) + VariableText(name, value, depth)
    {
      Write(Tabs(depth));
      Write(name);
      Write(EQUALS);
      Write(value);
    }

    /** ClausewitzList.write */
    method WriteList(name: string, values: seq<string>, sameLine: bool, hasBrackets: bool, depth: nat)
      modifies this
      ensures text == old(text) + ListText(name, values, sameLine, hasBrackets, depth)
    {
      WriteListHead(name, hasBrackets, depth);
      WriteListBody(values, sameLine, hasBrackets, depth);
      if hasBrackets {
        Write(Tabs(depth));
        Write(CLOSE);
      }
    }

    method WriteListHead(name: string, hasBrackets: bool, depth: nat)
      modifies this
      ensures text == old(text) + ListHead(name, hasBrackets, depth)
    {
      Write(Tabs(depth));
      if !Blank(name) {
        Write(name);
        Write(EQUALS);
      }
      if hasBrackets {
        Write(OPEN);
        Write(NEWLINE);
      }
    }

    method WriteListBody(values: seq<string>, sameLine: bool, hasBrackets: bool, depth: nat)
      modifies this
      ensures text == old(text) + ListBody(values, sameLine, hasBrackets, depth)
    {
      if sameLine {
        if hasBrackets {
          Write(Tabs(depth + 1));
        }
        WriteValuesSpaced(values);
        if hasBrackets {
          Write(NEWLINE);
        }
      } else {
        WriteValuesLined(values, depth + 1);
      }
    }

    method WriteValuesSpaced(values: seq<string>)
      modifies this
      ensures text == old(text) + ValuesSpaced(values)
    {
      var k := 0;
      while k < |values|
        invariant 0 <= k <= |values|
        invariant text == old(text) + ValuesSpaced(values[..k])
      {
        assert values[..k + 1][..k] == values[..k];
        Write(values[k]);
        Write(SPACE);
        k := k + 1;
      }
      assert values[..k] == values;
    }

    method WriteValuesLined(values: seq<string>, depth: nat)
      modifies this
      ensures text == old(text) + ValuesLined(values, depth)
    {
      var k := 0;
      while k < |values|
        invariant 0 <= k <= |values|
        invariant text == old(text) + ValuesLined(values[..k], depth)
      {
        assert values[..k + 1][..k] == values[..k];
        Write(Tabs(depth));
        Write(values[k]);
        Write(NEWLINE);
        k := k + 1;
      }
      assert values[..k] == values;
    }

    /** ClausewitzObject.write(depth): a variable, a list, or an item with
      * its entries in getAllOrdered order, recursively. */
    method WriteObject(nodes: seq<Node>, i: Id, depth: nat)
      requires WF(nodes) && i < |nodes|
      modifies this
      ensures text == old(text) + ObjectText(nodes, i, depth)
      decreases |nodes| - i, 3, 0
    {
      match nodes[i]
      case VariableNode(name, _, value) =>
        WriteVariable(name, value, depth);
      case ListNode(name, _, _, _, values, sameLine, hasBrackets) =>
        WriteList(name, values, sameLine, hasBrackets, depth);
      case ItemNode(_, _, _, _, _, _, _, _) =>
        WriteItem(nodes, i, depth);
    }

    /** ClausewitzItem.write(depth) */
    method WriteItem(nodes: seq<Node>, i: Id, depth: nat)
      requires WF(nodes) && i < |nodes| && nodes[i].ItemNode?
      modifies this
      ensures text == old(text) + ItemText(nodes, i, depth)
      decreases |nodes| - i, 2, 0
    {
      var name := nodes[i].name;
      if name != DEFAULT_NAME {
        var head := Header(name, nodes[i].hasEquals, depth);
        WriteHeader(name, nodes[i].hasEquals, depth);
        var body := ItemBody(nodes, i, depth);
        WriteItemBody(nodes, i, depth);
        Write(Tabs(depth));
        Write(CLOSE);
        assert text == old(text) + (head + body + Tabs(depth) + CLOSE);
      } else {
        OrderedAfter(nodes, i);
        WriteJoined(nodes, i, AllOrdered(nodes, i), depth);
      }
    }

    method WriteItemBody(nodes: seq<Node>, i: Id, depth: nat)
      requires WF(nodes) && i < |nodes| && nodes[i].ItemNode?
      modifies this
      ensures text == old(text) + ItemBody(nodes, i, depth)
      decreases |nodes| - i, 1, 0
    {
      OrderedAfter(nodes, i);
      var all := AllOrdered(nodes, i);
      if nodes[i].sameLine && nodes[i].children.entries != [] {
        Write(Tabs(depth + 1));
        WriteSpaced(nodes, i, all);
        Write(NEWLINE);
      } else {
        WriteLined(nodes, i, all, depth + 1);
      }
    }

    method WriteHeader(name: string, hasEquals: bool, depth: nat)
      modifies this
      ensures text == old(text) + Header(name, hasEquals, depth)
    {
      Write(Tabs(depth));
      Write(name);
      if hasEquals {
        Write(EQUALS_OPEN);
      } else {
        Write(OPEN);
      }
      Write(NEWLINE);
    }

    /** The sameLine layout: each entry at depth 0 followed by a space. */
    method WriteSpaced(nodes: seq<Node>, p: Id, all: seq<Id>)
      requires WF(nodes) && After(nodes, p, all)
      modifies this
      ensures text == old(text) + SpacedText(nodes, p, all)
      decreases |nodes| - p, 0, 0
    {
      var k := 0;
      while k < |all|
        invariant 0 <= k <= |all|
        invariant text == old(text) + SpacedText(nodes, p, all[..k])
      {
        assert all[..k + 1][..k] == all[..k];
        WriteObject(nodes, all[k], 0);
        Write(SPACE);
        k := k + 1;
      }
      assert all[..k] == all;
    }

    /** The default layout: each entry at depth followed by a line break. */
    method WriteLined(nodes: seq<Node>, p: Id, all: seq<Id>, depth: nat)
      requires WF(nodes) && After(nodes, p, all)
      modifies this
      ensures text == old(text) + LinedText(nodes, p, all, depth)
      decreases |nodes| - p, 0, 0
    {
      var k := 0;
      while k < |all|
        invariant 0 <= k <= |all|
        invariant text == old(text) + LinedText(nodes, p, all[..k], depth)
      {
        assert all[..k + 1][..k] == all[..k];
        WriteObject(nodes, all[k], depth);
        Write(NEWLINE);
        k := k + 1;
      }
      assert all[..k] == all;
    }

    /** The root layout: the entries at depth, a line break between two. */
    method WriteJoined(nodes: seq<Node>, p: Id, all: seq<Id>, depth: nat)
      requires WF(nodes) && After(nodes, p, all)
      modifies this
      ensures text == old(text) + JoinedText(nodes, p, all, depth)
      decreases |nodes| - p, 0, 0
    {
      var k := 0;
      while k < |all|
        invariant 0 <= k <= |all|
        invariant text == old(text) + JoinedText(nodes, p, all[..k], depth) + (if 0 < k < |all| then NEWLINE else "")
      {
        assert all[..k + 1][..k] == all[..k];
        WriteObject(nodes, all[k], depth);
        if k != |all| - 1 {
          Write(NEWLINE);
        }
        k := k + 1;
      }
      assert all[..k] == all;
    }
  }

  // ---------------------------------------------------------------------
  // Counting characters in the written text

  lemma {:induction false} CountConcat(a: string, b: string, c: char)
    ensures Count(a + b, c) == Count(a, c) + Count(b, c)
    decreases |b|
  {
    if b == [] {
      assert a + b == a;
    } else {
      assert (a + b)[..|a + b| - 1] == a + b[..|b| - 1];
      CountConcat(a, b[..|b| - 1], c);
    }
  }

  lemma {:induction false} CountAbsent(s: string, c: char)
    requires c !in s
    ensures Count(s, c) == 0
  {
    if s != [] {
      assert s[..|s| - 1] + [s[|s| - 1]] == s;
      CountAbsent(s[..|s| - 1], c);
    }
  }

  /** A value list written either way holds the character c once per value
    * (line-per-value layout, c a line break) or not at all. */
  lemma {:induction false} ValuesCount(values: seq<string>, depth: nat, c: char)
    requires forall k :: 0 <= k < |values| ==> c !in values[k]
    requires c != ' ' && c != '\t'
    ensures Count(ValuesSpaced(values), c) == 0
    ensures Count(ValuesLined(values, depth), c) == if c == '\n' then |values| else 0
    decreases |values|
  {
    if values != [] {
      var init := values[..|values| - 1];
      var last := values[|values| - 1];
      ValuesCount(init, depth, c);
      CountAbsent(last, c);
      CountAbsent(Tabs(depth), c);
      CountConcat(ValuesSpaced(init) + last, SPACE, c);
      CountConcat(ValuesSpaced(init), last, c);
      CountConcat(ValuesLined(init, depth) + Tabs(depth) + last, NEWLINE, c);
      CountConcat(ValuesLined(init, depth) + Tabs(depth), last, c);
      CountConcat(ValuesLined(init, depth), Tabs(depth), c);
    }
  }

  /** The number of lines a list takes: with brackets, a line for "{" and
    * then either one line for all values or one per value; without
    * brackets, nothing or one per value (the last line is never ended). */
  lemma ListLines(name: string, values: seq<string>, sameLine: bool, hasBrackets: bool, depth: nat)
    requires '\n' !in name && forall k :: 0 <= k < |values| ==> '\n' !in values[k]
    ensures Count(ListText(name, values, sameLine, hasBrackets, depth), '\n')
         == if hasBrackets then (if sameLine then 2 else |values| + 1) else (if sameLine then 0 else |values|)
  {
    var c := '\n';
    var head := ListHead(name, hasBrackets, depth);
    var body := ListBody(values, sameLine, hasBrackets, depth);
    var close := ListClose(hasBrackets, depth);
    CountConcat(head + body, close, c);
    CountConcat(head, body, c);
    ListHeadCount(name, hasBrackets, depth, c);
    ListBodyCount(values, sameLine, hasBrackets, depth, c);
    ListCloseCount(hasBrackets, depth, c);
  }

  /** How often c occurs in the opening of a list: once for "{" or a line
    * break when the list has brackets, else never. */
  lemma ListHeadCount(name: string, hasBrackets: bool, depth: nat, c: char)
    requires c !in name && c != '=' && c != '\t'
    ensures Count(ListHead(name, hasBrackets, depth), c) == if hasBrackets && (c == '{' || c == '\n') then 1 else 0
  {
    var named := if Blank(name) then "" else name + EQUALS;
    var open := if hasBrackets then OPEN + NEWLINE else "";
    CountConcat(Tabs(depth) + named, open, c);
    CountAbsent(Tabs(depth) + named, c);
    CountConcat(OPEN, NEWLINE, c);
  }

  /** How often c occurs in the values of a list: only line breaks occur,
    * one for the sameLine layout with brackets, else one per value. */
  lemma ListBodyCount(values: seq<string>, sameLine: bool, hasBrackets: bool, depth: nat, c: char)
    requires forall k :: 0 <= k < |values| ==> c !in values[k]
    requires c != ' ' && c != '\t'
    ensures Count(ListBody(values, sameLine, hasBrackets, depth), c)
         == if c != '\n' then 0 else if sameLine then (if hasBrackets then 1 else 0) else |values|
  {
    ValuesCount(values, depth + 1, c);
    if sameLine {
      var pre := if hasBrackets then Tabs(depth + 1) else "";
      var post := if hasBrackets then NEWLINE else "";
      CountConcat(pre + ValuesSpaced(values), post, c);
      CountConcat(pre, ValuesSpaced(values), c);
      CountAbsent(pre, c);
    }
  }

  lemma ListCloseCount(hasBrackets: bool, depth: nat, c: char)
    requires c != '\t'
    ensures Count(ListClose(hasBrackets, depth), c) == if hasBrackets && c == '}' then 1 else 0
  {
    if hasBrackets {
      CountConcat(Tabs(depth), CLOSE, c);
      CountAbsent(Tabs(depth), c);
    } else {
      CountAbsent("", c);
    }
  }

  /** Cutting a variable's line at its first "=" gives back the tabs with
    * the name, and the value, exactly when the name holds no "=". */
  lemma VariableSplit(name: string, value: string, depth: nat)
    ensures SplitAtEquals(VariableText(name, value, depth)) == Some((Tabs(depth) + name, value)) <==> '=' !in name
  {
    var head := Tabs(depth) + name;
    assert '=' !in Tabs(depth);
    assert VariableText(name, value, depth) == head + ("=" + value);
    if '=' !in name {
      assert '=' !in head;
      FirstIndexAfter(head, "=" + value, '=');
      assert VariableText(name, value, depth)[..|head|] == head;
      assert VariableText(name, value, depth)[|head| + 1..] == value;
    } else {
      var j :| 0 <= j < |name| && name[j] == '=';
      assert head[|Tabs(depth)| + j] == '=';
      FirstIndexWithin(head, "=" + value, '=');
    }
  }

  /** The position of the first c in s, if any. */
  function FirstIndex(s: string, c: char): (r: Option<nat>)
    ensures r.Some? ==> r.value < |s| && s[r.value] == c
    ensures r.None? <==> c !in s
  {
    if s == [] then None
    else if s[0] == c then Some(0)
    else match FirstIndex(s[1..], c)
      case None => None
      case Some(k) => Some(k + 1)
  }

  /** The text before the first "=" and the text after it. */
  function SplitAtEquals(s: string): Option<(string, string)>
  {
    match FirstIndex(s, '=')
    case None => None
    case Some(k) => Some((s[..k], s[k + 1..]))
  }

  lemma {:induction false} FirstIndexAfter(a: string, b: string, c: char)
    requires c !in a && b != [] && b[0] == c
    ensures FirstIndex(a + b, c) == Some(|a|)
    decreases |a|
  {
    if a == [] {
      assert a + b == b;
    } else {
      assert (a + b)[1..] == a[1..] + b;
      FirstIndexAfter(a[1..], b, c);
    }
  }

  lemma {:induction false} FirstIndexWithin(a: string, b: string, c: char)
    requires c in a
    ensures FirstIndex(a + b, c).Some? && FirstIndex(a + b, c).value < |a|
    decreases |a|
  {
    if a[0] != c {
      assert (a + b)[1..] == a[1..] + b;
      assert c in a[1..] by {
        var j :| 0 <= j < |a| && a[j] == c;
        assert a[1..][j - 1] == c;
      }
      FirstIndexWithin(a[1..], b, c);
    }
  }

  // ---------------------------------------------------------------------
  // Properties of the written text

  predicate Balanced(s: string)
  {
    Count(s, '{') == Count(s, '}')
  }

  /** No name, variable value or list value in the arena holds c. */
  predicate Without(nodes: seq<Node>, c: char)
  {
    forall i :: 0 <= i < |nodes| ==>
      c !in nodes[i].name
      && (nodes[i].VariableNode? ==> c !in nodes[i].value)
      && (nodes[i].ListNode? ==> forall k :: 0 <= k < |nodes[i].values| ==> c !in nodes[i].values[k])
  }

  lemma BalancedConcat(a: string, b: string)
    requires Balanced(a) && Balanced(b)
    ensures Balanced(a + b)
  {
    CountConcat(a, b, '{');
    CountConcat(a, b, '}');
  }

  lemma ListBalanced(name: string, values: seq<string>, sameLine: bool, hasBrackets: bool, depth: nat)
    requires '{' !in name && '}' !in name
    requires forall k :: 0 <= k < |values| ==> '{' !in values[k] && '}' !in values[k]
    ensures Balanced(ListText(name, values, sameLine, hasBrackets, depth))
  {
    var head := ListHead(name, hasBrackets, depth);
    var body := ListBody(values, sameLine, hasBrackets, depth);
    var close := ListClose(hasBrackets, depth);
    forall c | c == '{' || c == '}'
      ensures Count(head + body + close, c) == if hasBrackets then 1 else 0
    {
      CountConcat(head + body, close, c);
      CountConcat(head, body, c);
      ListHeadCount(name, hasBrackets, depth, c);
      ListBodyCount(values, sameLine, hasBrackets, depth, c);
      ListCloseCount(hasBrackets, depth, c);
    }
  }

  /** With no brace inside the names and values, every object writes as many
    * "{" as "}": an item's header opens one and its last line closes it, a
    * list's brackets pair up, and the entries in between are balanced. */
  lemma {:induction false} ObjectBalanced(nodes: seq<Node>, i: Id, depth: nat)
    requires WF(nodes) && i < |nodes| && Without(nodes, '{') && Without(nodes, '}')
    ensures Balanced(ObjectText(nodes, i, depth))
    decreases |nodes| - i, 3, 0
  {
    match nodes[i]
    case VariableNode(name, _, value) =>
      forall c | c == '{' || c == '}'
        ensures Count(VariableText(name, value, depth), c) == 0
      {
        assert c !in Tabs(depth);
        CountAbsent(VariableText(name, value, depth), c);
      }
    case ListNode(name, _, _, _, values, sameLine, hasBrackets) =>
      ListBalanced(name, values, sameLine, hasBrackets, depth);
    case ItemNode(_, _, _, _, _, _, _, _) =>
      ItemBalanced(nodes, i, depth);
  }

  lemma {:induction false} ItemBalanced(nodes: seq<Node>, i: Id, depth: nat)
    requires WF(nodes) && i < |nodes| && nodes[i].ItemNode? && Without(nodes, '{') && Without(nodes, '}')
    ensures Balanced(ItemText(nodes, i, depth))
    decreases |nodes| - i, 2, 0
  {
    var name := nodes[i].name;
    if name != DEFAULT_NAME {
      ItemBodyBalanced(nodes, i, depth);
      var head := Header(name, nodes[i].hasEquals, depth);
      var body := ItemBody(nodes, i, depth);
      var close := Tabs(depth) + CLOSE;
      assert ItemText(nodes, i, depth) == head + body + close;
      HeaderCount(name, nodes[i].hasEquals, depth, '{');
      HeaderCount(name, nodes[i].hasEquals, depth, '}');
      ListCloseCount(true, depth, '{');
      ListCloseCount(true, depth, '}');
      CountConcat(head + body, close, '{');
      CountConcat(head + body, close, '}');
      CountConcat(head, body, '{');
      CountConcat(head, body, '}');
    } else {
      OrderedAfter(nodes, i);
      JoinedBalanced(nodes, i, AllOrdered(nodes, i), depth);
    }
  }

  /** An item's first line holds one "{" and one line break. */
  lemma HeaderCount(name: string, hasEquals: bool, depth: nat, c: char)
    requires c !in name && c != '\t' && c != '='
    ensures Count(Header(name, hasEquals, depth), c) == if c == '{' || c == '\n' then 1 else 0
  {
    var opening := if hasEquals then EQUALS_OPEN else OPEN;
    CountConcat(Tabs(depth) + name + opening, NEWLINE, c);
    CountConcat(Tabs(depth) + name, opening, c);
    CountAbsent(Tabs(depth) + name, c);
    CountConcat(EQUALS, OPEN, c);
  }

  lemma {:induction false} ItemBodyBalanced(nodes: seq<Node>, i: Id, depth: nat)
    requires WF(nodes) && i < |nodes| && nodes[i].ItemNode? && Without(nodes, '{') && Without(nodes, '}')
    ensures Balanced(ItemBody(nodes, i, depth))
    decreases |nodes| - i, 1, 0
  {
    OrderedAfter(nodes, i);
    var all := AllOrdered(nodes, i);
    if nodes[i].sameLine && nodes[i].children.entries != [] {
      SpacedBalanced(nodes, i, all);
      CountAbsent(Tabs(depth + 1), '{');
      CountAbsent(Tabs(depth + 1), '}');
      BalancedConcat(Tabs(depth + 1), SpacedText(nodes, i, all));
      BalancedConcat(Tabs(depth + 1) + SpacedText(nodes, i, all), NEWLINE);
    } else {
      LinedBalanced(nodes, i, all, depth + 1);
    }
  }

  lemma {:induction false} SpacedBalanced(nodes: seq<Node>, p: Id, s: seq<Id>)
    requires WF(nodes) && After(nodes, p, s) && Without(nodes, '{') && Without(nodes, '}')
    ensures Balanced(SpacedText(nodes, p, s))
    decreases |nodes| - p, 0, |s|
  {
    if s != [] {
      SpacedBalanced(nodes, p, s[..|s| - 1]);
      ObjectBalanced(nodes, s[|s| - 1], 0);
      BalancedConcat(SpacedText(nodes, p, s[..|s| - 1]), ObjectText(nodes, s[|s| - 1], 0));
      BalancedConcat(SpacedText(nodes, p, s[..|s| - 1]) + ObjectText(nodes, s[|s| - 1], 0), SPACE);
    }
  }

  lemma {:induction false} LinedBalanced(nodes: seq<Node>, p: Id, s: seq<Id>, depth: nat)
    requires WF(nodes) && After(nodes, p, s) && Without(nodes, '{') && Without(nodes, '}')
    ensures Balanced(LinedText(nodes, p, s, depth))
    decreases |nodes| - p, 0, |s|
  {
    if s != [] {
      LinedBalanced(nodes, p, s[..|s| - 1], depth);
      ObjectBalanced(nodes, s[|s| - 1], depth);
      BalancedConcat(LinedText(nodes, p, s[..|s| - 1], depth), ObjectText(nodes, s[|s| - 1], depth));
      BalancedConcat(LinedText(nodes, p, s[..|s| - 1], depth) + ObjectText(nodes, s[|s| - 1], depth), NEWLINE);
    }
  }

  lemma {:induction false} JoinedBalanced(nodes: seq<Node>, p: Id, s: seq<Id>, depth: nat)
    requires WF(nodes) && After(nodes, p, s) && Without(nodes, '{') && Without(nodes, '}')
    ensures Balanced(JoinedText(nodes, p, s, depth))
    decreases |nodes| - p, 0, |s|
  {
    if |s| == 1 {
      ObjectBalanced(nodes, s[0], depth);
    } else if |s| > 1 {
      JoinedBalanced(nodes, p, s[..|s| - 1], depth);
      ObjectBalanced(nodes, s[|s| - 1], depth);
      BalancedConcat(JoinedText(nodes, p, s[..|s| - 1], depth), NEWLINE);
      BalancedConcat(JoinedText(nodes, p, s[..|s| - 1], depth) + NEWLINE, ObjectText(nodes, s[|s| - 1], depth));
    }
  }

  /** Entries that are all variables, each written on a single line. */
  predicate AllVariables(nodes: seq<Node>, s: seq<Id>)
    requires forall j :: 0 <= j < |s| ==> s[j] < |nodes|
  {
    forall j :: 0 <= j < |s| ==> nodes[s[j]].VariableNode?
  }

  /** An item with neither child items nor lists orders only variables. */
  lemma OnlyVariables(nodes: seq<Node>, i: Id)
    requires WF(nodes) && i < |nodes|
    requires Entries(nodes, i, Children) == [] && Entries(nodes, i, Lists) == []
    ensures After(nodes, i, AllOrdered(nodes, i)) && AllVariables(nodes, AllOrdered(nodes, i))
  {
    OrderedAfter(nodes, i);
    AllOrderedSpec(nodes, i);
    var all := AllOrdered(nodes, i);
    var v := Entries(nodes, i, Variables);
    assert NodeWF(nodes, i) && CollWF(nodes, i, Variables);
    forall j | 0 <= j < |all|
      ensures nodes[all[j]].VariableNode?
    {
      assert all[j] in multiset(all);
      assert multiset(all) == multiset(v);
      assert all[j] in multiset(v);
      var k :| 0 <= k < |v| && v[k] == all[j];
      assert KindOf(nodes[v[k]]) == Variables;
    }
  }

  lemma {:induction false} LinedLines(nodes: seq<Node>, p: Id, s: seq<Id>, depth: nat)
    requires WF(nodes) && After(nodes, p, s) && AllVariables(nodes, s) && Without(nodes, '\n')
    ensures Count(LinedText(nodes, p, s, depth), '\n') == |s|
    decreases |s|
  {
    if s != [] {
      var init := s[..|s| - 1];
      var y := s[|s| - 1];
      assert AllVariables(nodes, init);
      LinedLines(nodes, p, init, depth);
      assert '\n' !in Tabs(depth);
      CountAbsent(ObjectText(nodes, y, depth), '\n');
      CountConcat(LinedText(nodes, p, init, depth) + ObjectText(nodes, y, depth), NEWLINE, '\n');
      CountConcat(LinedText(nodes, p, init, depth), ObjectText(nodes, y, depth), '\n');
    }
  }

  lemma {:induction false} JoinedLines(nodes: seq<Node>, p: Id, s: seq<Id>, depth: nat)
    requires WF(nodes) && After(nodes, p, s) && AllVariables(nodes, s) && Without(nodes, '\n') && s != []
    ensures Count(JoinedText(nodes, p, s, depth), '\n') == |s| - 1
    decreases |s|
  {
    var y := s[|s| - 1];
    assert '\n' !in Tabs(depth);
    CountAbsent(ObjectText(nodes, y, depth), '\n');
    if |s| > 1 {
      var init := s[..|s| - 1];
      assert AllVariables(nodes, init);
      JoinedLines(nodes, p, init, depth);
      CountConcat(JoinedText(nodes, p, init, depth) + NEWLINE, ObjectText(nodes, y, depth), '\n');
      CountConcat(JoinedText(nodes, p, init, depth), NEWLINE, '\n');
    }
  }

  /** An item holding only variables writes its header line, one line per
    * variable and the closing line: getNbObjects() + 2 lines, whatever its
    * sameLine flag (the single-line layout needs a child item). */
  lemma FlatItemLines(nodes: seq<Node>, i: Id, depth: nat)
    requires WF(nodes) && i < |nodes| && nodes[i].ItemNode? && nodes[i].name != DEFAULT_NAME
    requires Entries(nodes, i, Children) == [] && Entries(nodes, i, Lists) == []
    requires Without(nodes, '\n')
    ensures Count(ObjectText(nodes, i, depth), '\n') == NbObjects(nodes, i) + 1
  {
    OnlyVariables(nodes, i);
    AllOrderedSpec(nodes, i);
    var all := AllOrdered(nodes, i);
    LinedLines(nodes, i, all, depth + 1);
    var head := Header(nodes[i].name, nodes[i].hasEquals, depth);
    var body := ItemBody(nodes, i, depth);
    var close := Tabs(depth) + CLOSE;
    assert body == LinedText(nodes, i, all, depth + 1);
    assert ObjectText(nodes, i, depth) == head + body + close;
    HeaderCount(nodes[i].name, nodes[i].hasEquals, depth, '\n');
    ListCloseCount(true, depth, '\n');
    CountConcat(head + body, close, '\n');
    CountConcat(head, body, '\n');
  }

  /** The root item holding only variables writes one per line with no
    * line break after the last: getNbObjects() - 1 line breaks. */
  lemma RootLines(nodes: seq<Node>, i: Id, depth: nat)
    requires WF(nodes) && i < |nodes| && nodes[i].ItemNode? && nodes[i].name == DEFAULT_NAME
    requires Entries(nodes, i, Children) == [] && Entries(nodes, i, Lists) == [] && NbObjects(nodes, i) > 0
    requires Without(nodes, '\n')
    ensures Count(ObjectText(nodes, i, depth), '\n') == NbObjects(nodes, i) - 1
  {
    OnlyVariables(nodes, i);
    AllOrderedSpec(nodes, i);
    JoinedLines(nodes, i, AllOrdered(nodes, i), depth);
  }
}
