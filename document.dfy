/**
 * The objects of one parsed file as the Java program holds them: every
 * ClausewitzItem, ClausewitzVariable and ClausewitzList is a slot of one
 * arena, and the methods below change that arena in place the way the Java
 * methods change the objects' fields and collections.  Each method is
 * proved against the function of the same operation on the arena, whose
 * properties are proved in the modules it imports.
 */
module Documents {
  import opened Wrappers
  import opened Chars
  import opened Tree
  import opened Items
  import opened Variables
  import ClausewitzUtils
  import Lookups
  import Removal
  import Construction
  import ValueLists

  /** Every member of getAllOrdered is an entry of the item and back. */
  lemma OrderedMembers(nodes: seq<Node>, p: Id)
    requires WF(nodes)
    ensures forall y :: y in AllOrdered(nodes, p) <==> y in AllEntries(nodes, p)
    ensures Distinct(AllOrdered(nodes, p))
    ensures forall y :: y in AllOrdered(nodes, p) ==> y < |nodes|
  {
    AllOrderedSpec(nodes, p);
    var all := AllOrdered(nodes, p);
    forall y
      ensures y in all <==> y in AllEntries(nodes, p)
    {
      assert y in all <==> y in multiset(all);
      assert y in AllEntries(nodes, p) <==> y in multiset(AllEntries(nodes, p));
    }
    forall y | y in all
      ensures y < |nodes|
    {
      AllEntriesInRange(nodes, p, y);
    }
  }

  /** An item with its sameLine flag set (a list's flag is final). */
  function WithSameLine(n: Node, sameLine: bool): (r: Node)
    ensures Shape(r) == Shape(n) && r.name == n.name && r.order == n.order
    ensures n.ItemNode? ==> r.sameLine == sameLine && r.hasEquals == n.hasEquals
    ensures !n.ItemNode? ==> r == n
  {
    match n
    case ItemNode(name, order, parent, hasEquals, _, children, variables, lists) =>
      ItemNode(name, order, parent, hasEquals, sameLine, children, variables, lists)
    case _ => n
  }

  class Document {
    /** The objects, each referred to by its position. */
    var nodes: seq<Node>

    /** new ClausewitzItem(): the root, named DEFAULT_NAME, with no parent. */
    constructor ()
      ensures nodes == Construction.NewRoot([]) && WF(nodes)
    {
      nodes := Construction.NewRoot([]);
      Construction.ConstructSpec([], ItemNode(DEFAULT_NAME, 0, None, true, false, Unallocated, Unallocated, Unallocated), false);
    }

    /** getAllOrdered().stream().filter(co -> co.order >= t).forEach(co -> co.order++):
      * one pass over the ordered entries of p. */
    method ShiftFrom(p: Id, t: int)
      requires WF(nodes) && IsItem(nodes, p)
      modifies this
      ensures nodes == Shift(old(nodes), p, t)
    {
      var all := AllOrdered(nodes, p);
      OrderedMembers(nodes, p);
      ghost var before := nodes;
      var i := 0;
      while i < |all|
        invariant 0 <= i <= |all| && |nodes| == |before|
        invariant forall j :: 0 <= j < |nodes| ==>
          nodes[j] == if j in all[..i] then Bump(before, p, t, j) else before[j]
      {
        var co := all[i];
        assert co in all && co !in all[..i];
        if nodes[co].order >= t {
          nodes := nodes[co := nodes[co].(order := nodes[co].order + 1)];
        }
        assert all[..i + 1] == all[..i] + [co];
        i := i + 1;
      }
      assert all[..|all|] == all;
    }

    /** addChild / addVariable / addList (object, increaseOrders): the
      * siblings are shifted or the object takes order getNbObjects(), then
      * it joins the list and the bucket of its name. */
    method AddEntry(p: Id, k: Kind, x: Id, increase: bool)
      requires WF(nodes) && IsItem(nodes, p) && p < x < |nodes| && KindOf(nodes[x]) == k
      modifies this
      ensures nodes == Add(old(nodes), p, k, x, increase)
    {
      if increase {
        ShiftFrom(p, nodes[x].order);
      } else {
        nodes := nodes[x := nodes[x].(order := NbObjects(nodes, p))];
      }
      nodes := Register(nodes, p, k, x);
    }

    /** The ClausewitzPObject constructor: the object is appended to the
      * arena and, when it has a parent, goes through addObject there. */
    method Construct(n: Node, increase: bool) returns (x: Id)
      requires WF(nodes) && Construction.Fresh(nodes, n)
      modifies this
      ensures x == |old(nodes)| && nodes == Construction.Construct(old(nodes), n, increase)
      ensures !n.VariableNode? ==> WF(nodes)
    {
      x := |nodes|;
      ghost var before := nodes;
      Construction.AppendKeeps(nodes, n);
      nodes := nodes + [n];
      match Parent(n)
      case None =>
      case Some(p) =>
        if n.ItemNode? {
          AddEntry(p, Children, x, increase);
        } else if n.ListNode? {
          AddEntry(p, Lists, x, increase);
        }
      if !n.VariableNode? {
        Construction.ConstructSpec(before, n, increase);
      }
    }

    /** new ClausewitzItem(parent, name, order, hasEquals, increaseOrder). */
    method NewItem(parent: Option<Id>, name: string, order: int, hasEquals: bool, increase: bool) returns (x: Id)
      requires WF(nodes) && (parent.Some? ==> IsItem(nodes, parent.value))
      modifies this
      ensures x == |old(nodes)| && nodes == Construction.NewItem(old(nodes), parent, name, order, hasEquals, increase)
      ensures WF(nodes)
    {
      x := Construct(ItemNode(name, order, parent, hasEquals, false, Unallocated, Unallocated, Unallocated), increase);
    }

    /** addChild(name, hasEquals): a new child at order getNbObjects(). */
    method AddChildNamed(p: Id, name: string, hasEquals: bool) returns (x: Id)
      requires WF(nodes) && IsItem(nodes, p)
      modifies this
      ensures x == |old(nodes)| && nodes == Construction.AddChildNamed(old(nodes), p, name, hasEquals)
      ensures WF(nodes)
    {
      x := NewItem(Some(p), name, NbObjects(nodes, p), hasEquals, false);
    }

    /** new ClausewitzList(parent, name, order, sameLine, hasBrackets, increaseOrder),
      * with the one shift the constructor evidently intends. */
    method NewList(parent: Option<Id>, name: string, order: int, sameLine: bool, hasBrackets: bool, increase: bool)
      returns (x: Id)
      requires WF(nodes) && (parent.Some? ==> IsItem(nodes, parent.value))
      modifies this
      ensures x == |old(nodes)| && nodes == Construction.NewList(old(nodes), parent, name, order, sameLine, hasBrackets, increase)
      ensures WF(nodes)
    {
      x := Construct(Construction.ListNodeOf(parent, name, order, sameLine, hasBrackets), increase);
    }

    /** new ClausewitzVariable(name, order, value): registered nowhere. */
    method NewVariable(name: string, order: int, v: Setting) returns (x: Id)
      requires SettingOk(v)
      modifies this
      ensures x == |old(nodes)| && nodes == Construction.NewVariable(old(nodes), name, order, v)
    {
      x := |nodes|;
      nodes := nodes + [VariableNode(name, order, SettingText(v))];
    }

    // -------------------------------------------------------------------
    // Fields

    /** setName */
    method SetName(i: Id, name: string)
      requires i < |nodes|
      modifies this
      ensures nodes == Construction.SetName(old(nodes), i, name)
    {
      nodes := nodes[i := nodes[i].(name := name)];
    }

    /** The setValue overloads of a variable. */
    method SetValue(i: Id, v: Setting)
      requires i < |nodes| && nodes[i].VariableNode? && SettingOk(v)
      modifies this
      ensures nodes == Construction.SetValue(old(nodes), i, v)
    {
      nodes := nodes[i := nodes[i].(value := SettingText(v))];
    }

    /** setSameLine of an item: the one flag. */
    method SetSameLine(i: Id, sameLine: bool)
      requires i < |nodes| && nodes[i].ItemNode?
      modifies this
      ensures nodes == old(nodes)[i := WithSameLine(old(nodes)[i], sameLine)]
    {
      nodes := nodes[i := WithSameLine(nodes[i], sameLine)];
    }
  
    // -------------------------------------------------------------------
    // The values of a list

    /** add(String) */
    method ListAdd(l: Id, s: string)
      requires l < |nodes| && nodes[l].ListNode?
      modifies this
      ensures nodes == Construction.WithValues(old(nodes), l, ValueLists.Add(Construction.ValuesOf(old(nodes), l), s))
    {
      var v := Construction.ValuesOf(nodes, l);
      if !ClausewitzUtils.Blank(s) {
        var t := if ValueLists.HasSpace(s) && !ClausewitzUtils.HasQuotes(s) then ClausewitzUtils.AddQuotes(s).value else s;
        nodes := Construction.WithValues(nodes, l, ValueLists.Values(true, v.items + [t]));
      } else {
        SameValues(nodes, l);
      }
    }

    /** addAll(values): add of each value in turn. */
    method ListAddAll(l: Id, ss: seq<string>)
      requires l < |nodes| && nodes[l].ListNode?
      modifies this
      ensures nodes == Construction.WithValues(old(nodes), l, ValueLists.AddAll(Construction.ValuesOf(old(nodes), l), ss))
    {
      ghost var before := nodes;
      var v0 := Construction.ValuesOf(nodes, l);
      SameValues(nodes, l);
      var i := 0;
      while i < |ss|
        invariant 0 <= i <= |ss| && l < |nodes| && nodes[l].ListNode?
        invariant nodes == Construction.WithValues(before, l, ValueLists.AddAll(v0, ss[..i]))
      {
        ListAdd(l, ss[i]);
        assert ss[..i + 1][..i] == ss[..i];
        i := i + 1;
      }
      assert ss[..|ss|] == ss;
    }

    /** remove(String): the first value equal ignoring case is taken out,
      * and whether there was one is returned. */
    method ListRemove(l: Id, s: string) returns (removed: bool)
      requires l < |nodes| && nodes[l].ListNode?
      modifies this
      ensures var a := ValueLists.RemoveFirst(Construction.ValuesOf(old(nodes), l), s);
        nodes == Construction.WithValues(old(nodes), l, a.values) && a.out == Ok(removed)
    {
      var v := Construction.ValuesOf(nodes, l);
      SameValues(nodes, l);
      if !v.created {
        return false;
      }
      var i := 0;
      while i < |v.items|
        invariant 0 <= i <= |v.items|
        invariant forall j :: 0 <= j < i ==> !EqualsIgnoreCase(v.items[j], s)
      {
        if EqualsIgnoreCase(v.items[i], s) {
          nodes := Construction.WithValues(nodes, l, ValueLists.Values(true, ValueLists.Delete(v.items, i)));
          return true;
        }
        i := i + 1;
      }
      return false;
    }

    /** removeLast(String): the same from the end. */
    method ListRemoveLast(l: Id, s: string) returns (removed: bool)
      requires l < |nodes| && nodes[l].ListNode?
      modifies this
      ensures var a := ValueLists.RemoveLast(Construction.ValuesOf(old(nodes), l), s);
        nodes == Construction.WithValues(old(nodes), l, a.values) && a.out == Ok(removed)
    {
      var v := Construction.ValuesOf(nodes, l);
      SameValues(nodes, l);
      if !v.created {
        return false;
      }
      var i := |v.items| - 1;
      while i >= 0
        invariant -1 <= i < |v.items|
        invariant forall j :: i < j < |v.items| ==> !EqualsIgnoreCase(v.items[j], s)
      {
        if EqualsIgnoreCase(v.items[i], s) {
          LastIgnoreCaseAt(v.items, s, i);
          nodes := Construction.WithValues(nodes, l, ValueLists.Values(true, ValueLists.Delete(v.items, i)));
          return true;
        }
        i := i - 1;
      }
      return false;
    }

    /** change(previous, newOne): the index of the first value equal to
      * previous ignoring case is searched, then that value is set. */
    method ListChange(l: Id, prev: string, s: string)
      requires l < |nodes| && nodes[l].ListNode?
      modifies this
      ensures nodes == Construction.WithValues(old(nodes), l, ValueLists.Change(Construction.ValuesOf(old(nodes), l), prev, s))
    {
      var v := Construction.ValuesOf(nodes, l);
      SameValues(nodes, l);
      if !v.created || ClausewitzUtils.Blank(s) {
        return;
      }
      var index: Option<nat> := None;
      var i := 0;
      while i < |v.items|
        invariant 0 <= i <= |v.items|
        invariant index.None? ==> forall j :: 0 <= j < i ==> !EqualsIgnoreCase(v.items[j], prev)
        invariant index.Some? ==> index == ValueLists.FirstIgnoreCase(v.items, prev)
      {
        if EqualsIgnoreCase(v.items[i], prev) {
          index := Some(i);
          break;
        }
        i := i + 1;
      }
      if index.Some? {
        nodes := Construction.WithValues(nodes, l, ValueLists.Values(true, v.items[index.value := s]));
      }
    }

    /** set(id, val) */
    method ListSet(l: Id, id: int, s: string) returns (out: Outcome<()>)
      requires l < |nodes| && nodes[l].ListNode?
      modifies this
      ensures var a := ValueLists.Set(Construction.ValuesOf(old(nodes), l), id, s);
        nodes == Construction.WithValues(old(nodes), l, a.values) && out == a.out
    {
      var a := ValueLists.Set(Construction.ValuesOf(nodes, l), id, s);
      nodes := Construction.WithValues(nodes, l, a.values);
      out := a.out;
    }

    /** clear() */
    method ListClear(l: Id)
      requires l < |nodes| && nodes[l].ListNode?
      modifies this
      ensures nodes == Construction.WithValues(old(nodes), l, ValueLists.Clear(Construction.ValuesOf(old(nodes), l)))
    {
      nodes := Construction.WithValues(nodes, l, ValueLists.Clear(Construction.ValuesOf(nodes, l)));
    }

    /** setAll(values): clear, then addAll. */
    method ListSetAll(l: Id, ss: seq<string>)
      requires l < |nodes| && nodes[l].ListNode?
      modifies this
      ensures nodes == Construction.WithValues(old(nodes), l, ValueLists.SetAll(Construction.ValuesOf(old(nodes), l), ss))
    {
      ListClear(l);
      ListAddAll(l, ss);
    }

    // -------------------------------------------------------------------
    // Variables and lists of an item

    /** addVariable(name, value, order[, increaseOrders]): a new variable
      * registered in p. */
    method AddVariableAt(p: Id, name: string, v: Setting, order: int, increase: bool) returns (x: Id)
      requires WF(nodes) && IsItem(nodes, p) && SettingOk(v)
      modifies this
      ensures x == |old(nodes)| && nodes == Construction.AddVariableAt(old(nodes), p, name, v, order, increase)
      ensures WF(nodes)
    {
      Construction.AddVariableAtSpec(nodes, p, name, v, order, increase);
      Construction.AppendKeeps(nodes, VariableNode(name, order, SettingText(v)));
      x := NewVariable(name, order, v);
      AddEntry(p, Variables, x, increase);
    }

    /** addVariable(name, value): at order getNbObjects(). */
    method AddVariable(p: Id, name: string, v: Setting) returns (x: Id)
      requires WF(nodes) && IsItem(nodes, p) && SettingOk(v)
      modifies this
      ensures x == |old(nodes)| && nodes == Construction.AddVariable(old(nodes), p, name, v)
      ensures WF(nodes)
    {
      x := AddVariableAt(p, name, v, NbObjects(nodes, p), false);
    }

    /** setVariable(name, value[, order]) */
    method SetVariable(p: Id, name: string, v: Setting, order: Option<int>) returns (out: Outcome<Id>)
      requires WF(nodes) && IsItem(nodes, p) && SettingOk(v)
      modifies this
      ensures Removal.Effect(nodes, out) == Construction.SetVariable(old(nodes), p, name, v, order)
      ensures WF(nodes)
    {
      match Lookups.FirstNamed(nodes, p, Variables, name)
      case Thrown(ex) =>
        out := Thrown(ex);
      case Ok(None) =>
        var x;
        if order.None? {
          x := AddVariable(p, name, v);
        } else {
          x := AddVariableAt(p, name, v, order.value, true);
        }
        out := Ok(x);
      case Ok(Some(i)) =>
        Construction.FoundVariable(nodes, p, name);
        Construction.SetValueSpec(nodes, i, v);
        SetValue(i, v);
        out := Ok(i);
    }

    /** addList(name, order, sameLine, hasBrackets, increaseOrder, values):
      * a new list, then addAll of the values. */
    method AddList(p: Id, name: string, order: int, sameLine: bool, hasBrackets: bool, increase: bool,
                   values: seq<string>) returns (x: Id)
      requires WF(nodes) && IsItem(nodes, p)
      modifies this
      ensures x == |old(nodes)|
      ensures nodes == Construction.AddList(old(nodes), p, name, order, sameLine, hasBrackets, increase, values)
      ensures WF(nodes)
    {
      Construction.AddListSpec(nodes, p, name, order, sameLine, hasBrackets, increase, values);
      x := NewList(Some(p), name, order, sameLine, hasBrackets, increase);
      ListAddAll(x, values);
    }

    /** addToExistingList / addToLastExistingList (name, sameLine, values) */
    method AddToExistingList(p: Id, name: string, sameLine: bool, values: seq<string>, last: bool) returns (out: Outcome<Id>)
      requires WF(nodes) && IsItem(nodes, p)
      modifies this
      ensures Removal.Effect(nodes, out) == Construction.AddToExistingList(old(nodes), p, name, sameLine, values, last)
    {
      match (if last then Lookups.LastNamed(nodes, p, Lists, name) else Lookups.FirstNamed(nodes, p, Lists, name))
      case Thrown(ex) =>
        out := Thrown(ex);
      case Ok(None) =>
        var x := AddList(p, name, NbObjects(nodes, p), sameLine, true, false, values);
        out := Ok(x);
      case Ok(Some(l)) =>
        Construction.FoundList(nodes, p, name, last);
        ListAddAll(l, values);
        out := Ok(l);
    }

    /** lists.sort(Comparator.comparingInt(ClausewitzObject::getOrder)) */
    method SortLists(p: Id)
      requires IsItem(nodes, p)
      modifies this
      ensures nodes == Construction.SortLists(old(nodes), p)
    {
      var c := Get(nodes, p, Lists);
      nodes := SetColl(nodes, p, Lists, c.(entries := SortByOrder(nodes, c.entries)));
    }

    /** changeChildToList(childOrder, listName, sameLine, values), with the
      * new list kept at childOrder as evidently intended. */
    method ChangeChildToList(p: Id, childOrder: int, listName: string, sameLine: bool, values: seq<string>)
      returns (out: Outcome<Id>)
      requires WF(nodes) && IsItem(nodes, p)
      modifies this
      ensures Removal.Effect(nodes, out) == Construction.ChangeChildToList(old(nodes), p, childOrder, listName, sameLine, values)
    {
      var x := |nodes|;
      var removed := RemoveFirstMatch(p, Children, OrderIs(childOrder));
      if removed.Thrown? {
        out := Thrown(removed.exception);
        return;
      }
      nodes := nodes + [Construction.ListNodeOf(Some(p), listName, childOrder, sameLine, true)];
      nodes := Register(nodes, p, Lists, x);
      ListAddAll(x, values);
      SortLists(p);
      out := Ok(x);
    }

    // -------------------------------------------------------------------
    // Removal

    /** removeChild / removeVariable / removeList (object) */
    method RemoveObject(p: Id, k: Kind, x: Id) returns (out: Outcome<bool>)
      requires IsItem(nodes, p)
      modifies this
      ensures Removal.Effect(nodes, out) == Removal.RemoveObject(old(nodes), p, k, x)
    {
      var e := Removal.RemoveObject(nodes, p, k, x);
      nodes, out := e.nodes, e.out;
    }

    /** removeChild / removeVariable / removeList (int) */
    method RemoveAt(p: Id, k: Kind, i: int) returns (out: Outcome<bool>)
      requires IsItem(nodes, p)
      modifies this
      ensures Removal.Effect(nodes, out) == Removal.RemoveAt(old(nodes), p, k, i)
    {
      var e := Removal.RemoveAt(nodes, p, k, i);
      nodes, out := e.nodes, e.out;
    }

    /** removeChild / removeVariable / removeList (name[, index]) and removeLast* (name) */
    method RemoveNamed(p: Id, k: Kind, nm: string, pick: Removal.Pick) returns (out: Outcome<bool>)
      requires IsItem(nodes, p)
      modifies this
      ensures Removal.Effect(nodes, out) == Removal.RemoveNamed(old(nodes), p, k, nm, pick)
    {
      var e := Removal.RemoveNamed(nodes, p, k, nm, pick);
      nodes, out := e.nodes, e.out;
    }

    /** removeChildren / removeVariables / removeLists (name) */
    method RemoveAllNamed(p: Id, k: Kind, nm: string) returns (out: Outcome<bool>)
      requires IsItem(nodes, p)
      modifies this
      ensures Removal.Effect(nodes, out) == Removal.RemoveAllNamed(old(nodes), p, k, nm)
    {
      var e := Removal.RemoveAllNamed(nodes, p, k, nm);
      nodes, out := e.nodes, e.out;
    }

    /** removeChildIf / removeVariableIf / removeListIf */
    method RemoveFirstMatch(p: Id, k: Kind, f: Criterion) returns (out: Outcome<bool>)
      requires IsItem(nodes, p)
      modifies this
      ensures Removal.Effect(nodes, out) == Removal.RemoveFirstMatch(old(nodes), p, k, f)
      ensures IsItem(nodes, p) && |nodes| == |old(nodes)|
    {
      var e := Removal.RemoveFirstMatch(nodes, p, k, f);
      nodes, out := e.nodes, e.out;
    }

    /** removeByOrder(order) */
    method RemoveByOrder(p: Id, o: int) returns (out: Outcome<bool>)
      requires IsItem(nodes, p)
      modifies this
      ensures Removal.Effect(nodes, out) == Removal.RemoveByOrder(old(nodes), p, o)
    {
      var e := Removal.RemoveByOrder(nodes, p, o);
      nodes, out := e.nodes, e.out;
    }

    /** clearChildren / clearVariables / clearLists */
    method Clear(p: Id, k: Kind)
      requires IsItem(nodes, p)
      modifies this
      ensures nodes == Removal.Clear(old(nodes), p, k)
    {
      nodes := Removal.Clear(nodes, p, k);
    }
  }

  /** Writing back the values a list already has changes nothing, and a
    * second write replaces the first. */
  lemma SameValues(nodes: seq<Node>, l: Id)
    requires l < |nodes| && nodes[l].ListNode?
    ensures Construction.WithValues(nodes, l, Construction.ValuesOf(nodes, l)) == nodes
    ensures forall a, b :: Construction.WithValues(Construction.WithValues(nodes, l, a), l, b) == Construction.WithValues(nodes, l, b)
    ensures forall a :: Construction.ValuesOf(Construction.WithValues(nodes, l, a), l) == a
  {
  }

  /** A match with no match after it is the last match. */
  lemma LastIgnoreCaseAt(items: seq<string>, s: string, i: nat)
    requires i < |items| && EqualsIgnoreCase(items[i], s)
    requires forall j :: i < j < |items| ==> !EqualsIgnoreCase(items[j], s)
    ensures ValueLists.LastIgnoreCase(items, s) == Some(i)
  {
  }
}
