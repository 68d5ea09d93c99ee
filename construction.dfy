/**
 * Creating objects and changing single fields: the ClausewitzPObject
 * constructors that register a new Item or List with its parent through
 * addObject, the ClausewitzVariable and ClausewitzList constructors,
 * getParent / getRoot, setName and setValue, and the ClausewitzItem
 * operations built on them: addChild(name), addVariable(name, value[, order]),
 * setVariable(name | index, value), setVariableName, addList(name, ...),
 * addToExistingList and changeChildToList.
 */
module Construction {
  import opened Wrappers
  import opened Chars
  import opened ClausewitzUtils
  import opened Tree
  import opened Items
  import opened Lookups
  import opened Removal
  import opened Variables
  import ValueLists

  // ---------------------------------------------------------------------
  // A new node at the end of the arena

  /** Ids of s all denote nodes of the arena. */
  predicate InArena(nodes: seq<Node>, s: seq<Id>)
  {
    forall j :: 0 <= j < |s| ==> s[j] < |nodes|
  }

  lemma {:induction false} NamedExtend(nodes: seq<Node>, n: Node, s: seq<Id>, nm: string)
    requires InArena(nodes, s)
    ensures Named(nodes + [n], s, nm) == Named(nodes, s, nm)
    decreases |s|
  {
    if s != [] {
      NamedExtend(nodes, n, s[..|s| - 1], nm);
    }
  }

  /** A node with no collections and, if any, an earlier Item as parent. */
  predicate Fresh(nodes: seq<Node>, n: Node)
  {
    CollOf(n, Children) == Unallocated && CollOf(n, Variables) == Unallocated && CollOf(n, Lists) == Unallocated
    && (Parent(n).Some? ==> IsItem(nodes, Parent(n).value))
  }

  lemma IdsOkExtend(nodes: seq<Node>, n: Node, p: Id, k: Kind, s: seq<Id>)
    requires IdsOk(nodes, p, k, s)
    ensures IdsOk(nodes + [n], p, k, s)
  {
  }

  /** Appending a fresh node keeps the arena well formed and every index exact. */
  lemma AppendKeeps(nodes: seq<Node>, n: Node)
    requires WF(nodes) && Fresh(nodes, n)
    ensures WF(nodes + [n])
    ensures forall q: Id, k: Kind :: q < |nodes| ==> Get(nodes + [n], q, k) == Get(nodes, q, k)
    ensures forall q: Id, k: Kind :: Indexed(nodes, q, k) ==> Indexed(nodes + [n], q, k)
    ensures forall q: Id :: Unregistered(nodes + [n], q, |nodes|)
  {
    AppendUnregistered(nodes, n);
    AppendWF(nodes, n);
    AppendIndexed(nodes, n);
  }

  lemma AppendUnregistered(nodes: seq<Node>, n: Node)
    requires WF(nodes) && Fresh(nodes, n)
    ensures forall q: Id :: Unregistered(nodes + [n], q, |nodes|)
  {
    var r := nodes + [n];
    forall q: Id
      ensures Unregistered(r, q, |nodes|)
    {
      if q < |nodes| {
        assert AllEntries(r, q) == AllEntries(nodes, q);
        if |nodes| in AllEntries(nodes, q) {
          AllEntriesInRange(nodes, q, |nodes|);
        }
      } else {
        assert AllEntries(r, q) == [];
      }
    }
  }

  lemma AppendWF(nodes: seq<Node>, n: Node)
    requires WF(nodes) && Fresh(nodes, n)
    ensures WF(nodes + [n])
  {
    var r := nodes + [n];
    forall i | 0 <= i < |r|
      ensures NodeWF(r, i)
    {
      if i < |nodes| {
        assert NodeWF(nodes, i);
        forall k: Kind
          ensures CollWF(r, i, k)
        {
          assert CollWF(nodes, i, k);
          var c := Get(nodes, i, k);
          assert Get(r, i, k) == c;
          IdsOkExtend(nodes, n, i, k, c.entries);
          forall nm | nm in c.index
            ensures IdsOk(r, i, k, c.index[nm])
          {
            IdsOkExtend(nodes, n, i, k, c.index[nm]);
          }
        }
      } else {
        LeafWF(r, i);
      }
    }
  }

  lemma AppendIndexed(nodes: seq<Node>, n: Node)
    requires WF(nodes) && Fresh(nodes, n)
    ensures forall q: Id, k: Kind :: Indexed(nodes, q, k) ==> Indexed(nodes + [n], q, k)
  {
    var r := nodes + [n];
    forall q: Id, k: Kind | Indexed(nodes, q, k)
      ensures Indexed(r, q, k)
    {
      var c := Get(nodes, q, k);
      if q < |nodes| {
        assert NodeWF(nodes, q) && CollWF(nodes, q, k);
        forall nm
          ensures Named(r, c.entries, nm) == Named(nodes, c.entries, nm)
        {
          NamedExtend(nodes, n, c.entries, nm);
        }
      } else {
        assert Get(r, q, k) == Unallocated;
      }
    }
  }

  // ---------------------------------------------------------------------
  // Construction and registration

  /** a is b, but for its order. */
  predicate SameButOrder(a: Node, b: Node)
  {
    a == b.(order := a.order)
  }

  /** addObject(object, increaseOrder): an Item goes to addChild, a List to
    * addList; anything else is not registered. */
  function AddObject(nodes: seq<Node>, p: Id, x: Id, increase: bool): (r: seq<Node>)
    requires IsItem(nodes, p) && p < x < |nodes|
    ensures |r| == |nodes|
  {
    if nodes[x].ItemNode? then Add(nodes, p, Children, x, increase)
    else if nodes[x].ListNode? then Add(nodes, p, Lists, x, increase)
    else nodes
  }

  /** The ClausewitzPObject constructor: the new object is the next node, and
    * when it has a parent it is registered there through addObject. */
  function Construct(nodes: seq<Node>, n: Node, increase: bool): (r: seq<Node>)
    requires Parent(n).Some? ==> IsItem(nodes, Parent(n).value)
    ensures |r| == |nodes| + 1 && SameButOrder(r[|nodes|], n)
  {
    var grown := nodes + [n];
    match Parent(n)
    case None => grown
    case Some(p) =>
      var r := AddObject(grown, p, |nodes|, increase);
      AddObjectNode(grown, p, |nodes|, increase);
      r
  }

  lemma AddObjectNode(nodes: seq<Node>, p: Id, x: Id, increase: bool)
    requires IsItem(nodes, p) && p < x < |nodes|
    ensures SameButOrder(AddObject(nodes, p, x, increase)[x], nodes[x])
  {
    if !nodes[x].VariableNode? {
      AddOnlyOrders(nodes, p, if nodes[x].ItemNode? then Children else Lists, x, increase);
    }
  }

  /** Registration touches the parent's collection and, besides, orders only. */
  lemma AddOnlyOrders(nodes: seq<Node>, p: Id, k: Kind, x: Id, increase: bool)
    requires IsItem(nodes, p) && p < x < |nodes|
    ensures forall i :: 0 <= i < |nodes| && i != p ==> SameButOrder(Add(nodes, p, k, x, increase)[i], nodes[i])
  {
    var placed := Place(nodes, p, x, increase);
    RegisterFrame(placed, p, k, x);
    forall i | 0 <= i < |nodes|
      ensures SameButOrder(placed[i], nodes[i])
    {
      if increase {
        assert placed[i] == Bump(nodes, p, Ord(nodes, x), i);
      }
    }
  }

  /** A constructor call: the arena grows by the new object; without a parent
    * nothing else changes; with one, the object is appended to the parent's
    * collection of its kind, with order getNbObjects() or, when
    * increaseOrder is set, its own order after the siblings at or above it
    * moved up; the arena stays well formed and every exact index stays exact. */
  lemma ConstructSpec(nodes: seq<Node>, n: Node, increase: bool)
    requires WF(nodes) && Fresh(nodes, n) && !n.VariableNode?
    ensures var r := Construct(nodes, n, increase);
      WF(r) && SameNames(nodes + [n], r)
      && (forall q: Id, k: Kind :: Indexed(nodes, q, k) ==> Indexed(r, q, k))
    ensures var r := Construct(nodes, n, increase);
      Parent(n).None? ==> r == nodes + [n]
    ensures var r := Construct(nodes, n, increase);
      var x := |nodes|;
      Parent(n).Some? ==>
        var p := Parent(n).value;
        Entries(r, p, KindOf(n)) == Entries(nodes, p, KindOf(n)) + [x]
        && (forall q: Id, k: Kind :: (q, k) != (p, KindOf(n)) && q < |nodes| ==> Get(r, q, k) == Get(nodes, q, k))
        && (!increase ==> Ord(r, x) == NbObjects(nodes, p)
                          && forall i :: 0 <= i < |nodes| ==> Ord(r, i) == Ord(nodes, i))
        && (increase ==> Ord(r, x) == n.order
                         && forall i :: 0 <= i < |nodes| ==>
                              Ord(r, i) == if i in AllEntries(nodes, p) && Ord(nodes, i) >= n.order then Ord(nodes, i) + 1 else Ord(nodes, i))
  {
    var grown := nodes + [n];
    var x := |nodes|;
    AppendKeeps(nodes, n);
    if Parent(n).Some? {
      var p := Parent(n).value;
      var k := KindOf(n);
      AddShape(grown, p, k, x, increase);
      AddOrders(grown, p, k, x, increase);
      assert AllEntries(grown, p) == AllEntries(nodes, p);
      assert NbObjects(grown, p) == NbObjects(nodes, p);
      forall i | 0 <= i < |nodes|
        ensures Ord(grown, i) == Ord(nodes, i)
      {
      }
    } else {
      assert SameNames(grown, grown);
    }
  }

  /** addObject registers Items and Lists only: a Variable given to it is
    * ignored. */
  lemma AddObjectIgnoresVariables(nodes: seq<Node>, p: Id, x: Id, increase: bool)
    requires IsItem(nodes, p) && p < x < |nodes|
    ensures nodes[x].VariableNode? <==> AddObject(nodes, p, x, increase) == nodes
  {
    if !nodes[x].VariableNode? {
      var k := if nodes[x].ItemNode? then Children else Lists;
      PlaceFrame(nodes, p, x, increase);
      RegisterFrame(Place(nodes, p, x, increase), p, k, x);
      assert Entries(AddObject(nodes, p, x, increase), p, k) != Entries(nodes, p, k);
    }
  }

  // ---------------------------------------------------------------------
  // The constructors of the three classes

  /** new ClausewitzItem(parent, name, order, hasEquals, increaseOrder); the
    * shorter overloads pass hasEquals = true and increaseOrder = false, and
    * the no-argument one builds the root DEFAULT_NAME with no parent. */
  function NewItem(nodes: seq<Node>, parent: Option<Id>, name: string, order: int, hasEquals: bool, increase: bool): (r: seq<Node>)
    requires parent.Some? ==> IsItem(nodes, parent.value)
    ensures |r| == |nodes| + 1
  {
    Construct(nodes, ItemNode(name, order, parent, hasEquals, false, Unallocated, Unallocated, Unallocated), increase)
  }

  function NewRoot(nodes: seq<Node>): (r: seq<Node>)
    ensures |r| == |nodes| + 1
  {
    NewItem(nodes, None, DEFAULT_NAME, 0, true, false)
  }

  /** addChild(name[, hasEquals]): a new child at the next order. */
  function AddChildNamed(nodes: seq<Node>, p: Id, name: string, hasEquals: bool): (r: seq<Node>)
    requires IsItem(nodes, p)
    ensures |r| == |nodes| + 1
  {
    NewItem(nodes, Some(p), name, NbObjects(nodes, p), hasEquals, false)
  }

  /** new ClausewitzVariable(name, order, value): a plain object, registered nowhere. */
  function NewVariable(nodes: seq<Node>, name: string, order: int, v: Setting): (r: seq<Node>)
    requires SettingOk(v)
    ensures |r| == |nodes| + 1 && r[..|nodes|] == nodes
  {
    nodes + [VariableNode(name, order, SettingText(v))]
  }

  /** new ClausewitzVariable(other): name, order and value copied. */
  function CopyVariable(nodes: seq<Node>, i: Id): (r: seq<Node>)
    requires i < |nodes| && nodes[i].VariableNode?
    ensures |r| == |nodes| + 1 && r[..|nodes|] == nodes
  {
    nodes + [VariableNode(nodes[i].name, nodes[i].order, nodes[i].value)]
  }

  /** A copy carries the original's name, order and value, and equals it. */
  lemma CopyVariableSpec(nodes: seq<Node>, i: Id)
    requires i < |nodes| && nodes[i].VariableNode?
    ensures var r := CopyVariable(nodes, i);
      r[|nodes|].VariableNode? && r[|nodes|].name == nodes[i].name && r[|nodes|].order == nodes[i].order
      && r[|nodes|].value == nodes[i].value && VariableEquals(r, |nodes|, i)
  {
    var nm := nodes[i].name;
    assert forall j :: 0 <= j < |nm| ==> CharEqualsIgnoreCase(nm[j], nm[j]);
  }

  /** new ClausewitzList(parent, name, order, sameLine, hasBrackets) with no
    * values yet; a null sameLine reads as false. */
  function ListNodeOf(parent: Option<Id>, name: string, order: int, sameLine: bool, hasBrackets: bool): Node
  {
    ListNode(name, order, parent, false, [], sameLine, hasBrackets)
  }

  /** new ClausewitzList(other): name and order copied, the same parent, then
    * registered there with increaseOrder = false. */
  function CopyList(nodes: seq<Node>, l: Id): (r: seq<Node>)
    requires l < |nodes| && nodes[l].ListNode?
    requires nodes[l].parent.Some? ==> IsItem(nodes, nodes[l].parent.value)
    ensures |r| == |nodes| + 1
  {
    Construct(nodes, nodes[l], false)
  }

  /** The copy of a list holds the same values and the same flags, sits under
    * the same parent, and is appended there at order getNbObjects(). */
  lemma CopyListSpec(nodes: seq<Node>, l: Id)
    requires WF(nodes) && l < |nodes| && nodes[l].ListNode?
    requires nodes[l].parent.Some? ==> IsItem(nodes, nodes[l].parent.value)
    ensures var r := CopyList(nodes, l);
      var c := r[|nodes|];
      c.ListNode? && c.name == nodes[l].name && c.parent == nodes[l].parent
      && c.valuesCreated == nodes[l].valuesCreated && c.values == nodes[l].values
      && c.sameLine == nodes[l].sameLine && c.hasBrackets == nodes[l].hasBrackets
    ensures var r := CopyList(nodes, l);
      nodes[l].parent.Some? ==>
        Entries(r, nodes[l].parent.value, Lists) == Entries(nodes, nodes[l].parent.value, Lists) + [|nodes|]
        && Ord(r, |nodes|) == NbObjects(nodes, nodes[l].parent.value)
  {
    assert NodeWF(nodes, l);
    ConstructSpec(nodes, nodes[l], false);
  }

  // ---------------------------------------------------------------------
  // getParent / getRoot

  /** getParent: the construction-time parent (Variables have none). */
  function GetParent(nodes: seq<Node>, i: Id): Option<Id>
    requires i < |nodes|
  {
    Parent(nodes[i])
  }

  /** a is i or an ancestor of i through parent links. */
  ghost predicate IsAncestor(nodes: seq<Node>, a: Id, i: Id)
    requires WF(nodes) && i < |nodes|
    decreases i
  {
    a == i || (Parent(nodes[i]).Some? && (assert NodeWF(nodes, i); IsAncestor(nodes, a, Parent(nodes[i]).value)))
  }

  /** getRoot: the object itself without a parent, otherwise its parent's root. */
  function GetRoot(nodes: seq<Node>, i: Id): (r: Id)
    requires WF(nodes) && i < |nodes|
    ensures r <= i && Parent(nodes[r]).None?
    decreases i
  {
    match Parent(nodes[i])
    case None => i
    case Some(q) => assert NodeWF(nodes, i); GetRoot(nodes, q)
  }

  /** The root is an ancestor with no parent, and the only one. */
  lemma {:induction false} GetRootSpec(nodes: seq<Node>, i: Id)
    requires WF(nodes) && i < |nodes|
    ensures IsAncestor(nodes, GetRoot(nodes, i), i)
    ensures forall a: Id :: IsAncestor(nodes, a, i) && a < |nodes| && Parent(nodes[a]).None? ==> a == GetRoot(nodes, i)
    decreases i
  {
    if Parent(nodes[i]).Some? {
      assert NodeWF(nodes, i);
      var q := Parent(nodes[i]).value;
      GetRootSpec(nodes, q);
    }
  }

  /** Registration never changes a parent link: getParent is the
    * construction-time parent whatever is added later. */
  lemma AddKeepsParents(nodes: seq<Node>, p: Id, k: Kind, x: Id, increase: bool)
    requires IsItem(nodes, p) && p < x < |nodes|
    ensures forall i :: 0 <= i < |nodes| ==> GetParent(Add(nodes, p, k, x, increase), i) == GetParent(nodes, i)
  {
    var placed := Place(nodes, p, x, increase);
    PlaceFrame(nodes, p, x, increase);
    RegisterFrame(placed, p, k, x);
    forall i | 0 <= i < |nodes|
      ensures GetParent(Add(nodes, p, k, x, increase), i) == GetParent(nodes, i)
    {
      assert Shape(nodes[i]) == Shape(placed[i]);
      if i == p {
        assert Add(nodes, p, k, x, increase)[p] == WithColl(placed[p], k, Get(Add(nodes, p, k, x, increase), p, k));
      }
    }
  }

  // ---------------------------------------------------------------------
  // setName / setValue

  /** setName: the name field, nothing else; in particular the name index of
    * the parent is not updated. */
  function SetName(nodes: seq<Node>, i: Id, name: string): (r: seq<Node>)
    requires i < |nodes|
    ensures |r| == |nodes|
  {
    nodes[i := nodes[i].(name := name)]
  }

  /** setName changes the name of one object and keeps its order and every
    * other field and object; the lookups by name still answer from the
    * buckets built before the rename. */
  lemma SetNameSpec(nodes: seq<Node>, i: Id, name: string)
    requires WF(nodes) && i < |nodes|
    ensures var r := SetName(nodes, i, name);
      WF(r) && SameOrders(nodes, r) && NameOf(r, i) == name
      && (forall j :: 0 <= j < |nodes| && j != i ==> r[j] == nodes[j])
      && (forall q: Id, k: Kind, nm: string :: Bucket(r, q, k, nm) == Bucket(nodes, q, k, nm))
  {
    var r := SetName(nodes, i, name);
    assert SameShapes(nodes, r) by {
      forall j | 0 <= j < |nodes| ensures Shape(nodes[j]) == Shape(r[j]) { }
    }
    WFFrame(nodes, r);
    forall q: Id, k: Kind, nm: string
      ensures Bucket(r, q, k, nm) == Bucket(nodes, q, k, nm)
    {
      assert Get(r, q, k) == Get(nodes, q, k);
    }
  }

  /** setValue on a variable: the value field, nothing else. */
  function SetValue(nodes: seq<Node>, i: Id, v: Setting): (r: seq<Node>)
    requires i < |nodes| && nodes[i].VariableNode? && SettingOk(v)
    ensures |r| == |nodes|
  {
    nodes[i := nodes[i].(value := SettingText(v))]
  }

  /** setValue keeps the arena, every name, order and index, and changes the
    * one value, which reads back through the matching getAs* accessor. */
  lemma SetValueSpec(nodes: seq<Node>, i: Id, v: Setting)
    requires WF(nodes) && i < |nodes| && nodes[i].VariableNode? && SettingOk(v)
    ensures var r := SetValue(nodes, i, v);
      WF(r) && SameOrders(nodes, r) && SameNames(nodes, r)
      && r[i].value == SettingText(v)
      && (forall j :: 0 <= j < |nodes| && j != i ==> r[j] == nodes[j])
      && (forall q: Id, k: Kind :: Indexed(nodes, q, k) ==> Indexed(r, q, k))
    ensures ReadsBack(SettingText(v), v)
  {
    var r := SetValue(nodes, i, v);
    assert SameShapes(nodes, r) by {
      forall j | 0 <= j < |nodes| ensures Shape(nodes[j]) == Shape(r[j]) { }
    }
    WFFrame(nodes, r);
    forall q: Id, k: Kind | Indexed(nodes, q, k)
      ensures Indexed(r, q, k)
    {
      assert Get(r, q, k) == Get(nodes, q, k);
      IndexedFrame(nodes, r, q, k);
    }
    SettingReadsBack(v);
  }

  // ---------------------------------------------------------------------
  // Edits of one node that keep its shape

  lemma EditKeeps(nodes: seq<Node>, i: Id, n: Node)
    requires WF(nodes) && i < |nodes| && Shape(n) == Shape(nodes[i])
    ensures WF(nodes[i := n])
    ensures forall q: Id, k: Kind :: Get(nodes[i := n], q, k) == Get(nodes, q, k)
    ensures n.name == nodes[i].name ==> SameNames(nodes, nodes[i := n])
    ensures n.name == nodes[i].name ==> forall q: Id, k: Kind :: Indexed(nodes, q, k) ==> Indexed(nodes[i := n], q, k)
  {
    var r := nodes[i := n];
    assert SameShapes(nodes, r) by {
      forall j | 0 <= j < |nodes| ensures Shape(nodes[j]) == Shape(r[j]) { }
    }
    WFFrame(nodes, r);
    forall q: Id, k: Kind
      ensures Get(r, q, k) == Get(nodes, q, k)
    {
      if q < |nodes| {
        assert Shape(r[q]) == Shape(nodes[q]);
      }
    }
    if n.name == nodes[i].name {
      forall q: Id, k: Kind | Indexed(nodes, q, k)
        ensures Indexed(r, q, k)
      {
        IndexedFrame(nodes, r, q, k);
      }
    }
  }

  // ---------------------------------------------------------------------
  // The values of a list object

  function ValuesOf(nodes: seq<Node>, l: Id): ValueLists.Values
    requires l < |nodes| && nodes[l].ListNode?
  {
    ValueLists.Values(nodes[l].valuesCreated, nodes[l].values)
  }

  /** The list object l with its values replaced by v. */
  function WithValues(nodes: seq<Node>, l: Id, v: ValueLists.Values): (r: seq<Node>)
    requires l < |nodes| && nodes[l].ListNode?
    ensures |r| == |nodes| && r[l].ListNode?
  {
    nodes[l := nodes[l].(valuesCreated := v.created, values := v.items)]
  }

  /** Changing a list's values changes nothing else: not its name, order or
    * flags, not another object, not a collection or an index. */
  lemma WithValuesSpec(nodes: seq<Node>, l: Id, v: ValueLists.Values)
    requires WF(nodes) && l < |nodes| && nodes[l].ListNode?
    ensures var r := WithValues(nodes, l, v);
      WF(r) && SameNames(nodes, r) && SameOrders(nodes, r) && ValuesOf(r, l) == v
      && r[l] == nodes[l].(valuesCreated := v.created, values := v.items)
      && (forall j :: 0 <= j < |nodes| && j != l ==> r[j] == nodes[j])
      && (forall q: Id, k: Kind :: Get(r, q, k) == Get(nodes, q, k))
      && (forall q: Id, k: Kind :: Indexed(nodes, q, k) ==> Indexed(r, q, k))
  {
    EditKeeps(nodes, l, nodes[l].(valuesCreated := v.created, values := v.items));
  }

  // ---------------------------------------------------------------------
  // The List constructor with increaseOrder

  /** The list constructor's own pass when increaseOrder is set, run after
    * addList(this, true) already shifted the siblings: over the parent's
    * entries in getAllOrdered order it skips the list itself (co.equals(this))
    * and moves up every other entry at or above the order.  The equals call
    * reads the other object's values, so a list of the same name whose values
    * were never allocated raises NullPointerException, after the entries
    * before it were already moved. */
  function ShiftAgain(nodes: seq<Node>, s: seq<Id>, x: Id, o: int): (e: Effect<()>)
    requires x < |nodes|
    ensures |e.nodes| == |nodes|
    decreases |s|
  {
    if s == [] then Effect(nodes, Ok(()))
    else
      var co := s[0];
      if co == x then ShiftAgain(nodes, s[1..], x, o)
      else if co < |nodes| && nodes[co].ListNode? && nodes[co].name == nodes[x].name && !nodes[co].valuesCreated then
        Effect(nodes, Thrown(NullPointer))
      else if co < |nodes| && nodes[co].order >= o then
        ShiftAgain(nodes[co := nodes[co].(order := nodes[co].order + 1)], s[1..], x, o)
      else ShiftAgain(nodes, s[1..], x, o)
  }

  /** No entry of s other than x makes equals dereference a null list. */
  predicate EqualsSafe(nodes: seq<Node>, s: seq<Id>, x: Id)
    requires x < |nodes|
  {
    forall j :: 0 <= j < |s| && s[j] != x && s[j] < |nodes| && nodes[s[j]].ListNode? && nodes[s[j]].name == nodes[x].name
      ==> nodes[s[j]].valuesCreated
  }

  /** Without a null list to trip over, the pass moves every entry but x at
    * or above o up by one and changes nothing else. */
  lemma ShiftAgainOrders(nodes: seq<Node>, s: seq<Id>, x: Id, o: int)
    requires x < |nodes| && Distinct(s) && EqualsSafe(nodes, s, x)
    requires forall j :: 0 <= j < |s| ==> s[j] < |nodes|
    ensures var e := ShiftAgain(nodes, s, x, o);
      e.out == Ok(()) && SameShapes(nodes, e.nodes) && SameNames(nodes, e.nodes)
      && (forall q: Id, k: Kind :: Get(e.nodes, q, k) == Get(nodes, q, k))
      && forall i :: 0 <= i < |nodes| ==>
           Ord(e.nodes, i) == if i in s && i != x && Ord(nodes, i) >= o then Ord(nodes, i) + 1 else Ord(nodes, i)
  {
    ShiftAgainFrame(nodes, s, x, o);
    ShiftAgainCompletes(nodes, s, x, o);
    var r := ShiftAgain(nodes, s, x, o).nodes;
    forall i | 0 <= i < |nodes|
      ensures Ord(r, i) == if i in s && i != x && Ord(nodes, i) >= o then Ord(nodes, i) + 1 else Ord(nodes, i)
    {
      ShiftAgainMoves(nodes, s, x, o, i);
    }
    forall q: Id, k: Kind
      ensures Get(r, q, k) == Get(nodes, q, k)
    {
      if q < |nodes| {
        assert Shape(r[q]) == Shape(nodes[q]);
      }
    }
  }

  /** The pass only ever changes orders. */
  lemma {:induction false} ShiftAgainFrame(nodes: seq<Node>, s: seq<Id>, x: Id, o: int)
    requires x < |nodes|
    ensures SameShapes(nodes, ShiftAgain(nodes, s, x, o).nodes) && SameNames(nodes, ShiftAgain(nodes, s, x, o).nodes)
    decreases |s|
  {
    if s != [] {
      var co := s[0];
      if co != x && co < |nodes| && nodes[co].order >= o {
        var bumped := nodes[co := nodes[co].(order := nodes[co].order + 1)];
        ShiftAgainFrame(bumped, s[1..], x, o);
        assert SameShapes(nodes, bumped) by {
          forall j | 0 <= j < |nodes| ensures Shape(nodes[j]) == Shape(bumped[j]) { }
        }
      } else {
        ShiftAgainFrame(nodes, s[1..], x, o);
      }
    } else {
      assert SameShapes(nodes, nodes);
    }
  }

  /** Without a null list to trip over, the pass completes. */
  lemma {:induction false} ShiftAgainCompletes(nodes: seq<Node>, s: seq<Id>, x: Id, o: int)
    requires x < |nodes| && EqualsSafe(nodes, s, x)
    ensures ShiftAgain(nodes, s, x, o).out == Ok(())
    decreases |s|
  {
    if s != [] {
      var co := s[0];
      var t := s[1..];
      assert forall j :: 0 <= j < |t| ==> t[j] == s[j + 1];
      if co != x && co < |nodes| && nodes[co].order >= o {
        var bumped := nodes[co := nodes[co].(order := nodes[co].order + 1)];
        assert EqualsSafe(bumped, t, x);
        ShiftAgainCompletes(bumped, t, x, o);
      } else {
        assert EqualsSafe(nodes, t, x);
        ShiftAgainCompletes(nodes, t, x, o);
      }
    }
  }

  lemma DistinctTail(s: seq<Id>)
    requires Distinct(s) && s != []
    ensures Distinct(s[1..]) && s[0] !in s[1..]
    ensures forall y :: y in s <==> y == s[0] || y in s[1..]
  {
    assert s == [s[0]] + s[1..];
  }

  /** Without a null list to trip over, the pass moves the entry i up by one
    * when it is not x and sits at or above o. */
  lemma {:induction false} ShiftAgainMoves(nodes: seq<Node>, s: seq<Id>, x: Id, o: int, i: Id)
    requires x < |nodes| && Distinct(s) && EqualsSafe(nodes, s, x) && i < |nodes|
    requires forall j :: 0 <= j < |s| ==> s[j] < |nodes|
    ensures Ord(ShiftAgain(nodes, s, x, o).nodes, i)
         == if i in s && i != x && Ord(nodes, i) >= o then Ord(nodes, i) + 1 else Ord(nodes, i)
    decreases |s|
  {
    if s != [] {
      var co := s[0];
      var t := s[1..];
      DistinctTail(s);
      if co != x && nodes[co].order >= o {
        var bumped := nodes[co := nodes[co].(order := nodes[co].order + 1)];
        assert EqualsSafe(bumped, t, x);
        ShiftAgainMoves(bumped, t, x, o, i);
      } else {
        assert EqualsSafe(nodes, t, x);
        ShiftAgainMoves(nodes, t, x, o, i);
      }
    }
  }

  /** new ClausewitzList(parent, name, order, sameLine, hasBrackets,
    * increaseOrder) as written: registered through addList(this,
    * increaseOrder), then, with increaseOrder, shifted a second time by its
    * own pass, which with a null parent dereferences null.  The result is the
    * new list. */
  function NewListAsWritten(nodes: seq<Node>, parent: Option<Id>, name: string, order: int,
                            sameLine: bool, hasBrackets: bool, increase: bool): (e: Effect<Id>)
    requires parent.Some? ==> IsItem(nodes, parent.value)
    ensures |e.nodes| == |nodes| + 1
  {
    var r := Construct(nodes, ListNodeOf(parent, name, order, sameLine, hasBrackets), increase);
    var x := |nodes|;
    if !increase then Effect(r, Ok(x))
    else match parent
      case None => Effect(r, Thrown(NullPointer))
      case Some(p) =>
        var e := ShiftAgain(r, AllOrdered(r, p), x, order);
        Effect(e.nodes, if e.out.Thrown? then Thrown(e.out.exception) else Ok(x))
  }

  /** The constructor as evidently intended: registration through addList
    * alone, which already keeps the new list at its order and moves the
    * siblings at or above it. */
  function NewList(nodes: seq<Node>, parent: Option<Id>, name: string, order: int,
                   sameLine: bool, hasBrackets: bool, increase: bool): (r: seq<Node>)
    requires parent.Some? ==> IsItem(nodes, parent.value)
    ensures |r| == |nodes| + 1 && r[|nodes|].ListNode? && r[|nodes|].values == [] && !r[|nodes|].valuesCreated
  {
    Construct(nodes, ListNodeOf(parent, name, order, sameLine, hasBrackets), increase)
  }

  /** Entries of an item that are lists are in its list collection. */
  lemma ListEntries(nodes: seq<Node>, p: Id, y: Id)
    requires WF(nodes) && IsItem(nodes, p) && y in AllEntries(nodes, p)
    ensures y < |nodes| && (nodes[y].ListNode? <==> y in Entries(nodes, p, Lists))
  {
    AllEntriesInRange(nodes, p, y);
    if y in Entries(nodes, p, Children) {
      EntryKind(nodes, p, Children, y);
    }
    if y in Entries(nodes, p, Variables) {
      EntryKind(nodes, p, Variables, y);
    }
    if y in Entries(nodes, p, Lists) {
      EntryKind(nodes, p, Lists, y);
    }
  }

  lemma AllOrderedMembers(nodes: seq<Node>, p: Id)
    requires WF(nodes)
    ensures forall y :: y in AllOrdered(nodes, p) <==> y in AllEntries(nodes, p)
  {
    AllOrderedSpec(nodes, p);
    var c, v, l := Entries(nodes, p, Children), Entries(nodes, p, Variables), Entries(nodes, p, Lists);
    assert multiset(AllEntries(nodes, p)) == multiset(c) + multiset(v) + multiset(l);
    forall y
      ensures y in AllOrdered(nodes, p) <==> y in AllEntries(nodes, p)
    {
      assert y in AllOrdered(nodes, p) <==> y in multiset(AllOrdered(nodes, p));
      assert y in AllEntries(nodes, p) <==> y in multiset(AllEntries(nodes, p));
    }
  }

  /** With increaseOrder and a parent, and no list of the same name without
    * values among the siblings, the constructor as written moves every
    * sibling at or above the order up by two, where the intended
    * constructor moves it up by one; both keep the new list at the order,
    * and the two arenas hold the same collections. */
  lemma NewListAsWrittenShiftsTwice(nodes: seq<Node>, p: Id, name: string, o: int, sameLine: bool, hasBrackets: bool)
    requires WF(nodes) && IsItem(nodes, p)
    requires forall y :: (y in Entries(nodes, p, Lists) && y < |nodes| && nodes[y].ListNode? && nodes[y].name == name
      ==> nodes[y].valuesCreated)
    ensures var e := NewListAsWritten(nodes, Some(p), name, o, sameLine, hasBrackets, true);
      e.out == Ok(|nodes|) && Ord(e.nodes, |nodes|) == o
      && forall i :: i in AllEntries(nodes, p) ==>
           Ord(e.nodes, i) == if Ord(nodes, i) >= o then Ord(nodes, i) + 2 else Ord(nodes, i)
    ensures var r := NewList(nodes, Some(p), name, o, sameLine, hasBrackets, true);
      Ord(r, |nodes|) == o
      && forall i :: i in AllEntries(nodes, p) ==>
           Ord(r, i) == if Ord(nodes, i) >= o then Ord(nodes, i) + 1 else Ord(nodes, i)
    ensures var e := NewListAsWritten(nodes, Some(p), name, o, sameLine, hasBrackets, true);
      var r := NewList(nodes, Some(p), name, o, sameLine, hasBrackets, true);
      forall q: Id, k: Kind :: Get(e.nodes, q, k) == Get(r, q, k)
  {
    var n := ListNodeOf(Some(p), name, o, sameLine, hasBrackets);
    var x := |nodes|;
    var r := Construct(nodes, n, true);
    ConstructSpec(nodes, n, true);
    var s := AllOrdered(r, p);
    NewListSiblings(nodes, p, name, o, sameLine, hasBrackets);
    ShiftAgainOrders(r, s, x, o);
  }

  /** The second pass of the constructor as written runs over every sibling
    * and the new list, none of them a null list of the same name. */
  lemma NewListSiblings(nodes: seq<Node>, p: Id, name: string, o: int, sameLine: bool, hasBrackets: bool)
    requires WF(nodes) && IsItem(nodes, p)
    requires forall y :: (y in Entries(nodes, p, Lists) && y < |nodes| && nodes[y].ListNode? && nodes[y].name == name
      ==> nodes[y].valuesCreated)
    ensures var r := Construct(nodes, ListNodeOf(Some(p), name, o, sameLine, hasBrackets), true);
      var s := AllOrdered(r, p);
      |nodes| < |r| && Distinct(s) && EqualsSafe(r, s, |nodes|) && (forall j :: 0 <= j < |s| ==> s[j] < |r|)
      && forall i :: i in AllEntries(nodes, p) ==> i < |nodes| && i in s && i != |nodes|
  {
    var n := ListNodeOf(Some(p), name, o, sameLine, hasBrackets);
    var x := |nodes|;
    var grown := nodes + [n];
    var r := Construct(nodes, n, true);
    assert r == Add(grown, p, Lists, x, true);
    ConstructSpec(nodes, n, true);
    AppendKeeps(nodes, n);
    AddShape(grown, p, Lists, x, true);
    AddOnlyOrders(grown, p, Lists, x, true);
    var s := AllOrdered(r, p);
    AllOrderedSpec(r, p);
    AllOrderedMembers(r, p);
    assert AllEntries(grown, p) == AllEntries(nodes, p);
    assert forall y :: y in s <==> y in AllEntries(nodes, p) || y == x;
    forall j | 0 <= j < |s|
      ensures s[j] < |r|
    {
      assert s[j] in s;
      if s[j] != x {
        AllEntriesInRange(nodes, p, s[j]);
      }
    }
    forall j | 0 <= j < |s| && s[j] != x && s[j] < |r| && r[s[j]].ListNode? && r[s[j]].name == r[x].name
      ensures r[s[j]].valuesCreated
    {
      var y := s[j];
      assert y in s;
      ListEntries(nodes, p, y);
      assert SameButOrder(r[y], grown[y]);
    }
    forall i | i in AllEntries(nodes, p)
      ensures i < |nodes| && i in s && i != x
    {
      AllEntriesInRange(nodes, p, i);
    }
  }

  /** The root with one variable "v" of order 0. */
  function OneVariable(): seq<Node>
  {
    [ItemNode(DEFAULT_NAME, 0, None, true, false, Unallocated, Coll(true, [1], map["v" := [1]]), Unallocated),
     VariableNode("v", 0, "1")]
  }

  lemma OneVariableWF()
    ensures |OneVariable()| == 2 && OneVariable()[1] == VariableNode("v", 0, "1")
    ensures WF(OneVariable()) && IsItem(OneVariable(), 0) && Dense(OneVariable(), 0)
    ensures AllEntries(OneVariable(), 0) == [1] && Entries(OneVariable(), 0, Lists) == []
  {
    var nodes := OneVariable();
    assert AllEntries(nodes, 0) == [1];
    forall i | 0 <= i < |nodes|
      ensures NodeWF(nodes, i)
    {
      if i == 0 {
        assert IdsOk(nodes, 0, Variables, [1]);
        assert CollWF(nodes, 0, Variables);
      } else {
        LeafWF(nodes, i);
      }
    }
  }

  /** Whenever an entry at or above the order already holds the top order
    * getNbObjects() - 1, the constructor as written leaves it beyond the
    * range of orders of the grown item: the orders are no longer dense. */
  lemma NewListAsWrittenBreaksDense(nodes: seq<Node>, p: Id, name: string, o: int, sameLine: bool, hasBrackets: bool, m: Id)
    requires WF(nodes) && IsItem(nodes, p)
    requires forall y :: (y in Entries(nodes, p, Lists) && y < |nodes| && nodes[y].ListNode? && nodes[y].name == name
      ==> nodes[y].valuesCreated)
    requires m in AllEntries(nodes, p) && Ord(nodes, m) >= o && Ord(nodes, m) >= NbObjects(nodes, p) - 1
    ensures var e := NewListAsWritten(nodes, Some(p), name, o, sameLine, hasBrackets, true);
      e.out == Ok(|nodes|) && !Dense(e.nodes, p)
  {
    NewListAsWrittenShiftsTwice(nodes, p, name, o, sameLine, hasBrackets);
    var e := NewListAsWritten(nodes, Some(p), name, o, sameLine, hasBrackets, true);
    var n := ListNodeOf(Some(p), name, o, sameLine, hasBrackets);
    var grown := nodes + [n];
    var r := NewList(nodes, Some(p), name, o, sameLine, hasBrackets, true);
    AppendKeeps(nodes, n);
    assert r == Add(grown, p, Lists, |nodes|, true);
    AddShape(grown, p, Lists, |nodes|, true);
    assert NbObjects(grown, p) == NbObjects(nodes, p);
    assert AllEntries(e.nodes, p) == AllEntries(r, p);
    assert m in AllEntries(e.nodes, p) && Ord(e.nodes, m) >= |AllEntries(e.nodes, p)|;
  }

  /** addList("l", 0, ..., increaseOrder = true, ...) in front of a lone
    * variable: as written the variable ends at order 2 of two entries. */
  lemma NewListAsWrittenSkipsOrder(nodes: seq<Node>)
    requires nodes == OneVariable()
    ensures var e := NewListAsWritten(nodes, Some(0), "l", 0, false, true, true);
      e.out == Ok(2) && Ord(e.nodes, 1) == 2 && Ord(e.nodes, 2) == 0 && !Dense(e.nodes, 0)
  {
    OneVariableWF();
    assert 1 in AllEntries(nodes, 0);
    NewListAsWrittenShiftsTwice(nodes, 0, "l", 0, false, true);
    NewListAsWrittenBreaksDense(nodes, 0, "l", 0, false, true, 1);
  }

  /** With no parent, the constructor as written with increaseOrder raises
    * NullPointerException; the intended one builds the detached list. */
  lemma NewListAsWrittenNeedsParent(nodes: seq<Node>, name: string, o: int, sameLine: bool, hasBrackets: bool)
    ensures NewListAsWritten(nodes, None, name, o, sameLine, hasBrackets, true).out == Thrown(NullPointer)
    ensures NewList(nodes, None, name, o, sameLine, hasBrackets, true) == nodes + [ListNodeOf(None, name, o, sameLine, hasBrackets)]
  {
  }

  /** The intended constructor keeps the orders of the parent dense when the
    * order is within 0 .. getNbObjects(); on the example above the variable
    * moves to order 1. */
  lemma NewListKeepsDense(nodes: seq<Node>, p: Id, name: string, o: int, sameLine: bool, hasBrackets: bool)
    requires WF(nodes) && IsItem(nodes, p) && Dense(nodes, p) && 0 <= o <= NbObjects(nodes, p)
    ensures var r := NewList(nodes, Some(p), name, o, sameLine, hasBrackets, true);
      Dense(r, p) && AllEntries(r, p) == AllEntries(nodes, p) + [|nodes|]
  {
    var n := ListNodeOf(Some(p), name, o, sameLine, hasBrackets);
    var x := |nodes|;
    var grown := nodes + [n];
    AppendKeeps(nodes, n);
    assert AllEntries(grown, p) == AllEntries(nodes, p);
    assert Dense(grown, p) by {
      forall m | m in AllEntries(grown, p)
        ensures Ord(grown, m) == Ord(nodes, m)
      {
        AllEntriesInRange(nodes, p, m);
      }
    }
    AddKeepsDense(grown, p, Lists, x, true);
    AddShape(grown, p, Lists, x, true);
  }

  /** Appending a detached node keeps the orders of every item as they were. */
  lemma DenseExtend(nodes: seq<Node>, n: Node, p: Id)
    requires WF(nodes) && Fresh(nodes, n) && Dense(nodes, p)
    ensures Dense(nodes + [n], p) && AllEntries(nodes + [n], p) == AllEntries(nodes, p)
    ensures NbObjects(nodes + [n], p) == NbObjects(nodes, p)
  {
    var grown := nodes + [n];
    AppendKeeps(nodes, n);
    if p < |nodes| {
      assert AllEntries(grown, p) == AllEntries(nodes, p);
    } else {
      assert AllEntries(grown, p) == [] == AllEntries(nodes, p);
    }
    forall m | m in AllEntries(grown, p)
      ensures Ord(grown, m) == Ord(nodes, m)
    {
      AllEntriesInRange(nodes, p, m);
    }
  }

  // ---------------------------------------------------------------------
  // Variables of an item

  /** Registering x appends it to the bucket of its name, creating the
    * bucket if need be, and leaves every other bucket alone. */
  lemma AddBucket(nodes: seq<Node>, p: Id, k: Kind, x: Id, increase: bool)
    requires WF(nodes) && IsItem(nodes, p) && p < x < |nodes|
    ensures var r := Add(nodes, p, k, x, increase);
      Bucket(r, p, k, NameOf(nodes, x)) == Some(AllNamed(nodes, p, k, NameOf(nodes, x)) + [x])
      && forall nm :: nm != NameOf(nodes, x) ==> Bucket(r, p, k, nm) == Bucket(nodes, p, k, nm)
  {
    var placed := Place(nodes, p, x, increase);
    PlaceFrame(nodes, p, x, increase);
    assert NodeWF(nodes, p) && CollWF(nodes, p, k);
    assert Get(placed, p, k) == Get(nodes, p, k);
    assert NameOf(placed, x) == NameOf(nodes, x);
    RegisterBucket(placed, p, k, x);
    forall nm
      ensures Bucket(placed, p, k, nm) == Bucket(nodes, p, k, nm)
    {
    }
  }

  /** Registration appends x to the bucket of its name and leaves the other
    * buckets alone. */
  lemma RegisterBucket(nodes: seq<Node>, p: Id, k: Kind, x: Id)
    requires IsItem(nodes, p) && (!Get(nodes, p, k).created ==> Get(nodes, p, k).index == map[])
    ensures var r := Register(nodes, p, k, x);
      Bucket(r, p, k, NameOf(nodes, x)) == Some(AllNamed(nodes, p, k, NameOf(nodes, x)) + [x])
      && forall nm :: nm != NameOf(nodes, x) ==> Bucket(r, p, k, nm) == Bucket(nodes, p, k, nm)
  {
    RegisterFrame(nodes, p, k, x);
  }

  /** addVariable(name, value, order[, increaseOrders]): a new variable built
    * with the order, then registered; the overloads without the flag pass
    * true. */
  function AddVariableAt(nodes: seq<Node>, p: Id, name: string, v: Setting, order: int, increase: bool): (r: seq<Node>)
    requires IsItem(nodes, p) && SettingOk(v)
    ensures |r| == |nodes| + 1
  {
    Add(nodes + [VariableNode(name, order, SettingText(v))], p, Variables, |nodes|, increase)
  }

  /** addVariable(name, value): a new variable at order getNbObjects(). */
  function AddVariable(nodes: seq<Node>, p: Id, name: string, v: Setting): (r: seq<Node>)
    requires IsItem(nodes, p) && SettingOk(v)
    ensures |r| == |nodes| + 1
  {
    AddVariableAt(nodes, p, name, v, NbObjects(nodes, p), false)
  }

  /** A new variable: it is the next object, holds the name and the value
    * (which reads back through its getter), is the last variable of the item
    * and the last of its name, which getLastVar(name) then finds; it takes
    * order getNbObjects(), or its own order with the siblings at or above it
    * moved up; the arena stays well formed, exact indexes stay exact and
    * dense orders stay dense (for an order within 0 .. getNbObjects()). */
  lemma AddVariableAtSpec(nodes: seq<Node>, p: Id, name: string, v: Setting, order: int, increase: bool)
    requires WF(nodes) && IsItem(nodes, p) && SettingOk(v)
    ensures var r := AddVariableAt(nodes, p, name, v, order, increase);
      var x := |nodes|;
      WF(r) && r[x].VariableNode? && r[x].name == name && ReadsBack(r[x].value, v)
      && Entries(r, p, Variables) == Entries(nodes, p, Variables) + [x]
      && (forall q: Id, k: Kind :: (q, k) != (p, Variables) && q < |nodes| ==> Get(r, q, k) == Get(nodes, q, k))
      && AllNamed(r, p, Variables, name) == AllNamed(nodes, p, Variables, name) + [x]
      && LastNamed(r, p, Variables, name) == Ok(Some(x))
      && (forall q: Id, k: Kind :: Indexed(nodes, q, k) ==> Indexed(r, q, k))
    ensures var r := AddVariableAt(nodes, p, name, v, order, increase);
      var x := |nodes|;
      (!increase ==> Ord(r, x) == NbObjects(nodes, p) && forall i :: 0 <= i < |nodes| ==> Ord(r, i) == Ord(nodes, i))
      && (increase ==> Ord(r, x) == order
                       && forall i :: 0 <= i < |nodes| ==>
                            Ord(r, i) == if i in AllEntries(nodes, p) && Ord(nodes, i) >= order then Ord(nodes, i) + 1 else Ord(nodes, i))
    ensures Dense(nodes, p) && (increase ==> 0 <= order <= NbObjects(nodes, p)) ==>
      Dense(AddVariableAt(nodes, p, name, v, order, increase), p)
  {
    AddVariableAtShape(nodes, p, name, v, order, increase);
    AddVariableAtOrders(nodes, p, name, v, order, increase);
    if Dense(nodes, p) && (increase ==> 0 <= order <= NbObjects(nodes, p)) {
      var n := VariableNode(name, order, SettingText(v));
      AppendKeeps(nodes, n);
      DenseExtend(nodes, n, p);
      AddKeepsDense(nodes + [n], p, Variables, |nodes|, increase);
    }
  }

  lemma AddVariableAtShape(nodes: seq<Node>, p: Id, name: string, v: Setting, order: int, increase: bool)
    requires WF(nodes) && IsItem(nodes, p) && SettingOk(v)
    ensures var r := AddVariableAt(nodes, p, name, v, order, increase);
      var x := |nodes|;
      WF(r) && r[x].VariableNode? && r[x].name == name && ReadsBack(r[x].value, v)
      && Entries(r, p, Variables) == Entries(nodes, p, Variables) + [x]
      && (forall q: Id, k: Kind :: (q, k) != (p, Variables) && q < |nodes| ==> Get(r, q, k) == Get(nodes, q, k))
      && AllNamed(r, p, Variables, name) == AllNamed(nodes, p, Variables, name) + [x]
      && LastNamed(r, p, Variables, name) == Ok(Some(x))
      && (forall q: Id, k: Kind :: Indexed(nodes, q, k) ==> Indexed(r, q, k))
  {
    var n := VariableNode(name, order, SettingText(v));
    var grown := nodes + [n];
    var x := |nodes|;
    AppendKeeps(nodes, n);
    AddShape(grown, p, Variables, x, increase);
    AddBucket(grown, p, Variables, x, increase);
    AddOnlyOrders(grown, p, Variables, x, increase);
    SettingReadsBack(v);
    assert Get(grown, p, Variables) == Get(nodes, p, Variables);
    assert AllNamed(grown, p, Variables, name) == AllNamed(nodes, p, Variables, name);
  }

  lemma AddVariableAtOrders(nodes: seq<Node>, p: Id, name: string, v: Setting, order: int, increase: bool)
    requires WF(nodes) && IsItem(nodes, p) && SettingOk(v)
    ensures var r := AddVariableAt(nodes, p, name, v, order, increase);
      var x := |nodes|;
      (!increase ==> Ord(r, x) == NbObjects(nodes, p) && forall i :: 0 <= i < |nodes| ==> Ord(r, i) == Ord(nodes, i))
      && (increase ==> Ord(r, x) == order
                       && forall i :: 0 <= i < |nodes| ==>
                            Ord(r, i) == if i in AllEntries(nodes, p) && Ord(nodes, i) >= order then Ord(nodes, i) + 1 else Ord(nodes, i))
  {
    var n := VariableNode(name, order, SettingText(v));
    var grown := nodes + [n];
    var x := |nodes|;
    AppendKeeps(nodes, n);
    AddOrders(grown, p, Variables, x, increase);
    assert AllEntries(grown, p) == AllEntries(nodes, p);
    assert NbObjects(grown, p) == NbObjects(nodes, p);
  }

  /** On a well-formed arena, what the variable index finds is a variable. */
  lemma FoundVariable(nodes: seq<Node>, p: Id, name: string)
    requires WF(nodes) && IsItem(nodes, p) && FirstNamed(nodes, p, Variables, name).Ok?
    requires FirstNamed(nodes, p, Variables, name).value.Some?
    ensures FirstNamed(nodes, p, Variables, name).value.value < |nodes|
    ensures nodes[FirstNamed(nodes, p, Variables, name).value.value].VariableNode?
  {
    assert NodeWF(nodes, p) && CollWF(nodes, p, Variables);
    var b := Bucket(nodes, p, Variables, name).value;
    assert IdsOk(nodes, p, Variables, b);
  }

  /** setVariable(name, value[, order]): the first variable of that name
    * takes the value; without one a new variable is added, by
    * addVariable(name, value) or, with an order, addVariable(name, value,
    * order).  The result is the variable. */
  function SetVariable(nodes: seq<Node>, p: Id, name: string, v: Setting, order: Option<int>): (e: Effect<Id>)
    requires WF(nodes) && IsItem(nodes, p) && SettingOk(v)
  {
    match FirstNamed(nodes, p, Variables, name)
    case Thrown(ex) => Effect(nodes, Thrown(ex))
    case Ok(None) =>
      var r := match order
        case None => AddVariable(nodes, p, name, v)
        case Some(o) => AddVariableAt(nodes, p, name, v, o, true);
      Effect(r, Ok(|nodes|))
    case Ok(Some(i)) =>
      FoundVariable(nodes, p, name);
      Effect(SetValue(nodes, i, v), Ok(i))
  }

  /** On an exactly indexed item setVariable never raises; afterwards
    * getVar(name) finds the variable it returned, whose value reads back:
    * an existing variable is overwritten in place with no object added,
    * otherwise the new one is the item's last variable. */
  lemma SetVariableSpec(nodes: seq<Node>, p: Id, name: string, v: Setting, order: Option<int>)
    requires WF(nodes) && IsItem(nodes, p) && Indexed(nodes, p, Variables) && SettingOk(v)
    ensures var e := SetVariable(nodes, p, name, v, order);
      e.out.Ok? && e.out.value < |e.nodes| && WF(e.nodes)
      && FirstNamed(e.nodes, p, Variables, name) == Ok(Some(e.out.value))
      && e.nodes[e.out.value].VariableNode? && ReadsBack(e.nodes[e.out.value].value, v)
      && (forall q: Id, k: Kind :: Indexed(nodes, q, k) ==> Indexed(e.nodes, q, k))
    ensures var e := SetVariable(nodes, p, name, v, order);
      Has(nodes, p, Variables, name) ==>
        |e.nodes| == |nodes| && SameOrders(nodes, e.nodes)
        && Entries(e.nodes, p, Variables) == Entries(nodes, p, Variables)
        && forall j :: 0 <= j < |nodes| && j != e.out.value ==> e.nodes[j] == nodes[j]
    ensures var e := SetVariable(nodes, p, name, v, order);
      !Has(nodes, p, Variables, name) ==>
        e.out == Ok(|nodes|) && Entries(e.nodes, p, Variables) == Entries(nodes, p, Variables) + [|nodes|]
  {
    NameLookupsSpec(nodes, p, Variables, name);
    if Has(nodes, p, Variables, name) {
      SetVariableExisting(nodes, p, name, v, order);
    } else {
      SetVariableNew(nodes, p, name, v, order);
    }
  }

  lemma SetVariableExisting(nodes: seq<Node>, p: Id, name: string, v: Setting, order: Option<int>)
    requires WF(nodes) && IsItem(nodes, p) && Indexed(nodes, p, Variables) && SettingOk(v)
    requires FirstNamed(nodes, p, Variables, name).Ok? && FirstNamed(nodes, p, Variables, name).value.Some?
    ensures var e := SetVariable(nodes, p, name, v, order);
      var i := FirstNamed(nodes, p, Variables, name).value.value;
      e.out == Ok(i) && i < |e.nodes| && WF(e.nodes)
      && FirstNamed(e.nodes, p, Variables, name) == Ok(Some(i))
      && e.nodes[i].VariableNode? && ReadsBack(e.nodes[i].value, v)
      && (forall q: Id, k: Kind :: Indexed(nodes, q, k) ==> Indexed(e.nodes, q, k))
      && |e.nodes| == |nodes| && SameOrders(nodes, e.nodes)
      && Entries(e.nodes, p, Variables) == Entries(nodes, p, Variables)
      && forall j :: 0 <= j < |nodes| && j != i ==> e.nodes[j] == nodes[j]
  {
    FoundVariable(nodes, p, name);
    var i := FirstNamed(nodes, p, Variables, name).value.value;
    var r := SetValue(nodes, i, v);
    SetValueSpec(nodes, i, v);
    EditKeeps(nodes, i, nodes[i].(value := SettingText(v)));
    assert Bucket(r, p, Variables, name) == Bucket(nodes, p, Variables, name);
  }

  lemma SetVariableNew(nodes: seq<Node>, p: Id, name: string, v: Setting, order: Option<int>)
    requires WF(nodes) && IsItem(nodes, p) && SettingOk(v)
    requires FirstNamed(nodes, p, Variables, name) == Ok(None)
    ensures var e := SetVariable(nodes, p, name, v, order);
      e.out == Ok(|nodes|) && |nodes| < |e.nodes| && WF(e.nodes)
      && FirstNamed(e.nodes, p, Variables, name) == Ok(Some(|nodes|))
      && e.nodes[|nodes|].VariableNode? && ReadsBack(e.nodes[|nodes|].value, v)
      && (forall q: Id, k: Kind :: Indexed(nodes, q, k) ==> Indexed(e.nodes, q, k))
      && Entries(e.nodes, p, Variables) == Entries(nodes, p, Variables) + [|nodes|]
  {
    var o := match order case None => NbObjects(nodes, p) case Some(o) => o;
    var n := VariableNode(name, o, SettingText(v));
    AddVariableAtSpec(nodes, p, name, v, o, order.Some?);
    AppendKeeps(nodes, n);
    assert Bucket(nodes, p, Variables, name).None?;
    assert AllNamed(nodes, p, Variables, name) == [];
    assert AllNamed(nodes + [n], p, Variables, name) == [] by {
      assert Get(nodes + [n], p, Variables) == Get(nodes, p, Variables);
    }
    AddBucket(nodes + [n], p, Variables, |nodes|, order.Some?);
  }

  /** setVariable(index, value): the variable at that position takes the
    * value; null (no change) for a position outside the list. */
  function SetVariableAt(nodes: seq<Node>, p: Id, index: int, v: Setting): (e: Effect<Option<Id>>)
    requires WF(nodes) && SettingOk(v)
  {
    match Lookups.At(nodes, p, Variables, index)
    case None => Effect(nodes, Ok(None))
    case Some(i) =>
      VariableAt(nodes, p, index);
      Effect(SetValue(nodes, i, v), Ok(Some(i)))
  }

  lemma VariableAt(nodes: seq<Node>, p: Id, index: int)
    requires WF(nodes) && Lookups.At(nodes, p, Variables, index).Some?
    ensures Lookups.At(nodes, p, Variables, index).value < |nodes| && nodes[Lookups.At(nodes, p, Variables, index).value].VariableNode?
  {
    assert p < |nodes| && NodeWF(nodes, p) && CollWF(nodes, p, Variables);
  }

  /** setVariableName(index, name): the variable at that position is
    * renamed; null (no change) for a position outside the list. */
  function SetVariableName(nodes: seq<Node>, p: Id, index: int, name: string): (e: Effect<Option<Id>>)
    requires WF(nodes)
  {
    match Lookups.At(nodes, p, Variables, index)
    case None => Effect(nodes, Ok(None))
    case Some(i) =>
      VariableAt(nodes, p, index);
      Effect(SetName(nodes, i, name), Ok(Some(i)))
  }

  /** Both act on exactly the variable getVar(index) returns, and only on
    * it: its value, resp. its name, changes, and a position outside the
    * list changes nothing. */
  lemma SetVariableAtSpec(nodes: seq<Node>, p: Id, index: int, v: Setting, name: string)
    requires WF(nodes) && SettingOk(v)
    ensures var e := SetVariableAt(nodes, p, index, v);
      e.out == Ok(Lookups.At(nodes, p, Variables, index)) && WF(e.nodes) && |e.nodes| == |nodes|
      && (e.out.value.None? ==> e.nodes == nodes)
      && (e.out.value.Some? ==> e.out.value.value < |e.nodes| && e.nodes[e.out.value.value].VariableNode?
                                && e.nodes[e.out.value.value].value == SettingText(v)
                                && forall j :: 0 <= j < |nodes| && j != e.out.value.value ==> e.nodes[j] == nodes[j])
    ensures var e := SetVariableName(nodes, p, index, name);
      e.out == Ok(Lookups.At(nodes, p, Variables, index)) && WF(e.nodes) && |e.nodes| == |nodes|
      && (e.out.value.None? ==> e.nodes == nodes)
      && (e.out.value.Some? ==> e.out.value.value < |e.nodes| && e.nodes[e.out.value.value].name == name
                                && forall j :: 0 <= j < |nodes| && j != e.out.value.value ==> e.nodes[j] == nodes[j])
  {
    if Lookups.At(nodes, p, Variables, index).Some? {
      VariableAt(nodes, p, index);
      var i := Lookups.At(nodes, p, Variables, index).value;
      SetValueSpec(nodes, i, v);
      SetNameSpec(nodes, i, name);
    }
  }

  // ---------------------------------------------------------------------
  // Lists of an item

  /** addList(name, [order,] sameLine, hasBrackets, [increaseOrder,] values):
    * a new list, then addAll(values).  The overloads without an order pass
    * getNbObjects(); without flags they pass sameLine = false,
    * hasBrackets = true and increaseOrder = false. */
  function AddList(nodes: seq<Node>, p: Id, name: string, order: int, sameLine: bool, hasBrackets: bool,
                   increase: bool, values: seq<string>): (r: seq<Node>)
    requires IsItem(nodes, p)
    ensures |r| == |nodes| + 1 && r[|nodes|].ListNode?
  {
    var r := NewList(nodes, Some(p), name, order, sameLine, hasBrackets, increase);
    WithValues(r, |nodes|, ValueLists.AddAll(ValuesOf(r, |nodes|), values))
  }

  /** A new list: it is the next object, carries the name and the flags,
    * holds what addAll keeps of the values, is the item's last list and the
    * last of its name, which getLastList(name) then finds; its order is
    * getNbObjects() or, with increaseOrder, its own with the siblings at or
    * above it moved up once; the arena stays well formed and exact indexes
    * stay exact. */
  lemma AddListSpec(nodes: seq<Node>, p: Id, name: string, order: int, sameLine: bool, hasBrackets: bool,
                    increase: bool, values: seq<string>)
    requires WF(nodes) && IsItem(nodes, p)
    ensures var r := AddList(nodes, p, name, order, sameLine, hasBrackets, increase, values);
      var x := |nodes|;
      WF(r) && r[x].name == name && r[x].parent == Some(p) && r[x].sameLine == sameLine && r[x].hasBrackets == hasBrackets
      && r[x].values == ValueLists.Normalized(values) && (r[x].valuesCreated <==> ValueLists.Normalized(values) != [])
      && Entries(r, p, Lists) == Entries(nodes, p, Lists) + [x]
      && (forall q: Id, k: Kind :: (q, k) != (p, Lists) && q < |nodes| ==> Get(r, q, k) == Get(nodes, q, k))
      && AllNamed(r, p, Lists, name) == AllNamed(nodes, p, Lists, name) + [x]
      && LastNamed(r, p, Lists, name) == Ok(Some(x))
      && (forall q: Id, k: Kind :: Indexed(nodes, q, k) ==> Indexed(r, q, k))
    ensures var r := AddList(nodes, p, name, order, sameLine, hasBrackets, increase, values);
      var x := |nodes|;
      (!increase ==> Ord(r, x) == NbObjects(nodes, p) && forall i :: 0 <= i < |nodes| ==> Ord(r, i) == Ord(nodes, i))
      && (increase ==> Ord(r, x) == order
                       && forall i :: 0 <= i < |nodes| ==>
                            Ord(r, i) == if i in AllEntries(nodes, p) && Ord(nodes, i) >= order then Ord(nodes, i) + 1 else Ord(nodes, i))
  {
    var n := ListNodeOf(Some(p), name, order, sameLine, hasBrackets);
    var x := |nodes|;
    var grown := nodes + [n];
    var r := NewList(nodes, Some(p), name, order, sameLine, hasBrackets, increase);
    assert r == Add(grown, p, Lists, x, increase);
    ConstructSpec(nodes, n, increase);
    AppendKeeps(nodes, n);
    AddBucket(grown, p, Lists, x, increase);
    assert Get(grown, p, Lists) == Get(nodes, p, Lists);
    var v := ValueLists.AddAll(ValuesOf(r, x), values);
    ValueLists.AddAllSpec(ValuesOf(r, x), values);
    WithValuesSpec(r, x, v);
    var f := WithValues(r, x, v);
    assert Bucket(f, p, Lists, name) == Bucket(r, p, Lists, name);
  }

  /** What getList(name) / getLastList(name) finds on a well-formed arena is
    * a list. */
  lemma FoundList(nodes: seq<Node>, p: Id, name: string, last: bool)
    requires WF(nodes) && IsItem(nodes, p)
    requires var f := if last then LastNamed(nodes, p, Lists, name) else FirstNamed(nodes, p, Lists, name);
      f.Ok? && f.value.Some?
    ensures var f := if last then LastNamed(nodes, p, Lists, name) else FirstNamed(nodes, p, Lists, name);
      f.value.value < |nodes| && nodes[f.value.value].ListNode?
  {
    assert NodeWF(nodes, p) && CollWF(nodes, p, Lists);
    var b := Bucket(nodes, p, Lists, name).value;
    assert IdsOk(nodes, p, Lists, b);
  }

  /** addToExistingList(name, sameLine, values) / addToLastExistingList: the
    * values go to the first (resp. last) list of that name; without one, a
    * new list with them is added at order getNbObjects().  The result is the
    * list. */
  function AddToExistingList(nodes: seq<Node>, p: Id, name: string, sameLine: bool, values: seq<string>, last: bool): (e: Effect<Id>)
    requires WF(nodes) && IsItem(nodes, p)
  {
    match (if last then LastNamed(nodes, p, Lists, name) else FirstNamed(nodes, p, Lists, name))
    case Thrown(ex) => Effect(nodes, Thrown(ex))
    case Ok(None) => Effect(AddList(nodes, p, name, NbObjects(nodes, p), sameLine, true, false, values), Ok(|nodes|))
    case Ok(Some(l)) =>
      FoundList(nodes, p, name, last);
      Effect(WithValues(nodes, l, ValueLists.AddAll(ValuesOf(nodes, l), values)), Ok(l))
  }

  /** On an exactly indexed item the call never raises; the list it returns
    * is the one getList(name) (resp. getLastList(name)) finds afterwards, it
    * carries the name, and its values are the earlier ones followed by what
    * addAll keeps of the new ones; an existing list is extended in place
    * with no object added, otherwise the new list is the item's last. */
  lemma AddToExistingListSpec(nodes: seq<Node>, p: Id, name: string, sameLine: bool, values: seq<string>, last: bool)
    requires WF(nodes) && IsItem(nodes, p) && Indexed(nodes, p, Lists)
    ensures var e := AddToExistingList(nodes, p, name, sameLine, values, last);
      var found := if last then LastNamed(nodes, p, Lists, name) else FirstNamed(nodes, p, Lists, name);
      var after := if last then LastNamed(e.nodes, p, Lists, name) else FirstNamed(e.nodes, p, Lists, name);
      e.out.Ok? && e.out.value < |e.nodes| && WF(e.nodes) && after == Ok(Some(e.out.value))
      && e.nodes[e.out.value].ListNode? && e.nodes[e.out.value].name == name
      && (forall q: Id, k: Kind :: Indexed(nodes, q, k) ==> Indexed(e.nodes, q, k))
      && (found.Ok? && found.value.Some? ==>
            e.out.value == found.value.value && |e.nodes| == |nodes| && nodes[e.out.value].ListNode?
            && e.nodes[e.out.value].values == nodes[e.out.value].values + ValueLists.Normalized(values)
            && (forall j :: 0 <= j < |nodes| && j != e.out.value ==> e.nodes[j] == nodes[j])
            && forall q: Id, k: Kind :: Get(e.nodes, q, k) == Get(nodes, q, k))
      && (Has(nodes, p, Lists, name) <==> found.Ok? && found.value.Some?)
      && (!Has(nodes, p, Lists, name) ==>
            e.out.value == |nodes| && e.nodes[e.out.value].values == ValueLists.Normalized(values)
            && Entries(e.nodes, p, Lists) == Entries(nodes, p, Lists) + [|nodes|])
  {
    NameLookupsSpec(nodes, p, Lists, name);
    if Has(nodes, p, Lists, name) {
      FoundList(nodes, p, name, last);
      var l := (if last then LastNamed(nodes, p, Lists, name) else FirstNamed(nodes, p, Lists, name)).value.value;
      var b := Bucket(nodes, p, Lists, name).value;
      BucketSpec(nodes, p, Lists, name);
      NamedMembers(nodes, Entries(nodes, p, Lists), name, l);
      var v := ValueLists.AddAll(ValuesOf(nodes, l), values);
      ValueLists.AddAllSpec(ValuesOf(nodes, l), values);
      WithValuesSpec(nodes, l, v);
      var f := WithValues(nodes, l, v);
      assert Bucket(f, p, Lists, name) == Bucket(nodes, p, Lists, name);
    } else {
      AddListSpec(nodes, p, name, NbObjects(nodes, p), sameLine, true, false, values);
      assert AllNamed(nodes, p, Lists, name) == [];
    }
  }

  /** lists.sort(comparingInt(getOrder)): the list collection of p stably
    * sorted by order; the name buckets keep their insertion order. */
  function SortLists(nodes: seq<Node>, p: Id): (r: seq<Node>)
    requires IsItem(nodes, p)
    ensures |r| == |nodes|
  {
    var c := Get(nodes, p, Lists);
    SetColl(nodes, p, Lists, c.(entries := SortByOrder(nodes, c.entries)))
  }

  /** Sorting the lists keeps the arena well formed and the same lists, now in
    * order, and changes nothing else. */
  lemma SortListsSpec(nodes: seq<Node>, p: Id)
    requires WF(nodes) && IsItem(nodes, p)
    ensures var r := SortLists(nodes, p);
      WF(r) && SameNames(nodes, r) && SameOrders(nodes, r)
      && SortedByOrder(r, Entries(r, p, Lists))
      && multiset(Entries(r, p, Lists)) == multiset(Entries(nodes, p, Lists))
      && Get(r, p, Lists).index == Get(nodes, p, Lists).index
      && (forall q: Id, k: Kind :: (q, k) != (p, Lists) ==> Get(r, q, k) == Get(nodes, q, k))
      && (forall q: Id, k: Kind :: (q, k) != (p, Lists) && Indexed(nodes, q, k) ==> Indexed(r, q, k))
      && forall i :: 0 <= i < |nodes| && i != p ==> r[i] == nodes[i]
  {
    var c := Get(nodes, p, Lists);
    var c' := c.(entries := SortByOrder(nodes, c.entries));
    var r := SortLists(nodes, p);
    SortListsWF(nodes, p);
    SetCollFrame(nodes, p, Lists, c');
    SortByOrderSpec(nodes, c.entries);
    SortFrame(nodes, r, c.entries);
    forall q: Id, k: Kind | (q, k) != (p, Lists) && Indexed(nodes, q, k)
      ensures Indexed(r, q, k)
    {
      OtherIndexed(nodes, p, Lists, c', q, k);
    }
  }

  lemma SortListsWF(nodes: seq<Node>, p: Id)
    requires WF(nodes) && IsItem(nodes, p)
    ensures WF(SortLists(nodes, p))
  {
    var c := Get(nodes, p, Lists);
    var c' := c.(entries := SortByOrder(nodes, c.entries));
    assert NodeWF(nodes, p) && CollWF(nodes, p, Lists);
    SortByOrderSpec(nodes, c.entries);
    assert Within(c'.entries, c.entries) by {
      forall y | y in c'.entries ensures y in c.entries {
        assert y in multiset(c'.entries);
      }
    }
    assert Shrinks(c, c');
    ShrinkWF(nodes, p, Lists, c');
  }

  // ---------------------------------------------------------------------
  // changeChildToList

  /** removeChildIf(c -> c.order == childOrder) on an item whose orders are
    * unique: it succeeds, takes out exactly the child of that order if there
    * is one, and changes nothing else. */
  lemma ChildRemoved(nodes: seq<Node>, p: Id, c: int)
    requires WF(nodes) && IsItem(nodes, p) && Indexed(nodes, p, Children) && UniqueOrders(nodes, p)
    ensures var e := RemoveFirstMatch(nodes, p, Children, OrderIs(c));
      e.out == Ok(HasChildAt(nodes, p, c)) && KeepsOthers(nodes, e.nodes, p, Children)
      && (forall y :: y in Entries(e.nodes, p, Children) <==> y in Entries(nodes, p, Children) && Ord(nodes, y) != c)
  {
    var s := Entries(nodes, p, Children);
    EntriesInRange(nodes, p);
    MatchOrderIff(nodes, s, c);
    RemoveFirstMatchSpec(nodes, p, Children, OrderIs(c));
    var m := FirstMatch(nodes, s, OrderIs(c));
    if m.Some? {
      OnlyChildAt(nodes, p, m.value, c);
    }
  }

  /** Under unique orders, the child at position i is the only child of its order. */
  lemma OnlyChildAt(nodes: seq<Node>, p: Id, i: nat, c: int)
    requires UniqueOrders(nodes, p) && i < |Entries(nodes, p, Children)|
    requires Ord(nodes, Entries(nodes, p, Children)[i]) == c
    ensures forall y :: y in Entries(nodes, p, Children) ==> (y != Entries(nodes, p, Children)[i] <==> Ord(nodes, y) != c)
  {
    var s := Entries(nodes, p, Children);
    assert s[i] in AllEntries(nodes, p);
    forall y | y in s
      ensures y != s[i] <==> Ord(nodes, y) != c
    {
      assert y in AllEntries(nodes, p);
    }
  }

  /** When a child of that order exists, exactly one entry leaves. */
  lemma ChildRemovedCount(nodes: seq<Node>, p: Id, c: int)
    requires WF(nodes) && IsItem(nodes, p) && Indexed(nodes, p, Children) && UniqueOrders(nodes, p)
    ensures var e := RemoveFirstMatch(nodes, p, Children, OrderIs(c));
      |Entries(e.nodes, p, Children)| == |Entries(nodes, p, Children)| - (if HasChildAt(nodes, p, c) then 1 else 0)
  {
    var s := Entries(nodes, p, Children);
    EntriesInRange(nodes, p);
    MatchOrderIff(nodes, s, c);
    var m := FirstMatch(nodes, s, OrderIs(c));
    if m.Some? {
      var i := m.value;
      RemoveFirstMatchIs(nodes, p, Children, OrderIs(c), i);
      RemoveObjectPresent(nodes, p, Children, s[i]);
      assert NodeWF(nodes, p) && CollWF(nodes, p, Children);
      RemoveFirstAt(s, i);
    }
  }

  /** Some child of p has order c. */
  predicate HasChildAt(nodes: seq<Node>, p: Id, c: int)
  {
    exists y :: y in Entries(nodes, p, Children) && Ord(nodes, y) == c
  }

  /** changeChildToList(childOrder, listName, sameLine, values) as written:
    * the first child of that order is removed; the new list is built with
    * order childOrder but registered through addList(list, false), which
    * overwrites its order with getNbObjects(); it is filled with the values
    * and the lists are sorted by order.  The result is the list. */
  function ChangeChildToListAsWritten(nodes: seq<Node>, p: Id, childOrder: int, listName: string, sameLine: bool,
                                      values: seq<string>): (e: Effect<Id>)
    requires IsItem(nodes, p)
  {
    var removed := RemoveFirstMatch(nodes, p, Children, OrderIs(childOrder));
    if removed.out.Thrown? then Effect(removed.nodes, Thrown(removed.out.exception))
    else
      var r := AddList(removed.nodes, p, listName, childOrder, sameLine, true, false, values);
      Effect(SortLists(r, p), Ok(|nodes|))
  }

  /** A new list (name, order, sameLine, brackets) appended and registered
    * in p's lists without any order being overwritten or shifted, then
    * filled through addAll. */
  function PlaceList(nodes: seq<Node>, p: Id, name: string, order: int, sameLine: bool, values: seq<string>): (r: seq<Node>)
    requires IsItem(nodes, p)
    ensures |r| == |nodes| + 1
  {
    var x := |nodes|;
    var grown := nodes + [ListNodeOf(Some(p), name, order, sameLine, true)];
    var r := Register(grown, p, Lists, x);
    WithValues(r, x, ValueLists.AddAll(ValuesOf(r, x), values))
  }

  /** PlaceList keeps the arena well formed and every exact index, adds just
    * the new list with the requested order, and touches no other order. */
  lemma PlaceListSpec(nodes: seq<Node>, p: Id, name: string, order: int, sameLine: bool, values: seq<string>)
    requires WF(nodes) && IsItem(nodes, p)
    ensures var r := PlaceList(nodes, p, name, order, sameLine, values);
      var x := |nodes|;
      WF(r) && r[x].ListNode? && r[x].name == name && r[x].order == order
      && r[x].sameLine == sameLine && r[x].hasBrackets
      && r[x].values == ValueLists.Normalized(values)
      && (forall i :: 0 <= i < x ==> r[i].order == nodes[i].order && r[i].name == nodes[i].name)
      && Entries(r, p, Lists) == Entries(nodes, p, Lists) + [x]
      && (forall q: Id, k: Kind :: (q, k) != (p, Lists) && q < x ==> Get(r, q, k) == Get(nodes, q, k))
      && (forall q: Id, k: Kind :: (q, k) != (p, Lists) && Indexed(nodes, q, k) ==> Indexed(r, q, k))
  {
    var x := |nodes|;
    var n := ListNodeOf(Some(p), name, order, sameLine, true);
    var grown := nodes + [n];
    AppendKeeps(nodes, n);
    assert Unregistered(grown, p, x);
    assert x !in Entries(grown, p, Lists);
    RegisterWF(grown, p, Lists, x);
    RegisterFrame(grown, p, Lists, x);
    var r := Register(grown, p, Lists, x);
    forall q: Id, k: Kind | (q, k) != (p, Lists) && Indexed(nodes, q, k)
      ensures Indexed(r, q, k)
    {
      IndexedFrame(grown, r, q, k);
    }
    ValueLists.AddAllSpec(ValuesOf(r, x), values);
    WithValuesSpec(r, x, ValueLists.AddAll(ValuesOf(r, x), values));
  }

  /** changeChildToList as evidently intended: the list takes the removed
    * child's place, registered at order childOrder without moving anything. */
  function ChangeChildToList(nodes: seq<Node>, p: Id, childOrder: int, listName: string, sameLine: bool,
                             values: seq<string>): (e: Effect<Id>)
    requires IsItem(nodes, p)
  {
    var removed := RemoveFirstMatch(nodes, p, Children, OrderIs(childOrder));
    if removed.out.Thrown? then Effect(removed.nodes, Thrown(removed.out.exception))
    else Effect(SortLists(PlaceList(removed.nodes, p, listName, childOrder, sameLine, values), p), Ok(|nodes|))
  }

  /** The intended changeChildToList on an item with unique orders: it
    * returns the new list, which holds what addAll keeps of the values and
    * has order childOrder; no other order changes; the lists are sorted by
    * order and are the old ones plus the new one; the arena stays well formed. */
  lemma ChangeChildToListSpec(nodes: seq<Node>, p: Id, c: int, listName: string, sameLine: bool, values: seq<string>)
    requires WF(nodes) && IsItem(nodes, p) && Indexed(nodes, p, Children) && UniqueOrders(nodes, p)
    ensures var e := ChangeChildToList(nodes, p, c, listName, sameLine, values);
      var x := |nodes|;
      e.out == Ok(x) && |e.nodes| == x + 1 && WF(e.nodes)
      && e.nodes[x].ListNode? && e.nodes[x].name == listName && Ord(e.nodes, x) == c
      && e.nodes[x].values == ValueLists.Normalized(values)
      && (forall i :: 0 <= i < x ==> Ord(e.nodes, i) == Ord(nodes, i))
      && multiset(Entries(e.nodes, p, Lists)) == multiset(Entries(nodes, p, Lists) + [x])
      && SortedByOrder(e.nodes, Entries(e.nodes, p, Lists))
  {
    var x := |nodes|;
    ChildRemoved(nodes, p, c);
    var removed := RemoveFirstMatch(nodes, p, Children, OrderIs(c)).nodes;
    PlaceListSpec(removed, p, listName, c, sameLine, values);
    var placed := PlaceList(removed, p, listName, c, sameLine, values);
    SortListsSpec(placed, p);
  }

  /** The same call seen from the other collections: the child of that order,
    * if any, leaves the children, the variables are untouched, the child
    * and variable indexes stay exact, and the item ends up with one object
    * fewer than it had, plus the list. */
  lemma ChangeChildToListEntries(nodes: seq<Node>, p: Id, c: int, listName: string, sameLine: bool, values: seq<string>)
    requires WF(nodes) && IsItem(nodes, p) && Indexed(nodes, p, Children) && UniqueOrders(nodes, p)
    ensures var e := ChangeChildToList(nodes, p, c, listName, sameLine, values);
      (forall y :: y in Entries(e.nodes, p, Children) <==> y in Entries(nodes, p, Children) && Ord(nodes, y) != c)
      && Entries(e.nodes, p, Variables) == Entries(nodes, p, Variables)
      && Indexed(e.nodes, p, Children)
      && (Indexed(nodes, p, Variables) ==> Indexed(e.nodes, p, Variables))
      && |AllEntries(e.nodes, p)| == |AllEntries(nodes, p)| - (if HasChildAt(nodes, p, c) then 1 else 0) + 1
  {
    ChildRemoved(nodes, p, c);
    ChildRemovedCount(nodes, p, c);
    var removed := RemoveFirstMatch(nodes, p, Children, OrderIs(c)).nodes;
    PlaceListSpec(removed, p, listName, c, sameLine, values);
    var placed := PlaceList(removed, p, listName, c, sameLine, values);
    SortListsSpec(placed, p);
    var final := SortLists(placed, p);
    assert |Entries(final, p, Lists)| == |multiset(Entries(final, p, Lists))| == |Entries(placed, p, Lists)|;
  }

  /** Who the item holds afterwards: the new list, and every former object
    * except the child of that order. */
  lemma ChangeChildToListMembers(nodes: seq<Node>, p: Id, c: int, listName: string, sameLine: bool, values: seq<string>)
    requires WF(nodes) && IsItem(nodes, p) && Indexed(nodes, p, Children) && UniqueOrders(nodes, p)
    ensures var e := ChangeChildToList(nodes, p, c, listName, sameLine, values);
      forall y :: y in AllEntries(e.nodes, p) <==>
        y == |nodes| || (y in AllEntries(nodes, p) && !(y in Entries(nodes, p, Children) && Ord(nodes, y) == c))
  {
    ChangeChildToListSpec(nodes, p, c, listName, sameLine, values);
    ChangeChildToListEntries(nodes, p, c, listName, sameLine, values);
    var e := ChangeChildToList(nodes, p, c, listName, sameLine, values);
    var ch, v, l := Entries(e.nodes, p, Children), Entries(e.nodes, p, Variables), Entries(e.nodes, p, Lists);
    SameElements(l, Entries(nodes, p, Lists) + [|nodes|]);
    EntriesInRange(nodes, p);
    forall y
      ensures y in AllEntries(e.nodes, p) <==>
        y == |nodes| || (y in AllEntries(nodes, p) && !(y in Entries(nodes, p, Children) && Ord(nodes, y) == c))
    {
      assert y in AllEntries(e.nodes, p) <==> y in ch || y in v || y in l;
      assert y in AllEntries(nodes, p) <==>
        y in Entries(nodes, p, Children) || y in Entries(nodes, p, Variables) || y in Entries(nodes, p, Lists);
      if y in Entries(nodes, p, Variables) || y in Entries(nodes, p, Lists) {
        EntryKind(nodes, p, if y in Entries(nodes, p, Lists) then Lists else Variables, y);
        if y in Entries(nodes, p, Children) {
          EntryKind(nodes, p, Children, y);
        }
      }
    }
  }

  lemma SameElements(a: seq<Id>, b: seq<Id>)
    requires multiset(a) == multiset(b)
    ensures forall y :: y in a <==> y in b
  {
    forall y
      ensures y in a <==> y in b
    {
      assert y in a <==> y in multiset(a);
      assert y in b <==> y in multiset(b);
    }
  }

  /** With a child of that order present, the intended changeChildToList
    * keeps the orders unique, and dense when they were. */
  lemma ChangeChildToListKeepsUnique(nodes: seq<Node>, p: Id, c: int, listName: string, sameLine: bool, values: seq<string>)
    requires WF(nodes) && IsItem(nodes, p) && Indexed(nodes, p, Children) && UniqueOrders(nodes, p)
    requires HasChildAt(nodes, p, c)
    ensures var e := ChangeChildToList(nodes, p, c, listName, sameLine, values);
      UniqueOrders(e.nodes, p) && (Dense(nodes, p) ==> Dense(e.nodes, p))
  {
    ChangeChildToListSpec(nodes, p, c, listName, sameLine, values);
    ChangeChildToListEntries(nodes, p, c, listName, sameLine, values);
    ChangeChildToListMembers(nodes, p, c, listName, sameLine, values);
    var e := ChangeChildToList(nodes, p, c, listName, sameLine, values);
    var x := |nodes|;
    EntriesInRange(nodes, p);
    var ch :| ch in Entries(nodes, p, Children) && Ord(nodes, ch) == c;
    assert ch in AllEntries(nodes, p);
    forall y | y in AllEntries(e.nodes, p) && y != x
      ensures y in AllEntries(nodes, p) && Ord(e.nodes, y) == Ord(nodes, y) != c
    {
    }
    if Dense(nodes, p) {
      assert 0 <= c < |AllEntries(nodes, p)|;
    }
  }

  /** changeChildToList as written: the list's order is getNbObjects() taken
    * after the removal, not childOrder; every other order is kept, and every
    * former object but the removed child is still there. */
  lemma ChangeChildToListAsWrittenOrder(nodes: seq<Node>, p: Id, c: int, listName: string, sameLine: bool, values: seq<string>)
    requires WF(nodes) && IsItem(nodes, p) && Indexed(nodes, p, Children) && UniqueOrders(nodes, p)
    ensures var e := ChangeChildToListAsWritten(nodes, p, c, listName, sameLine, values);
      var x := |nodes|;
      e.out == Ok(x) && |e.nodes| == x + 1 && x in Entries(e.nodes, p, Lists)
      && Ord(e.nodes, x) == NbObjects(nodes, p) - (if HasChildAt(nodes, p, c) then 1 else 0)
      && (forall i :: 0 <= i < x ==> Ord(e.nodes, i) == Ord(nodes, i))
      && (forall y :: y in AllEntries(nodes, p) && !(y in Entries(nodes, p, Children) && Ord(nodes, y) == c)
            ==> y in AllEntries(e.nodes, p))
  {
    ChildRemoved(nodes, p, c);
    ChildRemovedCount(nodes, p, c);
    var removed := RemoveFirstMatch(nodes, p, Children, OrderIs(c)).nodes;
    AddListSpec(removed, p, listName, c, sameLine, true, false, values);
    var r := AddList(removed, p, listName, c, sameLine, true, false, values);
    SortListsSpec(r, p);
    var e := ChangeChildToListAsWritten(nodes, p, c, listName, sameLine, values);
    var lists := Entries(e.nodes, p, Lists);
    assert |nodes| in multiset(Entries(r, p, Lists));
    forall y | y in Entries(r, p, Lists)
      ensures y in lists
    {
      assert y in multiset(Entries(r, p, Lists));
    }
  }

  /** When the child replaced holds the item's highest order,
    * getNbObjects() - 1, the getNbObjects() that addList(list, false) writes
    * after the removal is that same order: the written changeChildToList
    * then does exactly what is intended. */
  lemma ChangeChildToListAtTop(nodes: seq<Node>, p: Id, c: int, listName: string, sameLine: bool, values: seq<string>)
    requires WF(nodes) && IsItem(nodes, p) && Indexed(nodes, p, Children) && UniqueOrders(nodes, p)
    requires HasChildAt(nodes, p, c) && c == NbObjects(nodes, p) - 1
    ensures ChangeChildToListAsWritten(nodes, p, c, listName, sameLine, values)
         == ChangeChildToList(nodes, p, c, listName, sameLine, values)
  {
    RemoveFirstMatchSpec(nodes, p, Children, OrderIs(c));
    ChildRemoved(nodes, p, c);
    ChildRemovedCount(nodes, p, c);
    var removed := RemoveFirstMatch(nodes, p, Children, OrderIs(c)).nodes;
    assert NbObjects(removed, p) == c;
    var x := |removed|;
    var grown := removed + [ListNodeOf(Some(p), listName, c, sameLine, true)];
    assert NbObjects(grown, p) == c by {
      assert forall k: Kind :: Get(grown, p, k) == Get(removed, p, k);
    }
    assert Place(grown, p, x, false) == grown;
    assert NewList(removed, Some(p), listName, c, sameLine, true, false) == Register(grown, p, Lists, x);
  }

  /** As written, an item whose other object already holds the top order
    * getNbObjects() - 1 ends up with two objects of that order. */
  lemma ChangeChildToListAsWrittenDuplicates(nodes: seq<Node>, p: Id, c: int, listName: string, sameLine: bool,
                                             values: seq<string>, m: Id)
    requires WF(nodes) && IsItem(nodes, p) && Indexed(nodes, p, Children) && UniqueOrders(nodes, p)
    requires HasChildAt(nodes, p, c) && m in AllEntries(nodes, p) && Ord(nodes, m) == NbObjects(nodes, p) - 1 != c
    ensures var e := ChangeChildToListAsWritten(nodes, p, c, listName, sameLine, values);
      e.out == Ok(|nodes|) && !UniqueOrders(e.nodes, p)
  {
    ChangeChildToListAsWrittenOrder(nodes, p, c, listName, sameLine, values);
    var e := ChangeChildToListAsWritten(nodes, p, c, listName, sameLine, values);
    AllEntriesInRange(nodes, p, m);
    assert m in AllEntries(e.nodes, p) && |nodes| in AllEntries(e.nodes, p);
    assert Ord(e.nodes, m) == Ord(e.nodes, |nodes|);
  }

  /** The root with two children "a" (order 0) and "b" (order 1). */
  function TwoChildren(): seq<Node>
  {
    [ItemNode(DEFAULT_NAME, 0, None, true, false, Coll(true, [1, 2], map["a" := [1], "b" := [2]]), Unallocated, Unallocated),
     ItemNode("a", 0, Some(0), true, false, Unallocated, Unallocated, Unallocated),
     ItemNode("b", 1, Some(0), true, false, Unallocated, Unallocated, Unallocated)]
  }

  lemma TwoChildrenWF(nodes: seq<Node>)
    requires nodes == TwoChildren()
    ensures WF(nodes) && IsItem(nodes, 0) && AllEntries(nodes, 0) == [1, 2] && Entries(nodes, 0, Children) == [1, 2]
  {
    assert AllEntries(nodes, 0) == [1, 2];
    forall i | 0 <= i < |nodes|
      ensures NodeWF(nodes, i)
    {
      if i == 0 {
        assert IdsOk(nodes, 0, Children, [1, 2]);
        assert CollWF(nodes, 0, Children);
      } else {
        LeafWF(nodes, i);
      }
    }
  }

  lemma TwoChildrenIndexed(nodes: seq<Node>)
    requires nodes == TwoChildren()
    ensures Indexed(nodes, 0, Children)
  {
    var c := Get(nodes, 0, Children);
    forall nm
      ensures (nm in c.index ==> c.index[nm] == Named(nodes, c.entries, nm) && c.index[nm] != [])
              && (nm !in c.index ==> Named(nodes, c.entries, nm) == [])
    {
      assert [1, 2][..1] == [1] && [1][..0] == [];
      assert NameOf(nodes, 1) == "a" && NameOf(nodes, 2) == "b";
      assert Named(nodes, [1], nm) == Named(nodes, [], nm) + (if nm == "a" then [1] else []);
      assert Named(nodes, [1, 2], nm) == Named(nodes, [1], nm) + (if nm == "b" then [2] else []);
      assert Named(nodes, [1, 2], nm) == (if nm == "a" then [1] else []) + (if nm == "b" then [2] else []);
    }
  }

  lemma TwoChildrenOrders(nodes: seq<Node>)
    requires nodes == TwoChildren()
    ensures UniqueOrders(nodes, 0) && Dense(nodes, 0) && HasChildAt(nodes, 0, 0)
    ensures NbObjects(nodes, 0) == 2 && Ord(nodes, 1) == 0 && Ord(nodes, 2) == 1
  {
    TwoChildrenWF(nodes);
    assert 1 in Entries(nodes, 0, Children);
  }

  /** changeChildToList(0, "l", ...) on the root holding "a" (order 0) and
    * "b" (order 1): as written the list gets order 1, the order of "b";
    * as intended it gets order 0, the order of the child it replaces. */
  lemma ChangeChildToListTwoChildren(nodes: seq<Node>)
    requires nodes == TwoChildren()
    ensures var e := ChangeChildToListAsWritten(nodes, 0, 0, "l", false, ["x"]);
      Ord(e.nodes, 3) == 1 == Ord(e.nodes, 2) && !UniqueOrders(e.nodes, 0)
    ensures var e := ChangeChildToList(nodes, 0, 0, "l", false, ["x"]);
      Ord(e.nodes, 3) == 0 && UniqueOrders(e.nodes, 0)
  {
    TwoChildrenWF(nodes);
    TwoChildrenIndexed(nodes);
    TwoChildrenOrders(nodes);
    ChangeChildToListAsWrittenOrder(nodes, 0, 0, "l", false, ["x"]);
    ChangeChildToListAsWrittenDuplicates(nodes, 0, 0, "l", false, ["x"], 2);
    ChangeChildToListSpec(nodes, 0, 0, "l", false, ["x"]);
    ChangeChildToListKeepsUnique(nodes, 0, 0, "l", false, ["x"]);
  }
}
