/**
 * The ordered view of an Item and the way entries are added to it
 * (ClausewitzItem.getNb*, getAllOrdered, getMaxOrder, isEmpty, and the
 * addChild / addVariable / addList family with and without increaseOrders).
 */
module Items {
  import opened Wrappers
  import opened Tree

  /** getNbChildren / getNbVariables / getNbLists: 0 for a collection never allocated. */
  function NbOf(nodes: seq<Node>, p: Id, k: Kind): nat
  {
    |Entries(nodes, p, k)|
  }

  /** getNbObjects */
  function NbObjects(nodes: seq<Node>, p: Id): nat
  {
    NbOf(nodes, p, Children) + NbOf(nodes, p, Variables) + NbOf(nodes, p, Lists)
  }

  /** children, then variables, then lists, as getAllOrdered concatenates them. */
  function AllEntries(nodes: seq<Node>, p: Id): seq<Id>
  {
    Entries(nodes, p, Children) + Entries(nodes, p, Variables) + Entries(nodes, p, Lists)
  }

  /** getAllOrdered: the concatenation, stably sorted by order. */
  function AllOrdered(nodes: seq<Node>, p: Id): seq<Id>
  {
    SortByOrder(nodes, AllEntries(nodes, p))
  }

  /** isEmpty: each of the three collections is null or empty. */
  predicate IsEmpty(nodes: seq<Node>, p: Id)
  {
    NbOf(nodes, p, Variables) == 0 && NbOf(nodes, p, Lists) == 0 && NbOf(nodes, p, Children) == 0
  }

  lemma AllEntriesDistinct(nodes: seq<Node>, p: Id)
    requires WF(nodes)
    ensures Distinct(AllEntries(nodes, p))
  {
    if p < |nodes| {
      assert NodeWF(nodes, p);
      var c := Entries(nodes, p, Children);
      var v := Entries(nodes, p, Variables);
      var l := Entries(nodes, p, Lists);
      var s := c + v + l;
      forall a, b | 0 <= a < b < |s|
        ensures s[a] != s[b]
      {
        if b < |c| {
        } else if a >= |c| + |v| {
          assert s[a] == l[a - |c| - |v|] && s[b] == l[b - |c| - |v|];
        } else if a >= |c| && b < |c| + |v| {
          assert s[a] == v[a - |c|] && s[b] == v[b - |c|];
        } else if a < |c| && b < |c| + |v| {
          assert KindOf(nodes[s[a]]) == Children && KindOf(nodes[s[b]]) == Variables;
        } else if a < |c| {
          assert KindOf(nodes[s[a]]) == Children && KindOf(nodes[s[b]]) == Lists;
        } else {
          assert s[a] == v[a - |c|] && s[b] == l[b - |c| - |v|];
          assert KindOf(nodes[s[a]]) == Variables && KindOf(nodes[s[b]]) == Lists;
        }
      }
    }
  }

  /** getAllOrdered returns every child, variable and list exactly once,
    * sorted by order, and as many objects as getNbObjects counts. */
  lemma AllOrderedSpec(nodes: seq<Node>, p: Id)
    requires WF(nodes)
    ensures multiset(AllOrdered(nodes, p))
         == multiset(Entries(nodes, p, Children)) + multiset(Entries(nodes, p, Variables))
          + multiset(Entries(nodes, p, Lists))
    ensures SortedByOrder(nodes, AllOrdered(nodes, p))
    ensures Distinct(AllOrdered(nodes, p))
    ensures |AllOrdered(nodes, p)| == NbObjects(nodes, p)
  {
    SortByOrderSpec(nodes, AllEntries(nodes, p));
    AllEntriesDistinct(nodes, p);
  }

  /** isEmpty holds exactly when getAllOrdered is empty and getNbObjects is 0. */
  lemma IsEmptySpec(nodes: seq<Node>, p: Id)
    ensures IsEmpty(nodes, p) <==> AllOrdered(nodes, p) == []
    ensures IsEmpty(nodes, p) <==> NbObjects(nodes, p) == 0
  {
  }

  // ---------------------------------------------------------------------
  // getMaxOrder

  function MaxOf(nodes: seq<Node>, s: seq<Id>): Option<int>
  {
    if s == [] then None
    else
      var m := MaxOf(nodes, s[..|s| - 1]);
      var o := Ord(nodes, s[|s| - 1]);
      if m.Some? && m.value >= o then m else Some(o)
  }

  /** getMaxOrder: the largest order among the entries, 0 when there is none. */
  function MaxOrder(nodes: seq<Node>, p: Id): int
  {
    match MaxOf(nodes, AllOrdered(nodes, p))
    case None => 0
    case Some(m) => m
  }

  lemma {:induction false} MaxOfSpec(nodes: seq<Node>, s: seq<Id>)
    ensures MaxOf(nodes, s).None? <==> s == []
    ensures MaxOf(nodes, s).Some? ==>
      (exists j :: 0 <= j < |s| && Ord(nodes, s[j]) == MaxOf(nodes, s).value)
      && forall j :: 0 <= j < |s| ==> Ord(nodes, s[j]) <= MaxOf(nodes, s).value
    decreases |s|
  {
    if s != [] {
      var front := s[..|s| - 1];
      MaxOfSpec(nodes, front);
      var m := MaxOf(nodes, front);
      if m.Some? && m.value >= Ord(nodes, s[|s| - 1]) {
        var j :| 0 <= j < |front| && Ord(nodes, front[j]) == m.value;
        assert s[j] == front[j];
      }
      assert forall j :: 0 <= j < |front| ==> s[j] == front[j];
    }
  }

  /** getMaxOrder is the order of one of the entries and bounds all of them,
    * or 0 for an empty item. */
  lemma MaxOrderSpec(nodes: seq<Node>, p: Id)
    requires WF(nodes)
    ensures AllEntries(nodes, p) == [] ==> MaxOrder(nodes, p) == 0
    ensures AllEntries(nodes, p) != [] ==>
      (exists m :: m in AllEntries(nodes, p) && Ord(nodes, m) == MaxOrder(nodes, p))
    ensures forall m :: m in AllEntries(nodes, p) ==> Ord(nodes, m) <= MaxOrder(nodes, p)
  {
    var s := AllOrdered(nodes, p);
    SortByOrderSpec(nodes, AllEntries(nodes, p));
    MaxOfSpec(nodes, s);
    forall m | m in AllEntries(nodes, p)
      ensures Ord(nodes, m) <= MaxOrder(nodes, p)
    {
      assert m in multiset(s);
      var j :| 0 <= j < |s| && s[j] == m;
    }
    if AllEntries(nodes, p) != [] {
      assert AllEntries(nodes, p)[0] in multiset(s);
      var j :| 0 <= j < |s| && Ord(nodes, s[j]) == MaxOrder(nodes, p);
      assert s[j] in multiset(AllEntries(nodes, p));
    } else {
      assert s == [];
    }
  }

  // ---------------------------------------------------------------------
  // Frames: what a change leaves alone

  predicate SameNames(a: seq<Node>, b: seq<Node>)
  {
    |a| == |b| && forall i :: 0 <= i < |a| ==> a[i].name == b[i].name
  }

  lemma {:induction false} NamedFrame(a: seq<Node>, b: seq<Node>, s: seq<Id>, nm: string)
    requires SameNames(a, b)
    ensures Named(a, s, nm) == Named(b, s, nm)
    decreases |s|
  {
    if s != [] {
      NamedFrame(a, b, s[..|s| - 1], nm);
    }
  }

  lemma {:induction false} NamedInFrame(a: seq<Node>, b: seq<Node>, s: seq<Id>, names: set<string>)
    requires SameNames(a, b)
    ensures NamedIn(a, s, names) == NamedIn(b, s, names)
    decreases |s|
  {
    if s != [] {
      NamedInFrame(a, b, s[..|s| - 1], names);
    }
  }

  /** A collection whose contents and whose nodes' names are unchanged keeps its index consistency. */
  lemma IndexedFrame(a: seq<Node>, b: seq<Node>, p: Id, k: Kind)
    requires SameNames(a, b) && Get(a, p, k) == Get(b, p, k) && Indexed(a, p, k)
    ensures Indexed(b, p, k)
  {
    var c := Get(a, p, k);
    forall nm
      ensures Named(a, c.entries, nm) == Named(b, c.entries, nm)
    {
      NamedFrame(a, b, c.entries, nm);
    }
  }

  predicate SameOrders(a: seq<Node>, b: seq<Node>)
  {
    |a| == |b| && forall i :: 0 <= i < |a| ==> a[i].order == b[i].order
  }

  lemma {:induction false} SortFrame(a: seq<Node>, b: seq<Node>, s: seq<Id>)
    requires SameOrders(a, b)
    ensures SortByOrder(a, s) == SortByOrder(b, s)
    decreases |s|
  {
    if s != [] {
      SortFrame(a, b, s[..|s| - 1]);
      InsertFrame(a, b, SortByOrder(a, s[..|s| - 1]), s[|s| - 1]);
    }
  }

  lemma {:induction false} InsertFrame(a: seq<Node>, b: seq<Node>, s: seq<Id>, x: Id)
    requires SameOrders(a, b)
    ensures InsertByOrder(a, s, x) == InsertByOrder(b, s, x)
    decreases |s|
  {
    if s != [] {
      InsertFrame(a, b, s[..|s| - 1], x);
    }
  }

  // ---------------------------------------------------------------------
  // Shifting orders (the increaseOrders path)

  function Bump(nodes: seq<Node>, p: Id, t: int, i: Id): Node
    requires i < |nodes|
  {
    if i in AllEntries(nodes, p) && nodes[i].order >= t then nodes[i].(order := nodes[i].order + 1)
    else nodes[i]
  }

  /** getAllOrdered().stream().filter(co -> co.order >= t).forEach(co -> co.order++) */
  function Shift(nodes: seq<Node>, p: Id, t: int): (r: seq<Node>)
    ensures |r| == |nodes|
  {
    seq(|nodes|, i requires 0 <= i < |nodes| => Bump(nodes, p, t, i))
  }

  lemma ShiftFrame(nodes: seq<Node>, p: Id, t: int)
    ensures SameShapes(nodes, Shift(nodes, p, t)) && SameNames(nodes, Shift(nodes, p, t))
    ensures forall q: Id, k: Kind :: Get(Shift(nodes, p, t), q, k) == Get(nodes, q, k)
  {
    var r := Shift(nodes, p, t);
    forall i | 0 <= i < |nodes|
      ensures Shape(nodes[i]) == Shape(r[i]) && nodes[i].name == r[i].name
    {
    }
    forall q: Id, k: Kind
      ensures Get(r, q, k) == Get(nodes, q, k)
    {
      if q < |nodes| {
        assert CollOf(r[q], k) == CollOf(nodes[q], k);
      }
    }
  }

  /** Every entry of item p at or above t moves up by exactly one, the ones
    * below t and every other node keep their order. */
  lemma ShiftOrders(nodes: seq<Node>, p: Id, t: int)
    ensures forall i :: 0 <= i < |nodes| ==>
      Ord(Shift(nodes, p, t), i)
        == if i in AllEntries(nodes, p) && Ord(nodes, i) >= t then Ord(nodes, i) + 1 else Ord(nodes, i)
  {
  }

  // ---------------------------------------------------------------------
  // Registering an entry: list.add plus map.computeIfAbsent(name).add

  function SetColl(nodes: seq<Node>, p: Id, k: Kind, c: Coll): (r: seq<Node>)
    requires IsItem(nodes, p)
    ensures |r| == |nodes| && IsItem(r, p)
  {
    nodes[p := WithColl(nodes[p], k, c)]
  }

  function Register(nodes: seq<Node>, p: Id, k: Kind, x: Id): seq<Node>
    requires IsItem(nodes, p)
  {
    var c := Get(nodes, p, k);
    var nm := NameOf(nodes, x);
    var bucket := if nm in c.index then c.index[nm] else [];
    SetColl(nodes, p, k, Coll(true, c.entries + [x], c.index[nm := bucket + [x]]))
  }

  /** Where the new entry's order comes from: shift the siblings from its own
    * order up, or overwrite it with getNbObjects(). */
  function Place(nodes: seq<Node>, p: Id, x: Id, increase: bool): (r: seq<Node>)
    requires x < |nodes|
    ensures |r| == |nodes|
  {
    if increase then Shift(nodes, p, Ord(nodes, x))
    else nodes[x := nodes[x].(order := NbObjects(nodes, p))]
  }

  /** addChild / addVariable / addList (object, increaseOrders). */
  function Add(nodes: seq<Node>, p: Id, k: Kind, x: Id, increase: bool): (r: seq<Node>)
    requires IsItem(nodes, p) && p < x < |nodes|
    ensures |r| == |nodes|
  {
    Register(Place(nodes, p, x, increase), p, k, x)
  }

  /** Registration changes only the collection it appends to. */
  lemma RegisterFrame(nodes: seq<Node>, p: Id, k: Kind, x: Id)
    requires IsItem(nodes, p)
    ensures SameNames(nodes, Register(nodes, p, k, x)) && SameOrders(nodes, Register(nodes, p, k, x))
    ensures Entries(Register(nodes, p, k, x), p, k) == Entries(nodes, p, k) + [x]
    ensures Get(Register(nodes, p, k, x), p, k).created
    ensures forall q: Id, k': Kind :: (q, k') != (p, k) ==> Get(Register(nodes, p, k, x), q, k') == Get(nodes, q, k')
    ensures forall i :: 0 <= i < |nodes| && i != p ==> Register(nodes, p, k, x)[i] == nodes[i]
  {
  }

  predicate SameKinds(a: seq<Node>, b: seq<Node>)
  {
    |a| == |b| && forall i :: 0 <= i < |a| ==> KindOf(a[i]) == KindOf(b[i]) && Parent(a[i]) == Parent(b[i])
  }

  lemma IdsOkKinds(a: seq<Node>, b: seq<Node>, p: Id, k: Kind, s: seq<Id>)
    requires SameKinds(a, b) && IdsOk(a, p, k, s)
    ensures IdsOk(b, p, k, s)
  {
    forall j | 0 <= j < |s|
      ensures KindOf(b[s[j]]) == k
    {
    }
  }

  lemma AppendedCollWF(nodes: seq<Node>, r: seq<Node>, p: Id, k: Kind, x: Id, c: Coll)
    requires SameKinds(nodes, r) && p < x < |nodes| && KindOf(nodes[x]) == k
    requires IdsOk(nodes, p, k, c.entries) && Distinct(c.entries) && x !in c.entries
    requires forall nm :: nm in c.index ==> IdsOk(nodes, p, k, c.index[nm])
    requires Get(r, p, k) == Coll(true, c.entries + [x], c.index[NameOf(nodes, x) := (if NameOf(nodes, x) in c.index then c.index[NameOf(nodes, x)] else []) + [x]])
    ensures CollWF(r, p, k)
  {
    var nm := NameOf(nodes, x);
    var bucket := if nm in c.index then c.index[nm] else [];
    var c' := Get(r, p, k);
    IdsOkKinds(nodes, r, p, k, c.entries);
    IdsOkKinds(nodes, r, p, k, bucket);
    assert IdsOk(r, p, k, c'.entries);
    assert Distinct(c'.entries);
    forall nm' | nm' in c'.index
      ensures IdsOk(r, p, k, c'.index[nm'])
    {
      if nm' != nm {
        IdsOkKinds(nodes, r, p, k, c.index[nm']);
      }
    }
  }

  lemma UnchangedCollWF(nodes: seq<Node>, r: seq<Node>, i: Id, k: Kind)
    requires SameKinds(nodes, r) && Get(r, i, k) == Get(nodes, i, k) && CollWF(nodes, i, k)
    ensures CollWF(r, i, k)
  {
    var c := Get(nodes, i, k);
    IdsOkKinds(nodes, r, i, k, c.entries);
    forall nm' | nm' in c.index
      ensures IdsOk(r, i, k, c.index[nm'])
    {
      IdsOkKinds(nodes, r, i, k, c.index[nm']);
    }
  }

  lemma RegisterCollWF(nodes: seq<Node>, p: Id, k: Kind, x: Id, i: Id, k': Kind)
    requires WF(nodes) && IsItem(nodes, p) && p < x < |nodes| && KindOf(nodes[x]) == k
    requires x !in Entries(nodes, p, k) && i < |nodes|
    ensures CollWF(Register(nodes, p, k, x), i, k')
  {
    var r := Register(nodes, p, k, x);
    RegisterFrame(nodes, p, k, x);
    assert SameKinds(nodes, r);
    assert NodeWF(nodes, i);
    if (i, k') == (p, k) {
      AppendedCollWF(nodes, r, p, k, x, Get(nodes, p, k));
    } else {
      UnchangedCollWF(nodes, r, i, k');
    }
  }

  /** Registering a node that is not yet an entry keeps the arena well formed. */
  lemma RegisterWF(nodes: seq<Node>, p: Id, k: Kind, x: Id)
    requires WF(nodes) && IsItem(nodes, p) && p < x < |nodes| && KindOf(nodes[x]) == k
    requires x !in Entries(nodes, p, k)
    ensures WF(Register(nodes, p, k, x))
  {
    var r := Register(nodes, p, k, x);
    RegisterFrame(nodes, p, k, x);
    forall i | 0 <= i < |r|
      ensures NodeWF(r, i)
    {
      RegisterCollWF(nodes, p, k, x, i, Children);
      RegisterCollWF(nodes, p, k, x, i, Variables);
      RegisterCollWF(nodes, p, k, x, i, Lists);
      assert NodeWF(nodes, i);
      assert SameKinds(nodes, r);
    }
  }

  lemma {:induction false} NamedAppend(nodes: seq<Node>, s: seq<Id>, x: Id, nm: string)
    ensures Named(nodes, s + [x], nm)
         == Named(nodes, s, nm) + (if NameOf(nodes, x) == nm then [x] else [])
  {
    assert (s + [x])[..|s|] == s;
  }

  /** Appending to the list and to the bucket of its name keeps the index exact. */
  lemma RegisterIndexed(nodes: seq<Node>, p: Id, k: Kind, x: Id)
    requires IsItem(nodes, p) && Indexed(nodes, p, k)
    ensures Indexed(Register(nodes, p, k, x), p, k)
  {
    var r := Register(nodes, p, k, x);
    RegisterFrame(nodes, p, k, x);
    var c := Get(nodes, p, k);
    forall nm
      ensures Named(r, c.entries + [x], nm) == Named(nodes, c.entries, nm) + (if NameOf(nodes, x) == nm then [x] else [])
    {
      NamedFrame(nodes, r, c.entries + [x], nm);
      NamedAppend(nodes, c.entries, x, nm);
    }
  }

  lemma PlaceFrame(nodes: seq<Node>, p: Id, x: Id, increase: bool)
    requires x < |nodes|
    ensures SameShapes(nodes, Place(nodes, p, x, increase)) && SameNames(nodes, Place(nodes, p, x, increase))
    ensures forall q: Id, k: Kind :: Get(Place(nodes, p, x, increase), q, k) == Get(nodes, q, k)
  {
    if increase {
      ShiftFrame(nodes, p, Ord(nodes, x));
    } else {
      var r := Place(nodes, p, x, increase);
      forall q: Id, k: Kind
        ensures Get(r, q, k) == Get(nodes, q, k)
      {
        if q < |nodes| {
          assert CollOf(r[q], k) == CollOf(nodes[q], k);
        }
      }
      forall i | 0 <= i < |nodes|
        ensures Shape(nodes[i]) == Shape(r[i])
      {
      }
    }
  }

  /** Not yet registered in any collection of p. */
  predicate Unregistered(nodes: seq<Node>, p: Id, x: Id)
  {
    x !in AllEntries(nodes, p)
  }

  /** addX(object, increaseOrders), structurally: the arena stays well formed,
    * the object is appended to its kind's list of p and nothing else is
    * registered anywhere, and every index of every item that was exact stays exact. */
  lemma AddShape(nodes: seq<Node>, p: Id, k: Kind, x: Id, increase: bool)
    requires WF(nodes) && IsItem(nodes, p) && p < x < |nodes| && KindOf(nodes[x]) == k
    requires Unregistered(nodes, p, x)
    ensures WF(Add(nodes, p, k, x, increase))
    ensures Entries(Add(nodes, p, k, x, increase), p, k) == Entries(nodes, p, k) + [x]
    ensures forall q: Id, k': Kind :: (q, k') != (p, k) ==> Get(Add(nodes, p, k, x, increase), q, k') == Get(nodes, q, k')
    ensures SameNames(nodes, Add(nodes, p, k, x, increase))
    ensures forall q: Id, k': Kind :: Indexed(nodes, q, k') ==> Indexed(Add(nodes, p, k, x, increase), q, k')
    ensures forall m :: m in AllEntries(Add(nodes, p, k, x, increase), p) <==> m in AllEntries(nodes, p) || m == x
    ensures NbObjects(Add(nodes, p, k, x, increase), p) == NbObjects(nodes, p) + 1
  {
    var placed := Place(nodes, p, x, increase);
    var r := Add(nodes, p, k, x, increase);
    PlaceFrame(nodes, p, x, increase);
    WFFrame(nodes, placed);
    RegisterFrame(placed, p, k, x);
    assert x !in Entries(placed, p, k);
    RegisterWF(placed, p, k, x);
    forall q: Id, k': Kind | Indexed(nodes, q, k')
      ensures Indexed(r, q, k')
    {
      IndexedFrame(nodes, placed, q, k');
      if (q, k') == (p, k) {
        RegisterIndexed(placed, p, k, x);
      } else {
        IndexedFrame(placed, r, q, k');
      }
    }
  }

  /** addX(object, false) gives the object order getNbObjects() and leaves
    * every other order alone; addX(object, true) keeps the object's order and
    * moves each entry of p at or above it up by one. */
  lemma AddOrders(nodes: seq<Node>, p: Id, k: Kind, x: Id, increase: bool)
    requires IsItem(nodes, p) && p < x < |nodes| && Unregistered(nodes, p, x)
    ensures !increase ==> Ord(Add(nodes, p, k, x, increase), x) == NbObjects(nodes, p)
    ensures !increase ==> forall i :: i != x ==> Ord(Add(nodes, p, k, x, increase), i) == Ord(nodes, i)
    ensures increase ==> Ord(Add(nodes, p, k, x, increase), x) == Ord(nodes, x)
    ensures increase ==> forall i :: 0 <= i < |nodes| ==>
      Ord(Add(nodes, p, k, x, increase), i)
        == if i in AllEntries(nodes, p) && Ord(nodes, i) >= Ord(nodes, x) then Ord(nodes, i) + 1 else Ord(nodes, i)
  {
    var placed := Place(nodes, p, x, increase);
    RegisterFrame(placed, p, k, x);
    if increase {
      ShiftOrders(nodes, p, Ord(nodes, x));
    }
  }

  // ---------------------------------------------------------------------
  // Dense orders: the entries of an item hold the orders 0 .. n-1, each once.

  ghost predicate Dense(nodes: seq<Node>, p: Id)
  {
    var s := AllEntries(nodes, p);
    (forall m :: m in s ==> 0 <= Ord(nodes, m) < |s|)
    && (forall m1, m2 :: m1 in s && m2 in s && m1 != m2 ==> Ord(nodes, m1) != Ord(nodes, m2))
  }

  /** Appending (order getNbObjects()) and inserting at an order within
    * 0 .. getNbObjects() (shifting the rest up) both keep the orders dense. */
  lemma AddKeepsDense(nodes: seq<Node>, p: Id, k: Kind, x: Id, increase: bool)
    requires WF(nodes) && IsItem(nodes, p) && p < x < |nodes| && KindOf(nodes[x]) == k
    requires Unregistered(nodes, p, x) && Dense(nodes, p)
    requires increase ==> 0 <= Ord(nodes, x) <= NbObjects(nodes, p)
    ensures Dense(Add(nodes, p, k, x, increase), p)
  {
    var r := Add(nodes, p, k, x, increase);
    AddShape(nodes, p, k, x, increase);
    AddOrders(nodes, p, k, x, increase);
    var s := AllEntries(nodes, p);
    var s' := AllEntries(r, p);
    assert |s'| == |s| + 1;
    forall m | m in s'
      ensures 0 <= Ord(r, m) < |s'|
    {
      if m != x {
        assert m in s;
        assert m < |nodes| by { AllEntriesInRange(nodes, p, m); }
      }
    }
    forall m1, m2 | m1 in s' && m2 in s' && m1 != m2
      ensures Ord(r, m1) != Ord(r, m2)
    {
      if m1 != x && m2 != x {
        AllEntriesInRange(nodes, p, m1);
        AllEntriesInRange(nodes, p, m2);
      } else if m1 != x {
        AllEntriesInRange(nodes, p, m1);
      } else {
        AllEntriesInRange(nodes, p, m2);
      }
    }
  }

  lemma AllEntriesInRange(nodes: seq<Node>, p: Id, m: Id)
    requires WF(nodes) && m in AllEntries(nodes, p)
    ensures m < |nodes|
  {
    assert p < |nodes| && NodeWF(nodes, p);
    var c := Entries(nodes, p, Children);
    var v := Entries(nodes, p, Variables);
    if m in c {
      var j :| 0 <= j < |c| && c[j] == m;
    } else if m in v {
      var j :| 0 <= j < |v| && v[j] == m;
    } else {
      var l := Entries(nodes, p, Lists);
      var j :| 0 <= j < |l| && l[j] == m;
    }
  }

  // ---------------------------------------------------------------------
  // Conditions on entries

  /** The conditions the library selects entries by: an order (removeByOrder,
    * changeChildToList) or a variable's value (getVar(name, value),
    * removeVariableByValue). */
  datatype Criterion = OrderIs(order: int) | ValueIs(value: string)

  predicate Matches(nodes: seq<Node>, x: Id, f: Criterion)
  {
    x < |nodes|
    && match f
       case OrderIs(o) => nodes[x].order == o
       case ValueIs(v) => nodes[x].VariableNode? && nodes[x].value == v
  }

  /** The position of the first element of s the condition matches. */
  function FirstMatch(nodes: seq<Node>, s: seq<Id>, f: Criterion): (r: Option<nat>)
    ensures r.Some? ==> r.value < |s| && Matches(nodes, s[r.value], f)
                        && forall j :: 0 <= j < r.value ==> !Matches(nodes, s[j], f)
    ensures r.None? ==> forall j :: 0 <= j < |s| ==> !Matches(nodes, s[j], f)
  {
    if s == [] then None
    else if Matches(nodes, s[0], f) then Some(0)
    else match FirstMatch(nodes, s[1..], f)
      case None => None
      case Some(i) => Some(i + 1)
  }
}
