/**
 * Removing entries from an Item: the remove* family of ClausewitzItem for
 * child Items, Variables and Lists.  Each removal takes the object out of its
 * kind's list and out of the bucket of its name, and drops a bucket once it
 * is empty.  Java's List.remove(Object) matches by equals; this model matches
 * the very object (see RemoveVariableAtAsWritten for what equals does).
 */
module Removal {
  import opened Wrappers
  import opened Tree
  import opened Items
  import opened Variables

  /** The arena after a call, and what the call returned or raised. */
  datatype Effect<T> = Effect(nodes: seq<Node>, out: Outcome<T>)

  // ---------------------------------------------------------------------
  // Sequence helpers

  /** List.indexOf: the first position of x. */
  function IndexOf(s: seq<Id>, x: Id): (i: nat)
    requires x in s
    ensures i < |s| && s[i] == x && x !in s[..i]
  {
    if s[0] == x then 0
    else
      var j := IndexOf(s[1..], x);
      assert s[..j + 1] == [s[0]] + s[1..][..j];
      j + 1
  }

  lemma IndexOfUnique(s: seq<Id>, x: Id, i: nat)
    requires i < |s| && s[i] == x && x !in s[..i]
    ensures IndexOf(s, x) == i
  {
    var j := IndexOf(s, x);
    assert forall t :: 0 <= t < i ==> s[..i][t] == s[t];
    assert forall t :: 0 <= t < j ==> s[..j][t] == s[t];
  }

  /** List.remove(Object) by identity: the first occurrence of x goes, if any. */
  function RemoveFirst(s: seq<Id>, x: Id): seq<Id>
  {
    if x in s then s[..IndexOf(s, x)] + s[IndexOf(s, x) + 1..] else s
  }

  lemma RemoveFirstSplit(a: seq<Id>, x: Id, b: seq<Id>)
    requires x !in a
    ensures RemoveFirst(a + [x] + b, x) == a + b
  {
    var s := a + [x] + b;
    assert s[..|a|] == a;
    IndexOfUnique(s, x, |a|);
    assert s[|a| + 1..] == b;
  }

  lemma DistinctDrop(s: seq<Id>, i: nat)
    requires Distinct(s) && i < |s|
    ensures Distinct(s[..i] + s[i + 1..]) && s[i] !in s[..i] + s[i + 1..]
  {
    var r := s[..i] + s[i + 1..];
    assert forall j :: 0 <= j < |r| ==> r[j] == s[if j < i then j else j + 1];
  }

  /** In a sequence without repeats, removing x is removing the one position holding it. */
  lemma RemoveFirstAt(s: seq<Id>, i: nat)
    requires Distinct(s) && i < |s|
    ensures RemoveFirst(s, s[i]) == s[..i] + s[i + 1..]
    ensures Distinct(RemoveFirst(s, s[i])) && s[i] !in RemoveFirst(s, s[i])
    ensures multiset(RemoveFirst(s, s[i])) == multiset(s) - multiset{s[i]}
  {
    assert s[i] !in s[..i];
    IndexOfUnique(s, s[i], i);
    DistinctDrop(s, i);
    assert s == s[..i] + [s[i]] + s[i + 1..];
  }

  /** Every element of a is an element of b. */
  predicate Within(a: seq<Id>, b: seq<Id>)
  {
    forall e :: e in a ==> e in b
  }

  lemma RemoveFirstWithin(s: seq<Id>, x: Id)
    ensures Within(RemoveFirst(s, x), s)
  {
    if x in s {
      var i := IndexOf(s, x);
      assert s == s[..i] + [x] + s[i + 1..];
    }
  }

  lemma {:induction false} NamedDistinct(nodes: seq<Node>, s: seq<Id>, nm: string)
    requires Distinct(s)
    ensures Distinct(Named(nodes, s, nm))
    decreases |s|
  {
    if s != [] {
      var front := s[..|s| - 1];
      NamedDistinct(nodes, front, nm);
      NamedMembers(nodes, front, nm, s[|s| - 1]);
      assert s[|s| - 1] !in front;
    }
  }

  lemma NamedSingle(nodes: seq<Node>, x: Id, nm: string)
    ensures Named(nodes, [x], nm) == if NameOf(nodes, x) == nm then [x] else []
  {
    assert [x][..0] == [];
  }

  /** Dropping position i of s drops the same object from the bucket of its
    * name and leaves the other buckets as they were. */
  lemma NamedDrop(nodes: seq<Node>, s: seq<Id>, i: nat, nm: string)
    requires i < |s| && s[i] !in s[..i]
    ensures Named(nodes, s[..i] + s[i + 1..], nm)
         == if NameOf(nodes, s[i]) == nm then RemoveFirst(Named(nodes, s, nm), s[i]) else Named(nodes, s, nm)
  {
    var a, x, b := s[..i], s[i], s[i + 1..];
    assert s == a + [x] + b;
    if NameOf(nodes, x) == nm {
      NamedDropHit(nodes, a, x, b, nm);
    } else {
      NamedDropMiss(nodes, a, x, b, nm);
    }
  }

  lemma NamedDropHit(nodes: seq<Node>, a: seq<Id>, x: Id, b: seq<Id>, nm: string)
    requires x !in a && NameOf(nodes, x) == nm
    ensures Named(nodes, a + b, nm) == RemoveFirst(Named(nodes, a + [x] + b, nm), x)
  {
    NamedAround(nodes, a, x, b, nm);
    NamedMembers(nodes, a, nm, x);
    RemoveFirstSplit(Named(nodes, a, nm), x, Named(nodes, b, nm));
  }

  lemma NamedDropMiss(nodes: seq<Node>, a: seq<Id>, x: Id, b: seq<Id>, nm: string)
    requires NameOf(nodes, x) != nm
    ensures Named(nodes, a + b, nm) == Named(nodes, a + [x] + b, nm)
  {
    NamedAround(nodes, a, x, b, nm);
    assert Named(nodes, a, nm) + [] + Named(nodes, b, nm) == Named(nodes, a, nm) + Named(nodes, b, nm);
  }

  lemma NamedAround(nodes: seq<Node>, a: seq<Id>, x: Id, b: seq<Id>, nm: string)
    ensures Named(nodes, a + [x] + b, nm)
         == Named(nodes, a, nm) + (if NameOf(nodes, x) == nm then [x] else []) + Named(nodes, b, nm)
    ensures Named(nodes, a + b, nm) == Named(nodes, a, nm) + Named(nodes, b, nm)
  {
    NamedConcat(nodes, a + [x], b, nm);
    NamedConcat(nodes, a, [x], nm);
    NamedConcat(nodes, a, b, nm);
    NamedSingle(nodes, x, nm);
  }

  // ---------------------------------------------------------------------
  // Replacing one collection by a smaller one keeps the arena well formed

  lemma SetCollFrame(nodes: seq<Node>, p: Id, k: Kind, c: Coll)
    requires IsItem(nodes, p)
    ensures SameNames(nodes, SetColl(nodes, p, k, c)) && SameOrders(nodes, SetColl(nodes, p, k, c))
    ensures SameKinds(nodes, SetColl(nodes, p, k, c))
    ensures Get(SetColl(nodes, p, k, c), p, k) == c
    ensures forall q: Id, k': Kind :: (q, k') != (p, k) ==> Get(SetColl(nodes, p, k, c), q, k') == Get(nodes, q, k')
    ensures forall i :: 0 <= i < |nodes| && i != p ==> SetColl(nodes, p, k, c)[i] == nodes[i]
  {
  }

  /** c' keeps the allocation state of c and holds only ids c held, in its
    * list and in each bucket. */
  predicate Shrinks(c: Coll, c': Coll)
  {
    c'.created == c.created && Within(c'.entries, c.entries) && Distinct(c'.entries)
    && (!c'.created ==> c'.entries == [] && c'.index == map[])
    && forall nm :: nm in c'.index ==> nm in c.index && Within(c'.index[nm], c.index[nm])
  }

  lemma IdsOkWithin(nodes: seq<Node>, p: Id, k: Kind, a: seq<Id>, b: seq<Id>)
    requires IdsOk(nodes, p, k, b) && Within(a, b)
    ensures IdsOk(nodes, p, k, a)
  {
    forall j | 0 <= j < |a|
      ensures p < a[j] < |nodes| && KindOf(nodes[a[j]]) == k
    {
      assert a[j] in b;
      var j' :| 0 <= j' < |b| && b[j'] == a[j];
    }
  }

  lemma ShrinkCollWF(nodes: seq<Node>, p: Id, k: Kind, c: Coll, i: Id, k': Kind)
    requires WF(nodes) && IsItem(nodes, p) && Shrinks(Get(nodes, p, k), c) && i < |nodes|
    ensures CollWF(SetColl(nodes, p, k, c), i, k')
  {
    var r := SetColl(nodes, p, k, c);
    SetCollFrame(nodes, p, k, c);
    assert NodeWF(nodes, i);
    if (i, k') == (p, k) {
      var c0 := Get(nodes, p, k);
      IdsOkWithin(nodes, p, k, c.entries, c0.entries);
      IdsOkKinds(nodes, r, p, k, c.entries);
      forall nm | nm in c.index
        ensures IdsOk(r, p, k, c.index[nm])
      {
        IdsOkWithin(nodes, p, k, c.index[nm], c0.index[nm]);
        IdsOkKinds(nodes, r, p, k, c.index[nm]);
      }
    } else {
      UnchangedCollWF(nodes, r, i, k');
    }
  }

  lemma ShrinkWF(nodes: seq<Node>, p: Id, k: Kind, c: Coll)
    requires WF(nodes) && IsItem(nodes, p) && Shrinks(Get(nodes, p, k), c)
    ensures WF(SetColl(nodes, p, k, c))
  {
    var r := SetColl(nodes, p, k, c);
    SetCollFrame(nodes, p, k, c);
    forall i | 0 <= i < |r|
      ensures NodeWF(r, i)
    {
      ShrinkCollWF(nodes, p, k, c, i, Children);
      ShrinkCollWF(nodes, p, k, c, i, Variables);
      ShrinkCollWF(nodes, p, k, c, i, Lists);
      assert NodeWF(nodes, i);
    }
  }

  /** Collections other than (p, k) keep their index consistency when only (p, k) changes. */
  lemma OtherIndexed(nodes: seq<Node>, p: Id, k: Kind, c: Coll, q: Id, k': Kind)
    requires IsItem(nodes, p) && (q, k') != (p, k) && Indexed(nodes, q, k')
    ensures Indexed(SetColl(nodes, p, k, c), q, k')
  {
    SetCollFrame(nodes, p, k, c);
    IndexedFrame(nodes, SetColl(nodes, p, k, c), q, k');
  }

  // ---------------------------------------------------------------------
  // Removing one object

  /** The index once x, named nm, has left its bucket: the bucket loses x
    * and is dropped when nothing is left in it. */
  function Unindex(index: map<string, seq<Id>>, nm: string, x: Id): map<string, seq<Id>>
    requires nm in index
  {
    var b := RemoveFirst(index[nm], x);
    if b == [] then index - {nm} else index[nm := b]
  }

  /** removeChild(child) / removeVariable(variable) / removeList(list): false
    * when the collection was never allocated or does not hold x; otherwise x
    * leaves the list, then the bucket of its name, which is dropped once
    * empty.  A name with no bucket (the object was renamed after it was
    * added) raises NullPointerException after the list removal. */
  function RemoveObject(nodes: seq<Node>, p: Id, k: Kind, x: Id): (e: Effect<bool>)
    requires IsItem(nodes, p)
    ensures IsItem(e.nodes, p) && |e.nodes| == |nodes|
  {
    var c := Get(nodes, p, k);
    if !c.created || x !in c.entries then Effect(nodes, Ok(false))
    else
      var entries := RemoveFirst(c.entries, x);
      var nm := NameOf(nodes, x);
      if nm !in c.index then Effect(SetColl(nodes, p, k, c.(entries := entries)), Thrown(NullPointer))
      else Effect(SetColl(nodes, p, k, Coll(true, entries, Unindex(c.index, nm, x))), Ok(true))
  }

  /** removeChild(int) / removeVariable(int) / removeList(int): false when the
    * collection was never allocated, IndexOutOfBoundsException outside
    * [0, size), otherwise the object at that position leaves the list and
    * its bucket. */
  function RemoveAt(nodes: seq<Node>, p: Id, k: Kind, i: int): Effect<bool>
    requires IsItem(nodes, p)
  {
    var c := Get(nodes, p, k);
    if !c.created then Effect(nodes, Ok(false))
    else if i < 0 || i >= |c.entries| then Effect(nodes, Thrown(IndexOutOfBounds))
    else
      var x := c.entries[i];
      var entries := c.entries[..i] + c.entries[i + 1..];
      var nm := NameOf(nodes, x);
      if nm !in c.index then Effect(SetColl(nodes, p, k, c.(entries := entries)), Thrown(NullPointer))
      else Effect(SetColl(nodes, p, k, Coll(true, entries, Unindex(c.index, nm, x))), Ok(true))
  }

  /** On a consistent collection holding x, removeX(x) succeeds and is x
    * leaving the list and the bucket of its name. */
  lemma RemoveObjectResult(nodes: seq<Node>, p: Id, k: Kind, x: Id)
    requires WF(nodes) && IsItem(nodes, p) && Indexed(nodes, p, k) && x in Entries(nodes, p, k)
    ensures var c := Get(nodes, p, k);
      c.created && NameOf(nodes, x) in c.index
      && RemoveObject(nodes, p, k, x)
         == Effect(SetColl(nodes, p, k, Coll(true, RemoveFirst(c.entries, x), Unindex(c.index, NameOf(nodes, x), x))), Ok(true))
  {
    var c := Get(nodes, p, k);
    assert NodeWF(nodes, p);
    NamedMembers(nodes, c.entries, NameOf(nodes, x), x);
  }

  /** The index after Unindex is exact for the list after RemoveFirst, given
    * how the buckets of the shorter list relate to the old ones. */
  lemma UnindexIndexed(nodes: seq<Node>, r: seq<Node>, p: Id, k: Kind, c: Coll, x: Id, nm: string)
    requires nm in c.index
    requires Get(r, p, k) == Coll(true, RemoveFirst(c.entries, x), Unindex(c.index, nm, x))
    requires forall nm' :: (nm' in c.index ==> c.index[nm'] == Named(nodes, c.entries, nm') && c.index[nm'] != [])
                          && (nm' !in c.index ==> Named(nodes, c.entries, nm') == [])
    requires forall nm' :: Named(r, RemoveFirst(c.entries, x), nm')
                          == if nm' == nm then RemoveFirst(Named(nodes, c.entries, nm), x) else Named(nodes, c.entries, nm')
    ensures Indexed(r, p, k)
  {
    var c' := Get(r, p, k);
    forall nm'
      ensures (nm' in c'.index ==> c'.index[nm'] == Named(r, c'.entries, nm') && c'.index[nm'] != [])
           && (nm' !in c'.index ==> Named(r, c'.entries, nm') == [])
    {
      if nm' == nm {
        assert Named(r, c'.entries, nm) == RemoveFirst(c.index[nm], x);
      } else {
        assert Named(r, c'.entries, nm') == Named(nodes, c.entries, nm');
      }
    }
  }

  /** removeX(x) on a consistent collection holding x keeps the arena well
    * formed and the collection consistent. */
  lemma RemoveObjectKeeps(nodes: seq<Node>, p: Id, k: Kind, x: Id)
    requires WF(nodes) && IsItem(nodes, p) && Indexed(nodes, p, k) && x in Entries(nodes, p, k)
    ensures WF(RemoveObject(nodes, p, k, x).nodes)
    ensures Indexed(RemoveObject(nodes, p, k, x).nodes, p, k)
  {
    RemoveObjectResult(nodes, p, k, x);
    var c := Get(nodes, p, k);
    var nm := NameOf(nodes, x);
    assert NodeWF(nodes, p);
    var i := IndexOf(c.entries, x);
    RemoveFirstAt(c.entries, i);
    var entries := RemoveFirst(c.entries, x);
    var c' := Coll(true, entries, Unindex(c.index, nm, x));
    var r := SetColl(nodes, p, k, c');
    SetCollFrame(nodes, p, k, c');
    forall nm'
      ensures Named(r, entries, nm')
           == if nm' == nm then RemoveFirst(Named(nodes, c.entries, nm), x) else Named(nodes, c.entries, nm')
    {
      NamedFrame(nodes, r, entries, nm');
      NamedDrop(nodes, c.entries, i, nm');
    }
    UnindexIndexed(nodes, r, p, k, c, x, nm);
    forall nm' | nm' in c'.index
      ensures nm' in c.index && Within(c'.index[nm'], c.index[nm'])
    {
      if nm' == nm {
        RemoveFirstWithin(c.index[nm], x);
      }
    }
    RemoveFirstWithin(c.entries, x);
    ShrinkWF(nodes, p, k, c');
  }

  lemma NamedNonEmpty(nodes: seq<Node>, s: seq<Id>, nm: string)
    ensures Named(nodes, s, nm) != [] <==> exists y :: y in s && NameOf(nodes, y) == nm
  {
    var b := Named(nodes, s, nm);
    if b != [] {
      NamedMembers(nodes, s, nm, b[0]);
    }
    forall y | y in s && NameOf(nodes, y) == nm
      ensures y in b
    {
      NamedMembers(nodes, s, nm, y);
    }
  }

  /** What RemoveObject leaves when x is an entry of an exactly indexed item. */
  lemma RemoveObjectPresent(nodes: seq<Node>, p: Id, k: Kind, x: Id)
    requires WF(nodes) && IsItem(nodes, p) && Indexed(nodes, p, k) && x in Entries(nodes, p, k)
    ensures RemoveObject(nodes, p, k, x).out == Ok(true)
    ensures WF(RemoveObject(nodes, p, k, x).nodes) && Indexed(RemoveObject(nodes, p, k, x).nodes, p, k)
    ensures Entries(RemoveObject(nodes, p, k, x).nodes, p, k) == RemoveFirst(Entries(nodes, p, k), x)
    ensures SameNames(nodes, RemoveObject(nodes, p, k, x).nodes) && SameOrders(nodes, RemoveObject(nodes, p, k, x).nodes)
    ensures forall q: Id, k': Kind :: (q, k') != (p, k) ==> Get(RemoveObject(nodes, p, k, x).nodes, q, k') == Get(nodes, q, k')
  {
    var c := Get(nodes, p, k);
    RemoveObjectResult(nodes, p, k, x);
    RemoveObjectKeeps(nodes, p, k, x);
    SetCollFrame(nodes, p, k, Coll(true, RemoveFirst(c.entries, x), Unindex(c.index, NameOf(nodes, x), x)));
  }

  /** After the removal, the name of x is a key of the index exactly while
    * another entry carries it. */
  lemma RemoveObjectHas(nodes: seq<Node>, p: Id, k: Kind, x: Id)
    requires WF(nodes) && IsItem(nodes, p) && Indexed(nodes, p, k)
    ensures NameOf(nodes, x) in Get(RemoveObject(nodes, p, k, x).nodes, p, k).index
         <==> exists y :: y in Entries(RemoveObject(nodes, p, k, x).nodes, p, k) && NameOf(nodes, y) == NameOf(nodes, x)
  {
    var nm := NameOf(nodes, x);
    var c := Get(nodes, p, k);
    if x in c.entries {
      RemoveObjectPresent(nodes, p, k, x);
      var r := RemoveObject(nodes, p, k, x).nodes;
      var s := Entries(r, p, k);
      NamedNonEmpty(r, s, nm);
      assert forall y :: y in s ==> NameOf(r, y) == NameOf(nodes, y);
    } else {
      assert NodeWF(nodes, p);
      NamedNonEmpty(nodes, c.entries, nm);
    }
  }

  lemma RemoveFirstAbsent(s: seq<Id>, x: Id)
    requires x !in s
    ensures RemoveFirst(s, x) == s && multiset(s) - multiset{x} == multiset(s)
  {
    assert multiset(s)[x] == 0;
  }

  /** removeChild(child) / removeVariable(variable) / removeList(list) on a
    * well-formed item whose index is exact: the result is whether x was an
    * entry; x is then gone from the list, the other entries keep their
    * order, the name of x stays in the index exactly while another entry
    * still carries it (so has*(name) turns false with the last one), the
    * index stays exact and no other collection, name or order changes. */
  lemma RemoveObjectSpec(nodes: seq<Node>, p: Id, k: Kind, x: Id)
    requires WF(nodes) && IsItem(nodes, p) && Indexed(nodes, p, k)
    ensures RemoveObject(nodes, p, k, x).out == Ok(x in Entries(nodes, p, k))
    ensures WF(RemoveObject(nodes, p, k, x).nodes) && Indexed(RemoveObject(nodes, p, k, x).nodes, p, k)
    ensures Entries(RemoveObject(nodes, p, k, x).nodes, p, k) == RemoveFirst(Entries(nodes, p, k), x)
    ensures x !in Entries(RemoveObject(nodes, p, k, x).nodes, p, k)
    ensures multiset(Entries(RemoveObject(nodes, p, k, x).nodes, p, k)) == multiset(Entries(nodes, p, k)) - multiset{x}
    ensures NameOf(nodes, x) in Get(RemoveObject(nodes, p, k, x).nodes, p, k).index
         <==> exists y :: y in Entries(RemoveObject(nodes, p, k, x).nodes, p, k) && NameOf(nodes, y) == NameOf(nodes, x)
    ensures SameNames(nodes, RemoveObject(nodes, p, k, x).nodes) && SameOrders(nodes, RemoveObject(nodes, p, k, x).nodes)
    ensures forall q: Id, k': Kind :: (q, k') != (p, k) ==> Get(RemoveObject(nodes, p, k, x).nodes, q, k') == Get(nodes, q, k')
  {
    var c := Get(nodes, p, k);
    RemoveObjectHas(nodes, p, k, x);
    if x in c.entries {
      RemoveObjectPresent(nodes, p, k, x);
      assert NodeWF(nodes, p);
      RemoveFirstAt(c.entries, IndexOf(c.entries, x));
    } else {
      RemoveFirstAbsent(c.entries, x);
    }
  }

  /** removeX(int) on a well-formed, exactly indexed item: inside [0, size)
    * it is the removal of the object at that position (RemoveObjectSpec),
    * which leaves the list with that one position cut out; outside it
    * nothing changes, and the call raises IndexOutOfBoundsException on an
    * allocated collection and answers false on one never allocated. */
  lemma RemoveAtSpec(nodes: seq<Node>, p: Id, k: Kind, i: int)
    requires WF(nodes) && IsItem(nodes, p) && Indexed(nodes, p, k)
    ensures var s := Entries(nodes, p, k);
      0 <= i < |s| ==> RemoveAt(nodes, p, k, i) == RemoveObject(nodes, p, k, s[i])
                       && Entries(RemoveAt(nodes, p, k, i).nodes, p, k) == s[..i] + s[i + 1..]
    ensures !(0 <= i < |Entries(nodes, p, k)|) ==>
      RemoveAt(nodes, p, k, i).nodes == nodes
      && RemoveAt(nodes, p, k, i).out
         == (if Get(nodes, p, k).created then Thrown(IndexOutOfBounds) else Ok(false))
  {
    var c := Get(nodes, p, k);
    assert NodeWF(nodes, p);
    if 0 <= i < |c.entries| {
      RemoveFirstAt(c.entries, i);
      RemoveObjectResult(nodes, p, k, c.entries[i]);
      NamedMembers(nodes, c.entries, NameOf(nodes, c.entries[i]), c.entries[i]);
    }
  }

  // ---------------------------------------------------------------------
  // Removing through a name bucket

  /** Which object of a bucket a call removes. */
  datatype Pick = At(i: int) | First | Last

  /** The position a pick designates in a bucket of n objects, if any. */
  function PickPosition(pick: Pick, n: nat): (r: Option<nat>)
    ensures r.Some? ==> r.value < n
  {
    match pick
    case At(i) => if 0 <= i < n then Some(i) else None
    case First => if n > 0 then Some(0) else None
    case Last => if n > 0 then Some(n - 1) else None
  }

  /** The bucket of nm gives up its object at position i, which then leaves
    * the list; the bucket is dropped only when it is empty and the list
    * removal succeeded. */
  function TakeFromBucket(nodes: seq<Node>, p: Id, k: Kind, nm: string, i: nat): Effect<bool>
    requires IsItem(nodes, p) && nm in Get(nodes, p, k).index && i < |Get(nodes, p, k).index[nm]|
  {
    var c := Get(nodes, p, k);
    var b := c.index[nm];
    var x := b[i];
    var rest := b[..i] + b[i + 1..];
    var removed := x in c.entries;
    var index := if removed && rest == [] then c.index - {nm} else c.index[nm := rest];
    Effect(SetColl(nodes, p, k, Coll(c.created, RemoveFirst(c.entries, x), index)), Ok(removed))
  }

  /** removeChild(name, id) / removeVariable(name, id) / removeList(name, id)
    * (false unless the bucket holds more than id objects, and a negative id
    * raises IndexOutOfBoundsException), removeX(name) (the first of the
    * bucket) and removeLastX(name) (the last); an empty bucket left in the
    * index raises NoSuchElementException. */
  function RemoveNamed(nodes: seq<Node>, p: Id, k: Kind, nm: string, pick: Pick): Effect<bool>
    requires IsItem(nodes, p)
  {
    var c := Get(nodes, p, k);
    if !c.created || nm !in c.index then Effect(nodes, Ok(false))
    else
      var b := c.index[nm];
      match pick
      case At(i) =>
        if !(|b| > i) then Effect(nodes, Ok(false))
        else if i < 0 then Effect(nodes, Thrown(IndexOutOfBounds))
        else TakeFromBucket(nodes, p, k, nm, i)
      case First => if b == [] then Effect(nodes, Thrown(NoSuchElement)) else TakeFromBucket(nodes, p, k, nm, 0)
      case Last => if b == [] then Effect(nodes, Thrown(NoSuchElement)) else TakeFromBucket(nodes, p, k, nm, |b| - 1)
  }

  /** On a well-formed, exactly indexed item the bucket-driven removals
    * remove the designated entry of that name, in list order (the first, the
    * last, or the id-th), exactly as removing that object would
    * (RemoveObjectSpec); when there is no such entry nothing changes and
    * nothing is reported removed. */
  lemma RemoveNamedSpec(nodes: seq<Node>, p: Id, k: Kind, nm: string, pick: Pick)
    requires WF(nodes) && IsItem(nodes, p) && Indexed(nodes, p, k)
    ensures var b := Named(nodes, Entries(nodes, p, k), nm);
      var j := PickPosition(pick, |b|);
      (j.Some? ==> RemoveNamed(nodes, p, k, nm, pick) == RemoveObject(nodes, p, k, b[j.value]))
      && (j.None? ==> RemoveNamed(nodes, p, k, nm, pick).nodes == nodes
                      && RemoveNamed(nodes, p, k, nm, pick).out != Ok(true))
  {
    var c := Get(nodes, p, k);
    var b := Named(nodes, c.entries, nm);
    var j := PickPosition(pick, |b|);
    BucketIsNamed(nodes, p, k, nm);
    if j.Some? {
      TakeIsRemoveObject(nodes, p, k, nm, j.value);
    }
  }

  /** On an exactly indexed item a name has a bucket just when some entry
    * carries it, and the bucket is those entries. */
  lemma BucketIsNamed(nodes: seq<Node>, p: Id, k: Kind, nm: string)
    requires WF(nodes) && IsItem(nodes, p) && Indexed(nodes, p, k)
    ensures var c := Get(nodes, p, k);
      (Named(nodes, c.entries, nm) != [] ==> c.created && nm in c.index)
      && (nm in c.index ==> c.index[nm] == Named(nodes, c.entries, nm))
      && (!c.created ==> c.index == map[])
  {
    assert NodeWF(nodes, p);
  }

  /** Taking the i-th object of an exact bucket is removing that object. */
  lemma TakeIsRemoveObject(nodes: seq<Node>, p: Id, k: Kind, nm: string, i: nat)
    requires WF(nodes) && IsItem(nodes, p) && Indexed(nodes, p, k)
    requires nm in Get(nodes, p, k).index && i < |Get(nodes, p, k).index[nm]|
    ensures TakeFromBucket(nodes, p, k, nm, i) == RemoveObject(nodes, p, k, Get(nodes, p, k).index[nm][i])
  {
    var c := Get(nodes, p, k);
    var b := c.index[nm];
    var x := b[i];
    assert NodeWF(nodes, p);
    NamedDistinct(nodes, c.entries, nm);
    RemoveFirstAt(b, i);
    NamedMembers(nodes, c.entries, nm, x);
    RemoveObjectResult(nodes, p, k, x);
  }

  /** The entries of s that are not in b, in order. */
  function Without(s: seq<Id>, b: seq<Id>): (r: seq<Id>)
  {
    if s == [] then []
    else Without(s[..|s| - 1], b) + (if s[|s| - 1] in b then [] else [s[|s| - 1]])
  }

  lemma {:induction false} WithoutMembers(s: seq<Id>, b: seq<Id>)
    ensures forall y :: y in Without(s, b) <==> y in s && y !in b
    ensures Distinct(s) ==> Distinct(Without(s, b))
    decreases |s|
  {
    if s != [] {
      var front := s[..|s| - 1];
      WithoutMembers(front, b);
      assert s == front + [s[|s| - 1]];
    }
  }

  lemma {:induction false} NamedWithout(nodes: seq<Node>, s: seq<Id>, b: seq<Id>, nm: string, nm': string)
    requires forall y :: y in s ==> (y in b <==> NameOf(nodes, y) == nm)
    ensures Named(nodes, Without(s, b), nm') == if nm' == nm then [] else Named(nodes, s, nm')
    decreases |s|
  {
    if s != [] {
      var front := s[..|s| - 1];
      var y := s[|s| - 1];
      assert forall z :: z in front ==> z in s;
      NamedWithout(nodes, front, b, nm, nm');
      assert Named(nodes, s, nm') == Named(nodes, front, nm') + (if NameOf(nodes, y) == nm' then [y] else []);
      if y in b {
        assert Without(s, b) == Without(front, b);
      } else {
        assert Without(s, b) == Without(front, b) + [y];
        NamedAppend(nodes, Without(front, b), y, nm');
      }
    }
  }

  /** removeChildren(name) / removeVariables(name) / removeLists(name): the
    * bucket is taken out of the index and its objects out of the list; the
    * result is whether the list changed. */
  function RemoveAllNamed(nodes: seq<Node>, p: Id, k: Kind, nm: string): Effect<bool>
    requires IsItem(nodes, p)
  {
    var c := Get(nodes, p, k);
    if !c.created || nm !in c.index then Effect(nodes, Ok(false))
    else
      var entries := Without(c.entries, c.index[nm]);
      Effect(SetColl(nodes, p, k, Coll(true, entries, c.index - {nm})), Ok(entries != c.entries))
  }

  /** On a well-formed, exactly indexed item, removing all objects of a name
    * keeps exactly the entries of other names, in order; the name leaves the
    * index, the index stays exact, and the result says whether there was
    * anything of that name. */
  lemma RemoveAllNamedSpec(nodes: seq<Node>, p: Id, k: Kind, nm: string)
    requires WF(nodes) && IsItem(nodes, p) && Indexed(nodes, p, k)
    ensures RemoveAllNamed(nodes, p, k, nm).out == Ok(exists y :: y in Entries(nodes, p, k) && NameOf(nodes, y) == nm)
    ensures forall y :: y in Entries(RemoveAllNamed(nodes, p, k, nm).nodes, p, k)
                    <==> y in Entries(nodes, p, k) && NameOf(nodes, y) != nm
    ensures nm !in Get(RemoveAllNamed(nodes, p, k, nm).nodes, p, k).index
    ensures WF(RemoveAllNamed(nodes, p, k, nm).nodes) && Indexed(RemoveAllNamed(nodes, p, k, nm).nodes, p, k)
    ensures forall q: Id, k': Kind :: (q, k') != (p, k) ==> Get(RemoveAllNamed(nodes, p, k, nm).nodes, q, k') == Get(nodes, q, k')
  {
    var c := Get(nodes, p, k);
    assert NodeWF(nodes, p);
    NamedNonEmpty(nodes, c.entries, nm);
    if c.created && nm in c.index {
      RemoveAllNamedPresent(nodes, p, k, nm);
    } else {
      assert forall y :: y in c.entries ==> NameOf(nodes, y) != nm;
    }
  }

  lemma RemoveAllNamedPresent(nodes: seq<Node>, p: Id, k: Kind, nm: string)
    requires WF(nodes) && IsItem(nodes, p) && Indexed(nodes, p, k)
    requires Get(nodes, p, k).created && nm in Get(nodes, p, k).index
    ensures RemoveAllNamed(nodes, p, k, nm).out == Ok(exists y :: y in Entries(nodes, p, k) && NameOf(nodes, y) == nm)
    ensures forall y :: y in Entries(RemoveAllNamed(nodes, p, k, nm).nodes, p, k)
                    <==> y in Entries(nodes, p, k) && NameOf(nodes, y) != nm
    ensures WF(RemoveAllNamed(nodes, p, k, nm).nodes) && Indexed(RemoveAllNamed(nodes, p, k, nm).nodes, p, k)
    ensures forall q: Id, k': Kind :: (q, k') != (p, k) ==> Get(RemoveAllNamed(nodes, p, k, nm).nodes, q, k') == Get(nodes, q, k')
  {
    RemoveAllNamedEntries(nodes, p, k, nm);
    RemoveAllNamedKeeps(nodes, p, k, nm);
  }

  lemma RemoveAllNamedEntries(nodes: seq<Node>, p: Id, k: Kind, nm: string)
    requires WF(nodes) && IsItem(nodes, p) && Indexed(nodes, p, k)
    requires Get(nodes, p, k).created && nm in Get(nodes, p, k).index
    ensures RemoveAllNamed(nodes, p, k, nm).out == Ok(exists y :: y in Entries(nodes, p, k) && NameOf(nodes, y) == nm)
    ensures forall y :: y in Entries(RemoveAllNamed(nodes, p, k, nm).nodes, p, k)
                    <==> y in Entries(nodes, p, k) && NameOf(nodes, y) != nm
  {
    var c := Get(nodes, p, k);
    var b := c.index[nm];
    BucketIsNamed(nodes, p, k, nm);
    BucketSplitsByName(nodes, c.entries, nm, b);
    WithoutMembers(c.entries, b);
    var entries := Without(c.entries, b);
    SetCollFrame(nodes, p, k, Coll(true, entries, c.index - {nm}));
    assert b != [] by { assert NodeWF(nodes, p); }
    NamedMembers(nodes, c.entries, nm, b[0]);
    assert b[0] in c.entries && b[0] !in entries;
  }

  lemma RemoveAllNamedKeeps(nodes: seq<Node>, p: Id, k: Kind, nm: string)
    requires WF(nodes) && IsItem(nodes, p) && Indexed(nodes, p, k)
    requires Get(nodes, p, k).created && nm in Get(nodes, p, k).index
    ensures WF(RemoveAllNamed(nodes, p, k, nm).nodes) && Indexed(RemoveAllNamed(nodes, p, k, nm).nodes, p, k)
    ensures forall q: Id, k': Kind :: (q, k') != (p, k) ==> Get(RemoveAllNamed(nodes, p, k, nm).nodes, q, k') == Get(nodes, q, k')
  {
    var c := Get(nodes, p, k);
    assert NodeWF(nodes, p);
    var b := c.index[nm];
    WithoutMembers(c.entries, b);
    var c' := Coll(true, Without(c.entries, b), c.index - {nm});
    SetCollFrame(nodes, p, k, c');
    WithoutIndexed(nodes, p, k, nm);
    ShrinkWF(nodes, p, k, c');
  }

  lemma BucketSplitsByName(nodes: seq<Node>, s: seq<Id>, nm: string, b: seq<Id>)
    requires b == Named(nodes, s, nm)
    ensures forall y :: y in s ==> (y in b <==> NameOf(nodes, y) == nm)
  {
    forall y | y in s
      ensures y in b <==> NameOf(nodes, y) == nm
    {
      NamedMembers(nodes, s, nm, y);
    }
  }

  lemma WithoutIndexed(nodes: seq<Node>, p: Id, k: Kind, nm: string)
    requires IsItem(nodes, p) && Indexed(nodes, p, k) && nm in Get(nodes, p, k).index
    ensures var c := Get(nodes, p, k);
      Indexed(SetColl(nodes, p, k, Coll(true, Without(c.entries, c.index[nm]), c.index - {nm})), p, k)
  {
    var c := Get(nodes, p, k);
    var b := c.index[nm];
    BucketSplitsByName(nodes, c.entries, nm, b);
    var entries := Without(c.entries, b);
    var c' := Coll(true, entries, c.index - {nm});
    var r := SetColl(nodes, p, k, c');
    SetCollFrame(nodes, p, k, c');
    forall nm'
      ensures Named(r, entries, nm') == if nm' == nm then [] else Named(nodes, c.entries, nm')
    {
      NamedFrame(nodes, r, entries, nm');
      NamedWithout(nodes, c.entries, b, nm, nm');
    }
  }

  // ---------------------------------------------------------------------
  // Clearing

  /** removeAllChildren / removeAllVariables / removeAllLists: an allocated
    * collection is emptied, list and index alike. */
  function Clear(nodes: seq<Node>, p: Id, k: Kind): seq<Node>
    requires IsItem(nodes, p)
  {
    if Get(nodes, p, k).created then SetColl(nodes, p, k, Coll(true, [], map[])) else nodes
  }

  /** removeAll: the three collections in turn. */
  function ClearAll(nodes: seq<Node>, p: Id): (r: seq<Node>)
    requires IsItem(nodes, p)
    ensures |r| == |nodes|
  {
    Clear(Clear(Clear(nodes, p, Children), p, Variables), p, Lists)
  }

  lemma ClearKeeps(nodes: seq<Node>, p: Id, k: Kind)
    requires WF(nodes) && IsItem(nodes, p)
    ensures WF(Clear(nodes, p, k)) && IsItem(Clear(nodes, p, k), p)
    ensures Entries(Clear(nodes, p, k), p, k) == [] && Indexed(Clear(nodes, p, k), p, k)
    ensures forall q: Id, k': Kind :: Indexed(nodes, q, k') && (q, k') != (p, k) ==> Indexed(Clear(nodes, p, k), q, k')
    ensures forall q: Id, k': Kind :: (q, k') != (p, k) ==> Get(Clear(nodes, p, k), q, k') == Get(nodes, q, k')
  {
    var c := Get(nodes, p, k);
    assert NodeWF(nodes, p);
    if c.created {
      var c' := Coll(true, [], map[]);
      SetCollFrame(nodes, p, k, c');
      ShrinkWF(nodes, p, k, c');
      forall q: Id, k': Kind | Indexed(nodes, q, k') && (q, k') != (p, k)
        ensures Indexed(Clear(nodes, p, k), q, k')
      {
        OtherIndexed(nodes, p, k, c', q, k');
      }
    }
  }

  /** removeAll leaves the item empty, keeps the arena well formed and every
    * index exact, and touches no other item. */
  lemma ClearAllSpec(nodes: seq<Node>, p: Id)
    requires WF(nodes) && IsItem(nodes, p)
    ensures WF(ClearAll(nodes, p)) && IsEmpty(ClearAll(nodes, p), p) && NbObjects(ClearAll(nodes, p), p) == 0
    ensures forall q: Id, k: Kind :: Indexed(nodes, q, k) ==> Indexed(ClearAll(nodes, p), q, k)
    ensures forall q: Id, k: Kind :: q != p ==> Get(ClearAll(nodes, p), q, k) == Get(nodes, q, k)
  {
    var n1 := Clear(nodes, p, Children);
    ClearKeeps(nodes, p, Children);
    var n2 := Clear(n1, p, Variables);
    ClearKeeps(n1, p, Variables);
    ClearKeeps(n2, p, Lists);
  }

  // ---------------------------------------------------------------------
  // Removing by a condition

  /** removeChildIf / removeVariableIf / removeListIf: the first entry the
    * condition matches is removed as removeX(object) removes it, and the
    * result is whether one matched. */
  function RemoveFirstMatch(nodes: seq<Node>, p: Id, k: Kind, f: Criterion): (e: Effect<bool>)
    requires IsItem(nodes, p)
    ensures IsItem(e.nodes, p) && |e.nodes| == |nodes|
  {
    var c := Get(nodes, p, k);
    if !c.created then Effect(nodes, Ok(false))
    else match FirstMatch(nodes, c.entries, f)
      case None => Effect(nodes, Ok(false))
      case Some(i) =>
        var e := RemoveObject(nodes, p, k, c.entries[i]);
        if e.out.Thrown? then e else Effect(e.nodes, Ok(true))
  }

  /** What a change confined to collection (p, k) of a well-formed arena
    * keeps: well-formedness, every name and order, every other collection,
    * and every exact index. */
  ghost predicate KeepsOthers(a: seq<Node>, b: seq<Node>, p: Id, k: Kind)
  {
    WF(b) && SameNames(a, b) && SameOrders(a, b)
    && (forall q: Id, k': Kind :: (q, k') != (p, k) ==> Get(b, q, k') == Get(a, q, k'))
    && (forall q: Id, k': Kind :: Indexed(a, q, k') ==> Indexed(b, q, k'))
  }

  lemma KeepsOthersFrame(a: seq<Node>, b: seq<Node>, p: Id, k: Kind)
    requires WF(b) && SameNames(a, b) && SameOrders(a, b)
    requires forall q: Id, k': Kind :: (q, k') != (p, k) ==> Get(b, q, k') == Get(a, q, k')
    requires Indexed(a, p, k) ==> Indexed(b, p, k)
    ensures KeepsOthers(a, b, p, k)
  {
    forall q: Id, k': Kind | Indexed(a, q, k')
      ensures Indexed(b, q, k')
    {
      if (q, k') != (p, k) {
        IndexedFrame(a, b, q, k');
      }
    }
  }

  lemma KeepsOthersRefl(a: seq<Node>, p: Id, k: Kind)
    requires WF(a)
    ensures KeepsOthers(a, a, p, k)
  {
  }

  /** removeXIf on a well-formed, exactly indexed item: the result is whether
    * some entry matches; exactly the first matching entry leaves the list,
    * and the change stays within that collection. */
  lemma RemoveFirstMatchSpec(nodes: seq<Node>, p: Id, k: Kind, f: Criterion)
    requires WF(nodes) && IsItem(nodes, p) && Indexed(nodes, p, k)
    ensures var s := Entries(nodes, p, k);
      RemoveFirstMatch(nodes, p, k, f).out == Ok(exists j :: 0 <= j < |s| && Matches(nodes, s[j], f))
    ensures var s := Entries(nodes, p, k);
      var m := FirstMatch(nodes, s, f);
      forall y :: y in Entries(RemoveFirstMatch(nodes, p, k, f).nodes, p, k) <==> y in s && (m.None? || y != s[m.value])
    ensures KeepsOthers(nodes, RemoveFirstMatch(nodes, p, k, f).nodes, p, k)
  {
    var s := Entries(nodes, p, k);
    var m := FirstMatch(nodes, s, f);
    assert NodeWF(nodes, p);
    if m.Some? {
      RemoveFirstMatchFound(nodes, p, k, f, m.value);
    } else {
      KeepsOthersRefl(nodes, p, k);
    }
  }

  lemma RemoveFirstMatchFound(nodes: seq<Node>, p: Id, k: Kind, f: Criterion, i: nat)
    requires WF(nodes) && IsItem(nodes, p) && Indexed(nodes, p, k)
    requires FirstMatch(nodes, Entries(nodes, p, k), f) == Some(i)
    ensures RemoveFirstMatch(nodes, p, k, f).out == Ok(true)
    ensures var s := Entries(nodes, p, k);
      forall y :: y in Entries(RemoveFirstMatch(nodes, p, k, f).nodes, p, k) <==> y in s && y != s[i]
    ensures KeepsOthers(nodes, RemoveFirstMatch(nodes, p, k, f).nodes, p, k)
  {
    var s := Entries(nodes, p, k);
    RemoveFirstMatchIs(nodes, p, k, f, i);
    RemoveObjectKeepsOthers(nodes, p, k, s[i]);
  }

  lemma RemoveFirstMatchIs(nodes: seq<Node>, p: Id, k: Kind, f: Criterion, i: nat)
    requires WF(nodes) && IsItem(nodes, p) && Indexed(nodes, p, k)
    requires FirstMatch(nodes, Entries(nodes, p, k), f) == Some(i)
    ensures i < |Entries(nodes, p, k)|
    ensures RemoveFirstMatch(nodes, p, k, f) == RemoveObject(nodes, p, k, Entries(nodes, p, k)[i])
    ensures RemoveObject(nodes, p, k, Entries(nodes, p, k)[i]).out == Ok(true)
  {
    assert NodeWF(nodes, p);
    RemoveObjectPresent(nodes, p, k, Entries(nodes, p, k)[i]);
  }

  /** Removing a present entry takes out just that entry and stays within its collection. */
  lemma RemoveObjectKeepsOthers(nodes: seq<Node>, p: Id, k: Kind, x: Id)
    requires WF(nodes) && IsItem(nodes, p) && Indexed(nodes, p, k) && x in Entries(nodes, p, k)
    ensures forall y :: y in Entries(RemoveObject(nodes, p, k, x).nodes, p, k) <==> y in Entries(nodes, p, k) && y != x
    ensures KeepsOthers(nodes, RemoveObject(nodes, p, k, x).nodes, p, k)
  {
    RemoveObjectMembers(nodes, p, k, x);
    RemoveObjectPresent(nodes, p, k, x);
    KeepsOthersFrame(nodes, RemoveObject(nodes, p, k, x).nodes, p, k);
  }

  lemma RemoveObjectMembers(nodes: seq<Node>, p: Id, k: Kind, x: Id)
    requires WF(nodes) && IsItem(nodes, p) && Indexed(nodes, p, k) && x in Entries(nodes, p, k)
    ensures forall y :: y in Entries(RemoveObject(nodes, p, k, x).nodes, p, k) <==> y in Entries(nodes, p, k) && y != x
  {
    assert NodeWF(nodes, p) && CollWF(nodes, p, k);
    RemoveObjectPresent(nodes, p, k, x);
    RemoveFirstMembers(Entries(nodes, p, k), x);
  }

  lemma RemoveFirstMembers(s: seq<Id>, x: Id)
    requires Distinct(s) && x in s
    ensures forall y :: y in RemoveFirst(s, x) <==> y in s && y != x
  {
    var i := IndexOf(s, x);
    RemoveFirstAt(s, i);
    assert s == s[..i] + [x] + s[i + 1..];
  }

  /** The elements of s the condition does not match, in order. */
  function Keep(nodes: seq<Node>, s: seq<Id>, f: Criterion): (r: seq<Id>)
  {
    if s == [] then []
    else Keep(nodes, s[..|s| - 1], f) + (if Matches(nodes, s[|s| - 1], f) then [] else [s[|s| - 1]])
  }

  lemma KeepMembers(nodes: seq<Node>, s: seq<Id>, f: Criterion)
    ensures forall y :: y in Keep(nodes, s, f) <==> y in s && !Matches(nodes, y, f)
    ensures Distinct(s) ==> Distinct(Keep(nodes, s, f))
    ensures Keep(nodes, s, f) == s <==> forall j :: 0 <= j < |s| ==> !Matches(nodes, s[j], f)
    ensures |Keep(nodes, s, f)| <= |s|
  {
    KeepIn(nodes, s, f);
    if Distinct(s) {
      KeepDistinct(nodes, s, f);
    }
    KeepSame(nodes, s, f);
  }

  lemma {:induction false} KeepIn(nodes: seq<Node>, s: seq<Id>, f: Criterion)
    ensures forall y :: y in Keep(nodes, s, f) <==> y in s && !Matches(nodes, y, f)
    decreases |s|
  {
    if s != [] {
      var front := s[..|s| - 1];
      KeepIn(nodes, front, f);
      assert s == front + [s[|s| - 1]];
    }
  }

  lemma {:induction false} KeepDistinct(nodes: seq<Node>, s: seq<Id>, f: Criterion)
    requires Distinct(s)
    ensures Distinct(Keep(nodes, s, f))
    decreases |s|
  {
    if s != [] {
      var front := s[..|s| - 1];
      assert Distinct(front);
      KeepDistinct(nodes, front, f);
      KeepIn(nodes, front, f);
    }
  }

  lemma {:induction false} KeepSame(nodes: seq<Node>, s: seq<Id>, f: Criterion)
    ensures |Keep(nodes, s, f)| <= |s|
    ensures Keep(nodes, s, f) == s <==> forall j :: 0 <= j < |s| ==> !Matches(nodes, s[j], f)
    decreases |s|
  {
    if s != [] {
      var front := s[..|s| - 1];
      KeepSame(nodes, front, f);
      assert s == front + [s[|s| - 1]];
    }
  }

  lemma {:induction false} KeepAppend(nodes: seq<Node>, s: seq<Id>, x: Id, f: Criterion)
    ensures Keep(nodes, s + [x], f) == Keep(nodes, s, f) + (if Matches(nodes, x, f) then [] else [x])
  {
    assert (s + [x])[..|s|] == s;
  }

  lemma {:induction false} NamedKeep(nodes: seq<Node>, s: seq<Id>, f: Criterion, nm: string)
    ensures Named(nodes, Keep(nodes, s, f), nm) == Keep(nodes, Named(nodes, s, nm), f)
    decreases |s|
  {
    if s != [] {
      var front := s[..|s| - 1];
      var y := s[|s| - 1];
      assert s == front + [y];
      NamedKeep(nodes, front, f, nm);
      var kf, nf := Keep(nodes, front, f), Named(nodes, front, nm);
      KeepAppend(nodes, front, y, f);
      NamedAppend(nodes, front, y, nm);
      if Matches(nodes, y, f) {
        assert Keep(nodes, s, f) == kf;
        if NameOf(nodes, y) == nm {
          KeepAppend(nodes, nf, y, f);
          assert Keep(nodes, Named(nodes, s, nm), f) == Keep(nodes, nf, f);
        } else {
          assert Named(nodes, s, nm) == nf;
        }
      } else {
        assert Keep(nodes, s, f) == kf + [y];
        NamedAppend(nodes, kf, y, nm);
        if NameOf(nodes, y) == nm {
          KeepAppend(nodes, nf, y, f);
          assert Keep(nodes, Named(nodes, s, nm), f) == Keep(nodes, nf, f) + [y];
        } else {
          assert Named(nodes, s, nm) == nf;
          assert Named(nodes, kf + [y], nm) == Named(nodes, kf, nm);
        }
      }
    }
  }

  /** The index once every matching object has left every bucket; emptied buckets go. */
  function KeepIndex(nodes: seq<Node>, index: map<string, seq<Id>>, f: Criterion): map<string, seq<Id>>
  {
    map nm | nm in index && Keep(nodes, index[nm], f) != [] :: Keep(nodes, index[nm], f)
  }

  /** removeChildrenIf / removeVariablesIf / removeListsIf, taken to mean what
    * their name says: every entry the condition matches leaves the list and
    * its bucket; the result is whether any matched.  (The Java loop fails
    * instead; see RemoveEveryMatchAsWritten.) */
  function RemoveEveryMatch(nodes: seq<Node>, p: Id, k: Kind, f: Criterion): (e: Effect<bool>)
    requires IsItem(nodes, p)
    ensures IsItem(e.nodes, p) && |e.nodes| == |nodes|
  {
    var c := Get(nodes, p, k);
    var entries := Keep(nodes, c.entries, f);
    if !c.created || entries == c.entries then Effect(nodes, Ok(false))
    else Effect(SetColl(nodes, p, k, Coll(true, entries, KeepIndex(nodes, c.index, f))), Ok(true))
  }

  lemma KeepIndexed(nodes: seq<Node>, p: Id, k: Kind, f: Criterion)
    requires IsItem(nodes, p) && Indexed(nodes, p, k)
    ensures var c := Get(nodes, p, k);
      Indexed(SetColl(nodes, p, k, Coll(true, Keep(nodes, c.entries, f), KeepIndex(nodes, c.index, f))), p, k)
  {
    var c := Get(nodes, p, k);
    var entries := Keep(nodes, c.entries, f);
    var c' := Coll(true, entries, KeepIndex(nodes, c.index, f));
    var r := SetColl(nodes, p, k, c');
    SetCollFrame(nodes, p, k, c');
    forall nm
      ensures Named(r, entries, nm) == Keep(nodes, Named(nodes, c.entries, nm), f)
    {
      NamedFrame(nodes, r, entries, nm);
      NamedKeep(nodes, c.entries, f, nm);
    }
  }

  /** removeXsIf (as intended) on a well-formed, exactly indexed item: the
    * result is whether some entry matches; afterwards the list holds exactly
    * the entries that do not match, and the change stays within that
    * collection. */
  lemma RemoveEveryMatchSpec(nodes: seq<Node>, p: Id, k: Kind, f: Criterion)
    requires WF(nodes) && IsItem(nodes, p) && Indexed(nodes, p, k)
    ensures var s := Entries(nodes, p, k);
      RemoveEveryMatch(nodes, p, k, f).out == Ok(exists j :: 0 <= j < |s| && Matches(nodes, s[j], f))
    ensures forall y :: y in Entries(RemoveEveryMatch(nodes, p, k, f).nodes, p, k)
                    <==> y in Entries(nodes, p, k) && !Matches(nodes, y, f)
    ensures KeepsOthers(nodes, RemoveEveryMatch(nodes, p, k, f).nodes, p, k)
  {
    var c := Get(nodes, p, k);
    assert NodeWF(nodes, p);
    KeepMembers(nodes, c.entries, f);
    var s := c.entries;
    if c.created && Keep(nodes, s, f) != s {
      RemoveEveryMatchChanged(nodes, p, k, f);
    } else if c.created {
      KeepsOthersRefl(nodes, p, k);
      assert RemoveEveryMatch(nodes, p, k, f).out == Ok(false);
      assert forall j :: 0 <= j < |s| ==> !Matches(nodes, s[j], f);
    } else {
      KeepsOthersRefl(nodes, p, k);
      assert CollWF(nodes, p, k);
    }
  }

  lemma RemoveEveryMatchChanged(nodes: seq<Node>, p: Id, k: Kind, f: Criterion)
    requires WF(nodes) && IsItem(nodes, p) && Indexed(nodes, p, k)
    requires Get(nodes, p, k).created && Keep(nodes, Entries(nodes, p, k), f) != Entries(nodes, p, k)
    ensures var s := Entries(nodes, p, k);
      RemoveEveryMatch(nodes, p, k, f).out == Ok(true) && exists j :: 0 <= j < |s| && Matches(nodes, s[j], f)
    ensures forall y :: y in Entries(RemoveEveryMatch(nodes, p, k, f).nodes, p, k)
                    <==> y in Entries(nodes, p, k) && !Matches(nodes, y, f)
    ensures KeepsOthers(nodes, RemoveEveryMatch(nodes, p, k, f).nodes, p, k)
  {
    var c := Get(nodes, p, k);
    assert NodeWF(nodes, p);
    KeepMembers(nodes, c.entries, f);
    var c' := Coll(true, Keep(nodes, c.entries, f), KeepIndex(nodes, c.index, f));
    var r := SetColl(nodes, p, k, c');
    SetCollFrame(nodes, p, k, c');
    forall nm | nm in c'.index
      ensures nm in c.index && Within(c'.index[nm], c.index[nm])
    {
      KeepMembers(nodes, c.index[nm], f);
    }
    ShrinkWF(nodes, p, k, c');
    KeepIndexed(nodes, p, k, f);
    KeepsOthersFrame(nodes, r, p, k);
  }

  /** removeChildrenIf / removeVariablesIf / removeListsIf as written: the
    * for-each loop removes from the very list it iterates.  After the first
    * removal, at position i of n entries, the iterator stops only when its
    * cursor i + 1 equals the new size n - 1; otherwise its next step raises
    * ConcurrentModificationException, the removal already done. */
  function RemoveEveryMatchAsWritten(nodes: seq<Node>, p: Id, k: Kind, f: Criterion): (e: Effect<bool>)
    requires IsItem(nodes, p)
    ensures IsItem(e.nodes, p) && |e.nodes| == |nodes|
  {
    var c := Get(nodes, p, k);
    if !c.created then Effect(nodes, Ok(false))
    else match FirstMatch(nodes, c.entries, f)
      case None => Effect(nodes, Ok(false))
      case Some(i) =>
        var e := RemoveObject(nodes, p, k, c.entries[i]);
        if e.out.Thrown? then e
        else if i + 1 == |c.entries| - 1 then Effect(e.nodes, Ok(true))
        else Effect(e.nodes, Thrown(ConcurrentModification))
  }

  // ---------------------------------------------------------------------
  // removeByOrder

  /** removeByOrder(order): the first list of that order, else every
    * variable of that order, else the first child of that order. */
  function RemoveByOrder(nodes: seq<Node>, p: Id, o: int): (e: Effect<bool>)
    requires IsItem(nodes, p)
    ensures IsItem(e.nodes, p) && |e.nodes| == |nodes|
  {
    var e1 := RemoveFirstMatch(nodes, p, Lists, OrderIs(o));
    if e1.out != Ok(false) then e1
    else
      var e2 := RemoveEveryMatch(e1.nodes, p, Variables, OrderIs(o));
      if e2.out != Ok(false) then e2
      else RemoveFirstMatch(e2.nodes, p, Children, OrderIs(o))
  }

  /** removeByOrder as written, with the variables going through the failing loop. */
  function RemoveByOrderAsWritten(nodes: seq<Node>, p: Id, o: int): (e: Effect<bool>)
    requires IsItem(nodes, p)
    ensures IsItem(e.nodes, p) && |e.nodes| == |nodes|
  {
    var e1 := RemoveFirstMatch(nodes, p, Lists, OrderIs(o));
    if e1.out != Ok(false) then e1
    else
      var e2 := RemoveEveryMatchAsWritten(e1.nodes, p, Variables, OrderIs(o));
      if e2.out != Ok(false) then e2
      else RemoveFirstMatch(e2.nodes, p, Children, OrderIs(o))
  }

  /** No two entries of the item share an order. */
  ghost predicate UniqueOrders(nodes: seq<Node>, p: Id)
  {
    forall m1, m2 :: m1 in AllEntries(nodes, p) && m2 in AllEntries(nodes, p) && m1 != m2 ==> Ord(nodes, m1) != Ord(nodes, m2)
  }

  /** Matching by order is having that order, for entries of the arena. */
  lemma MatchOrderIff(nodes: seq<Node>, s: seq<Id>, o: int)
    requires forall y :: y in s ==> y < |nodes|
    ensures (exists j :: 0 <= j < |s| && Matches(nodes, s[j], OrderIs(o))) <==> exists y :: y in s && Ord(nodes, y) == o
    ensures FirstMatch(nodes, s, OrderIs(o)).None? <==> forall y :: y in s ==> Ord(nodes, y) != o
  {
    if exists y :: y in s && Ord(nodes, y) == o {
      var y :| y in s && Ord(nodes, y) == o;
      var j :| 0 <= j < |s| && s[j] == y;
      assert Matches(nodes, s[j], OrderIs(o));
    } else {
      forall j | 0 <= j < |s|
        ensures !Matches(nodes, s[j], OrderIs(o))
      {
        assert s[j] in s;
      }
    }
  }

  lemma EntriesInRange(nodes: seq<Node>, p: Id)
    requires WF(nodes)
    ensures forall k: Kind, y :: y in Entries(nodes, p, k) ==> y < |nodes|
  {
    forall k: Kind, y | y in Entries(nodes, p, k)
      ensures y < |nodes|
    {
      assert y in AllEntries(nodes, p);
      AllEntriesInRange(nodes, p, y);
    }
  }

  lemma EntryKind(nodes: seq<Node>, p: Id, k: Kind, y: Id)
    requires WF(nodes) && p < |nodes| && y in Entries(nodes, p, k)
    ensures y < |nodes| && KindOf(nodes[y]) == k
  {
    assert NodeWF(nodes, p) && CollWF(nodes, p, k);
    var s := Entries(nodes, p, k);
    var j :| 0 <= j < |s| && s[j] == y;
  }

  /** Under unique orders, the entry of order o is the only one. */
  lemma UniqueAt(nodes: seq<Node>, p: Id, m: Id, o: int)
    requires UniqueOrders(nodes, p) && m in AllEntries(nodes, p) && Ord(nodes, m) == o
    ensures forall y :: y in AllEntries(nodes, p) ==> (Ord(nodes, y) == o <==> y == m)
  {
  }

  /** What removeByOrder keeps of the arena. */
  ghost predicate ItemKept(a: seq<Node>, b: seq<Node>, p: Id)
  {
    WF(b) && SameNames(a, b) && SameOrders(a, b)
    && Indexed(b, p, Children) && Indexed(b, p, Variables) && Indexed(b, p, Lists)
  }

  /** The preconditions of removeByOrder's contract. */
  ghost predicate OrderedItem(nodes: seq<Node>, p: Id)
  {
    WF(nodes) && IsItem(nodes, p) && UniqueOrders(nodes, p)
    && Indexed(nodes, p, Children) && Indexed(nodes, p, Variables) && Indexed(nodes, p, Lists)
  }

  /** removeByOrder on an item whose entries have distinct orders (as the
    * orders of a parsed or consistently edited item do): the result is
    * whether an entry of that order existed, and afterwards the item holds
    * exactly its other entries, still well-formed and exactly indexed. */
  lemma RemoveByOrderSpec(nodes: seq<Node>, p: Id, o: int)
    requires OrderedItem(nodes, p)
    ensures RemoveByOrder(nodes, p, o).out == Ok(exists y :: y in AllEntries(nodes, p) && Ord(nodes, y) == o)
    ensures forall y :: y in AllEntries(RemoveByOrder(nodes, p, o).nodes, p)
                    <==> y in AllEntries(nodes, p) && Ord(nodes, y) != o
    ensures ItemKept(nodes, RemoveByOrder(nodes, p, o).nodes, p)
  {
    EntriesInRange(nodes, p);
    var L, V := Entries(nodes, p, Lists), Entries(nodes, p, Variables);
    EntriesInRange(nodes, p);
    MatchOrderIff(nodes, L, o);
    MatchOrderIff(nodes, V, o);
    if FirstMatch(nodes, L, OrderIs(o)).Some? {
      ByOrderInLists(nodes, p, o);
    } else if FirstMatch(nodes, V, OrderIs(o)).Some? {
      ByOrderInVariables(nodes, p, o);
    } else {
      ByOrderInChildren(nodes, p, o);
    }
  }

  lemma ByOrderInLists(nodes: seq<Node>, p: Id, o: int)
    requires OrderedItem(nodes, p) && FirstMatch(nodes, Entries(nodes, p, Lists), OrderIs(o)).Some?
    ensures RemoveByOrder(nodes, p, o).out == Ok(exists y :: y in AllEntries(nodes, p) && Ord(nodes, y) == o)
    ensures forall y :: y in AllEntries(RemoveByOrder(nodes, p, o).nodes, p)
                    <==> y in AllEntries(nodes, p) && Ord(nodes, y) != o
    ensures ItemKept(nodes, RemoveByOrder(nodes, p, o).nodes, p)
  {
    var L := Entries(nodes, p, Lists);
    var i := FirstMatch(nodes, L, OrderIs(o)).value;
    RemoveFirstMatchFound(nodes, p, Lists, OrderIs(o), i);
    var r := RemoveByOrder(nodes, p, o).nodes;
    assert r == RemoveFirstMatch(nodes, p, Lists, OrderIs(o)).nodes;
    assert Get(r, p, Children) == Get(nodes, p, Children) && Get(r, p, Variables) == Get(nodes, p, Variables);
    EntriesInRange(nodes, p);
    assert L[i] in AllEntries(nodes, p) && Ord(nodes, L[i]) == o;
    UniqueAt(nodes, p, L[i], o);
    forall y
      ensures y in AllEntries(r, p) <==> y in AllEntries(nodes, p) && Ord(nodes, y) != o
    {
      assert y in AllEntries(r, p) <==> y in Entries(nodes, p, Children) || y in Entries(nodes, p, Variables) || y in Entries(r, p, Lists);
      assert y in Entries(r, p, Lists) <==> y in L && y != L[i];
      if y in AllEntries(nodes, p) {
        assert Ord(nodes, y) == o <==> y == L[i];
      }
      EntryKind(nodes, p, Lists, L[i]);
      if y in Entries(nodes, p, Children) {
        EntryKind(nodes, p, Children, y);
      }
      if y in Entries(nodes, p, Variables) {
        EntryKind(nodes, p, Variables, y);
      }
    }
  }

  lemma ByOrderInVariables(nodes: seq<Node>, p: Id, o: int)
    requires OrderedItem(nodes, p)
    requires FirstMatch(nodes, Entries(nodes, p, Lists), OrderIs(o)).None?
    requires FirstMatch(nodes, Entries(nodes, p, Variables), OrderIs(o)).Some?
    ensures RemoveByOrder(nodes, p, o).out == Ok(exists y :: y in AllEntries(nodes, p) && Ord(nodes, y) == o)
    ensures forall y :: y in AllEntries(RemoveByOrder(nodes, p, o).nodes, p)
                    <==> y in AllEntries(nodes, p) && Ord(nodes, y) != o
    ensures ItemKept(nodes, RemoveByOrder(nodes, p, o).nodes, p)
  {
    var V := Entries(nodes, p, Variables);
    var i := FirstMatch(nodes, V, OrderIs(o)).value;
    ByOrderIsVariables(nodes, p, o);
    RemoveEveryMatchSpec(nodes, p, Variables, OrderIs(o));
    var r := RemoveByOrder(nodes, p, o).nodes;
    EntriesInRange(nodes, p);
    assert V[i] in AllEntries(nodes, p) && Ord(nodes, V[i]) == o;
    UniqueAt(nodes, p, V[i], o);
    assert Get(r, p, Children) == Get(nodes, p, Children) && Get(r, p, Lists) == Get(nodes, p, Lists);
    forall y
      ensures y in AllEntries(r, p) <==> y in AllEntries(nodes, p) && Ord(nodes, y) != o
    {
      assert y in AllEntries(r, p) <==> y in Entries(nodes, p, Children) || y in Entries(r, p, Variables) || y in Entries(nodes, p, Lists);
      if y in V {
        assert Matches(nodes, y, OrderIs(o)) <==> Ord(nodes, y) == o;
      }
      EntryKind(nodes, p, Variables, V[i]);
      if y in Entries(nodes, p, Children) {
        EntryKind(nodes, p, Children, y);
      }
      if y in Entries(nodes, p, Lists) {
        EntryKind(nodes, p, Lists, y);
      }
    }
  }

  lemma ByOrderIsVariables(nodes: seq<Node>, p: Id, o: int)
    requires OrderedItem(nodes, p)
    requires FirstMatch(nodes, Entries(nodes, p, Lists), OrderIs(o)).None?
    requires FirstMatch(nodes, Entries(nodes, p, Variables), OrderIs(o)).Some?
    ensures RemoveByOrder(nodes, p, o) == RemoveEveryMatch(nodes, p, Variables, OrderIs(o))
    ensures RemoveByOrder(nodes, p, o).out == Ok(true)
  {
    var V := Entries(nodes, p, Variables);
    var i := FirstMatch(nodes, V, OrderIs(o)).value;
    KeepMembers(nodes, V, OrderIs(o));
    assert Keep(nodes, V, OrderIs(o)) != V;
    assert NodeWF(nodes, p) && CollWF(nodes, p, Variables);
  }

  lemma ByOrderInChildren(nodes: seq<Node>, p: Id, o: int)
    requires OrderedItem(nodes, p)
    requires FirstMatch(nodes, Entries(nodes, p, Lists), OrderIs(o)).None?
    requires FirstMatch(nodes, Entries(nodes, p, Variables), OrderIs(o)).None?
    ensures RemoveByOrder(nodes, p, o).out == Ok(exists y :: y in AllEntries(nodes, p) && Ord(nodes, y) == o)
    ensures forall y :: y in AllEntries(RemoveByOrder(nodes, p, o).nodes, p)
                    <==> y in AllEntries(nodes, p) && Ord(nodes, y) != o
    ensures ItemKept(nodes, RemoveByOrder(nodes, p, o).nodes, p)
  {
    var C := Entries(nodes, p, Children);
    var m := FirstMatch(nodes, C, OrderIs(o));
    if m.Some? {
      ByOrderChildFound(nodes, p, o, m.value);
    } else {
      ByOrderNowhere(nodes, p, o);
    }
  }

  lemma ByOrderIsChildren(nodes: seq<Node>, p: Id, o: int)
    requires OrderedItem(nodes, p)
    requires FirstMatch(nodes, Entries(nodes, p, Lists), OrderIs(o)).None?
    requires FirstMatch(nodes, Entries(nodes, p, Variables), OrderIs(o)).None?
    ensures RemoveByOrder(nodes, p, o) == RemoveFirstMatch(nodes, p, Children, OrderIs(o))
    ensures forall y :: y in Entries(nodes, p, Lists) || y in Entries(nodes, p, Variables) ==> Ord(nodes, y) != o
  {
    var L, V := Entries(nodes, p, Lists), Entries(nodes, p, Variables);
    EntriesInRange(nodes, p);
    MatchOrderIff(nodes, L, o);
    MatchOrderIff(nodes, V, o);
    KeepMembers(nodes, V, OrderIs(o));
  }

  lemma ByOrderChildFound(nodes: seq<Node>, p: Id, o: int, i: nat)
    requires OrderedItem(nodes, p)
    requires FirstMatch(nodes, Entries(nodes, p, Lists), OrderIs(o)).None?
    requires FirstMatch(nodes, Entries(nodes, p, Variables), OrderIs(o)).None?
    requires FirstMatch(nodes, Entries(nodes, p, Children), OrderIs(o)) == Some(i)
    ensures RemoveByOrder(nodes, p, o).out == Ok(exists y :: y in AllEntries(nodes, p) && Ord(nodes, y) == o)
    ensures forall y :: y in AllEntries(RemoveByOrder(nodes, p, o).nodes, p)
                    <==> y in AllEntries(nodes, p) && Ord(nodes, y) != o
    ensures ItemKept(nodes, RemoveByOrder(nodes, p, o).nodes, p)
  {
    EntriesInRange(nodes, p);
    var C := Entries(nodes, p, Children);
    MatchOrderIff(nodes, C, o);
    ByOrderIsChildren(nodes, p, o);
    RemoveFirstMatchFound(nodes, p, Children, OrderIs(o), i);
    UniqueAt(nodes, p, C[i], o);
  }

  lemma ByOrderNowhere(nodes: seq<Node>, p: Id, o: int)
    requires OrderedItem(nodes, p)
    requires FirstMatch(nodes, Entries(nodes, p, Lists), OrderIs(o)).None?
    requires FirstMatch(nodes, Entries(nodes, p, Variables), OrderIs(o)).None?
    requires FirstMatch(nodes, Entries(nodes, p, Children), OrderIs(o)).None?
    ensures RemoveByOrder(nodes, p, o).out == Ok(exists y :: y in AllEntries(nodes, p) && Ord(nodes, y) == o)
    ensures forall y :: y in AllEntries(RemoveByOrder(nodes, p, o).nodes, p)
                    <==> y in AllEntries(nodes, p) && Ord(nodes, y) != o
    ensures ItemKept(nodes, RemoveByOrder(nodes, p, o).nodes, p)
  {
    EntriesInRange(nodes, p);
    MatchOrderIff(nodes, Entries(nodes, p, Children), o);
    ByOrderIsChildren(nodes, p, o);
    RemoveFirstMatchSpec(nodes, p, Children, OrderIs(o));
  }

  /** The loop of removeVariablesIf fails on the smallest case: an item whose
    * one variable has order 0 loses it, then removeByOrder(0) raises
    * ConcurrentModificationException, where the intended removal reports
    * success and leaves no variable. */
  lemma RemoveByOrderAsWrittenThrows(nodes: seq<Node>)
    requires nodes == [ItemNode(DEFAULT_NAME, 0, None, false, false, Unallocated, Coll(true, [1], map["a" := [1]]), Unallocated),
                       VariableNode("a", 0, "1")]
    ensures RemoveByOrderAsWritten(nodes, 0, 0).out == Thrown(ConcurrentModification)
    ensures RemoveByOrder(nodes, 0, 0).out == Ok(true)
    ensures Entries(RemoveByOrder(nodes, 0, 0).nodes, 0, Variables) == []
  {
    var V := Entries(nodes, 0, Variables);
    assert FirstMatch(nodes, V, OrderIs(0)) == Some(0);
    assert RemoveFirst(V, 1) == [];
    assert Keep(nodes, V, OrderIs(0)) == [];
  }

  // ---------------------------------------------------------------------
  // removeVariableByValue

  /** removeVariableByValue(value), as intended: every variable holding
    * exactly that value goes.  (The Java loop fails instead; see
    * RemoveVariableByValueAsWritten.) */
  function RemoveVariableByValue(nodes: seq<Node>, p: Id, v: string): (e: Effect<bool>)
    requires IsItem(nodes, p)
    ensures IsItem(e.nodes, p) && |e.nodes| == |nodes|
  {
    RemoveEveryMatch(nodes, p, Variables, ValueIs(v))
  }

  /** removeVariableByValue(value) as written: it goes through the for-each
    * loop of removeVariablesIf, which fails after its first removal unless
    * that removal was at the last-but-one position. */
  function RemoveVariableByValueAsWritten(nodes: seq<Node>, p: Id, v: string): (e: Effect<bool>)
    requires IsItem(nodes, p)
    ensures IsItem(e.nodes, p) && |e.nodes| == |nodes|
  {
    RemoveEveryMatchAsWritten(nodes, p, Variables, ValueIs(v))
  }

  /** The smallest failing call: one variable a=1, then
    * removeVariableByValue("1") removes it and raises
    * ConcurrentModificationException, where the intended call reports
    * success and leaves no variable. */
  lemma RemoveVariableByValueAsWrittenThrows(nodes: seq<Node>)
    requires nodes == [ItemNode(DEFAULT_NAME, 0, None, false, false, Unallocated, Coll(true, [1], map["a" := [1]]), Unallocated),
                       VariableNode("a", 0, "1")]
    ensures RemoveVariableByValueAsWritten(nodes, 0, "1").out == Thrown(ConcurrentModification)
    ensures Entries(RemoveVariableByValueAsWritten(nodes, 0, "1").nodes, 0, Variables) == []
    ensures RemoveVariableByValue(nodes, 0, "1").out == Ok(true)
    ensures Entries(RemoveVariableByValue(nodes, 0, "1").nodes, 0, Variables) == []
  {
    var V := Entries(nodes, 0, Variables);
    assert FirstMatch(nodes, V, ValueIs("1")) == Some(0);
    assert RemoveFirst(V, 1) == [];
    assert Keep(nodes, V, ValueIs("1")) == [];
  }

  /** Afterwards no variable of the item holds v and every other one stays. */
  lemma RemoveVariableByValueSpec(nodes: seq<Node>, p: Id, v: string)
    requires WF(nodes) && IsItem(nodes, p) && Indexed(nodes, p, Variables)
    ensures var r := RemoveVariableByValue(nodes, p, v).nodes;
      forall y :: y in Entries(r, p, Variables) <==> y in Entries(nodes, p, Variables) && !Matches(nodes, y, ValueIs(v))
    ensures RemoveVariableByValue(nodes, p, v).out
         == Ok(exists y :: y in Entries(nodes, p, Variables) && Matches(nodes, y, ValueIs(v)))
    ensures KeepsOthers(nodes, RemoveVariableByValue(nodes, p, v).nodes, p, Variables)
  {
    var V := Entries(nodes, p, Variables);
    RemoveEveryMatchSpec(nodes, p, Variables, ValueIs(v));
    if exists y :: y in V && Matches(nodes, y, ValueIs(v)) {
      var y :| y in V && Matches(nodes, y, ValueIs(v));
      var j :| 0 <= j < |V| && V[j] == y;
    }
  }

  // ---------------------------------------------------------------------
  // removeVariable(int) and removeVariable(name, value) as written

  /** List.remove(Object) on a bucket of variables: the first element equal
    * to x under ClausewitzVariable.equals goes, not necessarily x itself. */
  function RemoveFirstEqual(nodes: seq<Node>, s: seq<Id>, x: Id): (r: seq<Id>)
    ensures |r| == |s| || |r| == |s| - 1
  {
    if s == [] then []
    else if VariableEquals(nodes, x, s[0]) then s[1..]
    else [s[0]] + RemoveFirstEqual(nodes, s[1..], x)
  }

  /** removeVariable(int) as written: the variable at that position leaves
    * the list, and the first variable of its bucket equal to it leaves the
    * bucket. */
  function RemoveVariableAtAsWritten(nodes: seq<Node>, p: Id, i: int): Effect<bool>
    requires IsItem(nodes, p)
  {
    var c := Get(nodes, p, Variables);
    if !c.created then Effect(nodes, Ok(false))
    else if i < 0 || i >= |c.entries| then Effect(nodes, Thrown(IndexOutOfBounds))
    else
      var x := c.entries[i];
      var entries := c.entries[..i] + c.entries[i + 1..];
      var nm := NameOf(nodes, x);
      if nm !in c.index then Effect(SetColl(nodes, p, Variables, c.(entries := entries)), Thrown(NullPointer))
      else
        var b := RemoveFirstEqual(nodes, c.index[nm], x);
        var index := if b == [] then c.index - {nm} else c.index[nm := b];
        Effect(SetColl(nodes, p, Variables, Coll(true, entries, index)), Ok(true))
  }

  /** An item holding two variables named a, a=v1 then a=v2. */
  function TwoVariables(v1: string, v2: string): seq<Node>
  {
    [ItemNode(DEFAULT_NAME, 0, None, false, false, Unallocated, Coll(true, [1, 2], map["a" := [1, 2]]), Unallocated),
     VariableNode("a", 0, v1), VariableNode("a", 1, v2)]
  }

  lemma TwoVariablesIndexed(v1: string, v2: string)
    ensures WF(TwoVariables(v1, v2)) && IsItem(TwoVariables(v1, v2), 0)
    ensures Indexed(TwoVariables(v1, v2), 0, Variables)
  {
    TwoVariablesWF(v1, v2);
    var nodes := TwoVariables(v1, v2);
    forall nm
      ensures Named(nodes, [1, 2], nm) == if nm == "a" then [1, 2] else []
    {
      assert [1, 2][..1] == [1];
      NamedSingle(nodes, 1, nm);
    }
  }

  lemma TwoVariablesWF(v1: string, v2: string)
    ensures WF(TwoVariables(v1, v2))
  {
    var nodes := TwoVariables(v1, v2);
    forall i | 0 <= i < |nodes|
      ensures NodeWF(nodes, i)
    {
      if i == 0 {
        assert IdsOk(nodes, 0, Variables, [1, 2]);
        assert CollWF(nodes, 0, Variables);
      } else {
        LeafWF(nodes, i);
      }
    }
  }

  /** Two equal variables a=1: removing the second by position takes the
    * first out of the bucket, so the index no longer matches the list,
    * while the identity-based removal keeps it exact. */
  lemma RemoveVariableAtAsWrittenBreaksIndex()
    ensures Indexed(TwoVariables("1", "1"), 0, Variables)
    ensures !Indexed(RemoveVariableAtAsWritten(TwoVariables("1", "1"), 0, 1).nodes, 0, Variables)
    ensures Indexed(RemoveAt(TwoVariables("1", "1"), 0, Variables, 1).nodes, 0, Variables)
    ensures Entries(RemoveAt(TwoVariables("1", "1"), 0, Variables, 1).nodes, 0, Variables) == [1]
  {
    TwoVariablesIndexed("1", "1");
    AsWrittenLosesIndex();
    RemoveAtKeepsIndex();
  }

  lemma RemoveAtKeepsIndex()
    ensures Indexed(RemoveAt(TwoVariables("1", "1"), 0, Variables, 1).nodes, 0, Variables)
    ensures Entries(RemoveAt(TwoVariables("1", "1"), 0, Variables, 1).nodes, 0, Variables) == [1]
  {
    var nodes := TwoVariables("1", "1");
    TwoVariablesIndexed("1", "1");
    var s := Entries(nodes, 0, Variables);
    assert s == [1, 2];
    RemoveAtIndexed(nodes, 0, Variables, 1);
    assert s[..1] + s[2..] == [1];
  }

  /** Removing by position keeps an exact index and takes out just that entry. */
  lemma RemoveAtIndexed(nodes: seq<Node>, p: Id, k: Kind, i: int)
    requires WF(nodes) && IsItem(nodes, p) && Indexed(nodes, p, k)
    requires 0 <= i < |Entries(nodes, p, k)|
    ensures Indexed(RemoveAt(nodes, p, k, i).nodes, p, k)
    ensures Entries(RemoveAt(nodes, p, k, i).nodes, p, k) == Entries(nodes, p, k)[..i] + Entries(nodes, p, k)[i + 1..]
  {
    RemoveAtSpec(nodes, p, k, i);
    RemoveObjectSpec(nodes, p, k, Entries(nodes, p, k)[i]);
  }

  lemma AsWrittenLosesIndex()
    ensures !Indexed(RemoveVariableAtAsWritten(TwoVariables("1", "1"), 0, 1).nodes, 0, Variables)
  {
    var nodes := TwoVariables("1", "1");
    var r := RemoveVariableAtAsWritten(nodes, 0, 1).nodes;
    assert VariableEquals(nodes, 2, 1);
    assert RemoveFirstEqual(nodes, [1, 2], 2) == [2];
    var c := Get(r, 0, Variables);
    assert c == Coll(true, [1], map["a" := [2]]);
    NamedSingle(r, 1, "a");
    assert c.index["a"] != Named(r, c.entries, "a");
  }

  /** removeVariable(varName, value) as written: the value is not consulted;
    * the first variable of the name goes (an emptied bucket would raise
    * NoSuchElementException). */
  function RemoveVariableWithValueAsWritten(nodes: seq<Node>, p: Id, nm: string, v: string): Effect<bool>
    requires IsItem(nodes, p)
  {
    var c := Get(nodes, p, Variables);
    if !c.created || nm !in c.index then Effect(nodes, Ok(false))
    else if c.index[nm] == [] then Effect(nodes, Thrown(NoSuchElement))
    else RemoveObject(nodes, p, Variables, c.index[nm][0])
  }

  /** removeVariable(varName, value) as its name and getVar(name, value)
    * suggest: the first variable of that name holding that value goes. */
  function RemoveVariableWithValue(nodes: seq<Node>, p: Id, nm: string, v: string): Effect<bool>
    requires IsItem(nodes, p)
  {
    var c := Get(nodes, p, Variables);
    if !c.created || nm !in c.index then Effect(nodes, Ok(false))
    else match FirstMatch(nodes, c.index[nm], ValueIs(v))
      case None => Effect(nodes, Ok(false))
      case Some(j) => RemoveObject(nodes, p, Variables, c.index[nm][j])
  }

  /** The corrected removeVariable(varName, value): it succeeds exactly when
    * a variable of that name holds that value, and then it is the removal of
    * such a variable. */
  lemma RemoveVariableWithValueSpec(nodes: seq<Node>, p: Id, nm: string, v: string)
    requires WF(nodes) && IsItem(nodes, p) && Indexed(nodes, p, Variables)
    ensures RemoveVariableWithValue(nodes, p, nm, v).out
         == Ok(exists y :: y in Entries(nodes, p, Variables) && NameOf(nodes, y) == nm && Matches(nodes, y, ValueIs(v)))
    ensures RemoveVariableWithValue(nodes, p, nm, v).out == Ok(true) ==>
      exists x :: x in Entries(nodes, p, Variables) && NameOf(nodes, x) == nm && Matches(nodes, x, ValueIs(v))
                  && RemoveVariableWithValue(nodes, p, nm, v) == RemoveObject(nodes, p, Variables, x)
    ensures RemoveVariableWithValue(nodes, p, nm, v).out != Ok(true) ==> RemoveVariableWithValue(nodes, p, nm, v).nodes == nodes
  {
    var c := Get(nodes, p, Variables);
    var b := Named(nodes, c.entries, nm);
    assert NodeWF(nodes, p) && CollWF(nodes, p, Variables);
    BucketSplitsByName(nodes, c.entries, nm, b);
    forall y | y in b
      ensures y in c.entries
    {
      NamedMembers(nodes, c.entries, nm, y);
    }
    if nm in c.index {
      var m := FirstMatch(nodes, b, ValueIs(v));
      if m.Some? {
        RemoveObjectPresent(nodes, p, Variables, b[m.value]);
      } else {
        forall y | y in c.entries && NameOf(nodes, y) == nm
          ensures !Matches(nodes, y, ValueIs(v))
        {
          var j :| 0 <= j < |b| && b[j] == y;
        }
      }
    } else {
      NamedNonEmpty(nodes, c.entries, nm);
    }
  }

  /** Variables a=1 then a=2: removeVariable("a", "2") as written takes a=1
    * away; the corrected one takes a=2. */
  lemma RemoveVariableWithValueIgnoresValue()
    ensures Entries(RemoveVariableWithValueAsWritten(TwoVariables("1", "2"), 0, "a", "2").nodes, 0, Variables) == [2]
    ensures Entries(RemoveVariableWithValue(TwoVariables("1", "2"), 0, "a", "2").nodes, 0, Variables) == [1]
  {
    var nodes := TwoVariables("1", "2");
    assert FirstMatch(nodes, [2], ValueIs("2")) == Some(0);
    assert FirstMatch(nodes, [1, 2], ValueIs("2")) == Some(1);
    assert RemoveFirst([1, 2], 1) == [2];
    assert RemoveFirst([1, 2], 2) == [1];
  }
}
