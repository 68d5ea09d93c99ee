/**
 * The object graph of a parsed Clausewitz document, held as an arena.
 *
 * Every ClausewitzItem, ClausewitzVariable and ClausewitzList is one Node of a
 * sequence; a Java reference is the node's index (an Id).  An Item keeps three
 * collections (child Items, Variables, Lists), each an insertion-ordered list of
 * ids paired with a name -> bucket index, both allocated lazily.
 */
module Tree {
  import opened Wrappers

  type Id = nat

  /** The three collections of an Item. */
  datatype Kind = Children | Variables | Lists

  /** One collection of an Item: `created` is false until the Java list and its
    * map are first allocated; `entries` is the list, `index` the name buckets. */
  datatype Coll = Coll(created: bool, entries: seq<Id>, index: map<string, seq<Id>>)

  const Unallocated: Coll := Coll(false, [], map[])

  /** The name of the implicit root item. */
  const DEFAULT_NAME: string := "clausewitzparser"

  datatype Node =
    | ItemNode(name: string, order: int, parent: Option<Id>, hasEquals: bool, sameLine: bool,
               children: Coll, variables: Coll, lists: Coll)
    | VariableNode(name: string, order: int, value: string)
    | ListNode(name: string, order: int, parent: Option<Id>, valuesCreated: bool, values: seq<string>,
               sameLine: bool, hasBrackets: bool)

  /** The collection of an Item a node is registered in. */
  function KindOf(n: Node): Kind
  {
    match n
    case ItemNode(_, _, _, _, _, _, _, _) => Children
    case VariableNode(_, _, _) => Variables
    case ListNode(_, _, _, _, _, _, _) => Lists
  }

  /** Variables are plain ClausewitzObjects and have no parent. */
  function Parent(n: Node): Option<Id>
  {
    if n.VariableNode? then None else n.parent
  }

  function CollOf(n: Node, k: Kind): Coll
  {
    if !n.ItemNode? then Unallocated
    else match k
      case Children => n.children
      case Variables => n.variables
      case Lists => n.lists
  }

  function WithColl(n: Node, k: Kind, c: Coll): (r: Node)
    requires n.ItemNode?
    ensures r.ItemNode? && CollOf(r, k) == c
    ensures forall k' :: k' != k ==> CollOf(r, k') == CollOf(n, k')
    ensures r.name == n.name && r.order == n.order && r.parent == n.parent
    ensures r.hasEquals == n.hasEquals && r.sameLine == n.sameLine
  {
    match k
    case Children => n.(children := c)
    case Variables => n.(variables := c)
    case Lists => n.(lists := c)
  }

  // Total accessors: an id out of range reads as an empty, unallocated node.

  function Get(nodes: seq<Node>, p: Id, k: Kind): Coll
  {
    if p < |nodes| then CollOf(nodes[p], k) else Unallocated
  }

  function Entries(nodes: seq<Node>, p: Id, k: Kind): seq<Id>
  {
    Get(nodes, p, k).entries
  }

  function Ord(nodes: seq<Node>, i: Id): int
  {
    if i < |nodes| then nodes[i].order else 0
  }

  function NameOf(nodes: seq<Node>, i: Id): string
  {
    if i < |nodes| then nodes[i].name else ""
  }

  predicate IsItem(nodes: seq<Node>, p: Id)
  {
    p < |nodes| && nodes[p].ItemNode?
  }

  // ---------------------------------------------------------------------
  // Well-formedness of the arena

  predicate Distinct(s: seq<Id>)
  {
    forall a, b :: 0 <= a < b < |s| ==> s[a] != s[b]
  }

  /** Ids of a collection of item p: created after p, in range, of the right kind. */
  predicate IdsOk(nodes: seq<Node>, p: Id, k: Kind, s: seq<Id>)
  {
    forall j :: 0 <= j < |s| ==> p < s[j] < |nodes| && KindOf(nodes[s[j]]) == k
  }

  predicate CollWF(nodes: seq<Node>, p: Id, k: Kind)
  {
    var c := Get(nodes, p, k);
    (!c.created ==> c.entries == [] && c.index == map[])
    && IdsOk(nodes, p, k, c.entries)
    && Distinct(c.entries)
    && (forall nm :: nm in c.index ==> IdsOk(nodes, p, k, c.index[nm]))
  }

  predicate ParentWF(nodes: seq<Node>, i: Id)
    requires i < |nodes|
  {
    Parent(nodes[i]).Some? ==> Parent(nodes[i]).value < i && nodes[Parent(nodes[i]).value].ItemNode?
  }

  predicate NodeWF(nodes: seq<Node>, i: Id)
    requires i < |nodes|
  {
    CollWF(nodes, i, Children) && CollWF(nodes, i, Variables) && CollWF(nodes, i, Lists)
    && ParentWF(nodes, i)
  }

  /** Every node's collections point forward to nodes of the right kind and
    * every parent is an earlier Item: the graph is a forest. */
  predicate WF(nodes: seq<Node>)
  {
    forall i :: 0 <= i < |nodes| ==> NodeWF(nodes, i)
  }

  /** A node without collections is well formed when its parent is. */
  lemma LeafWF(nodes: seq<Node>, i: Id)
    requires i < |nodes| && ParentWF(nodes, i)
    requires CollOf(nodes[i], Children) == Unallocated && CollOf(nodes[i], Variables) == Unallocated
    requires CollOf(nodes[i], Lists) == Unallocated
    ensures NodeWF(nodes, i)
  {
  }

  /** What WF depends on: the kind, the parent and the three collections. */
  function Shape(n: Node): (Kind, Option<Id>, Coll, Coll, Coll)
  {
    (KindOf(n), Parent(n), CollOf(n, Children), CollOf(n, Variables), CollOf(n, Lists))
  }

  predicate SameShapes(a: seq<Node>, b: seq<Node>)
  {
    |a| == |b| && forall i :: 0 <= i < |a| ==> Shape(a[i]) == Shape(b[i])
  }

  lemma IdsOkFrame(a: seq<Node>, b: seq<Node>, p: Id, k: Kind, s: seq<Id>)
    requires SameShapes(a, b) && IdsOk(a, p, k, s)
    ensures IdsOk(b, p, k, s)
  {
    forall j | 0 <= j < |s|
      ensures p < s[j] < |b| && KindOf(b[s[j]]) == k
    {
      assert Shape(a[s[j]]) == Shape(b[s[j]]);
    }
  }

  lemma CollWFFrame(a: seq<Node>, b: seq<Node>, p: Id, k: Kind)
    requires SameShapes(a, b) && CollWF(a, p, k)
    ensures CollWF(b, p, k)
  {
    if p < |a| {
      assert Shape(a[p]) == Shape(b[p]);
      assert Get(a, p, k) == Get(b, p, k);
    }
    var c := Get(b, p, k);
    IdsOkFrame(a, b, p, k, c.entries);
    forall nm | nm in c.index
      ensures IdsOk(b, p, k, c.index[nm])
    {
      IdsOkFrame(a, b, p, k, c.index[nm]);
    }
  }

  /** Changing names, orders, values or flags keeps the arena well formed. */
  lemma WFFrame(a: seq<Node>, b: seq<Node>)
    requires WF(a) && SameShapes(a, b)
    ensures WF(b)
  {
    forall i | 0 <= i < |b|
      ensures NodeWF(b, i)
    {
      assert NodeWF(a, i);
      CollWFFrame(a, b, i, Children);
      CollWFFrame(a, b, i, Variables);
      CollWFFrame(a, b, i, Lists);
      assert Shape(a[i]) == Shape(b[i]);
      if Parent(b[i]).Some? {
        assert Shape(a[Parent(b[i]).value]) == Shape(b[Parent(b[i]).value]);
      }
    }
  }

  // ---------------------------------------------------------------------
  // Stable sort on order (List.sort with Comparator.comparingInt(getOrder))

  predicate SortedByOrder(nodes: seq<Node>, s: seq<Id>)
  {
    forall a, b :: 0 <= a < b < |s| ==> Ord(nodes, s[a]) <= Ord(nodes, s[b])
  }

  predicate AllAtMost(nodes: seq<Node>, s: seq<Id>, v: int)
  {
    forall j :: 0 <= j < |s| ==> Ord(nodes, s[j]) <= v
  }

  /** Inserts x into a sorted sequence after every element of order <= x's. */
  function InsertByOrder(nodes: seq<Node>, s: seq<Id>, x: Id): (r: seq<Id>)
    ensures |r| == |s| + 1
  {
    if s == [] then [x]
    else if Ord(nodes, s[|s| - 1]) <= Ord(nodes, x) then s + [x]
    else InsertByOrder(nodes, s[..|s| - 1], x) + [s[|s| - 1]]
  }

  /** The stable insertion sort of s by order. */
  function SortByOrder(nodes: seq<Node>, s: seq<Id>): (r: seq<Id>)
    ensures |r| == |s|
  {
    if s == [] then []
    else InsertByOrder(nodes, SortByOrder(nodes, s[..|s| - 1]), s[|s| - 1])
  }

  lemma {:induction false} InsertByOrderMultiset(nodes: seq<Node>, s: seq<Id>, x: Id)
    ensures multiset(InsertByOrder(nodes, s, x)) == multiset(s) + multiset{x}
    decreases |s|
  {
    if s != [] && Ord(nodes, s[|s| - 1]) > Ord(nodes, x) {
      assert s == s[..|s| - 1] + [s[|s| - 1]];
      InsertByOrderMultiset(nodes, s[..|s| - 1], x);
    }
  }

  lemma {:induction false} InsertByOrderBounded(nodes: seq<Node>, s: seq<Id>, x: Id, v: int)
    requires AllAtMost(nodes, s, v) && Ord(nodes, x) <= v
    ensures AllAtMost(nodes, InsertByOrder(nodes, s, x), v)
    decreases |s|
  {
    if s != [] && Ord(nodes, s[|s| - 1]) > Ord(nodes, x) {
      InsertByOrderBounded(nodes, s[..|s| - 1], x, v);
    }
  }

  lemma {:induction false} InsertByOrderSorted(nodes: seq<Node>, s: seq<Id>, x: Id)
    requires SortedByOrder(nodes, s)
    ensures SortedByOrder(nodes, InsertByOrder(nodes, s, x))
    decreases |s|
  {
    if s != [] && Ord(nodes, s[|s| - 1]) > Ord(nodes, x) {
      var front := s[..|s| - 1];
      var last := s[|s| - 1];
      InsertByOrderSorted(nodes, front, x);
      assert AllAtMost(nodes, front, Ord(nodes, last));
      InsertByOrderBounded(nodes, front, x, Ord(nodes, last));
      var r' := InsertByOrder(nodes, front, x);
      assert InsertByOrder(nodes, s, x) == r' + [last];
    }
  }

  lemma {:induction false} InsertByOrderDistinct(nodes: seq<Node>, s: seq<Id>, x: Id)
    requires Distinct(s) && x !in s
    ensures Distinct(InsertByOrder(nodes, s, x))
    decreases |s|
  {
    if s != [] && Ord(nodes, s[|s| - 1]) > Ord(nodes, x) {
      var front := s[..|s| - 1];
      var last := s[|s| - 1];
      assert s == front + [last];
      InsertByOrderDistinct(nodes, front, x);
      InsertByOrderMultiset(nodes, front, x);
      var r' := InsertByOrder(nodes, front, x);
      assert last !in multiset(r');
      assert InsertByOrder(nodes, s, x) == r' + [last];
    }
  }

  /** Sorting yields a permutation that is ordered by order and repeats no id
    * the input did not repeat. */
  lemma SortByOrderSpec(nodes: seq<Node>, s: seq<Id>)
    ensures multiset(SortByOrder(nodes, s)) == multiset(s)
    ensures SortedByOrder(nodes, SortByOrder(nodes, s))
    ensures Distinct(s) ==> Distinct(SortByOrder(nodes, s))
  {
    SortByOrderPermutes(nodes, s);
    SortByOrderSorted(nodes, s);
    if Distinct(s) {
      SortByOrderDistinct(nodes, s);
    }
  }

  lemma {:induction false} SortByOrderPermutes(nodes: seq<Node>, s: seq<Id>)
    ensures multiset(SortByOrder(nodes, s)) == multiset(s)
    decreases |s|
  {
    if s != [] {
      var front := s[..|s| - 1];
      assert s == front + [s[|s| - 1]];
      SortByOrderPermutes(nodes, front);
      InsertByOrderMultiset(nodes, SortByOrder(nodes, front), s[|s| - 1]);
    }
  }

  lemma {:induction false} SortByOrderSorted(nodes: seq<Node>, s: seq<Id>)
    ensures SortedByOrder(nodes, SortByOrder(nodes, s))
    decreases |s|
  {
    if s != [] {
      var front := s[..|s| - 1];
      SortByOrderSorted(nodes, front);
      InsertByOrderSorted(nodes, SortByOrder(nodes, front), s[|s| - 1]);
    }
  }

  lemma {:induction false} SortByOrderDistinct(nodes: seq<Node>, s: seq<Id>)
    requires Distinct(s)
    ensures Distinct(SortByOrder(nodes, s))
    decreases |s|
  {
    if s != [] {
      var front := s[..|s| - 1];
      var last := s[|s| - 1];
      assert s == front + [last];
      assert Distinct(front);
      SortByOrderDistinct(nodes, front);
      SortByOrderPermutes(nodes, front);
      assert last !in multiset(front);
      InsertByOrderDistinct(nodes, SortByOrder(nodes, front), last);
    }
  }

  // ---------------------------------------------------------------------
  // Name buckets

  /** The subsequence of s whose nodes carry the name nm. */
  function Named(nodes: seq<Node>, s: seq<Id>, nm: string): (r: seq<Id>)
  {
    if s == [] then []
    else Named(nodes, s[..|s| - 1], nm) + (if NameOf(nodes, s[|s| - 1]) == nm then [s[|s| - 1]] else [])
  }

  /** The subsequence of s whose names are in the set. */
  function NamedIn(nodes: seq<Node>, s: seq<Id>, names: set<string>): (r: seq<Id>)
  {
    if s == [] then []
    else NamedIn(nodes, s[..|s| - 1], names) + (if NameOf(nodes, s[|s| - 1]) in names then [s[|s| - 1]] else [])
  }

  /** The index of a collection holds, under each name present in the
    * collection, exactly the entries of that name in insertion order, and
    * nothing else. */
  ghost predicate Indexed(nodes: seq<Node>, p: Id, k: Kind)
  {
    var c := Get(nodes, p, k);
    forall nm ::
      (nm in c.index ==> c.index[nm] == Named(nodes, c.entries, nm) && c.index[nm] != [])
      && (nm !in c.index ==> Named(nodes, c.entries, nm) == [])
  }

  lemma {:induction false} NamedConcat(nodes: seq<Node>, a: seq<Id>, b: seq<Id>, nm: string)
    ensures Named(nodes, a + b, nm) == Named(nodes, a, nm) + Named(nodes, b, nm)
    decreases |b|
  {
    if b == [] {
      assert a + b == a;
    } else {
      var b' := b[..|b| - 1];
      assert (a + b)[..|a + b| - 1] == a + b';
      NamedConcat(nodes, a, b', nm);
    }
  }

  lemma {:induction false} NamedMembers(nodes: seq<Node>, s: seq<Id>, nm: string, x: Id)
    ensures x in Named(nodes, s, nm) <==> x in s && NameOf(nodes, x) == nm
    decreases |s|
  {
    if s != [] {
      assert s == s[..|s| - 1] + [s[|s| - 1]];
      NamedMembers(nodes, s[..|s| - 1], nm, x);
    }
  }

  lemma {:induction false} NamedInAdd(nodes: seq<Node>, s: seq<Id>, names: set<string>, nm: string)
    requires nm !in names
    ensures multiset(NamedIn(nodes, s, names + {nm}))
         == multiset(NamedIn(nodes, s, names)) + multiset(Named(nodes, s, nm))
    decreases |s|
  {
    if s != [] {
      NamedInAdd(nodes, s[..|s| - 1], names, nm);
    }
  }

  lemma {:induction false} NamedInSame(nodes: seq<Node>, s: seq<Id>, a: set<string>, b: set<string>)
    requires forall j :: 0 <= j < |s| ==> (NameOf(nodes, s[j]) in a <==> NameOf(nodes, s[j]) in b)
    ensures NamedIn(nodes, s, a) == NamedIn(nodes, s, b)
    decreases |s|
  {
    if s != [] {
      NamedInSame(nodes, s[..|s| - 1], a, b);
    }
  }

  // ---------------------------------------------------------------------
  // Iterating a HashMap: the order of its keys is not specified, so it is an
  // input, any sequence that enumerates the keys once each.

  ghost predicate Enumerates(keys: seq<string>, m: map<string, seq<Id>>)
  {
    (forall key :: key in m <==> key in keys)
    && (forall a, b :: 0 <= a < b < |keys| ==> keys[a] != keys[b])
  }

  /** The buckets of the kept keys, concatenated in key order. */
  function Gather(m: map<string, seq<Id>>, keys: seq<string>, keep: set<string>): seq<Id>
  {
    if keys == [] then []
    else
      var key := keys[|keys| - 1];
      Gather(m, keys[..|keys| - 1], keep) + (if key in keep && key in m then m[key] else [])
  }

  lemma {:induction false} GatherPrefix(nodes: seq<Node>, s: seq<Id>, m: map<string, seq<Id>>,
                                        keys: seq<string>, keep: set<string>)
    requires forall a, b :: 0 <= a < b < |keys| ==> keys[a] != keys[b]
    requires forall key :: key in keys ==> key in m && m[key] == Named(nodes, s, key)
    ensures multiset(Gather(m, keys, keep))
         == multiset(NamedIn(nodes, s, set key | key in keys && key in keep))
    decreases |keys|
  {
    var S := set key | key in keys && key in keep;
    if keys == [] {
      assert S == {};
      NamedInSame(nodes, s, S, {});
      EmptyNamedIn(nodes, s);
    } else {
      var front := keys[..|keys| - 1];
      var key := keys[|keys| - 1];
      assert keys == front + [key];
      GatherPrefix(nodes, s, m, front, keep);
      var S' := set k | k in front && k in keep;
      assert key !in front;
      if key in keep {
        assert S == S' + {key};
        NamedInAdd(nodes, s, S', key);
      } else {
        assert S == S';
      }
    }
  }

  lemma {:induction false} EmptyNamedIn(nodes: seq<Node>, s: seq<Id>)
    ensures NamedIn(nodes, s, {}) == []
    decreases |s|
  {
    if s != [] {
      EmptyNamedIn(nodes, s[..|s| - 1]);
    }
  }

  /** Collecting the buckets of an index whose keys pass a filter yields, as
    * a multiset, exactly the entries whose names pass it. */
  lemma GatherOfIndexed(nodes: seq<Node>, p: Id, k: Kind, keys: seq<string>, keep: set<string>)
    requires Indexed(nodes, p, k) && Enumerates(keys, Get(nodes, p, k).index)
    ensures multiset(Gather(Get(nodes, p, k).index, keys, keep))
         == multiset(NamedIn(nodes, Entries(nodes, p, k), keep))
  {
    var c := Get(nodes, p, k);
    GatherPrefix(nodes, c.entries, c.index, keys, keep);
    var S := set key | key in keys && key in keep;
    forall j | 0 <= j < |c.entries|
      ensures NameOf(nodes, c.entries[j]) in S <==> NameOf(nodes, c.entries[j]) in keep
    {
      var nm := NameOf(nodes, c.entries[j]);
      NamedMembers(nodes, c.entries, nm, c.entries[j]);
      assert nm in c.index;
    }
    NamedInSame(nodes, c.entries, S, keep);
  }
}
