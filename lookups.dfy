/**
 * The read-only lookups of ClausewitzItem: by position, through the name
 * index (first, last, n-th, all, presence), by name and value, the
 * "every bucket but these" collections and getAllOrdered(name).
 */
module Lookups {
  import opened Wrappers
  import opened Chars
  import opened Tree
  import opened Items

  // ---------------------------------------------------------------------
  // By position

  /** getChild(int) / getVar(int) / getList(int): null for a negative index,
    * a collection never allocated or an index past its end. */
  function At(nodes: seq<Node>, p: Id, k: Kind, i: int): (r: Option<Id>)
    ensures r.Some? ==> 0 <= i < NbOf(nodes, p, k) && r.value == Entries(nodes, p, k)[i]
  {
    var c := Get(nodes, p, k);
    if i < 0 || !c.created || i >= |c.entries| then None else Some(c.entries[i])
  }

  /** After addX(object, _) the new object is found at position getNbX() of
    * before, and every earlier position still finds what it found. */
  lemma AtOfAdd(nodes: seq<Node>, p: Id, k: Kind, x: Id, increase: bool)
    requires WF(nodes) && IsItem(nodes, p) && p < x < |nodes|
    ensures At(Add(nodes, p, k, x, increase), p, k, NbOf(nodes, p, k)) == Some(x)
    ensures forall i :: 0 <= i < NbOf(nodes, p, k) ==> At(Add(nodes, p, k, x, increase), p, k, i) == At(nodes, p, k, i)
    ensures NbOf(Add(nodes, p, k, x, increase), p, k) == NbOf(nodes, p, k) + 1
  {
    var placed := Place(nodes, p, x, increase);
    PlaceFrame(nodes, p, x, increase);
    RegisterFrame(placed, p, k, x);
    var s := Entries(nodes, p, k);
    assert forall i :: 0 <= i < |s| ==> (s + [x])[i] == s[i];
    assert NodeWF(nodes, p) && CollWF(nodes, p, k);
  }

  // ---------------------------------------------------------------------
  // Through the name index

  /** The bucket of a name, when the index exists and holds the name. */
  function Bucket(nodes: seq<Node>, p: Id, k: Kind, nm: string): Option<seq<Id>>
  {
    var c := Get(nodes, p, k);
    if c.created && nm in c.index then Some(c.index[nm]) else None
  }

  /** hasChild / hasVar / hasList: the name is a key of the index. */
  predicate Has(nodes: seq<Node>, p: Id, k: Kind, nm: string)
  {
    Bucket(nodes, p, k, nm).Some?
  }

  /** getChild(name) / getVar(name) / getList(name): the first object of the
    * bucket, null without one; List.getFirst on an empty bucket throws. */
  function FirstNamed(nodes: seq<Node>, p: Id, k: Kind, nm: string): Outcome<Option<Id>>
  {
    match Bucket(nodes, p, k, nm)
    case None => Ok(None)
    case Some(b) => if b == [] then Thrown(NoSuchElement) else Ok(Some(b[0]))
  }

  /** getLastChild / getLastVar / getLastList: the last object of the bucket. */
  function LastNamed(nodes: seq<Node>, p: Id, k: Kind, nm: string): Outcome<Option<Id>>
  {
    match Bucket(nodes, p, k, nm)
    case None => Ok(None)
    case Some(b) => if b == [] then Thrown(NoSuchElement) else Ok(Some(b[|b| - 1]))
  }

  /** getChildren(name) / getVars(name) / getVariables(name) / getLists(name):
    * a copy of the bucket, empty without one. */
  function AllNamed(nodes: seq<Node>, p: Id, k: Kind, nm: string): seq<Id>
  {
    match Bucket(nodes, p, k, nm)
    case None => []
    case Some(b) => b
  }

  /** Position i of s holds the first element named nm. */
  predicate FirstNamedAt(nodes: seq<Node>, s: seq<Id>, nm: string, i: int)
  {
    0 <= i < |s| && NameOf(nodes, s[i]) == nm && forall j :: 0 <= j < i ==> NameOf(nodes, s[j]) != nm
  }

  /** Position i of s holds the last element named nm. */
  predicate LastNamedAt(nodes: seq<Node>, s: seq<Id>, nm: string, i: int)
  {
    0 <= i < |s| && NameOf(nodes, s[i]) == nm && forall j :: i < j < |s| ==> NameOf(nodes, s[j]) != nm
  }

  /** The head of a bucket is the first entry of that name in list order. */
  lemma {:induction false} NamedHead(nodes: seq<Node>, s: seq<Id>, nm: string)
    requires Named(nodes, s, nm) != []
    ensures exists i :: FirstNamedAt(nodes, s, nm, i) && s[i] == Named(nodes, s, nm)[0]
    decreases |s|
  {
    var front := s[..|s| - 1];
    var y := s[|s| - 1];
    assert s == front + [y];
    if Named(nodes, front, nm) != [] {
      NamedHead(nodes, front, nm);
      var i :| FirstNamedAt(nodes, front, nm, i) && front[i] == Named(nodes, front, nm)[0];
      assert FirstNamedAt(nodes, s, nm, i);
    } else {
      forall j | 0 <= j < |front|
        ensures NameOf(nodes, s[j]) != nm
      {
        NamedMembers(nodes, front, nm, front[j]);
      }
      assert FirstNamedAt(nodes, s, nm, |s| - 1);
    }
  }

  /** The tail of a bucket is the last entry of that name in list order. */
  lemma {:induction false} NamedTail(nodes: seq<Node>, s: seq<Id>, nm: string)
    requires Named(nodes, s, nm) != []
    ensures exists i :: LastNamedAt(nodes, s, nm, i) && s[i] == Named(nodes, s, nm)[|Named(nodes, s, nm)| - 1]
    decreases |s|
  {
    var front := s[..|s| - 1];
    var y := s[|s| - 1];
    assert s == front + [y];
    if NameOf(nodes, y) == nm {
      assert LastNamedAt(nodes, s, nm, |s| - 1);
    } else {
      assert Named(nodes, s, nm) == Named(nodes, front, nm);
      NamedTail(nodes, front, nm);
      var i :| LastNamedAt(nodes, front, nm, i) && front[i] == Named(nodes, front, nm)[|Named(nodes, front, nm)| - 1];
      assert LastNamedAt(nodes, s, nm, i);
    }
  }

  /** With an exact index the lookups by name see the list itself: has* is
    * "some entry has the name", get*(name) is the first such entry, getLast*
    * the last one, and neither throws; the collection of the name is the
    * entries of that name in list order. */
  lemma NameLookupsSpec(nodes: seq<Node>, p: Id, k: Kind, nm: string)
    requires WF(nodes) && p < |nodes| && Indexed(nodes, p, k)
    ensures Has(nodes, p, k, nm) <==> exists y :: y in Entries(nodes, p, k) && NameOf(nodes, y) == nm
    ensures AllNamed(nodes, p, k, nm) == Named(nodes, Entries(nodes, p, k), nm)
    ensures FirstNamed(nodes, p, k, nm).Ok? && LastNamed(nodes, p, k, nm).Ok?
    ensures FirstNamed(nodes, p, k, nm).value.None? <==> !Has(nodes, p, k, nm)
    ensures LastNamed(nodes, p, k, nm).value.None? <==> !Has(nodes, p, k, nm)
    ensures FirstNamed(nodes, p, k, nm).value.Some? ==>
      exists i :: FirstNamedAt(nodes, Entries(nodes, p, k), nm, i) && Entries(nodes, p, k)[i] == FirstNamed(nodes, p, k, nm).value.value
    ensures LastNamed(nodes, p, k, nm).value.Some? ==>
      exists i :: LastNamedAt(nodes, Entries(nodes, p, k), nm, i) && Entries(nodes, p, k)[i] == LastNamed(nodes, p, k, nm).value.value
  {
    var b := Named(nodes, Entries(nodes, p, k), nm);
    BucketSpec(nodes, p, k, nm);
    if b != [] {
      NamedHead(nodes, Entries(nodes, p, k), nm);
      NamedTail(nodes, Entries(nodes, p, k), nm);
    }
  }

  /** With an exact index, the bucket of a name is the entries of that name. */
  lemma BucketSpec(nodes: seq<Node>, p: Id, k: Kind, nm: string)
    requires WF(nodes) && p < |nodes| && Indexed(nodes, p, k)
    ensures Bucket(nodes, p, k, nm).Some? <==> Named(nodes, Entries(nodes, p, k), nm) != []
    ensures Bucket(nodes, p, k, nm).Some? ==> Bucket(nodes, p, k, nm).value == Named(nodes, Entries(nodes, p, k), nm)
    ensures Bucket(nodes, p, k, nm).Some? <==> exists y :: y in Entries(nodes, p, k) && NameOf(nodes, y) == nm
  {
    var c := Get(nodes, p, k);
    assert NodeWF(nodes, p) && CollWF(nodes, p, k);
    NamedNonEmptyIff(nodes, c.entries, nm);
  }

  lemma NamedNonEmptyIff(nodes: seq<Node>, s: seq<Id>, nm: string)
    ensures Named(nodes, s, nm) != [] <==> exists y :: y in s && NameOf(nodes, y) == nm
  {
    var b := Named(nodes, s, nm);
    if exists y :: y in s && NameOf(nodes, y) == nm {
      var y :| y in s && NameOf(nodes, y) == nm;
      NamedMembers(nodes, s, nm, y);
    }
    if b != [] {
      NamedMembers(nodes, s, nm, b[0]);
    }
  }

  // ---------------------------------------------------------------------
  // getChild(name, index) / getVar(name, index)

  /** getChild(name, index) / getVar(name, index) as written: the guard
    * `size < index` lets index == size through to List.get, which throws. */
  function NamedAtAsWritten(nodes: seq<Node>, p: Id, k: Kind, nm: string, i: int): Outcome<Option<Id>>
  {
    match Bucket(nodes, p, k, nm)
    case None => Ok(None)
    case Some(b) =>
      if |b| < i then Ok(None)
      else if i < 0 || i >= |b| then Thrown(IndexOutOfBounds)
      else Ok(Some(b[i]))
  }

  /** getChild(name, index) / getVar(name, index) with the guard `size <= index`. */
  function NamedAt(nodes: seq<Node>, p: Id, k: Kind, nm: string, i: int): Outcome<Option<Id>>
  {
    match Bucket(nodes, p, k, nm)
    case None => Ok(None)
    case Some(b) =>
      if |b| <= i then Ok(None)
      else if i < 0 then Thrown(IndexOutOfBounds)
      else Ok(Some(b[i]))
  }

  /** The corrected lookup never throws for a non-negative index: it is the
    * i-th entry of that name in list order, or null when there are at most
    * i of them. */
  lemma NamedAtSpec(nodes: seq<Node>, p: Id, k: Kind, nm: string, i: nat)
    requires WF(nodes) && p < |nodes| && Indexed(nodes, p, k)
    ensures var b := Named(nodes, Entries(nodes, p, k), nm);
      NamedAt(nodes, p, k, nm, i) == if i < |b| then Ok(Some(b[i])) else Ok(None)
  {
    NameLookupsSpec(nodes, p, k, nm);
    var b := Named(nodes, Entries(nodes, p, k), nm);
    if b != [] {
      NamedMembers(nodes, Entries(nodes, p, k), nm, b[0]);
    }
  }

  /** One child named a: getChild("a", 1) as written throws
    * IndexOutOfBoundsException, the corrected lookup returns null. */
  lemma NamedAtAsWrittenThrows(nodes: seq<Node>)
    requires |nodes| == 2
    requires nodes[0] == ItemNode(DEFAULT_NAME, 0, None, false, false, Coll(true, [1], map["a" := [1]]), Unallocated, Unallocated)
    ensures NamedAtAsWritten(nodes, 0, Children, "a", 1) == Thrown(IndexOutOfBounds)
    ensures NamedAt(nodes, 0, Children, "a", 1) == Ok(None)
  {
  }

  // ---------------------------------------------------------------------
  // getVar(name, value) / hasVar(name, value)

  /** getVar(varName, value): the first variable of the bucket whose value
    * equals value, null without one. */
  function VarWithValue(nodes: seq<Node>, p: Id, nm: string, v: string): Option<Id>
  {
    match Bucket(nodes, p, Variables, nm)
    case None => None
    case Some(b) =>
      match FirstMatch(nodes, b, ValueIs(v))
      case None => None
      case Some(j) => Some(b[j])
  }

  /** hasVar(varName, value) */
  predicate HasVarWithValue(nodes: seq<Node>, p: Id, nm: string, v: string)
  {
    VarWithValue(nodes, p, nm, v).Some?
  }

  /** Position i of s holds the first element named nm that f matches. */
  predicate FirstNamedMatchAt(nodes: seq<Node>, s: seq<Id>, nm: string, f: Criterion, i: int)
  {
    0 <= i < |s| && NameOf(nodes, s[i]) == nm && Matches(nodes, s[i], f)
    && forall j :: 0 <= j < i ==> !(NameOf(nodes, s[j]) == nm && Matches(nodes, s[j], f))
  }

  lemma {:induction false} FirstMatchAppend(nodes: seq<Node>, a: seq<Id>, y: Id, f: Criterion)
    ensures FirstMatch(nodes, a + [y], f)
         == if FirstMatch(nodes, a, f).Some? then FirstMatch(nodes, a, f)
            else if Matches(nodes, y, f) then Some(|a|) else None
    decreases |a|
  {
    if a != [] {
      assert (a + [y])[1..] == a[1..] + [y];
      FirstMatchAppend(nodes, a[1..], y, f);
    }
  }

  /** Searching the bucket of a name is searching the list for the first
    * element of that name. */
  lemma {:induction false} NamedFirstMatch(nodes: seq<Node>, s: seq<Id>, nm: string, f: Criterion)
    ensures FirstMatch(nodes, Named(nodes, s, nm), f).None? <==>
      forall i :: 0 <= i < |s| ==> !(NameOf(nodes, s[i]) == nm && Matches(nodes, s[i], f))
    ensures FirstMatch(nodes, Named(nodes, s, nm), f).Some? ==>
      exists i :: FirstNamedMatchAt(nodes, s, nm, f, i)
                  && s[i] == Named(nodes, s, nm)[FirstMatch(nodes, Named(nodes, s, nm), f).value]
    decreases |s|
  {
    if s != [] {
      var front := s[..|s| - 1];
      var y := s[|s| - 1];
      assert s == front + [y];
      var b := Named(nodes, front, nm);
      NamedFirstMatch(nodes, front, nm, f);
      if NameOf(nodes, y) == nm {
        FirstMatchAppend(nodes, b, y, f);
        assert Named(nodes, s, nm) == b + [y];
      } else {
        assert Named(nodes, s, nm) == b;
      }
      var m := FirstMatch(nodes, b, f);
      if m.Some? {
        var i :| FirstNamedMatchAt(nodes, front, nm, f, i) && front[i] == b[m.value];
        assert FirstNamedMatchAt(nodes, s, nm, f, i);
      } else if NameOf(nodes, y) == nm && Matches(nodes, y, f) {
        assert FirstNamedMatchAt(nodes, s, nm, f, |s| - 1);
      }
    }
  }

  /** getVar(name, value) finds exactly the first variable, in list order,
    * that has both the name and the value; hasVar(name, value) is whether
    * there is one. */
  lemma VarWithValueSpec(nodes: seq<Node>, p: Id, nm: string, v: string)
    requires WF(nodes) && p < |nodes| && Indexed(nodes, p, Variables)
    ensures HasVarWithValue(nodes, p, nm, v) <==>
      exists i :: 0 <= i < |Entries(nodes, p, Variables)|
                  && NameOf(nodes, Entries(nodes, p, Variables)[i]) == nm && Matches(nodes, Entries(nodes, p, Variables)[i], ValueIs(v))
    ensures VarWithValue(nodes, p, nm, v).Some? ==>
      exists i :: FirstNamedMatchAt(nodes, Entries(nodes, p, Variables), nm, ValueIs(v), i)
                  && Entries(nodes, p, Variables)[i] == VarWithValue(nodes, p, nm, v).value
  {
    var c := Get(nodes, p, Variables);
    NameLookupsSpec(nodes, p, Variables, nm);
    NamedFirstMatch(nodes, c.entries, nm, ValueIs(v));
    if !Has(nodes, p, Variables, nm) {
      forall i | 0 <= i < |c.entries|
        ensures NameOf(nodes, c.entries[i]) != nm
      {
        assert c.entries[i] in c.entries;
      }
    }
  }

  // ---------------------------------------------------------------------
  // Collections built by walking the whole index

  lemma {:induction false} NamedInMembers(nodes: seq<Node>, s: seq<Id>, names: set<string>, y: Id)
    ensures y in NamedIn(nodes, s, names) <==> y in s && NameOf(nodes, y) in names
    decreases |s|
  {
    if s != [] {
      assert s == s[..|s| - 1] + [s[|s| - 1]];
      NamedInMembers(nodes, s[..|s| - 1], names, y);
    }
  }

  /** The buckets of the keys a filter keeps, in the map's iteration order
    * keys, or nothing when the index was never allocated. */
  function BucketsWhere(nodes: seq<Node>, p: Id, k: Kind, keys: seq<string>, keep: set<string>): seq<Id>
  {
    var c := Get(nodes, p, k);
    if !c.created then [] else Gather(c.index, keys, keep)
  }

  /** Whatever order the map is walked in, collecting the kept buckets of an
    * exact index yields each entry whose name is kept, once, and no other. */
  lemma BucketsWhereSpec(nodes: seq<Node>, p: Id, k: Kind, keys: seq<string>, keep: set<string>)
    requires WF(nodes) && p < |nodes| && Indexed(nodes, p, k) && Enumerates(keys, Get(nodes, p, k).index)
    ensures multiset(BucketsWhere(nodes, p, k, keys, keep)) == multiset(NamedIn(nodes, Entries(nodes, p, k), keep))
    ensures forall y :: y in BucketsWhere(nodes, p, k, keys, keep) <==> y in Entries(nodes, p, k) && NameOf(nodes, y) in keep
  {
    var c := Get(nodes, p, k);
    assert NodeWF(nodes, p) && CollWF(nodes, p, k);
    GatherOfIndexed(nodes, p, k, keys, keep);
    var r := BucketsWhere(nodes, p, k, keys, keep);
    if !c.created {
      EmptyNamedIn(nodes, []);
      assert c.entries == [];
    }
    forall y
      ensures y in r <==> y in c.entries && NameOf(nodes, y) in keep
    {
      NamedInMembers(nodes, c.entries, keep, y);
      assert y in r <==> y in multiset(r);
    }
  }

  /** getChildrenNot(name) / getChildrenNot(names...) / getListsNot(name):
    * the buckets of every name but the excluded ones. */
  function BucketsNot(nodes: seq<Node>, p: Id, k: Kind, keys: seq<string>, excluded: set<string>): seq<Id>
  {
    BucketsWhere(nodes, p, k, keys, set key | key in keys && key !in excluded)
  }

  /** getChildrenNot / getListsNot hold exactly the entries whose name is
    * not excluded. */
  lemma BucketsNotSpec(nodes: seq<Node>, p: Id, k: Kind, keys: seq<string>, excluded: set<string>)
    requires WF(nodes) && p < |nodes| && Indexed(nodes, p, k) && Enumerates(keys, Get(nodes, p, k).index)
    ensures forall y :: y in BucketsNot(nodes, p, k, keys, excluded) <==>
      y in Entries(nodes, p, k) && NameOf(nodes, y) !in excluded
    ensures |BucketsNot(nodes, p, k, keys, excluded)| <= NbOf(nodes, p, k)
  {
    var keep := set key | key in keys && key !in excluded;
    BucketsWhereSpec(nodes, p, k, keys, keep);
    KeptNamesAreKeys(nodes, p, k, keys);
    NamedInShorter(nodes, Entries(nodes, p, k), keep);
  }

  /** Every name in an exact index's collection is one of the map's keys. */
  lemma KeptNamesAreKeys(nodes: seq<Node>, p: Id, k: Kind, keys: seq<string>)
    requires Indexed(nodes, p, k) && Enumerates(keys, Get(nodes, p, k).index)
    ensures forall y :: y in Entries(nodes, p, k) ==> NameOf(nodes, y) in keys
  {
    var c := Get(nodes, p, k);
    forall y | y in c.entries
      ensures NameOf(nodes, y) in keys
    {
      NamedMembers(nodes, c.entries, NameOf(nodes, y), y);
    }
  }

  lemma {:induction false} NamedInShorter(nodes: seq<Node>, s: seq<Id>, names: set<string>)
    ensures |NamedIn(nodes, s, names)| <= |s|
    decreases |s|
  {
    if s != [] {
      NamedInShorter(nodes, s[..|s| - 1], names);
    }
  }

  /** The names getVarsNot(varNames...) keeps: those whose lower-case form is
    * not the lower-case form of an excluded name. */
  function NotLowered(keys: seq<string>, names: seq<string>): set<string>
  {
    set key | key in keys && ToLowerCase(key) !in (set n | n in names :: ToLowerCase(n))
  }

  /** getVarsNot(varNames...) */
  function VarsNot(nodes: seq<Node>, p: Id, keys: seq<string>, names: seq<string>): seq<Id>
  {
    BucketsWhere(nodes, p, Variables, keys, NotLowered(keys, names))
  }

  /** getVarsNot compares names ignoring their case, unlike getChildrenNot. */
  lemma VarsNotSpec(nodes: seq<Node>, p: Id, keys: seq<string>, names: seq<string>)
    requires WF(nodes) && p < |nodes| && Indexed(nodes, p, Variables) && Enumerates(keys, Get(nodes, p, Variables).index)
    ensures forall y :: y in VarsNot(nodes, p, keys, names) <==>
      y in Entries(nodes, p, Variables) && forall n :: n in names ==> ToLowerCase(NameOf(nodes, y)) != ToLowerCase(n)
  {
    BucketsWhereSpec(nodes, p, Variables, keys, NotLowered(keys, names));
    KeptNamesAreKeys(nodes, p, Variables, keys);
  }

  /** getChildrenStartWith as written: the filter `!key.startsWith(start)`
    * keeps the children whose names do NOT start with the prefix. */
  function StartWithAsWritten(nodes: seq<Node>, p: Id, keys: seq<string>, start: string): seq<Id>
  {
    BucketsWhere(nodes, p, Children, keys, set key | key in keys && !(start <= key))
  }

  /** getChildrenStartWith as its name promises. */
  function StartWith(nodes: seq<Node>, p: Id, keys: seq<string>, start: string): seq<Id>
  {
    BucketsWhere(nodes, p, Children, keys, set key | key in keys && start <= key)
  }

  /** The corrected collection holds exactly the children whose name has the
    * prefix; the one as written exactly the others. */
  lemma StartWithSpec(nodes: seq<Node>, p: Id, keys: seq<string>, start: string)
    requires WF(nodes) && p < |nodes| && Indexed(nodes, p, Children) && Enumerates(keys, Get(nodes, p, Children).index)
    ensures forall y :: y in StartWith(nodes, p, keys, start) <==>
      y in Entries(nodes, p, Children) && start <= NameOf(nodes, y)
    ensures forall y :: y in StartWithAsWritten(nodes, p, keys, start) <==>
      y in Entries(nodes, p, Children) && !(start <= NameOf(nodes, y))
  {
    BucketsWhereSpec(nodes, p, Children, keys, set key | key in keys && start <= key);
    BucketsWhereSpec(nodes, p, Children, keys, set key | key in keys && !(start <= key));
    KeptNamesAreKeys(nodes, p, Children, keys);
  }

  /** One child named "abc": getChildrenStartWith("ab") as written returns
    * nothing, the corrected lookup returns that child. */
  lemma StartWithAsWrittenMisses(nodes: seq<Node>)
    requires |nodes| == 2 && nodes[1].ItemNode? && nodes[1].name == "abc"
    requires nodes[0] == ItemNode(DEFAULT_NAME, 0, None, false, false, Coll(true, [1], map["abc" := [1]]), Unallocated, Unallocated)
    ensures StartWithAsWritten(nodes, 0, ["abc"], "ab") == []
    ensures StartWith(nodes, 0, ["abc"], "ab") == [1]
  {
    var keepNot := set key | key in ["abc"] && !("ab" <= key);
    var keep := set key | key in ["abc"] && "ab" <= key;
    assert "ab" <= "abc";
    assert keepNot == {};
    assert keep == {"abc"};
    var keys := ["abc"];
    var m := Get(nodes, 0, Children).index;
    assert keys[..|keys| - 1] == [] && keys[|keys| - 1] == "abc";
    assert Gather(m, keys, keepNot) == Gather(m, [], keepNot) + [];
    assert Gather(m, keys, keep) == Gather(m, [], keep) + [1];
  }

  // ---------------------------------------------------------------------
  // getAllOrdered(name)

  /** getAllOrdered(name): the children, variables and lists of that name,
    * stably sorted by order. */
  function AllOrderedNamed(nodes: seq<Node>, p: Id, nm: string): seq<Id>
  {
    SortByOrder(nodes, AllNamed(nodes, p, Children, nm) + AllNamed(nodes, p, Variables, nm) + AllNamed(nodes, p, Lists, nm))
  }

  /** getAllOrdered(name) holds each entry of that name, of any kind, exactly
    * once, sorted by order. */
  lemma AllOrderedNamedSpec(nodes: seq<Node>, p: Id, nm: string)
    requires WF(nodes) && p < |nodes|
    requires Indexed(nodes, p, Children) && Indexed(nodes, p, Variables) && Indexed(nodes, p, Lists)
    ensures forall y :: y in AllOrderedNamed(nodes, p, nm) <==> y in AllEntries(nodes, p) && NameOf(nodes, y) == nm
    ensures SortedByOrder(nodes, AllOrderedNamed(nodes, p, nm))
    ensures Distinct(AllOrderedNamed(nodes, p, nm))
  {
    var c := Named(nodes, Entries(nodes, p, Children), nm);
    var v := Named(nodes, Entries(nodes, p, Variables), nm);
    var l := Named(nodes, Entries(nodes, p, Lists), nm);
    NameLookupsSpec(nodes, p, Children, nm);
    NameLookupsSpec(nodes, p, Variables, nm);
    NameLookupsSpec(nodes, p, Lists, nm);
    var s := c + v + l;
    AllEntriesDistinct(nodes, p);
    NamedConcat(nodes, Entries(nodes, p, Children), Entries(nodes, p, Variables), nm);
    NamedConcat(nodes, Entries(nodes, p, Children) + Entries(nodes, p, Variables), Entries(nodes, p, Lists), nm);
    assert s == Named(nodes, AllEntries(nodes, p), nm);
    NamedDistinctSub(nodes, AllEntries(nodes, p), nm);
    SortByOrderSpec(nodes, s);
    forall y
      ensures y in AllOrderedNamed(nodes, p, nm) <==> y in AllEntries(nodes, p) && NameOf(nodes, y) == nm
    {
      NamedMembers(nodes, AllEntries(nodes, p), nm, y);
      assert y in AllOrderedNamed(nodes, p, nm) <==> y in multiset(AllOrderedNamed(nodes, p, nm));
    }
  }

  lemma {:induction false} NamedDistinctSub(nodes: seq<Node>, s: seq<Id>, nm: string)
    requires Distinct(s)
    ensures Distinct(Named(nodes, s, nm))
    decreases |s|
  {
    if s != [] {
      var front := s[..|s| - 1];
      var y := s[|s| - 1];
      NamedDistinctSub(nodes, front, nm);
      NamedMembers(nodes, front, nm, y);
      assert y !in front;
    }
  }
}
