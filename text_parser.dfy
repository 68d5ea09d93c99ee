/**
 * The text parser of ClausewitzParser: readObject, the character-driven
 * recursive descent that builds the object tree from a CharArray, its entry
 * parse(reader, skip) and readSingleObject, which first looks for the line
 * where one of the requested objects starts.
 *
 * Each step of readObject is a function on the arena (what a quoted string,
 * a bare token, '{' and '}' do to the objects and to the pending state),
 * ReadBlock strings the steps together over the whole input, and the
 * methods ReadObject, Parse and ReadSingleObject run the loop on a
 * Document and a CharArray and are proved to compute ReadBlock.
 */
module TextParsing {
  import opened Wrappers
  import opened Chars
  import opened Tree
  import opened Items
  import opened Variables
  import opened Cursor
  import Lookups
  import Removal
  import Construction
  import ValueLists
  import Documents

  // ---------------------------------------------------------------------
  // What the parser keeps true of the arena

  /** Well formed, and every child index exact: getLastChild(name) then
    * answers from the children themselves. */
  ghost predicate Parsable(nodes: seq<Node>)
  {
    WF(nodes) && forall q: Id :: Indexed(nodes, q, Children)
  }

  /** b extends a: no object disappears, changes class or changes parent. */
  predicate Grows(a: seq<Node>, b: seq<Node>)
  {
    |a| <= |b| && forall i :: 0 <= i < |a| ==> KindOf(b[i]) == KindOf(a[i]) && Parent(b[i]) == Parent(a[i])
  }

  lemma GrowsTrans(a: seq<Node>, b: seq<Node>, c: seq<Node>)
    requires Grows(a, b) && Grows(b, c)
    ensures Grows(a, c)
  {
  }

  lemma RegisterKinds(nodes: seq<Node>, p: Id, k: Kind, x: Id)
    requires IsItem(nodes, p)
    ensures SameKinds(nodes, Register(nodes, p, k, x))
  {
    RegisterFrame(nodes, p, k, x);
  }

  lemma AddKinds(nodes: seq<Node>, p: Id, k: Kind, x: Id, increase: bool)
    requires IsItem(nodes, p) && p < x < |nodes|
    ensures SameKinds(nodes, Add(nodes, p, k, x, increase))
  {
    var placed := Place(nodes, p, x, increase);
    PlaceFrame(nodes, p, x, increase);
    forall i | 0 <= i < |nodes|
      ensures KindOf(placed[i]) == KindOf(nodes[i]) && Parent(placed[i]) == Parent(nodes[i])
    {
      assert Shape(placed[i]) == Shape(nodes[i]);
    }
    RegisterKinds(placed, p, k, x);
  }

  lemma ConstructKinds(nodes: seq<Node>, n: Node, increase: bool)
    requires Parent(n).Some? ==> IsItem(nodes, Parent(n).value)
    ensures Grows(nodes, Construction.Construct(nodes, n, increase))
  {
    var grown := nodes + [n];
    if Parent(n).Some? && !n.VariableNode? {
      AddKinds(grown, Parent(n).value, KindOf(n), |nodes|, increase);
    }
  }

  lemma RemoveFirstMatchKinds(nodes: seq<Node>, p: Id, k: Kind, f: Criterion)
    requires IsItem(nodes, p)
    ensures SameKinds(nodes, Removal.RemoveFirstMatch(nodes, p, k, f).nodes)
  {
    var c := Get(nodes, p, k);
    if c.created {
      match FirstMatch(nodes, c.entries, f)
      case None =>
      case Some(i) =>
        var x := c.entries[i];
        var entries := Removal.RemoveFirst(c.entries, x);
        var nm := NameOf(nodes, x);
        if nm !in c.index {
          Removal.SetCollFrame(nodes, p, k, c.(entries := entries));
        } else {
          Removal.SetCollFrame(nodes, p, k, Coll(true, entries, Removal.Unindex(c.index, nm, x)));
        }
    }
  }

  lemma WithValuesKinds(nodes: seq<Node>, l: Id, v: ValueLists.Values)
    requires l < |nodes| && nodes[l].ListNode?
    ensures SameKinds(nodes, Construction.WithValues(nodes, l, v))
  {
  }

  /** setSameLine on an Item keeps the invariant. */
  lemma SameLineKeeps(nodes: seq<Node>, i: Id, sameLine: bool)
    requires Parsable(nodes) && IsItem(nodes, i)
    ensures var r := nodes[i := Documents.WithSameLine(nodes[i], sameLine)];
      Parsable(r) && Grows(nodes, r)
  {
    var n := Documents.WithSameLine(nodes[i], sameLine);
    Construction.EditKeeps(nodes, i, n);
    var r := nodes[i := n];
    forall q: Id
      ensures Indexed(r, q, Children)
    {
      assert Indexed(nodes, q, Children);
    }
    forall j | 0 <= j < |nodes|
      ensures KindOf(r[j]) == KindOf(nodes[j]) && Parent(r[j]) == Parent(nodes[j])
    {
      assert Shape(r[j]) == Shape(nodes[j]);
    }
  }

  /** On a well-formed arena, what getLastChild(name) finds is an Item. */
  lemma FoundChild(nodes: seq<Node>, g: Id, name: string)
    requires WF(nodes) && IsItem(nodes, g)
    requires Lookups.LastNamed(nodes, g, Children, name).Ok? && Lookups.LastNamed(nodes, g, Children, name).value.Some?
    ensures IsItem(nodes, Lookups.LastNamed(nodes, g, Children, name).value.value)
  {
    assert NodeWF(nodes, g) && CollWF(nodes, g, Children);
    var b := Lookups.Bucket(nodes, g, Children, name).value;
    assert IdsOk(nodes, g, Children, b);
  }

  // ---------------------------------------------------------------------
  // The arena operations readObject calls keep the parser's invariant

  lemma NewItemKeeps(nodes: seq<Node>, p: Id, name: string, order: int, hasEquals: bool)
    requires Parsable(nodes) && IsItem(nodes, p)
    ensures var r := Construction.NewItem(nodes, Some(p), name, order, hasEquals, false);
      Parsable(r) && Grows(nodes, r) && IsItem(r, |nodes|)
    ensures Chain(nodes, p) ==> Chain(Construction.NewItem(nodes, Some(p), name, order, hasEquals, false), |nodes|)
  {
    NewItemGrows(nodes, p, name, order, hasEquals);
    if Chain(nodes, p) {
      NewItemOnTop(nodes, p, name, order, hasEquals);
    }
  }

  lemma NewItemGrows(nodes: seq<Node>, p: Id, name: string, order: int, hasEquals: bool)
    requires Parsable(nodes) && IsItem(nodes, p)
    ensures var r := Construction.NewItem(nodes, Some(p), name, order, hasEquals, false);
      Parsable(r) && Grows(nodes, r) && IsItem(r, |nodes|)
  {
    var n := ItemNode(name, order, Some(p), hasEquals, false, Unallocated, Unallocated, Unallocated);
    Construction.ConstructSpec(nodes, n, false);
    ConstructKinds(nodes, n, false);
  }

  /** A block opened in an open block is itself an open block. */
  lemma NewItemOnTop(nodes: seq<Node>, p: Id, name: string, order: int, hasEquals: bool)
    requires Parsable(nodes) && IsItem(nodes, p) && Chain(nodes, p)
    ensures Chain(Construction.NewItem(nodes, Some(p), name, order, hasEquals, false), |nodes|)
  {
    var n := ItemNode(name, order, Some(p), hasEquals, false, Unallocated, Unallocated, Unallocated);
    Construction.ConstructSpec(nodes, n, false);
    NewItemGrows(nodes, p, name, order, hasEquals);
    var r := Construction.NewItem(nodes, Some(p), name, order, hasEquals, false);
    var x := |nodes|;
    DenseAppend(nodes, r, p, Children);
    ChainStep(nodes, r, p);
    assert AllEntries(r, x) == [];
    assert OnTop(r, x);
  }

  lemma AddVariableKeeps(nodes: seq<Node>, p: Id, name: string, v: string)
    requires Parsable(nodes) && IsItem(nodes, p)
    ensures var r := Construction.AddVariable(nodes, p, name, Text(v));
      Parsable(r) && Grows(nodes, r)
    ensures Chain(nodes, p) ==> Chain(Construction.AddVariable(nodes, p, name, Text(v)), p)
  {
    Construction.AddVariableAtSpec(nodes, p, name, Text(v), NbObjects(nodes, p), false);
    AddKinds(nodes + [VariableNode(name, NbObjects(nodes, p), v)], p, Variables, |nodes|, false);
    if Chain(nodes, p) {
      ChainStep(nodes, Construction.AddVariable(nodes, p, name, Text(v)), p);
    }
  }

  lemma AddListKeeps(nodes: seq<Node>, p: Id, name: string, order: int, sameLine: bool, hasBrackets: bool,
                     values: seq<string>)
    requires Parsable(nodes) && IsItem(nodes, p)
    ensures var r := Construction.AddList(nodes, p, name, order, sameLine, hasBrackets, false, values);
      Parsable(r) && Grows(nodes, r) && r[|nodes|].parent == Some(p)
      && Touches(nodes, r, p) && (Dense(nodes, p) ==> Dense(r, p))
  {
    Construction.AddListSpec(nodes, p, name, order, sameLine, hasBrackets, false, values);
    var n := Construction.ListNodeOf(Some(p), name, order, sameLine, hasBrackets);
    ConstructKinds(nodes, n, false);
    var r := Construction.NewList(nodes, Some(p), name, order, sameLine, hasBrackets, false);
    WithValuesKinds(r, |nodes|, ValueLists.AddAll(Construction.ValuesOf(r, |nodes|), values));
    if Dense(nodes, p) {
      DenseAppend(nodes, Construction.AddList(nodes, p, name, order, sameLine, hasBrackets, false, values), p, Lists);
    }
  }

  lemma ChangeChildToListKeeps(nodes: seq<Node>, g: Id, c: int, name: string, sameLine: bool, values: seq<string>)
    requires Parsable(nodes) && IsItem(nodes, g)
    ensures var e := Construction.ChangeChildToList(nodes, g, c, name, sameLine, values);
      Parsable(e.nodes) && Grows(nodes, e.nodes) && Touches(nodes, e.nodes, g)
    ensures Dense(nodes, g) && Construction.HasChildAt(nodes, g, c) ==>
      Dense(Construction.ChangeChildToList(nodes, g, c, name, sameLine, values).nodes, g)
  {
    var f := OrderIs(c);
    Removal.RemoveFirstMatchSpec(nodes, g, Children, f);
    RemoveFirstMatchKinds(nodes, g, Children, f);
    var removed := Removal.RemoveFirstMatch(nodes, g, Children, f).nodes;
    var x := |removed|;
    Construction.PlaceListSpec(removed, g, name, c, sameLine, values);
    var grown := removed + [Construction.ListNodeOf(Some(g), name, c, sameLine, true)];
    RegisterKinds(grown, g, Lists, x);
    var registered := Register(grown, g, Lists, x);
    WithValuesKinds(registered, x, ValueLists.AddAll(Construction.ValuesOf(registered, x), values));
    var placed := Construction.PlaceList(removed, g, name, c, sameLine, values);
    Construction.SortListsSpec(placed, g);
    var lists := Get(placed, g, Lists);
    Removal.SetCollFrame(placed, g, Lists, lists.(entries := SortByOrder(placed, lists.entries)));
    if Dense(nodes, g) && Construction.HasChildAt(nodes, g, c) {
      Construction.ChangeChildToListKeepsUnique(nodes, g, c, name, sameLine, values);
    }
  }

  /** The list changeChildToList makes is the next object, a list of g. */
  lemma ChangeChildToListParent(nodes: seq<Node>, g: Id, c: int, name: string, sameLine: bool, values: seq<string>)
    requires Parsable(nodes) && IsItem(nodes, g)
    ensures var e := Construction.ChangeChildToList(nodes, g, c, name, sameLine, values);
      e.out == Ok(|nodes|) && |e.nodes| == |nodes| + 1 && Parent(e.nodes[|nodes|]) == Some(g)
  {
    Removal.RemoveFirstMatchSpec(nodes, g, Children, OrderIs(c));
    var removed := Removal.RemoveFirstMatch(nodes, g, Children, OrderIs(c)).nodes;
    var x := |removed|;
    var grown := removed + [Construction.ListNodeOf(Some(g), name, c, sameLine, true)];
    RegisterKinds(grown, g, Lists, x);
    Construction.PlaceListSpec(removed, g, name, c, sameLine, values);
    var placed := Construction.PlaceList(removed, g, name, c, sameLine, values);
    Construction.SortListsSpec(placed, g);
  }

  // ---------------------------------------------------------------------
  // The open blocks: what readObject keeps true of the items it is inside

  /** p is the last child of its parent and holds the parent's highest
    * order, getNbObjects() - 1: the '{' that made it registered it last and
    * nothing has been added to the parent since.  A root has nothing to hold. */
  ghost predicate OnTop(nodes: seq<Node>, p: Id)
    requires p < |nodes|
  {
    match Parent(nodes[p])
    case None => true
    case Some(g) =>
      var s := Entries(nodes, g, Children);
      s != [] && s[|s| - 1] == p && Ord(nodes, p) == NbObjects(nodes, g) - 1
  }

  /** p and every item above it are open blocks: Items whose orders are
    * dense and which each sit on top of their parent. */
  ghost predicate Chain(nodes: seq<Node>, p: Id)
    decreases p
  {
    IsItem(nodes, p) && Dense(nodes, p) && OnTop(nodes, p)
    && match Parent(nodes[p])
       case None => true
       case Some(g) => g < p && Chain(nodes, g)
  }

  /** b differs from a, among a's objects, only in the collections of t: no
    * object changes class, parent or order. */
  ghost predicate Touches(a: seq<Node>, b: seq<Node>, t: Id)
  {
    Grows(a, b) && (forall i :: 0 <= i < |a| ==> Ord(b, i) == Ord(a, i))
    && forall i: Id, k: Kind :: i < |a| && i != t ==> Get(b, i, k) == Get(a, i, k)
  }

  lemma TouchesTrans(a: seq<Node>, b: seq<Node>, c: seq<Node>, t: Id)
    requires Touches(a, b, t) && Touches(b, c, t)
    ensures Touches(a, c, t)
  {
  }

  /** Open blocks above the touched item stay open. */
  lemma {:induction false} ChainFrame(a: seq<Node>, b: seq<Node>, g: Id, t: Id)
    requires WF(a) && Chain(a, g) && Touches(a, b, t) && g < t
    ensures Chain(b, g)
    decreases g
  {
    assert forall k: Kind :: Get(b, g, k) == Get(a, g, k);
    forall m | m in AllEntries(a, g)
      ensures Ord(b, m) == Ord(a, m)
    {
      AllEntriesInRange(a, g, m);
    }
    match Parent(a[g])
    case None =>
    case Some(h) =>
      assert forall k: Kind :: Get(b, h, k) == Get(a, h, k);
      ChainFrame(a, b, h, t);
  }

  /** A change to the collections of the open block p alone keeps it open
    * when its orders are still dense. */
  lemma ChainStep(a: seq<Node>, b: seq<Node>, p: Id)
    requires WF(a) && Chain(a, p) && Touches(a, b, p) && Dense(b, p)
    ensures Chain(b, p)
  {
    match Parent(a[p])
    case None =>
    case Some(g) =>
      assert forall k: Kind :: Get(b, g, k) == Get(a, g, k);
      ChainFrame(a, b, g, p);
  }

  /** A change confined to the collections of p that keeps p's orders dense
    * keeps p an open block. */
  lemma ChainKept(a: seq<Node>, b: seq<Node>, p: Id)
    requires WF(a) && Touches(a, b, p) && (Dense(a, p) ==> Dense(b, p))
    ensures Chain(a, p) ==> Chain(b, p)
  {
    if Chain(a, p) {
      ChainStep(a, b, p);
    }
  }

  /** A change confined to the collections of an item below g keeps g an
    * open block. */
  lemma ChainAbove(a: seq<Node>, b: seq<Node>, g: Id, t: Id)
    requires WF(a) && Touches(a, b, t) && g < t
    ensures Chain(a, g) ==> Chain(b, g)
  {
    if Chain(a, g) {
      ChainFrame(a, b, g, t);
    }
  }

  /** What getLastChild(name) finds through an exact index is a child of g,
    * later in the arena than g. */
  lemma FoundIsChild(nodes: seq<Node>, g: Id, name: string)
    requires WF(nodes) && IsItem(nodes, g) && Indexed(nodes, g, Children)
    requires Lookups.LastNamed(nodes, g, Children, name).Ok? && Lookups.LastNamed(nodes, g, Children, name).value.Some?
    ensures var q := Lookups.LastNamed(nodes, g, Children, name).value.value;
      q in Entries(nodes, g, Children) && g < q && Construction.HasChildAt(nodes, g, Ord(nodes, q))
  {
    var b := Lookups.Bucket(nodes, g, Children, name).value;
    var q := b[|b| - 1];
    NamedMembers(nodes, Entries(nodes, g, Children), name, q);
    assert NodeWF(nodes, g) && CollWF(nodes, g, Children);
  }

  /** In an open block p, getLastChild(name) on the parent with p's own name
    * finds p itself, whose order is the parent's highest. */
  lemma LastChildIsBlock(nodes: seq<Node>, p: Id)
    requires Parsable(nodes) && Chain(nodes, p) && Parent(nodes[p]).Some?
    ensures var g := Parent(nodes[p]).value;
      IsItem(nodes, g) && Lookups.LastNamed(nodes, g, Children, nodes[p].name) == Ok(Some(p))
      && Ord(nodes, p) == NbObjects(nodes, g) - 1
  {
    var g := Parent(nodes[p]).value;
    assert OnTop(nodes, p);
    LastEntryFound(nodes, g, Children, p);
  }

  /** getLastX(name) through an exact index finds the last entry of the
    * collection when that entry carries the name. */
  lemma LastEntryFound(nodes: seq<Node>, g: Id, k: Kind, p: Id)
    requires WF(nodes) && g < |nodes| && Indexed(nodes, g, k)
    requires Entries(nodes, g, k) != [] && Entries(nodes, g, k)[|Entries(nodes, g, k)| - 1] == p
    ensures Lookups.LastNamed(nodes, g, k, NameOf(nodes, p)) == Ok(Some(p))
  {
    var s := Entries(nodes, g, k);
    var nm := NameOf(nodes, p);
    assert Named(nodes, s, nm) == Named(nodes, s[..|s| - 1], nm) + [p];
    assert NodeWF(nodes, g) && CollWF(nodes, g, k);
  }

  /** Registering the next object of the arena in one collection of p, at
    * order getNbObjects(), keeps p's orders dense. */
  lemma DenseAppend(a: seq<Node>, b: seq<Node>, p: Id, k: Kind)
    requires WF(a) && Dense(a, p) && |a| < |b|
    requires forall k': Kind :: k' != k ==> Get(b, p, k') == Get(a, p, k')
    requires Entries(b, p, k) == Entries(a, p, k) + [|a|]
    requires forall i :: 0 <= i < |a| ==> Ord(b, i) == Ord(a, i)
    requires Ord(b, |a|) == NbObjects(a, p)
    ensures Dense(b, p)
  {
    var x := |a|;
    var s := AllEntries(a, p);
    var s' := AllEntries(b, p);
    assert |s'| == |s| + 1;
    assert forall m :: m in s' <==> m in s || m == x by {
      assert Entries(b, p, Children) == Entries(a, p, Children) + (if k == Children then [x] else []);
      assert Entries(b, p, Variables) == Entries(a, p, Variables) + (if k == Variables then [x] else []);
      assert Entries(b, p, Lists) == Entries(a, p, Lists) + (if k == Lists then [x] else []);
    }
    forall m | m in s'
      ensures 0 <= Ord(b, m) < |s'|
    {
      if m != x {
        AllEntriesInRange(a, p, m);
      }
    }
    forall m1, m2 | m1 in s' && m2 in s' && m1 != m2
      ensures Ord(b, m1) != Ord(b, m2)
    {
      if m1 != x {
        AllEntriesInRange(a, p, m1);
      }
      if m2 != x {
        AllEntriesInRange(a, p, m2);
      }
    }
  }

  // ---------------------------------------------------------------------
  // The pending state of one readObject call

  /** The locals of readObject: the strings read since the last value, whether
    * an '=' was read, and how many newlines were crossed. */
  datatype Pending = Pending(strings: seq<string>, isEquals: bool, nbNewLine: int)

  /** A new readObject call: nothing pending. */
  const Start: Pending := Pending([], false, 0)

  /** isEquals = false; strings.clear(). */
  function Cleared(st: Pending): (r: Pending)
    ensures r.strings == [] && !r.isEquals && r.nbNewLine == st.nbNewLine
  {
    Pending([], false, st.nbNewLine)
  }

  /** The name of the child '{' opens: the last pending string, or "". */
  function ChildName(st: Pending): string
  {
    if st.strings == [] then "" else st.strings[|st.strings| - 1]
  }

  /** After the child's readObject returns: isEquals = false, and the last
    * pending string, the child's name, is dropped. */
  function AfterChild(st: Pending): (r: Pending)
    ensures !r.isEquals && r.nbNewLine == st.nbNewLine
    ensures st.strings != [] ==> st.strings == r.strings + [ChildName(st)]
    ensures st.strings == [] ==> r.strings == []
  {
    Pending(if st.strings == [] then [] else st.strings[..|st.strings| - 1], false, st.nbNewLine)
  }

  /** The objects and the pending state after one step. */
  datatype Step = Step(nodes: seq<Node>, st: Pending)

  // ---------------------------------------------------------------------
  // The steps

  /** '"': after '=' the quoted text, quotes kept, becomes the value of a
    * variable named by the first pending string, and the pending state is
    * cleared; otherwise the trimmed text is pending.  (With '=' and nothing
    * pending, strings.getFirst() throws before anything is read: the caller
    * handles that case.) */
  function OnQuoted(nodes: seq<Node>, p: Id, st: Pending, text: string): (r: Step)
    requires Parsable(nodes) && IsItem(nodes, p)
    requires st.isEquals ==> st.strings != []
    ensures Parsable(r.nodes) && Grows(nodes, r.nodes)
    ensures Chain(nodes, p) ==> Chain(r.nodes, p)
  {
    if st.isEquals then
      AddVariableKeeps(nodes, p, st.strings[0], text);
      Step(Construction.AddVariable(nodes, p, st.strings[0], Text(text)), Cleared(st))
    else Step(nodes, st.(strings := st.strings + [Trim(text)]))
  }

  /** Any other character starts a bare token: after '=' it is the value of a
    * variable named by the first pending string (none is added when nothing
    * is pending) and the pending state is cleared; otherwise it is pending. */
  function OnBare(nodes: seq<Node>, p: Id, st: Pending, token: string): (r: Step)
    requires Parsable(nodes) && IsItem(nodes, p)
    ensures Parsable(r.nodes) && Grows(nodes, r.nodes)
    ensures Chain(nodes, p) ==> Chain(r.nodes, p)
  {
    if !st.isEquals then Step(nodes, st.(strings := st.strings + [token]))
    else if st.strings == [] then Step(nodes, Cleared(st))
    else
      AddVariableKeeps(nodes, p, st.strings[0], token);
      Step(Construction.AddVariable(nodes, p, st.strings[0], Text(token)), Cleared(st))
  }

  /** '{': new ClausewitzItem(currentNode, name, 0, isEquals), which the
    * constructor registers as the last child, at order getNbObjects(). */
  function OnOpen(nodes: seq<Node>, p: Id, st: Pending): (r: seq<Node>)
    requires Parsable(nodes) && IsItem(nodes, p)
    ensures Parsable(r) && Grows(nodes, r) && IsItem(r, |nodes|)
    ensures Parent(r[|nodes|]) == Some(p) && (Chain(nodes, p) ==> Chain(r, |nodes|))
  {
    NewItemKeeps(nodes, p, ChildName(st), 0, st.isEquals);
    Construction.NewItem(nodes, Some(p), ChildName(st), 0, st.isEquals, false)
  }

  /** The sameLine rule for a list made from n pending strings. */
  function ListSameLine(st: Pending, limit: int): bool
  {
    |st.strings| > 1 && st.nbNewLine <= limit
  }

  /** The first half of '}': with strings pending, the block p either becomes
    * a list (when getLastChild(name) of its parent is empty), or gets an
    * anonymous list without brackets (when that item has objects), or, when
    * the parent has no child of that name, the parent gets a list of that
    * name.  The result is the object currentNode then denotes. */
  function Convert(nodes: seq<Node>, p: Id, st: Pending): (e: Removal.Effect<Id>)
    requires Parsable(nodes) && IsItem(nodes, p)
    ensures Parsable(e.nodes) && Grows(nodes, e.nodes)
    ensures e.out.Ok? ==> e.out.value < |e.nodes|
    ensures Chain(nodes, p) && Parent(nodes[p]).Some? ==> Chain(e.nodes, Parent(nodes[p]).value)
  {
    if st.strings == [] then Removal.Effect(nodes, Ok(p))
    else match Parent(nodes[p])
      case None => Removal.Effect(nodes, Thrown(NullPointer))
      case Some(g) =>
        assert NodeWF(nodes, p);
        var name := nodes[p].name;
        match Lookups.LastNamed(nodes, g, Children, name)
        case Thrown(ex) => Removal.Effect(nodes, Thrown(ex))
        case Ok(None) =>
          AddListKeeps(nodes, g, name, NbObjects(nodes, g), ListSameLine(st, 2), true, st.strings);
          ChainKept(nodes, Construction.AddList(nodes, g, name, NbObjects(nodes, g), ListSameLine(st, 2), true, false, st.strings), g);
          Removal.Effect(Construction.AddList(nodes, g, name, NbObjects(nodes, g), ListSameLine(st, 2), true, false, st.strings),
                         Ok(|nodes|))
        case Ok(Some(q)) =>
          FoundChild(nodes, g, name);
          FoundIsChild(nodes, g, name);
          if AllOrdered(nodes, q) == [] then
            ChangeChildToListKeeps(nodes, g, Ord(nodes, q), name, ListSameLine(st, 2), st.strings);
            ChainKept(nodes, Construction.ChangeChildToList(nodes, g, Ord(nodes, q), name, ListSameLine(st, 2), st.strings).nodes, g);
            Construction.ChangeChildToList(nodes, g, Ord(nodes, q), name, ListSameLine(st, 2), st.strings)
          else
            var limit := NbObjects(nodes, q) * 2 + 2;
            AddListKeeps(nodes, q, "", NbObjects(nodes, q), ListSameLine(st, limit), false, st.strings);
            ChainAbove(nodes, Construction.AddList(nodes, q, "", NbObjects(nodes, q), ListSameLine(st, limit), false, false, st.strings), g, q);
            Removal.Effect(Construction.AddList(nodes, q, "", NbObjects(nodes, q), ListSameLine(st, limit), false, false, st.strings),
                           Ok(p))
  }

  /** The condition under which a closed block is printed on one line: at most
    * two newlines, an Item with no children and no lists, and more than one
    * variable. */
  predicate FlatBlock(nodes: seq<Node>, cur: Id, nbNewLine: int)
  {
    nbNewLine <= 2 && IsItem(nodes, cur) && NbOf(nodes, cur, Children) == 0 && NbOf(nodes, cur, Lists) == 0
    && NbOf(nodes, cur, Variables) > 1
  }

  /** The second half of '}': setSameLine(true) on a flat block. */
  function MarkSameLine(nodes: seq<Node>, cur: Id, nbNewLine: int): (r: seq<Node>)
    requires Parsable(nodes)
    ensures Parsable(r) && Grows(nodes, r)
  {
    if FlatBlock(nodes, cur, nbNewLine) then
      SameLineKeeps(nodes, cur, true);
      nodes[cur := Documents.WithSameLine(nodes[cur], true)]
    else nodes
  }

  /** setSameLine leaves every open block open. */
  lemma MarkKeepsChains(nodes: seq<Node>, cur: Id, nbNewLine: int)
    requires Parsable(nodes)
    ensures forall g: Id :: Chain(nodes, g) ==> Chain(MarkSameLine(nodes, cur, nbNewLine), g)
  {
    var r := MarkSameLine(nodes, cur, nbNewLine);
    MarkFrame(nodes, cur, nbNewLine);
    assert Touches(nodes, r, |nodes|);
    forall g: Id | Chain(nodes, g)
      ensures Chain(r, g)
    {
      ChainFrame(nodes, r, g, |nodes|);
    }
  }

  /** '}': the conversion, then the sameLine rule on what currentNode is. */
  function OnClose(nodes: seq<Node>, p: Id, st: Pending): (e: Removal.Effect<()>)
    requires Parsable(nodes) && IsItem(nodes, p)
    ensures Parsable(e.nodes) && Grows(nodes, e.nodes)
    ensures Chain(nodes, p) && Parent(nodes[p]).Some? ==> Chain(e.nodes, Parent(nodes[p]).value)
  {
    var c := Convert(nodes, p, st);
    match c.out
    case Thrown(ex) => Removal.Effect(c.nodes, Thrown(ex))
    case Ok(cur) =>
      var r := MarkSameLine(c.nodes, cur, st.nbNewLine);
      GrowsTrans(nodes, c.nodes, r);
      MarkKeepsChains(c.nodes, cur, st.nbNewLine);
      Removal.Effect(r, Ok(()))
  }

  // ---------------------------------------------------------------------
  // What each step does

  /** trim() leaves a quoted text alone: its ends are quotes. */
  lemma TrimQuoted(body: string)
    ensures Trim("\"" + body + "\"") == "\"" + body + "\""
  {
    var t := "\"" + body + "\"";
    assert TrimStart(t) == t;
    assert TrimEnd(t) == t;
  }

  /** The variable addVariable(name, value) adds: the next object, with the
    * order getNbObjects(), the last variable of the item and the one
    * getLastVar(name) finds. */
  lemma NewVariable(nodes: seq<Node>, p: Id, name: string, v: string)
    requires Parsable(nodes) && IsItem(nodes, p)
    ensures var r := Construction.AddVariable(nodes, p, name, Text(v)); var x := |nodes|;
      r[x] == VariableNode(name, NbObjects(nodes, p), v)
      && Entries(r, p, Variables) == Entries(nodes, p, Variables) + [x]
      && Lookups.LastNamed(r, p, Variables, name) == Ok(Some(x))
      && forall i :: 0 <= i < x ==> Ord(r, i) == Ord(nodes, i)
  {
    Construction.AddVariableAtSpec(nodes, p, name, Text(v), NbObjects(nodes, p), false);
  }

  /** '"' after '=': the quoted text, quotes kept, is the value of a new
    * variable named by the first pending string, which getLastVar(name)
    * then finds, at order getNbObjects(); nothing stays pending. */
  lemma QuotedValue(nodes: seq<Node>, p: Id, st: Pending, body: string)
    requires Parsable(nodes) && IsItem(nodes, p) && st.isEquals && st.strings != []
    ensures var text := "\"" + body + "\""; var r := OnQuoted(nodes, p, st, text); var x := |nodes|;
      r.nodes[x] == VariableNode(st.strings[0], NbObjects(nodes, p), text)
      && Lookups.LastNamed(r.nodes, p, Variables, st.strings[0]) == Ok(Some(x))
      && r.st.strings == [] && !r.st.isEquals
  {
    NewVariable(nodes, p, st.strings[0], "\"" + body + "\"");
  }

  /** '"' without '=': the quoted text, quotes kept (trim cannot reach
    * inside them), is pending, and nothing is added. */
  lemma QuotedPending(nodes: seq<Node>, p: Id, st: Pending, body: string)
    requires Parsable(nodes) && IsItem(nodes, p) && !st.isEquals
    ensures var text := "\"" + body + "\""; var r := OnQuoted(nodes, p, st, text);
      r.nodes == nodes && r.st.strings == st.strings + [text] && !r.st.isEquals
  {
    var text := "\"" + body + "\"";
    assert OnQuoted(nodes, p, st, text) == Step(nodes, st.(strings := st.strings + [Trim(text)]));
    TrimQuoted(body);
  }

  /** A bare token: after '=' and a pending name it is the value of a new
    * variable of that name; after '=' alone it is dropped; otherwise it is
    * pending.  Every case but the last leaves nothing pending. */
  lemma BareToken(nodes: seq<Node>, p: Id, st: Pending, token: string)
    requires Parsable(nodes) && IsItem(nodes, p)
    ensures var r := OnBare(nodes, p, st, token); var x := |nodes|;
      (!st.isEquals ==> r.nodes == nodes && r.st.strings == st.strings + [token])
      && (st.isEquals ==> r.st.strings == [] && !r.st.isEquals)
      && (st.isEquals && st.strings == [] ==> r.nodes == nodes)
      && (st.isEquals && st.strings != [] ==>
            r.nodes[x] == VariableNode(st.strings[0], NbObjects(nodes, p), token)
            && Lookups.LastNamed(r.nodes, p, Variables, st.strings[0]) == Ok(Some(x)))
  {
    if st.isEquals && st.strings != [] {
      NewVariable(nodes, p, st.strings[0], token);
    }
  }

  /** '{': the new child is the next object, an empty Item named after the
    * last pending string ("" without one) with the pending '=' as hasEquals,
    * at order getNbObjects(); it is the item's last child and the one
    * getLastChild(name) finds; no other order moves. */
  lemma OpenChild(nodes: seq<Node>, p: Id, st: Pending)
    requires Parsable(nodes) && IsItem(nodes, p)
    ensures var r := OnOpen(nodes, p, st); var x := |nodes|;
      r[x] == ItemNode(ChildName(st), NbObjects(nodes, p), Some(p), st.isEquals, false, Unallocated, Unallocated, Unallocated)
      && Entries(r, p, Children) == Entries(nodes, p, Children) + [x]
      && Lookups.LastNamed(r, p, Children, ChildName(st)) == Ok(Some(x))
      && (forall i :: 0 <= i < x ==> Ord(r, i) == Ord(nodes, i))
      && (st.strings != [] ==> ChildName(st) == st.strings[|st.strings| - 1])
  {
    var n := ItemNode(ChildName(st), 0, Some(p), st.isEquals, false, Unallocated, Unallocated, Unallocated);
    var x := |nodes|;
    var grown := nodes + [n];
    Construction.ConstructSpec(nodes, n, false);
    Construction.AppendKeeps(nodes, n);
    Construction.AddBucket(grown, p, Children, x, false);
    assert Lookups.AllNamed(grown, p, Children, ChildName(st)) == Lookups.AllNamed(nodes, p, Children, ChildName(st));
  }

  /** '}' with strings pending in a block at the root: getParent() is null,
    * and the call throws before changing anything. */
  lemma CloseAtRootThrows(nodes: seq<Node>, p: Id, st: Pending)
    requires Parsable(nodes) && IsItem(nodes, p) && st.strings != [] && nodes[p].parent.None?
    ensures OnClose(nodes, p, st) == Removal.Effect(nodes, Thrown(NullPointer))
  {
    assert Convert(nodes, p, st) == Removal.Effect(nodes, Thrown(NullPointer));
  }

  /** setSameLine touches the one flag: every collection, order and every
    * other object stays. */
  lemma MarkFrame(nodes: seq<Node>, cur: Id, nbNewLine: int)
    requires Parsable(nodes)
    ensures var r := MarkSameLine(nodes, cur, nbNewLine);
      |r| == |nodes| && (forall i :: 0 <= i < |nodes| && i != cur ==> r[i] == nodes[i])
      && forall i: Id, k: Kind :: Get(r, i, k) == Get(nodes, i, k) && Ord(r, i) == Ord(nodes, i)
  {
    var r := MarkSameLine(nodes, cur, nbNewLine);
    forall i: Id, k: Kind
      ensures Get(r, i, k) == Get(nodes, i, k) && Ord(r, i) == Ord(nodes, i)
    {
      if i < |nodes| {
        assert Shape(r[i]) == Shape(nodes[i]);
      }
    }
  }

  /** '}' with nothing pending: the block stays what it is, and is marked to be
    * printed on one line exactly when it is flat; nothing else changes. */
  lemma CloseSameLine(nodes: seq<Node>, p: Id, st: Pending)
    requires Parsable(nodes) && IsItem(nodes, p) && st.strings == []
    ensures var e := OnClose(nodes, p, st);
      e.out == Ok(()) && |e.nodes| == |nodes|
      && e.nodes[p].sameLine == (nodes[p].sameLine || FlatBlock(nodes, p, st.nbNewLine))
      && e.nodes[p] == Documents.WithSameLine(nodes[p], e.nodes[p].sameLine)
      && forall i :: 0 <= i < |nodes| && i != p ==> e.nodes[i] == nodes[i]
  {
    assert Convert(nodes, p, st) == Removal.Effect(nodes, Ok(p));
  }

  /** '}' with strings pending, when the block's parent has no child of the
    * block's name: the parent gets a list of that name, with brackets, at
    * order getNbObjects(), holding what addAll keeps of the strings, on one
    * line when more than one string was read over at most two newlines; it
    * is the parent's last list and the one getLastList(name) finds.  The
    * parser itself never takes this branch: in an open block the parent's
    * last child of that name is the block. */
  lemma CloseNewList(nodes: seq<Node>, p: Id, st: Pending, g: Id)
    requires Parsable(nodes) && IsItem(nodes, p) && st.strings != [] && nodes[p].parent == Some(g)
    requires Lookups.LastNamed(nodes, g, Children, nodes[p].name) == Ok(None)
    ensures var e := OnClose(nodes, p, st); e.out == Ok(()) && |e.nodes| == |nodes| + 1
    ensures var e := OnClose(nodes, p, st); var x := |nodes|; var l := e.nodes[x];
      l.ListNode?
      && l.name == nodes[p].name && l.parent == Some(g) && l.hasBrackets
      && l.values == ValueLists.Normalized(st.strings)
      && l.sameLine == (|st.strings| > 1 && st.nbNewLine <= 2)
      && Ord(e.nodes, x) == NbObjects(nodes, g)
      && Entries(e.nodes, g, Lists) == Entries(nodes, g, Lists) + [x]
      && Lookups.LastNamed(e.nodes, g, Lists, nodes[p].name) == Ok(Some(x))
    ensures !Chain(nodes, p)
  {
    if Chain(nodes, p) {
      LastChildIsBlock(nodes, p);
    }
    assert NodeWF(nodes, p);
    var name := nodes[p].name;
    Construction.AddListSpec(nodes, g, name, NbObjects(nodes, g), ListSameLine(st, 2), true, false, st.strings);
    var c := Convert(nodes, p, st);
    assert c.nodes == Construction.AddList(nodes, g, name, NbObjects(nodes, g), ListSameLine(st, 2), true, false, st.strings);
    assert !FlatBlock(c.nodes, |nodes|, st.nbNewLine);
  }

  lemma ConvertAnonymous(nodes: seq<Node>, p: Id, st: Pending, g: Id, q: Id)
    requires Parsable(nodes) && IsItem(nodes, p) && st.strings != [] && nodes[p].parent == Some(g)
    requires Lookups.LastNamed(nodes, g, Children, nodes[p].name) == Ok(Some(q)) && AllOrdered(nodes, q) != []
    ensures IsItem(nodes, q) && (Chain(nodes, p) ==> q == p)
    ensures var limit := NbObjects(nodes, q) * 2 + 2;
      Convert(nodes, p, st)
      == Removal.Effect(Construction.AddList(nodes, q, "", NbObjects(nodes, q), ListSameLine(st, limit), false, false, st.strings), Ok(p))
  {
    assert NodeWF(nodes, p);
    FoundChild(nodes, g, nodes[p].name);
    if Chain(nodes, p) {
      LastChildIsBlock(nodes, p);
    }
  }

  /** addList("", sameLine, false, values) on q, as far as '}' needs it. */
  lemma AnonymousList(nodes: seq<Node>, q: Id, sameLine: bool, values: seq<string>)
    requires WF(nodes) && IsItem(nodes, q)
    ensures var r := Construction.AddList(nodes, q, "", NbObjects(nodes, q), sameLine, false, false, values);
      var x := |nodes|;
      r[x].name == "" && r[x].parent == Some(q) && !r[x].hasBrackets && r[x].sameLine == sameLine
      && r[x].values == ValueLists.Normalized(values) && Ord(r, x) == NbObjects(nodes, q)
      && Entries(r, q, Lists) == Entries(nodes, q, Lists) + [x]
      && forall i :: 0 <= i < x ==> Ord(r, i) == Ord(nodes, i)
  {
    Construction.AddListSpec(nodes, q, "", NbObjects(nodes, q), sameLine, false, false, values);
  }

  /** '}' with strings pending, when the child getLastChild(name) of the
    * parent finds has objects: that child gets an anonymous list without
    * brackets, at its order getNbObjects(), holding what addAll keeps of the
    * strings, on one line when more than one string was read over at most
    * 2 * getNbObjects() + 2 newlines; no other order moves.  In an open block
    * that child is the block itself. */
  lemma CloseAnonymous(nodes: seq<Node>, p: Id, st: Pending, g: Id, q: Id)
    requires Parsable(nodes) && IsItem(nodes, p) && st.strings != [] && nodes[p].parent == Some(g)
    requires Lookups.LastNamed(nodes, g, Children, nodes[p].name) == Ok(Some(q)) && AllOrdered(nodes, q) != []
    ensures var e := OnClose(nodes, p, st); e.out == Ok(()) && |e.nodes| == |nodes| + 1
    ensures Chain(nodes, p) ==> q == p
    ensures var e := OnClose(nodes, p, st); var x := |nodes|; var l := e.nodes[x];
      l.ListNode?
      && l.name == "" && l.parent == Some(q) && !l.hasBrackets
      && l.values == ValueLists.Normalized(st.strings)
      && l.sameLine == (|st.strings| > 1 && st.nbNewLine <= NbObjects(nodes, q) * 2 + 2)
      && Ord(e.nodes, x) == NbObjects(nodes, q)
      && Entries(e.nodes, q, Lists) == Entries(nodes, q, Lists) + [x]
      && forall i :: 0 <= i < x ==> Ord(e.nodes, i) == Ord(nodes, i)
  {
    ConvertAnonymous(nodes, p, st, g, q);
    var limit := NbObjects(nodes, q) * 2 + 2;
    AnonymousList(nodes, q, ListSameLine(st, limit), st.strings);
    var c := Convert(nodes, p, st);
    MarkFrame(c.nodes, p, st.nbNewLine);
    assert OnClose(nodes, p, st).nodes == MarkSameLine(c.nodes, p, st.nbNewLine);
  }

  lemma ConvertEmpty(nodes: seq<Node>, p: Id, st: Pending, g: Id, q: Id)
    requires Parsable(nodes) && IsItem(nodes, p) && st.strings != [] && nodes[p].parent == Some(g)
    requires Lookups.LastNamed(nodes, g, Children, nodes[p].name) == Ok(Some(q)) && AllOrdered(nodes, q) == []
    ensures IsItem(nodes, g) && Indexed(nodes, g, Children)
    ensures Convert(nodes, p, st) == Construction.ChangeChildToList(nodes, g, Ord(nodes, q), nodes[p].name, ListSameLine(st, 2), st.strings)
    ensures Chain(nodes, p) ==>
      q == p
      && Convert(nodes, p, st)
         == Construction.ChangeChildToListAsWritten(nodes, g, Ord(nodes, q), nodes[p].name, ListSameLine(st, 2), st.strings)
  {
    assert NodeWF(nodes, p);
    FoundChild(nodes, g, nodes[p].name);
    if Chain(nodes, p) {
      LastChildIsBlock(nodes, p);
      FoundIsChild(nodes, g, nodes[p].name);
      assert Chain(nodes, g);
      Construction.ChangeChildToListAtTop(nodes, g, Ord(nodes, q), nodes[p].name, ListSameLine(st, 2), st.strings);
    }
  }

  /** changeChildToList as far as '}' needs it. */
  lemma ListFromChild(nodes: seq<Node>, g: Id, o: int, name: string, sameLine: bool, values: seq<string>)
    requires WF(nodes) && IsItem(nodes, g) && Indexed(nodes, g, Children) && Removal.UniqueOrders(nodes, g)
    ensures var e := Construction.ChangeChildToList(nodes, g, o, name, sameLine, values); var x := |nodes|;
      e.out == Ok(x) && |e.nodes| == x + 1 && e.nodes[x].ListNode?
      && e.nodes[x].name == name && e.nodes[x].hasBrackets && e.nodes[x].sameLine == sameLine
      && e.nodes[x].values == ValueLists.Normalized(values) && Ord(e.nodes, x) == o
      && (forall y :: y in Entries(e.nodes, g, Children) <==> y in Entries(nodes, g, Children) && Ord(nodes, y) != o)
      && x in Entries(e.nodes, g, Lists) && SortedByOrder(e.nodes, Entries(e.nodes, g, Lists))
      && forall i :: 0 <= i < x ==> Ord(e.nodes, i) == Ord(nodes, i)
  {
    Construction.ChangeChildToListSpec(nodes, g, o, name, sameLine, values);
    Construction.ChangeChildToListEntries(nodes, g, o, name, sameLine, values);
    Construction.ChildRemoved(nodes, g, o);
    var removed := Removal.RemoveFirstMatch(nodes, g, Children, OrderIs(o)).nodes;
    Construction.PlaceListSpec(removed, g, name, o, sameLine, values);
    var placed := Construction.PlaceList(removed, g, name, o, sameLine, values);
    Construction.SortListsSpec(placed, g);
    var e := Construction.ChangeChildToList(nodes, g, o, name, sameLine, values);
    assert e.nodes[|nodes|] == placed[|nodes|];
    assert |nodes| in multiset(Entries(e.nodes, g, Lists));
  }

  /** '}' with strings pending, when the child getLastChild(name) of the
    * parent finds is empty (the block just closed, as a rule): that child
    * becomes a list of the same name and order, with brackets, holding what
    * addAll keeps of the strings, on one line when more than one string was
    * read over at most two newlines; the child leaves the parent's children,
    * the list joins its lists, which stay sorted by order, and no other
    * order moves. */
  lemma CloseEmptyToList(nodes: seq<Node>, p: Id, st: Pending, g: Id, q: Id)
    requires Parsable(nodes) && IsItem(nodes, p) && st.strings != [] && nodes[p].parent == Some(g)
    requires Lookups.LastNamed(nodes, g, Children, nodes[p].name) == Ok(Some(q)) && AllOrdered(nodes, q) == []
    requires Removal.UniqueOrders(nodes, g)
    ensures var e := OnClose(nodes, p, st); e.out == Ok(()) && |e.nodes| == |nodes| + 1
    ensures Chain(nodes, p) ==> q == p
    ensures var e := OnClose(nodes, p, st); var x := |nodes|; var l := e.nodes[x];
      l.ListNode?
      && l.name == nodes[p].name && l.hasBrackets
      && l.values == ValueLists.Normalized(st.strings)
      && l.sameLine == (|st.strings| > 1 && st.nbNewLine <= 2)
      && Ord(e.nodes, x) == Ord(nodes, q)
      && q !in Entries(e.nodes, g, Children) && x in Entries(e.nodes, g, Lists)
      && SortedByOrder(e.nodes, Entries(e.nodes, g, Lists))
      && forall i :: 0 <= i < x ==> Ord(e.nodes, i) == Ord(nodes, i)
  {
    ConvertEmpty(nodes, p, st, g, q);
    var c := Convert(nodes, p, st);
    ListFromChild(nodes, g, Ord(nodes, q), nodes[p].name, ListSameLine(st, 2), st.strings);
    assert q !in Entries(c.nodes, g, Children);
    assert !FlatBlock(c.nodes, |nodes|, st.nbNewLine);
  }


  // ---------------------------------------------------------------------
  // readObject over a whole input

  /** Where a readObject call ends: the objects, the cursor, and whether it
    * returned or threw. */
  datatype Run = Run(nodes: seq<Node>, pos: nat, out: Outcome<()>)

  /** readObject(currentNode = p, reader at pos over s, readOnlyOneObject =
    * once), continuing with the pending state st.  A '#' comment is skipped
    * as skipTillNext is evidently meant to skip it (see Cursor). */
  function ReadBlock(s: seq<char>, nodes: seq<Node>, pos: nat, p: Id, st: Pending, once: bool): (r: Run)
    requires pos <= |s| && Parsable(nodes) && IsItem(nodes, p)
    ensures pos <= r.pos <= |s| && Parsable(r.nodes) && Grows(nodes, r.nodes)
    ensures Chain(nodes, p) && Parent(nodes[p]).Some? ==> Chain(r.nodes, Parent(nodes[p]).value)
    decreases |s| - pos, 1
  {
    if pos == |s| then Run(nodes, pos, Ok(()))
    else
      var c := s[pos];
      var next := pos + 1;
      if c == '\0' then Run(nodes, next, Ok(()))
      else if c == '\n' then ReadBlock(s, nodes, next, p, st.(nbNewLine := st.nbNewLine + 1), once)
      else if c == ' ' || c == '\t' || c == '\r' then ReadBlock(s, nodes, next, p, st, once)
      else if c == '#' then ReadBlock(s, nodes, SkipTargetIntended(s, next, '#', true), p, st, once)
      else if c == '"' then QuotedBlock(s, nodes, pos, p, st, once)
      else if c == '=' then ReadBlock(s, nodes, next, p, st.(isEquals := true), once)
      else if c == '{' then OpenBlock(s, nodes, pos, p, st, once)
      else if c == '}' then
        var e := OnClose(nodes, p, st);
        Run(e.nodes, next, e.out)
      else BareBlock(s, nodes, pos, p, st, once)
  }

  /** What readQuoted(true) returns when it starts at from: the text up to
    * the closing quote (or the end of the input), between quotes. */
  function QuotedText(s: seq<char>, from: nat): string
    requires from <= |s|
  {
    "\"" + s[from..QuoteEnd(s, from)] + "\""
  }

  /** Where readQuoted leaves the reader: past the closing quote, or at the
    * end of the input when there is none. */
  function QuotedNext(s: seq<char>, from: nat): (r: nat)
    requires from <= |s|
    ensures from <= r <= |s|
    ensures r < |s| ==> r == QuoteEnd(s, from) + 1 && s[r - 1] == '"'
  {
    var q := QuoteEnd(s, from);
    if q < |s| then q + 1 else |s|
  }

  /** ReadBlock on a '"': with a pending '=' and no pending string,
    * strings.getFirst() throws before anything is read. */
  function QuotedBlock(s: seq<char>, nodes: seq<Node>, pos: nat, p: Id, st: Pending, once: bool): (r: Run)
    requires pos < |s| && s[pos] == '"' && Parsable(nodes) && IsItem(nodes, p)
    ensures pos < r.pos <= |s| && Parsable(r.nodes) && Grows(nodes, r.nodes)
    ensures Chain(nodes, p) && Parent(nodes[p]).Some? ==> Chain(r.nodes, Parent(nodes[p]).value)
    decreases |s| - pos, 0
  {
    var next := pos + 1;
    if st.isEquals && st.strings == [] then Run(nodes, next, Thrown(NoSuchElement))
    else
      var step := OnQuoted(nodes, p, st, QuotedText(s, next));
      var r := ReadBlock(s, step.nodes, QuotedNext(s, next), p, step.st, once);
      GrowsTrans(nodes, step.nodes, r.nodes);
      r
  }

  /** ReadBlock on a '{': the child block, then the rest of this one unless
    * the child threw or only one object was asked for at the root. */
  function OpenBlock(s: seq<char>, nodes: seq<Node>, pos: nat, p: Id, st: Pending, once: bool): (r: Run)
    requires pos < |s| && s[pos] == '{' && Parsable(nodes) && IsItem(nodes, p)
    ensures pos < r.pos <= |s| && Parsable(r.nodes) && Grows(nodes, r.nodes)
    ensures Chain(nodes, p) && Parent(nodes[p]).Some? ==> Chain(r.nodes, Parent(nodes[p]).value)
    decreases |s| - pos, 0
  {
    var made := OnOpen(nodes, p, st);
    var child := ReadBlock(s, made, pos + 1, |nodes|, Start, false);
    GrowsTrans(nodes, made, child.nodes);
    if child.out.Thrown? then child
    else if once && Parent(child.nodes[p]).None? then Run(child.nodes, child.pos, Ok(()))
    else
      var r := ReadBlock(s, child.nodes, child.pos, p, AfterChild(st), once);
      GrowsTrans(nodes, child.nodes, r.nodes);
      r
  }

  /** ReadBlock on any other character, the first of a bare token.  With a
    * pending '=' and no pending string nothing more is read. */
  function BareBlock(s: seq<char>, nodes: seq<Node>, pos: nat, p: Id, st: Pending, once: bool): (r: Run)
    requires pos < |s| && Parsable(nodes) && IsItem(nodes, p)
    ensures pos < r.pos <= |s| && Parsable(r.nodes) && Grows(nodes, r.nodes)
    ensures Chain(nodes, p) && Parent(nodes[p]).Some? ==> Chain(r.nodes, Parent(nodes[p]).value)
    decreases |s| - pos, 0
  {
    var next := pos + 1;
    var e := if st.isEquals && st.strings == [] then next else TokenEnd(s, next);
    var step := OnBare(nodes, p, st, [s[pos]] + s[next..e]);
    var r := ReadBlock(s, step.nodes, e, p, step.st, once);
    GrowsTrans(nodes, step.nodes, r.nodes);
    r
  }

  // ---------------------------------------------------------------------
  // The loop on a Document and a CharArray

  /** The '}' branch of readObject on the document. */
  method Close(doc: Documents.Document, p: Id, st: Pending) returns (out: Outcome<()>)
    requires Parsable(doc.nodes) && IsItem(doc.nodes, p)
    modifies doc
    ensures Removal.Effect(doc.nodes, out) == OnClose(old(doc.nodes), p, st)
  {
    var cur := p;
    if st.strings != [] {
      var parent := Parent(doc.nodes[p]);
      if parent.None? {
        return Thrown(NullPointer);
      }
      var g := parent.value;
      assert NodeWF(doc.nodes, p);
      var name := doc.nodes[p].name;
      var previous := Lookups.LastNamed(doc.nodes, g, Children, name);
      if previous.Thrown? {
        return Thrown(previous.exception);
      }
      if previous.value.None? {
        cur := doc.AddList(g, name, NbObjects(doc.nodes, g), ListSameLine(st, 2), true, false, st.strings);
      } else {
        var q := previous.value.value;
        FoundChild(doc.nodes, g, name);
        if AllOrdered(doc.nodes, q) == [] {
          var changed := doc.ChangeChildToList(g, Ord(doc.nodes, q), name, ListSameLine(st, 2), st.strings);
          if changed.Thrown? {
            return Thrown(changed.exception);
          }
          cur := changed.value;
        } else {
          var limit := NbObjects(doc.nodes, q) * 2 + 2;
          var _ := doc.AddList(q, "", NbObjects(doc.nodes, q), ListSameLine(st, limit), false, false, st.strings);
        }
      }
    }
    if FlatBlock(doc.nodes, cur, st.nbNewLine) {
      doc.SetSameLine(cur, true);
    }
    out := Ok(());
  }

  /** QuotedBlock once the quoted text is read. */
  lemma QuotedUnfold(s: seq<char>, nodes: seq<Node>, pos: nat, p: Id, st: Pending, once: bool)
    requires pos < |s| && s[pos] == '"' && Parsable(nodes) && IsItem(nodes, p)
    requires !(st.isEquals && st.strings == [])
    ensures var step := OnQuoted(nodes, p, st, QuotedText(s, pos + 1));
      IsItem(step.nodes, p)
      && QuotedBlock(s, nodes, pos, p, st, once) == ReadBlock(s, step.nodes, QuotedNext(s, pos + 1), p, step.st, once)
  {
  }

  /** readQuoted(true), then either addVariable(strings.getFirst(), value)
    * or the trimmed text pushed as a pending string. */
  method TakeQuoted(doc: Documents.Document, reader: CharArray, p: Id, st: Pending, ghost s: seq<char>)
    returns (next: Pending)
    requires reader.Valid() && reader.data[..] == s && Parsable(doc.nodes) && IsItem(doc.nodes, p)
    requires !(st.isEquals && st.strings == [])
    modifies doc, reader
    ensures reader.Valid() && reader.data[..] == s
    ensures reader.position == QuotedNext(s, old(reader.position))
    ensures Step(doc.nodes, next) == OnQuoted(old(doc.nodes), p, st, QuotedText(s, old(reader.position)))
  {
    var text := reader.ReadQuoted(true);
    if st.isEquals {
      var _ := doc.AddVariable(p, st.strings[0], Text(text));
      next := Cleared(st);
    } else {
      next := st.(strings := st.strings + [Trim(text)]);
    }
  }

  /** The '"' branch of readObject, the '"' just read. */
  method Quoted(doc: Documents.Document, reader: CharArray, p: Id, st: Pending, once: bool)
    returns (next: Pending, done: bool, out: Outcome<()>)
    requires reader.Valid() && Parsable(doc.nodes) && IsItem(doc.nodes, p) && Chain(doc.nodes, p)
    requires 0 < reader.position && reader.data[reader.position - 1] == '"'
    modifies doc, reader
    ensures reader.Valid() && old(reader.position) <= reader.position
    ensures Parsable(doc.nodes) && IsItem(doc.nodes, p) && Chain(doc.nodes, p)
    ensures done ==> Run(doc.nodes, reader.position, out)
                     == QuotedBlock(reader.data[..], old(doc.nodes), old(reader.position) - 1, p, st, once)
    ensures !done ==> ReadBlock(reader.data[..], doc.nodes, reader.position, p, next, once)
                      == QuotedBlock(reader.data[..], old(doc.nodes), old(reader.position) - 1, p, st, once)
  {
    next, done, out := st, false, Ok(());
    if st.isEquals && st.strings == [] {
      done, out := true, Thrown(NoSuchElement);
      return;
    }
    ghost var s := reader.data[..];
    ghost var before := doc.nodes;
    ghost var from := reader.position;
    QuotedUnfold(s, before, from - 1, p, st, once);
    next := TakeQuoted(doc, reader, p, st, s);
  }

  /** A bare token of readObject, its first character c just read. */
  method Bare(doc: Documents.Document, reader: CharArray, p: Id, st: Pending, once: bool, c: char)
    returns (next: Pending)
    requires reader.Valid() && Parsable(doc.nodes) && IsItem(doc.nodes, p) && Chain(doc.nodes, p)
    requires 0 < reader.position && reader.data[reader.position - 1] == c
    modifies doc, reader
    ensures reader.Valid() && old(reader.position) <= reader.position
    ensures Parsable(doc.nodes) && IsItem(doc.nodes, p) && Chain(doc.nodes, p)
    ensures ReadBlock(reader.data[..], doc.nodes, reader.position, p, next, once)
            == BareBlock(reader.data[..], old(doc.nodes), old(reader.position) - 1, p, st, once)
  {
    if st.isEquals && st.strings == [] {
      next := Cleared(st);
      return;
    }
    ghost var before := doc.nodes;
    var token := reader.ReadStringOrNumber(c);
    ghost var step := OnBare(before, p, st, token);
    if st.isEquals {
      var _ := doc.AddVariable(p, st.strings[0], Text(token));
      next := Cleared(st);
    } else {
      next := st.(strings := st.strings + [token]);
    }
    assert doc.nodes == step.nodes && next == step.st;
  }

  /** The '{' branch of readObject, the '{' just read: a new child item named
    * after the last pending string, read to its end, then the name popped. */
  method Open(doc: Documents.Document, reader: CharArray, p: Id, st: Pending, once: bool)
    returns (next: Pending, done: bool, out: Outcome<()>)
    requires reader.Valid() && Parsable(doc.nodes) && IsItem(doc.nodes, p) && Chain(doc.nodes, p)
    requires 0 < reader.position && reader.data[reader.position - 1] == '{'
    modifies doc, reader
    ensures reader.Valid() && old(reader.position) <= reader.position
    ensures Parsable(doc.nodes) && IsItem(doc.nodes, p) && Chain(doc.nodes, p)
    ensures done ==> Run(doc.nodes, reader.position, out)
                     == OpenBlock(reader.data[..], old(doc.nodes), old(reader.position) - 1, p, st, once)
    ensures !done ==> ReadBlock(reader.data[..], doc.nodes, reader.position, p, next, once)
                      == OpenBlock(reader.data[..], old(doc.nodes), old(reader.position) - 1, p, st, once)
    decreases reader.length - reader.position, 3
  {
    ghost var before := doc.nodes;
    var child := doc.NewItem(Some(p), ChildName(st), 0, st.isEquals, false);
    assert doc.nodes == OnOpen(before, p, st);
    out := ReadObject(doc, reader, child, false);
    GrowsTrans(before, OnOpen(before, p, st), doc.nodes);
    next, done := AfterChild(st), true;
    if out.Thrown? {
      return;
    }
    out := Ok(());
    if once && Parent(doc.nodes[p]).None? {
      return;
    }
    done := false;
  }

  /** One turn of readObject's loop: read a character and act on it.  Either
    * the call ends (done) or the loop goes on with the pending state next. */
  method Turn(doc: Documents.Document, reader: CharArray, p: Id, st: Pending, once: bool)
    returns (next: Pending, done: bool, out: Outcome<()>)
    requires reader.Valid() && Parsable(doc.nodes) && IsItem(doc.nodes, p) && Chain(doc.nodes, p)
    modifies doc, reader
    ensures reader.Valid() && Parsable(doc.nodes) && IsItem(doc.nodes, p)
    ensures done ==> old(reader.position) <= reader.position && Run(doc.nodes, reader.position, out)
                     == ReadBlock(reader.data[..], old(doc.nodes), old(reader.position), p, st, once)
    ensures !done ==> old(reader.position) < reader.position && Chain(doc.nodes, p)
                      && ReadBlock(reader.data[..], doc.nodes, reader.position, p, next, once)
                         == ReadBlock(reader.data[..], old(doc.nodes), old(reader.position), p, st, once)
    decreases reader.length - reader.position, 1
  {
    next, done, out := st, true, Ok(());
    var letter := reader.Read();
    if letter < 0 {
      return;
    }
    var c := reader.data[reader.position - 1];
    if c == '\0' {
      return;
    }
    done := false;
    if c == '\n' {
      next := st.(nbNewLine := st.nbNewLine + 1);
    } else if c == ' ' || c == '\t' || c == '\r' {
    } else if c == '#' {
      reader.SkipTillNextIntended('#', true);
    } else if c == '"' {
      next, done, out := Quoted(doc, reader, p, st, once);
    } else if c == '=' {
      next := st.(isEquals := true);
    } else if c == '{' {
      next, done, out := Open(doc, reader, p, st, once);
    } else if c == '}' {
      out := Close(doc, p, st);
      done := true;
    } else {
      next := Bare(doc, reader, p, st, once, c);
    }
  }

  /** readObject(currentNode = p, reader, listeners, readOnlyOneObject = once). */
  method ReadObject(doc: Documents.Document, reader: CharArray, p: Id, once: bool) returns (out: Outcome<()>)
    requires reader.Valid() && Parsable(doc.nodes) && IsItem(doc.nodes, p) && Chain(doc.nodes, p)
    modifies doc, reader
    ensures reader.Valid() && Parsable(doc.nodes) && Grows(old(doc.nodes), doc.nodes)
    ensures Run(doc.nodes, reader.position, out)
         == ReadBlock(reader.data[..], old(doc.nodes), old(reader.position), p, Start, once)
    decreases reader.length - reader.position, 2
  {
    ghost var s := reader.data[..];
    ghost var nodes0 := doc.nodes;
    ghost var pos0 := reader.position;
    var st := Start;
    while true
      invariant reader.Valid() && reader.data[..] == s && pos0 <= reader.position
      invariant Parsable(doc.nodes) && IsItem(doc.nodes, p) && Chain(doc.nodes, p)
      invariant ReadBlock(s, doc.nodes, reader.position, p, st, once) == ReadBlock(s, nodes0, pos0, p, Start, once)
      decreases reader.length - reader.position
    {
      var done;
      st, done, out := Turn(doc, reader, p, st, once);
      if done {
        return;
      }
    }
  }

  /** Where skipLine, n times over, leaves a cursor at pos. */
  function SkippedTo(s: seq<char>, pos: nat, n: int): (r: nat)
    requires pos <= |s|
    ensures pos <= r <= |s|
    decreases if n < 0 then 0 else n
  {
    if n <= 0 then pos else SkippedTo(s, AfterLine(s, pos), n - 1)
  }

  /** for (int i = 1; i <= skip; i++) reader.skipLine(); */
  method SkipLines(reader: CharArray, skip: int)
    requires reader.Valid()
    modifies reader
    ensures reader.Valid() && reader.position == SkippedTo(reader.data[..], old(reader.position), skip)
  {
    ghost var s := reader.data[..];
    ghost var pos0 := reader.position;
    var i := 1;
    while i <= skip
      invariant reader.Valid() && reader.data[..] == s && 1 <= i
      invariant i <= skip + 1 || skip < 1
      invariant SkippedTo(s, reader.position, skip - i + 1) == SkippedTo(s, pos0, skip)
      decreases skip - i
    {
      reader.SkipLine();
      i := i + 1;
    }
  }

  /** The arena of a new document: the root alone. */
  lemma RootParsable()
    ensures Parsable(Construction.NewRoot([])) && IsItem(Construction.NewRoot([]), 0)
    ensures Chain(Construction.NewRoot([]), 0)
  {
    var n := ItemNode(DEFAULT_NAME, 0, None, true, false, Unallocated, Unallocated, Unallocated);
    Construction.ConstructSpec([], n, false);
    var r := Construction.NewRoot([]);
    assert r == [n];
    forall q: Id
      ensures Indexed(r, q, Children)
    {
      assert Get(r, q, Children) == Unallocated;
    }
  }

  /** parse(reader, skip, listeners): skip lines, then read everything into a
    * new root. */
  method Parse(reader: CharArray, skip: int) returns (doc: Documents.Document, out: Outcome<()>)
    requires reader.Valid()
    modifies reader
    ensures fresh(doc) && reader.Valid()
    ensures Parsable(Construction.NewRoot([])) && IsItem(Construction.NewRoot([]), 0) && Chain(Construction.NewRoot([]), 0)
      && Run(doc.nodes, reader.position, out)
         == ReadBlock(reader.data[..], Construction.NewRoot([]), SkippedTo(reader.data[..], old(reader.position), skip),
                      0, Start, false)
  {
    SkipLines(reader, skip);
    doc := new Documents.Document();
    RootParsable();
    out := ReadObject(doc, reader, 0, false);
  }

  // ---------------------------------------------------------------------
  // readSingleObject

  /** currentLine.trim().startsWith(objectName) for one of the names. */
  predicate StartsWithAny(line: string, names: seq<string>)
  {
    exists i :: 0 <= i < |names| && names[i] <= Trim(line)
  }

  /** The line starting at pos is the start of a requested object. */
  predicate LineMatches(s: seq<char>, pos: nat, names: seq<string>)
    requires pos <= |s|
  {
    StartsWithAny(s[pos..LineEnd(s, pos)], names)
  }

  datatype Seek = Found(at: nat) | Continue(next: nat)

  /** One turn of the search loop of readSingleObject as written: readLine,
    * then either back to the start of the matching line, or on to the next
    * line.  readLine never returns null, so there is no other way out. */
  function SeekStep(s: seq<char>, pos: nat, names: seq<string>): (r: Seek)
    requires pos <= |s|
  {
    if LineMatches(s, pos, names) then Found(pos) else Continue(AfterLine(s, pos))
  }

  /** As written, once the input is exhausted readLine returns "" and the
    * cursor stays at the end: with no empty name among objectNames, the turn
    * leads back to the same state, and the search never ends. */
  lemma SeekStuckAtEnd(s: seq<char>, names: seq<string>)
    requires forall i :: 0 <= i < |names| ==> names[i] != []
    ensures SeekStep(s, |s|, names) == Continue(|s|)
  {
    assert s[|s|..LineEnd(s, |s|)] == [];
    assert Trim([]) == [];
  }

  /** The search as evidently intended: the first line start at or after pos
    * that matches, or None once the input is exhausted (where readLine is
    * meant to return null). */
  function SeekLine(s: seq<char>, pos: nat, names: seq<string>): (r: Option<nat>)
    requires pos <= |s|
    ensures r.Some? ==> pos <= r.value < |s| && LineMatches(s, r.value, names)
    decreases |s| - pos
  {
    if pos == |s| then None
    else if LineMatches(s, pos, names) then Some(pos)
    else SeekLine(s, AfterLine(s, pos), names)
  }

  /** Before the end, the intended search takes exactly the written turns. */
  lemma SeekLineFollowsSteps(s: seq<char>, pos: nat, names: seq<string>)
    requires pos < |s|
    ensures SeekLine(s, pos, names) == match SeekStep(s, pos, names)
      case Found(at) => Some(at)
      case Continue(next) => SeekLine(s, next, names)
  {
  }

  /** readSingleObject(reader, skip, root, objectNames), with the search
    * stopping at the end of the input. */
  method ReadSingleObject(doc: Documents.Document, reader: CharArray, skip: int, root: Id, names: seq<string>)
    returns (out: Outcome<()>)
    requires reader.Valid() && Parsable(doc.nodes) && IsItem(doc.nodes, root) && Chain(doc.nodes, root)
    modifies doc, reader
    ensures reader.Valid()
    ensures var s := reader.data[..];
      match SeekLine(s, SkippedTo(s, old(reader.position), skip), names)
      case None => doc.nodes == old(doc.nodes) && out == Ok(()) && reader.position == |s|
      case Some(at) => Run(doc.nodes, reader.position, out) == ReadBlock(s, old(doc.nodes), at, root, Start, true)
  {
    SkipLines(reader, skip);
    ghost var s := reader.data[..];
    ghost var from := reader.position;
    while true
      invariant reader.Valid() && reader.data[..] == s && doc.nodes == old(doc.nodes)
      invariant SeekLine(s, reader.position, names) == SeekLine(s, from, names)
      decreases reader.length - reader.position
    {
      if reader.Available() == 0 {
        return Ok(());
      }
      var position := reader.position;
      var line := reader.ReadLine();
      if StartsWithAny(line, names) {
        reader.SetPosition(position);
        break;
      }
    }
    out := ReadObject(doc, reader, root, true);
  }
}
