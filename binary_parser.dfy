/**
 * The binary reader of ClausewitzParser: convertBinary, which reads a save
 * written as a stream of two-byte little-endian token ids, each value token
 * followed by its payload, and builds the same object tree the text parser
 * builds.  The characters of the CharArray stand for bytes: every read keeps
 * the low eight bits of the character, and a read past the end gives -1,
 * whose low eight bits are all ones.
 *
 * The readers of the payloads and the loop over the tokens are functions over
 * the input (Decode and its branches); the methods run the same loop on a
 * Document and a CharArray and are proved to compute them.
 */
module BinaryParsing {
  import opened Wrappers
  import opened Tree
  import opened Items
  import opened Variables
  import opened Cursor
  import opened LittleEndian
  import opened BinaryTokens
  import Chars
  import Numbers
  import Lookups
  import Removal
  import Construction
  import ValueLists
  import Documents
  import TextParsing

  // ---------------------------------------------------------------------
  // Reading bytes

  /** reader.read() at pos: the character, or -1 at the end. */
  function CharRead(s: seq<char>, pos: nat): (r: int)
    ensures -1 <= r
  {
    if pos < |s| then s[pos] as int else -1
  }

  /** Where n reads from pos leave the cursor: a read at the end stays put. */
  function After(s: seq<char>, pos: nat, n: nat): (r: nat)
    requires pos <= |s|
    ensures pos <= r <= |s|
  {
    if pos + n <= |s| then pos + n else |s|
  }

  /** (byte) reader.read() & 0xFF, n times from pos. */
  function BytesAt(s: seq<char>, pos: nat, n: nat): (b: seq<Byte>)
    requires pos <= |s|
    ensures |b| == n
    decreases n
  {
    if n == 0 then [] else [ByteOfRead(CharRead(s, pos))] + BytesAt(s, After(s, pos, 1), n - 1)
  }

  /** readToken: null when both bytes read are (byte) -1, otherwise the
    * short they make. */
  function TokenAt(s: seq<char>, pos: nat): (r: Option<int>)
    requires pos <= |s|
    ensures r.Some? ==> pos < |s| && -0x8000 <= r.value < 0x8000
  {
    var b := BytesAt(s, pos, 2);
    if b[0] == 0xFF && b[1] == 0xFF then None else Some(ShortLittle(b[0], b[1]))
  }

  /** A payload read: the text it stands for, or what reading it threw, and
    * where the cursor ends. */
  datatype Chunk = Chunk(text: Outcome<string>, pos: nat)

  /** How many of n characters a read into a char[n] copies from pos. */
  function Copied(s: seq<char>, pos: nat, n: nat): (r: nat)
    requires pos <= |s|
    ensures r <= n && pos + r <= |s|
  {
    if n <= |s| - pos then n else |s| - pos
  }

  /** new char[n] after reader.read(it): the characters copied, then the
    * array's initial '\0'. */
  function Filled(s: seq<char>, pos: nat, n: nat): (r: string)
    requires pos <= |s|
    ensures |r| == n
  {
    s[pos..pos + Copied(s, pos, n)] + Zeros(n - Copied(s, pos, n))
  }

  /** readBinaryString: a short length, then a char array of that length
    * filled from the input; a negative length throws. */
  function StringAt(s: seq<char>, pos: nat): (r: Chunk)
    requires pos <= |s|
    ensures pos <= r.pos <= |s|
  {
    var b := BytesAt(s, pos, 2);
    var len := ShortLittle(b[0], b[1]);
    var from := After(s, pos, 2);
    if len < 0 then Chunk(Thrown(NegativeArraySize), from)
    else Chunk(Ok(Filled(s, from, len)), from + Copied(s, from, len))
  }

  /** The parameters of one convertBinary call: the map of known token ids to
    * names, the objectNames to stop at (null as None), and the decimal
    * printing of the scaled float and double payloads, which is Java's
    * floating-point formatting and stays a parameter. */
  datatype Env = Env(tokens: map<int, string>, names: Option<seq<string>>,
                     floatText: int -> string, doubleText: int -> string)

  /** objectNames != null && objectNames.contains(name) */
  predicate Named(env: Env, name: string)
  {
    env.names.Some? && name in env.names.value
  }

  /** The tokens whose payload is a value pushed on the pending strings. */
  predicate IsValue(b: BinaryToken)
  {
    !(b.Equals? || b.Open? || b.End?)
  }

  /** The string the switch of convertBinary pushes for a value token b whose
    * payload starts at pos. */
  function ValueAt(s: seq<char>, pos: nat, b: BinaryToken, env: Env): (r: Chunk)
    requires pos <= |s| && IsValue(b)
    ensures pos <= r.pos <= |s|
  {
    match b
    case QuotedString =>
      var c := StringAt(s, pos);
      Chunk(if c.text.Ok? then Ok("\"" + Chars.Trim(c.text.value) + "\"") else c.text, c.pos)
    case NotQuotedString =>
      var c := StringAt(s, pos);
      Chunk(if c.text.Ok? then Ok(Chars.Trim(c.text.value)) else c.text, c.pos)
    case UnsignedInt => Chunk(Ok(Numbers.NatToString(Unsigned(BytesAt(s, pos, 4)))), After(s, pos, 4))
    case UnsignedLong => Chunk(Ok(Numbers.NatToString(Unsigned(BytesAt(s, pos, 8)))), After(s, pos, 8))
    case Int => Chunk(Ok(Numbers.IntToString(IntLittle(BytesAt(s, pos, 4)))), After(s, pos, 4))
    case Float => Chunk(Ok(env.floatText(IntLittle(BytesAt(s, pos, 4)))), After(s, pos, 4))
    case Double => Chunk(Ok(env.doubleText(IntLittle(BytesAt(s, pos, 4)))), After(s, After(s, pos, 4), 4))
    case Bool => Chunk(Ok(if CharRead(s, pos) == 0 then "yes" else "no"), After(s, pos, 1))
    case Color => Chunk(Ok(Filled(s, pos, 22)), pos + Copied(s, pos, 22))
  }

  /** new String(bytes, charset) for a single-byte charset that maps every
    * byte to the character of the same code (ISO-8859-1). */
  function Latin1(b: seq<Byte>): (r: string)
    ensures |r| == |b| && forall i :: 0 <= i < |b| ==> r[i] as int == b[i]
  {
    if b == [] then [] else [b[0] as char] + Latin1(b[1..])
  }

  /** The text of a token id BinaryToken does not know: its name in tokens,
    * or its two bytes decoded. */
  function TokenText(tokens: map<int, string>, t: int): string
  {
    if t in tokens then tokens[t] else Latin1(TokenToBytes(t))
  }

  // ---------------------------------------------------------------------
  // What the loop keeps true

  /** The locals of convertBinary: currentNode (null as None), the strings
    * read since the last value and whether an EQUALS was read. */
  datatype Machine = Machine(cur: Option<Id>, strings: seq<string>, isEquals: bool)

  /** The arena is parsable and currentNode, when there is one, an Item
    * that is an open block (see TextParsing.Chain): the last child of its
    * parent, at its highest order, and so on up to the root. */
  ghost predicate Ready(nodes: seq<Node>, m: Machine)
  {
    TextParsing.Parsable(nodes) && (m.cur.Some? ==> IsItem(nodes, m.cur.value) && TextParsing.Chain(nodes, m.cur.value))
  }

  /** Every parent is an Item. */
  lemma ParentIsItem(nodes: seq<Node>, i: Id)
    requires WF(nodes) && i < |nodes| && Parent(nodes[i]).Some?
    ensures IsItem(nodes, Parent(nodes[i]).value)
  {
    assert NodeWF(nodes, i);
  }

  /** addChild(name, hasEquals) keeps the parser's invariant. */
  lemma AddChildKeeps(nodes: seq<Node>, p: Id, name: string, hasEquals: bool)
    requires TextParsing.Parsable(nodes) && IsItem(nodes, p)
    ensures var r := Construction.AddChildNamed(nodes, p, name, hasEquals);
      TextParsing.Parsable(r) && TextParsing.Grows(nodes, r) && IsItem(r, |nodes|)
    ensures TextParsing.Chain(nodes, p) ==> TextParsing.Chain(Construction.AddChildNamed(nodes, p, name, hasEquals), |nodes|)
  {
    TextParsing.NewItemKeeps(nodes, p, name, NbObjects(nodes, p), hasEquals);
  }

  // ---------------------------------------------------------------------
  // END: the block becomes a list when strings are pending

  /** The conversion of END on currentNode c, the same three ways as '}' of
    * the text parser, with sameLine meaning more than one string: c is
    * replaced by a list when its parent's last child of its name is empty,
    * that child gets an anonymous list without brackets when it has objects,
    * and the parent gets a list of the name when it has no such child.  The
    * result is the object currentNode then denotes. */
  function CloseList(nodes: seq<Node>, c: Id, strings: seq<string>): (e: Removal.Effect<Id>)
    requires TextParsing.Parsable(nodes) && IsItem(nodes, c)
    ensures TextParsing.Parsable(e.nodes) && TextParsing.Grows(nodes, e.nodes)
    ensures e.out.Ok? ==> e.out.value < |e.nodes| && Parent(e.nodes[e.out.value]) == Parent(nodes[c])
    ensures TextParsing.Chain(nodes, c) && Parent(nodes[c]).Some? ==> TextParsing.Chain(e.nodes, Parent(nodes[c]).value)
  {
    if strings == [] then Removal.Effect(nodes, Ok(c))
    else match Parent(nodes[c])
      case None => Removal.Effect(nodes, Thrown(NullPointer))
      case Some(g) =>
        assert NodeWF(nodes, c);
        var name := nodes[c].name;
        match Lookups.LastNamed(nodes, g, Children, name)
        case Thrown(ex) => Removal.Effect(nodes, Thrown(ex))
        case Ok(None) =>
          TextParsing.AddListKeeps(nodes, g, name, NbObjects(nodes, g), |strings| > 1, true, strings);
          TextParsing.ChainKept(nodes, Construction.AddList(nodes, g, name, NbObjects(nodes, g), |strings| > 1, true, false, strings), g);
          Removal.Effect(Construction.AddList(nodes, g, name, NbObjects(nodes, g), |strings| > 1, true, false, strings),
                         Ok(|nodes|))
        case Ok(Some(q)) =>
          TextParsing.FoundChild(nodes, g, name);
          TextParsing.FoundIsChild(nodes, g, name);
          if AllOrdered(nodes, q) == [] then
            TextParsing.ChangeChildToListKeeps(nodes, g, Ord(nodes, q), name, |strings| > 1, strings);
            TextParsing.ChangeChildToListParent(nodes, g, Ord(nodes, q), name, |strings| > 1, strings);
            TextParsing.ChainKept(nodes, Construction.ChangeChildToList(nodes, g, Ord(nodes, q), name, |strings| > 1, strings).nodes, g);
            Construction.ChangeChildToList(nodes, g, Ord(nodes, q), name, |strings| > 1, strings)
          else
            TextParsing.AddListKeeps(nodes, q, "", NbObjects(nodes, q), |strings| > 1, false, strings);
            TextParsing.ChainAbove(nodes, Construction.AddList(nodes, q, "", NbObjects(nodes, q), |strings| > 1, false, false, strings), g, q);
            Removal.Effect(Construction.AddList(nodes, q, "", NbObjects(nodes, q), |strings| > 1, false, false, strings),
                           Ok(c))
  }

  // ---------------------------------------------------------------------
  // convertBinary over a whole input

  /** Where convertBinary ends: the objects, the cursor, and what it returned
    * (a null return as None) or threw. */
  datatype Conversion = Conversion(nodes: seq<Node>, pos: nat, out: Outcome<Option<Id>>)

  /** The end of the stream: currentNode's root is returned. */
  function Finish(nodes: seq<Node>, cur: Option<Id>): (r: Outcome<Option<Id>>)
    requires WF(nodes) && (cur.Some? ==> cur.value < |nodes|)
  {
    match cur
    case None => Thrown(NullPointer)
    case Some(c) => Ok(Some(Construction.GetRoot(nodes, c)))
  }

  /** The loop of convertBinary from the token at pos, with the locals m. */
  function Decode(s: seq<char>, nodes: seq<Node>, pos: nat, m: Machine, env: Env): (r: Conversion)
    requires pos <= |s| && Ready(nodes, m)
    ensures pos <= r.pos <= |s| && TextParsing.Parsable(r.nodes) && TextParsing.Grows(nodes, r.nodes)
    decreases |s| - pos, 1
  {
    var next := After(s, pos, 2);
    match TokenAt(s, pos)
    case None => Conversion(nodes, next, Finish(nodes, m.cur))
    case Some(t) =>
      match OfToken(t)
      case None => Value(s, nodes, next, m.(strings := m.strings + [TokenText(env.tokens, t)]), env)
      case Some(b) =>
        if b.Equals? then Decode(s, nodes, next, m.(isEquals := true), env)
        else if b.Open? then OpenAt(s, nodes, next, m, env)
        else if b.End? then EndAt(s, nodes, next, m, env)
        else
          var c := ValueAt(s, next, b, env);
          match c.text
          case Thrown(ex) => Conversion(nodes, c.pos, Thrown(ex))
          case Ok(text) => Value(s, nodes, c.pos, m.(strings := m.strings + [text]), env)
  }

  /** The test after a value: with an EQUALS pending, the first string names a
    * variable whose value is the second, and the variable getVar(key) then
    * finds is returned when key is one of objectNames. */
  function Value(s: seq<char>, nodes: seq<Node>, pos: nat, m: Machine, env: Env): (r: Conversion)
    requires pos <= |s| && Ready(nodes, m) && m.strings != []
    ensures pos <= r.pos <= |s| && TextParsing.Parsable(r.nodes) && TextParsing.Grows(nodes, r.nodes)
    decreases |s| - pos, 2
  {
    if !m.isEquals then Decode(s, nodes, pos, m, env)
    else if |m.strings| < 2 then Conversion(nodes, pos, Thrown(IndexOutOfBounds))
    else if m.cur.None? then Conversion(nodes, pos, Thrown(NullPointer))
    else
      var p, key := m.cur.value, m.strings[0];
      TextParsing.AddVariableKeeps(nodes, p, key, m.strings[1]);
      var added := Construction.AddVariable(nodes, p, key, Text(m.strings[1]));
      if Named(env, key) then Conversion(added, pos, Lookups.FirstNamed(added, p, Variables, key))
      else Decode(s, added, pos, Machine(m.cur, [], false), env)
  }

  /** OPEN: a child of currentNode named after the last string ("" without
    * one), which is popped, becomes currentNode. */
  function OpenAt(s: seq<char>, nodes: seq<Node>, pos: nat, m: Machine, env: Env): (r: Conversion)
    requires pos <= |s| && Ready(nodes, m)
    ensures pos <= r.pos <= |s| && TextParsing.Parsable(r.nodes) && TextParsing.Grows(nodes, r.nodes)
    decreases |s| - pos, 2
  {
    match m.cur
    case None => Conversion(nodes, pos, Thrown(NullPointer))
    case Some(p) =>
      var name := if m.strings == [] then "" else m.strings[|m.strings| - 1];
      AddChildKeeps(nodes, p, name, m.isEquals);
      var made := Construction.AddChildNamed(nodes, p, name, m.isEquals);
      var rest := if m.strings == [] then [] else m.strings[..|m.strings| - 1];
      Decode(s, made, pos, Machine(Some(|nodes|), rest, false), env)
  }

  /** END: the conversion, then currentNode is returned when its name is one
    * of objectNames, and otherwise its parent becomes currentNode. */
  function EndAt(s: seq<char>, nodes: seq<Node>, pos: nat, m: Machine, env: Env): (r: Conversion)
    requires pos <= |s| && Ready(nodes, m)
    ensures pos <= r.pos <= |s| && TextParsing.Parsable(r.nodes) && TextParsing.Grows(nodes, r.nodes)
    decreases |s| - pos, 2
  {
    match m.cur
    case None => Conversion(nodes, pos, Thrown(NullPointer))
    case Some(p) =>
      var e := CloseList(nodes, p, m.strings);
      match e.out
      case Thrown(ex) => Conversion(e.nodes, pos, Thrown(ex))
      case Ok(c) =>
        if Named(env, NameOf(e.nodes, c)) then Conversion(e.nodes, pos, Ok(Some(c)))
        else
          var up := Parent(e.nodes[c]);
          assert up.Some? ==> IsItem(e.nodes, up.value) by {
            if up.Some? {
              ParentIsItem(e.nodes, c);
            }
          }
          Decode(s, e.nodes, pos, Machine(up, [], false), env)
  }

  // ---------------------------------------------------------------------
  // What the readers and each token do

  /** readToken and tokenToBytes: a token read gives back, split by
    * tokenToBytes, the two bytes it was read from; the stream ends exactly
    * when both bytes read are 0xFF, and always at the end of the input. */
  lemma TokenBytes(s: seq<char>, pos: nat)
    requires pos <= |s|
    ensures TokenAt(s, pos).Some? ==> TokenToBytes(TokenAt(s, pos).value) == BytesAt(s, pos, 2)
    ensures TokenAt(s, pos).None? <==> BytesAt(s, pos, 2) == [0xFF, 0xFF]
    ensures pos == |s| ==> TokenAt(s, pos).None?
  {
    var b := BytesAt(s, pos, 2);
    TokenToBytesOfShortLittle(b[0], b[1]);
  }

  /** The text of an unknown token with no name in tokens: its two
    * characters are the token's bytes, low byte first, so reading them back
    * as a token gives the same id. */
  lemma UnknownTokenText(tokens: map<int, string>, t: int)
    requires -0x8000 <= t < 0x8000 && t !in tokens
    ensures var r := TokenText(tokens, t);
      |r| == 2 && 0 <= r[0] as int < 256 && 0 <= r[1] as int < 256
      && ShortLittle(r[0] as int, r[1] as int) == t
  {
    ShortLittleOfTokenToBytes(t);
  }

  /** readBinaryString: a negative length throws; otherwise the string has
    * exactly that length, starts with the characters after the length that
    * the input still has, and is '\0' after them. */
  lemma StringPayload(s: seq<char>, pos: nat)
    requires pos <= |s|
    ensures var b := BytesAt(s, pos, 2); var len := ShortLittle(b[0], b[1]); var from := After(s, pos, 2);
      var r := StringAt(s, pos);
      (len < 0 <==> r.text == Thrown(NegativeArraySize))
      && (len >= 0 ==> r.text.Ok? && |r.text.value| == len
                       && r.pos == from + Copied(s, from, len)
                       && r.text.value[..r.pos - from] == s[from..r.pos]
                       && forall i :: r.pos - from <= i < len ==> r.text.value[i] == '\0')
  {
  }

  /** BOOL: "yes" exactly when the character read is 0, and "no" otherwise,
    * the end of the input included. */
  lemma BoolText(s: seq<char>, pos: nat, env: Env)
    requires pos <= |s|
    ensures var r := ValueAt(s, pos, Bool, env);
      (r.text == Ok("yes") <==> pos < |s| && s[pos] == '\0')
      && (r.text == Ok("yes") || r.text == Ok("no"))
  {
  }

  /** UNSIGNED_INT and UNSIGNED_LONG: the decimal text of the int or long
    * read, its bits taken as unsigned (Integer.toUnsignedLong,
    * Long.toUnsignedString). */
  lemma UnsignedText(s: seq<char>, pos: nat, env: Env)
    requires pos <= |s|
    ensures ValueAt(s, pos, UnsignedInt, env).text
            == Ok(Numbers.NatToString(IntLittle(BytesAt(s, pos, 4)) % 0x1_0000_0000))
    ensures ValueAt(s, pos, UnsignedLong, env).text
            == Ok(Numbers.NatToString(LongLittle(BytesAt(s, pos, 8)) % 0x1_0000_0000_0000_0000))
  {
    IntLittleUnsigned(BytesAt(s, pos, 4));
    LongLittleUnsigned(BytesAt(s, pos, 8));
  }

  /** The end of the stream: the root of currentNode, an ancestor without a
    * parent, is returned, and a null currentNode throws. */
  lemma StreamEnd(s: seq<char>, nodes: seq<Node>, pos: nat, m: Machine, env: Env)
    requires pos <= |s| && Ready(nodes, m) && TokenAt(s, pos).None?
    ensures var r := Decode(s, nodes, pos, m, env);
      r.nodes == nodes && r.pos == After(s, pos, 2)
      && (m.cur.None? ==> r.out == Thrown(NullPointer))
      && (m.cur.Some? ==> r.out.Ok? && r.out.value.Some?
                          && Parent(nodes[r.out.value.value]).None?
                          && Construction.IsAncestor(nodes, r.out.value.value, m.cur.value))
  {
    if m.cur.Some? {
      Construction.GetRootSpec(nodes, m.cur.value);
    }
  }

  /** A value after EQUALS with a name pending: a variable named by the
    * first string with the second as its value is added to currentNode at
    * order getNbObjects(), nothing stays pending, and when the name is one
    * of objectNames the variable returned is the first of that name
    * (getVar), which is the new one when there was none before. */
  lemma ValueAddsVariable(s: seq<char>, nodes: seq<Node>, pos: nat, m: Machine, env: Env, p: Id)
    requires pos <= |s| && Ready(nodes, m) && m.isEquals && |m.strings| >= 2 && m.cur == Some(p)
    ensures var key := m.strings[0]; var x := |nodes|;
      var added := Construction.AddVariable(nodes, p, key, Text(m.strings[1]));
      added[x] == VariableNode(key, NbObjects(nodes, p), m.strings[1])
      && Entries(added, p, Variables) == Entries(nodes, p, Variables) + [x]
      && (Named(env, key) ==>
            Value(s, nodes, pos, m, env)
            == Conversion(added, pos, Ok(Some((Lookups.AllNamed(nodes, p, Variables, key) + [x])[0]))))
      && Ready(added, Machine(m.cur, [], false))
      && (!Named(env, key) ==>
            Value(s, nodes, pos, m, env) == Decode(s, added, pos, Machine(m.cur, [], false), env))
  {
    var key := m.strings[0];
    TextParsing.NewVariable(nodes, p, key, m.strings[1]);
    TextParsing.AddVariableKeeps(nodes, p, key, m.strings[1]);
    Construction.AddVariableAtSpec(nodes, p, key, Text(m.strings[1]), NbObjects(nodes, p), false);
  }

  /** A value after EQUALS with only one string read: strings.get(1) throws
    * before anything is added. */
  lemma ValueWithoutName(s: seq<char>, nodes: seq<Node>, pos: nat, m: Machine, env: Env)
    requires pos <= |s| && Ready(nodes, m) && m.isEquals && |m.strings| == 1
    ensures Value(s, nodes, pos, m, env) == Conversion(nodes, pos, Thrown(IndexOutOfBounds))
  {
  }

  /** OPEN: the new child is the next object, an empty Item named after the
    * last string ("" without one) with the pending EQUALS as hasEquals, at
    * order getNbObjects(); it is the last child of currentNode and the one
    * getLastChild(name) finds; it becomes currentNode, the name is popped
    * and no other order moves. */
  lemma OpenAddsChild(s: seq<char>, nodes: seq<Node>, pos: nat, m: Machine, env: Env, p: Id)
    requires pos <= |s| && Ready(nodes, m) && m.cur == Some(p)
    ensures var name := if m.strings == [] then "" else m.strings[|m.strings| - 1];
      var made := Construction.AddChildNamed(nodes, p, name, m.isEquals); var x := |nodes|;
      made[x] == ItemNode(name, NbObjects(nodes, p), Some(p), m.isEquals, false, Unallocated, Unallocated, Unallocated)
      && Entries(made, p, Children) == Entries(nodes, p, Children) + [x]
      && Lookups.LastNamed(made, p, Children, name) == Ok(Some(x))
      && (forall i :: 0 <= i < x ==> Ord(made, i) == Ord(nodes, i))
      && Ready(made, Machine(Some(x), [], false))
      && OpenAt(s, nodes, pos, m, env)
         == Decode(s, made, pos, Machine(Some(x), if m.strings == [] then [] else m.strings[..|m.strings| - 1], false), env)
  {
    var name := if m.strings == [] then "" else m.strings[|m.strings| - 1];
    var n := ItemNode(name, NbObjects(nodes, p), Some(p), m.isEquals, false, Unallocated, Unallocated, Unallocated);
    var x := |nodes|;
    var grown := nodes + [n];
    AddChildKeeps(nodes, p, name, m.isEquals);
    Construction.ConstructSpec(nodes, n, false);
    Construction.AppendKeeps(nodes, n);
    Construction.AddBucket(grown, p, Children, x, false);
    assert Lookups.AllNamed(grown, p, Children, name) == Lookups.AllNamed(nodes, p, Children, name);
  }

  /** END with nothing pending: currentNode is returned when its name is one
    * of objectNames; otherwise its parent (null above the root) becomes
    * currentNode, and nothing is pending. */
  lemma EndMovesUp(s: seq<char>, nodes: seq<Node>, pos: nat, m: Machine, env: Env, p: Id)
    requires pos <= |s| && Ready(nodes, m) && m.cur == Some(p) && m.strings == []
    ensures Named(env, nodes[p].name) ==> EndAt(s, nodes, pos, m, env) == Conversion(nodes, pos, Ok(Some(p)))
    ensures !Named(env, nodes[p].name) ==>
              Ready(nodes, Machine(Parent(nodes[p]), [], false))
              && EndAt(s, nodes, pos, m, env) == Decode(s, nodes, pos, Machine(Parent(nodes[p]), [], false), env)
  {
    if Parent(nodes[p]).Some? {
      ParentIsItem(nodes, p);
    }
  }

  /** END with strings pending at the root: getParent() is null, and the
    * call throws before changing anything. */
  lemma EndAtRootThrows(nodes: seq<Node>, c: Id, strings: seq<string>)
    requires TextParsing.Parsable(nodes) && IsItem(nodes, c) && strings != [] && nodes[c].parent.None?
    ensures CloseList(nodes, c, strings) == Removal.Effect(nodes, Thrown(NullPointer))
  {
  }

  /** END with strings pending, when the block's parent has no child of the
    * block's name: the parent gets a list of that name, with brackets, at
    * order getNbObjects(), holding what addAll keeps of the strings, on one
    * line when there is more than one string; the list is the parent's last
    * list, the one getLastList(name) finds, and becomes currentNode.  The
    * loop never takes this branch: currentNode is an open block, the last
    * child of its name. */
  lemma EndNewList(nodes: seq<Node>, c: Id, strings: seq<string>, g: Id)
    requires TextParsing.Parsable(nodes) && IsItem(nodes, c) && strings != [] && nodes[c].parent == Some(g)
    requires Lookups.LastNamed(nodes, g, Children, nodes[c].name) == Ok(None)
    ensures var e := CloseList(nodes, c, strings); e.out == Ok(|nodes|) && |e.nodes| == |nodes| + 1
    ensures var e := CloseList(nodes, c, strings); var x := |nodes|; var l := e.nodes[x];
      l.ListNode?
      && l.name == nodes[c].name && l.parent == Some(g) && l.hasBrackets
      && l.values == ValueLists.Normalized(strings) && l.sameLine == (|strings| > 1)
      && Ord(e.nodes, x) == NbObjects(nodes, g)
      && Entries(e.nodes, g, Lists) == Entries(nodes, g, Lists) + [x]
      && Lookups.LastNamed(e.nodes, g, Lists, nodes[c].name) == Ok(Some(x))
    ensures !TextParsing.Chain(nodes, c)
  {
    if TextParsing.Chain(nodes, c) {
      TextParsing.LastChildIsBlock(nodes, c);
    }
    assert NodeWF(nodes, c);
    Construction.AddListSpec(nodes, g, nodes[c].name, NbObjects(nodes, g), |strings| > 1, true, false, strings);
  }

  /** END with strings pending, when the child getLastChild(name) of the
    * parent finds has objects: that child gets an anonymous list without
    * brackets at its order getNbObjects(), holding what addAll keeps of the
    * strings, on one line when there is more than one string; currentNode
    * stays, and no other order moves.  When currentNode is an open block,
    * that child is currentNode itself. */
  lemma EndAnonymous(nodes: seq<Node>, c: Id, strings: seq<string>, g: Id, q: Id)
    requires TextParsing.Parsable(nodes) && IsItem(nodes, c) && strings != [] && nodes[c].parent == Some(g)
    requires Lookups.LastNamed(nodes, g, Children, nodes[c].name) == Ok(Some(q)) && AllOrdered(nodes, q) != []
    ensures var e := CloseList(nodes, c, strings); e.out == Ok(c) && |e.nodes| == |nodes| + 1
    ensures TextParsing.Chain(nodes, c) ==> q == c
    ensures var e := CloseList(nodes, c, strings); var x := |nodes|; var l := e.nodes[x];
      l.ListNode?
      && l.name == "" && l.parent == Some(q) && !l.hasBrackets
      && l.values == ValueLists.Normalized(strings) && l.sameLine == (|strings| > 1)
      && Ord(e.nodes, x) == NbObjects(nodes, q)
      && Entries(e.nodes, q, Lists) == Entries(nodes, q, Lists) + [x]
      && forall i :: 0 <= i < x ==> Ord(e.nodes, i) == Ord(nodes, i)
  {
    assert NodeWF(nodes, c);
    TextParsing.FoundChild(nodes, g, nodes[c].name);
    TextParsing.AnonymousList(nodes, q, |strings| > 1, strings);
    if TextParsing.Chain(nodes, c) {
      TextParsing.LastChildIsBlock(nodes, c);
    }
  }

  /** END with strings pending, when the child getLastChild(name) of the
    * parent finds is empty (the block just closed, as a rule): that child
    * becomes a list of the same name and order, with brackets, holding what
    * addAll keeps of the strings, on one line when there is more than one
    * string; the list becomes currentNode, the child leaves the parent's
    * children, the list joins its lists, which stay sorted by order, and no
    * other order moves.  When currentNode is an open block, the child is
    * currentNode itself, at the parent's highest order, and the written
    * changeChildToList, whose addList(list, false) writes getNbObjects() over
    * that order, gives the same result. */
  lemma EndEmptyToList(nodes: seq<Node>, c: Id, strings: seq<string>, g: Id, q: Id)
    requires TextParsing.Parsable(nodes) && IsItem(nodes, c) && strings != [] && nodes[c].parent == Some(g)
    requires Lookups.LastNamed(nodes, g, Children, nodes[c].name) == Ok(Some(q)) && AllOrdered(nodes, q) == []
    requires Removal.UniqueOrders(nodes, g)
    ensures var e := CloseList(nodes, c, strings); e.out == Ok(|nodes|) && |e.nodes| == |nodes| + 1
    ensures TextParsing.Chain(nodes, c) ==>
      q == c
      && CloseList(nodes, c, strings)
         == Construction.ChangeChildToListAsWritten(nodes, g, Ord(nodes, q), nodes[c].name, |strings| > 1, strings)
    ensures var e := CloseList(nodes, c, strings); var x := |nodes|; var l := e.nodes[x];
      l.ListNode?
      && l.name == nodes[c].name && l.hasBrackets
      && l.values == ValueLists.Normalized(strings) && l.sameLine == (|strings| > 1)
      && Ord(e.nodes, x) == Ord(nodes, q)
      && q !in Entries(e.nodes, g, Children) && x in Entries(e.nodes, g, Lists)
      && SortedByOrder(e.nodes, Entries(e.nodes, g, Lists))
      && forall i :: 0 <= i < x ==> Ord(e.nodes, i) == Ord(nodes, i)
  {
    assert NodeWF(nodes, c);
    TextParsing.FoundChild(nodes, g, nodes[c].name);
    TextParsing.ListFromChild(nodes, g, Ord(nodes, q), nodes[c].name, |strings| > 1, strings);
    var e := CloseList(nodes, c, strings);
    assert q !in Entries(e.nodes, g, Children);
    if TextParsing.Chain(nodes, c) {
      TextParsing.LastChildIsBlock(nodes, c);
      TextParsing.FoundIsChild(nodes, g, nodes[c].name);
      Construction.ChangeChildToListAtTop(nodes, g, Ord(nodes, q), nodes[c].name, |strings| > 1, strings);
    }
  }

  // ---------------------------------------------------------------------
  // The readers on a CharArray

  /** (byte) reader.read(), as the unsigned value b & 0xFF. */
  method ReadByte(reader: CharArray, ghost s: seq<char>) returns (b: Byte)
    requires reader.Valid() && reader.data[..] == s
    modifies reader
    ensures reader.Valid() && reader.position == After(s, old(reader.position), 1)
    ensures b == ByteOfRead(CharRead(s, old(reader.position)))
  {
    var r := reader.Read();
    b := ByteOfRead(r);
  }

  /** readToken */
  method ReadToken(reader: CharArray, ghost s: seq<char>) returns (token: Option<int>)
    requires reader.Valid() && reader.data[..] == s
    modifies reader
    ensures reader.Valid() && reader.position == After(s, old(reader.position), 2)
    ensures token == TokenAt(s, old(reader.position))
  {
    var first := ReadByte(reader, s);
    var second := ReadByte(reader, s);
    if first == 0xFF && second == 0xFF {
      return None;
    }
    return Some(ShortLittle(first, second));
  }

  /** readShortLittle */
  method ReadShortLittle(reader: CharArray, ghost s: seq<char>) returns (x: int)
    requires reader.Valid() && reader.data[..] == s
    modifies reader
    ensures reader.Valid() && reader.position == After(s, old(reader.position), 2)
    ensures var b := BytesAt(s, old(reader.position), 2); x == ShortLittle(b[0], b[1])
  {
    var first := ReadByte(reader, s);
    var second := ReadByte(reader, s);
    x := ShortLittle(first, second);
  }

  /** readIntLittle */
  method ReadIntLittle(reader: CharArray, ghost s: seq<char>) returns (x: int)
    requires reader.Valid() && reader.data[..] == s
    modifies reader
    ensures reader.Valid() && reader.position == After(s, old(reader.position), 4)
    ensures x == IntLittle(BytesAt(s, old(reader.position), 4))
  {
    var b := ReadFour(reader, s);
    x := IntLittle(b);
  }

  /** Four successive reader.read() & 0xFF. */
  method ReadFour(reader: CharArray, ghost s: seq<char>) returns (b: seq<Byte>)
    requires reader.Valid() && reader.data[..] == s
    modifies reader
    ensures reader.Valid() && reader.data[..] == s && reader.position == After(s, old(reader.position), 4)
    ensures b == BytesAt(s, old(reader.position), 4)
  {
    ghost var p0 := reader.position;
    var first := ReadByte(reader, s);
    ghost var p1 := reader.position;
    var second := ReadByte(reader, s);
    ghost var p2 := reader.position;
    var third := ReadByte(reader, s);
    ghost var p3 := reader.position;
    var forth := ReadByte(reader, s);
    assert BytesAt(s, p3, 1) == [forth];
    assert BytesAt(s, p2, 2) == [third, forth];
    assert BytesAt(s, p1, 3) == [second, third, forth];
    assert BytesAt(s, p0, 4) == [first, second, third, forth];
    b := [first, second, third, forth];
  }

  /** Reading a + b bytes is reading a bytes, then b more. */
  lemma {:induction false} BytesSplit(s: seq<char>, pos: nat, a: nat, b: nat)
    requires pos <= |s|
    ensures After(s, After(s, pos, a), b) == After(s, pos, a + b)
    ensures BytesAt(s, pos, a + b) == BytesAt(s, pos, a) + BytesAt(s, After(s, pos, a), b)
    decreases a
  {
    if a > 0 {
      BytesSplit(s, After(s, pos, 1), a - 1, b);
      assert After(s, After(s, pos, 1), a - 1) == After(s, pos, a);
    }
  }

  /** readLongLittle: eight successive reads, in two runs of four. */
  method ReadLongLittle(reader: CharArray, ghost s: seq<char>) returns (x: int)
    requires reader.Valid() && reader.data[..] == s
    modifies reader
    ensures reader.Valid() && reader.position == After(s, old(reader.position), 8)
    ensures x == LongLittle(BytesAt(s, old(reader.position), 8))
  {
    ghost var p0 := reader.position;
    var low := ReadFour(reader, s);
    var high := ReadFour(reader, s);
    BytesSplit(s, p0, 4, 4);
    x := LongLittle(low + high);
  }

  /** new char[n], reader.read(it), new String(it). */
  method ReadArray(reader: CharArray, n: nat, ghost s: seq<char>) returns (text: string)
    requires reader.Valid() && reader.data[..] == s
    modifies reader
    ensures reader.Valid() && reader.position == old(reader.position) + Copied(s, old(reader.position), n)
    ensures text == Filled(s, old(reader.position), n)
  {
    var buffer := new char[n](_ => '\0');
    assert buffer[..] == Zeros(n);
    reader.ReadInto(buffer, 0, n);
    text := buffer[..];
  }

  /** readBinaryString */
  method ReadBinaryString(reader: CharArray, ghost s: seq<char>) returns (text: Outcome<string>)
    requires reader.Valid() && reader.data[..] == s
    modifies reader
    ensures reader.Valid() && Chunk(text, reader.position) == StringAt(s, old(reader.position))
  {
    var len := ReadShortLittle(reader, s);
    if len < 0 {
      return Thrown(NegativeArraySize);
    }
    var chars := ReadArray(reader, len, s);
    return Ok(chars);
  }

  /** The value cases of the switch of convertBinary: the payload of b read
    * and turned into the string pushed. */
  method ReadValue(reader: CharArray, b: BinaryToken, env: Env, ghost s: seq<char>) returns (text: Outcome<string>)
    requires reader.Valid() && reader.data[..] == s && IsValue(b)
    modifies reader
    ensures reader.Valid() && Chunk(text, reader.position) == ValueAt(s, old(reader.position), b, env)
  {
    ghost var pos := reader.position;
    match b
    case QuotedString =>
      text := ReadBinaryString(reader, s);
      if text.Ok? {
        text := Ok("\"" + Chars.Trim(text.value) + "\"");
      }
    case NotQuotedString =>
      text := ReadBinaryString(reader, s);
      if text.Ok? {
        text := Ok(Chars.Trim(text.value));
      }
    case UnsignedInt =>
      var x := ReadIntLittle(reader, s);
      IntLittleUnsigned(BytesAt(s, pos, 4));
      text := Ok(Numbers.NatToString(x % 0x1_0000_0000));
    case UnsignedLong =>
      var x := ReadLongLittle(reader, s);
      LongLittleUnsigned(BytesAt(s, pos, 8));
      text := Ok(Numbers.NatToString(x % 0x1_0000_0000_0000_0000));
    case Int =>
      var x := ReadIntLittle(reader, s);
      text := Ok(Numbers.IntToString(x));
    case Float =>
      var x := ReadIntLittle(reader, s);
      text := Ok(env.floatText(x));
    case Double =>
      var x := ReadIntLittle(reader, s);
      var _ := reader.ReadChars(4, 0);
      text := Ok(env.doubleText(x));
    case Bool =>
      var r := reader.Read();
      text := Ok(if r == 0 then "yes" else "no");
    case Color =>
      var chars := ReadArray(reader, 22, s);
      text := Ok(chars);
  }

  // ---------------------------------------------------------------------
  // The loop on a Document and a CharArray

  /** while (currentNode.getParent() != null) currentNode = currentNode.getParent(); */
  method Climb(doc: Documents.Document, c: Id) returns (root: Id)
    requires WF(doc.nodes) && c < |doc.nodes|
    ensures root == Construction.GetRoot(doc.nodes, c)
  {
    root := c;
    while Parent(doc.nodes[root]).Some?
      invariant root < |doc.nodes| && Construction.GetRoot(doc.nodes, root) == Construction.GetRoot(doc.nodes, c)
      decreases root
    {
      assert NodeWF(doc.nodes, root);
      root := Parent(doc.nodes[root]).value;
    }
  }

  /** The conversion of END on the document. */
  method EndConvert(doc: Documents.Document, c: Id, strings: seq<string>) returns (out: Outcome<Id>)
    requires TextParsing.Parsable(doc.nodes) && IsItem(doc.nodes, c)
    modifies doc
    ensures Removal.Effect(doc.nodes, out) == CloseList(old(doc.nodes), c, strings)
  {
    if strings == [] {
      return Ok(c);
    }
    var parent := Parent(doc.nodes[c]);
    if parent.None? {
      return Thrown(NullPointer);
    }
    var g := parent.value;
    assert NodeWF(doc.nodes, c);
    var name := doc.nodes[c].name;
    var previous := Lookups.LastNamed(doc.nodes, g, Children, name);
    if previous.Thrown? {
      return Thrown(previous.exception);
    }
    if previous.value.None? {
      var x := doc.AddList(g, name, NbObjects(doc.nodes, g), |strings| > 1, true, false, strings);
      return Ok(x);
    }
    var q := previous.value.value;
    TextParsing.FoundChild(doc.nodes, g, name);
    if AllOrdered(doc.nodes, q) == [] {
      out := doc.ChangeChildToList(g, Ord(doc.nodes, q), name, |strings| > 1, strings);
    } else {
      var _ := doc.AddList(q, "", NbObjects(doc.nodes, q), |strings| > 1, false, false, strings);
      out := Ok(c);
    }
  }

  /** The test after a value, on the document: Value's steps, the reader
    * at pos untouched. */
  method TakeValue(doc: Documents.Document, m: Machine, env: Env, ghost s: seq<char>, ghost pos: nat)
    returns (next: Machine, done: bool, out: Outcome<Option<Id>>)
    requires pos <= |s| && Ready(doc.nodes, m) && m.strings != []
    modifies doc
    ensures done ==> Conversion(doc.nodes, pos, out) == Value(s, old(doc.nodes), pos, m, env)
    ensures !done ==> Ready(doc.nodes, next) && Decode(s, doc.nodes, pos, next, env) == Value(s, old(doc.nodes), pos, m, env)
  {
    next, done, out := m, false, Ok(None);
    if !m.isEquals {
      return;
    }
    done := true;
    if |m.strings| < 2 {
      out := Thrown(IndexOutOfBounds);
      return;
    }
    if m.cur.None? {
      out := Thrown(NullPointer);
      return;
    }
    var p, key := m.cur.value, m.strings[0];
    TextParsing.AddVariableKeeps(doc.nodes, p, key, m.strings[1]);
    var _ := doc.AddVariable(p, key, Text(m.strings[1]));
    if Named(env, key) {
      out := Lookups.FirstNamed(doc.nodes, p, Variables, key);
      return;
    }
    next, done := Machine(m.cur, [], false), false;
  }

  /** OPEN on the document. */
  method OpenChild(doc: Documents.Document, m: Machine, env: Env, ghost s: seq<char>, ghost pos: nat)
    returns (next: Machine, done: bool, out: Outcome<Option<Id>>)
    requires pos <= |s| && Ready(doc.nodes, m)
    modifies doc
    ensures done ==> Conversion(doc.nodes, pos, out) == OpenAt(s, old(doc.nodes), pos, m, env)
    ensures !done ==> Ready(doc.nodes, next) && Decode(s, doc.nodes, pos, next, env) == OpenAt(s, old(doc.nodes), pos, m, env)
  {
    next, done, out := m, true, Thrown(NullPointer);
    if m.cur.None? {
      return;
    }
    var p := m.cur.value;
    var name := if m.strings == [] then "" else m.strings[|m.strings| - 1];
    AddChildKeeps(doc.nodes, p, name, m.isEquals);
    var child := doc.AddChildNamed(p, name, m.isEquals);
    var rest := if m.strings == [] then [] else m.strings[..|m.strings| - 1];
    next, done := Machine(Some(child), rest, false), false;
  }

  /** END on the document. */
  method EndBlock(doc: Documents.Document, m: Machine, env: Env, ghost s: seq<char>, ghost pos: nat)
    returns (next: Machine, done: bool, out: Outcome<Option<Id>>)
    requires pos <= |s| && Ready(doc.nodes, m)
    modifies doc
    ensures done ==> Conversion(doc.nodes, pos, out) == EndAt(s, old(doc.nodes), pos, m, env)
    ensures !done ==> Ready(doc.nodes, next) && Decode(s, doc.nodes, pos, next, env) == EndAt(s, old(doc.nodes), pos, m, env)
  {
    next, done, out := m, true, Thrown(NullPointer);
    if m.cur.None? {
      return;
    }
    var converted := EndConvert(doc, m.cur.value, m.strings);
    if converted.Thrown? {
      out := Thrown(converted.exception);
      return;
    }
    var c := converted.value;
    if Named(env, NameOf(doc.nodes, c)) {
      out := Ok(Some(c));
      return;
    }
    var up := Parent(doc.nodes[c]);
    if up.Some? {
      ParentIsItem(doc.nodes, c);
    }
    next, done := Machine(up, [], false), false;
  }

  /** One turn of the loop of convertBinary: read a token and act on it.
    * Either the call ends (done) or the loop goes on with the locals next. */
  method Turn(doc: Documents.Document, reader: CharArray, m: Machine, env: Env, ghost s: seq<char>)
    returns (next: Machine, done: bool, out: Outcome<Option<Id>>)
    requires reader.Valid() && reader.data[..] == s && Ready(doc.nodes, m)
    modifies doc, reader
    ensures reader.Valid()
    ensures done ==> Conversion(doc.nodes, reader.position, out) == Decode(s, old(doc.nodes), old(reader.position), m, env)
    ensures !done ==> old(reader.position) < reader.position && Ready(doc.nodes, next)
                      && Decode(s, doc.nodes, reader.position, next, env) == Decode(s, old(doc.nodes), old(reader.position), m, env)
  {
    next, done, out := m, true, Ok(None);
    var token := ReadToken(reader, s);
    if token.None? {
      if m.cur.None? {
        out := Thrown(NullPointer);
      } else {
        var root := Climb(doc, m.cur.value);
        out := Ok(Some(root));
      }
      return;
    }
    var t := token.value;
    var b := OfToken(t);
    if b.None? {
      next, done, out := TakeValue(doc, m.(strings := m.strings + [TokenText(env.tokens, t)]), env, s, reader.position);
    } else if b.value.Equals? {
      next, done := m.(isEquals := true), false;
    } else if b.value.Open? {
      next, done, out := OpenChild(doc, m, env, s, reader.position);
    } else if b.value.End? {
      next, done, out := EndBlock(doc, m, env, s, reader.position);
    } else {
      var text := ReadValue(reader, b.value, env, s);
      if text.Thrown? {
        out := Thrown(text.exception);
        return;
      }
      next, done, out := TakeValue(doc, m.(strings := m.strings + [text.value]), env, s, reader.position);
    }
  }

  /** convertBinary(reader, charset, skip, tokens, objectNames, listeners):
    * skip characters, then read tokens into a new root until the stream
    * ends or an object of objectNames is complete. */
  method ConvertBinary(reader: CharArray, skip: int, env: Env) returns (doc: Documents.Document, out: Outcome<Option<Id>>)
    requires reader.Valid()
    modifies reader
    ensures fresh(doc) && reader.Valid()
    ensures skip < 0 ==> doc.nodes == Construction.NewRoot([]) && out == Thrown(NegativeArraySize)
                         && reader.position == old(reader.position)
    ensures skip >= 0 ==> Ready(Construction.NewRoot([]), Machine(Some(0), [], false))
    ensures skip >= 0 ==>
              Conversion(doc.nodes, reader.position, out)
              == Decode(reader.data[..], Construction.NewRoot([]), After(reader.data[..], old(reader.position), skip),
                        Machine(Some(0), [], false), env)
  {
    ghost var s := reader.data[..];
    doc := new Documents.Document();
    TextParsing.RootParsable();
    if skip < 0 {
      out := Thrown(NegativeArraySize);
      return;
    }
    var _ := ReadArray(reader, skip, s);
    assert reader.position == After(s, old(reader.position), skip);
    out := RunTokens(doc, reader, env, s);
  }

  /** The while (true) loop of convertBinary, from a fresh root. */
  method RunTokens(doc: Documents.Document, reader: CharArray, env: Env, ghost s: seq<char>) returns (out: Outcome<Option<Id>>)
    requires reader.Valid() && reader.data[..] == s && Ready(doc.nodes, Machine(Some(0), [], false))
    modifies doc, reader
    ensures reader.Valid()
    ensures Conversion(doc.nodes, reader.position, out)
         == Decode(s, old(doc.nodes), old(reader.position), Machine(Some(0), [], false), env)
  {
    var m := Machine(Some(0), [], false);
    out := Ok(None);
    while true
      invariant reader.Valid() && reader.data[..] == s && Ready(doc.nodes, m)
      invariant Decode(s, doc.nodes, reader.position, m, env)
             == Decode(s, old(doc.nodes), old(reader.position), Machine(Some(0), [], false), env)
      decreases |s| - reader.position
    {
      var done;
      m, done, out := Turn(doc, reader, m, env, s);
      if done {
        return;
      }
    }
  }
}
