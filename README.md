# Clausewitz parser core in Dafny

This project models the `fr.osallek` core of the Clausewitz parser, which reads and writes the Paradox game-file format. In that format a file is a tree of blocks (`name = { ... }`) that hold variables (`name = value`), nested blocks and value lists (`name = { a b c }`). Saves may also be in a binary form built from 2-byte little-endian tokens. The model covers four parts:

- **The object tree.** A `ClausewitzItem` holds three collections (child items, variables and lists), each paired with a name index. Every object carries an `order` that places it among its siblings.
  - The Java heap of objects becomes an arena `seq<Node>`, where an object reference is an index into the arena (module `Tree`).
  - The read-only queries are in modules `Items` and `Lookups`.
  - The removals are in `Removal`.
  - Constructors, `add*`, `set*` and `changeChildToList` are in `Construction`.
  - A list's values are in `ValueLists`, and variable values and their conversions in `Variables`.
  - The class `Documents.Document` holds the arena in a field and performs each operation in place. Each of its methods is proved to leave exactly the state the matching function in `Construction` or `Removal` describes.
- **The character cursor `CharArray`.** It is a class over an array with a position and a mark (module `Cursor`), and each scanning method is proved to consume exactly what a specification function says.
- **The text parser `readObject` and the binary decoder `convertBinary`** (modules `TextParsing` and `BinaryParsing`).
  - Each is a specification function over the input and the arena, and an imperative loop over the cursor and the document is proved to compute it.
  - Little-endian byte assembly is in `LittleEndian`, and the token table in `BinaryTokens`.
- **The writers.** The `write` methods of items, lists and variables are specified as functions returning the text. A writer object that appends step by step is proved to produce that text (module `Writers`). The string helpers of `ClausewitzUtils` (module `ClausewitzUtils`) are modelled too, along with the character classes, the number and date formats they rely on (`Chars`, `Numbers`, `Dates`), and `Option`/`Result` in `Wrappers`.

Java integers are modelled as unbounded integers, with the 16-, 32- and 64-bit wrap-around written out where the source relies on it. Exceptions the source raises (NullPointerException, IndexOutOfBoundsException, ConcurrentModificationException, NegativeArraySizeException) are modelled as a `Thrown` outcome.

## Model

| member | source | states |
|---|---|---|
| Chars.ToUpper | src/main/java/fr/osallek/clausewitzparser/model/ClausewitzList.java:132-142 | The model's upper-casing for equalsIgnoreCase, on ASCII and Latin-1 only (see Left out): lower-case ASCII letters map to upper-case ones, and every character that is neither an ASCII nor a Latin-1 lower-case letter is kept. |
| Chars.ToLower | src/main/java/fr/osallek/clausewitzparser/model/ClausewitzItem.java:1324-1337 | The model's lower-casing behind toLowerCase, on ASCII and Latin-1 only (see Left out): upper-case ASCII letters map to lower-case ones, and every character that is neither an ASCII nor a Latin-1 upper-case letter is kept. |
| Chars.ToLowerCase | src/main/java/fr/osallek/clausewitzparser/model/ClausewitzItem.java:1324-1337 | The model's toLowerCase lower-cases each character with ToLower, so here it keeps the length. Java's locale-dependent String.toLowerCase need not (see Left out). |
| Chars.EqualsIgnoreCaseLower | src/main/java/fr/osallek/clausewitzparser/model/ClausewitzVariable.java:148-158 | equalsIgnoreCase holds exactly when the two strings lower-case to the same string, in both directions, and it is symmetric. |
| Chars.TrimStart | src/main/java/fr/osallek/clausewitzparser/parser/ClausewitzParser.java:345 | The leading cut of String.trim: what is kept is a suffix that starts with a non-trimmable character, and everything cut is trimmable. |
| Chars.TrimEnd | src/main/java/fr/osallek/clausewitzparser/parser/ClausewitzParser.java:345 | The trailing cut of String.trim: what is kept is a prefix that ends with a non-trimmable character, and everything cut is trimmable. |
| Chars.TrimBounds | src/main/java/fr/osallek/clausewitzparser/parser/ClausewitzParser.java:345 | trim returns s[a..b], where everything before a and from b on is trimmable. |
| Chars.TrimEnds | src/main/java/fr/osallek/clausewitzparser/parser/ClausewitzParser.java:345 | The text trim returns has no trimmable character at either end. |
| Chars.TrimIsInfix | src/main/java/fr/osallek/clausewitzparser/parser/ClausewitzParser.java:345 | trim returns an infix of its input that has no trimmable character at either end, and everything it cuts off is trimmable. |
| Numbers.NatToString | src/main/java/fr/osallek/clausewitzparser/model/ClausewitzVariable.java:119-125 | The decimal digits of a natural number are non-empty, and they start with 0 only for 0 itself. |
| Numbers.IntToString | src/main/java/fr/osallek/clausewitzparser/model/ClausewitzVariable.java:119-125 | Integer.toString / Long.toString: the text is non-empty and starts with a minus sign exactly for negative numbers. |
| Numbers.ParseSigned | src/main/java/fr/osallek/clausewitzparser/model/ClausewitzVariable.java:61-79 | The shared core of parseInt / parseLong: a parsed value lies inside the type's bounds and is negative only after a leading '-'. The empty string, a lone '-' and a lone '+' raise NumberFormatException. Only ASCII digits are accepted (see Left out). |
| Numbers.ParseInt | src/main/java/fr/osallek/clausewitzparser/model/ClausewitzVariable.java:61-69 | Integer.parseInt accepts only values that fit a Java int. |
| Numbers.ParseLong | src/main/java/fr/osallek/clausewitzparser/model/ClausewitzVariable.java:71-79 | Long.parseLong accepts only values that fit a Java long. |
| Numbers.ParseSignedOfNatToString | src/main/java/fr/osallek/clausewitzparser/model/ClausewitzVariable.java:61-79 | The digits of a non-negative number within the bounds parse back to that number. |
| Numbers.ParseSignedOfNegative | src/main/java/fr/osallek/clausewitzparser/model/ClausewitzVariable.java:61-79 | A negative number within the bounds, printed with its minus sign, parses back to itself. |
| Numbers.ParseSignedOfIntToString | src/main/java/fr/osallek/clausewitzparser/model/ClausewitzVariable.java:61-79 | Every number within the bounds survives the round trip through its decimal text. |
| Numbers.ParseIntOfIntToString | src/main/java/fr/osallek/clausewitzparser/model/ClausewitzVariable.java:119-121 | The round trip of setValue(int) then getAsInt: Integer.parseInt(Integer.toString(x)) == x for every int x. |
| Numbers.ParseLongOfIntToString | src/main/java/fr/osallek/clausewitzparser/model/ClausewitzVariable.java:123-125 | The round trip of setValue(long) then getAsLong: Long.parseLong(Long.toString(x)) == x for every long x. |
| Dates.MonthLength | src/main/java/fr/osallek/clausewitzparser/common/ClausewitzUtils.java:71-73 | A month of the ISO calendar has 28 to 31 days. |
| Dates.YearOfEra | src/main/java/fr/osallek/clausewitzparser/common/ClausewitzUtils.java:67-69 | The 'y' pattern letter prints the year of era, which is the year itself for every year of the current era. |
| Dates.ParseDate | src/main/java/fr/osallek/clausewitzparser/common/ClausewitzUtils.java:71-73 | stringToDate with the pattern y.M.d: a date it returns is a valid calendar date of the current era. |
| Dates.DateOfFields | src/main/java/fr/osallek/clausewitzparser/common/ClausewitzUtils.java:71-73 | The date that three field values resolve to is always valid and of the current era. |
| Dates.ParseFields | src/main/java/fr/osallek/clausewitzparser/common/ClausewitzUtils.java:71-73 | stringToDate on three digit fields joined by dots resolves exactly the three field values. |
| Dates.ParseDateOfDateToString | src/main/java/fr/osallek/clausewitzparser/common/ClausewitzUtils.java:67-73 | stringToDate(dateToString(d)) == d for every valid date of the current era. |
| ClausewitzUtils.IsBlank | src/main/java/fr/osallek/clausewitzparser/common/ClausewitzUtils.java:43-57 | The scanning loop answers true exactly when every character is whitespace, the empty string included. |
| ClausewitzUtils.IsNotBlank | src/main/java/fr/osallek/clausewitzparser/common/ClausewitzUtils.java:59-61 | isNotBlank is true exactly when some character is not whitespace. |
| ClausewitzUtils.AddQuotes | src/main/java/fr/osallek/clausewitzparser/common/ClausewitzUtils.java:79-93 | addQuotes gives null for the empty string. Otherwise its result satisfies hasQuotes and is s with at most one quote added at each end; no quote is added at the front when s already starts with one. |
| ClausewitzUtils.RemoveQuotes | src/main/java/fr/osallek/clausewitzparser/common/ClausewitzUtils.java:95-109 | removeQuotes drops at most one character at each end. A string with no quote at either end is returned unchanged, and a quoted string loses exactly its two end quotes. |
| ClausewitzUtils.RemoveQuotesOfAddQuotes | src/main/java/fr/osallek/clausewitzparser/common/ClausewitzUtils.java:79-109 | On a string with no quote at either end, addQuotes wraps it in one quote on each side, and removeQuotes undoes that. |
| ClausewitzUtils.AddQuotesOfQuoted | src/main/java/fr/osallek/clausewitzparser/common/ClausewitzUtils.java:79-93 | addQuotes returns a string that already has quotes unchanged. |
| ClausewitzUtils.HasAtLeast | src/main/java/fr/osallek/clausewitzparser/common/ClausewitzUtils.java:111-124 | The counting loop answers true exactly when the bound is at least 1 and c occurs at least that many times. |
| ClausewitzUtils.HasOnlyOne | src/main/java/fr/osallek/clausewitzparser/common/ClausewitzUtils.java:126-139 | The loop answers true exactly when c occurs once. |
| ClausewitzUtils.Tabs | src/main/java/fr/osallek/clausewitzparser/common/ClausewitzUtils.java:141-143 | printTabs writes exactly depth characters, all of them tabs. |
| BinaryTokens.Token | src/main/java/fr/osallek/clausewitzparser/model/BinaryToken.java:36-38 | Every token id fits a Java short. |
| BinaryTokens.TokensDistinct | src/main/java/fr/osallek/clausewitzparser/model/BinaryToken.java:25-26 | No two constants of the table share an id, so building TOKEN_MAP cannot fail on a duplicate key. |
| BinaryTokens.ValuesComplete | src/main/java/fr/osallek/clausewitzparser/model/BinaryToken.java:10-21 | The table of values lists every constant of the enum. |
| BinaryTokens.Lookup | src/main/java/fr/osallek/clausewitzparser/model/BinaryToken.java:32-34 | A constant found for an id has that id; when none is found, no constant of the table has it. |
| BinaryTokens.OfTokenRoundTrip | src/main/java/fr/osallek/clausewitzparser/model/BinaryToken.java:32-38 | ofToken(getToken(b)) == b for every constant. ofToken(t) finds a constant with id t, and finds none exactly when no constant has id t. |
| LittleEndian.ToShort | src/main/java/fr/osallek/clausewitzparser/parser/ClausewitzParser.java:571-576 | The (short) cast keeps the value's residue modulo 2^16 and lands in the short range. |
| LittleEndian.ToInt | src/main/java/fr/osallek/clausewitzparser/parser/ClausewitzParser.java:578-585 | The (int) cast keeps the value's residue modulo 2^32 and lands in the int range. |
| LittleEndian.ToLong | src/main/java/fr/osallek/clausewitzparser/parser/ClausewitzParser.java:587-599 | The (long) cast keeps the value's residue modulo 2^64 and lands in the long range. |
| LittleEndian.ShortLittle | src/main/java/fr/osallek/clausewitzparser/parser/ClausewitzParser.java:571-576 | The short assembled from two bytes, low byte first, always lies in the short range. |
| LittleEndian.TokenToBytes | src/main/java/fr/osallek/clausewitzparser/parser/ClausewitzParser.java:601-603 | tokenToBytes always yields two bytes. |
| LittleEndian.TokenToBytesOfShortLittle | src/main/java/fr/osallek/clausewitzparser/parser/ClausewitzParser.java:571-603 | tokenToBytes gives back the two bytes a short was assembled from. |
| LittleEndian.ShortLittleOfTokenToBytes | src/main/java/fr/osallek/clausewitzparser/parser/ClausewitzParser.java:571-603 | Assembling the two bytes of tokenToBytes(t) gives back t, for every short t. |
| LittleEndian.IntLittle | src/main/java/fr/osallek/clausewitzparser/parser/ClausewitzParser.java:578-585 | readIntLittle yields a Java int. |
| LittleEndian.LongLittle | src/main/java/fr/osallek/clausewitzparser/parser/ClausewitzParser.java:587-599 | readLongLittle yields a Java long. |
| LittleEndian.IntLittleUnsigned | src/main/java/fr/osallek/clausewitzparser/parser/ClausewitzParser.java:617-619 | Integer.toUnsignedLong(readIntLittle()) is the unsigned little-endian value of the four bytes. |
| LittleEndian.LongLittleUnsigned | src/main/java/fr/osallek/clausewitzparser/parser/ClausewitzParser.java:637-639 | The bits of readLongLittle(), read as unsigned as Long.toUnsignedString reads them, are the unsigned little-endian value of the eight bytes. |
| Cursor.LineEnd | src/main/java/fr/osallek/clausewitzparser/parser/CharArray.java:87-110 | Where a line ends: the first '\n' or '\r' at or after p, or the end of the input. Nothing before it is a line terminator. |
| Cursor.QuoteEnd | src/main/java/fr/osallek/clausewitzparser/parser/CharArray.java:128-148 | Where quoted text ends: the first double quote at or after p, or the end of the input. Nothing before it is a quote. |
| Cursor.TokenEnd | src/main/java/fr/osallek/clausewitzparser/parser/CharArray.java:174-195 | Where the run of readStringOrNumber ends: every character before it is a letter, a digit or one of ' / . _ - : and is not whitespace. The character at the end, if any, is whitespace or outside that set. |
| Cursor.NewBuffer | src/main/java/fr/osallek/clausewitzparser/parser/CharArray.java:79-85 | new char[n] is a fresh array of n '\0' characters. |
| Cursor.StopIndex | src/main/java/fr/osallek/clausewitzparser/parser/CharArray.java:201-215 | The first stop character at or after p, or the end. The stop characters are the one asked for and, with stopEndOfLine, '\n'. |
| Cursor.AfterLine | src/main/java/fr/osallek/clausewitzparser/parser/CharArray.java:112-126 | A line scan always advances unless it starts at the end. |
| Cursor.SkipTargetIntended | src/main/java/fr/osallek/clausewitzparser/parser/CharArray.java:201-215 | The intended resting place of skipTillNext never moves backwards. Unless it is the end of the input, it is a stop character. |
| Cursor.SkipTargetAtEnd | src/main/java/fr/osallek/clausewitzparser/parser/CharArray.java:201-215 | On input that ends with '#', skipTillNext as written, called at the end, steps back onto that '#'. The intended version stays at the end. |
| Cursor.SkipTargetsAgreeOnStop | src/main/java/fr/osallek/clausewitzparser/parser/CharArray.java:201-215 | Whenever a stop character is found, the written and the intended skipTillNext leave the cursor at the same place, and the intended one never moves backwards. |
| Cursor.CharArray.constructor | src/main/java/fr/osallek/clausewitzparser/parser/CharArray.java:20-23 | A new cursor over the array, with position and mark at 0. |
| Cursor.CharArray.Reset | src/main/java/fr/osallek/clausewitzparser/parser/CharArray.java:33-35 | reset moves the position back to the mark and keeps the mark. |
| Cursor.CharArray.Mark | src/main/java/fr/osallek/clausewitzparser/parser/CharArray.java:37-39 | mark records the position without moving it. |
| Cursor.CharArray.SetPosition | src/main/java/fr/osallek/clausewitzparser/parser/CharArray.java:45-47 | position(int) moves to the given position inside the array and keeps the mark. |
| Cursor.CharArray.AddPosition | src/main/java/fr/osallek/clausewitzparser/parser/CharArray.java:49-51 | addPosition moves by n and keeps the mark. |
| Cursor.CharArray.Available | src/main/java/fr/osallek/clausewitzparser/parser/CharArray.java:53-55 | available lies between 0 and the length, and is 0 exactly at the end. |
| Cursor.CharArray.Read | src/main/java/fr/osallek/clausewitzparser/parser/CharArray.java:57-63 | read() at the end returns -1 and does not move. Elsewhere it returns the character at the position and advances by one. |
| Cursor.CharArray.ReadInto | src/main/java/fr/osallek/clausewitzparser/parser/CharArray.java:65-73 | read(c, off, len) at the end changes nothing. Elsewhere exactly min(len, available) characters land in c from offset, the rest of c is unchanged, and the cursor advances past them. |
| Cursor.CharArray.CopyWindow | src/main/java/fr/osallek/clausewitzparser/parser/CharArray.java:65-73 | The array copy inside read(c, off, len): the n characters at the cursor replace c's window at offset, and nothing else in c changes. |
| Cursor.CharArray.ReadChars | src/main/java/fr/osallek/clausewitzparser/parser/CharArray.java:79-85 | read(len, offset) returns a fresh buffer of len + offset characters: offset '\0', then the characters read, then '\0' up to the length. |
| Cursor.CharArray.ReadExactly | src/main/java/fr/osallek/clausewitzparser/parser/CharArray.java:75-77 | read(char[nb]) on a cursor with nb characters left returns exactly those and advances past them. |
| Cursor.CharArray.ReadLine | src/main/java/fr/osallek/clausewitzparser/parser/CharArray.java:87-110 | readLine returns the characters up to the next line terminator and consumes that terminator. Without a terminator it returns the rest. The mark is left at the line's start. |
| Cursor.CharArray.SkipLine | src/main/java/fr/osallek/clausewitzparser/parser/CharArray.java:112-126 | skipLine leaves the cursor just past the next line terminator, or at the end. |
| Cursor.CharArray.ReadQuoted | src/main/java/fr/osallek/clausewitzparser/parser/CharArray.java:128-148 | readQuoted returns the text up to the next quote, wrapped in quotes when keepQuotes is set, and leaves the cursor after the closing quote or at the end. |
| Cursor.CharArray.ReadEnclosed | src/main/java/fr/osallek/clausewitzparser/parser/CharArray.java:128-148 | The copy readQuoted makes of the nb characters it scanned: exactly those characters, with a quote at each end when keepQuotes is set. |
| Cursor.CharArray.ReadStringOrNumber | src/main/java/fr/osallek/clausewitzparser/parser/CharArray.java:174-195 | readStringOrNumber returns firstChar followed by the maximal run of token characters, and stops the cursor right after that run. |
| Cursor.CharArray.ScanToken | src/main/java/fr/osallek/clausewitzparser/parser/CharArray.java:174-195 | The scanning loop of readStringOrNumber counts exactly the run of token characters from the mark. |
| Cursor.CharArray.ReadPrefixed | src/main/java/fr/osallek/clausewitzparser/parser/CharArray.java:174-195 | read(nb, 1) with firstChar stored in the first place returns firstChar and then the nb characters at the cursor. |
| Cursor.CharArray.SkipTillNext | src/main/java/fr/osallek/clausewitzparser/parser/CharArray.java:201-215 | skipTillNext as written leaves the cursor where SkipTarget says, which steps back even at the end of the input (see Findings). |
| Cursor.CharArray.SkipTillNextIntended | src/main/java/fr/osallek/clausewitzparser/parser/CharArray.java:201-215 | The corrected skipTillNext leaves the cursor on the first stop character, or at the end. |
| Cursor.CharArray.ReadEndOfLine | src/main/java/fr/osallek/clausewitzparser/parser/CharArray.java:197-199 | readEndOfLine is skipTillNext('\n', true). |
| Tree.SortByOrderSpec | src/main/java/fr/osallek/clausewitzparser/model/ClausewitzItem.java:1445-1463 | Sorting by order, as List.sort(Comparator.comparingInt(getOrder)) does, yields a permutation of its input, ordered by order, that repeats nothing the input did not repeat. |
| Items.AllOrderedSpec | src/main/java/fr/osallek/clausewitzparser/model/ClausewitzItem.java:1445-1463 | getAllOrdered holds every child, variable and list exactly once, sorted by order. Its length is getNbObjects(). |
| Items.IsEmptySpec | src/main/java/fr/osallek/clausewitzparser/model/ClausewitzItem.java:1500-1504 | isEmpty holds exactly when getAllOrdered is empty, and exactly when getNbObjects() is 0. |
| Items.MaxOrderSpec | src/main/java/fr/osallek/clausewitzparser/model/ClausewitzItem.java:1474-1476 | getMaxOrder is 0 for an empty item. Otherwise it is the order of one of the entries and bounds the orders of all of them. |
| Items.Shift | src/main/java/fr/osallek/clausewitzparser/model/ClausewitzItem.java:112-113 | The increaseOrders pass changes no collection, name or kind; only orders. |
| Items.ShiftOrders | src/main/java/fr/osallek/clausewitzparser/model/ClausewitzItem.java:112-113 | The increaseOrders pass moves each entry of the item whose order is at or above t up by exactly one. Every other order is kept. |
| Items.AddShape | src/main/java/fr/osallek/clausewitzparser/model/ClausewitzItem.java:107-120 | addX(object, increaseOrders) keeps the arena well formed and the indexes exact. The object is appended to its kind's list, every other collection is unchanged, and getNbObjects() grows by one. |
| Items.AddOrders | src/main/java/fr/osallek/clausewitzparser/model/ClausewitzItem.java:107-120 | Without increaseOrders the object gets order getNbObjects() and every other order stays. With it, the object keeps its order and every entry at or above that order moves up by one. |
| Items.AddKeepsDense | src/main/java/fr/osallek/clausewitzparser/model/ClausewitzItem.java:278-291 | Appending, or inserting at an order within 0..getNbObjects() with the shift, keeps the orders of the item exactly 0..n-1. |
| Items.RegisterIndexed | src/main/java/fr/osallek/clausewitzparser/model/ClausewitzItem.java:118-119 | Appending the object to its kind's list and to the bucket of its name keeps the index exact. |
| Items.FirstMatch | src/main/java/fr/osallek/clausewitzparser/model/ClausewitzItem.java:245-256 | The position found is the first element the condition matches; without one, nothing matches. |
| Lookups.At | src/main/java/fr/osallek/clausewitzparser/model/ClausewitzItem.java:1045-1051 | getChild(int) / getVar(int) / getList(int) answer only for an index inside the collection, with the entry at that index. |
| Lookups.AtOfAdd | src/main/java/fr/osallek/clausewitzparser/model/ClausewitzItem.java:1045-1051 | After an add, the new object is found at index getNbX() of before and every earlier index answers as before. |
| Lookups.NameLookupsSpec | src/main/java/fr/osallek/clausewitzparser/model/ClausewitzItem.java:1053-1085 | On an exact index, has*(name) holds when some entry has the name. get*(name) is the first such entry and getLast*(name) the last, null when there is none, and neither throws. get*s(name) is the entries of that name in list order. |
| Lookups.BucketSpec | src/main/java/fr/osallek/clausewitzparser/model/ClausewitzItem.java:1087-1099 | On an exact index, a name has a bucket exactly when some entry carries it, and the bucket is those entries in list order. |
| Lookups.NamedAtSpec | src/main/java/fr/osallek/clausewitzparser/model/ClausewitzItem.java:1067-1075 | The corrected getChild(name, index) / getVar(name, index) never throws for a non-negative index. It returns the index-th entry of that name in list order, or null when there are at most index of them. |
| Lookups.NamedAtAsWrittenThrows | src/main/java/fr/osallek/clausewitzparser/model/ClausewitzItem.java:1067-1075 | With one child "a", getChild("a", 1) as written throws IndexOutOfBoundsException; the corrected lookup returns null. |
| Lookups.VarWithValueSpec | src/main/java/fr/osallek/clausewitzparser/model/ClausewitzItem.java:1224-1242 | getVar(name, value) finds the first variable in list order with that name and that value. hasVar(name, value) holds exactly when one exists. |
| Lookups.BucketsWhereSpec | src/main/java/fr/osallek/clausewitzparser/model/ClausewitzItem.java:1115-1128 | Walking the index in any key order and keeping the buckets of the kept names yields each entry whose name is kept, exactly once, and nothing else. |
| Lookups.BucketsNotSpec | src/main/java/fr/osallek/clausewitzparser/model/ClausewitzItem.java:1101-1128 | getChildrenNot / getListsNot hold exactly the entries whose name is not excluded. |
| Lookups.VarsNotSpec | src/main/java/fr/osallek/clausewitzparser/model/ClausewitzItem.java:1324-1337 | getVarsNot holds exactly the variables whose name differs, ignoring case, from every excluded name. |
| Lookups.StartWithSpec | src/main/java/fr/osallek/clausewitzparser/model/ClausewitzItem.java:1130-1142 | The corrected getChildrenStartWith holds exactly the children whose name starts with the prefix; the one as written holds exactly the others. |
| Lookups.StartWithAsWrittenMisses | src/main/java/fr/osallek/clausewitzparser/model/ClausewitzItem.java:1130-1142 | With one child "abc", getChildrenStartWith("ab") as written returns nothing; the corrected one returns that child. |
| Lookups.AllOrderedNamedSpec | src/main/java/fr/osallek/clausewitzparser/model/ClausewitzItem.java:1465-1472 | getAllOrdered(name) holds each entry of that name, of any kind, exactly once, sorted by order. |
| Removal.IndexOf | src/main/java/fr/osallek/clausewitzparser/model/ClausewitzItem.java:130-149 | List.indexOf finds the first position holding x. |
| Removal.RemoveFirstAt | src/main/java/fr/osallek/clausewitzparser/model/ClausewitzItem.java:130-149 | In a list without repeats, removing x removes the one position holding it, and the multiset loses exactly x. |
| Removal.NamedDrop | src/main/java/fr/osallek/clausewitzparser/model/ClausewitzItem.java:130-149 | Dropping position i of a list drops the same object from the bucket of its name and leaves every other bucket as it was. |
| Removal.OtherIndexed | src/main/java/fr/osallek/clausewitzparser/model/ClausewitzItem.java:151-170 | A removal confined to one collection leaves the index consistency of every other collection intact. |
| Removal.RemoveObject | src/main/java/fr/osallek/clausewitzparser/model/ClausewitzItem.java:151-170 | removeChild(child) / removeVariable(variable) / removeList(list) touches only item p and adds no object. |
| Removal.RemoveObjectResult | src/main/java/fr/osallek/clausewitzparser/model/ClausewitzItem.java:151-170 | On an exact collection holding x, removeX(x) returns true. x leaves the list and the bucket of its name. |
| Removal.RemoveObjectKeeps | src/main/java/fr/osallek/clausewitzparser/model/ClausewitzItem.java:607-626 | Removing a present object keeps the arena well formed and the collection's index exact. |
| Removal.RemoveObjectPresent | src/main/java/fr/osallek/clausewitzparser/model/ClausewitzItem.java:900-919 | Removing a present entry returns true and keeps every index exact. The list loses just that entry, and no name, order or other collection changes. |
| Removal.RemoveObjectHas | src/main/java/fr/osallek/clausewitzparser/model/ClausewitzItem.java:900-919 | After a removal, the name stays a key of the index exactly while another entry still carries it, so has*(name) turns false when its last object goes. |
| Removal.RemoveObjectSpec | src/main/java/fr/osallek/clausewitzparser/model/ClausewitzItem.java:151-170 | removeX(object) returns whether x was an entry. x then leaves the list, which loses exactly x as a multiset, and the bucket is dropped once empty. Every index stays exact, and no name, order or other collection changes. |
| Removal.RemoveAtSpec | src/main/java/fr/osallek/clausewitzparser/model/ClausewitzItem.java:586-605 | removeX(int) inside [0, size) is the removal of the object at that position, and the list loses exactly that position. Outside that range nothing changes: an allocated collection raises IndexOutOfBoundsException and an unallocated one returns false. |
| Removal.PickPosition | src/main/java/fr/osallek/clausewitzparser/model/ClausewitzItem.java:172-224 | The index picked in a bucket by name, name and index, or last, is always inside the bucket. |
| Removal.RemoveNamedSpec | src/main/java/fr/osallek/clausewitzparser/model/ClausewitzItem.java:172-224 | removeX(name), removeX(name, index) and removeLastX(name) remove the designated entry of that name (first, index-th or last in list order) exactly as removeX(object) does. Without one, nothing changes. |
| Removal.BucketIsNamed | src/main/java/fr/osallek/clausewitzparser/model/ClausewitzItem.java:172-188 | On an exact index, a name has a bucket exactly when some entry carries it, and the bucket is those entries. |
| Removal.TakeIsRemoveObject | src/main/java/fr/osallek/clausewitzparser/model/ClausewitzItem.java:172-188 | Taking the i-th object of an exact bucket is removing that object. |
| Removal.RemoveAllNamedSpec | src/main/java/fr/osallek/clausewitzparser/model/ClausewitzItem.java:226-236 | removeChildren / removeVariables / removeLists(name) returns whether an entry had the name. The entries of other names are kept, the name leaves the index, every index stays exact, and no other collection changes. |
| Removal.ClearKeeps | src/main/java/fr/osallek/clausewitzparser/model/ClausewitzItem.java:238-243 | removeAllChildren / removeAllVariables / removeAllLists empties one collection and its index and touches no other collection. |
| Removal.ClearAll | src/main/java/fr/osallek/clausewitzparser/model/ClausewitzItem.java:1023-1027 | removeAll touches only item p. |
| Removal.ClearAllSpec | src/main/java/fr/osallek/clausewitzparser/model/ClausewitzItem.java:1023-1027 | removeAll leaves the item empty, with getNbObjects() 0, keeps the arena well formed and every index exact, and touches no other item. |
| Removal.RemoveFirstMatch | src/main/java/fr/osallek/clausewitzparser/model/ClausewitzItem.java:245-256 | removeChildIf / removeVariableIf / removeListIf touch only item p. |
| Removal.RemoveFirstMatchSpec | src/main/java/fr/osallek/clausewitzparser/model/ClausewitzItem.java:245-256 | removeXIf returns whether some entry matches. Exactly the first match leaves the list, and nothing else in the arena changes. |
| Removal.RemoveObjectKeepsOthers | src/main/java/fr/osallek/clausewitzparser/model/ClausewitzItem.java:151-170 | Removing a present entry takes out just that entry and stays within its collection. |
| Removal.KeepMembers | src/main/java/fr/osallek/clausewitzparser/model/ClausewitzItem.java:258-272 | Filtering keeps exactly the elements the condition does not match and introduces no repeat. |
| Removal.RemoveEveryMatch | src/main/java/fr/osallek/clausewitzparser/model/ClausewitzItem.java:258-272 | removeChildrenIf / removeVariablesIf / removeListsIf, taken to remove every match, touch only item p. |
| Removal.RemoveEveryMatchSpec | src/main/java/fr/osallek/clausewitzparser/model/ClausewitzItem.java:258-272 | The corrected removeXsIf returns whether some entry matches, keeps exactly the entries that do not match, and changes nothing else. |
| Removal.RemoveEveryMatchChanged | src/main/java/fr/osallek/clausewitzparser/model/ClausewitzItem.java:1007-1021 | When some entry matches, the corrected removeXsIf returns true and exactly the non-matching entries remain. |
| Removal.RemoveEveryMatchAsWritten | src/main/java/fr/osallek/clausewitzparser/model/ClausewitzItem.java:306-320 | removeXsIf as written touches only item p; after a first removal the iteration raises ConcurrentModificationException. |
| Removal.RemoveByOrder | src/main/java/fr/osallek/clausewitzparser/model/ClausewitzItem.java:1478-1498 | The corrected removeByOrder touches only item p. |
| Removal.RemoveByOrderAsWritten | src/main/java/fr/osallek/clausewitzparser/model/ClausewitzItem.java:1478-1498 | removeByOrder as written touches only item p (its variables branch goes through the failing loop). |
| Removal.MatchOrderIff | src/main/java/fr/osallek/clausewitzparser/model/ClausewitzItem.java:1478-1498 | Matching by order is having that order; no match means no entry has it. |
| Removal.UniqueAt | src/main/java/fr/osallek/clausewitzparser/model/ClausewitzItem.java:1478-1498 | Under unique orders, the entry of order o is the only one. |
| Removal.RemoveByOrderSpec | src/main/java/fr/osallek/clausewitzparser/model/ClausewitzItem.java:1478-1498 | On an item with distinct orders, the corrected removeByOrder(o) returns whether an entry has order o. Exactly the entries of other orders remain, and the arena stays consistent. |
| Removal.RemoveByOrderAsWrittenThrows | src/main/java/fr/osallek/clausewitzparser/model/ClausewitzItem.java:1478-1498 | On an item whose one variable has order 0, removeByOrder(0) as written raises ConcurrentModificationException. The corrected one returns true and leaves no variable. |
| Removal.RemoveVariableByValue | src/main/java/fr/osallek/clausewitzparser/model/ClausewitzItem.java:713-715 | The corrected removeVariableByValue (see Findings) touches only item p. |
| Removal.RemoveVariableByValueSpec | src/main/java/fr/osallek/clausewitzparser/model/ClausewitzItem.java:713-715 | The corrected removeVariableByValue(v) (see Findings) returns whether some variable holds v. Every variable holding v goes, every other one stays, and nothing else changes. |
| Removal.RemoveVariableByValueAsWritten | src/main/java/fr/osallek/clausewitzparser/model/ClausewitzItem.java:306-320 | removeVariableByValue as written, through the for-each loop of removeVariablesIf: it changes only item p and adds no object. |
| Removal.RemoveVariableByValueAsWrittenThrows | src/main/java/fr/osallek/clausewitzparser/model/ClausewitzItem.java:306-320 | With one variable holding the value, the written loop removes it and then raises ConcurrentModificationException. The corrected removal returns true and leaves no variable. |
| Removal.RemoveFirstEqual | src/main/java/fr/osallek/clausewitzparser/model/ClausewitzItem.java:586-605 | List.remove(Object) on a bucket drops at most one element. |
| Removal.RemoveVariableAtAsWrittenBreaksIndex | src/main/java/fr/osallek/clausewitzparser/model/ClausewitzItem.java:586-605 | With two variables a=1, removeVariable(1) as written takes the first one out of the bucket, so the index no longer matches the list. The corrected removal keeps the index exact and leaves the first variable. |
| Removal.RemoveAtIndexed | src/main/java/fr/osallek/clausewitzparser/model/ClausewitzItem.java:586-605 | Removing a position inside the list keeps an exact index and takes out just that entry. |
| Removal.RemoveVariableWithValueSpec | src/main/java/fr/osallek/clausewitzparser/model/ClausewitzItem.java:694-704 | The corrected removeVariable(name, value) succeeds exactly when a variable of that name holds that value, and then removes such a variable as removeVariable(object) does. Otherwise nothing changes. |
| Removal.RemoveVariableWithValueIgnoresValue | src/main/java/fr/osallek/clausewitzparser/model/ClausewitzItem.java:694-704 | With variables a=1 then a=2, removeVariable("a", "2") as written removes a=1; the corrected one removes a=2. |
| ValueLists.Get | src/main/java/fr/osallek/clausewitzparser/model/ClausewitzList.java:64-70 | get(id) answers exactly for an allocated list and an id inside it, with the value at that id. Otherwise it returns null. |
| ValueLists.IndexIn | src/main/java/fr/osallek/clausewitzparser/model/ClausewitzList.java:120-122 | indexOf is -1 exactly when the value is absent, and otherwise the first position holding exactly that value (case-sensitive). |
| ValueLists.ReadSpec | src/main/java/fr/osallek/clausewitzparser/model/ClausewitzList.java:116-122 | get answers exactly for ids in [0, size). contains agrees with indexOf, and indexOf finds the value. getValues holds the stored values, and isEmpty is size 0. |
| ValueLists.GetAsBoolSpec | src/main/java/fr/osallek/clausewitzparser/model/ClausewitzList.java:92-100 | getAsBool(id) is null exactly for a missing or blank value, and true exactly when the value is "yes". |
| ValueLists.Normalize | src/main/java/fr/osallek/clausewitzparser/model/ClausewitzList.java:170-178 | add keeps nothing for a blank value. Otherwise it keeps a non-blank value: the value itself when it has no space or is already quoted, else the value wrapped in quotes. |
| ValueLists.Normalized | src/main/java/fr/osallek/clausewitzparser/model/ClausewitzList.java:260-262 | addAll keeps at most as many values as it is given. |
| ValueLists.AddSpec | src/main/java/fr/osallek/clausewitzparser/model/ClausewitzList.java:170-178 | add ignores a blank value. Otherwise it appends the stored form at index size, which contains then finds, and every earlier value keeps its index. |
| ValueLists.AddAllSpec | src/main/java/fr/osallek/clausewitzparser/model/ClausewitzList.java:260-262 | addAll appends, in order, what add keeps of each value. |
| ValueLists.NormalizedNotBlank | src/main/java/fr/osallek/clausewitzparser/model/ClausewitzList.java:260-262 | Every value addAll stores is non-blank. |
| ValueLists.AddIntSpec | src/main/java/fr/osallek/clausewitzparser/model/ClausewitzList.java:180-182 | add(int) appends the decimal text, which getAsInt reads back and contains finds. |
| ValueLists.AddBoolSpec | src/main/java/fr/osallek/clausewitzparser/model/ClausewitzList.java:188-190 | add(boolean) appends yes or no, which getAsBool reads back. |
| ValueLists.FirstIgnoreCase | src/main/java/fr/osallek/clausewitzparser/model/ClausewitzList.java:132-142 | The position found is the first value equal to s ignoring case; without one, no value matches. |
| ValueLists.LastIgnoreCase | src/main/java/fr/osallek/clausewitzparser/model/ClausewitzList.java:144-154 | The position found is the last value equal to s ignoring case; without one, no value matches. |
| ValueLists.Delete | src/main/java/fr/osallek/clausewitzparser/model/ClausewitzList.java:124-130 | Removing position i shifts the later values down by one and removes exactly that value from the multiset. |
| ValueLists.Unequal | src/main/java/fr/osallek/clausewitzparser/model/ClausewitzList.java:156-162 | removeIf never lengthens the list. |
| ValueLists.RemoveFirstSpec | src/main/java/fr/osallek/clausewitzparser/model/ClausewitzList.java:132-142 | remove(String) returns whether some value equals s ignoring case. It drops exactly the first such value and keeps the rest in order; without one, nothing changes. |
| ValueLists.RemoveLastSpec | src/main/java/fr/osallek/clausewitzparser/model/ClausewitzList.java:144-154 | removeLast returns whether some value matches, drops exactly the last match, and otherwise changes nothing. |
| ValueLists.UnequalMembers | src/main/java/fr/osallek/clausewitzparser/model/ClausewitzList.java:156-162 | The values removeIf keeps are exactly those not equal to s ignoring case. |
| ValueLists.UnequalLength | src/main/java/fr/osallek/clausewitzparser/model/ClausewitzList.java:156-162 | removeIf keeps the length exactly when nothing matches. |
| ValueLists.RemoveEverySpec | src/main/java/fr/osallek/clausewitzparser/model/ClausewitzList.java:156-162 | removeAll returns whether some value matches, and keeps exactly the values not equal to s ignoring case. |
| ValueLists.RemoveAtSpec | src/main/java/fr/osallek/clausewitzparser/model/ClausewitzList.java:124-130 | remove(int) returns true exactly when get(id) answers, and then drops exactly that value. On an allocated list an id outside it raises IndexOutOfBoundsException. |
| ValueLists.SetSpec | src/main/java/fr/osallek/clausewitzparser/model/ClausewitzList.java:196-200 | set ignores a blank value. Inside the list it stores the value as given at that index only, and outside it raises IndexOutOfBoundsException. |
| ValueLists.SetAllSpec | src/main/java/fr/osallek/clausewitzparser/model/ClausewitzList.java:218-221 | setAll leaves exactly what addAll keeps of the new values. |
| ValueLists.ChangeSpec | src/main/java/fr/osallek/clausewitzparser/model/ClausewitzList.java:243-258 | change keeps the size. With a blank new value, or no value equal to previous ignoring case, nothing changes. Otherwise only the first match is replaced. |
| ValueLists.ListEqualsSpec | src/main/java/fr/osallek/clausewitzparser/model/ClausewitzList.java:359-369 | equals raises only when the names are equal and the receiver's values were never allocated. It is symmetric on two allocated lists, and equal lists hold the same values. |
| Variables.DateText | src/main/java/fr/osallek/clausewitzparser/model/ClausewitzVariable.java:139-145 | setValue(date, quotes) stores the y.M.d text, wrapped in quotes exactly when quotes is set. |
| Variables.GetAsIntOfSetValue | src/main/java/fr/osallek/clausewitzparser/model/ClausewitzVariable.java:61-69 | setValue(int) followed by getAsInt gives the number back. |
| Variables.GetAsLongOfSetValue | src/main/java/fr/osallek/clausewitzparser/model/ClausewitzVariable.java:71-79 | setValue(long) followed by getAsLong gives the number back. |
| Variables.GetAsBoolOfSetValue | src/main/java/fr/osallek/clausewitzparser/model/ClausewitzVariable.java:91-99 | setValue(boolean) followed by getAsBool gives the flag back, and so does its quoted form. |
| Variables.GetAsDateOfText | src/main/java/fr/osallek/clausewitzparser/model/ClausewitzVariable.java:101-113 | getAsDate reads a date through the unquoted text. |
| Variables.QuotedDateText | src/main/java/fr/osallek/clausewitzparser/model/ClausewitzVariable.java:139-145 | The quoted date text is the plain text between two quotes; removeQuotes gives the plain text back. |
| Variables.GetAsDateOfSetValue | src/main/java/fr/osallek/clausewitzparser/model/ClausewitzVariable.java:101-113 | setValue(date, quotes) followed by getAsDate gives the date back, quoted or not. |
| Variables.SettingReadsBack | src/main/java/fr/osallek/clausewitzparser/model/ClausewitzVariable.java:115-145 | Every setValue overload (string, int, long, boolean, date, quoted date) is read back by its getter. |
| Variables.VariableEqualsCases | src/main/java/fr/osallek/clausewitzparser/model/ClausewitzVariable.java:148-158 | On one example, equals ignores the case of names but not of values. Variables.VariableEqualsSpec states it in general. |
| Variables.VariableEqualsSpec | src/main/java/fr/osallek/clausewitzparser/model/ClausewitzVariable.java:148-158 | equals is reflexive, symmetric and transitive on all nodes. Two different nodes are equal exactly when both are variables whose names lower-case to the same string and whose values are equal. |
| Construction.AddObject | src/main/java/fr/osallek/clausewitzparser/model/ClausewitzItem.java:95-101 | Registration never changes the number of objects in the arena. |
| Construction.AddObjectIgnoresVariables | src/main/java/fr/osallek/clausewitzparser/model/ClausewitzItem.java:95-101 | addObject changes the arena exactly when the object is not a Variable: Items and Lists are registered, a Variable is ignored. |
| Construction.AddOnlyOrders | src/main/java/fr/osallek/clausewitzparser/model/ClausewitzItem.java:107-120 | Registering x in p leaves every other object the same except for its order. |
| Construction.AddBucket | src/main/java/fr/osallek/clausewitzparser/model/ClausewitzItem.java:107-120 | Registering x appends it to the name bucket of its name, creating the bucket if need be, and leaves every other bucket as it was. |
| Construction.RegisterBucket | src/main/java/fr/osallek/clausewitzparser/model/ClausewitzItem.java:118-119 | computeIfAbsent(name).add(x): x goes at the end of its name's bucket, and no other bucket changes. |
| Construction.AddKeepsParents | src/main/java/fr/osallek/clausewitzparser/model/ClausewitzPObject.java:42-44 | Registering an object never changes any object's getParent. |
| Construction.Construct | src/main/java/fr/osallek/clausewitzparser/model/ClausewitzPObject.java:7-14 | A constructor adds exactly one object, equal to the one built apart from the order its parent gives it. |
| Construction.ConstructSpec | src/main/java/fr/osallek/clausewitzparser/model/ClausewitzPObject.java:7-14 | A constructor keeps the arena well formed and every exact index exact. Without a parent nothing else changes. With a parent, the object is appended to the parent's collection of its kind and nothing outside that collection changes. Without increaseOrder it takes order getNbObjects() and no order moves; with it, it keeps its order and every sibling at or above it moves up by one. |
| Construction.NewItem | src/main/java/fr/osallek/clausewitzparser/model/ClausewitzItem.java:47-58 | new ClausewitzItem adds exactly one object to the arena. |
| Construction.NewRoot | src/main/java/fr/osallek/clausewitzparser/model/ClausewitzItem.java:43-45 | new ClausewitzItem() adds exactly one object to the arena. |
| Construction.AddChildNamed | src/main/java/fr/osallek/clausewitzparser/model/ClausewitzItem.java:122-128 | addChild(name) adds exactly one object to the arena. |
| Construction.NewVariable | src/main/java/fr/osallek/clausewitzparser/model/ClausewitzVariable.java:18-21 | A new variable is appended to the arena, and every existing object stays as it was. |
| Construction.CopyVariable | src/main/java/fr/osallek/clausewitzparser/model/ClausewitzVariable.java:52-55 | The copy is appended to the arena, and every existing object stays as it was. |
| Construction.CopyVariableSpec | src/main/java/fr/osallek/clausewitzparser/model/ClausewitzVariable.java:52-55 | The copy has the original's name, order and value, and it equals the original. |
| Construction.CopyList | src/main/java/fr/osallek/clausewitzparser/model/ClausewitzList.java:49-54 | Copying a list adds exactly one object to the arena. |
| Construction.CopyListSpec | src/main/java/fr/osallek/clausewitzparser/model/ClausewitzList.java:49-54 | The copy holds equal values (its own list, not a shared one; see Left out), the same flags and the same parent. It is appended to the parent's lists with order getNbObjects(). |
| Construction.GetRoot | src/main/java/fr/osallek/clausewitzparser/model/ClausewitzPObject.java:38-40 | getRoot returns an object at or before i in the arena that has no parent. |
| Construction.GetRootSpec | src/main/java/fr/osallek/clausewitzparser/model/ClausewitzPObject.java:38-40 | The root is an ancestor of the object and has no parent, and it is the only ancestor without a parent. |
| Construction.SetName | src/main/java/fr/osallek/clausewitzparser/model/ClausewitzObject.java:29-31 | setName keeps the number of objects. |
| Construction.SetNameSpec | src/main/java/fr/osallek/clausewitzparser/model/ClausewitzObject.java:29-31 | setName gives the object its new name. Its order and every other object stay the same, and every name bucket stays as it was, so lookups by name still answer with the old name. |
| Construction.SetValue | src/main/java/fr/osallek/clausewitzparser/model/ClausewitzVariable.java:115-145 | setValue keeps the number of objects. |
| Construction.SetValueSpec | src/main/java/fr/osallek/clausewitzparser/model/ClausewitzVariable.java:115-145 | setValue changes only the value of that one variable, and the new value reads back through the matching getAs* accessor. Names, orders, other objects and exact indexes are all kept. |
| Construction.WithValues | src/main/java/fr/osallek/clausewitzparser/model/ClausewitzList.java:164-258 | Replacing a list's values keeps the number of objects and the object is still a list. |
| Construction.WithValuesSpec | src/main/java/fr/osallek/clausewitzparser/model/ClausewitzList.java:164-258 | A change to a list's values changes only that list's values and their created flag. Its name, order and flags stay, and so do the other objects, every collection and every index. |
| Construction.ShiftAgain | src/main/java/fr/osallek/clausewitzparser/model/ClausewitzList.java:44-46 | The list constructor's second shifting pass keeps the number of objects. |
| Construction.ShiftAgainOrders | src/main/java/fr/osallek/clausewitzparser/model/ClausewitzList.java:44-46 | When no null list is met, the second pass completes and changes no shape, name or collection. Every entry other than the new list whose order is at or above o moves up by one. |
| Construction.ShiftAgainCompletes | src/main/java/fr/osallek/clausewitzparser/model/ClausewitzList.java:44-46 | Without a null list of the same name among the siblings, the second pass never raises. |
| Construction.NewListAsWritten | src/main/java/fr/osallek/clausewitzparser/model/ClausewitzList.java:39-47 | The list constructor as written adds exactly one object to the arena. |
| Construction.NewList | src/main/java/fr/osallek/clausewitzparser/model/ClausewitzList.java:39-47 | The intended constructor adds one list object, which has no values yet. |
| Construction.NewListAsWrittenShiftsTwice | src/main/java/fr/osallek/clausewitzparser/model/ClausewitzList.java:39-47 | With increaseOrder, the constructor as written moves every sibling at or above the order up by two. The intended one moves them up by one. Both keep the new list at its order and leave the same collections. |
| Construction.NewListAsWrittenBreaksDense | src/main/java/fr/osallek/clausewitzparser/model/ClausewitzList.java:39-47 | When a sibling at or above the order already holds the top order, the constructor as written leaves the parent's orders not dense. |
| Construction.NewListAsWrittenSkipsOrder | src/main/java/fr/osallek/clausewitzparser/model/ClausewitzList.java:39-47 | A list added at order 0 in front of a lone variable: as written the variable ends at order 2 of two entries. |
| Construction.NewListAsWrittenNeedsParent | src/main/java/fr/osallek/clausewitzparser/model/ClausewitzList.java:39-47 | Without a parent, the constructor as written raises NullPointerException when increaseOrder is set. The intended one builds the detached list. |
| Construction.NewListKeepsDense | src/main/java/fr/osallek/clausewitzparser/model/ClausewitzList.java:39-47 | The intended constructor keeps the parent's orders dense for an order within 0..getNbObjects(), and adds the list to the parent's entries. |
| Construction.AddVariableAt | src/main/java/fr/osallek/clausewitzparser/model/ClausewitzItem.java:548-556 | addVariable(name, value, order, increaseOrders) adds exactly one object. |
| Construction.AddVariable | src/main/java/fr/osallek/clausewitzparser/model/ClausewitzItem.java:514-518 | addVariable(name, value) adds exactly one object. |
| Construction.AddVariableAtSpec | src/main/java/fr/osallek/clausewitzparser/model/ClausewitzItem.java:278-291 | The new variable is the next object. It holds the name, and its value reads back. It is the last variable and the last of its name bucket, and no other collection changes. Without increaseOrders it takes order getNbObjects() and no order moves; with it, the siblings at or above its order move up by one. Dense orders stay dense. |
| Construction.SetVariableExisting | src/main/java/fr/osallek/clausewitzparser/model/ClausewitzItem.java:386-396 | When a variable of that name exists, setVariable returns that first variable, the value of which now reads back. |
| Construction.SetVariableNew | src/main/java/fr/osallek/clausewitzparser/model/ClausewitzItem.java:386-396 | When no variable of that name exists, setVariable appends a new variable, which getVar(name) then finds. |
| Construction.SetVariableSpec | src/main/java/fr/osallek/clausewitzparser/model/ClausewitzItem.java:386-448 | setVariable(name, value) never raises on an exactly indexed item. Afterwards getVar(name) finds the returned variable and its value reads back. An existing variable is overwritten in place and nothing else changes; otherwise a new variable is appended. |
| Construction.SetVariableAtSpec | src/main/java/fr/osallek/clausewitzparser/model/ClausewitzItem.java:322-384 | setVariable(index, value) and setVariableName(index, name) act on exactly getVar(index), changing only its value or its name respectively. With no variable at that position, nothing changes. |
| Construction.AddList | src/main/java/fr/osallek/clausewitzparser/model/ClausewitzItem.java:738-772 | addList adds exactly one object, a list. |
| Construction.AddListSpec | src/main/java/fr/osallek/clausewitzparser/model/ClausewitzItem.java:721-772 | The new list is the next object. It carries the name, the parent and the flags, holds what addAll keeps of the values, and is the last list and the last of its bucket. The orders follow the increaseOrder rule of addChild and addVariable. |
| Construction.AddToExistingListSpec | src/main/java/fr/osallek/clausewitzparser/model/ClausewitzItem.java:774-806 | addToExistingList never raises on an exactly indexed item. The returned list is the one getList(name), or getLastList(name), finds afterwards. When such a list existed, it is that list with the values appended; otherwise a new list is created. |
| Construction.SortLists | src/main/java/fr/osallek/clausewitzparser/model/ClausewitzItem.java:874 | Sorting the lists keeps the number of objects. |
| Construction.SortListsSpec | src/main/java/fr/osallek/clausewitzparser/model/ClausewitzItem.java:874 | Sorting keeps the arena well formed and holds the same lists, now ordered by order. Names, orders, buckets and every other collection are unchanged. |
| Construction.ChildRemoved | src/main/java/fr/osallek/clausewitzparser/model/ClausewitzItem.java:245-256 | removeChildIf on order c under unique orders returns whether a child of that order exists. It takes out exactly that child and keeps everything else. |
| Construction.ChildRemovedCount | src/main/java/fr/osallek/clausewitzparser/model/ClausewitzItem.java:245-256 | Exactly one child leaves when one has order c; otherwise none does. |
| Construction.PlaceList | src/main/java/fr/osallek/clausewitzparser/model/ClausewitzItem.java:872-873 | Building the replacing list adds exactly one object. |
| Construction.PlaceListSpec | src/main/java/fr/osallek/clausewitzparser/model/ClausewitzItem.java:872-873 | The replacing list keeps the arena well formed and has the requested order, name and flags, with the normalised values. It is appended to the lists, and no other order or name changes. |
| Construction.ChangeChildToListSpec | src/main/java/fr/osallek/clausewitzparser/model/ClausewitzItem.java:869-877 | The intended changeChildToList returns the new list, which holds what addAll keeps of the values and takes order childOrder. No other order changes, and the lists are the former ones plus the new list, sorted by order. |
| Construction.ChangeChildToListEntries | src/main/java/fr/osallek/clausewitzparser/model/ClausewitzItem.java:869-877 | The child of that order, if any, leaves the children. The variables are untouched and the child and variable indexes stay exact. The item ends with one object fewer if that child existed, plus the list. |
| Construction.ChangeChildToListMembers | src/main/java/fr/osallek/clausewitzparser/model/ClausewitzItem.java:869-877 | Afterwards the item holds the new list and every former object except the child of that order. |
| Construction.ChangeChildToListKeepsUnique | src/main/java/fr/osallek/clausewitzparser/model/ClausewitzItem.java:869-877 | When a child of that order was present, the intended call keeps the orders unique, and dense if they were dense. |
| Construction.ChangeChildToListAsWrittenOrder | src/main/java/fr/osallek/clausewitzparser/model/ClausewitzItem.java:869-877 | As written, the list's order is getNbObjects() taken after the removal, not childOrder. Every other order is kept. |
| Construction.ChangeChildToListAsWrittenDuplicates | src/main/java/fr/osallek/clausewitzparser/model/ClausewitzItem.java:869-877 | As written, when another object already holds the top order, two objects end up with the same order. |
| Construction.ChangeChildToListTwoChildren | src/main/java/fr/osallek/clausewitzparser/model/ClausewitzItem.java:869-877 | changeChildToList(0, ...) on children a (order 0) and b (order 1): as written the list gets order 1, a duplicate of b's. As intended it gets order 0 and the orders stay unique. |
| Construction.ChangeChildToListAtTop | src/main/java/fr/osallek/clausewitzparser/model/ClausewitzItem.java:869-877 | When the child replaced holds the item's top order getNbObjects() - 1, the written changeChildToList gives exactly the result of the corrected one. |
| Documents.OrderedMembers | src/main/java/fr/osallek/clausewitzparser/model/ClausewitzItem.java:1445-1463 | getAllOrdered holds every object of the item exactly once, and each is an object of the arena. |
| Documents.WithSameLine | src/main/java/fr/osallek/clausewitzparser/model/ClausewitzItem.java:64-66 | setSameLine changes only an item's sameLine flag and leaves any other kind of object unchanged. |
| Documents.Document.constructor | src/main/java/fr/osallek/clausewitzparser/model/ClausewitzItem.java:43-45 | A new document holds a single well-formed root item. |
| Documents.Document.ShiftFrom | src/main/java/fr/osallek/clausewitzparser/model/ClausewitzItem.java:112-113 | In place, every object of p at or above order t moves up by one, as Items.ShiftOrders states. |
| Documents.Document.AddEntry | src/main/java/fr/osallek/clausewitzparser/model/ClausewitzItem.java:107-120 | In place, registers x in p's collection, as Construction.AddBucket and Construction.AddOnlyOrders state. |
| Documents.Document.Construct | src/main/java/fr/osallek/clausewitzparser/model/ClausewitzPObject.java:7-14 | In place, a constructor returns the new object's id. The document keeps its well-formedness, as Construction.ConstructSpec states. |
| Documents.Document.NewItem | src/main/java/fr/osallek/clausewitzparser/model/ClausewitzItem.java:47-58 | In place, new ClausewitzItem returns the new id and keeps the document well formed. |
| Documents.Document.AddChildNamed | src/main/java/fr/osallek/clausewitzparser/model/ClausewitzItem.java:122-128 | In place, addChild(name) returns the new child's id and keeps the document well formed. |
| Documents.Document.NewList | src/main/java/fr/osallek/clausewitzparser/model/ClausewitzList.java:39-47 | In place, the intended list constructor returns the new id and keeps the document well formed. |
| Documents.Document.NewVariable | src/main/java/fr/osallek/clausewitzparser/model/ClausewitzVariable.java:18-21 | In place, new ClausewitzVariable appends the variable and returns its id. |
| Documents.Document.SetName | src/main/java/fr/osallek/clausewitzparser/model/ClausewitzObject.java:29-31 | In place, setName makes the change Construction.SetNameSpec describes. |
| Documents.Document.SetValue | src/main/java/fr/osallek/clausewitzparser/model/ClausewitzVariable.java:115-145 | In place, setValue makes the change Construction.SetValueSpec describes. |
| Documents.Document.SetSameLine | src/main/java/fr/osallek/clausewitzparser/model/ClausewitzItem.java:64-66 | In place, setSameLine changes only that item's flag. |
| Documents.Document.ListAdd | src/main/java/fr/osallek/clausewitzparser/model/ClausewitzList.java:170-178 | In place, list.add(s) replaces the list's values by ValueLists.Add of them, as ValueLists.AddSpec states. |
| Documents.Document.ListAddAll | src/main/java/fr/osallek/clausewitzparser/model/ClausewitzList.java:260-262 | In place, addAll replaces the list's values by ValueLists.AddAll of them. |
| Documents.Document.ListRemove | src/main/java/fr/osallek/clausewitzparser/model/ClausewitzList.java:132-142 | In place, remove(value) drops the first value equal ignoring case and returns whether one was found. |
| Documents.Document.ListRemoveLast | src/main/java/fr/osallek/clausewitzparser/model/ClausewitzList.java:144-154 | In place, removeLast(value) drops the last value equal ignoring case and returns whether one was found. |
| Documents.Document.ListChange | src/main/java/fr/osallek/clausewitzparser/model/ClausewitzList.java:243-258 | In place, change(previous, newOne) makes the change ValueLists.ChangeSpec describes. |
| Documents.Document.ListSet | src/main/java/fr/osallek/clausewitzparser/model/ClausewitzList.java:196-200 | In place, set(id, value) makes the change ValueLists.SetSpec describes, including the out-of-range error. |
| Documents.Document.ListClear | src/main/java/fr/osallek/clausewitzparser/model/ClausewitzList.java:164-168 | In place, clear empties the list's values. |
| Documents.Document.ListSetAll | src/main/java/fr/osallek/clausewitzparser/model/ClausewitzList.java:218-221 | In place, setAll replaces the values, as ValueLists.SetAllSpec states. |
| Documents.Document.AddVariableAt | src/main/java/fr/osallek/clausewitzparser/model/ClausewitzItem.java:548-556 | In place, addVariable(name, value, order, increaseOrders) returns the new id and keeps the document well formed. |
| Documents.Document.AddVariable | src/main/java/fr/osallek/clausewitzparser/model/ClausewitzItem.java:514-518 | In place, addVariable(name, value) returns the new id and keeps the document well formed. |
| Documents.Document.SetVariable | src/main/java/fr/osallek/clausewitzparser/model/ClausewitzItem.java:386-448 | In place, setVariable(name, value) makes the change Construction.SetVariableSpec describes and keeps the document well formed. |
| Documents.Document.AddList | src/main/java/fr/osallek/clausewitzparser/model/ClausewitzItem.java:738-772 | In place, addList returns the new list's id and keeps the document well formed. |
| Documents.Document.AddToExistingList | src/main/java/fr/osallek/clausewitzparser/model/ClausewitzItem.java:774-806 | In place, addToExistingList makes the change Construction.AddToExistingListSpec describes. |
| Documents.Document.SortLists | src/main/java/fr/osallek/clausewitzparser/model/ClausewitzItem.java:874 | In place, the item's lists are sorted by order, as Construction.SortListsSpec states. |
| Documents.Document.ChangeChildToList | src/main/java/fr/osallek/clausewitzparser/model/ClausewitzItem.java:869-877 | In place, the intended changeChildToList makes the change Construction.ChangeChildToListSpec describes. |
| Documents.Document.RemoveObject | src/main/java/fr/osallek/clausewitzparser/model/ClausewitzItem.java:151-170 | In place, removeChild/removeVariable/removeList(object) make the change Removal.RemoveObjectSpec describes. |
| Documents.Document.RemoveAt | src/main/java/fr/osallek/clausewitzparser/model/ClausewitzItem.java:130-149 | In place, removal by position makes the change Removal.RemoveAtSpec describes. |
| Documents.Document.RemoveNamed | src/main/java/fr/osallek/clausewitzparser/model/ClausewitzItem.java:172-224 | In place, removal of the id-th, first or last object of a name makes the change Removal.RemoveNamedSpec describes. |
| Documents.Document.RemoveAllNamed | src/main/java/fr/osallek/clausewitzparser/model/ClausewitzItem.java:226-236 | In place, removal of every object of a name makes the change Removal.RemoveAllNamedSpec describes. |
| Documents.Document.RemoveFirstMatch | src/main/java/fr/osallek/clausewitzparser/model/ClausewitzItem.java:245-256 | In place, removeChildIf and its kin make the change Removal.RemoveFirstMatchSpec describes. The item stays an item and the arena keeps its size. |
| Documents.Document.RemoveByOrder | src/main/java/fr/osallek/clausewitzparser/model/ClausewitzItem.java:1478-1498 | In place, the intended removeByOrder makes the change Removal.RemoveByOrderSpec describes. |
| Documents.Document.Clear | src/main/java/fr/osallek/clausewitzparser/model/ClausewitzItem.java:238-243 | In place, removeAllChildren/Variables/Lists empty the collection, as Removal.ClearKeeps states. |
| Documents.SameValues | src/main/java/fr/osallek/clausewitzparser/model/ClausewitzList.java:164-258 | Writing back a list's own values changes nothing. A second write overrides the first, and what is written reads back. |
| Writers.TextWriter.constructor | src/main/java/fr/osallek/clausewitzparser/common/ClausewitzUtils.java:141-164 | A new writer has written nothing. |
| Writers.TextWriter.Write | src/main/java/fr/osallek/clausewitzparser/common/ClausewitzUtils.java:141-164 | Each write appends exactly its text to what has been written. |
| Writers.TextWriter.WriteVariable | src/main/java/fr/osallek/clausewitzparser/model/ClausewitzVariable.java:171-176 | A variable is written as tabs, name, "=" and value, appended to the text. |
| Writers.TextWriter.WriteList | src/main/java/fr/osallek/clausewitzparser/model/ClausewitzList.java:382-422 | The writer appends exactly the list's text: head, body and closing brace. It changes no node (see Left out). |
| Writers.TextWriter.WriteListHead | src/main/java/fr/osallek/clausewitzparser/model/ClausewitzList.java:385-395 | The writer appends the list head: tabs, then name and "=" when the name is not blank, then "{" and a newline when the list has brackets. |
| Writers.TextWriter.WriteListBody | src/main/java/fr/osallek/clausewitzparser/model/ClausewitzList.java:397-416 | The writer appends the list's values, on one line or one per line. |
| Writers.TextWriter.WriteValuesSpaced | src/main/java/fr/osallek/clausewitzparser/model/ClausewitzList.java:402-405 | The writer appends each value followed by a space. |
| Writers.TextWriter.WriteValuesLined | src/main/java/fr/osallek/clausewitzparser/model/ClausewitzList.java:411-415 | The writer appends each value on a line of its own, indented one level deeper. |
| Writers.TextWriter.WriteObject | src/main/java/fr/osallek/clausewitzparser/model/ClausewitzItem.java:1559-1603 | The writer appends exactly the object's text, whatever its kind. |
| Writers.TextWriter.WriteItem | src/main/java/fr/osallek/clausewitzparser/model/ClausewitzItem.java:1559-1603 | The writer appends exactly the item's text: a header, the ordered body and the closing brace, or, for the root, the objects joined by newlines. |
| Writers.TextWriter.WriteItemBody | src/main/java/fr/osallek/clausewitzparser/model/ClausewitzItem.java:1574-1588 | The writer appends the body of a named item, spaced on one line when sameLine is set and it has children, otherwise one object per line. |
| Writers.TextWriter.WriteHeader | src/main/java/fr/osallek/clausewitzparser/model/ClausewitzItem.java:1562-1572 | The writer appends the item's header line. |
| Writers.TextWriter.WriteSpaced | src/main/java/fr/osallek/clausewitzparser/model/ClausewitzItem.java:1574-1582 | The writer appends each ordered object at depth 0 followed by a space. |
| Writers.TextWriter.WriteLined | src/main/java/fr/osallek/clausewitzparser/model/ClausewitzItem.java:1583-1588 | The writer appends each ordered object one level deeper, each followed by a newline. |
| Writers.TextWriter.WriteJoined | src/main/java/fr/osallek/clausewitzparser/model/ClausewitzItem.java:1591-1600 | The writer appends the root's objects with a newline between two of them and none after the last. |
| Writers.OrderedAfter | src/main/java/fr/osallek/clausewitzparser/model/ClausewitzItem.java:1445-1463 | Every object in getAllOrdered comes after its item in the arena, so writing it recurses on a later node. |
| Writers.ValuesCount | src/main/java/fr/osallek/clausewitzparser/model/ClausewitzList.java:397-416 | Values free of a character add none of it; a lined body has one newline per value. |
| Writers.ListLines | src/main/java/fr/osallek/clausewitzparser/model/ClausewitzList.java:382-422 | The newlines in a list's text: 2 with brackets on the same line, one per value plus one with brackets otherwise, none without brackets on the same line, and one per value without brackets otherwise. |
| Writers.ListHeadCount | src/main/java/fr/osallek/clausewitzparser/model/ClausewitzList.java:385-395 | The list head holds one "{" and one newline when it has brackets, and neither otherwise. |
| Writers.ListBodyCount | src/main/java/fr/osallek/clausewitzparser/model/ClausewitzList.java:397-416 | The list body holds one newline per value, or a single one on the same line with brackets. |
| Writers.VariableSplit | src/main/java/fr/osallek/clausewitzparser/model/ClausewitzVariable.java:171-176 | Splitting a written variable at its first "=" gives back the indented name and the value exactly when the name has no "=". |
| Writers.FirstIndex | src/main/java/fr/osallek/clausewitzparser/model/ClausewitzVariable.java:171-176 | FirstIndex finds a position holding the character, and finds none exactly when the character is absent. |
| Writers.ListBalanced | src/main/java/fr/osallek/clausewitzparser/model/ClausewitzList.java:382-422 | A list whose name and values hold no braces is written with balanced braces. |
| Writers.ObjectBalanced | src/main/java/fr/osallek/clausewitzparser/model/ClausewitzItem.java:1559-1603 | An object tree whose names and values hold no braces is written with balanced braces. |
| Writers.ItemBalanced | src/main/java/fr/osallek/clausewitzparser/model/ClausewitzItem.java:1559-1603 | An item whose names and values hold no braces is written with balanced braces. |
| Writers.HeaderCount | src/main/java/fr/osallek/clausewitzparser/model/ClausewitzItem.java:1562-1572 | The header holds exactly one "{" and one newline. |
| Writers.OnlyVariables | src/main/java/fr/osallek/clausewitzparser/model/ClausewitzItem.java:1445-1463 | An item with no children and no lists orders only variables. |
| Writers.LinedLines | src/main/java/fr/osallek/clausewitzparser/model/ClausewitzItem.java:1583-1588 | Variables written one per line give one newline each. |
| Writers.JoinedLines | src/main/java/fr/osallek/clausewitzparser/model/ClausewitzItem.java:1591-1600 | The root's variables joined by newlines give one newline fewer than there are variables. |
| Writers.FlatItemLines | src/main/java/fr/osallek/clausewitzparser/model/ClausewitzItem.java:1559-1603 | A named item holding only variables is written with getNbObjects() + 1 newlines: one after the header and one per object. |
| Writers.RootLines | src/main/java/fr/osallek/clausewitzparser/model/ClausewitzItem.java:1591-1600 | The root holding only variables is written with getNbObjects() - 1 newlines. |
| TextParsing.Cleared | src/main/java/fr/osallek/clausewitzparser/parser/ClausewitzParser.java:342-343 | After a value is stored the pending strings are cleared and '=' is forgotten, while the newline count is kept. |
| TextParsing.AfterChild | src/main/java/fr/osallek/clausewitzparser/parser/ClausewitzParser.java:367-372 | After a child block the last pending string, which named the child, is dropped and '=' is forgotten. |
| TextParsing.OnQuoted | src/main/java/fr/osallek/clausewitzparser/parser/ClausewitzParser.java:339-349 | A quoted string keeps the document parsable and only adds to it. |
| TextParsing.OnBare | src/main/java/fr/osallek/clausewitzparser/parser/ClausewitzParser.java:406-414 | A bare token keeps the document parsable and only adds to it. |
| TextParsing.OnOpen | src/main/java/fr/osallek/clausewitzparser/parser/ClausewitzParser.java:356-379 | '{' adds a new child item and keeps the document parsable. |
| TextParsing.Convert | src/main/java/fr/osallek/clausewitzparser/parser/ClausewitzParser.java:381-396 | Turning a closed block's pending strings into a list keeps the document parsable and only adds to it. When the block is an open block (TextParsing.Chain), its parent stays one. |
| TextParsing.MarkSameLine | src/main/java/fr/osallek/clausewitzparser/parser/ClausewitzParser.java:398-401 | Marking a block as sameLine keeps the document parsable and only adds to it. |
| TextParsing.OnClose | src/main/java/fr/osallek/clausewitzparser/parser/ClausewitzParser.java:381-404 | '}' keeps the document parsable and only adds to it. |
| TextParsing.TrimQuoted | src/main/java/fr/osallek/clausewitzparser/parser/ClausewitzParser.java:345 | Trimming a quoted string leaves it unchanged, since it starts and ends with a quote. |
| TextParsing.NewVariable | src/main/java/fr/osallek/clausewitzparser/parser/ClausewitzParser.java:341 | addVariable(name, value) appends a variable at order getNbObjects(). It becomes the last variable of that name, and no other order changes. |
| TextParsing.QuotedValue | src/main/java/fr/osallek/clausewitzparser/parser/ClausewitzParser.java:340-343 | After '=', a quoted string becomes a variable named by the first pending string, with the quotes kept, and the pending state is cleared. |
| TextParsing.QuotedPending | src/main/java/fr/osallek/clausewitzparser/parser/ClausewitzParser.java:345 | Without '=', a quoted string is trimmed and pushed onto the pending strings, and the document is unchanged. |
| TextParsing.BareToken | src/main/java/fr/osallek/clausewitzparser/parser/ClausewitzParser.java:406-414 | Without '=', a bare token is pushed onto the pending strings. After '=', it becomes a variable named by the first pending string, or is dropped when nothing is pending; either way the pending state is cleared. |
| TextParsing.OpenChild | src/main/java/fr/osallek/clausewitzparser/parser/ClausewitzParser.java:357 | '{' creates a child item named by the last pending string ("" when none) at order getNbObjects(), with hasEquals set when '=' was seen. It becomes the last child of that name. |
| TextParsing.CloseAtRootThrows | src/main/java/fr/osallek/clausewitzparser/parser/ClausewitzParser.java:383 | '}' with pending strings at the root raises NullPointerException, because the root has no parent. |
| TextParsing.MarkFrame | src/main/java/fr/osallek/clausewitzparser/parser/ClausewitzParser.java:398-401 | Marking sameLine changes only the current item, and no collection or order. |
| TextParsing.CloseSameLine | src/main/java/fr/osallek/clausewitzparser/parser/ClausewitzParser.java:398-401 | '}' with nothing pending sets sameLine exactly when the block is flat: at most two newlines, no children or lists, and more than one variable. Nothing else changes. |
| TextParsing.CloseNewList | src/main/java/fr/osallek/clausewitzparser/parser/ClausewitzParser.java:394 | '}' with pending strings, when the block's parent has no child of the block's name, adds a bracketed list under the block's parent. The list has the block's name and the values, is sameLine when there are several values over at most two newlines, and takes order getNbObjects(). No state the parser reaches takes this branch, because there the block is an open block. |
| TextParsing.ConvertAnonymous | src/main/java/fr/osallek/clausewitzparser/parser/ClausewitzParser.java:391 | When the parent's last child of the block's name has objects, the pending strings become a nameless list without brackets in that child. In an open block that child is the block itself. |
| TextParsing.AnonymousList | src/main/java/fr/osallek/clausewitzparser/parser/ClausewitzParser.java:391 | addList("", ...) gives a nameless list without brackets under the item, with the values addAll keeps. |
| TextParsing.CloseAnonymous | src/main/java/fr/osallek/clausewitzparser/parser/ClausewitzParser.java:391 | '}' in that case adds the nameless list to that child (the block itself in an open block) with order getNbObjects(). It is sameLine when there are several values over at most getNbObjects() * 2 + 2 newlines. |
| TextParsing.ConvertEmpty | src/main/java/fr/osallek/clausewitzparser/parser/ClausewitzParser.java:386-389 | When the parent's last child of the block's name is empty, the pending strings replace that child through the corrected changeChildToList at the child's order. In an open block that child is the block itself, and the written changeChildToList gives the same result. |
| TextParsing.ListFromChild | src/main/java/fr/osallek/clausewitzparser/parser/ClausewitzParser.java:386-389 | changeChildToList yields a bracketed list with the name, flags and values at the replaced child's order, and the child leaves. |
| TextParsing.CloseEmptyToList | src/main/java/fr/osallek/clausewitzparser/parser/ClausewitzParser.java:386-389 | '}' in that case replaces the empty child (the block itself in an open block) by the list at the child's own order. The child leaves the parent's children, and the lists stay sorted by order. |
| TextParsing.LastChildIsBlock | src/main/java/fr/osallek/clausewitzparser/parser/ClausewitzParser.java:383 | In an open block, getLastChild(name) on the parent finds the block itself, and the block's order is the parent's highest. |
| TextParsing.ReadBlock | src/main/java/fr/osallek/clausewitzparser/parser/ClausewitzParser.java:309-416 | Reading a block only moves forward within the input, keeps the document parsable and only adds to it. It keeps the block's parent an open block: the last child of its own parent, at its top order, with dense orders, and so on up to the root. |
| TextParsing.QuotedBlock | src/main/java/fr/osallek/clausewitzparser/parser/ClausewitzParser.java:339-349 | A quoted string consumes at least one character and keeps the document parsable. |
| TextParsing.OpenBlock | src/main/java/fr/osallek/clausewitzparser/parser/ClausewitzParser.java:356-379 | A nested block consumes at least one character and keeps the document parsable. |
| TextParsing.BareBlock | src/main/java/fr/osallek/clausewitzparser/parser/ClausewitzParser.java:406-414 | A bare token consumes at least one character and keeps the document parsable. |
| TextParsing.Close | src/main/java/fr/osallek/clausewitzparser/parser/ClausewitzParser.java:381-404 | In place, '}' makes exactly the change OnClose describes. |
| TextParsing.QuotedUnfold | src/main/java/fr/osallek/clausewitzparser/parser/ClausewitzParser.java:339-349 | A quoted string is read up to its closing quote and handled as OnQuoted says, then the reading continues after it. |
| TextParsing.TakeQuoted | src/main/java/fr/osallek/clausewitzparser/parser/ClausewitzParser.java:339-349 | In place, the reader moves past the closing quote, and the document takes exactly the change OnQuoted describes. |
| TextParsing.Quoted | src/main/java/fr/osallek/clausewitzparser/parser/ClausewitzParser.java:339-349 | In place, the quoted-string step agrees with QuotedBlock: it either finishes the block the same way or leaves the rest to ReadBlock. |
| TextParsing.Bare | src/main/java/fr/osallek/clausewitzparser/parser/ClausewitzParser.java:406-414 | In place, the bare-token step agrees with BareBlock. |
| TextParsing.Open | src/main/java/fr/osallek/clausewitzparser/parser/ClausewitzParser.java:356-379 | In place, the '{' step, including the nested readObject, agrees with OpenBlock. |
| TextParsing.Turn | src/main/java/fr/osallek/clausewitzparser/parser/ClausewitzParser.java:320-415 | In place, one turn of the readObject loop agrees with ReadBlock, and a turn that does not finish moves the reader forward. |
| TextParsing.ReadObject | src/main/java/fr/osallek/clausewitzparser/parser/ClausewitzParser.java:309-416 | In place, readObject gives the document and the reader position that ReadBlock computes from the input, and keeps the document parsable. |
| TextParsing.SkippedTo | src/main/java/fr/osallek/clausewitzparser/parser/ClausewitzParser.java:137-139 | Skipping lines moves forward and stays within the input. |
| TextParsing.SkipLines | src/main/java/fr/osallek/clausewitzparser/parser/ClausewitzParser.java:137-139 | In place, skipping lines leaves the reader where SkippedTo says. |
| TextParsing.RootParsable | src/main/java/fr/osallek/clausewitzparser/parser/ClausewitzParser.java:141 | A new root item is parsable. |
| TextParsing.Parse | src/main/java/fr/osallek/clausewitzparser/parser/ClausewitzParser.java:136-145 | parse skips lines and then reads the whole input into a fresh root item, exactly as ReadBlock computes from where the skipping stopped. |
| TextParsing.SeekStuckAtEnd | src/main/java/fr/osallek/clausewitzparser/parser/ClausewitzParser.java:276-307 | At the end of the input, readLine returns an empty line rather than null, so the search for a line starting with an object name does not end and stays at the end. |
| TextParsing.SeekLine | src/main/java/fr/osallek/clausewitzparser/parser/ClausewitzParser.java:276-307 | The intended search finds a line that starts, after trimming, with one of the names, at or after the start position. |
| TextParsing.SeekLineFollowsSteps | src/main/java/fr/osallek/clausewitzparser/parser/ClausewitzParser.java:284-305 | The intended search takes the same steps as the source loop: it stops where a line matches and otherwise goes on from the next line. |
| TextParsing.ReadSingleObject | src/main/java/fr/osallek/clausewitzparser/parser/ClausewitzParser.java:276-307 | readSingleObject reads one object from the first line that starts with a name. When no line matches, it stops at the end of the input and leaves the document unchanged. |
| BinaryParsing.CharRead | src/main/java/fr/osallek/clausewitzparser/parser/CharArray.java:57-63 | A read gives a character code or -1 at the end of the input. |
| BinaryParsing.After | src/main/java/fr/osallek/clausewitzparser/parser/CharArray.java:57-63 | Reading n characters moves the position forward, but never past the end of the input. |
| BinaryParsing.BytesAt | src/main/java/fr/osallek/clausewitzparser/parser/ClausewitzParser.java:561-562 | Reading n bytes yields exactly n bytes, each read being 0xFF past the end. |
| BinaryParsing.TokenAt | src/main/java/fr/osallek/clausewitzparser/parser/ClausewitzParser.java:560-569 | A token, when there is one, is a signed 16-bit value read where input remains. |
| BinaryParsing.TokenBytes | src/main/java/fr/osallek/clausewitzparser/parser/ClausewitzParser.java:560-603 | A token's two bytes are exactly what tokenToBytes gives back. The stream ends exactly when both bytes read are 0xFF, as they are at the end of the input. |
| BinaryParsing.Copied | src/main/java/fr/osallek/clausewitzparser/parser/CharArray.java:65-77 | read(char[]) copies at most n characters and never past the end of the input. |
| BinaryParsing.Filled | src/main/java/fr/osallek/clausewitzparser/parser/ClausewitzParser.java:608-610 | The string buffer has exactly the declared length; places past the input stay NUL. |
| BinaryParsing.StringAt | src/main/java/fr/osallek/clausewitzparser/parser/ClausewitzParser.java:605-611 | Reading a binary string only moves forward within the input. |
| BinaryParsing.StringPayload | src/main/java/fr/osallek/clausewitzparser/parser/ClausewitzParser.java:605-611 | A negative length raises NegativeArraySizeException. Otherwise the text has exactly that length, holds what was copied, and the reader moves past the copied characters. |
| BinaryParsing.ValueAt | src/main/java/fr/osallek/clausewitzparser/parser/ClausewitzParser.java:451-486 | Reading a value payload only moves forward within the input. |
| BinaryParsing.BoolText | src/main/java/fr/osallek/clausewitzparser/parser/ClausewitzParser.java:479-481 | A BOOL payload gives "yes" exactly when its byte is 0, and "no" otherwise. |
| BinaryParsing.UnsignedText | src/main/java/fr/osallek/clausewitzparser/parser/ClausewitzParser.java:617-639 | An UNSIGNED_INT or UNSIGNED_LONG payload is the little-endian value taken modulo 2^32 or 2^64, written in decimal. |
| BinaryParsing.Latin1 | src/main/java/fr/osallek/clausewitzparser/parser/ClausewitzParser.java:535 | An unknown token's bytes are decoded one character per byte, with the same code. |
| BinaryParsing.UnknownTokenText | src/main/java/fr/osallek/clausewitzparser/parser/ClausewitzParser.java:531-539 | An unknown token's text is two characters whose little-endian reading gives back the token. |
| BinaryParsing.ParentIsItem | src/main/java/fr/osallek/clausewitzparser/model/ClausewitzPObject.java:42-44 | In a well-formed document every parent is an item. |
| BinaryParsing.CloseList | src/main/java/fr/osallek/clausewitzparser/parser/ClausewitzParser.java:505-521 | Turning a block's pending strings into a list keeps the document parsable and only adds to it. What currentNode then denotes has the block's parent, and when the block is an open block its parent stays one. |
| BinaryParsing.Decode | src/main/java/fr/osallek/clausewitzparser/parser/ClausewitzParser.java:446-557 | Decoding only moves forward within the input, keeps the document parsable and only adds to it. |
| BinaryParsing.Value | src/main/java/fr/osallek/clausewitzparser/parser/ClausewitzParser.java:541-550 | Storing a name and value keeps the document parsable and only adds to it. |
| BinaryParsing.OpenAt | src/main/java/fr/osallek/clausewitzparser/parser/ClausewitzParser.java:491-504 | OPEN keeps the document parsable and only adds to it. |
| BinaryParsing.EndAt | src/main/java/fr/osallek/clausewitzparser/parser/ClausewitzParser.java:505-529 | END keeps the document parsable and only adds to it. |
| BinaryParsing.StreamEnd | src/main/java/fr/osallek/clausewitzparser/parser/ClausewitzParser.java:553-557 | When the stream ends, the result is the root reached by climbing the parents, and the document is unchanged. It is NullPointerException when the current node was already null. |
| BinaryParsing.ValueAddsVariable | src/main/java/fr/osallek/clausewitzparser/parser/ClausewitzParser.java:541-549 | After EQUALS, the first two pending strings become a variable at order getNbObjects(). The conversion returns getVar(key) when key is a wanted object name, and otherwise goes on with nothing pending. |
| BinaryParsing.ValueWithoutName | src/main/java/fr/osallek/clausewitzparser/parser/ClausewitzParser.java:542-543 | After EQUALS with a single pending string, strings.get(1) raises IndexOutOfBoundsException. |
| BinaryParsing.OpenAddsChild | src/main/java/fr/osallek/clausewitzparser/parser/ClausewitzParser.java:491-496 | OPEN adds a child named by the last pending string ("" when none) at order getNbObjects(), with hasEquals set when EQUALS was seen, and drops that string. |
| BinaryParsing.EndMovesUp | src/main/java/fr/osallek/clausewitzparser/parser/ClausewitzParser.java:523-528 | END with nothing pending returns the current node when its name is wanted, and otherwise goes on in its parent with nothing pending. |
| BinaryParsing.EndAtRootThrows | src/main/java/fr/osallek/clausewitzparser/parser/ClausewitzParser.java:507 | END with pending strings at the root raises NullPointerException. |
| BinaryParsing.EndNewList | src/main/java/fr/osallek/clausewitzparser/parser/ClausewitzParser.java:517 | END with pending strings, when the block's parent has no child of that name, adds a bracketed list under the block's parent. The list has the block's name and the values, is sameLine when there are several values, and takes order getNbObjects(). The loop never takes this branch, because there currentNode is an open block. |
| BinaryParsing.EndAnonymous | src/main/java/fr/osallek/clausewitzparser/parser/ClausewitzParser.java:514 | END, when the parent's last child of that name has objects, adds a nameless list without brackets to that child at order getNbObjects(). When currentNode is an open block, that child is currentNode itself. |
| BinaryParsing.EndEmptyToList | src/main/java/fr/osallek/clausewitzparser/parser/ClausewitzParser.java:510-512 | END, when the parent's last child of that name is empty, replaces that child by the list at the child's own order. When currentNode is an open block, that child is currentNode itself, and the written changeChildToList gives the same result. |
| BinaryParsing.ReadByte | src/main/java/fr/osallek/clausewitzparser/parser/CharArray.java:57-63 | In place, the reader advances by one, and the byte read is the low byte of read(), 0xFF at the end. |
| BinaryParsing.ReadToken | src/main/java/fr/osallek/clausewitzparser/parser/ClausewitzParser.java:560-569 | In place, readToken advances by two and returns TokenAt. |
| BinaryParsing.ReadShortLittle | src/main/java/fr/osallek/clausewitzparser/parser/ClausewitzParser.java:571-576 | In place, readShortLittle advances by two and returns the signed little-endian short. |
| BinaryParsing.ReadIntLittle | src/main/java/fr/osallek/clausewitzparser/parser/ClausewitzParser.java:578-585 | In place, readIntLittle advances by four and returns the signed little-endian int. |
| BinaryParsing.ReadFour | src/main/java/fr/osallek/clausewitzparser/parser/ClausewitzParser.java:578-582 | In place, four bytes are read and the reader advances by four. |
| BinaryParsing.BytesSplit | src/main/java/fr/osallek/clausewitzparser/parser/ClausewitzParser.java:587-598 | Reading a + b bytes is reading a bytes and then b bytes. |
| BinaryParsing.ReadLongLittle | src/main/java/fr/osallek/clausewitzparser/parser/ClausewitzParser.java:587-599 | In place, readLongLittle advances by eight and returns the signed little-endian long. |
| BinaryParsing.ReadArray | src/main/java/fr/osallek/clausewitzparser/parser/CharArray.java:65-77 | In place, read(char[n]) advances by the number of characters copied, and the buffer is Filled. |
| BinaryParsing.ReadBinaryString | src/main/java/fr/osallek/clausewitzparser/parser/ClausewitzParser.java:605-611 | In place, readBinaryString gives the text and the position StringAt computes. |
| BinaryParsing.ReadValue | src/main/java/fr/osallek/clausewitzparser/parser/ClausewitzParser.java:451-486 | In place, reading a value payload gives the text and the position ValueAt computes. |
| BinaryParsing.Climb | src/main/java/fr/osallek/clausewitzparser/parser/ClausewitzParser.java:553-555 | Climbing the parents reaches the root, the object GetRoot names. |
| BinaryParsing.EndConvert | src/main/java/fr/osallek/clausewitzparser/parser/ClausewitzParser.java:505-521 | In place, END's list conversion makes exactly the change CloseList describes. |
| BinaryParsing.TakeValue | src/main/java/fr/osallek/clausewitzparser/parser/ClausewitzParser.java:541-550 | In place, the value step agrees with Value. |
| BinaryParsing.OpenChild | src/main/java/fr/osallek/clausewitzparser/parser/ClausewitzParser.java:491-504 | In place, the OPEN step agrees with OpenAt. |
| BinaryParsing.EndBlock | src/main/java/fr/osallek/clausewitzparser/parser/ClausewitzParser.java:505-529 | In place, the END step agrees with EndAt. |
| BinaryParsing.Turn | src/main/java/fr/osallek/clausewitzparser/parser/ClausewitzParser.java:446-551 | In place, one turn of the token loop agrees with Decode, and a turn that does not finish moves the reader forward. |
| BinaryParsing.ConvertBinary | src/main/java/fr/osallek/clausewitzparser/parser/ClausewitzParser.java:436-558 | convertBinary builds a fresh root. It skips skip characters, or raises NegativeArraySizeException when skip is negative, and then converts the tokens exactly as Decode computes. |
| BinaryParsing.RunTokens | src/main/java/fr/osallek/clausewitzparser/parser/ClausewitzParser.java:446-557 | In place, the token loop gives the document, the position and the result Decode computes. |

## Left out

- File, zip and input-stream entry points of the parser, and the `CharArray` constructors that read files and decode charsets: these are I/O. The model starts from the characters in memory.
- The charset detector and `ClausewitzUtils.getCharset`: statistical charset guessing over I/O. An unknown binary token's bytes are decoded as ISO-8859-1.
- Listener maps of `Predicate`/`Consumer` callbacks in the parsers and writers: they call into foreign code and do not change the tree.
- Floating point: `CharArray.readNumber`, `getAsDouble`, `doubleToString`, `add`/`set`/`contains`/`setAll`/`addAll` with doubles, `getValuesAsDouble` and `sortDouble`. A FLOAT or DOUBLE payload is read as its 32-bit integer bytes (plus four skipped bytes for DOUBLE), and turned into text by a function passed as a parameter.
- The `spaced` overloads of `printEquals`/`printEqualsOpen` are not part of `ClausewitzUtils`: only the unspaced output is modelled.
- `CharArray.readString`: the parsers do not call it.
- `ClausewitzList.sort(Comparator)`, `sort()` and `sortInt()`: they sort by a caller-supplied or natural string comparator, which is not modelled.
- `ClausewitzList.hashCode`, `ClausewitzItem.equals`/`hashCode` and `ClausewitzVariable.hashCode`: only variable equality and list equality are modelled.
- The composed getters of `ClausewitzItem` (`getVarAsInt`, `getVarAsBool`, `getVarAsDate`, `getLastVarAs*`, `getVarAsString`, `getVarsAsStrings`, `getEmptyLists`, `getListsSize`, `getChildrenSize`, `getBlankVariable`, `getBlankNameVariable`): each is a name lookup followed by a modelled conversion.
- `String.intern` in `setValue`: it has no observable effect.
- `ClausewitzObject.getOrder` and `toString` read a field and are modelled as field access.
- `java.time`: dates are modelled as year, month and day with the proleptic Gregorian calendar of the current era only. `Character.isLetterOrDigit` is exact for Latin-1 characters only.
- The `com.osallek` tree, the older line-based `fr.osallek.clausewitzparser.ClausewitzParser`, `LuaParser`, `ParserUtils` and `ClausewitzParseException` are not part of this model.
- Removal.RemoveObject: it removes the very object given. Java's `List.remove(Object)` matches by `equals`, so with two equal items or two variables whose names differ only in case, Java may remove an earlier equal one from the list.
- Removal.RemoveAllNamedSpec: `removeAll` by `equals` would also remove an equal variable whose name differs only in case. The model removes exactly the objects of the bucket.
- Cursor.CharArray.SkipTillNext: it requires non-empty input. On empty input Java's final step back leaves the position at -1, which the model's natural-number position cannot hold.
- TextParsing.ReadBlock: a '#' comment is skipped with the intended skip (`SkipTillNextIntended`). With the written skip, a '#' at the very end of the input is read again forever, so the parse would not end.
- BinaryParsing.Decode: `objectNames` is a set of wanted names given as a parameter, and a wanted variable is returned through `getVar(key)`.
- Removal.RemoveVariableByValue: states the removal as evidently intended. As written, the for-each loop of removeVariablesIf removes from the list it iterates and, after a removal, raises ConcurrentModificationException unless the variable removed was the next-to-last one; RemoveVariableByValueAsWritten models that loop (see Findings).
- Removal.RemoveVariableByValueSpec: states the corrected removal, not the written one, for the reason given for RemoveVariableByValue.
- Construction.CopyList: the copy gets its own value list, equal to the original's. Java's copy constructor assigns `this.values = other.values` (ClausewitzList.java:49-54), so the two lists share one value list and a later change to either shows in both. The arena gives each list its own values.
- Construction.CopyListSpec: states equal values, not shared ones, for the reason given for CopyList.
- Chars.ToUpper: maps ASCII and Latin-1 letters only. Java's Character.toUpperCase also maps 'ÿ' to 'Ÿ', 'µ' to 'Μ', and Greek, Cyrillic and other scripts. This feeds equalsIgnoreCase in the ValueLists remove, removeLast, removeAll and change operations, in Variables.VariableEquals and in getVarsNot.
- Chars.ToLower: maps ASCII and Latin-1 letters only, as for ToUpper.
- Chars.ToLowerCase: lower-cases per character with ToLower, so it always keeps the length. Java's String.toLowerCase depends on the default locale and can change the length ('İ' becomes two characters).
- Numbers.ParseSigned: accepts ASCII digits only. Java's parseInt and parseLong also accept any Unicode decimal digit ("٣" parses as 3). This affects getAsInt and getAsLong.
- Writers.TextWriter.WriteList: Java's write calls getInternalValues() (ClausewitzList.java:402, 411), which allocates the value list when it was never allocated, so afterwards equals on that list no longer throws NullPointerException. The model's writer changes no node.
- Class `Documents.Document`: object references are arena indexes, so aliasing of Java objects between two trees is not modelled.

## Findings

| source | as written | input that shows it | evidently intended | confidence | as-written member | corrected member |
|---|---|---|---|---|---|---|
| src/main/java/fr/osallek/clausewitzparser/model/ClausewitzItem.java:1067-1075 | `getChild(name, index)` and its variable and list twins guard with `size < index`, which lets `index == size` through to `get`, raising IndexOutOfBoundsException | one child "a", then `getChild("a", 1)` | return null for any index at or past the bucket's size | high, not executed | Lookups.NamedAtAsWrittenThrows | Lookups.NamedAtSpec |
| src/main/java/fr/osallek/clausewitzparser/model/ClausewitzItem.java:1130-1142 | `getChildrenStartWith` keeps the names that do NOT start with the prefix | one child "abc", then `getChildrenStartWith("ab")` returns nothing | keep the children whose name starts with the prefix | high, not executed | Lookups.StartWithAsWrittenMisses | Lookups.StartWithSpec |
| src/main/java/fr/osallek/clausewitzparser/model/ClausewitzItem.java:1478-1498 | `removeByOrder` calls `removeVariablesIf`, which removes from the list it is iterating, so Java raises ConcurrentModificationException | one variable of order 0, then `removeByOrder(0)` | remove the object of that order | high, not executed | Removal.RemoveByOrderAsWrittenThrows | Removal.RemoveByOrderSpec |
| src/main/java/fr/osallek/clausewitzparser/model/ClausewitzItem.java:586-605 | `removeVariable(int)` removes from the name bucket by `equals`, which can drop an earlier equal variable instead of the one removed from the list | two variables `a=1`, then `removeVariable(1)` | remove the same object from the list and from its bucket | high, not executed | Removal.RemoveVariableAtAsWrittenBreaksIndex | Removal.RemoveAtIndexed |
| src/main/java/fr/osallek/clausewitzparser/model/ClausewitzItem.java:694-704 | `removeVariable(name, value)` ignores the value and removes the first variable of the name | `a=1` and `a=2`, then `removeVariable("a", "2")` removes `a=1` | remove the first variable with that name and that value | medium, not executed | Removal.RemoveVariableWithValueIgnoresValue | Removal.RemoveVariableWithValueSpec |
| src/main/java/fr/osallek/clausewitzparser/model/ClausewitzList.java:39-47 | with `increaseOrder`, the list constructor shifts the siblings a second time after `addList(this, true)` already did | `addList("l", 0, ..., true, ...)` in front of a lone variable: the variable ends at order 2 | shift the siblings at or above the order by one | high, not executed | Construction.NewListAsWrittenSkipsOrder | Construction.NewListKeepsDense |
| src/main/java/fr/osallek/clausewitzparser/model/ClausewitzItem.java:869-877 | `changeChildToList` gives the new list order `getNbObjects()` after the removal, not `childOrder` | children a (order 0) and b (order 1), then `changeChildToList(0, ...)`: the list gets order 1 like b | the list takes `childOrder`, the place of the child it replaces | high, not executed | Construction.ChangeChildToListTwoChildren | Construction.ChangeChildToListKeepsUnique |
| src/main/java/fr/osallek/clausewitzparser/parser/CharArray.java:201-215 | `skipTillNext` steps back one even when it stopped at the end of the input, so the last character is read again | text ending in `#`: the parser reads that '#' again and skips to the end forever | step back only when a stop character was consumed | high, not executed | Cursor.SkipTargetAtEnd | Cursor.SkipTargetsAgreeOnStop |
| src/main/java/fr/osallek/clausewitzparser/parser/ClausewitzParser.java:276-307 | `readSingleObject` waits for `readLine` to return null, which it never does, so when no line matches the loop never ends | any input without a line starting with one of the names | stop at the end of the input | high, not executed | TextParsing.SeekStuckAtEnd | TextParsing.SeekLineFollowsSteps |
| src/main/java/fr/osallek/clausewitzparser/model/ClausewitzItem.java:713-715 | `removeVariableByValue` goes through `removeVariablesIf`, whose for-each loop removes from the list it iterates, so Java raises ConcurrentModificationException after a removal, unless the variable removed was the next-to-last one | one variable `a=1`, then `removeVariableByValue("1")` | remove every variable holding the value | high, not executed | Removal.RemoveVariableByValueAsWrittenThrows | Removal.RemoveVariableByValueSpec |
