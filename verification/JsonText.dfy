// JSON texts without white space, of strings and arrays (sections 5 and 7 of
// RFC 8259), and what the EDN converter writes read back as such.
module JsonText {
  import opened EdnJson

  // A string is kept as its literal, quotes included.
  datatype Value = Text(literal: string) | List(items: Values)

  datatype Values = NoValues | Values(head: Value, tail: Values)

  datatype Read<T> = Got(value: T, rest: string) | Bad

  // The text behind the closing quote of a string.
  function BehindQuote(s: string): (r: Read<()>)
    ensures r.Got? ==> |r.rest| < |s|
  {
    if s == "" then Bad
    else if s[0] == '"' then Got((), s[1..])
    else if s[0] != '\\' then BehindQuote(s[1..])
    else if |s| == 1 then Bad
    else BehindQuote(s[2..])
  }

  function ReadValue(s: string): (r: Read<Value>)
    ensures r.Got? ==> |r.rest| < |s|
    decreases |s|, 0
  {
    if s == "" then Bad
    else if s[0] == '"' then
      var behind := BehindQuote(s[1..]);
      if behind.Bad? then Bad else Got(Text(s[..|s| - |behind.rest|]), behind.rest)
    else if s[0] == '[' && |s| > 1 && s[1] == ']' then Got(List(NoValues), s[2..])
    else if s[0] == '[' then
      var items := ReadItems(s[1..]);
      if items.Bad? then Bad else Got(List(items.value), items.rest)
    else Bad
  }

  // The items of an array that has some, up to its closing bracket.
  function ReadItems(s: string): (r: Read<Values>)
    ensures r.Got? ==> |r.rest| < |s|
    decreases |s|, 1
  {
    var head := ReadValue(s);
    if head.Bad? || head.rest == "" then Bad
    else if head.rest[0] == ']' then Got(Values(head.value, NoValues), head.rest[1..])
    else if head.rest[0] != ',' then Bad
    else
      var tail := ReadItems(head.rest[1..]);
      if tail.Bad? then Bad else Got(Values(head.value, tail.value), tail.rest)
  }

  // Values one behind the other, to the end of the text.
  function ReadAll(s: string): (r: Read<Values>)
    decreases |s|
  {
    if s == "" then Got(NoValues, "")
    else
      var head := ReadValue(s);
      if head.Bad? then Bad
      else
        var tail := ReadAll(head.rest);
        if tail.Bad? then Bad else Got(Values(head.value, tail.value), tail.rest)
  }

  // ---- what a tree says ---------------------------------------------------

  function Pair(kind: string, value: Value): Value {
    List(Values(Text("\"" + kind + "\""), Values(value, NoValues)))
  }

  // A kind and what belongs to it; an entry is a key with its value.
  function Said(quote: string -> string, node: Node): Value {
    match node
    case Str(body) => Pair("string", Text("\"" + body + "\""))
    case Keyword(name) => Pair("keyword", Text(quote(name)))
    case Atom(name) => Pair("atom", Text(quote(name)))
    case Vector(_, items) => Pair("vector", List(SaidOf(quote, items)))
    case MapOf(entries) => Pair("map", List(SaidOfEntries(quote, entries)))
  }

  function SaidOf(quote: string -> string, items: Nodes): Values {
    match items
    case NoNodes => NoValues
    case Nodes(head, tail) => Values(Said(quote, head), SaidOf(quote, tail))
  }

  function SaidOfEntries(quote: string -> string, entries: Entries): Values {
    match entries
    case NoEntries => NoValues
    case Entries(key, value, rest) =>
      Values(List(Values(Said(quote, key), Values(Said(quote, value), NoValues))), SaidOfEntries(quote, rest))
  }

  // ---- reading back -------------------------------------------------------

  // s is a quoted string with every quote inside it escaped.
  predicate IsLiteral(s: string) {
    |s| >= 2 && s[0] == s[|s| - 1] == '"' && QuotedBody(s[1..|s| - 1])
  }

  lemma {:induction false} ClosesBehind(body: string, rest: string)
    requires QuotedBody(body)
    ensures BehindQuote(body + "\"" + rest) == Got((), rest)
    decreases |body|
  {
    var s := body + "\"" + rest;
    if body == "" {
      assert s[0] == '"' && s[1..] == rest;
    } else if body[0] == '\\' {
      assert s[0] == body[0] && s[2..] == body[2..] + "\"" + rest;
      ClosesBehind(body[2..], rest);
    } else {
      assert s[0] == body[0] && s[1..] == body[1..] + "\"" + rest;
      ClosesBehind(body[1..], rest);
    }
  }

  lemma LiteralReads(literal: string, rest: string)
    requires IsLiteral(literal)
    ensures ReadValue(literal + rest) == Got(Text(literal), rest)
  {
    var s, body := literal + rest, literal[1..|literal| - 1];
    ClosesBehind(body, rest);
    assert s[1..] == body + "\"" + rest;
    assert s[..|s| - |rest|] == literal;
    hide BehindQuote, QuotedBody;
  }

  lemma EmptyReads(rest: string)
    ensures ReadValue("[]" + rest) == Got(List(NoValues), rest)
  {
    assert ("[]" + rest)[2..] == rest;
  }

  // What an array's items are read as, the array is.
  lemma ListReads(s: string, items: Values, rest: string)
    requires ReadItems(s) == Got(items, rest)
    ensures ReadValue("[" + s) == Got(List(items), rest)
  {
    StartsValue(s);
    assert ("[" + s)[1..] == s;
  }

  lemma LastReads(s: string, value: Value, rest: string)
    requires ReadValue(s) == Got(value, "]" + rest)
    ensures ReadItems(s) == Got(Values(value, NoValues), rest)
  {
    assert ("]" + rest)[1..] == rest;
  }

  lemma NextReads(s: string, value: Value, t: string, items: Values, rest: string)
    requires ReadValue(s) == Got(value, "," + t) && ReadItems(t) == Got(items, rest)
    ensures ReadItems(s) == Got(Values(value, items), rest)
  {
    assert ("," + t)[1..] == t;
  }

  // A value is never taken for the end of an array.
  lemma StartsValue(s: string)
    requires ReadValue(s).Got?
    ensures s != "" && s[0] != ']' && s[0] != ','
  {}

  // "[" a "," b "]" is the array of two values.
  lemma TwoRead(a: string, x: Value, b: string, y: Value, rest: string)
    requires ReadValue(a + ("," + (b + ("]" + rest)))) == Got(x, "," + (b + ("]" + rest)))
    requires ReadValue(b + ("]" + rest)) == Got(y, "]" + rest)
    ensures ReadValue("[" + (a + ("," + (b + ("]" + rest))))) == Got(List(Values(x, Values(y, NoValues))), rest)
  {
    hide *;
    var u, t := b + ("]" + rest), a + ("," + (b + ("]" + rest)));
    LastReads(u, y, rest);
    NextReads(t, x, u, Values(y, NoValues), rest);
    ListReads(t, Values(x, Values(y, NoValues)), rest);
  }

  // ---- the encoding of a tree is read back --------------------------------

  // What stands for JSON.stringify writes a string literal.
  ghost predicate Quotes(quote: string -> string) {
    forall s :: IsLiteral(quote(s))
  }

  // Every quote inside a string of the tree is escaped.
  predicate Readable(node: Node) {
    match node
    case Str(body) => QuotedBody(body)
    case Vector(_, items) => AllReadable(items)
    case MapOf(entries) => EntriesReadable(entries)
    case _ => true
  }

  predicate AllReadable(items: Nodes) {
    items.NoNodes? || (Readable(items.head) && AllReadable(items.tail))
  }

  predicate EntriesReadable(entries: Entries) {
    entries.NoEntries? || (Readable(entries.key) && Readable(entries.value) && EntriesReadable(entries.rest))
  }

  // "[" kind "," value "]" is the pair.
  lemma PairReads(kind: string, s: string, value: Value, rest: string)
    requires QuotedBody(kind) && ReadValue(s + ("]" + rest)) == Got(value, "]" + rest)
    ensures ReadValue("[" + ("\"" + kind + "\"" + ("," + (s + ("]" + rest))))) == Got(Pair(kind, value), rest)
  {
    var k := "\"" + kind + "\"";
    assert k[1..|k| - 1] == kind;
    LiteralReads(k, "," + (s + ("]" + rest)));
    TwoRead(k, Text(k), s, value, rest);
  }

  lemma KindsRead()
    ensures QuotedBody("string") && QuotedBody("keyword") && QuotedBody("atom")
    ensures QuotedBody("vector") && QuotedBody("map")
  {
    PlainBody("string");
    PlainBody("keyword");
    PlainBody("atom");
    PlainBody("vector");
    PlainBody("map");
  }

  lemma {:induction false} PlainBody(s: string)
    requires forall i | 0 <= i < |s| :: s[i] != '"' && s[i] != '\\'
    ensures QuotedBody(s)
  {
    if s != "" { PlainBody(s[1..]); }
  }

  lemma ScalarReads(kind: string, literal: string, rest: string)
    requires QuotedBody(kind) && IsLiteral(literal)
    ensures ReadValue(ScalarJson(kind, literal) + rest) == Got(Pair(kind, Text(literal)), rest)
  {
    LiteralReads(literal, "]" + rest);
    PairReads(kind, literal, Text(literal), rest);
    ScalarParts(kind, literal, rest);
    hide *;
  }

  lemma ScalarParts(kind: string, literal: string, rest: string)
    ensures ScalarJson(kind, literal) + rest == "[" + ("\"" + kind + "\"" + ("," + (literal + ("]" + rest))))
  {
    assert "[\"" + kind + "\"," + literal + "]" == "[" + ("\"" + kind + "\"") + "," + literal + "]";
    var k := "\"" + kind + "\"";
    Cat("[" + k + "," + literal, "]", rest);
    Cat("[" + k + ",", literal, "]" + rest);
    Cat("[" + k, ",", literal + ("]" + rest));
    Cat("[", k, "," + (literal + ("]" + rest)));
  }

  lemma {:induction false} NodeReads(quote: string -> string, node: Node, rest: string)
    requires Quotes(quote) && Readable(node)
    ensures ReadValue(Json(quote, node) + rest) == Got(Said(quote, node), rest)
    decreases node, 0
  {
    match node
    case Vector(round, items) =>
      if items.Nodes? { ItemsRead(quote, items, "]" + rest); }
      hide *;
      VectorReads(quote, round, items, rest);
    case MapOf(entries) =>
      if entries.Entries? { EntriesRead(quote, entries, "]" + rest); }
      hide *;
      MapReads(quote, entries, rest);
    case _ =>
      hide *;
      LeafReads(quote, node, rest);
  }

  lemma VectorReads(quote: string -> string, round: bool, items: Nodes, rest: string)
    requires var s := ItemsJson(quote, items, true) + ("]" + ("]" + rest));
      items.Nodes? ==> ReadItems(s) == Got(SaidOf(quote, items), "]" + rest)
    ensures ReadValue(Json(quote, Vector(round, items)) + rest) == Got(Said(quote, Vector(round, items)), rest)
  {
    hide ReadValue, ReadItems, QuotedBody;
    KindsRead();
    BracketsRead("vector", ItemsJson(quote, items, true), SaidOf(quote, items), rest);
    assert "[\"" + "vector" + "\",[" == VECTOR_OPEN;
  }

  lemma MapReads(quote: string -> string, entries: Entries, rest: string)
    requires var s := EntriesJson(quote, entries, true) + ("]" + ("]" + rest));
      entries.Entries? ==> ReadItems(s) == Got(SaidOfEntries(quote, entries), "]" + rest)
    ensures ReadValue(Json(quote, MapOf(entries)) + rest) == Got(Said(quote, MapOf(entries)), rest)
  {
    hide ReadValue, ReadItems, QuotedBody;
    KindsRead();
    BracketsRead("map", EntriesJson(quote, entries, true), SaidOfEntries(quote, entries), rest);
    assert "[\"" + "map" + "\",[" == MAP_OPEN;
  }

  lemma LeafReads(quote: string -> string, node: Node, rest: string)
    requires Quotes(quote) && Readable(node) && !node.Vector? && !node.MapOf?
    ensures ReadValue(Json(quote, node) + rest) == Got(Said(quote, node), rest)
  {
    hide ReadValue, ScalarJson;
    KindsRead();
    match node
    case Str(body) =>
      assert ("\"" + body + "\"")[1..|body| + 1] == body;
      ScalarReads("string", "\"" + body + "\"", rest);
    case Keyword(name) =>
      ScalarReads("keyword", quote(name), rest);
    case Atom(name) =>
      ScalarReads("atom", quote(name), rest);
  }

  // "[" kind ",[" items "]]" is the kind with the array.
  lemma BracketsRead(kind: string, s: string, items: Values, rest: string)
    requires QuotedBody(kind)
    requires if items.NoValues? then s == "" else ReadItems(s + ("]" + ("]" + rest))) == Got(items, "]" + rest)
    ensures ReadValue(("[\"" + kind + "\",[") + (s + CLOSE) + rest) == Got(Pair(kind, List(items)), rest)
  {
    if items.NoValues? {
      EmptyReads("]" + rest);
    } else {
      ListReads(s + ("]" + ("]" + rest)), items, "]" + rest);
    }
    ArrayParts(s, rest);
    PairReads(kind, "[" + s + "]", List(items), rest);
    BracketParts(kind, s, rest);
    hide *;
  }

  lemma ArrayParts(s: string, rest: string)
    ensures ("[" + s + "]") + ("]" + rest) == "[" + (s + ("]" + ("]" + rest)))
    ensures s == "" ==> ("[" + s + "]") + ("]" + rest) == "[]" + ("]" + rest)
  {
    Cat("[" + s, "]", "]" + rest);
    Cat("[", s, "]" + ("]" + rest));
    assert "[" + "" + "]" == "[]";
  }

  lemma BracketParts(kind: string, s: string, rest: string)
    ensures ("[\"" + kind + "\",[") + (s + CLOSE) + rest
      == "[" + ("\"" + kind + "\"" + ("," + (("[" + s + "]") + ("]" + rest))))
  {
    var k := "\"" + kind + "\"";
    assert "[\"" + kind + "\",[" == "[" + k + "," + "[";
    assert CLOSE + rest == "]" + ("]" + rest);
    Cat("[" + k + "," + "[", s + CLOSE, rest);
    Cat(s, CLOSE, rest);
    Cat("[" + k + ",", "[", s + ("]" + ("]" + rest)));
    ArrayParts(s, rest);
    Cat("[" + k, ",", "[" + (s + ("]" + ("]" + rest))));
    Cat("[", k, "," + ("[" + (s + ("]" + ("]" + rest)))));
  }

  lemma LaterItems(quote: string -> string, items: Nodes)
    requires items.Nodes?
    ensures ItemsJson(quote, items, false) == "," + ItemsJson(quote, items, true)
    ensures ItemsJson(quote, items, true) == Json(quote, items.head) + ItemsJson(quote, items.tail, false)
  {
    hide Json;
    assert "" + (Json(quote, items.head) + ItemsJson(quote, items.tail, false))
      == Json(quote, items.head) + ItemsJson(quote, items.tail, false);
  }

  lemma {:induction false} ItemsRead(quote: string -> string, items: Nodes, rest: string)
    requires Quotes(quote) && AllReadable(items) && items.Nodes?
    ensures ReadItems(ItemsJson(quote, items, true) + ("]" + rest)) == Got(SaidOf(quote, items), rest)
    decreases items, 1
  {
    var tail, json := items.tail, Json(quote, items.head);
    LaterItems(quote, items);
    if tail.NoNodes? {
      NodeReads(quote, items.head, "]" + rest);
      LastReads(json + ("]" + rest), Said(quote, items.head), rest);
      assert json + "" == json;
    } else {
      var t := ItemsJson(quote, tail, true) + ("]" + rest);
      LaterItems(quote, tail);
      ItemsRead(quote, tail, rest);
      NodeReads(quote, items.head, "," + t);
      NextReads(json + ("," + t), Said(quote, items.head), t, SaidOf(quote, tail), rest);
      Cat(",", ItemsJson(quote, tail, true), "]" + rest);
      Cat(json, ItemsJson(quote, tail, false), "]" + rest);
    }
  }

  lemma LaterEntries(quote: string -> string, entries: Entries)
    requires entries.Entries?
    ensures EntriesJson(quote, entries, false) == "," + EntriesJson(quote, entries, true)
    ensures EntriesJson(quote, entries, true) == "[" + (Json(quote, entries.key)
      + ("," + (Json(quote, entries.value) + ("]" + EntriesJson(quote, entries.rest, false)))))
  {
    hide Json;
  }

  lemma EntryReads(quote: string -> string, entries: Entries, rest: string)
    requires entries.Entries?
    requires forall r :: ReadValue(Json(quote, entries.key) + r) == Got(Said(quote, entries.key), r)
    requires forall r :: ReadValue(Json(quote, entries.value) + r) == Got(Said(quote, entries.value), r)
    ensures ReadValue("[" + (Json(quote, entries.key) + ("," + (Json(quote, entries.value) + ("]" + rest)))))
      == Got(List(Values(Said(quote, entries.key), Values(Said(quote, entries.value), NoValues))), rest)
  {
    TwoRead(Json(quote, entries.key), Said(quote, entries.key), Json(quote, entries.value),
      Said(quote, entries.value), rest);
    hide *;
  }

  lemma {:induction false} EntriesRead(quote: string -> string, entries: Entries, rest: string)
    requires Quotes(quote) && EntriesReadable(entries) && entries.Entries?
    ensures ReadItems(EntriesJson(quote, entries, true) + ("]" + rest)) == Got(SaidOfEntries(quote, entries), rest)
    decreases entries, 1
  {
    forall r ensures ReadValue(Json(quote, entries.key) + r) == Got(Said(quote, entries.key), r) {
      NodeReads(quote, entries.key, r);
    }
    forall r ensures ReadValue(Json(quote, entries.value) + r) == Got(Said(quote, entries.value), r) {
      NodeReads(quote, entries.value, r);
    }
    var more, k, v := entries.rest, Json(quote, entries.key), Json(quote, entries.value);
    var entry := List(Values(Said(quote, entries.key), Values(Said(quote, entries.value), NoValues)));
    LaterEntries(quote, entries);
    EntryBehind(k, v, EntriesJson(quote, more, false), "]" + rest);
    if more.NoEntries? {
      EntryReads(quote, entries, "]" + rest);
      assert EntriesJson(quote, more, false) + ("]" + rest) == "]" + rest;
      LastReads("[" + (k + ("," + (v + ("]" + ("]" + rest))))), entry, rest);
    } else {
      var t := EntriesJson(quote, more, true) + ("]" + rest);
      LaterEntries(quote, more);
      Cat(",", EntriesJson(quote, more, true), "]" + rest);
      EntriesRead(quote, more, rest);
      EntryReads(quote, entries, "," + t);
      NextReads("[" + (k + ("," + (v + ("]" + ("," + t))))), entry, t, SaidOfEntries(quote, more), rest);
    }
  }

  lemma EntryBehind(k: string, v: string, more: string, end: string)
    ensures ("[" + (k + ("," + (v + ("]" + more))))) + end == "[" + (k + ("," + (v + ("]" + (more + end)))))
  {
    Cat("]", more, end);
    Cat(v, "]" + more, end);
    Cat(",", v + ("]" + more), end);
    Cat(k, "," + (v + ("]" + more)), end);
    Cat("[", k + ("," + (v + ("]" + more))), end);
  }

  // ---- main results -------------------------------------------------------

  lemma {:induction false} AllRead(quote: string -> string, nodes: Nodes)
    requires Quotes(quote) && AllReadable(nodes)
    ensures ReadAll(AllJson(quote, nodes)) == Got(SaidOf(quote, nodes), "")
  {
    match nodes
    case NoNodes =>
    case Nodes(head, tail) =>
      NodeReads(quote, head, AllJson(quote, tail));
      AllRead(quote, tail);
      StartsValue(AllJson(quote, nodes));
      hide ReadValue, Json, Said;
  }

  // Writable tokens make readable trees.
  lemma {:induction false} TokensReadable(node: Node)
    requires forall t | t in Tokens(node) :: Writable(t)
    ensures Readable(node)
    decreases node, 0
  {
    match node
    case Vector(_, items) =>
      ItemTokensReadable(items);
    case MapOf(entries) =>
      EntryTokensReadable(entries);
    case Str(body) =>
      assert Scalar(node) in Tokens(node);
    case _ =>
  }

  lemma {:induction false} ItemTokensReadable(items: Nodes)
    requires forall t | t in ItemTokens(items) :: Writable(t)
    ensures AllReadable(items)
    decreases items, 1
  {
    if items.Nodes? {
      hide Writable;
      TokensReadable(items.head);
      ItemTokensReadable(items.tail);
    }
  }

  lemma {:induction false} EntryTokensReadable(entries: Entries)
    requires forall t | t in EntryTokens(entries) :: Writable(t)
    ensures EntriesReadable(entries)
    decreases entries, 1
  {
    if entries.Entries? {
      hide Writable;
      TokensReadable(entries.key);
      TokensReadable(entries.value);
      EntryTokensReadable(entries.rest);
    }
  }

  lemma {:induction false} PrintedWritable(s: string, ts: seq<Token>)
    requires Printed(s, ts)
    ensures forall t | t in ts :: Writable(t)
    decreases |ts|
  {
    if ts != [] {
      var gap: string, rest: string :| PrintedFirst(s, ts[0], gap, rest) && Printed(rest, ts[1..]);
      PrintedWritable(rest, ts[1..]);
      hide *;
      assert ts == [ts[0]] + ts[1..];
    }
  }

  // The output for any print of trees, read as JSON, says the trees.
  lemma ReadsBack(quote: string -> string, text: string, nodes: Nodes)
    requires Quotes(quote) && Printed(text, ItemTokens(nodes))
    ensures ReadAll(Convert(quote, text, [])) == Got(SaidOf(quote, nodes), "")
  {
    hide *;
    PrintedWritable(text, ItemTokens(nodes));
    ItemTokensReadable(nodes);
    ConvertsTrees(quote, text, nodes);
    AllRead(quote, nodes);
  }

  // The tree with every vector in square brackets.
  function Squared(node: Node): Node {
    match node
    case Vector(_, items) => Vector(false, AllSquared(items))
    case MapOf(entries) => MapOf(EntriesSquared(entries))
    case _ => node
  }

  function AllSquared(items: Nodes): Nodes {
    match items
    case NoNodes => NoNodes
    case Nodes(head, tail) => Nodes(Squared(head), AllSquared(tail))
  }

  function EntriesSquared(entries: Entries): Entries {
    match entries
    case NoEntries => NoEntries
    case Entries(key, value, rest) => Entries(Squared(key), Squared(value), EntriesSquared(rest))
  }

  lemma {:induction false} SaidApart(quote: string -> string, a: Node, b: Node)
    requires Said(quote, a) == Said(quote, b) && forall x, y | quote(x) == quote(y) :: x == y
    ensures Squared(a) == Squared(b)
    decreases a, 0
  {
    SameKind(quote, a, b);
    match a
    case Str(body) =>
      assert ("\"" + body + "\"")[1..|body| + 1] == body;
      assert ("\"" + b.body + "\"")[1..|b.body| + 1] == b.body;
    case Keyword(name) =>
    case Atom(name) =>
    case Vector(_, items) =>
      SaidOfApart(quote, items, b.items);
    case MapOf(entries) =>
      EntriesApart(quote, entries, b.entries);
  }

  // The letter a kind starts with.
  function Letter(node: Node): char {
    match node
    case Str(_) => 's'
    case Keyword(_) => 'k'
    case Atom(_) => 'a'
    case Vector(_, _) => 'v'
    case MapOf(_) => 'm'
  }

  lemma SaidStarts(quote: string -> string, node: Node)
    ensures var said := Said(quote, node);
      && said.List? && said.items.Values? && said.items.head.Text?
      && |said.items.head.literal| > 1 && said.items.head.literal[1] == Letter(node)
  {}

  lemma SameKind(quote: string -> string, a: Node, b: Node)
    requires Said(quote, a) == Said(quote, b)
    ensures a.Str? == b.Str? && a.Keyword? == b.Keyword? && a.Atom? == b.Atom? && a.Vector? == b.Vector?
  {
    hide Said;
    SaidStarts(quote, a);
    SaidStarts(quote, b);
  }

  lemma {:induction false} SaidOfApart(quote: string -> string, a: Nodes, b: Nodes)
    requires SaidOf(quote, a) == SaidOf(quote, b) && forall x, y | quote(x) == quote(y) :: x == y
    ensures AllSquared(a) == AllSquared(b)
    decreases a, 1
  {
    if a.Nodes? {
      SaidApart(quote, a.head, b.head);
      SaidOfApart(quote, a.tail, b.tail);
    }
  }

  lemma {:induction false} EntriesApart(quote: string -> string, a: Entries, b: Entries)
    requires SaidOfEntries(quote, a) == SaidOfEntries(quote, b) && forall x, y | quote(x) == quote(y) :: x == y
    ensures EntriesSquared(a) == EntriesSquared(b)
    decreases a, 1
  {
    if a.Entries? {
      SaidApart(quote, a.key, b.key);
      SaidApart(quote, a.value, b.value);
      EntriesApart(quote, a.rest, b.rest);
    }
  }

  // Texts with one output are prints of the same trees, but for the brackets of
  // their vectors.
  lemma OutputTells(quote: string -> string, text: string, other: string, nodes: Nodes, others: Nodes)
    requires Quotes(quote) && forall x, y | quote(x) == quote(y) :: x == y
    requires Printed(text, ItemTokens(nodes)) && Printed(other, ItemTokens(others))
    ensures Convert(quote, text, []) == Convert(quote, other, []) ==> AllSquared(nodes) == AllSquared(others)
  {
    hide *;
    ReadsBack(quote, text, nodes);
    ReadsBack(quote, other, others);
    if Convert(quote, text, []) == Convert(quote, other, []) { SaidOfApart(quote, nodes, others); }
  }
}
