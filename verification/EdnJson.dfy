// The streaming EDN to node-JSON converter of the store client: one pass over
// the text with a stack of frames, against the recursive encoding of a tree.
module EdnJson {

  // ---- characters and tokens ----------------------------------------------

  predicate IsSpace(ch: char) {
    ch == ' ' || ch == '\n' || ch == '\r' || ch == '\t' || ch == ','
  }

  predicate IsDelimiter(ch: char) {
    IsSpace(ch) || ch == '[' || ch == ']' || ch == '{' || ch == '}' || ch == '(' || ch == ')'
  }

  // The characters that separate tokens.
  lemma SeparatorsAre(ch: char)
    ensures IsSpace(ch) <==> ch in " \n\r\t,"
    ensures IsDelimiter(ch) <==> ch in " \n\r\t,[]{}()"
  {
    var spaces, others := " \n\r\t,", "[]{}()";
    assert " \n\r\t,[]{}()" == spaces + others;
    assert ch in others <==> ch == '[' || ch == ']' || ch == '{' || ch == '}' || ch == '(' || ch == ')';
  }

  // The number of characters before the first delimiter.
  function BareLength(s: string): (n: nat)
    ensures n <= |s|
  {
    if s == "" || IsDelimiter(s[0]) then 0 else 1 + BareLength(s[1..])
  }

  method TokenEnd(text: string, start: nat) returns (index: nat)
    requires start <= |text|
    ensures index == start + BareLength(text[start..]) && start <= index <= |text|
    ensures forall i | start <= i < index :: text[i] !in " \n\r\t,[]{}()"
    ensures index < |text| ==> text[index] in " \n\r\t,[]{}()"
  {
    index := start;
    while index < |text| && !IsDelimiter(text[index])
      invariant start <= index <= |text|
      invariant start + BareLength(text[start..]) == index + BareLength(text[index..])
      invariant forall i | start <= i < index :: !IsDelimiter(text[i])
    {
      assert text[index..][1..] == text[index + 1..];
      index := index + 1;
    }    forall i | start <= i <= index && i < |text|
      ensures IsDelimiter(text[i]) <==> text[i] in " \n\r\t,[]{}()"
    {
      SeparatorsAre(text[i]);
    }
  }

  // The number of characters up to and with the closing quote.
  function QuotedLength(s: string, escaped: bool): (n: nat)
    ensures n <= |s|
    decreases |s|
  {
    if s == "" then 0
    else if escaped then 1 + QuotedLength(s[1..], false)
    else if s[0] == '\\' then 1 + QuotedLength(s[1..], true)
    else if s[0] == '"' then 1
    else 1 + QuotedLength(s[1..], false)
  }

  method QuotedTokenEnd(text: string, start: nat) returns (index: nat)
    requires start < |text|
    ensures index == start + 1 + QuotedLength(text[start + 1..], false)
  {
    index := start + 1;
    var escaped := false;
    while index < |text|
      invariant start < index <= |text|
      invariant start + 1 + QuotedLength(text[start + 1..], false) == index + QuotedLength(text[index..], escaped)
    {
      var ch := text[index];
      assert text[index..][0] == ch && text[index..][1..] == text[index + 1..];
      if escaped {
        escaped := false;
      } else if ch == '\\' {
        escaped := true;
      } else if ch == '"' {
        return index + 1;
      }
      index := index + 1;
    }
  }

  // ---- the stack of open containers ---------------------------------------

  datatype State = ArrayFirst | ArrayNext | MapFirst | MapNext | MapValue

  // What the container expects next, what to write behind it as an item of its
  // parent, and what closes it.
  datatype Frame = Frame(state: State, after: string, close: string)

  // What to write before and after an item, and the stack from then on.
  datatype Started = Started(before: string, after: string, stack: seq<Frame>)

  function ItemStart(stack: seq<Frame>): Started {
    if stack == [] then Started("", "", stack)
    else
      var frame, parent := stack[|stack| - 1], stack[..|stack| - 1];
      match frame.state
      case ArrayFirst => Started("", "", parent + [frame.(state := ArrayNext)])
      case ArrayNext => Started(",", "", stack)
      case MapFirst => Started("[", ",", parent + [frame.(state := MapValue)])
      case MapNext => Started(",[", ",", parent + [frame.(state := MapValue)])
      case MapValue => Started("", "]", parent + [frame.(state := MapNext)])
  }

  function CloseContainer(stack: seq<Frame>): (string, seq<Frame>) {
    if stack == [] then ("", stack)
    else (stack[|stack| - 1].close + stack[|stack| - 1].after, stack[..|stack| - 1])
  }

  function ScalarJson(kind: string, value: string): string {
    "[\"" + kind + "\"," + value + "]"
  }

  // ---- the converter ------------------------------------------------------

  // One turn of the converter: how much text it takes, what it writes, and the
  // stack it leaves.
  datatype Turn = Turn(taken: nat, out: string, stack: seq<Frame>)

  const MAP_OPEN := "[\"map\",["
  const VECTOR_OPEN := "[\"vector\",["
  const CLOSE := "]]"

  function Opened(stack: seq<Frame>, opening: string, first: State): Turn {
    var item := ItemStart(stack);
    Turn(1, item.before + opening, item.stack + [Frame(first, item.after, CLOSE)])
  }

  function Closed(stack: seq<Frame>): Turn {
    var closed := CloseContainer(stack);
    Turn(1, closed.0, closed.1)
  }

  function ScalarTurn(stack: seq<Frame>, taken: nat, json: string): Turn {
    var item := ItemStart(stack);
    Turn(taken, item.before + json + item.after, item.stack)
  }

  // Every delimiter is white space or a bracket, so the last case is a token
  // that starts with none.
  function TurnAt(quote: string -> string, s: string, stack: seq<Frame>): (t: Turn)
    requires s != ""
    ensures 1 <= t.taken <= |s|
  {
    var ch, rest := s[0], s[1..];
    if IsSpace(ch) then Turn(1, "", stack)
    else if ch == '{' then Opened(stack, MAP_OPEN, MapFirst)
    else if ch == '}' then Closed(stack)
    else if ch == '[' || ch == '(' then Opened(stack, VECTOR_OPEN, ArrayFirst)
    else if ch == ']' || ch == ')' then Closed(stack)
    else if ch == '"' then
      var n := 1 + QuotedLength(rest, false);
      ScalarTurn(stack, n, ScalarJson("string", s[..n]))
    else if ch == ':' then
      var n := 1 + BareLength(rest);
      ScalarTurn(stack, n, ScalarJson("keyword", quote(s[1..n])))
    else
      var n := 1 + BareLength(rest);
      ScalarTurn(stack, n, ScalarJson("atom", quote(s[..n])))
  }

  // What the converter writes for the rest of a text. `quote` stands for
  // JSON.stringify.
  function Convert(quote: string -> string, s: string, stack: seq<Frame>): string
    decreases |s|
  {
    if s == "" then ""
    else
      var t := TurnAt(quote, s, stack);
      t.out + Convert(quote, s[t.taken..], t.stack)
  }

  method EdnToJson(quote: string -> string, text: string) returns (output: string)
    ensures output == Convert(quote, text, [])
  {
    var index := 0;
    var stack: seq<Frame> := [];
    output := "";
    hide *;
    ConvertStart(quote, text);
    while index < |text|
      invariant index <= |text|
      invariant output + Convert(quote, text[index..], stack) == Convert(quote, text, [])
      decreases |text| - index
    {
      var end, written, next := OneTurn(quote, text, index, stack);
      ConvertOn(quote, text, index, stack, output);
      index, output, stack := end, output + written, next;
    }
    ConvertEnd(quote, text, stack, output);
  }

  lemma ConvertStart(quote: string -> string, text: string)
    ensures "" + Convert(quote, text[0..], []) == Convert(quote, text, [])
  {
    assert text[0..] == text;
    hide Convert;
  }

  lemma ConvertEnd(quote: string -> string, text: string, stack: seq<Frame>, output: string)
    ensures output + Convert(quote, text[|text|..], stack) == output
  {}

  lemma ConvertOn(quote: string -> string, text: string, index: nat, stack: seq<Frame>, output: string)
    requires index < |text|
    ensures var t := TurnAt(quote, text[index..], stack);
      output + Convert(quote, text[index..], stack)
      == (output + t.out) + Convert(quote, text[index + t.taken..], t.stack)
  {
    var s := text[index..];
    var t := TurnAt(quote, s, stack);
    assert Convert(quote, s, stack) == t.out + Convert(quote, s[t.taken..], t.stack);
    assert s[t.taken..] == text[index + t.taken..];
    hide *;
  }

  method OneTurn(quote: string -> string, text: string, index: nat, stack: seq<Frame>)
    returns (end: nat, written: string, next: seq<Frame>)
    requires index < |text|
    ensures end > index && Turn(end - index, written, next) == TurnAt(quote, text[index..], stack)
  {
    var ch := text[index];
    ghost var s := text[index..];
    assert s[0] == ch && s[1..] == text[index + 1..];
    hide BareLength, QuotedLength, ScalarJson;
    if IsSpace(ch) {
      return index + 1, "", stack;
    } else if ch == '{' {
      var started := ItemStart(stack);
      return index + 1, started.before + MAP_OPEN, started.stack + [Frame(MapFirst, started.after, CLOSE)];
    } else if ch == '}' || ch == ']' || ch == ')' {
      var closed := CloseContainer(stack);
      return index + 1, closed.0, closed.1;
    } else if ch == '[' || ch == '(' {
      var started := ItemStart(stack);
      return index + 1, started.before + VECTOR_OPEN, started.stack + [Frame(ArrayFirst, started.after, CLOSE)];
    }
    var started := ItemStart(stack);
    var json: string;
    if ch == '"' {
      end := QuotedTokenEnd(text, index);
      assert s[..end - index] == text[index..end];
      json := ScalarJson("string", text[index..end]);
    } else if ch == ':' {
      end := TokenEnd(text, index + 1);
      assert s[1..end - index] == text[index + 1..end];
      json := ScalarJson("keyword", quote(text[index + 1..end]));
    } else {
      end := TokenEnd(text, index);
      BareStart(s);
      assert s[..end - index] == text[index..end];
      json := ScalarJson("atom", quote(text[index..end]));
    }
    written, next := started.before + json + started.after, started.stack;
  }

  lemma BareStart(s: string)
    requires s != "" && !IsDelimiter(s[0])
    ensures BareLength(s) == 1 + BareLength(s[1..])
  {}

  // ---- trees and their node JSON ------------------------------------------

  // A string is kept by the text between its quotes, a vector with the bracket
  // it is written with.
  datatype Node =
    | Str(body: string)
    | Keyword(name: string)
    | Atom(name: string)
    | Vector(round: bool, items: Nodes)
    | MapOf(entries: Entries)

  datatype Nodes = NoNodes | Nodes(head: Node, tail: Nodes)

  datatype Entries = NoEntries | Entries(key: Node, value: Node, rest: Entries)

  function Json(quote: string -> string, node: Node): string {
    match node
    case Str(body) => ScalarJson("string", "\"" + body + "\"")
    case Keyword(name) => ScalarJson("keyword", quote(name))
    case Atom(name) => ScalarJson("atom", quote(name))
    case Vector(_, items) => VECTOR_OPEN + (ItemsJson(quote, items, true) + CLOSE)
    case MapOf(entries) => MAP_OPEN + (EntriesJson(quote, entries, true) + CLOSE)
  }

  function ItemsJson(quote: string -> string, items: Nodes, first: bool): string {
    match items
    case NoNodes => ""
    case Nodes(head, tail) => (if first then "" else ",") + (Json(quote, head) + ItemsJson(quote, tail, false))
  }

  function EntriesJson(quote: string -> string, entries: Entries, first: bool): string {
    match entries
    case NoEntries => ""
    case Entries(key, value, rest) =>
      (if first then "[" else ",[") + (Json(quote, key)
        + ("," + (Json(quote, value) + ("]" + EntriesJson(quote, rest, false)))))
  }

  // ---- printed trees ------------------------------------------------------

  datatype Token = OpenMap | CloseMap | OpenVector(round: bool) | CloseVector(round: bool) | Scalar(node: Node)

  function Tokens(node: Node): seq<Token> {
    match node
    case Vector(round, items) => [OpenVector(round)] + ItemTokens(items) + [CloseVector(round)]
    case MapOf(entries) => [OpenMap] + EntryTokens(entries) + [CloseMap]
    case _ => [Scalar(node)]
  }

  function ItemTokens(items: Nodes): seq<Token> {
    match items
    case NoNodes => []
    case Nodes(head, tail) => Tokens(head) + ItemTokens(tail)
  }

  function EntryTokens(entries: Entries): seq<Token> {
    match entries
    case NoEntries => []
    case Entries(key, value, rest) => Tokens(key) + Tokens(value) + EntryTokens(rest)
  }

  // Every quote in the body of a string is escaped.
  predicate QuotedBody(body: string) {
    body == "" ||
    if body[0] == '\\' then |body| > 1 && QuotedBody(body[2..])
    else body[0] != '"' && QuotedBody(body[1..])
  }

  predicate BareName(name: string) {
    forall i | 0 <= i < |name| :: !IsDelimiter(name[i])
  }

  // The token can be written as it is.
  predicate Writable(t: Token) {
    match t
    case Scalar(Str(body)) => QuotedBody(body)
    case Scalar(Keyword(name)) => BareName(name)
    case Scalar(Atom(name)) => BareName(name) && name != "" && name[0] != '"' && name[0] != ':'
    case Scalar(_) => false
    case _ => true
  }

  function Spelling(t: Token): string
    requires Writable(t)
  {
    match t
    case OpenMap => "{"
    case CloseMap => "}"
    case OpenVector(round) => if round then "(" else "["
    case CloseVector(round) => if round then ")" else "]"
    case Scalar(Str(body)) => "\"" + body + "\""
    case Scalar(Keyword(name)) => ":" + name
    case Scalar(Atom(name)) => name
  }

  // Keywords and atoms run on until a delimiter.
  predicate RunsOn(t: Token) {
    t.Scalar? && !t.node.Str?
  }

  predicate AllSpace(s: string) {
    forall i | 0 <= i < |s| :: IsSpace(s[i])
  }

  // s is the tokens in order with any white space and commas around them.
  ghost predicate Printed(s: string, ts: seq<Token>)
    decreases |ts|
  {
    if ts == [] then AllSpace(s)
    else Writable(ts[0]) && exists gap: string, rest: string ::
      PrintedFirst(s, ts[0], gap, rest) && Printed(rest, ts[1..])
  }

  ghost predicate PrintedFirst(s: string, t: Token, gap: string, rest: string)
    requires Writable(t)
  {
    && AllSpace(gap) && s == gap + Spelling(t) + rest
    && (RunsOn(t) && rest != "" ==> IsDelimiter(rest[0]))
  }

  // ---- the converter on tokens --------------------------------------------

  // What a token writes, and the stack it leaves.
  function TokenTurn(quote: string -> string, t: Token, stack: seq<Frame>): (string, seq<Frame>) {
    match t
    case OpenMap => (Opened(stack, MAP_OPEN, MapFirst).out, Opened(stack, MAP_OPEN, MapFirst).stack)
    case OpenVector(_) => (Opened(stack, VECTOR_OPEN, ArrayFirst).out, Opened(stack, VECTOR_OPEN, ArrayFirst).stack)
    case Scalar(node) => (ItemStart(stack).before + Json(quote, node) + ItemStart(stack).after, ItemStart(stack).stack)
    case _ => CloseContainer(stack)
  }

  function Feed(quote: string -> string, ts: seq<Token>, stack: seq<Frame>): string {
    if ts == [] then ""
    else
      var turn := TokenTurn(quote, ts[0], stack);
      turn.0 + Feed(quote, ts[1..], turn.1)
  }

  // White space between tokens writes nothing.
  lemma {:induction false} SkipsSpace(quote: string -> string, gap: string, s: string, stack: seq<Frame>)
    requires AllSpace(gap)
    ensures Convert(quote, gap + s, stack) == Convert(quote, s, stack)
  {
    if gap == "" {
      assert gap + s == s;
    } else {
      assert (gap + s)[0] == gap[0] && (gap + s)[1..] == gap[1..] + s;
      SkipsSpace(quote, gap[1..], s, stack);
    }
  }

  lemma {:induction false} QuotedEnds(body: string, rest: string)
    requires QuotedBody(body)
    ensures QuotedLength(body + "\"" + rest, false) == |body| + 1
    decreases |body|
  {
    var s := body + "\"" + rest;
    if body == "" {
      assert s[0] == '"';
    } else if body[0] == '\\' {
      assert s[0] == body[0] && s[1..][1..] == body[2..] + "\"" + rest;
      QuotedEnds(body[2..], rest);
    } else {
      assert s[0] == body[0] && s[1..] == body[1..] + "\"" + rest;
      QuotedEnds(body[1..], rest);
    }
  }

  // Those are the only strings that the quote behind them closes.
  lemma {:induction false} QuotedExactly(body: string, rest: string)
    requires rest != "" && QuotedLength(body + "\"" + rest, false) == |body| + 1
    ensures QuotedBody(body)
    decreases |body|
  {
    var s := body + "\"" + rest;
    if body != "" && body[0] == '\\' {
      assert s[0] == body[0] && s[1..][0] == (body + "\"")[1];
      if |body| == 1 {
        assert s[1..][1..] == rest;
        QuotedSome(rest);
      } else {
        assert s[1..][1..] == body[2..] + "\"" + rest;
        QuotedExactly(body[2..], rest);
      }
    } else if body != "" {
      assert s[0] == body[0] && s[1..] == body[1..] + "\"" + rest;
      QuotedExactly(body[1..], rest);
    }
  }

  lemma QuotedSome(s: string)
    requires s != ""
    ensures QuotedLength(s, false) > 0
  {}

  lemma {:induction false} BareEnds(name: string, rest: string)
    requires BareName(name) && (rest != "" ==> IsDelimiter(rest[0]))
    ensures BareLength(name + rest) == |name|
  {
    if name == "" {
      assert name + rest == rest;
    } else {
      assert (name + rest)[0] == name[0] && (name + rest)[1..] == name[1..] + rest;
      BareEnds(name[1..], rest);
    }
  }

  ghost predicate TurnsInto(quote: string -> string, s: string, stack: seq<Frame>, taken: nat, t: Token) {
    var turn := TokenTurn(quote, t, stack);
    s != "" && TurnAt(quote, s, stack) == Turn(taken, turn.0, turn.1)
  }

  lemma StringStart(body: string, rest: string)
    ensures var s := "\"" + body + "\"" + rest;
      s[0] == '"' && s[1..] == body + "\"" + rest && s[..|body| + 2] == "\"" + body + "\""
  {}

  lemma TurnAtQuote(quote: string -> string, s: string, stack: seq<Frame>)
    requires s != "" && s[0] == '"'
    ensures var n := 1 + QuotedLength(s[1..], false);
      TurnAt(quote, s, stack) == ScalarTurn(stack, n, ScalarJson("string", s[..n]))
  {}

  lemma TurnOnQuoted(quote: string -> string, s: string, body: string, stack: seq<Frame>)
    requires s != "" && s[0] == '"' && 1 + QuotedLength(s[1..], false) == |body| + 2
    requires s[..|body| + 2] == "\"" + body + "\""
    ensures TurnsInto(quote, s, stack, |body| + 2, Scalar(Str(body)))
  {
    TurnAtQuote(quote, s, stack);
    hide QuotedLength, ItemStart, ScalarJson, TurnAt;
  }

  lemma TurnOnString(quote: string -> string, body: string, rest: string, stack: seq<Frame>)
    requires QuotedBody(body)
    ensures TurnsInto(quote, "\"" + body + "\"" + rest, stack, |body| + 2, Scalar(Str(body)))
  {
    hide *;
    StringStart(body, rest);
    QuotedEnds(body, rest);
    TurnOnQuoted(quote, "\"" + body + "\"" + rest, body, stack);
  }

  lemma TurnOnKeyword(quote: string -> string, name: string, rest: string, stack: seq<Frame>)
    requires BareName(name) && (rest != "" ==> IsDelimiter(rest[0]))
    ensures TurnsInto(quote, ":" + name + rest, stack, |name| + 1, Scalar(Keyword(name)))
  {
    var s := ":" + name + rest;
    assert s[0] == ':' && s[1..] == name + rest && s[1..|name| + 1] == name;
    BareEnds(name, rest);
    hide BareLength, ItemStart, ScalarJson;
  }

  lemma TurnOnAtom(quote: string -> string, name: string, rest: string, stack: seq<Frame>)
    requires Writable(Scalar(Atom(name))) && (rest != "" ==> IsDelimiter(rest[0]))
    ensures TurnsInto(quote, name + rest, stack, |name|, Scalar(Atom(name)))
  {
    var s := name + rest;
    assert s[0] == name[0] && s[..|name|] == name && !IsDelimiter(name[0]);
    BareEnds(name, rest);
    BareStart(s);
    hide BareLength, ItemStart, ScalarJson;
  }

  // The converter takes exactly the spelling of the token in front of it.
  lemma TurnOnToken(quote: string -> string, t: Token, rest: string, stack: seq<Frame>)
    requires Writable(t) && (RunsOn(t) && rest != "" ==> IsDelimiter(rest[0]))
    ensures TurnsInto(quote, Spelling(t) + rest, stack, |Spelling(t)|, t)
  {
    if t.Scalar? {
      match t.node
      case Str(body) =>
        TurnOnString(quote, body, rest, stack);
      case Keyword(name) =>
        TurnOnKeyword(quote, name, rest, stack);
      case Atom(name) =>
        TurnOnAtom(quote, name, rest, stack);
      case _ =>
    } else {
      TurnOnBracket(quote, t, rest, stack);
    }
  }

  lemma TurnOnBracket(quote: string -> string, t: Token, rest: string, stack: seq<Frame>)
    requires !t.Scalar?
    ensures TurnsInto(quote, Spelling(t) + rest, stack, 1, t) && |Spelling(t)| == 1
  {
    assert (Spelling(t) + rest)[0] == Spelling(t)[0];
    hide ItemStart;
  }

  lemma ConvertsFirst(quote: string -> string, s: string, t: Token, gap: string, rest: string, stack: seq<Frame>)
    requires Writable(t) && PrintedFirst(s, t, gap, rest)
    ensures Convert(quote, s, stack)
      == TokenTurn(quote, t, stack).0 + Convert(quote, rest, TokenTurn(quote, t, stack).1)
  {
    var here := Spelling(t) + rest;
    TurnOnToken(quote, t, rest, stack);
    hide TurnAt, TokenTurn, Spelling, Writable;
    Cat(gap, Spelling(t), rest);
    SkipsSpace(quote, gap, here, stack);
    assert here[|Spelling(t)|..] == rest;
  }

  // So a printed token list is converted token by token.
  lemma {:induction false} ConvertsTokens(quote: string -> string, s: string, ts: seq<Token>, stack: seq<Frame>)
    requires Printed(s, ts)
    ensures Convert(quote, s, stack) == Feed(quote, ts, stack)
    decreases |ts|
  {
    if ts == [] {
      SkipsSpace(quote, s, "", stack);
      assert s + "" == s;
    } else {
      var gap: string, rest: string :| PrintedFirst(s, ts[0], gap, rest) && Printed(rest, ts[1..]);
      ConvertsFirst(quote, s, ts[0], gap, rest, stack);
      ConvertsTokens(quote, rest, ts[1..], TokenTurn(quote, ts[0], stack).1);
      hide TurnAt, TokenTurn, Convert;
    }
  }

  // ---- a tree's tokens write its JSON -------------------------------------

  // The frame a container leaves behind its items.
  function Past(first: bool, empty: bool, start: State, next: State): State {
    if first && empty then start else next
  }

  lemma FeedFirst(quote: string -> string, t: Token, rest: seq<Token>, stack: seq<Frame>)
    ensures Feed(quote, [t] + rest, stack)
      == TokenTurn(quote, t, stack).0 + Feed(quote, rest, TokenTurn(quote, t, stack).1)
  {
    assert ([t] + rest)[1..] == rest;
  }

  lemma Cat(a: string, b: string, c: string)
    ensures (a + b) + c == a + (b + c)
  {}

  // A node in any position writes its JSON between what its container wants
  // before and after an item.
  lemma {:induction false} NodeFeeds(quote: string -> string, node: Node, rest: seq<Token>, stack: seq<Frame>)
    ensures var item := ItemStart(stack);
      Feed(quote, Tokens(node) + rest, stack)
        == item.before + (Json(quote, node) + (item.after + Feed(quote, rest, item.stack)))
    decreases node, 0
  {
    var item := ItemStart(stack);
    match node
    case Vector(round, items) =>
      var inner := [CloseVector(round)] + rest;
      assert Tokens(node) + rest == [OpenVector(round)] + (ItemTokens(items) + inner);
      ItemsFeed(quote, items, inner, item.stack, true, item.after);
      ContainerFeeds(quote, OpenVector(round), ItemTokens(items), CloseVector(round), rest, stack,
        ItemsJson(quote, items, true), Past(true, items.NoNodes?, ArrayFirst, ArrayNext));
    case MapOf(entries) =>
      var inner := [CloseMap] + rest;
      assert Tokens(node) + rest == [OpenMap] + (EntryTokens(entries) + inner);
      EntriesFeed(quote, entries, inner, item.stack, true, item.after);
      ContainerFeeds(quote, OpenMap, EntryTokens(entries), CloseMap, rest, stack,
        EntriesJson(quote, entries, true), Past(true, entries.NoEntries?, MapFirst, MapNext));
    case _ =>
      ScalarFeeds(quote, node, rest, stack);
  }

  lemma ScalarFeeds(quote: string -> string, node: Node, rest: seq<Token>, stack: seq<Frame>)
    ensures var item := ItemStart(stack);
      Feed(quote, [Scalar(node)] + rest, stack)
        == item.before + (Json(quote, node) + (item.after + Feed(quote, rest, item.stack)))
  {
    var item := ItemStart(stack);
    FeedFirst(quote, Scalar(node), rest, stack);
    assert TokenTurn(quote, Scalar(node), stack) == (item.before + Json(quote, node) + item.after, item.stack);
    Cat(item.before + Json(quote, node), item.after, Feed(quote, rest, item.stack));
    Cat(item.before, Json(quote, node), item.after + Feed(quote, rest, item.stack));
    hide *;
  }

  function Opening(t: Token): string {
    if t.OpenMap? then MAP_OPEN else VECTOR_OPEN
  }

  // A container whose items write `json` writes it between its brackets.
  lemma ContainerFeeds(quote: string -> string, open: Token, items: seq<Token>, close: Token, rest: seq<Token>,
    stack: seq<Frame>, json: string, last: State)
    requires (open.OpenMap? && close.CloseMap?) || (open.OpenVector? && close.CloseVector?)
    requires var item := ItemStart(stack);
      Feed(quote, items + ([close] + rest), item.stack
        + [Frame(if open.OpenMap? then MapFirst else ArrayFirst, item.after, CLOSE)])
      == json + Feed(quote, [close] + rest, item.stack + [Frame(last, item.after, CLOSE)])
    ensures var item := ItemStart(stack);
      Feed(quote, [open] + (items + ([close] + rest)), stack)
      == item.before + ((Opening(open) + (json + CLOSE)) + (item.after + Feed(quote, rest, item.stack)))
  {
    var item := ItemStart(stack);
    FeedFirst(quote, open, items + ([close] + rest), stack);
    ClosesWith(quote, close, rest, item.stack, Frame(last, item.after, CLOSE));
    Brackets(item.before, Opening(open), json, CLOSE, item.after, Feed(quote, rest, item.stack));
    hide Feed, ItemStart;
  }

  lemma Brackets(b: string, o: string, j: string, c: string, a: string, r: string)
    ensures (b + o) + (j + ((c + a) + r)) == b + ((o + (j + c)) + (a + r))
  {
    Cat(c, a, r);
    Cat(j, c, a + r);
    Cat(o, j + c, a + r);
    Cat(b, o, j + (c + (a + r)));
  }

  lemma ClosesWith(quote: string -> string, t: Token, rest: seq<Token>, parent: seq<Frame>, frame: Frame)
    requires t.CloseMap? || t.CloseVector?
    ensures Feed(quote, [t] + rest, parent + [frame]) == (frame.close + frame.after) + Feed(quote, rest, parent)
  {
    FeedFirst(quote, t, rest, parent + [frame]);
    assert (parent + [frame])[..|parent|] == parent;
  }

  // What a frame on top of the stack makes of the next item.
  lemma ItemUnder(parent: seq<Frame>, state: State, after: string)
    ensures ItemStart(parent + [Frame(state, after, CLOSE)]) ==
      match state
      case ArrayFirst => Started("", "", parent + [Frame(ArrayNext, after, CLOSE)])
      case ArrayNext => Started(",", "", parent + [Frame(ArrayNext, after, CLOSE)])
      case MapFirst => Started("[", ",", parent + [Frame(MapValue, after, CLOSE)])
      case MapNext => Started(",[", ",", parent + [Frame(MapValue, after, CLOSE)])
      case MapValue => Started("", "]", parent + [Frame(MapNext, after, CLOSE)])
  {
    assert (parent + [Frame(state, after, CLOSE)])[..|parent|] == parent;
  }

  lemma {:induction false} ItemsFeed(quote: string -> string, items: Nodes, rest: seq<Token>, parent: seq<Frame>,
        first: bool, after: string)
    ensures var start := if first then ArrayFirst else ArrayNext;
      Feed(quote, ItemTokens(items) + rest, parent + [Frame(start, after, CLOSE)])
      == ItemsJson(quote, items, first)
         + Feed(quote, rest, parent + [Frame(Past(first, items.NoNodes?, ArrayFirst, ArrayNext), after, CLOSE)])
    decreases items, 1
  {
    var state := if first then ArrayFirst else ArrayNext;
    ItemUnder(parent, state, after);
    match items
    case NoNodes =>
      assert ItemTokens(items) + rest == rest;
    case Nodes(head, tail) =>
      var left := ItemTokens(tail) + rest;
      var under := parent + [Frame(state, after, CLOSE)];
      assert ItemTokens(items) + rest == Tokens(head) + left;
      hide Feed, ItemStart, ItemTokens, Tokens;
      NodeFeeds(quote, head, left, under);
      ItemsFeed(quote, tail, rest, parent, false, after);
      var end := Feed(quote, rest, parent + [Frame(ArrayNext, after, CLOSE)]);
      assert "" + (ItemsJson(quote, tail, false) + end) == ItemsJson(quote, tail, false) + end;
      Cat(Json(quote, head), ItemsJson(quote, tail, false), end);
      Cat(if first then "" else ",", Json(quote, head) + ItemsJson(quote, tail, false), end);
  }

  lemma {:induction false} EntriesFeed(quote: string -> string, entries: Entries, rest: seq<Token>,
        parent: seq<Frame>, first: bool, after: string)
    ensures var start := if first then MapFirst else MapNext;
      Feed(quote, EntryTokens(entries) + rest, parent + [Frame(start, after, CLOSE)])
      == EntriesJson(quote, entries, first)
         + Feed(quote, rest, parent + [Frame(Past(first, entries.NoEntries?, MapFirst, MapNext), after, CLOSE)])
    decreases entries, 1
  {
    var state := if first then MapFirst else MapNext;
    ItemUnder(parent, state, after);
    ItemUnder(parent, MapValue, after);
    match entries
    case NoEntries =>
      assert EntryTokens(entries) + rest == rest;
    case Entries(k, v, more) =>
      var left := EntryTokens(more) + rest;
      assert EntryTokens(entries) + rest == Tokens(k) + (Tokens(v) + left);
      hide Feed, ItemStart, EntryTokens, Tokens;
      NodeFeeds(quote, k, Tokens(v) + left, parent + [Frame(state, after, CLOSE)]);
      NodeFeeds(quote, v, left, parent + [Frame(MapValue, after, CLOSE)]);
      EntriesFeed(quote, more, rest, parent, false, after);
      var end := Feed(quote, rest, parent + [Frame(MapNext, after, CLOSE)]);
      EntryCat(if first then "[" else ",[", Json(quote, k), Json(quote, v), EntriesJson(quote, more, false), end);
  }

  lemma EntryCat(open: string, k: string, v: string, more: string, end: string)
    ensures open + (k + ("," + ("" + (v + ("]" + (more + end)))))) == (open + (k + ("," + (v + ("]" + more))))) + end
  {
    assert "" + (v + ("]" + (more + end))) == v + ("]" + (more + end));
    Cat("]", more, end);
    Cat(v, "]" + more, end);
    Cat(",", v + ("]" + more), end);
    Cat(k, "," + (v + ("]" + more)), end);
    Cat(open, k + ("," + (v + ("]" + more))), end);
  }

  // ---- main results -------------------------------------------------------

  // Top-level nodes are written one behind the other.
  function AllJson(quote: string -> string, nodes: Nodes): string {
    match nodes
    case NoNodes => ""
    case Nodes(head, tail) => Json(quote, head) + AllJson(quote, tail)
  }

  lemma {:induction false} AllFeed(quote: string -> string, nodes: Nodes)
    ensures Feed(quote, ItemTokens(nodes), []) == AllJson(quote, nodes)
  {
    match nodes
    case NoNodes =>
    case Nodes(head, tail) =>
      NodeFeedsFirst(quote, head, ItemTokens(tail));
      AllFeed(quote, tail);
      hide Feed, Tokens, Json;
  }

  lemma NodeFeedsFirst(quote: string -> string, node: Node, rest: seq<Token>)
    ensures Feed(quote, Tokens(node) + rest, []) == Json(quote, node) + Feed(quote, rest, [])
  {
    NodeFeeds(quote, node, rest, []);
    assert ItemStart([]) == Started("", "", []);
    hide *;
    Blank(Json(quote, node), Feed(quote, rest, []));
  }

  lemma Blank(a: string, b: string)
    ensures "" + (a + ("" + b)) == a + b
  {
    assert "" + b == b && "" + (a + b) == a + b;
  }

  // Whatever white space a text is printed with, the converter writes exactly
  // the recursive encoding of its trees.
  lemma ConvertsTrees(quote: string -> string, text: string, nodes: Nodes)
    requires Printed(text, ItemTokens(nodes))
    ensures Convert(quote, text, []) == AllJson(quote, nodes)
  {
    ConvertsTokens(quote, text, ItemTokens(nodes), []);
    AllFeed(quote, nodes);
  }

  // Two prints of the same trees cannot be told apart from the output.
  lemma LayoutIsLost(quote: string -> string, text: string, other: string, nodes: Nodes)
    requires Printed(text, ItemTokens(nodes)) && Printed(other, ItemTokens(nodes))
    ensures Convert(quote, text, []) == Convert(quote, other, [])
  {
    ConvertsTrees(quote, text, nodes);
    ConvertsTrees(quote, other, nodes);
  }

  // Every tree of writable tokens has a print: one space behind each token.
  function Spaced(ts: seq<Token>): string
    requires forall i | 0 <= i < |ts| :: Writable(ts[i])
  {
    if ts == [] then "" else Spelling(ts[0]) + " " + Spaced(ts[1..])
  }

  lemma PrintsBy(s: string, ts: seq<Token>, gap: string, rest: string)
    requires ts != [] && Writable(ts[0]) && AllSpace(gap) && s == gap + Spelling(ts[0]) + rest
    requires rest != "" && IsDelimiter(rest[0]) && Printed(rest, ts[1..])
    ensures Printed(s, ts)
  {
    assert PrintedFirst(s, ts[0], gap, rest);
  }

  lemma {:induction false} SpacedIsPrinted(ts: seq<Token>, gap: string)
    requires (forall i | 0 <= i < |ts| :: Writable(ts[i])) && AllSpace(gap)
    ensures Printed(gap + Spaced(ts), ts)
    decreases |ts|
  {
    if ts == [] {
      assert gap + "" == gap;
    } else {
      var rest := " " + Spaced(ts[1..]);
      SpacedIsPrinted(ts[1..], " ");
      SpacedHead(ts, gap);
      hide *;
      PrintsBy(gap + Spaced(ts), ts, gap, rest);
    }
  }

  lemma SpacedHead(ts: seq<Token>, gap: string)
    requires ts != [] && forall i | 0 <= i < |ts| :: Writable(ts[i])
    ensures gap + Spaced(ts) == gap + Spelling(ts[0]) + (" " + Spaced(ts[1..]))
    ensures IsDelimiter((" " + Spaced(ts[1..]))[0])
  {
    hide Spelling;
    Cat(Spelling(ts[0]), " ", Spaced(ts[1..]));
    Cat(gap, Spelling(ts[0]), " " + Spaced(ts[1..]));
  }
}
