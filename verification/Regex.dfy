// The backtracking regular-expression matcher over compiled token programs,
// against the declarative meaning of a program.
module Regex {
  import opened Bytes
  import opened Options

  const MAX64: nat := 0xFFFF_FFFF_FFFF_FFFF

  // ---- programs -----------------------------------------------------------

  datatype Atom =
    | Literal(b: Byte)
    | Any
    | Class(items: seq<Byte>, negated: bool)
    | Digit
    | Space
    | Nonspace

  // An atom repeated between `least` and `most` times, an assertion, or a
  // capture mark, which takes no text.
  datatype Token =
    | Repeat(atom: Atom, least: nat, most: nat)
    | Begin
    | End
    | CaptureBegin(n: nat)
    | CaptureEnd(n: nat)

  datatype Program = Program(tokens: seq<Token>, anchored: bool) {
    // The compiler marks a program anchored when it meets a start assertion.
    predicate Compiled() {
      anchored <==> Begin in tokens
    }
  }

  predicate IsSpace(b: Byte) {
    b == ' ' as Byte || b == '\t' as Byte || b == '\n' as Byte || b == '\r' as Byte || b == 11 || b == 12
  }

  const DASH: Byte := '-' as Byte

  // What a class lists: byte ranges written a-b, and single bytes.
  function Ranges(items: seq<Byte>): seq<(Byte, Byte)>
    decreases |items|
  {
    if items == [] then []
    else if |items| > 2 && items[1] == DASH then [(items[0], items[2])] + Ranges(items[3..])
    else [(items[0], items[0])] + Ranges(items[1..])
  }

  predicate Listed(items: seq<Byte>, b: Byte) {
    exists r :: r in Ranges(items) && r.0 <= b <= r.1
  }

  predicate Accepts(a: Atom, b: Byte) {
    match a
    case Literal(c) => b == c
    case Any => true
    case Class(items, negated) => Listed(items, b) != negated
    case Digit => '0' as Byte <= b <= '9' as Byte
    case Space => IsSpace(b)
    case Nonspace => !IsSpace(b)
  }

  method ClassMember(items: seq<Byte>, negated: bool, b: Byte) returns (yes: bool)
    ensures yes == Accepts(Class(items, negated), b)
  {
    var position := 0;
    var member := false;
    assert items[0..] == items;
    while position < |items|
      invariant 0 <= position <= |items|
      invariant Listed(items, b) <==> member || Listed(items[position..], b)
    {
      var first := items[position];
      ghost var rest := items[position..];
      if position + 2 < |items| && items[position + 1] == DASH {
        ListedStep(rest, b);
        var last := items[position + 2];
        if first <= b <= last {
          member := true;
        }
        position := position + 3;
        assert rest[3..] == items[position..];
      } else {
        ListedStep(rest, b);
        if b == first {
          member := true;
        }
        position := position + 1;
        assert rest[1..] == items[position..];
      }
    }
    yes := if negated then !member else member;
  }

  lemma ListedStep(items: seq<Byte>, b: Byte)
    requires items != []
    ensures Listed(items, b) <==>
      if |items| > 2 && items[1] == DASH then items[0] <= b <= items[2] || Listed(items[3..], b)
      else b == items[0] || Listed(items[1..], b)
  {
    var head := if |items| > 2 && items[1] == DASH then (items[0], items[2]) else (items[0], items[0]);
    var tail := if |items| > 2 && items[1] == DASH then items[3..] else items[1..];
    assert Ranges(items) == [head] + Ranges(tail);
    assert head in Ranges(items);
    assert forall r :: r in Ranges(tail) ==> r in Ranges(items);
  }

  // ---- the bytes an atom takes --------------------------------------------

  // At i a class lists a range of bytes, written with a dash between its ends.
  predicate RangeAt(items: seq<Byte>, i: nat) {
    i + 2 < |items| && items[i + 1] == 45
  }

  function NextItem(items: seq<Byte>, i: nat): nat {
    if RangeAt(items, i) then i + 3 else i + 1
  }

  // i is where a range or a single byte of the class starts.
  ghost predicate ItemAt(items: seq<Byte>, i: nat) {
    i == 0 || exists j: nat | j < i :: ItemAt(items, j) && NextItem(items, j) == i
  }

  predicate Hits(items: seq<Byte>, i: nat, b: Byte)
    requires i < |items|
  {
    if RangeAt(items, i) then items[i] <= b <= items[i + 2] else b == items[i]
  }

  ghost predicate HitFrom(items: seq<Byte>, p: nat, b: Byte) {
    exists i: nat :: p <= i < |items| && ItemAt(items, i) && Hits(items, i, b)
  }

  // Digits are 48 to 57 and spaces 9 to 13 and 32, whatever they are called.
  ghost predicate TakesByte(a: Atom, b: Byte) {
    match a
    case Literal(c) => b == c
    case Any => true
    case Class(items, negated) => HitFrom(items, 0, b) <==> !negated
    case Digit => 48 <= b <= 57
    case Space => 9 <= b <= 13 || b == 32
    case Nonspace => b < 9 || 13 < b < 32 || b > 32
  }

  // Items do not overlap.
  lemma {:induction false} ItemsApart(items: seq<Byte>, a: nat, b: nat)
    requires ItemAt(items, a) && ItemAt(items, b) && a < b
    ensures NextItem(items, a) <= b
    decreases b
  {
    var j: nat :| j < b && ItemAt(items, j) && NextItem(items, j) == b;
    if j < a {
      ItemsApart(items, j, a);
    } else if a < j {
      ItemsApart(items, a, j);
    }
  }

  lemma NextIsItem(items: seq<Byte>, i: nat)
    requires ItemAt(items, i)
    ensures ItemAt(items, NextItem(items, i))
  {}

  // From the start of an item on, what is listed is what some item hits.
  lemma {:induction false} ListedFrom(items: seq<Byte>, p: nat, b: Byte)
    requires p <= |items| && ItemAt(items, p)
    ensures Listed(items[p..], b) <==> HitFrom(items, p, b)
    decreases |items| - p
  {
    if p < |items| {
      var n, rest := NextItem(items, p), items[p..];
      ListedStep(rest, b);
      NextIsItem(items, p);
      ListedFrom(items, n, b);
      assert rest[n - p..] == items[n..];
      HitNext(items, p, b);
    }
  }

  lemma HitNext(items: seq<Byte>, p: nat, b: Byte)
    requires p < |items| && ItemAt(items, p)
    ensures HitFrom(items, p, b) <==> Hits(items, p, b) || HitFrom(items, NextItem(items, p), b)
  {
    hide ItemAt, Hits;
    forall i: nat | p < i && ItemAt(items, i)
      ensures NextItem(items, p) <= i
    {
      ItemsApart(items, p, i);
    }
  }

  lemma AcceptsMeans(a: Atom, b: Byte)
    ensures Accepts(a, b) <==> TakesByte(a, b)
  {
    if a.Class? {
      ListedFrom(a.items, 0, b);
      assert a.items[0..] == a.items;
    }
  }

  // ---- meaning ------------------------------------------------------------

  // Every byte of s[p..q] is accepted.
  ghost predicate AllAccepted(a: Atom, s: seq<Byte>, p: nat, q: nat)
    requires p <= q <= |s|
  {
    forall k | p <= k < q :: Accepts(a, s[k])
  }

  // One token takes the text from p to q.
  ghost predicate Takes(t: Token, s: seq<Byte>, p: nat, q: nat) {
    p <= q <= |s| &&
    match t
    case Repeat(a, least, most) => least <= q - p <= most && AllAccepted(a, s, p, q)
    case Begin => p == q == 0
    case End => p == q == |s|
    case CaptureBegin(_) => p == q
    case CaptureEnd(_) => p == q
  }

  // The tokens, one after another, take the text from p to e.
  ghost predicate Matches(ts: seq<Token>, s: seq<Byte>, p: nat, e: nat) {
    if ts == [] then p == e <= |s|
    else exists q: nat :: Takes(ts[0], s, p, q) && Matches(ts[1..], s, q, e)
  }

  lemma MatchBy(ts: seq<Token>, s: seq<Byte>, p: nat, q: nat, e: nat)
    requires ts != [] && Takes(ts[0], s, p, q) && Matches(ts[1..], s, q, e)
    ensures Matches(ts, s, p, e)
  {}

  lemma {:induction false} MatchForward(ts: seq<Token>, s: seq<Byte>, p: nat, e: nat)
    requires Matches(ts, s, p, e)
    ensures p <= e <= |s|
  {
    if ts != [] {
      var q: nat :| Takes(ts[0], s, p, q) && Matches(ts[1..], s, q, e);
      MatchForward(ts[1..], s, q, e);
    }
  }

  // Two ways through the tokens cross: a match from p that ends further can be
  // joined from the later start q.
  lemma {:induction false} MatchesCross(ts: seq<Token>, s: seq<Byte>, p: nat, e: nat, q: nat, f: nat)
    requires Matches(ts, s, p, e) && Matches(ts, s, q, f) && p <= q && f < e
    ensures Matches(ts, s, q, e)
  {
    if ts != [] {
      var p': nat :| Takes(ts[0], s, p, p') && Matches(ts[1..], s, p', e);
      var q': nat :| Takes(ts[0], s, q, q') && Matches(ts[1..], s, q', f);
      if p' <= q' {
        MatchesCross(ts[1..], s, p', e, q', f);
        MatchBy(ts, s, q, q', e);
      } else {
        TakeFurther(ts[0], s, p, p', q, q');
        MatchBy(ts, s, q, p', e);
      }
    }
  }

  // A token that takes q..q' inside p..p' can also take q..p'.
  lemma TakeFurther(t: Token, s: seq<Byte>, p: nat, p': nat, q: nat, q': nat)
    requires Takes(t, s, p, p') && Takes(t, s, q, q') && p <= q && q' < p'
    ensures Takes(t, s, q, p')
  {}

  // A start assertion anywhere in the program holds only at 0.
  lemma {:induction false} AnchoredAtZero(ts: seq<Token>, s: seq<Byte>, p: nat, e: nat)
    requires Begin in ts && Matches(ts, s, p, e)
    ensures p == 0
  {
    var q: nat :| Takes(ts[0], s, p, q) && Matches(ts[1..], s, q, e);
    if ts[0] != Begin { AnchoredAtZero(ts[1..], s, q, e); }
  }

  // ---- matching -----------------------------------------------------------

  ghost predicate LongestFrom(ts: seq<Token>, s: seq<Byte>, p: nat, e: nat) {
    Matches(ts, s, p, e) && forall f: nat | Matches(ts, s, p, f) :: f <= e
  }

  method AtomMatches(a: Atom, b: Byte) returns (yes: bool)
    ensures yes == Accepts(a, b) == TakesByte(a, b)
  {
    AcceptsMeans(a, b);
    match a
    case Class(items, negated) =>
      yes := ClassMember(items, negated, b);
    case _ =>
      yes := Accepts(a, b);
  }

  // Matches the tokens from number i on, taking as much as it can and giving
  // back one byte at a time. It finds a match whenever there is one, and
  // always the longest.
  method MatchTokens(ts: seq<Token>, i: nat, s: seq<Byte>, position: nat) returns (end: Option<nat>)
    requires i <= |ts| && position <= |s| <= MAX64
    ensures match end
      case None => forall e: nat :: !Matches(ts[i..], s, position, e)
      case Some(e) => LongestFrom(ts[i..], s, position, e)
    decreases |ts| - i
  {
    if i == |ts| {
      return Some(position);
    }
    assert ts[i..][0] == ts[i] && ts[i..][1..] == ts[i + 1..];
    if ts[i].Repeat? {
      end := MatchRepeat(ts, i, s, position);
      return;
    }
    if (ts[i].Begin? && position != 0) || (ts[i].End? && position != |s|) {
      return None;
    }
    end := MatchTokens(ts, i + 1, s, position);
    if end.Some? { MatchBy(ts[i..], s, position, position, end.value); }
  }

  method MatchRepeat(ts: seq<Token>, i: nat, s: seq<Byte>, position: nat) returns (end: Option<nat>)
    requires i < |ts| && ts[i].Repeat? && position <= |s| <= MAX64
    ensures match end
      case None => forall e: nat :: !Matches(ts[i..], s, position, e)
      case Some(e) => LongestFrom(ts[i..], s, position, e)
    decreases |ts| - i, 0
  {
    var token := ts[i];
    ghost var rest := ts[i + 1..];
    assert ts[i..][0] == token && ts[i..][1..] == rest;
    var available := Span(token.atom, token.most, s, position);
    if available < token.least {
      return None;
    }
    while true
      invariant token.least <= available && Takes(token, s, position, position + available)
      invariant forall q: nat, e: nat | q > position + available && Takes(token, s, position, q) ::
        !Matches(rest, s, q, e)
      decreases available
    {
      end := MatchTokens(ts, i + 1, s, position + available);
      if end.Some? {
        MatchBy(ts[i..], s, position, position + available, end.value);
        GreedyIsLongest(ts[i..], s, position, position + available, end.value);
        return;
      }
      if available == token.least {
        break;
      }
      available := available - 1;
    }
  }

  // How many bytes the atom could take at most.
  method Span(a: Atom, most: nat, s: seq<Byte>, position: nat) returns (available: nat)
    requires position <= |s|
    ensures position + available <= |s| && available <= most && AllAccepted(a, s, position, position + available)
    ensures forall q: nat | position + available < q <= |s| && AllAccepted(a, s, position, q) :: q > position + most
  {
    available := 0;
    var limit := |s| - position;
    if most < limit {
      limit := most;
    }
    while available < limit
      invariant available <= limit && AllAccepted(a, s, position, position + available)
    {
      var accepted := AtomMatches(a, s[position + available]);
      if !accepted {
        break;
      }
      available := available + 1;
    }
  }

  // Taking the most first leads to the longest match.
  lemma GreedyIsLongest(ts: seq<Token>, s: seq<Byte>, p: nat, q: nat, e: nat)
    requires ts != [] && Takes(ts[0], s, p, q) && LongestFrom(ts[1..], s, q, e)
    requires forall r: nat, f: nat | r > q && Takes(ts[0], s, p, r) :: !Matches(ts[1..], s, r, f)
    ensures LongestFrom(ts, s, p, e)
  {
    MatchBy(ts, s, p, q, e);
    forall f: nat | Matches(ts, s, p, f)
      ensures f <= e
    {
      var r: nat :| Takes(ts[0], s, p, r) && Matches(ts[1..], s, r, f);
      if f > e { MatchesCross(ts[1..], s, r, f, q, e); }
    }
  }

  // ---- searching ----------------------------------------------------------

  // The match a search from `offset` answers with: the first place at or after
  // it where the program matches, and the longest match there.
  ghost predicate FirstLongest(ts: seq<Token>, s: seq<Byte>, offset: nat, start: nat, end: nat) {
    && offset <= start && LongestFrom(ts, s, start, end)
    && forall p: nat, e: nat | offset <= p < start :: !Matches(ts, s, p, e)
  }

  ghost predicate NoMatch(ts: seq<Token>, s: seq<Byte>, offset: nat) {
    forall p: nat, e: nat | offset <= p :: !Matches(ts, s, p, e)
  }

  // Trying only start 0 for an anchored program loses no match.
  method Search(program: Program, s: seq<Byte>, offset: nat) returns (found: Option<(nat, nat)>)
    requires program.Compiled() && offset <= |s| <= MAX64
    ensures match found
      case None => NoMatch(program.tokens, s, offset)
      case Some(m) => FirstLongest(program.tokens, s, offset, m.0, m.1)
  {
    var start := if program.anchored then 0 else offset;
    if program.anchored {
      forall p: nat, e: nat | Matches(program.tokens, s, p, e)
        ensures p == 0
      {
        AnchoredAtZero(program.tokens, s, p, e);
      }
      if offset != 0 {
        return None;
      }
    }
    assert program.tokens[0..] == program.tokens;
    while start <= |s|
      invariant offset <= start <= |s|
      invariant forall p: nat, e: nat | offset <= p < start :: !Matches(program.tokens, s, p, e)
      decreases |s| - start
    {
      var matched := MatchTokens(program.tokens, 0, s, start);
      if matched.Some? {
        return Some((start, matched.value));
      }
      if program.anchored || start == |s| {
        break;
      }
      start := start + 1;
    }
    forall p: nat, e: nat | offset <= p && Matches(program.tokens, s, p, e)
      ensures p <= start
    {
      MatchForward(program.tokens, s, p, e);
    }
    return None;
  }

  // Looking only at the first match found decides whether the whole text
  // matches.
  method TextMatches(program: Program, s: seq<Byte>) returns (yes: bool)
    requires program.Compiled() && |s| <= MAX64
    ensures yes <==> Matches(program.tokens, s, 0, |s|)
  {
    var found := Search(program, s, 0);
    yes := found.Some? && found.value.0 == 0 && found.value.1 == |s|;
    if found.Some? && Matches(program.tokens, s, 0, |s|) {
      MatchForward(program.tokens, s, found.value.0, found.value.1);
    }
  }

  // ---- replacing ----------------------------------------------------------

  // The match a search answers with, as a function.
  ghost function Found(ts: seq<Token>, s: seq<Byte>, offset: nat): (m: Option<(nat, nat)>)
    ensures m.Some? ==> FirstLongest(ts, s, offset, m.value.0, m.value.1) && offset <= m.value.0 <= m.value.1 <= |s|
  {
    if exists m: (nat, nat) :: FirstLongest(ts, s, offset, m.0, m.1) then
      var m: (nat, nat) :| FirstLongest(ts, s, offset, m.0, m.1);
      MatchForward(ts, s, m.0, m.1);
      Some(m)
    else None
  }

  lemma FoundIs(ts: seq<Token>, s: seq<Byte>, offset: nat, m: Option<(nat, nat)>)
    requires match m
      case None => NoMatch(ts, s, offset)
      case Some(m) => FirstLongest(ts, s, offset, m.0, m.1)
    ensures Found(ts, s, offset) == m
  {
    var f := Found(ts, s, offset);
    assert m.Some? ==> f.Some?;
  }

  // Where the next search starts after a match from a to b; a search does not
  // stay behind an empty match.
  function After(s: seq<Byte>, a: nat, b: nat): nat {
    if a < b || b >= |s| then b else b + 1
  }

  // The byte passed over behind an empty match.
  function Skipped(s: seq<Byte>, a: nat, b: nat): seq<Byte> {
    if a < b || b >= |s| then [] else [s[b]]
  }

  // The text from `cursor` on with each successive match replaced.
  ghost function Replaced(ts: seq<Token>, s: seq<Byte>, r: seq<Byte>, cursor: nat): seq<Byte>
    requires cursor <= |s|
    decreases |s| - cursor
  {
    match Found(ts, s, cursor)
    case None => s[cursor..]
    case Some(m) =>
      s[cursor..m.0] + r + Skipped(s, m.0, m.1)
      + (if m.0 == m.1 == |s| then [] else Replaced(ts, s, r, After(s, m.0, m.1)))
  }

  ghost function MatchCount(ts: seq<Token>, s: seq<Byte>, cursor: nat): nat
    requires cursor <= |s|
    decreases |s| - cursor
  {
    match Found(ts, s, cursor)
    case None => 0
    case Some(m) => 1 + (if m.0 == m.1 == |s| then 0 else MatchCount(ts, s, After(s, m.0, m.1)))
  }

  method SearchFound(program: Program, s: seq<Byte>, offset: nat) returns (found: Option<(nat, nat)>)
    requires program.Compiled() && offset <= |s| <= MAX64
    ensures found == Found(program.tokens, s, offset)
  {
    found := Search(program, s, offset);
    FoundIs(program.tokens, s, offset, found);
  }

  // The measuring pass: the length of the result and the number of matches, or
  // nothing when the length does not fit 64 bits.
  method Measure(program: Program, s: seq<Byte>, r: seq<Byte>) returns (total: nat, matches: nat, fits: bool)
    requires program.Compiled() && |s| <= MAX64 && |r| <= MAX64
    ensures fits <==> |Replaced(program.tokens, s, r, 0)| <= MAX64
    ensures fits ==> total == |Replaced(program.tokens, s, r, 0)| && matches == MatchCount(program.tokens, s, 0)
  {
    ghost var ts := program.tokens;
    ghost var whole, count := |Replaced(ts, s, r, 0)|, MatchCount(ts, s, 0);
    var cursor := 0;
    total, matches := 0, 0;
    while true
      invariant cursor <= |s| && total <= MAX64
      invariant whole == total + |Replaced(ts, s, r, cursor)| && count == matches + MatchCount(ts, s, cursor)
      decreases |s| - cursor
    {
      var found := SearchFound(program, s, cursor);
      if found.None? {
        break;
      }
      var (start, end) := found.value;
      if start - cursor > MAX64 - total || |r| > MAX64 - total - (start - cursor) {
        return total, matches, false;
      }
      total := total + (start - cursor) + |r|;
      matches := matches + 1;
      if end == start {
        if end < |s| && total == MAX64 {
          return total, matches, false;
        }
        total := total + (if end < |s| then 1 else 0);
        cursor := if end < |s| then end + 1 else end;
        if end == |s| {
          break;
        }
      } else {
        cursor := end;
      }
    }
    if |s| - cursor > MAX64 - total {
      return total, matches, false;
    }
    total := total + (|s| - cursor);
    fits := true;
  }

  method WriteBytes(out: array<Byte>, at: nat, xs: seq<Byte>)
    requires at + |xs| <= out.Length
    modifies out
    ensures out[..at + |xs|] == old(out[..at]) + xs
  {
    for i := 0 to |xs|
      invariant out[..at + i] == old(out[..at]) + xs[..i]
    {
      out[at + i] := xs[i];
    }
  }

  // Replaces every match. The writing pass visits the matches the measuring
  // pass counted and fills the buffer exactly.
  method Replace(program: Program, s: seq<Byte>, r: seq<Byte>) returns (result: Option<array<Byte>>)
    requires program.Compiled() && |s| <= MAX64 && |r| <= MAX64
    ensures result.None? <==> |Replaced(program.tokens, s, r, 0)| > MAX64
    ensures result.Some? ==> fresh(result.value) && result.value[..] == Replaced(program.tokens, s, r, 0)
  {
    var total, matches, fits := Measure(program, s, r);
    if !fits {
      return None;
    }
    var output := new Byte[total];
    WriteMatches(program, s, r, matches, output);
    result := Some(output);
  }

  // One match's share of the output.
  ghost function Piece(s: seq<Byte>, r: seq<Byte>, cursor: nat, m: (nat, nat)): seq<Byte>
    requires cursor <= m.0 <= |s|
  {
    s[cursor..m.0] + r + Skipped(s, m.0, m.1)
  }

  // What follows a match.
  ghost function Tail(ts: seq<Token>, s: seq<Byte>, r: seq<Byte>, m: (nat, nat)): seq<Byte>
    requires m.0 <= m.1 <= |s|
  {
    if m.0 == m.1 == |s| then [] else Replaced(ts, s, r, After(s, m.0, m.1))
  }

  // Writes the text before a match, the replacement, and the byte passed over
  // behind an empty match.
  method WritePiece(s: seq<Byte>, r: seq<Byte>, cursor: nat, start: nat, end: nat, output: array<Byte>, at: nat)
    returns (write: nat)
    requires cursor <= start <= end <= |s| && at + |Piece(s, r, cursor, (start, end))| <= output.Length
    modifies output
    ensures write == at + |Piece(s, r, cursor, (start, end))|
    ensures output[..write] == old(output[..at]) + Piece(s, r, cursor, (start, end))
  {
    WriteBytes(output, at, s[cursor..start]);
    write := at + (start - cursor);
    WriteBytes(output, write, r);
    write := write + |r|;
    if end == start && end < |s| {
      WriteBytes(output, write, [s[end]]);
      write := write + 1;
    }
    assert output[..write] == old(output[..at]) + (s[cursor..start] + r + Skipped(s, start, end));
  }

  // One match at a time.
  lemma NextMatch(ts: seq<Token>, s: seq<Byte>, r: seq<Byte>, cursor: nat)
    requires cursor <= |s|
    ensures match Found(ts, s, cursor)
      case None => Replaced(ts, s, r, cursor) == s[cursor..] && MatchCount(ts, s, cursor) == 0
      case Some(m) =>
        && cursor <= m.0 <= m.1 <= |s|
        && Replaced(ts, s, r, cursor) == Piece(s, r, cursor, m) + Tail(ts, s, r, m)
        && MatchCount(ts, s, cursor) == 1 + (if m.0 == m.1 == |s| then 0 else MatchCount(ts, s, After(s, m.0, m.1)))
  {}

  // What is still to be written, and how many matches of it.
  ghost predicate Remains(ts: seq<Token>, s: seq<Byte>, r: seq<Byte>, cursor: nat, more: bool, left: nat,
        rest: seq<Byte>) {
    && cursor <= |s|
    && (if more then rest == Replaced(ts, s, r, cursor) && left == MatchCount(ts, s, cursor)
        else cursor == |s| && rest == [] && left == 0)
  }

  lemma NextRemains(ts: seq<Token>, s: seq<Byte>, r: seq<Byte>, cursor: nat, left: nat, rest: seq<Byte>)
        returns (rest': seq<Byte>)
    requires Remains(ts, s, r, cursor, true, left, rest) && left > 0
    ensures Found(ts, s, cursor).Some?
    ensures var m := Found(ts, s, cursor).value;
      && cursor <= m.0 <= m.1 <= |s| && rest == Piece(s, r, cursor, m) + rest'
      && Remains(ts, s, r, if m.0 == m.1 < |s| then m.1 + 1 else m.1, m.0 < m.1 || m.1 < |s|, left - 1, rest')
  {
    hide Replaced, MatchCount, Piece, Found;
    NextMatch(ts, s, r, cursor);
    rest' := Tail(ts, s, r, Found(ts, s, cursor).value);
  }

  lemma NoneRemains(ts: seq<Token>, s: seq<Byte>, r: seq<Byte>, cursor: nat, more: bool, left: nat, rest: seq<Byte>)
    requires Remains(ts, s, r, cursor, more, left, rest) && (!more || left == 0)
    ensures cursor <= |s| && rest == s[cursor..]
  {
    hide Replaced, MatchCount, Piece, Found;
    NextMatch(ts, s, r, cursor);
  }

  lemma AllRemains(ts: seq<Token>, s: seq<Byte>, r: seq<Byte>)
    ensures Remains(ts, s, r, 0, true, MatchCount(ts, s, 0), Replaced(ts, s, r, 0))
  {}

  method WriteMatches(program: Program, s: seq<Byte>, r: seq<Byte>, matches: nat, output: array<Byte>)
    requires program.Compiled() && |s| <= MAX64 && |r| <= MAX64
    requires matches == MatchCount(program.tokens, s, 0) && output.Length == |Replaced(program.tokens, s, r, 0)|
    modifies output
    ensures output[..] == Replaced(program.tokens, s, r, 0)
  {
    hide *;
    ghost var ts := program.tokens;
    ghost var whole := Replaced(ts, s, r, 0);
    ghost var rest := whole;
    var left: nat := matches;
    var cursor: nat := 0;
    var write: nat := 0;
    var more := true;
    AllRemains(ts, s, r);
    while more && left > 0
      invariant write <= output.Length && output[..write] + rest == whole
      invariant Remains(ts, s, r, cursor, more, left, rest)
      decreases left
    {
      var found := SearchFound(program, s, cursor) by { AtMost(ts, s, r, cursor, more, left, rest); }
      ghost var after := NextRemains(ts, s, r, cursor, left, rest);
      if found.None? {
        break;
      }
      rest := after;
      var (start, end) := found.value;
      write := WritePiece(s, r, cursor, start, end, output, write);
      left := left - 1;
      if end == start {
        more := end < |s|;
        cursor := if end < |s| then end + 1 else end;
      } else {
        cursor := end;
      }
    }
    NoneRemains(ts, s, r, cursor, more, left, rest);
    if cursor < |s| {
      WriteBytes(output, write, s[cursor..]);
    }
  }

  lemma AtMost(ts: seq<Token>, s: seq<Byte>, r: seq<Byte>, cursor: nat, more: bool, left: nat, rest: seq<Byte>)
    requires Remains(ts, s, r, cursor, more, left, rest)
    ensures cursor <= |s|
  {}

  // ---- what replacing comes to --------------------------------------------

  // The matches lie one behind the other, from `from` on.
  ghost predicate OneBehindTheOther(s: seq<Byte>, ms: seq<(nat, nat)>, from: nat) {
    if ms == [] then from <= |s|
    else from <= ms[0].0 <= ms[0].1 <= |s| && OneBehindTheOther(s, ms[1..], ms[0].1)
  }

  // Each is the first and longest match behind the one before it, and none is
  // left. Behind an empty match the next search starts one byte further.
  ghost predicate AllMatches(ts: seq<Token>, s: seq<Byte>, ms: seq<(nat, nat)>, cursor: nat) {
    if ms == [] then cursor > |s| || NoMatch(ts, s, cursor)
    else
      && FirstLongest(ts, s, cursor, ms[0].0, ms[0].1)
      && AllMatches(ts, s, ms[1..], if ms[0].0 < ms[0].1 then ms[0].1 else ms[0].1 + 1)
  }

  // The text from `from` on with r in place of each of the matches.
  ghost function Spliced(s: seq<Byte>, r: seq<Byte>, ms: seq<(nat, nat)>, from: nat): seq<Byte>
    requires OneBehindTheOther(s, ms, from)
  {
    if ms == [] then s[from..] else s[from..ms[0].0] + (r + Spliced(s, r, ms[1..], ms[0].1))
  }

  lemma SpliceEarlier(s: seq<Byte>, r: seq<Byte>, ms: seq<(nat, nat)>, from: nat, to: nat)
    requires from <= to && OneBehindTheOther(s, ms, to)
    ensures OneBehindTheOther(s, ms, from) && to <= |s|
    ensures Spliced(s, r, ms, from) == s[from..to] + Spliced(s, r, ms, to)
  {
    if ms == [] {
      CutTail(s, from, to);
    } else {
      CutPiece(s, from, to, ms[0].0);
      var rest := r + Spliced(s, r, ms[1..], ms[0].1);
      Regroup(s[from..to], s[to..ms[0].0], rest);
    }
  }

  lemma CutTail(s: seq<Byte>, a: nat, b: nat)
    requires a <= b <= |s|
    ensures s[a..] == s[a..b] + s[b..]
  {}

  lemma CutPiece(s: seq<Byte>, a: nat, b: nat, c: nat)
    requires a <= b <= c <= |s|
    ensures s[a..c] == s[a..b] + s[b..c]
  {}

  lemma Regroup(a: seq<Byte>, b: seq<Byte>, c: seq<Byte>)
    ensures (a + b) + c == a + (b + c)
  {}

  // The replaced text is the source with every match, from first to last,
  // taken out and r put in its place, and nothing else changed.
  lemma {:induction false} ReplacedSplices(ts: seq<Token>, s: seq<Byte>, r: seq<Byte>, cursor: nat)
        returns (ms: seq<(nat, nat)>)
    requires cursor <= |s|
    ensures OneBehindTheOther(s, ms, cursor) && AllMatches(ts, s, ms, cursor)
    ensures Replaced(ts, s, r, cursor) == Spliced(s, r, ms, cursor) && MatchCount(ts, s, cursor) == |ms|
    decreases |s| - cursor
  {
    hide *;
    FoundOrNone(ts, s, cursor);
    NextMatch(ts, s, r, cursor);
    if Found(ts, s, cursor).None? {
      ms := [];
      NoneSpliced(ts, s, r, cursor);
    } else {
      var m := Found(ts, s, cursor).value;
      var rest: seq<(nat, nat)> := [];
      if m.0 == m.1 == |s| {
        EndSpliced(ts, s, r, m);
      } else {
        AfterInside(s, m.0, m.1);
        rest := ReplacedSplices(ts, s, r, After(s, m.0, m.1));
        RestSpliced(ts, s, r, m, rest);
      }
      ms := [m] + rest;
      MatchSpliced(ts, s, r, cursor, m, rest);
    }
  }

  lemma AfterInside(s: seq<Byte>, a: nat, b: nat)
    requires a <= b <= |s| && !(a == b == |s|)
    ensures a <= b <= After(s, a, b) <= |s| && After(s, a, b) == (if a < b then b else b + 1)
    ensures Skipped(s, a, b) == s[b..After(s, a, b)]
  {}

  lemma NoneSpliced(ts: seq<Token>, s: seq<Byte>, r: seq<Byte>, cursor: nat)
    requires cursor <= |s| && NoMatch(ts, s, cursor)
    ensures OneBehindTheOther(s, [], cursor) && AllMatches(ts, s, [], cursor)
      && Spliced(s, r, [], cursor) == s[cursor..]
  {
    hide NoMatch;
  }

  // The matches behind m, from the end of m on.
  ghost predicate Behind(ts: seq<Token>, s: seq<Byte>, r: seq<Byte>, m: (nat, nat), rest: seq<(nat, nat)>)
    requires m.0 <= m.1 <= |s|
  {
    && OneBehindTheOther(s, rest, m.1) && AllMatches(ts, s, rest, if m.0 < m.1 then m.1 else m.1 + 1)
    && Spliced(s, r, rest, m.1) == Skipped(s, m.0, m.1) + Tail(ts, s, r, m)
  }

  // Behind an empty match at the end nothing is left.
  lemma EndSpliced(ts: seq<Token>, s: seq<Byte>, r: seq<Byte>, m: (nat, nat))
    requires m.0 == m.1 == |s|
    ensures Behind(ts, s, r, m, [])
  {
    assert s[m.1..] == [];
  }

  lemma RestSpliced(ts: seq<Token>, s: seq<Byte>, r: seq<Byte>, m: (nat, nat), rest: seq<(nat, nat)>)
    requires m.0 <= m.1 <= |s| && !(m.0 == m.1 == |s|)
    requires var next := After(s, m.0, m.1);
      && next <= |s| && OneBehindTheOther(s, rest, next) && AllMatches(ts, s, rest, next)
      && Replaced(ts, s, r, next) == Spliced(s, r, rest, next)
    ensures Behind(ts, s, r, m, rest)
  {
    AfterInside(s, m.0, m.1);
    SpliceEarlier(s, r, rest, m.1, After(s, m.0, m.1));
    hide Replaced, OneBehindTheOther, AllMatches, Spliced, Skipped, After;
  }

  lemma MatchSpliced(ts: seq<Token>, s: seq<Byte>, r: seq<Byte>, cursor: nat, m: (nat, nat), rest: seq<(nat, nat)>)
    requires cursor <= m.0 <= m.1 <= |s| && FirstLongest(ts, s, cursor, m.0, m.1) && Behind(ts, s, r, m, rest)
    ensures OneBehindTheOther(s, [m] + rest, cursor) && AllMatches(ts, s, [m] + rest, cursor)
    ensures Spliced(s, r, [m] + rest, cursor) == Piece(s, r, cursor, m) + Tail(ts, s, r, m)
  {
    assert ([m] + rest)[1..] == rest;
    hide FirstLongest, Skipped, Tail;
    Joined(s[cursor..m.0], r, Skipped(s, m.0, m.1), Tail(ts, s, r, m));
  }

  lemma FoundOrNone(ts: seq<Token>, s: seq<Byte>, cursor: nat)
    ensures match Found(ts, s, cursor)
      case None => NoMatch(ts, s, cursor)
      case Some(m) => FirstLongest(ts, s, cursor, m.0, m.1)
  {
    hide Matches;
    if !NoMatch(ts, s, cursor) {
      var p: nat, e: nat :| cursor <= p && Matches(ts, s, p, e);
      var start, end := FirstMatch(ts, s, cursor, p, e);
      assert FirstLongest(ts, s, cursor, (start, end).0, (start, end).1);
    }
  }

  // Where the program matches at all there is a first place, and a longest match
  // there.
  lemma {:induction false} FirstMatch(ts: seq<Token>, s: seq<Byte>, offset: nat, p: nat, e: nat)
        returns (start: nat, end: nat)
    requires offset <= p && Matches(ts, s, p, e)
    ensures FirstLongest(ts, s, offset, start, end)
    decreases p
  {
    hide Matches;
    if q: nat, f: nat :| offset <= q < p && Matches(ts, s, q, f) {
      start, end := FirstMatch(ts, s, offset, q, f);
    } else {
      start := p;
      end := LongestMatch(ts, s, p, e);
    }
  }

  lemma {:induction false} LongestMatch(ts: seq<Token>, s: seq<Byte>, p: nat, e: nat) returns (end: nat)
    requires Matches(ts, s, p, e)
    ensures LongestFrom(ts, s, p, end)
    decreases |s| - e
  {
    MatchForward(ts, s, p, e);
    hide Matches;
    if f: nat :| f > e && Matches(ts, s, p, f) {
      MatchForward(ts, s, p, f);
      end := LongestMatch(ts, s, p, f);
    } else {
      end := e;
    }
  }

  lemma Joined(a: seq<Byte>, r: seq<Byte>, k: seq<Byte>, rest: seq<Byte>)
    ensures (a + r + k) + rest == a + (r + (k + rest))
  {
    Regroup(a, r, k);
    Regroup(a, r + k, rest);
    Regroup(r, k, rest);
  }

  // Replacing every match by its own text gives the source back.
  lemma {:induction false} SpliceItself(s: seq<Byte>, r: seq<Byte>, ms: seq<(nat, nat)>, from: nat)
    requires OneBehindTheOther(s, ms, from) && forall m | m in ms :: m.0 <= m.1 <= |s| && s[m.0..m.1] == r
    ensures Spliced(s, r, ms, from) == s[from..]
    decreases |ms|
  {
    if ms != [] {
      var m := ms[0];
      assert m in ms;
      SpliceItself(s, r, ms[1..], m.1);
      assert s[from..] == s[from..m.0] + (s[m.0..m.1] + s[m.1..]);
    }
  }
}
