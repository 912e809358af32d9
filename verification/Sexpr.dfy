/** The S-expression reader: a tokenizer, a parser that accepts unbalanced input, and searches. */
module Sexpr {
  import opened NumberText
  import opened Wrappers

  /** A parsed tree. A number keeps the text of its token. */
  datatype Sexpr = Str(s: string) | Number(text: string) | List(items: seq<Sexpr>)

  // ---------------------------------------------------------------- characters

  predicate IsSpace(c: char) {
    c == ' ' || c == '\t' || c == '\n' || c == '\r'
  }

  predicate IsDelimiter(c: char) {
    IsSpace(c) || c == '(' || c == ')'
  }

  predicate Mantissa(s: string) {
    DigitPart(s) ||
    exists i | 0 <= i < |s| && s[i] == '.' ::
      (s[..i] == "" || DigitPart(s[..i])) && (s[i + 1..] == "" || DigitPart(s[i + 1..])) && |s| > 1
  }

  predicate FloatText(s: string) {
    Mantissa(s) ||
    exists i | 0 <= i < |s| && (s[i] == 'e' || s[i] == 'E') :: Mantissa(s[..i]) && DigitPart(Unsigned(s[i + 1..]))
  }

  /** Whether a token is read as a number: as a float when it has a point or an e, else as an integer. */
  predicate NumberLike(token: string) {
    var s := Unsigned(StripRight(StripLeft(token)));
    if '.' in token || 'e' in token || 'E' in token then FloatText(s) else DigitPart(s)
  }

  function ParseAtom(token: string): Sexpr {
    if token == "yes" || token == "no" then Str(token)
    else if NumberLike(token) then Number(token)
    else Str(token)
  }

  // ----------------------------------------------------------------- tokenizer

  /** The contents of a quoted token whose opening quote is read, and the text after it. */
  function QuotedRest(text: string): (r: (string, string))
    ensures |r.1| <= |text|
  {
    if text == "" then ("", "")
    else if text[0] == '\\' && |text| > 1 then
      var (s, rest) := QuotedRest(text[2..]); ([text[1]] + s, rest)
    else if text[0] == '"' then ("", text[1..])
    else
      var (s, rest) := QuotedRest(text[1..]); ([text[0]] + s, rest)
  }

  /** How many characters a bare token takes from the front. */
  function BareLength(text: string): (n: nat)
    ensures n <= |text|
  {
    if text == "" || IsDelimiter(text[0]) then 0 else 1 + BareLength(text[1..])
  }

  function Tokens(text: string): seq<string>
    decreases |text|
  {
    if text == "" then []
    else if IsSpace(text[0]) then Tokens(text[1..])
    else if text[0] == '(' then ["("] + Tokens(text[1..])
    else if text[0] == ')' then [")"] + Tokens(text[1..])
    else if text[0] == '"' then
      var (s, rest) := QuotedRest(text[1..]); [s] + Tokens(rest)
    else
      var n := BareLength(text); [text[..n]] + Tokens(text[n..])
  }

  /** The text from index `i` on; an unterminated quoted token leaves `i` one past the end. */
  function Suffix(text: string, i: nat): string {
    if i <= |text| then text[i..] else ""
  }

  lemma TokensAt(text: string, i: nat)
    requires i < |text|
    ensures var ch, here, rest := text[i], Tokens(Suffix(text, i)), Suffix(text, i + 1);
            && (IsSpace(ch) ==> here == Tokens(rest))
            && (ch == '(' ==> here == ["("] + Tokens(rest))
            && (ch == ')' ==> here == [")"] + Tokens(rest))
            && (ch == '"' ==> here == [QuotedRest(rest).0] + Tokens(QuotedRest(rest).1))
  {
  }

  lemma BareTokenAt(text: string, i: nat, j: nat)
    requires i < j <= |text| && !IsDelimiter(text[i]) && text[i] != '"'
    requires BareLength(text[i..]) == j - i
    ensures Tokens(Suffix(text, i)) == [text[i..j]] + Tokens(Suffix(text, j))
  {
    hide BareLength;
    var t := text[i..];
    assert t[..j - i] == text[i..j] && t[j - i..] == text[j..];
    assert t[0] == text[i];
  }

  /** Reading one token moves it from the front of the rest to the end of the tokens read. */
  lemma NextToken(all: seq<string>, tokens: seq<string>, token: string, rest: seq<string>)
    requires all == tokens + ([token] + rest)
    ensures all == (tokens + [token]) + rest
  {
  }

  /** The tokenizer: nested loops over two indices. */
  method Tokenize(text: string) returns (tokens: seq<string>)
    ensures tokens == Tokens(text)
  {
    tokens := [];
    var i: nat, n := 0, |text|;
    assert Suffix(text, 0) == text;
    assert Suffix(text, n) == "" && Tokens("") == [];
    hide Tokens, QuotedRest, BareLength, Suffix, IsSpace, IsDelimiter;
    while i < n
      invariant Tokens(text) == tokens + Tokens(Suffix(text, i))
      decreases n - i
    {
      var ch := text[i];
      TokensAt(text, i);
      if IsSpace(ch) {
        i := i + 1;
      } else if ch == '(' || ch == ')' {
        NextToken(Tokens(text), tokens, [ch], Tokens(Suffix(text, i + 1)));
        tokens := tokens + [[ch]];
        i := i + 1;
      } else if ch == '"' {
        var part, j := ReadQuoted(text, i + 1);
        NextToken(Tokens(text), tokens, part, Tokens(Suffix(text, j + 1)));
        tokens := tokens + [part];
        i := j + 1;
      } else {
        NoDelimiter(ch);
        var j := ReadBareToken(text, i);
        BareTokenAt(text, i, j);
        NextToken(Tokens(text), tokens, text[i..j], Tokens(Suffix(text, j)));
        tokens := tokens + [text[i..j]];
        i := j;
      }
    }
    PastTheEnd(text, i);
  }

  lemma NoDelimiter(c: char)
    requires !IsSpace(c) && c != '(' && c != ')'
    ensures !IsDelimiter(c)
  {
  }

  lemma PastTheEnd(text: string, i: nat)
    requires |text| <= i
    ensures Tokens(Suffix(text, i)) == []
  {
  }

  /** The inner loop over a bare token: the index after it. */
  method ReadBareToken(text: string, start: nat) returns (j: nat)
    requires start < |text| && !IsDelimiter(text[start])
    ensures start < j <= |text| && BareLength(text[start..]) == j - start
  {
    j := start;
    while j < |text| && !IsDelimiter(text[j])
      invariant start <= j <= |text|
      invariant BareLength(text[start..]) == j - start + BareLength(text[j..])
    {
      assert text[j..][1..] == text[j + 1..];
      j := j + 1;
    }
  }

  lemma QuotedAt(text: string, j: nat)
    requires j <= |text|
    ensures j == |text| ==> QuotedRest(text[j..]) == ("", "")
    ensures j < |text| ==>
              if text[j] == '\\' && j + 1 < |text| then
                QuotedRest(text[j..]) == ([text[j + 1]] + QuotedRest(text[j + 2..]).0, QuotedRest(text[j + 2..]).1)
              else if text[j] == '"' then
                QuotedRest(text[j..]) == ("", text[j + 1..])
              else
                QuotedRest(text[j..]) == ([text[j]] + QuotedRest(text[j + 1..]).0, QuotedRest(text[j + 1..]).1)
  {
  }

  /** The inner loop over a quoted token: its contents and the index of the closing quote. */
  method ReadQuoted(text: string, start: nat) returns (part: string, j: nat)
    requires start <= |text|
    ensures start <= j <= |text| && QuotedRest(Suffix(text, start)) == (part, Suffix(text, j + 1))
  {
    part, j := "", start;
    hide QuotedRest;
    while j < |text|
      invariant start <= j <= |text|
      invariant QuotedRest(text[start..]).0 == part + QuotedRest(text[j..]).0
      invariant QuotedRest(text[start..]).1 == QuotedRest(text[j..]).1
    {
      QuotedAt(text, j);
      if text[j] == '\\' && j + 1 < |text| {
        part := part + [text[j + 1]];
        j := j + 2;
      } else if text[j] == '"' {
        assert part + "" == part;
        return;
      } else {
        part := part + [text[j]];
        j := j + 1;
      }
    }
    QuotedAt(text, j);
    assert part + "" == part;
  }

  // -------------------------------------------------------------------- parser

  /** The tree at `index` and the index after it. */
  function ParseAt(tokens: seq<string>, index: nat): (r: (Sexpr, nat))
    requires index <= |tokens|
    ensures r.1 <= |tokens| && (index < |tokens| ==> index < r.1)
    decreases |tokens| - index, 0
  {
    if index == |tokens| then (List([]), index)
    else if tokens[index] != "(" then (ParseAtom(tokens[index]), index + 1)
    else
      var (items, j) := ParseItems(tokens, index + 1);
      (List(items), if j < |tokens| then j + 1 else j)
  }

  /** The trees from `index` up to the next unmatched closing parenthesis or the end. */
  function ParseItems(tokens: seq<string>, index: nat): (r: (seq<Sexpr>, nat))
    requires index <= |tokens|
    ensures index <= r.1 <= |tokens|
    ensures r.1 < |tokens| ==> tokens[r.1] == ")"
    decreases |tokens| - index, 1
  {
    if index < |tokens| && tokens[index] != ")" then
      var (item, j) := ParseAt(tokens, index);
      var (rest, k) := ParseItems(tokens, j);
      ([item] + rest, k)
    else ([], index)
  }

  /** The recursive parser; every call moves the index on, which is why it ends. */
  method ParseTokens(tokens: seq<string>, start: nat) returns (tree: Sexpr, next: nat)
    requires start <= |tokens|
    ensures (tree, next) == ParseAt(tokens, start)
    decreases |tokens| - start
  {
    if start >= |tokens| { return List([]), start; }
    if tokens[start] != "(" { return ParseAtom(tokens[start]), start + 1; }
    var index := start + 1;
    var items := [];
    while index < |tokens| && tokens[index] != ")"
      invariant start < index <= |tokens|
      invariant ParseItems(tokens, start + 1).0 == items + ParseItems(tokens, index).0
      invariant ParseItems(tokens, start + 1).1 == ParseItems(tokens, index).1
      decreases |tokens| - index
    {
      var item, j := ParseTokens(tokens, index);
      items := items + [item];
      index := j;
    }
    assert items + ParseItems(tokens, index).0 == items;
    return List(items), if index < |tokens| then index + 1 else index;
  }

  /** What the reader returns for a text; text after the first tree is ignored. */
  function ParseText(text: string): Sexpr {
    ParseAt(Tokens(text), 0).0
  }

  method ParseSexpr(text: string) returns (tree: Sexpr)
    ensures tree == ParseText(text)
  {
    var tokens := Tokenize(text);
    var root, next := ParseTokens(tokens, 0);
    tree := root;
  }

  // ------------------------------------------------------- what parsing consumes

  /** The tokens a tree is written with. */
  function Flatten(t: Sexpr): (r: seq<string>)
    ensures r != []
  {
    match t
    case Str(s) => [s]
    case Number(text) => [text]
    case List(items) => ["("] + FlattenAll(items) + [")"]
  }

  function FlattenAll(ts: seq<Sexpr>): seq<string> {
    if ts == [] then [] else Flatten(ts[0]) + FlattenAll(ts[1..])
  }

  function Closers(k: nat): seq<string> {
    seq(k, _ => ")")
  }

  /**
   On any tokens, balanced or not, the parser consumes exactly the tokens of the
   tree it returns, short only of closing parentheses missing at the end of input.
   */
  lemma {:induction false} ParseConsumes(tokens: seq<string>, index: nat) returns (missing: nat)
    requires index < |tokens|
    ensures var (tree, next) := ParseAt(tokens, index);
            && index < next <= |tokens|
            && Flatten(tree) == tokens[index..next] + Closers(missing)
            && (missing > 0 ==> next == |tokens|)
    decreases |tokens| - index, 0
  {
    if tokens[index] != "(" {
      missing := 0;
      assert tokens[index..index + 1] == [tokens[index]];
    } else {
      var open := ItemsConsume(tokens, index + 1);
      var (items, j) := ParseItems(tokens, index + 1);
      missing := if j < |tokens| then 0 else open + 1;
      hide ParseItems, Flatten, FlattenAll, Closers;
      ListTokens(tokens, index, items, j, open);
    }
  }

  lemma ListTokens(tokens: seq<string>, index: nat, items: seq<Sexpr>, j: nat, missing: nat)
    requires index < j <= |tokens| && tokens[index] == "(" && (j < |tokens| ==> tokens[j] == ")")
    requires FlattenAll(items) == tokens[index + 1..j] + Closers(missing) && (missing > 0 ==> j == |tokens|)
    ensures j < |tokens| ==> Flatten(List(items)) == tokens[index..j + 1] + Closers(0)
    ensures j == |tokens| ==> Flatten(List(items)) == tokens[index..j] + Closers(missing + 1)
  {
    hide FlattenAll;
    if j < |tokens| {
      assert tokens[index..j + 1] == ["("] + tokens[index + 1..j] + [")"];
    } else {
      assert Closers(missing) + [")"] == Closers(missing + 1);
      assert tokens[index..j] == ["("] + tokens[index + 1..j];
    }
  }

  lemma {:induction false} ItemsConsume(tokens: seq<string>, index: nat) returns (missing: nat)
    requires index <= |tokens|
    ensures var (items, next) := ParseItems(tokens, index);
            && FlattenAll(items) == tokens[index..next] + Closers(missing)
            && (missing > 0 ==> next == |tokens|)
    decreases |tokens| - index, 1
  {
    hide Flatten, FlattenAll, Closers, ParseItems;
    NothingMissing();
    ParseItemsAt(tokens, index);
    if index < |tokens| && tokens[index] != ")" {
      var first := ParseConsumes(tokens, index);
      var (item, j) := ParseAt(tokens, index);
      hide ParseAt;
      var rest := ItemsConsume(tokens, j);
      var (items, k) := ParseItems(tokens, j);
      FlattenFirst(item, items);
      if first > 0 {
        missing := first;
        ParseItemsAt(tokens, j);
        assert items == [] && k == j;
      } else {
        missing := rest;
        Rejoin(tokens, index, j, k, Closers(rest));
      }
    } else {
      missing := 0;
      assert tokens[index..index] == [];
    }
  }

  lemma ParseItemsAt(tokens: seq<string>, index: nat)
    requires index <= |tokens|
    ensures ParseItems(tokens, index) ==
            if index < |tokens| && tokens[index] != ")" then
              var (item, j) := ParseAt(tokens, index);
              var (items, k) := ParseItems(tokens, j);
              ([item] + items, k)
            else ([], index)
  {
    hide ParseAt;
  }

  lemma Rejoin(tokens: seq<string>, i: nat, j: nat, k: nat, last: seq<string>)
    requires i <= j <= k <= |tokens|
    ensures (tokens[i..j] + []) + (tokens[j..k] + last) == tokens[i..k] + last
  {
    assert tokens[i..k] == tokens[i..j] + tokens[j..k];
  }

  lemma FlattenFirst(item: Sexpr, items: seq<Sexpr>)
    ensures FlattenAll([item] + items) == Flatten(item) + FlattenAll(items)
  {
  }

  lemma NothingMissing()
    ensures Closers(0) == [] && FlattenAll([]) == []
  {
  }

  // ---------------------------------------------------------------- round trip

  /** A string atom survives a round trip unless it is a parenthesis or looks like a number. */
  predicate Printable(t: Sexpr) {
    match t
    case Str(s) => s != "(" && s != ")" && ParseAtom(s) == t
    case Number(text) => ParseAtom(text) == t
    case List(items) => forall i | 0 <= i < |items| :: Printable(items[i])
  }

  lemma NumberIsNoParenthesis(text: string)
    requires ParseAtom(text) == Number(text)
    ensures text != "(" && text != ")"
  {
  }

  lemma ListFlattened(items: seq<Sexpr>, before: seq<string>, after: seq<string>)
    ensures before + Flatten(List(items)) + after == (before + ["("]) + FlattenAll(items) + ([")"] + after)
    ensures |Flatten(List(items))| == |FlattenAll(items)| + 2
  {
    hide FlattenAll;
  }

  lemma {:induction false} ParseFlatten(t: Sexpr, before: seq<string>, after: seq<string>)
    requires Printable(t)
    ensures ParseAt(before + Flatten(t) + after, |before|) == (t, |before| + |Flatten(t)|)
    decreases t, 0
  {
    hide ParseAtom;
    var tokens := before + Flatten(t) + after;
    assert tokens[|before|] == Flatten(t)[0];
    match t {
      case Str(s) =>
      case Number(text) => NumberIsNoParenthesis(text);
      case List(items) =>
        assert Flatten(t)[0] == "(";
        ListFlattened(items, before, after);
        hide Flatten, FlattenAll, ParseItems;
        ParseFlattenAll(items, before + ["("], [")"] + after);
    }
  }

  lemma {:induction false} ParseFlattenAll(ts: seq<Sexpr>, before: seq<string>, after: seq<string>)
    requires forall i | 0 <= i < |ts| :: Printable(ts[i])
    requires after != [] && after[0] == ")"
    ensures ParseItems(before + FlattenAll(ts) + after, |before|) == (ts, |before| + |FlattenAll(ts)|)
    decreases ts, 1
  {
    hide Flatten, FlattenAll, ParseAt, Printable;
    if ts == [] {
      NothingMissing();
      assert (before + [] + after)[|before|] == after[0];
    } else {
      var first, rest := Flatten(ts[0]), FlattenAll(ts[1..]);
      assert ts == [ts[0]] + ts[1..];
      FlattenFirst(ts[0], ts[1..]);
      var tokens := before + FlattenAll(ts) + after;
      assert tokens == before + first + (rest + after);
      assert tokens == (before + first) + rest + after;
      FirstTokenOpensTree(ts[0]);
      assert tokens[|before|] == first[0];
      ParseFlatten(ts[0], before, rest + after);
      ParseFlattenAll(ts[1..], before + first, after);
    }
  }

  lemma FirstTokenOpensTree(t: Sexpr)
    requires Printable(t)
    ensures Flatten(t)[0] != ")"
  {
  }

  /** The parser only returns printable trees, save a lone closing parenthesis. */
  lemma {:induction false} ParsedIsPrintable(tokens: seq<string>, index: nat)
    requires index <= |tokens|
    ensures var t := ParseAt(tokens, index).0;
            Printable(t) || (t == Str(")") && index < |tokens| && tokens[index] == ")")
    decreases |tokens| - index, 0
  {
    if index < |tokens| && tokens[index] == "(" {
      ParsedItemsArePrintable(tokens, index + 1);
    } else if index < |tokens| && tokens[index] == ")" {
      assert StripLeft(")") == ")" && StripRight(")") == ")";
    }
  }

  lemma {:induction false} ParsedItemsArePrintable(tokens: seq<string>, index: nat)
    requires index <= |tokens|
    ensures forall i | 0 <= i < |ParseItems(tokens, index).0| :: Printable(ParseItems(tokens, index).0[i])
    decreases |tokens| - index, 1
  {
    if index < |tokens| && tokens[index] != ")" {
      ParsedIsPrintable(tokens, index);
      ParsedItemsArePrintable(tokens, ParseAt(tokens, index).1);
    }
  }

  // ------------------------------------------------------------------- layouts

  /** A character of a quoted token, written plainly or after a backslash. */
  datatype QuotedChar = QuotedChar(c: char, escaped: bool)

  /** A piece of a text: whitespace or one token. */
  datatype Piece = Space(c: char) | Open | Close | Quoted(chars: seq<QuotedChar>) | Bare(s: string)

  function CharText(q: QuotedChar): string {
    if q.escaped then ['\\', q.c] else [q.c]
  }

  function CharsText(chars: seq<QuotedChar>): string {
    if chars == [] then "" else CharText(chars[0]) + CharsText(chars[1..])
  }

  function CharsToken(chars: seq<QuotedChar>): string {
    if chars == [] then "" else [chars[0].c] + CharsToken(chars[1..])
  }

  function PieceText(p: Piece): string {
    match p
    case Space(c) => [c]
    case Open => "("
    case Close => ")"
    case Quoted(chars) => "\"" + CharsText(chars) + "\""
    case Bare(s) => s
  }

  function PieceToken(p: Piece): seq<string> {
    match p
    case Space(_) => []
    case Open => ["("]
    case Close => [")"]
    case Quoted(chars) => [CharsToken(chars)]
    case Bare(s) => [s]
  }

  function LayoutText(ps: seq<Piece>): string {
    if ps == [] then "" else PieceText(ps[0]) + LayoutText(ps[1..])
  }

  function LayoutTokens(ps: seq<Piece>): seq<string> {
    if ps == [] then [] else PieceToken(ps[0]) + LayoutTokens(ps[1..])
  }

  predicate CharsOk(chars: seq<QuotedChar>) {
    forall i | 0 <= i < |chars| :: chars[i].escaped || (chars[i].c != '"' && chars[i].c != '\\')
  }

  predicate PieceOk(p: Piece) {
    match p
    case Space(c) => IsSpace(c)
    case Quoted(chars) => CharsOk(chars)
    case Bare(s) => s != "" && s[0] != '"' && forall i | 0 <= i < |s| :: !IsDelimiter(s[i])
    case _ => true
  }

  /** Any whitespace, any escaping; only a bare token needs a delimiter or the end after it. */
  predicate LayoutOk(ps: seq<Piece>) {
    && (forall i | 0 <= i < |ps| :: PieceOk(ps[i]))
    && forall i | 0 <= i < |ps| - 1 && ps[i].Bare? :: ps[i + 1].Space? || ps[i + 1].Open? || ps[i + 1].Close?
  }

  lemma {:induction false} ReadQuotedChars(chars: seq<QuotedChar>, rest: string)
    requires CharsOk(chars)
    ensures QuotedRest(CharsText(chars) + "\"" + rest) == (CharsToken(chars), rest)
  {
    var text := CharsText(chars) + "\"" + rest;
    if chars == [] {
      assert text[1..] == rest;
    } else {
      var tail := CharsText(chars[1..]) + "\"" + rest;
      ReadQuotedChars(chars[1..], rest);
      assert text == CharText(chars[0]) + tail;
      if chars[0].escaped {
        assert text[2..] == tail;
      } else {
        assert text[1..] == tail;
      }
    }
  }

  lemma {:induction false} ReadBare(s: string, rest: string)
    requires forall i | 0 <= i < |s| :: !IsDelimiter(s[i])
    requires rest == "" || IsDelimiter(rest[0])
    ensures BareLength(s + rest) == |s|
  {
    if s == "" {
      assert s + rest == rest;
    } else {
      assert (s + rest)[1..] == s[1..] + rest;
      ReadBare(s[1..], rest);
    }
  }

  lemma TokensAfterQuoted(chars: seq<QuotedChar>, rest: string)
    requires CharsOk(chars)
    ensures Tokens(PieceText(Quoted(chars)) + rest) == [CharsToken(chars)] + Tokens(rest)
  {
    hide CharsText, CharsToken, QuotedRest;
    var text := PieceText(Quoted(chars)) + rest;
    assert text[1..] == CharsText(chars) + "\"" + rest;
    ReadQuotedChars(chars, rest);
  }

  lemma TokensAfterBare(s: string, rest: string)
    requires PieceOk(Bare(s)) && (rest == "" || IsDelimiter(rest[0]))
    ensures Tokens(s + rest) == [s] + Tokens(rest)
  {
    hide BareLength;
    ReadBare(s, rest);
    assert (s + rest)[..|s|] == s && (s + rest)[|s|..] == rest;
    assert !IsDelimiter(s[0]);
  }

  lemma TokensAfterSingle(p: Piece, rest: string)
    requires PieceOk(p) && (p.Space? || p.Open? || p.Close?)
    ensures Tokens(PieceText(p) + rest) == PieceToken(p) + Tokens(rest)
  {
  }

  /** The tokens of a laid-out text are the tokens it was laid out from. */
  lemma {:induction false} TokensOfLayout(ps: seq<Piece>)
    requires LayoutOk(ps)
    ensures Tokens(LayoutText(ps)) == LayoutTokens(ps)
  {
    if ps != [] {
      hide Tokens, PieceOk;
      var p, rest := ps[0], LayoutText(ps[1..]);
      assert forall i | 0 <= i < |ps[1..]| :: ps[1..][i] == ps[i + 1];
      TokensOfLayout(ps[1..]);
      match p {
        case Quoted(chars) => PieceIsOk(p); TokensAfterQuoted(chars, rest);
        case Bare(s) => RestIsDelimited(ps); TokensAfterBare(s, rest);
        case _ => TokensAfterSingle(p, rest);
      }
    }
  }

  lemma PieceIsOk(p: Piece)
    requires PieceOk(p)
    ensures p.Quoted? ==> CharsOk(p.chars)
  {
  }

  lemma RestIsDelimited(ps: seq<Piece>)
    requires LayoutOk(ps) && ps != [] && ps[0].Bare?
    ensures var rest := LayoutText(ps[1..]); rest == "" || IsDelimiter(rest[0])
  {
  }

  /** A text whose tokens are those of a printable tree parses to that tree, whatever its layout. */
  lemma ParseUndoesLayout(t: Sexpr, ps: seq<Piece>)
    requires Printable(t) && LayoutOk(ps) && LayoutTokens(ps) == Flatten(t)
    ensures ParseText(LayoutText(ps)) == t
  {
    hide Tokens, LayoutText, LayoutTokens, LayoutOk, ParseAt, Flatten, Printable;
    TokensOfLayout(ps);
    ParseFlatten(t, [], []);
    assert [] + Flatten(t) + [] == Flatten(t);
  }

  // ------------------------------------------------------------------- printing

  function QuoteChars(s: string): seq<QuotedChar> {
    if s == "" then [] else [QuotedChar(s[0], s[0] == '"' || s[0] == '\\')] + QuoteChars(s[1..])
  }

  /** The reference printer: every atom quoted, quotes and backslashes escaped, a space between items. */
  function Pieces(t: Sexpr): seq<Piece> {
    match t
    case Str(s) => [Quoted(QuoteChars(s))]
    case Number(text) => [Quoted(QuoteChars(text))]
    case List(items) => [Open] + PiecesOfAll(items) + [Close]
  }

  function PiecesOfAll(ts: seq<Sexpr>): seq<Piece> {
    if ts == [] then [] else Pieces(ts[0]) + [Space(' ')] + PiecesOfAll(ts[1..])
  }

  function Print(t: Sexpr): string {
    LayoutText(Pieces(t))
  }

  lemma {:induction false} QuoteCharsOk(s: string)
    ensures CharsOk(QuoteChars(s)) && CharsToken(QuoteChars(s)) == s
  {
    if s != "" {
      QuoteCharsOk(s[1..]);
    }
  }

  /** No bare tokens, so no delimiter is ever missing. */
  predicate NoBare(ps: seq<Piece>) {
    forall i | 0 <= i < |ps| :: PieceOk(ps[i]) && !ps[i].Bare?
  }

  lemma {:induction false} LayoutTokensAppend(a: seq<Piece>, b: seq<Piece>)
    ensures LayoutTokens(a + b) == LayoutTokens(a) + LayoutTokens(b)
  {
    if a == [] {
      assert a + b == b;
    } else {
      assert (a + b)[1..] == a[1..] + b;
      LayoutTokensAppend(a[1..], b);
    }
  }

  lemma {:induction false} PiecesFlatten(t: Sexpr)
    ensures NoBare(Pieces(t)) && LayoutTokens(Pieces(t)) == Flatten(t)
    decreases t, 0
  {
    match t {
      case Str(s) => QuoteCharsOk(s); assert Pieces(t)[1..] == [];
      case Number(text) => QuoteCharsOk(text); assert Pieces(t)[1..] == [];
      case List(items) =>
        PiecesOfAllFlatten(items);
        LayoutTokensAppend([Open] + PiecesOfAll(items), [Close]);
        LayoutTokensAppend([Open], PiecesOfAll(items));
        assert LayoutTokens([Open]) == ["("] by { assert [Open][1..] == []; }
        assert LayoutTokens([Close]) == [")"] by { assert [Close][1..] == []; }
    }
  }

  lemma {:induction false} PiecesOfAllFlatten(ts: seq<Sexpr>)
    ensures NoBare(PiecesOfAll(ts)) && LayoutTokens(PiecesOfAll(ts)) == FlattenAll(ts)
    decreases ts, 1
  {
    if ts != [] {
      PiecesFlatten(ts[0]);
      PiecesOfAllFlatten(ts[1..]);
      LayoutTokensAppend(Pieces(ts[0]) + [Space(' ')], PiecesOfAll(ts[1..]));
      LayoutTokensAppend(Pieces(ts[0]), [Space(' ')]);
      assert LayoutTokens([Space(' ')]) == [] by { assert [Space(' ')][1..] == []; }
    }
  }

  /**
   Parsing undoes printing exactly for the trees in which no string atom is a
   parenthesis or looks like a number; the one exception is the lone atom ")".
   */
  lemma PrintRoundTrip(t: Sexpr)
    ensures ParseText(Print(t)) == t <==> Printable(t) || t == Str(")")
  {
    PiecesFlatten(t);
    TokensOfLayout(Pieces(t));
    if Printable(t) {
      ParseUndoesLayout(t, Pieces(t));
    }
    ParsedIsPrintable(Flatten(t), 0);
    if t == Str(")") {
      assert StripLeft(")") == ")" && StripRight(")") == ")";
    }
  }

  // ------------------------------------------------------------- what is read as what

  /** A character that ends a bare token without being one itself. */
  predicate Blank(c: char) {
    c in {' ', '\t', '\n', '\r'}
  }

  predicate Word(s: string) {
    s != "" && s[0] != '"' && forall c | c in s :: !Blank(c) && c != '(' && c != ')'
  }

  lemma WordIsBare(s: string)
    requires Word(s)
    ensures PieceOk(Bare(s))
  {
    forall i | 0 <= i < |s|
      ensures !IsDelimiter(s[i])
    {
      assert s[i] in s;
    }
  }

  lemma OnePiece(p: Piece)
    ensures LayoutText([p]) == PieceText(p) && LayoutTokens([p]) == PieceToken(p)
  {
    assert [p][1..] == [] && LayoutText([]) == "" && LayoutTokens([]) == [];
    assert PieceText(p) + "" == PieceText(p);
  }

  lemma WordsLayout(a: string, c: char, b: string)
    ensures var ps := [Bare(a), Space(c), Bare(b)];
            LayoutText(ps) == a + [c] + b && LayoutTokens(ps) == [a, b]
  {
    var ps, rest := [Bare(a), Space(c), Bare(b)], [Space(c), Bare(b)];
    assert ps[1..] == rest && rest[1..] == [Bare(b)];
    OnePiece(Bare(b));
    assert LayoutText(rest) == [c] + b && LayoutTokens(rest) == [b];
    assert a + ([c] + b) == a + [c] + b && [a] + [b] == [a, b];
  }

  /** Blank, tab, newline and carriage return separate two words, and no other character does. */
  lemma OnlyBlanksSeparate(a: string, c: char, b: string)
    requires Word(a) && Word(b) && c != '(' && c != ')'
    ensures Tokens(a + [c] + b) == if Blank(c) then [a, b] else [a + [c] + b]
  {
    WordIsBare(a);
    WordIsBare(b);
    if Blank(c) {
      WordsLayout(a, c, b);
      TokensOfLayout([Bare(a), Space(c), Bare(b)]);
    } else {
      assert forall x | x in a + [c] + b :: x in a || x == c || x in b;
      WordIsBare(a + [c] + b);
      OnePiece(Bare(a + [c] + b));
      TokensOfLayout([Bare(a + [c] + b)]);
    }
  }

  // ------------------------------------------------------- the numbers, spelled out

  /** Digits, or digits with a point before, between or after them. */
  ghost predicate MantissaShape(s: string) {
    DigitGroups(s) ||
    exists whole, fraction :: Around(whole, fraction) && s == whole + "." + fraction
  }

  /** The digits on both sides of a point; one side may be missing. */
  predicate Around(whole: string, fraction: string) {
    (whole == "" || DigitGroups(whole)) && (fraction == "" || DigitGroups(fraction)) && whole + fraction != ""
  }

  /** No exponent, or an e with a sign and digits. */
  ghost predicate ExponentShape(s: string) {
    s == "" || exists e, sign, digits :: ExponentOf(e, sign, digits) && s == [e] + (sign + digits)
  }

  predicate ExponentOf(e: char, sign: string, digits: string) {
    e in {'e', 'E'} && sign in {"", "+", "-"} && DigitGroups(digits)
  }

  ghost predicate NumberShape(token: string, before: string, sign: string, mantissa: string, exponent: string,
                              after: string)
  {
    && token == before + (sign + (mantissa + exponent)) + after
    && (forall c | c in before + after :: c in " \t\n\U{000B}\U{000C}\r\U{001C}\U{001D}\U{001E}\U{001F}")
    && sign in {"", "+", "-"} && MantissaShape(mantissa) && ExponentShape(exponent)
  }

  lemma GroupsEnds(s: string)
    requires DigitGroups(s)
    ensures s != "" && IsDigit(s[0]) && IsDigit(s[|s| - 1]) && forall c | c in s :: IsDigit(c) || c == '_'
  {
    DigitPartIff(s);
  }

  lemma MantissaIff(s: string)
    ensures Mantissa(s) <==> MantissaShape(s)
  {
    hide DigitPart, DigitGroups, Mantissa, MantissaShape;
    if Mantissa(s) { MantissaHasShape(s); }
    if MantissaShape(s) { ShapeIsMantissa(s); }
  }

  lemma SidesIff(whole: string, fraction: string)
    ensures Around(whole, fraction) <==>
              (whole == "" || DigitPart(whole)) && (fraction == "" || DigitPart(fraction)) && whole + fraction != ""
  {
    hide DigitPart, DigitGroups;
    DigitPartIff(whole);
    DigitPartIff(fraction);
  }

  lemma MantissaHasShape(s: string)
    requires Mantissa(s)
    ensures MantissaShape(s)
  {
    hide DigitPart, DigitGroups, Around;
    DigitPartIff(s);
    if !DigitPart(s) {
      var i :| 0 <= i < |s| && s[i] == '.' && (s[..i] == "" || DigitPart(s[..i]))
               && (s[i + 1..] == "" || DigitPart(s[i + 1..])) && |s| > 1;
      SidesIff(s[..i], s[i + 1..]);
      assert s == s[..i] + "." + s[i + 1..];
    }
  }

  lemma ShapeIsMantissa(s: string)
    requires MantissaShape(s)
    ensures Mantissa(s)
  {
    hide DigitPart, DigitGroups, Around;
    DigitPartIff(s);
    if !DigitGroups(s) {
      var whole, fraction :| Around(whole, fraction) && s == whole + "." + fraction;
      SidesIff(whole, fraction);
      var i := |whole|;
      assert s[i] == '.' && s[..i] == whole && s[i + 1..] == fraction;
    }
  }

  lemma FloatParts(s: string) returns (mantissa: string, exponent: string)
    requires FloatText(s)
    ensures s == mantissa + exponent && MantissaShape(mantissa) && ExponentShape(exponent)
  {
    hide DigitPart, DigitGroups, Mantissa, MantissaShape, ExponentShape, Unsigned;
    if Mantissa(s) {
      MantissaIff(s);
      mantissa, exponent := s, "";
      assert ExponentShape("") by { PlainShapes(s); }
    } else {
      var i :| 0 <= i < |s| && (s[i] == 'e' || s[i] == 'E') && Mantissa(s[..i]) && DigitPart(Unsigned(s[i + 1..]));
      MantissaIff(s[..i]);
      mantissa, exponent := s[..i], s[i..];
      ExponentHasShape(s[i], s[i + 1..]);
      assert exponent == [s[i]] + s[i + 1..];
    }
  }

  lemma ExponentHasShape(e: char, rest: string)
    requires e in {'e', 'E'} && DigitPart(Unsigned(rest))
    ensures ExponentShape([e] + rest)
  {
    hide DigitPart, DigitGroups;
    var sign := UnsignedParts(rest);
    DigitPartIff(Unsigned(rest));
    assert ExponentOf(e, sign, Unsigned(rest)) && [e] + rest == [e] + (sign + Unsigned(rest));
  }

  lemma PartsAreFloat(mantissa: string, exponent: string)
    requires MantissaShape(mantissa) && ExponentShape(exponent)
    ensures FloatText(mantissa + exponent)
  {
    hide DigitPart, DigitGroups, Mantissa, MantissaShape, Unsigned;
    MantissaIff(mantissa);
    var s := mantissa + exponent;
    if exponent == "" {
      assert s == mantissa;
    } else {
      var e, sign, digits :| ExponentOf(e, sign, digits) && exponent == [e] + (sign + digits);
      DigitPartIff(digits);
      GroupsEnds(digits);
      UnsignedOf(sign, digits);
      var i := |mantissa|;
      assert s[i] == e && s[..i] == mantissa && s[i + 1..] == sign + digits;
    }
  }

  lemma MantissaEnds(s: string)
    requires MantissaShape(s)
    ensures s != "" && (IsDigit(s[0]) || s[0] == '.') && (IsDigit(s[|s| - 1]) || s[|s| - 1] == '.')
    ensures '.' !in s ==> DigitGroups(s)
  {
    hide DigitGroups;
    if DigitGroups(s) {
      GroupsEnds(s);
    } else {
      var whole, fraction :| Around(whole, fraction) && s == whole + "." + fraction;
      if whole != "" { GroupsEnds(whole); }
      if fraction != "" { GroupsEnds(fraction); }
      assert s[|whole|] == '.';
    }
  }

  /** What a number may begin and end with: never whitespace, nor a second sign. */
  lemma PartsEnds(mantissa: string, exponent: string)
    requires MantissaShape(mantissa) && ExponentShape(exponent)
    ensures var s := mantissa + exponent;
            && s != "" && (IsDigit(s[0]) || s[0] == '.') && (IsDigit(s[|s| - 1]) || s[|s| - 1] == '.')
            && ('.' !in s && 'e' !in s && 'E' !in s ==> DigitGroups(s))
  {
    hide DigitGroups, MantissaShape;
    var s := mantissa + exponent;
    MantissaEnds(mantissa);
    if e, sign, digits :| ExponentOf(e, sign, digits) && exponent == [e] + (sign + digits) {
      GroupsEnds(digits);
      assert s[|mantissa|] == e;
    } else {
      assert s == mantissa;
    }
  }

  lemma NumberParts(token: string)
    returns (before: string, sign: string, mantissa: string, exponent: string, after: string)
    requires NumberLike(token)
    ensures NumberShape(token, before, sign, mantissa, exponent, after)
  {
    hide DigitPart, DigitGroups, FloatText, Unsigned, StripLeft, StripRight, MantissaShape, ExponentShape;
    before, after := StripParts(token);
    var core := StripRight(StripLeft(token));
    sign := UnsignedParts(core);
    var s := Unsigned(core);
    if FloatText(s) {
      mantissa, exponent := FloatParts(s);
    } else {
      DigitPartIff(s);
      mantissa, exponent := s, "";
      assert MantissaShape(s) && ExponentShape("") by { PlainShapes(s); }
      assert s + "" == s;
    }
  }

  lemma PlainShapes(s: string)
    ensures (DigitGroups(s) ==> MantissaShape(s)) && ExponentShape("")
  {
  }

  lemma ShapeIsNumber(token: string, before: string, sign: string, mantissa: string, exponent: string, after: string)
    requires NumberShape(token, before, sign, mantissa, exponent, after)
    ensures ParseAtom(token) == Number(token)
  {
    hide DigitPart, DigitGroups, FloatText, Unsigned, StripLeft, StripRight, MantissaShape, ExponentShape;
    var s := mantissa + exponent;
    PartsEnds(mantissa, exponent);
    PartsAreFloat(mantissa, exponent);
    UnsignedOf(sign, s);
    DigitPartIff(s);
    CoreOfShape(before, sign, s, after);
    MarksOfShape(before, sign, s, after);
  }

  lemma CoreOfShape(before: string, sign: string, s: string, after: string)
    requires (forall c | c in before + after :: IsStripped(c)) && sign in {"", "+", "-"}
    requires s != "" && (IsDigit(s[0]) || s[0] == '.') && (IsDigit(s[|s| - 1]) || s[|s| - 1] == '.')
    ensures StripRight(StripLeft(before + (sign + s) + after)) == sign + s
  {
    var core := sign + s;
    assert core[|core| - 1] == s[|s| - 1] && (sign == "" ==> core == s);
    StripOff(before, core, after);
  }

  lemma MarksOfShape(before: string, sign: string, s: string, after: string)
    requires (forall c | c in before + after :: IsStripped(c)) && sign in {"", "+", "-"}
    requires s != "" && (IsDigit(s[0]) || s[0] == '.')
    ensures var token := before + (sign + s) + after;
            && (forall mark | mark in {'.', 'e', 'E'} :: mark in token <==> mark in s)
            && token != "yes" && token != "no"
  {
    var token := before + (sign + s) + after;
    assert forall c :: c in token <==> c in before + after || c in sign || c in s;
    assert s[0] in token;
  }

  /** The tokens that are read as numbers, exactly; every other token stays the text it is. */
  lemma NumberIff(token: string)
    ensures (exists before, sign, mantissa, exponent, after ::
               NumberShape(token, before, sign, mantissa, exponent, after))
            <==> ParseAtom(token) == Number(token)
    ensures ParseAtom(token) != Number(token) ==> ParseAtom(token) == Str(token)
  {
    hide NumberLike, NumberShape;
    if NumberLike(token) {
      var before, sign, mantissa, exponent, after := NumberParts(token);
    }
    if before, sign, mantissa, exponent, after :| NumberShape(token, before, sign, mantissa, exponent, after) {
      ShapeIsNumber(token, before, sign, mantissa, exponent, after);
    }
  }

  // ------------------------------------------------------------------ searching

  /** Every list in a tree, outermost first, left to right. */
  function Lists(t: Sexpr): seq<Sexpr>
    decreases t, 1
  {
    match t
    case List(items) => [t] + ListsOfAll(items)
    case _ => []
  }

  function ListsOfAll(ts: seq<Sexpr>): seq<Sexpr>
    decreases ts, 0
  {
    if ts == [] then [] else Lists(ts[0]) + ListsOfAll(ts[1..])
  }

  predicate HasHead(t: Sexpr, head: string) {
    t.List? && t.items != [] && t.items[0] == Str(head)
  }

  function Matching(ts: seq<Sexpr>, head: string): seq<Sexpr> {
    if ts == [] then []
    else (if HasHead(ts[0], head) then [ts[0]] else []) + Matching(ts[1..], head)
  }

  lemma {:induction false} MatchingAppend(a: seq<Sexpr>, b: seq<Sexpr>, head: string)
    ensures Matching(a + b, head) == Matching(a, head) + Matching(b, head)
  {
    if a == [] {
      assert a + b == b;
    } else {
      hide HasHead;
      assert (a + b)[1..] == a[1..] + b && (a + b)[0] == a[0];
      MatchingAppend(a[1..], b, head);
      var first := if HasHead(a[0], head) then [a[0]] else [];
      var rest, last := Matching(a[1..], head), Matching(b, head);
      assert first + (rest + last) == (first + rest) + last;
    }
  }

  lemma {:induction false} ListsOfAllAppend(a: seq<Sexpr>, b: seq<Sexpr>)
    ensures ListsOfAll(a + b) == ListsOfAll(a) + ListsOfAll(b)
  {
    if a == [] {
      assert a + b == b;
    } else {
      assert (a + b)[1..] == a[1..] + b;
      ListsOfAllAppend(a[1..], b);
    }
  }

  lemma ListsOfNext(items: seq<Sexpr>, i: nat)
    requires i < |items|
    ensures ListsOfAll(items[..i + 1]) == ListsOfAll(items[..i]) + Lists(items[i])
  {
    assert items[..i + 1] == items[..i] + [items[i]];
    ListsOfAllAppend(items[..i], [items[i]]);
    assert [items[i]][1..] == [];
  }

  lemma MatchingNext(items: seq<Sexpr>, i: nat, head: string)
    requires i < |items|
    ensures Matching(ListsOfAll(items[..i + 1]), head) ==
            Matching(ListsOfAll(items[..i]), head) + Matching(Lists(items[i]), head)
  {
    hide Lists, Matching;
    ListsOfNext(items, i);
    MatchingAppend(ListsOfAll(items[..i]), Lists(items[i]), head);
  }

  lemma NoListNoMatch(t: Sexpr, head: string)
    requires !t.List?
    ensures Matching(Lists(t), head) == []
  {
  }

  lemma NothingMatches(items: seq<Sexpr>, head: string)
    ensures Matching(ListsOfAll(items[..0]), head) == []
  {
  }

  /** The recursive search returns every list with the given head, in document order. */
  method SexprFind(node: Sexpr, head: string) returns (found: seq<Sexpr>)
    ensures found == Matching(Lists(node), head)
    decreases node
  {
    hide HasHead, Matching, Lists, ListsOfAll;
    found := [];
    if !node.List? {
      NoListNoMatch(node, head);
      return;
    }
    if HasHead(node, head) { found := [node]; }
    ghost var first := found;
    NothingMatches(node.items, head);
    for i := 0 to |node.items|
      invariant found == first + Matching(ListsOfAll(node.items[..i]), head)
    {
      MatchingNext(node.items, i, head);
      if node.items[i].List? {
        var inner := SexprFind(node.items[i], head);
        found := found + inner;
      } else {
        NoListNoMatch(node.items[i], head);
      }
    }
    assert node.items[..|node.items|] == node.items;
    MatchingList(node, head);
  }

  lemma MatchingList(node: Sexpr, head: string)
    requires node.List?
    ensures Matching(Lists(node), head) ==
            (if HasHead(node, head) then [node] else []) + Matching(ListsOfAll(node.items), head)
  {
  }

  /** The first child of a list with the given head. */
  method SexprChild(items: seq<Sexpr>, head: string) returns (child: Option<Sexpr>)
    ensures child.None? ==> forall i | 0 <= i < |items| :: !HasHead(items[i], head)
    ensures child.Some? ==> exists i :: 0 <= i < |items| && child.value == items[i] && HasHead(items[i], head)
                                        && forall k | 0 <= k < i :: !HasHead(items[k], head)
  {
    for i := 0 to |items|
      invariant forall k | 0 <= k < i :: !HasHead(items[k], head)
    {
      if HasHead(items[i], head) {
        return Some(items[i]);
      }
    }
    return None;
  }

  /** The tree is the node itself or lies within it. */
  predicate Within(x: Sexpr, node: Sexpr) {
    x == node || (node.List? && exists i | 0 <= i < |node.items| :: Within(x, node.items[i]))
  }

  /** The search returns exactly the lists within a node that begin with the head. */
  lemma FindsExactly(node: Sexpr, head: string, x: Sexpr)
    ensures x in Matching(Lists(node), head) <==> Within(x, node) && x.List? && x.items != [] && x.items[0] == Str(head)
  {
    MatchingMembers(Lists(node), head, x);
    ListsMembers(node, x);
  }

  lemma {:induction false} MatchingMembers(ts: seq<Sexpr>, head: string, x: Sexpr)
    ensures x in Matching(ts, head) <==> x in ts && HasHead(x, head)
  {
    if ts != [] {
      MatchingMembers(ts[1..], head, x);
    }
  }

  lemma {:induction false} ListsMembers(node: Sexpr, x: Sexpr)
    ensures x in Lists(node) <==> Within(x, node) && x.List?
    decreases node, 1
  {
    if node.List? {
      ListsOfAllMembers(node.items, x);
    }
  }

  lemma {:induction false} ListsOfAllMembers(ts: seq<Sexpr>, x: Sexpr)
    ensures x in ListsOfAll(ts) <==> x.List? && exists i | 0 <= i < |ts| :: Within(x, ts[i])
    decreases ts, 0
  {
    if ts != [] {
      ListsMembers(ts[0], x);
      ListsOfAllMembers(ts[1..], x);
      assert forall i | 0 < i < |ts| :: ts[i] == ts[1..][i - 1];
    }
  }
}
