/** The scanner that splits migration SQL into top-level statements, and the transaction-control check. */
module SqlScan {
  import opened Ordering
  import opened Text

  const NEWLINE: Byte := 10
  const SPACE: Byte := 32
  const DOUBLE_QUOTE: Byte := 34
  const DOLLAR: Byte := 36
  const SINGLE_QUOTE: Byte := 39
  const STAR: Byte := 42
  const DASH: Byte := 45
  const SLASH: Byte := 47
  const SEMICOLON: Byte := 59

  datatype ScanError = UnterminatedQuote | UnterminatedComment | UnterminatedDollarQuote

  datatype Result<+T, +E> = Ok(value: T) | Err(error: E)

  // ---- the lexical items ------------------------------------------------------------------------

  /** The index after the quote that closes one opened before `i`; a doubled quote does not close. */
  function QuoteEnd(q: Byte, s: Bytes, i: nat): (r: Option<nat>)
    requires i <= |s|
    ensures r.Some? ==> i < r.value <= |s|
    decreases |s| - i
  {
    if i == |s| then None
    else if s[i] != q then QuoteEnd(q, s, i + 1)
    else if i + 1 < |s| && s[i + 1] == q then QuoteEnd(q, s, i + 2)
    else Some(i + 1)
  }

  /** A line comment stops before the newline or at the end of the text. */
  function LineEnd(s: Bytes, i: nat): (n: nat)
    requires i <= |s|
    ensures i <= n <= |s|
    decreases |s| - i
  {
    if i == |s| || s[i] == NEWLINE then i else LineEnd(s, i + 1)
  }

  /** `bytes.get(i..i + 2) == Some(..)`. */
  predicate PairAt(s: Bytes, i: nat, x: Byte, y: Byte) { i + 2 <= |s| && s[i] == x && s[i + 1] == y }

  /** Where the loop over a block comment stops from `i`, and how many comments are then open. */
  function CommentEnd(s: Bytes, i: nat, depth: nat): (r: (nat, nat))
    requires i <= |s|
    ensures i <= r.0 <= |s|
    decreases |s| - i
  {
    if i == |s| || depth == 0 then (i, depth)
    else if PairAt(s, i, SLASH, STAR) then CommentEnd(s, i + 2, depth + 1)
    else if PairAt(s, i, STAR, SLASH) then CommentEnd(s, i + 2, depth - 1)
    else CommentEnd(s, i + 1, depth)
  }

  predicate TagByte(b: Byte) { 48 <= b <= 57 || 65 <= b <= 90 || 97 <= b <= 122 || b == 95 }

  predicate IsTag(s: Bytes) { forall i :: 0 <= i < |s| ==> TagByte(s[i]) }

  function Delimiter(tag: Bytes): (r: Bytes)
    ensures |r| == |tag| + 2
  {
    [DOLLAR] + tag + [DOLLAR]
  }

  /** The tag of the dollar quote that `s`, which starts with a dollar, opens. */
  function TagOf(s: Bytes): (r: Option<Bytes>)
    requires s != []
    ensures r.Some? ==> IsTag(r.value) && |r.value| + 2 <= |s|
  {
    var r := Find(s[1..], [DOLLAR]);
    if r.Some? && IsTag(s[1..1 + r.value]) then Some(s[1..1 + r.value]) else None
  }

  datatype Token = Blank(width: nat) | Separator | Char(byte: Byte) | Bad(error: ScanError)

  /** A dollar that opens no dollar quote is an ordinary character. */
  function DollarItem(s: Bytes): (t: Token)
    requires s != []
    ensures t.Blank? ==> 0 < t.width <= |s|
  {
    var tag := TagOf(s);
    if tag.None? then Char(DOLLAR)
    else
      var d := Delimiter(tag.value);
      var r := Find(s[|d|..], d);
      if r.None? then Bad(UnterminatedDollarQuote) else Blank(|d| + r.value + |d|)
  }

  /** The item at the front: a skipped item becomes one blank. */
  function Lex(s: Bytes): (t: Token)
    requires s != []
    ensures t.Blank? ==> 0 < t.width <= |s|
  {
    if s[0] == SINGLE_QUOTE || s[0] == DOUBLE_QUOTE then
      var r := QuoteEnd(s[0], s, 1);
      if r.None? then Bad(UnterminatedQuote) else Blank(r.value)
    else if PairAt(s, 0, DASH, DASH) then Blank(LineEnd(s, 2))
    else if PairAt(s, 0, SLASH, STAR) then
      var r := CommentEnd(s, 2, 1);
      if r.1 != 0 then Bad(UnterminatedComment) else Blank(r.0)
    else if s[0] == DOLLAR then DollarItem(s)
    else if s[0] == SEMICOLON then Separator
    else Char(s[0])
  }

  /** A lexer as the scan below sees it. */
  type RawLexer = Bytes -> Token

  predicate Within(t: Token, s: Bytes) { t.Blank? ==> 0 < t.width <= |s| }

  /** What goes after the newline that follows an item has no influence on it. */
  ghost predicate Stable(lex: RawLexer, s: Bytes, t: Bytes) {
    s != [] && t != [] && t[0] == NEWLINE && !lex(s).Bad? ==> lex(s + t) == lex(s)
  }

  ghost predicate IsLexer(lex: RawLexer) {
    && (forall s :: Within(lex(s), s))
    && (forall s, t :: Stable(lex, s, t))
    && (forall x :: lex([NEWLINE] + x) == Char(NEWLINE))
    && (forall x :: lex([SEMICOLON] + x) == Separator)
  }

  type Lexer = lex: RawLexer | IsLexer(lex) witness FirstByte

  function FirstByte(s: Bytes): Token {
    if s == [] || s[0] == SEMICOLON then Separator else Char(s[0])
  }

  function LexAny(s: Bytes): Token { if s == [] then Separator else Lex(s) }

  function SqlLexer(): Lexer {
    LexerSane();
    LexAny
  }

  // ---- statements -------------------------------------------------------------------------------

  /** The text of a statement holds one character per byte, as `char::from` makes it. */
  type Statements = s: seq<Bytes> | s != [] witness [[]]

  type ScanResult = Result<Statements, ScanError>

  function Push(b: Byte, r: ScanResult): ScanResult {
    if r.Err? then r else Ok([[b] + r.value[0]] + r.value[1..])
  }

  function Separate(r: ScanResult): ScanResult {
    if r.Err? then r else Ok([[]] + r.value)
  }

  function Scan(lex: Lexer, s: Bytes): ScanResult
    decreases |s|
  {
    if s == [] then Ok([[]])
    else
      assert Within(lex(s), s);
      match lex(s)
      case Bad(e) => Err(e)
      case Blank(n) => Push(SPACE, Scan(lex, s[n..]))
      case Char(b) => Push(b, Scan(lex, s[1..]))
      case Separator => Separate(Scan(lex, s[1..]))
  }

  /** The statements of a migration. */
  function Split(sql: Bytes): ScanResult { Scan(SqlLexer(), sql) }

  /** Scanning on from `done`: the last statement so far runs into the first one to come. */
  function Continue(done: Statements, r: ScanResult): ScanResult {
    if r.Err? then r
    else Ok(done[..|done| - 1] + [done[|done| - 1] + r.value[0]] + r.value[1..])
  }

  function PushLast(done: Statements, b: Byte): Statements {
    done[..|done| - 1] + [done[|done| - 1] + [b]]
  }

  lemma ContinuePush(done: Statements, b: Byte, r: ScanResult)
    ensures Continue(done, Push(b, r)) == Continue(PushLast(done, b), r)
  {
    if r.Ok? { AppendAssociates(done[|done| - 1], [b], r.value[0]); }
  }

  lemma ContinueSeparate(done: Statements, r: ScanResult)
    ensures Continue(done, Separate(r)) == Continue(done + [[]], r)
    ensures r.Ok? ==> Continue(done, Separate(r)) == Ok(done + r.value)
  {
    if r.Ok? {
      var last, v := done[|done| - 1], r.value;
      assert last + [] == last && [] + v[0] == v[0];
      assert ([[]] + v)[1..] == v && (done + [[]])[..|done|] == done;
      assert done[..|done| - 1] + [last] == done && done + [v[0]] + v[1..] == done + v;
    }
  }

  lemma ContinueStart(r: ScanResult)
    ensures Continue([[]], r) == r
  {
    if r.Ok? {
      var done: Statements := [[]];
      assert done[..0] == [] && done[0] + r.value[0] == r.value[0];
      assert [] + [r.value[0]] + r.value[1..] == r.value;
    }
  }

  lemma ContinueEnd(done: Statements)
    ensures Continue(done, Ok([[]])) == Ok(done)
  {
    var end: Statements := [[]];
    assert done[|done| - 1] + end[0] == done[|done| - 1] && end[1..] == [];
    assert done[..|done| - 1] + [done[|done| - 1]] + [] == done;
  }

  // ---- an item is the same whatever follows it ----------------------------------------------------

  predicate IsQuote(b: Byte) { b == SINGLE_QUOTE || b == DOUBLE_QUOTE }

  /** Two neighbouring bytes that no lexical item can join. */
  predicate Apart(x: Byte, y: Byte) {
    && !TagByte(y) && y != DASH && y != STAR
    && (IsQuote(y) ==> x != y)
    && (y == DOLLAR ==> !TagByte(x) && x != DOLLAR)
  }

  /** `s` is a line comment to its end. */
  predicate OpenLine(s: Bytes) { PairAt(s, 0, DASH, DASH) && LineEnd(s, 2) == |s| }

  predicate Follows(s: Bytes, t: Bytes) {
    t != [] && (s == [] || (Apart(s[|s| - 1], t[0]) && (t[0] == NEWLINE || !OpenLine(s))))
  }

  lemma {:induction false} QuoteStable(q: Byte, s: Bytes, t: Bytes, i: nat)
    requires i <= |s| && QuoteEnd(q, s, i).Some? && t != [] && (t[0] == q ==> s[|s| - 1] != q)
    ensures QuoteEnd(q, s + t, i) == QuoteEnd(q, s, i)
    decreases |s| - i
  {
    if s[i] != q {
      QuoteStable(q, s, t, i + 1);
    } else if i + 1 < |s| && s[i + 1] == q {
      QuoteStable(q, s, t, i + 2);
    }
  }

  lemma {:induction false} LineStable(s: Bytes, t: Bytes, i: nat)
    requires i <= |s| && t != [] && (t[0] == NEWLINE || LineEnd(s, i) < |s|)
    ensures LineEnd(s + t, i) == LineEnd(s, i)
    decreases |s| - i
  {
    if i < |s| && s[i] != NEWLINE { LineStable(s, t, i + 1); }
  }

  lemma {:induction false} CommentStable(s: Bytes, t: Bytes, i: nat, d: nat)
    requires i <= |s| && CommentEnd(s, i, d).1 == 0
    ensures CommentEnd(s + t, i, d) == CommentEnd(s, i, d)
    decreases |s| - i
  {
    if d > 0 {
      if PairAt(s, i, SLASH, STAR) {
        CommentStable(s, t, i + 2, d + 1);
      } else if PairAt(s, i, STAR, SLASH) {
        CommentStable(s, t, i + 2, d - 1);
      } else {
        CommentStable(s, t, i + 1, d);
      }
    }
  }

  lemma FoundDollar(s: Bytes)
    requires Find(s, [DOLLAR]).Some?
    ensures s[Find(s, [DOLLAR]).value] == DOLLAR
  {
    FindFirst(s, [DOLLAR]);
    var i := Find(s, [DOLLAR]).value;
    assert s[i..i + 1][0] == DOLLAR;
  }

  lemma FoundLater(s: Bytes, t: Bytes, pat: Bytes)
    requires pat != [] && Find(s, pat).None? && Find(s + t, pat).Some?
    ensures Find(s + t, pat).value + |pat| > |s|
  {
    var i := Find(s + t, pat).value;
    FindFirst(s, pat);
    FindFirst(s + t, pat);
    if i + |pat| <= |s| { OccursAtAppend(s, t, pat, i); }
  }

  lemma NoTagAcross(s: Bytes, k: nat)
    requires k < |s| && !TagByte(s[k])
    ensures !IsTag(s)
  {
  }

  /** A tag cannot run across the cut. */
  lemma LateDollar(s: Bytes, t: Bytes, k: nat)
    requires s != [] && s[0] == DOLLAR && Follows(s, t) && |s| <= 1 + k < |s + t|
    requires Find((s + t)[1..], [DOLLAR]) == Some(k)
    ensures !IsTag((s + t)[1..1 + k])
  {
    FoundDollar((s + t)[1..]);
    assert (s + t)[1 + k] == DOLLAR;
    NoTagAcross((s + t)[1..1 + k], if 1 + k == |s| then |s| - 2 else |s| - 1);
  }

  lemma TagStable(s: Bytes, t: Bytes)
    requires s != [] && s[0] == DOLLAR && Follows(s, t)
    ensures TagOf(s + t) == TagOf(s)
  {
    var tail, pat: Bytes := s[1..], [DOLLAR];
    assert (s + t)[1..] == tail + t;
    var w := Find(tail + t, pat);
    if Find(tail, pat).Some? {
      FindAppend(tail, t, pat);
      assert (s + t)[1..1 + w.value] == s[1..1 + w.value];
    } else if w.Some? {
      FoundLater(tail, t, pat);
      LateDollar(s, t, w.value);
    }
  }

  lemma DollarStable(s: Bytes, t: Bytes)
    requires s != [] && s[0] == DOLLAR && Follows(s, t) && !DollarItem(s).Bad?
    ensures DollarItem(s + t) == DollarItem(s)
  {
    TagStable(s, t);
    if TagOf(s).Some? {
      var d := Delimiter(TagOf(s).value);
      assert (s + t)[|d|..] == s[|d|..] + t;
      FindAppend(s[|d|..], t, d);
    }
  }

  lemma LexStable(s: Bytes, t: Bytes)
    requires s != [] && Follows(s, t) && !Lex(s).Bad?
    ensures Lex(s + t) == Lex(s)
  {
    if s[0] == SINGLE_QUOTE || s[0] == DOUBLE_QUOTE {
      QuoteStable(s[0], s, t, 1);
    } else if PairAt(s, 0, DASH, DASH) {
      LineStable(s, t, 2);
    } else if PairAt(s, 0, SLASH, STAR) {
      CommentStable(s, t, 2, 1);
    } else if s[0] == DOLLAR {
      DollarStable(s, t);
    }
  }

  lemma LexerSane()
    ensures IsLexer(LexAny)
  {
    forall s, t ensures Stable(LexAny, s, t) {
      if s != [] && t != [] && t[0] == NEWLINE && !Lex(s).Bad? { LexStable(s, t); }
    }
  }

  // ---- composition ------------------------------------------------------------------------------

  function Width(t: Token): nat { if t.Blank? then t.width else 1 }

  /** With `t` behind it, `a` is cut into the same items. */
  predicate Undisturbed(lex: Lexer, a: Bytes, t: Bytes)
    decreases |a|
  {
    a != [] ==>
      assert Within(lex(a), a);
      lex(a + t) == lex(a) && Undisturbed(lex, a[Width(lex(a))..], t)
  }

  lemma {:induction false} ScanOn(lex: Lexer, done: Statements, a: Bytes, t: Bytes)
    requires Scan(lex, a).Ok? && Undisturbed(lex, a, t)
    ensures Continue(done, Scan(lex, a + t)) == Continue(Continue(done, Scan(lex, a)).value, Scan(lex, t))
    decreases |a|
  {
    if a == [] {
      assert a + t == t;
      ContinueEnd(done);
    } else {
      assert Within(lex(a), a);
      var n := Width(lex(a));
      assert (a + t)[n..] == a[n..] + t;
      if lex(a).Separator? {
        ContinueSeparate(done, Scan(lex, a[n..]));
        ContinueSeparate(done, Scan(lex, a[n..] + t));
        ScanOn(lex, done + [[]], a[n..], t);
      } else {
        var b := if lex(a).Blank? then SPACE else lex(a).byte;
        ContinuePush(done, b, Scan(lex, a[n..]));
        ContinuePush(done, b, Scan(lex, a[n..] + t));
        ScanOn(lex, PushLast(done, b), a[n..], t);
      }
    }
  }

  lemma ScanBehind(lex: Lexer, a: Bytes, t: Bytes)
    requires Scan(lex, a).Ok? && Undisturbed(lex, a, t)
    ensures Scan(lex, a + t) == Continue(Scan(lex, a).value, Scan(lex, t))
  {
    ScanOn(lex, [[]], a, t);
    ContinueStart(Scan(lex, a));
    ContinueStart(Scan(lex, a + t));
  }

  lemma {:induction false} NewlineUndisturbed(lex: Lexer, a: Bytes, t: Bytes)
    requires Scan(lex, a).Ok? && t != [] && t[0] == NEWLINE
    ensures Undisturbed(lex, a, t)
    decreases |a|
  {
    if a != [] {
      assert Stable(lex, a, t) && Within(lex(a), a);
      NewlineUndisturbed(lex, a[Width(lex(a))..], t);
    }
  }

  /** After text that scans, a newline is a clean place to go on: nothing is left open, whatever follows. */
  lemma ScanNewline(lex: Lexer, a: Bytes, x: Bytes)
    requires Scan(lex, a).Ok?
    ensures Scan(lex, a + ([NEWLINE] + x)) == Continue(PushLast(Scan(lex, a).value, NEWLINE), Scan(lex, x))
  {
    var t := [NEWLINE] + x;
    NewlineUndisturbed(lex, a, t);
    ScanBehind(lex, a, t);
    assert t[1..] == x;
    ContinuePush(Scan(lex, a).value, NEWLINE, Scan(lex, x));
  }

  lemma ScanSeparator(lex: Lexer, b: Bytes)
    ensures Scan(lex, [SEMICOLON] + b) == Separate(Scan(lex, b))
  {
    assert ([SEMICOLON] + b)[1..] == b;
  }

  /** Scripts joined by a newline and a semicolon scan to their statements one after the other. */
  lemma ScanConcatenates(lex: Lexer, a: Bytes, b: Bytes)
    requires Scan(lex, a).Ok?
    ensures Scan(lex, a + ([NEWLINE] + ([SEMICOLON] + b)))
         == if Scan(lex, b).Err? then Scan(lex, b)
            else Ok(PushLast(Scan(lex, a).value, NEWLINE) + Scan(lex, b).value)
  {
    ScanNewline(lex, a, [SEMICOLON] + b);
    ScanSeparator(lex, b);
    ContinueSeparate(PushLast(Scan(lex, a).value, NEWLINE), Scan(lex, b));
  }

  // ---- what the blanks stand for ------------------------------------------------------------------

  function Doubled(q: Byte, content: Bytes): Bytes {
    if content == [] then []
    else (if content[0] == q then [q, q] else [content[0]]) + Doubled(q, content[1..])
  }

  /** A quoted literal or identifier with any content. */
  function Quoted(q: Byte, content: Bytes): Bytes { [q] + Doubled(q, content) + [q] }

  /** A quoted text is skipped exactly up to its own closing quote. */
  lemma {:induction false} DoubledEnd(q: Byte, content: Bytes, s: Bytes, i: nat)
    requires var n := |Doubled(q, content)|;
      i + n < |s| && s[i..i + n] == Doubled(q, content) && s[i + n] == q && (i + n + 1 < |s| ==> s[i + n + 1] != q)
    ensures QuoteEnd(q, s, i) == Some(i + |Doubled(q, content)| + 1)
    decreases |content|
  {
    var d := Doubled(q, content);
    if content != [] {
      var w := if content[0] == q then 2 else 1;
      assert s[i..i + |d|][..w] == d[..w] && s[i] == d[0] && (w == 2 ==> s[i + 1] == d[1]);
      assert s[i + w..i + |d|] == s[i..i + |d|][w..] == Doubled(q, content[1..]);
      DoubledEnd(q, content[1..], s, i + w);
    }
  }

  /** Only such texts are skipped as a quote. */
  lemma {:induction false} QuoteHasContent(q: Byte, s: Bytes, i: nat) returns (content: Bytes)
    requires i <= |s| && QuoteEnd(q, s, i).Some?
    ensures var n := QuoteEnd(q, s, i).value;
      s[i..n] == Doubled(q, content) + [q] && (n == |s| || s[n] != q)
    decreases |s| - i
  {
    var n := QuoteEnd(q, s, i).value;
    if s[i] == q && !(i + 1 < |s| && s[i + 1] == q) {
      content := [];
    } else {
      var w := if s[i] == q then 2 else 1;
      var c := QuoteHasContent(q, s, i + w);
      content := [s[i]] + c;
      assert content[1..] == c;
      assert s[i..n] == s[i..i + w] + s[i + w..n];
      assert s[i..i + w] == if s[i] == q then [q, q] else [s[i]];
      AppendAssociates(s[i..i + w], Doubled(q, c), [q]);
    }
  }

  lemma QuotedIsBlank(q: Byte, content: Bytes, t: Bytes)
    requires q == SINGLE_QUOTE || q == DOUBLE_QUOTE
    requires t == [] || t[0] != q
    ensures Lex(Quoted(q, content) + t) == Blank(|Quoted(q, content)|)
  {
    var s, n := Quoted(q, content) + t, |Doubled(q, content)|;
    assert s[1..1 + n] == Doubled(q, content);
    DoubledEnd(q, content, s, 1);
  }

  function DollarQuoted(tag: Bytes, body: Bytes): Bytes { Delimiter(tag) + body + Delimiter(tag) }

  lemma TagFound(tag: Bytes, t: Bytes)
    requires IsTag(tag)
    ensures TagOf(Delimiter(tag) + t) == Some(tag)
  {
    var s := Delimiter(tag) + t;
    var tail, pat: Bytes := s[1..], [DOLLAR];
    assert tail[|tag|..|tag| + 1] == pat;
    forall j | 0 <= j < |tag| ensures !OccursAt(tail, pat, j) {
      assert tail[j..j + 1] == [tag[j]];
    }
    FindUnique(tail, pat, |tag|);
    assert s[1..1 + |tag|] == tag;
  }

  lemma DollarItemEnds(tag: Bytes, rest: Bytes)
    requires TagOf(Delimiter(tag) + rest) == Some(tag) && Find(rest, Delimiter(tag)).Some?
    ensures DollarItem(Delimiter(tag) + rest) == Blank(2 * |Delimiter(tag)| + Find(rest, Delimiter(tag)).value)
  {
    assert (Delimiter(tag) + rest)[|Delimiter(tag)|..] == rest;
  }

  /** A dollar-quoted body is skipped when its delimiter does not turn up before its end. */
  lemma DollarQuotedIsBlank(tag: Bytes, body: Bytes, t: Bytes)
    requires IsTag(tag) && Find(body + Delimiter(tag), Delimiter(tag)) == Some(|body|)
    ensures Lex(DollarQuoted(tag, body) + t) == Blank(|DollarQuoted(tag, body)|)
  {
    DollarRest(tag, body, t);
    TagFound(tag, body + Delimiter(tag) + t);
    DollarItemEnds(tag, body + Delimiter(tag) + t);
  }

  lemma DollarRest(tag: Bytes, body: Bytes, t: Bytes)
    requires Find(body + Delimiter(tag), Delimiter(tag)) == Some(|body|)
    ensures DollarQuoted(tag, body) + t == Delimiter(tag) + (body + Delimiter(tag) + t)
    ensures Find(body + Delimiter(tag) + t, Delimiter(tag)) == Some(|body|)
  {
    var d := Delimiter(tag);
    AppendAssociates(d, body, d);
    AppendAssociates(d, body + d, t);
    FindAppend(body + d, t, d);
  }

  /** A complete block comment. */
  predicate IsComment(w: Bytes) {
    PairAt(w, 0, SLASH, STAR) && CommentEnd(w, 2, 1) == (|w|, 0)
  }

  /** The text after an opening mark: bytes and inner comments up to the closing mark. */
  datatype Body = Close | Plain(byte: Byte, more: Body) | Nested(inner: Body, more: Body)

  /** The text of a body with its closing mark, in front of what follows. */
  function Written(b: Body, rest: Bytes): Bytes {
    match b
    case Close => [STAR, SLASH] + rest
    case Plain(x, more) => [x] + Written(more, rest)
    case Nested(inner, more) => [SLASH, STAR] + Written(inner, Written(more, rest))
  }

  function Head(b: Body): Byte {
    match b case Close => STAR case Plain(x, _) => x case Nested(_, _) => SLASH
  }

  /** No plain byte makes a mark with the byte after it. */
  predicate Grammatical(b: Body) {
    match b
    case Close => true
    case Plain(x, more) =>
      !(x == SLASH && Head(more) == STAR) && !(x == STAR && Head(more) == SLASH) && Grammatical(more)
    case Nested(inner, more) => Grammatical(inner) && Grammatical(more)
  }

  lemma WrittenHead(b: Body, rest: Bytes)
    ensures |Written(b, rest)| >= |rest| + 2 && Written(b, rest)[0] == Head(b)
    decreases b
  {
    match b
    case Close =>
    case Plain(_, more) => WrittenHead(more, rest);
    case Nested(inner, more) =>
      WrittenHead(more, rest);
      WrittenHead(inner, Written(more, rest));
  }

  lemma MarkAt(z: Bytes, at: nat, x: Byte, y: Byte, tail: Bytes)
    requires at <= |z| && z[at..] == [x, y] + tail
    ensures PairAt(z, at, x, y) && z[at + 2..] == tail
  {
    assert z[at] == z[at..][0] && z[at + 1] == z[at..][1] && z[at + 2..] == z[at..][2..];
  }

  lemma ByteAt(z: Bytes, at: nat, x: Byte, tail: Bytes)
    requires at <= |z| && z[at..] == [x] + tail && tail != []
    ensures at + 1 < |z| && z[at] == x && z[at + 1] == tail[0] && z[at + 1..] == tail
  {
    assert z[at] == z[at..][0] && z[at + 1] == z[at..][1] && z[at + 1..] == z[at..][1..];
  }

  /** Such a text is walked through, inside any number of outer comments, exactly to its closing mark. */
  lemma {:induction false} BodyWalked(b: Body, rest: Bytes, z: Bytes, at: nat, d: nat)
    requires Grammatical(b) && at <= |z| && z[at..] == Written(b, rest)
    ensures |rest| <= |z| && z[|z| - |rest|..] == rest
    ensures CommentEnd(z, at, d + 1) == CommentEnd(z, |z| - |rest|, d)
    decreases b
  {
    match b
    case Close => MarkAt(z, at, STAR, SLASH, rest);
    case Plain(x, more) =>
      var w := Written(more, rest);
      WrittenHead(more, rest);
      ByteAt(z, at, x, w);
      BodyWalked(more, rest, z, at + 1, d);
    case Nested(inner, more) =>
      var w := Written(more, rest);
      MarkAt(z, at, SLASH, STAR, Written(inner, w));
      BodyWalked(inner, w, z, at + 2, d + 1);
      BodyWalked(more, rest, z, |z| - |w|, d);
  }

  /** Bodies one around the other, the innermost first. */
  function Around(bodies: seq<Body>, rest: Bytes): Bytes {
    if bodies == [] then rest else Written(bodies[0], Around(bodies[1..], rest))
  }

  /** Only such texts are walked through. */
  lemma {:induction false} WalkHasBodies(s: Bytes, i: nat, d: nat) returns (bodies: seq<Body>)
    requires i <= |s| && CommentEnd(s, i, d).1 == 0
    ensures |bodies| == d && forall k :: 0 <= k < d ==> Grammatical(bodies[k])
    ensures s[i..] == Around(bodies, s[CommentEnd(s, i, d).0..])
    decreases |s| - i
  {
    if d == 0 { return []; }
    var rest := s[CommentEnd(s, i, d).0..];
    if PairAt(s, i, SLASH, STAR) {
      var inner := WalkHasBodies(s, i + 2, d + 1);
      bodies := [Nested(inner[0], inner[1])] + inner[2..];
      assert inner[1..][1..] == inner[2..] && inner[1..][0] == inner[1] && bodies[1..] == inner[2..];
      assert s[i..] == [SLASH, STAR] + s[i + 2..];
    } else if PairAt(s, i, STAR, SLASH) {
      var outer := WalkHasBodies(s, i + 2, d - 1);
      bodies := [Close] + outer;
      assert bodies[1..] == outer && s[i..] == [STAR, SLASH] + s[i + 2..];
    } else {
      var more := WalkHasBodies(s, i + 1, d);
      bodies := [Plain(s[i], more[0])] + more[1..];
      assert bodies[1..] == more[1..] && s[i..] == [s[i]] + s[i + 1..];
      WrittenHead(more[0], Around(more[1..], rest));
      assert s[i + 1] == s[i + 1..][0];
    }
  }

  /** A complete comment is exactly an opening mark and a grammatical body: comments nest, and between their marks may
      stand any bytes, slashes and stars too, that make no mark. */
  lemma CommentExact(w: Bytes)
    ensures IsComment(w) <==> exists b :: Grammatical(b) && w == [SLASH, STAR] + Written(b, [])
  {
    if IsComment(w) {
      var bodies := WalkHasBodies(w, 2, 1);
      assert w == [SLASH, STAR] + w[2..] && bodies[1..] == [] && w[|w|..] == [];
      assert w[2..] == Written(bodies[0], []);
    }
    if b :| Grammatical(b) && w == [SLASH, STAR] + Written(b, []) {
      assert w[2..] == Written(b, []);
      BodyWalked(b, [], w, 2, 0);
    }
  }

  lemma CommentIsBlank(w: Bytes, t: Bytes)
    requires IsComment(w)
    ensures Lex(w + t) == Blank(|w|)
  {
    CommentStable(w, t, 2, 1);
  }

  /** A quoted text, a dollar-quoted text or a complete comment. */
  ghost predicate IsSkipped(w: Bytes) {
    || (exists q, content :: (q == SINGLE_QUOTE || q == DOUBLE_QUOTE) && w == Quoted(q, content))
    || (exists tag, body :: IsTag(tag) && Find(body + Delimiter(tag), Delimiter(tag)) == Some(|body|)
                         && w == DollarQuoted(tag, body))
    || IsComment(w)
  }

  /** What follows a skipped item does not prolong it: only a quote can be doubled. */
  predicate Ends(w: Bytes, t: Bytes)
    requires w != []
  {
    t == [] || !IsQuote(w[0]) || t[0] != w[0]
  }

  lemma SkippedIsBlank(w: Bytes, t: Bytes)
    requires w != [] && IsSkipped(w) && Ends(w, t)
    ensures Lex(w + t) == Blank(|w|)
  {
    if q, content :| (q == SINGLE_QUOTE || q == DOUBLE_QUOTE) && w == Quoted(q, content) {
      QuotedIsBlank(q, content, t);
    } else if tag, body :| IsTag(tag) && Find(body + Delimiter(tag), Delimiter(tag)) == Some(|body|)
                           && w == DollarQuoted(tag, body) {
      DollarQuotedIsBlank(tag, body, t);
    } else {
      CommentIsBlank(w, t);
    }
  }

  /** A skipped item counts as one blank: its text cannot be seen in the result. */
  lemma ItemInvisible(lex: Lexer, a: Bytes, w: Bytes, b: Bytes)
    requires Scan(lex, a).Ok? && w != [] && Undisturbed(lex, a, w + b) && lex(w + b) == Blank(|w|)
    ensures Scan(lex, a + (w + b)) == Continue(PushLast(Scan(lex, a).value, SPACE), Scan(lex, b))
  {
    ScanBehind(lex, a, w + b);
    assert (w + b)[|w|..] == b;
    ContinuePush(Scan(lex, a).value, SPACE, Scan(lex, b));
  }

  /** The last item of `a` is a line comment without its newline. */
  predicate InLineComment(a: Bytes)
    decreases |a|
  {
    a != [] && (OpenLine(a) || InLineComment(a[Width(Lex(a))..]))
  }

  lemma {:induction false} ApartUndisturbed(a: Bytes, t: Bytes)
    requires Split(a).Ok? && !InLineComment(a) && t != [] && (a == [] || Apart(a[|a| - 1], t[0]))
    ensures Undisturbed(SqlLexer(), a, t)
    decreases |a|
  {
    if a != [] {
      LexStable(a, t);
      ApartUndisturbed(a[Width(Lex(a))..], t);
    }
  }

  /** `w` may stand between `a` and `b` as an item of its own. */
  predicate Fits(a: Bytes, w: Bytes, b: Bytes) {
    w != [] && (a == [] || Apart(a[|a| - 1], w[0])) && Ends(w, b)
  }

  /** Where neither grows together with its neighbours, one skipped item may be replaced by another, of any kind and
      content, without a change of the statements. */
  lemma InlineInterchange(a: Bytes, v: Bytes, w: Bytes, b: Bytes)
    requires Split(a).Ok? && !InLineComment(a) && IsSkipped(v) && IsSkipped(w) && Fits(a, v, b) && Fits(a, w, b)
    ensures Split(a + (v + b)) == Split(a + (w + b))
  {
    ApartUndisturbed(a, v + b);
    SkippedIsBlank(v, b);
    ItemInvisible(SqlLexer(), a, v, b);
    ApartUndisturbed(a, w + b);
    SkippedIsBlank(w, b);
    ItemInvisible(SqlLexer(), a, w, b);
  }

  /** On a line of its own every item fits. */
  lemma SkippedInterchange(a: Bytes, v: Bytes, w: Bytes, b: Bytes)
    requires Split(a).Ok? && IsSkipped(v) && IsSkipped(w)
    ensures Split(a + ([NEWLINE] + (v + ([NEWLINE] + b)))) == Split(a + ([NEWLINE] + (w + ([NEWLINE] + b))))
  {
    ScanNewline(SqlLexer(), a, v + ([NEWLINE] + b));
    ScanNewline(SqlLexer(), a, w + ([NEWLINE] + b));
    assert [] + (v + ([NEWLINE] + b)) == v + ([NEWLINE] + b) && [] + (w + ([NEWLINE] + b)) == w + ([NEWLINE] + b);
    InlineInterchange([], v, w, [NEWLINE] + b);
  }

  // ---- the scanner as written -----------------------------------------------------------------------

  method SkipQuote(bytes: Bytes, start: nat) returns (index: nat, closed: bool)
    requires start < |bytes|
    ensures QuoteEnd(bytes[start], bytes, start + 1) == if closed then Some(index) else None
  {
    var quote := bytes[start];
    index, closed := start + 1, false;
    while index < |bytes|
      invariant start < index <= |bytes|
      invariant QuoteEnd(quote, bytes, start + 1) == QuoteEnd(quote, bytes, index)
    {
      if bytes[index] == quote {
        if index + 1 < |bytes| && bytes[index + 1] == quote {
          index := index + 2;
          continue;
        }
        index := index + 1;
        closed := true;
        return;
      }
      index := index + 1;
    }
  }

  method SkipLineComment(bytes: Bytes, start: nat) returns (index: nat)
    requires start + 2 <= |bytes|
    ensures index == LineEnd(bytes, start + 2)
  {
    index := start + 2;
    while index < |bytes| && bytes[index] != NEWLINE
      invariant start + 2 <= index <= |bytes|
      invariant LineEnd(bytes, start + 2) == LineEnd(bytes, index)
    {
      index := index + 1;
    }
  }

  method SkipBlockComment(bytes: Bytes, start: nat) returns (index: nat, depth: nat)
    requires start + 2 <= |bytes|
    ensures (index, depth) == CommentEnd(bytes, start + 2, 1)
  {
    index, depth := start + 2, 1;
    while index < |bytes| && depth > 0
      invariant start + 2 <= index <= |bytes|
      invariant CommentEnd(bytes, start + 2, 1) == CommentEnd(bytes, index, depth)
    {
      if PairAt(bytes, index, SLASH, STAR) {
        depth := depth + 1;
        index := index + 2;
      } else if PairAt(bytes, index, STAR, SLASH) {
        depth := depth - 1;
        index := index + 2;
      } else {
        index := index + 1;
      }
    }
  }

  /** After an ASCII byte a string may be cut. */
  predicate CutsAfterAscii(s: Bytes) {
    forall i: nat :: i < |s| && s[i] < 0x80 ==> IsCharBoundary(s, i + 1)
  }

  lemma Utf8CutsAfterAscii(s: Bytes)
    requires ValidUtf8(s)
    ensures CutsAfterAscii(s)
  {
    forall i: nat | i < |s| && s[i] < 0x80 ensures IsCharBoundary(s, i + 1) { AsciiBoundaries(s, i); }
  }

  lemma TagAt(sql: Bytes, start: nat)
    requires start < |sql|
    ensures var tail := sql[start + 1..]; var end := Find(tail, [DOLLAR]);
      TagOf(sql[start..]) == if end.Some? && IsTag(tail[..end.value]) then Some(tail[..end.value]) else None
  {
    var s, tail := sql[start..], sql[start + 1..];
    assert s[1..] == tail;
    var end := Find(tail, [DOLLAR]);
    if end.Some? { assert s[1..1 + end.value] == tail[..end.value]; }
  }

  /** Every slice that a dollar starts is taken at a character boundary. */
  method SkipDollar(sql: Bytes, start: nat) returns (next: Result<Option<nat>, ScanError>)
    requires CutsAfterAscii(sql) && start < |sql| && sql[start] == DOLLAR
    ensures next == match DollarItem(sql[start..])
                    case Blank(n) => Ok(Some(start + n))
                    case Bad(e) => Err(e)
                    case _ => Ok(None)
  {
    TagAt(sql, start);
    var tail := SliceFrom(sql, start + 1);
    var end := Find(tail, [DOLLAR]);
    if end.Some? {
      FoundDollar(tail);
      assert sql[start + 1 + end.value] == DOLLAR;
      var tag := SliceTo(tail, end.value);
      if IsTag(tag) {
        var delimiter := Delimiter(tag);
        var body := start + |delimiter|;
        var rest := SliceFrom(sql, body);
        assert sql[start..][|delimiter|..] == rest;
        var close := Find(rest, delimiter);
        if close.None? { return Err(UnterminatedDollarQuote); }
        return Ok(Some(body + close.value + |delimiter|));
      }
    }
    return Ok(None);
  }

  // The three walks do not depend on what comes before the item.

  lemma {:induction false} QuoteShift(q: Byte, s: Bytes, k: nat, i: nat)
    requires k + i <= |s|
    ensures QuoteEnd(q, s, k + i) == match QuoteEnd(q, s[k..], i) case None => None case Some(n) => Some(k + n)
    decreases |s| - i
  {
    if k + i < |s| {
      if s[k + i] != q {
        QuoteShift(q, s, k, i + 1);
      } else if k + i + 1 < |s| && s[k + i + 1] == q {
        QuoteShift(q, s, k, i + 2);
      }
    }
  }

  lemma {:induction false} LineShift(s: Bytes, k: nat, i: nat)
    requires k + i <= |s|
    ensures LineEnd(s, k + i) == k + LineEnd(s[k..], i)
    decreases |s| - i
  {
    if k + i < |s| && s[k + i] != NEWLINE { LineShift(s, k, i + 1); }
  }

  lemma {:induction false} CommentShift(s: Bytes, k: nat, i: nat, d: nat)
    requires k + i <= |s|
    ensures CommentEnd(s, k + i, d) == (k + CommentEnd(s[k..], i, d).0, CommentEnd(s[k..], i, d).1)
    decreases |s| - i
  {
    if k + i < |s| && d > 0 {
      if PairAt(s, k + i, SLASH, STAR) {
        CommentShift(s, k, i + 2, d + 1);
      } else if PairAt(s, k + i, STAR, SLASH) {
        CommentShift(s, k, i + 2, d - 1);
      } else {
        CommentShift(s, k, i + 1, d);
      }
    }
  }

  ghost predicate IsItem(lex: RawLexer, sql: Bytes, index: nat, next: Result<nat, ScanError>, pushed: Option<Byte>)
    requires index < |sql|
  {
    match lex(sql[index..])
    case Bad(e) => next == Err(e)
    case Blank(n) => next == Ok(index + n) && pushed == Some(SPACE)
    case Char(b) => next == Ok(index + 1) && pushed == Some(b)
    case Separator => next == Ok(index + 1) && pushed == None
  }

  /** One round of the scanner: where the item ends, and what it adds to the last statement if it does not end it. */
  method Item(sql: Bytes, index: nat) returns (next: Result<nat, ScanError>, pushed: Option<Byte>)
    requires CutsAfterAscii(sql) && index < |sql|
    ensures next.Ok? ==> index < next.value <= |sql|
    ensures IsItem(LexAny, sql, index, next, pushed)
  {
    pushed := Some(SPACE);
    if sql[index] == SINGLE_QUOTE || sql[index] == DOUBLE_QUOTE {
      QuoteShift(sql[index], sql, index, 1);
      var i, closed := SkipQuote(sql, index);
      next := if closed then Ok(i) else Err(UnterminatedQuote);
    } else if PairAt(sql, index, DASH, DASH) {
      LineShift(sql, index, 2);
      var i := SkipLineComment(sql, index);
      next := Ok(i);
    } else if PairAt(sql, index, SLASH, STAR) {
      CommentShift(sql, index, 2, 1);
      var i, depth := SkipBlockComment(sql, index);
      next := if depth == 0 then Ok(i) else Err(UnterminatedComment);
    } else if sql[index] == DOLLAR {
      var i := SkipDollar(sql, index);
      if i.Err? {
        next := Err(i.error);
      } else if i.value.Some? {
        next := Ok(i.value.value);
      } else {
        next, pushed := Ok(index + 1), Some(DOLLAR);
      }
    } else if sql[index] == SEMICOLON {
      next, pushed := Ok(index + 1), None;
    } else {
      next, pushed := Ok(index + 1), Some(sql[index]);
    }
  }

  function Add(done: Statements, pushed: Option<Byte>): Statements {
    if pushed.Some? then PushLast(done, pushed.value) else done + [[]]
  }

  lemma ItemAdvances(lex: Lexer, done: Statements, sql: Bytes, index: nat, next: Result<nat, ScanError>, pushed: Option<Byte>)
    requires index < |sql| && IsItem(lex, sql, index, next, pushed)
    ensures next.Err? ==> Continue(done, Scan(lex, sql[index..])) == Err(next.error)
    ensures next.Ok? ==> next.value <= |sql|
    ensures next.Ok? ==>
      Continue(done, Scan(lex, sql[index..])) == Continue(Add(done, pushed), Scan(lex, sql[next.value..]))
  {
    assert Within(lex(sql[index..]), sql[index..]);
    if next.Ok? {
      var r := Scan(lex, sql[next.value..]);
      assert sql[index..][next.value - index..] == sql[next.value..];
      if pushed.Some? { ContinuePush(done, pushed.value, r); } else { ContinueSeparate(done, r); }
    }
  }

  /** `top_level_statements`: `index` strictly increases, and every index and slice is in range. */
  method TopLevelStatements(sql: Bytes) returns (r: ScanResult)
    requires ValidUtf8(sql)
    ensures r == Split(sql)
  {
    var statements: Statements := [[]];
    var index := 0;
    Utf8CutsAfterAscii(sql);
    ghost var lex := SqlLexer();
    ContinueStart(Scan(lex, sql));
    assert sql[0..] == sql;
    while index < |sql|
      invariant 0 <= index <= |sql|
      invariant Scan(lex, sql) == Continue(statements, Scan(lex, sql[index..]))
      decreases |sql| - index
    {
      var next, pushed := Item(sql, index);
      ItemAdvances(lex, statements, sql, index, next, pushed);
      if next.Err? { return Err(next.error); }
      statements := Add(statements, pushed);
      index := next.value;
    }
    ContinueEnd(statements);
    return Ok(statements);
  }

  // ---- transaction control ---------------------------------------------------------------------------

  predicate IsSpace(c: Byte) { 9 <= c <= 13 || c == 32 || c == 0x85 || c == 0xa0 }

  function TrimStart(s: Bytes): Bytes {
    if s != [] && IsSpace(s[0]) then TrimStart(s[1..]) else s
  }

  predicate IsLetter(c: Byte) { 65 <= c <= 90 || 97 <= c <= 122 }

  function UpperCase(c: Byte): Byte { if 97 <= c <= 122 then c - 32 else c }

  /** The leading letters, in upper case. */
  function Letters(s: Bytes): Bytes {
    if s == [] || !IsLetter(s[0]) then [] else [UpperCase(s[0])] + Letters(s[1..])
  }

  function Keyword(statement: Bytes): Bytes { Letters(TrimStart(statement)) }

  predicate TransactionControl(k: Bytes) {
    k in [ [66, 69, 71, 73, 78],             // BEGIN
           [67, 79, 77, 77, 73, 84],         // COMMIT
           [82, 79, 76, 76, 66, 65, 67, 75], // ROLLBACK
           [65, 66, 79, 82, 84],             // ABORT
           [83, 84, 65, 82, 84],             // START
           [69, 78, 68] ]                    // END
  }

  datatype Refusal = NotUtf8 | Malformed(scan: ScanError) | Forbidden(keyword: Bytes)

  function FirstBad(bad: Bytes -> bool, statements: seq<Bytes>): Option<Bytes> {
    if statements == [] then None
    else if bad(Keyword(statements[0])) then Some(Keyword(statements[0]))
    else FirstBad(bad, statements[1..])
  }

  /** `reject_transaction_control`: `None` when the migration is let through. */
  function Refused(bad: Bytes -> bool, sql: Bytes): Option<Refusal> {
    if !ValidUtf8(sql) then Some(NotUtf8)
    else match Split(sql)
      case Err(e) => Some(Malformed(e))
      case Ok(statements) =>
        match FirstBad(bad, statements) case None => None case Some(k) => Some(Forbidden(k))
  }

  method RejectTransactionControl(bytes: Bytes) returns (r: Option<Refusal>)
    ensures r == Refused(TransactionControl, bytes)
  {
    if !ValidUtf8(bytes) { return Some(NotUtf8); }
    var statements := TopLevelStatements(bytes);
    if statements.Err? { return Some(Malformed(statements.error)); }
    var i := 0;
    assert statements.value[0..] == statements.value;
    while i < |statements.value|
      invariant 0 <= i <= |statements.value|
      invariant FirstBad(TransactionControl, statements.value) == FirstBad(TransactionControl, statements.value[i..])
    {
      assert statements.value[i..][1..] == statements.value[i + 1..];
      var keyword := Keyword(statements.value[i]);
      if TransactionControl(keyword) { return Some(Forbidden(keyword)); }
      i := i + 1;
    }
    return None;
  }

  lemma {:induction false} LettersNewline(s: Bytes)
    ensures Letters(s + [NEWLINE]) == Letters(s)
  {
    if s != [] && IsLetter(s[0]) {
      assert (s + [NEWLINE])[1..] == s[1..] + [NEWLINE];
      LettersNewline(s[1..]);
    }
  }

  lemma {:induction false} KeywordNewline(s: Bytes)
    ensures Keyword(s + [NEWLINE]) == Keyword(s)
  {
    if s == [] {
      assert (s + [NEWLINE])[1..] == [];
      assert Keyword(s + [NEWLINE]) == [];
    } else if IsSpace(s[0]) {
      assert (s + [NEWLINE])[1..] == s[1..] + [NEWLINE];
      KeywordNewline(s[1..]);
    } else {
      LettersNewline(s);
    }
  }

  lemma {:induction false} FirstBadAppend(bad: Bytes -> bool, a: seq<Bytes>, b: seq<Bytes>)
    ensures FirstBad(bad, a + b) == if FirstBad(bad, a).Some? then FirstBad(bad, a) else FirstBad(bad, b)
  {
    if a == [] {
      assert a + b == b;
    } else {
      assert (a + b)[1..] == a[1..] + b;
      FirstBadAppend(bad, a[1..], b);
    }
  }

  lemma FirstBadNewline(bad: Bytes -> bool, a: Statements)
    ensures FirstBad(bad, PushLast(a, NEWLINE)) == FirstBad(bad, a)
  {
    var front, last := a[..|a| - 1], a[|a| - 1];
    KeywordNewline(last);
    FirstBadAppend(bad, front, [last]);
    FirstBadAppend(bad, front, [last + [NEWLINE]]);
    assert a == front + [last];
  }

  /** Joined scripts are refused exactly when one of them is: for the first reason found, in order. */
  lemma RefusalComposes(bad: Bytes -> bool, a: Bytes, b: Bytes)
    requires ValidUtf8(a) && Split(a).Ok?
    ensures Refused(bad, a + ([NEWLINE] + ([SEMICOLON] + b)))
         == if Refused(bad, b).Some? && !Refused(bad, b).value.Forbidden? then Refused(bad, b)
            else if Refused(bad, a).Some? then Refused(bad, a)
            else Refused(bad, b)
  {
    var x := [NEWLINE] + ([SEMICOLON] + b);
    Utf8Append(a, x);
    assert x == [NEWLINE, SEMICOLON] + b;
    JoinIsUtf8();
    Utf8Append([NEWLINE, SEMICOLON], b);
    ScanConcatenates(SqlLexer(), a, b);
    if Split(b).Ok? {
      FirstBadAppend(bad, PushLast(Split(a).value, NEWLINE), Split(b).value);
      FirstBadNewline(bad, Split(a).value);
    }
  }

  lemma JoinIsUtf8()
    ensures ValidUtf8([NEWLINE, SEMICOLON])
  {
    var s: Bytes := [NEWLINE, SEMICOLON];
    assert s[1..] == [SEMICOLON];
    assert ValidUtf8([SEMICOLON][1..]);
  }
}
