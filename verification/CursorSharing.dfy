/** Which queries share their cursors with another query: the fingerprint only sees the filter's texts joined by a
    separator that the texts may contain. */
module CursorSharing {
  import opened Ordering
  import opened JobQueue
  import opened JobListing
  import Text

  const SEP := UNIT_SEPARATOR

  function Pieces(x: seq<string>): seq<string> { Text.Pieces(SEP, x) }

  function Split(s: string): (r: seq<string>)
    ensures r != []
  {
    Text.Split(SEP, s)
  }

  // ---- filters and their texts --------------------------------------------------------------------------

  /** `convert_filter`: a text that is there is not empty. */
  predicate Converted(f: JobFilter) {
    && f.workerNamespace != Some("") && f.workerName != Some("") && f.workerVersion != Some("")
    && f.jobType != Some("") && f.sourceNamespace != Some("") && f.sourceModule != Some("")
  }

  function TextsOf(f: JobFilter): (x: seq<string>)
    ensures |x| == 6
  {
    [TextOf(f.workerNamespace), TextOf(f.workerName), TextOf(f.workerVersion), TextOf(f.jobType),
     TextOf(f.sourceNamespace), TextOf(f.sourceModule)]
  }

  function Field(text: string): Option<string> { if text == "" then None else Some(text) }

  function WithTexts(f: JobFilter, x: seq<string>): JobFilter
    requires |x| == 6
  {
    JobFilter(Field(x[0]), Field(x[1]), Field(x[2]), Field(x[3]), Field(x[4]), Field(x[5]), f.createdAtFrom, f.createdAtBefore)
  }

  /** What validation asks of the texts. */
  predicate ValidTexts(x: seq<string>) {
    |x| == 6 && (x[1] != "" ==> x[0] != "") && (x[2] != "" ==> x[1] != "") && (x[5] != "" ==> x[4] != "")
  }

  lemma TextsGiven(f: JobFilter, x: seq<string>)
    requires ValidFilter(f) && ValidTexts(x)
    ensures var g := WithTexts(f, x); Converted(g) && ValidFilter(g) && TextsOf(g) == x
  {
  }

  lemma TextsKnown(f: JobFilter)
    requires ValidFilter(f) && Converted(f)
    ensures ValidTexts(TextsOf(f)) && WithTexts(f, TextsOf(f)) == f
  {
  }

  // ---- counting parts -----------------------------------------------------------------------------------

  lemma {:induction false} AtLast(s: string) returns (a: string, b: string)
    requires SEP in s
    ensures s == a + ([SEP] + b) && SEP !in b
  {
    var n := |s| - 1;
    if s[n] == SEP {
      a, b := s[..n], [];
    } else {
      var c, d := AtLast(s[..n]);
      a, b := c, d + [s[n]];
      AppendAssociates(c, [SEP] + d, [s[n]]);
      AppendAssociates([SEP], d, [s[n]]);
    }
  }

  lemma {:induction false} SameParts(x: seq<string>, y: seq<string>)
    requires |x| == |y| && Pieces(x) == Pieces(y) && forall i :: 0 <= i < |x| ==> Count(x, i) == Count(y, i)
    ensures x == y
  {
    if x != [] {
      assert Count(x, 0) == Count(y, 0);
      SplitEqual(Split(x[0]), Split(y[0]), Pieces(x[1..]), Pieces(y[1..]));
      forall i | 0 <= i < |x| - 1 ensures Count(x[1..], i) == Count(y[1..], i) { assert Count(x, i + 1) == Count(y, i + 1); }
      Text.JoinSplit(SEP, x[0]);
      Text.JoinSplit(SEP, y[0]);
      SameParts(x[1..], y[1..]);
      assert x == [x[0]] + x[1..] && y == [y[0]] + y[1..];
    }
  }

  lemma PiecesFront(x: seq<string>)
    requires |x| >= 3
    ensures Pieces(x) == Split(x[0]) + (Split(x[1]) + (Split(x[2]) + Pieces(x[3..])))
  {
    assert x[1..][1..] == x[2..] && x[2..][1..] == x[3..];
    assert Pieces(x[2..]) == Split(x[2]) + Pieces(x[3..]);
    assert Pieces(x[1..]) == Split(x[1]) + Pieces(x[2..]);
  }

  lemma PiecesBack(x: seq<string>)
    requires |x| == 6
    ensures Pieces(x) == Pieces(x[..4]) + (Split(x[4]) + Split(x[5]))
  {
    assert x == x[..4] + [x[4], x[5]];
    Text.PiecesAppend(SEP, x[..4], [x[4], x[5]]);
    Text.PiecesOfTwo(SEP, x[4], x[5]);
  }

  function Count(x: seq<string>, i: nat): (n: nat)
    requires i < |x|
    ensures n >= 1
  {
    |Split(x[i])|
  }

  function Total(x: seq<string>): nat
    requires |x| == 6
  {
    Count(x, 0) + Count(x, 1) + Count(x, 2) + Count(x, 3) + Count(x, 4) + Count(x, 5)
  }

  lemma PiecesTotal(x: seq<string>)
    requires |x| == 6
    ensures |Pieces(x)| == Total(x)
  {
    PiecesFront(x);
    PiecesFront(x[3..]);
    assert Pieces(x[3..][3..]) == [];
  }

  // ---- moving a separator ---------------------------------------------------------------------------------

  /** A namespace that only starts with a separator cannot give it away, unless it is nothing else and no name follows. */
  predicate FrontStuck(x: seq<string>)
    requires |x| == 6
  {
    x[0] != "" && x[0][0] == SEP && SEP !in x[0][1..] && !(|x[0]| == 1 && x[1] == "")
  }

  /** Nor can a source namespace that is nothing else and has a module. */
  predicate BackStuck(x: seq<string>)
    requires |x| == 6
  {
    x[4] == [SEP] && x[5] != ""
  }

  /** Some separator can be moved to another field. */
  predicate Movable(x: seq<string>)
    requires |x| == 6
  {
    || SEP in x[1] || SEP in x[2] || SEP in x[3] || SEP in x[5]
    || (SEP in x[0] && !FrontStuck(x)) || (SEP in x[4] && !BackStuck(x))
  }

  lemma PairReplaced(x: seq<string>, k: nat, p: string, q: string)
    requires k + 1 < |x| && Pieces([x[k], x[k + 1]]) == Pieces([p, q])
    ensures Pieces(x[k := p][k + 1 := q]) == Pieces(x)
  {
    var y := x[k := p][k + 1 := q];
    assert x == x[..k] + ([x[k], x[k + 1]] + x[k + 2..]) && y == x[..k] + ([p, q] + x[k + 2..]);
    Text.PiecesMiddle(SEP, x[..k], [x[k], x[k + 1]], [p, q], x[k + 2..]);
  }

  /** The separator after `a` moves to the next field, with what comes after it. */
  lemma MoveRight(x: seq<string>, k: nat, a: string, b: string) returns (y: seq<string>)
    requires k + 1 < |x| && x[k] == a + ([SEP] + b)
    ensures y == x[k := a][k + 1 := b + ([SEP] + x[k + 1])] && Pieces(y) == Pieces(x) && y != x
  {
    y := x[k := a][k + 1 := b + ([SEP] + x[k + 1])];
    Text.PiecesRegroup(SEP, a, b, x[k + 1]);
    PairReplaced(x, k, a, b + ([SEP] + x[k + 1]));
    assert |y[k]| < |x[k]|;
  }

  /** The separator before `b` moves to the field before, with what comes before it. */
  lemma MoveLeft(x: seq<string>, k: nat, a: string, b: string) returns (y: seq<string>)
    requires k + 1 < |x| && x[k + 1] == a + ([SEP] + b)
    ensures y == x[k := x[k] + ([SEP] + a)][k + 1 := b] && Pieces(y) == Pieces(x) && y != x
  {
    y := x[k := x[k] + ([SEP] + a)][k + 1 := b];
    Text.PiecesRegroup(SEP, x[k], a, b);
    PairReplaced(x, k, x[k] + ([SEP] + a), b);
    assert |y[k + 1]| < |x[k + 1]|;
  }

  /** A field that is one separator becomes empty, and the separator goes in front of the next field. */
  lemma PushOn(x: seq<string>, k: nat, rest: string) returns (y: seq<string>)
    requires k + 1 < |x| && x[k] == [SEP] + rest
    ensures y == x[k := ""][k + 1 := rest + ([SEP] + x[k + 1])] && Pieces(y) == Pieces(x)
  {
    assert x[k] == "" + ([SEP] + rest);
    y := MoveRight(x, k, "", rest);
  }

  lemma MoveFromFront(x: seq<string>) returns (y: seq<string>)
    requires ValidTexts(x) && SEP in x[0] && !FrontStuck(x)
    ensures ValidTexts(y) && y != x && Pieces(y) == Pieces(x)
  {
    var a, b := AtLast(x[0]);
    if a != "" {
      y := MoveRight(x, 0, a, b);
    } else {
      assert x[0] == [SEP] + b && x[0][1..] == b;
      assert x[0] == [SEP] && x[1] == "";
      y := PushOn(x, 0, "");
      assert y[1] == [SEP];
      y := PushOn(y, 1, "");
      assert y[2] == [SEP];
      y := PushOn(y, 2, "");
    }
  }

  lemma MoveFromName(x: seq<string>) returns (y: seq<string>)
    requires ValidTexts(x) && SEP in x[1]
    ensures ValidTexts(y) && y != x && Pieces(y) == Pieces(x)
  {
    var a, b := Text.AtFirst(SEP, x[1]);
    if x[2] == "" || b != "" {
      y := MoveLeft(x, 0, a, b);
    } else if a != "" {
      y := MoveRight(x, 1, a, b);
    } else {
      assert x[1] == [SEP] + "";
      y := PushOn(x, 1, "");
      assert y[2] == [SEP] + x[2];
      y := PushOn(y, 2, x[2]);
    }
  }

  lemma MoveFromSource(x: seq<string>) returns (y: seq<string>)
    requires ValidTexts(x) && SEP in x[4] && !BackStuck(x)
    ensures ValidTexts(y) && y != x && Pieces(y) == Pieces(x)
  {
    var a, b := Text.AtFirst(SEP, x[4]);
    assert "" + ([SEP] + "") == [SEP];
    if x[5] == "" || b != "" {
      y := MoveLeft(x, 3, a, b);
    } else {
      y := MoveRight(x, 4, a, b);
    }
  }

  lemma Moved(x: seq<string>) returns (y: seq<string>)
    requires ValidTexts(x) && Movable(x)
    ensures ValidTexts(y) && y != x && Pieces(y) == Pieces(x)
  {
    if SEP in x[1] {
      y := MoveFromName(x);
    } else if SEP in x[2] {
      var a, b := Text.AtFirst(SEP, x[2]);
      y := MoveRight(x, 2, a, b);
    } else if SEP in x[3] {
      var a, b := Text.AtFirst(SEP, x[3]);
      y := MoveRight(x, 3, a, b);
    } else if SEP in x[5] {
      var a, b := Text.AtFirst(SEP, x[5]);
      y := MoveLeft(x, 4, a, b);
    } else if SEP in x[0] && !FrontStuck(x) {
      y := MoveFromFront(x);
    } else {
      y := MoveFromSource(x);
    }
  }

  // ---- when none can be moved -------------------------------------------------------------------------------

  lemma FrontHolds(x: seq<string>, y: seq<string>)
    requires |x| == 6 && ValidTexts(y) && Pieces(x) == Pieces(y) && SEP !in x[1] && FrontStuck(x)
    ensures Count(x, 0) == 2 && Count(y, 0) >= 2
  {
    var b := x[0][1..];
    assert x[0] == "" + ([SEP] + b);
    Text.SplitAppend(SEP, "", b);
    Text.SplitOne(SEP, b);
    Text.SplitOne(SEP, x[1]);
    assert Split(x[0]) == [""] + [b];
    PiecesFront(x);
    PiecesFront(y);
    var p := Pieces(x);
    assert p[0] == "" && p[1] == b && p[2] == x[1];
    if SEP !in y[0] { EmptyFront(y); }
    Text.SplitOne(SEP, y[0]);
  }

  lemma EmptyFront(y: seq<string>)
    requires ValidTexts(y) && SEP !in y[0] && Pieces(y)[0] == "" && |Pieces(y)| >= 3
    ensures Pieces(y)[1] == "" && Pieces(y)[2] == ""
  {
    PiecesFront(y);
    Text.SplitOne(SEP, y[0]);
    assert Pieces(y)[0] == y[0];
    Text.SplitOne(SEP, "");
  }

  lemma BackHolds(x: seq<string>, y: seq<string>)
    requires |x| == 6 && ValidTexts(y) && Pieces(x) == Pieces(y) && SEP !in x[5] && BackStuck(x)
    ensures Count(x, 4) == 2 && Count(y, 4) + Count(y, 5) >= if Count(y, 5) == 1 then 3 else 4
  {
    assert x[4] == "" + ([SEP] + "");
    Text.SplitAppend(SEP, "", "");
    assert Split(x[4]) == ["", ""];
    Text.SplitOne(SEP, x[5]);
    PiecesBack(x);
    PiecesBack(y);
    var p, u, v := Pieces(x), Split(y[4]), Split(y[5]);
    var n := |p|;
    assert p[n - 1] == x[5] && p[n - 2] == "" && p[n - 3] == "";
    assert p[n - 1] == v[|v| - 1] && p[n - 1 - |v|] == u[|u| - 1];
    Text.SplitOne(SEP, y[4]);
    Text.SplitOne(SEP, y[5]);
  }

  lemma Unmoved(x: seq<string>, y: seq<string>)
    requires |x| == 6 && ValidTexts(y) && Pieces(x) == Pieces(y) && !Movable(x)
    ensures x == y
  {
    PiecesTotal(x);
    PiecesTotal(y);
    forall i | 0 <= i < 6 ensures SEP !in x[i] ==> Count(x, i) == 1 { Text.SplitOne(SEP, x[i]); }
    if SEP in x[0] { FrontHolds(x, y); }
    if SEP in x[4] { BackHolds(x, y); }
    assert Count(x, 0) == Count(y, 0) && Count(x, 4) == Count(y, 4) && Count(x, 5) == Count(y, 5);
    SameParts(x, y);
  }

  // ---- the theorem --------------------------------------------------------------------------------------------

  /** What RFC 3339 texts are: not empty, without control characters, and different for different times. */
  ghost predicate TimeTexts(time: int -> string) {
    (forall t :: PlainTime(time, t)) && (forall t, u :: TimesApart(time, t, u))
  }

  predicate PlainTime(time: int -> string, t: int) { time(t) != "" && SEP !in time(t) }

  predicate TimesApart(time: int -> string, t: int, u: int) { time(t) == time(u) ==> t == u }

  function TimeText(time: int -> string, t: Option<int>): string { if t.None? then "" else time(t.value) }

  lemma TimesTold(time: int -> string, t: Option<int>, u: Option<int>)
    requires TimeTexts(time)
    ensures SEP !in TimeText(time, t) && (TimeText(time, t) == TimeText(time, u) ==> t == u)
  {
    if t.Some? { assert PlainTime(time, t.value); }
    if u.Some? { assert PlainTime(time, u.value); }
    if t.Some? && u.Some? { assert TimesApart(time, t.value, u.value); }
  }

  function Rest(time: int -> string, f: JobFilter, s: Option<Status>): (r: seq<string>)
    ensures |r| == 3
  {
    [TimeText(time, f.createdAtFrom), TimeText(time, f.createdAtBefore), if s.None? then "" else StatusText(s.value)]
  }

  lemma StatusTextsApart(s: Option<Status>, t: Option<Status>)
    ensures var x, y := if s.None? then "" else StatusText(s.value), if t.None? then "" else StatusText(t.value);
      SEP !in x && (x == y ==> s == t)
  {
    assert StatusText(Pending)[0] == 'p' && StatusText(Running)[0] == 'r';
    assert StatusText(Complete)[0] == 'c' && StatusText(Dead)[0] == 'd';
  }

  lemma RestPlain(time: int -> string, f: JobFilter, s: Option<Status>)
    requires TimeTexts(time)
    ensures Pieces(Rest(time, f, s)) == Rest(time, f, s)
  {
    StatusTextsApart(s, s);
    var r := Rest(time, f, s);
    TimesTold(time, f.createdAtFrom, None);
    TimesTold(time, f.createdAtBefore, None);
    assert SEP !in r[0] && SEP !in r[1] && SEP !in r[2];
    Text.PiecesPlain(SEP, r);
  }

  lemma RestTells(time: int -> string, f: JobFilter, s: Option<Status>, g: JobFilter, t: Option<Status>)
    requires TimeTexts(time) && Rest(time, f, s) == Rest(time, g, t)
    ensures f.createdAtFrom == g.createdAtFrom && f.createdAtBefore == g.createdAtBefore && s == t
  {
    var x, y := Rest(time, f, s), Rest(time, g, t);
    assert x[0] == y[0] && x[1] == y[1] && x[2] == y[2];
    TimesTold(time, f.createdAtFrom, g.createdAtFrom);
    TimesTold(time, f.createdAtBefore, g.createdAtBefore);
    StatusTextsApart(s, t);
  }

  lemma SameNormalized(time: int -> string, f: JobFilter, s: Option<Status>, g: JobFilter, t: Option<Status>)
    requires TimeTexts(time)
    ensures Normalized(time, f, s) == Normalized(time, g, t)
       <==> Pieces(TextsOf(f)) == Pieces(TextsOf(g)) && Rest(time, f, s) == Rest(time, g, t)
  {
    NormalizedSameExactly(time, f, s, g, t);
    assert FieldTexts(time, f, s) == TextsOf(f) + Rest(time, f, s);
    assert FieldTexts(time, g, t) == TextsOf(g) + Rest(time, g, t);
    Text.PiecesAppend(SEP, TextsOf(f), Rest(time, f, s));
    Text.PiecesAppend(SEP, TextsOf(g), Rest(time, g, t));
    RestPlain(time, f, s);
    RestPlain(time, g, t);
    var x, y := Pieces(TextsOf(f)), Pieces(TextsOf(g));
    if x + Rest(time, f, s) == y + Rest(time, g, t) {
      assert |x + Rest(time, f, s)| == |x| + 3 && |y + Rest(time, g, t)| == |y| + 3;
      SplitEqual(x, y, Rest(time, f, s), Rest(time, g, t));
    }
  }

  /** Another query that the service can be asked. */
  predicate Other(f: JobFilter, s: Option<Status>, g: JobFilter, t: Option<Status>) {
    Converted(g) && ValidFilter(g) && (g, t) != (f, s)
  }

  /** A query shares its text, and so its cursors, with another one exactly when a separator in one of its own fields
      can be moved to another field. */
  lemma CursorSharedExactly(time: int -> string, f: JobFilter, s: Option<Status>)
    requires TimeTexts(time) && Converted(f) && ValidFilter(f)
    ensures (exists g, t :: Other(f, s, g, t) && Normalized(time, f, s) == Normalized(time, g, t)) <==> Movable(TextsOf(f))
  {
    TextsKnown(f);
    if Movable(TextsOf(f)) {
      var y := Moved(TextsOf(f));
      var g := WithTexts(f, y);
      TextsGiven(f, y);
      SameNormalized(time, f, s, g, s);
      assert Other(f, s, g, s);
    }
    if g, t :| Other(f, s, g, t) && Normalized(time, f, s) == Normalized(time, g, t) {
      SameNormalized(time, f, s, g, t);
      RestTells(time, f, s, g, t);
      TextsKnown(g);
      if !Movable(TextsOf(f)) { Unmoved(TextsOf(f), TextsOf(g)); }
    }
  }

  /** A separator alone is not enough: a worker namespace that starts with its only one keeps its cursors to itself. */
  lemma SeparatorNotEnough(time: int -> string, b: string, g: JobFilter, t: Option<Status>)
    requires TimeTexts(time) && b != "" && SEP !in b
    ensures var f := JobFilter(Some([SEP] + b), None, None, None, None, None, None, None);
      Converted(f) && ValidFilter(f) && (Other(f, None, g, t) ==> Normalized(time, f, None) != Normalized(time, g, t))
  {
    var f := JobFilter(Some([SEP] + b), None, None, None, None, None, None, None);
    CursorSharedExactly(time, f, None);
    assert TextsOf(f)[0][1..] == b;
  }

  /** The filters on one job type and one source namespace. */
  function TypeAndSource(jobType: string, source: string): JobFilter {
    JobFilter(None, None, None, Some(jobType), Some(source), None, None, None)
  }

  /** With a separator in a field, different queries share their text, and each accepts the other's cursors: job type
      `a`, separator, `b` from namespace `c`, and job type `a` from namespace `b`, separator, `c`. */
  lemma FingerprintsCollide(time: int -> string, a: string, b: string, c: string)
    requires a != "" && c != ""
    ensures var f, g := TypeAndSource(a + ([SEP] + b), c), TypeAndSource(a, b + ([SEP] + c));
      Converted(f) && ValidFilter(f) && Other(f, None, g, None) && Normalized(time, f, None) == Normalized(time, g, None)
  {
    var f, g := TypeAndSource(a + ([SEP] + b), c), TypeAndSource(a, b + ([SEP] + c));
    assert |f.jobType.value| == |a| + 1 + |b|;
    var y := MoveRight(FieldTexts(time, f, None), 3, a, b);
    assert y == FieldTexts(time, g, None);
    NormalizedSameExactly(time, f, None, g, None);
  }
}
