/** Length-prefixed big-endian encodings, the pre-images of every digest.

    SHA-256 is a parameter wherever it is needed; everything here is about the bytes that go
    into it.  Each encoder is shown to be prefix-free: the encoded value can be read back off
    the front of any longer buffer, so a concatenation of encodings is uniquely decodable.
 */
module Encoding {
  import opened Ordering

  const U32_LIMIT: nat := 0x1_0000_0000
  const U64_LIMIT: nat := 0x1_0000_0000_0000_0000

  /** `u32::to_be_bytes` and `u64::to_be_bytes`. */
  function U32(n: nat): (r: Bytes)
    requires n < U32_LIMIT
    ensures |r| == 4
  {
    [n / 256 / 256 / 256, n / 256 / 256 % 256, n / 256 % 256, n % 256]
  }

  function U64(n: nat): (r: Bytes)
    requires n < U64_LIMIT
    ensures |r| == 8
  {
    U32(n / U32_LIMIT) + U32(n % U32_LIMIT)
  }

  /** `push_str`: a `u32` length and the bytes. */
  function Str(s: Bytes): Bytes
    requires |s| < U32_LIMIT
  {
    U32(|s|) + s
  }

  predicate RowFits(row: Row) {
    forall i :: 0 <= i < |row| ==> |row[i]| < U32_LIMIT
  }

  predicate RowsFit(rows: seq<Row>) {
    |rows| < U32_LIMIT && forall i :: 0 <= i < |rows| ==> RowFits(rows[i])
  }

  function EncRow(row: Row): Bytes
    requires RowFits(row)
  {
    if row == [] then [] else Str(row[0]) + EncRow(row[1..])
  }

  function EncRows(rows: seq<Row>): Bytes
    requires forall i :: 0 <= i < |rows| ==> RowFits(rows[i])
  {
    if rows == [] then [] else EncRow(rows[0]) + EncRows(rows[1..])
  }

  /** A `u32` count followed by that many rows. */
  function Table(rows: seq<Row>): Bytes
    requires RowsFit(rows)
  {
    U32(|rows|) + EncRows(rows)
  }

  ghost predicate Arity(rows: seq<Row>, k: nat) {
    forall i :: 0 <= i < |rows| ==> |rows[i]| == k
  }

  lemma U32PrefixFree(a: nat, b: nat, r: Bytes, s: Bytes)
    requires a < U32_LIMIT && b < U32_LIMIT && U32(a) + r == U32(b) + s
    ensures a == b && r == s
  {
    SplitEqual(U32(a), U32(b), r, s);
    U32Value(a);
    U32Value(b);
  }

  function Value(x: seq<int>): int
    requires |x| == 4
  {
    ((x[0] * 256 + x[1]) * 256 + x[2]) * 256 + x[3]
  }

  lemma U32Value(n: nat)
    requires n < U32_LIMIT
    ensures n == Value(U32(n))
  {
    var q := n / 256;
    assert n == 256 * q + n % 256 && q == 256 * (q / 256) + q % 256;
  }

  lemma U64PrefixFree(a: nat, b: nat, r: Bytes, s: Bytes)
    requires a < U64_LIMIT && b < U64_LIMIT && U64(a) + r == U64(b) + s
    ensures a == b && r == s
  {
    SplitEqual(U64(a), U64(b), r, s);
    assert U32(a / U32_LIMIT) + (U32(a % U32_LIMIT)) == U32(b / U32_LIMIT) + (U32(b % U32_LIMIT));
    U32PrefixFree(a / U32_LIMIT, b / U32_LIMIT, U32(a % U32_LIMIT), U32(b % U32_LIMIT));
    U32PrefixFree(a % U32_LIMIT, b % U32_LIMIT, [], []);
  }

  lemma StrPrefixFree(a: Bytes, b: Bytes, r: Bytes, s: Bytes)
    requires |a| < U32_LIMIT && |b| < U32_LIMIT && Str(a) + r == Str(b) + s
    ensures a == b && r == s
  {
    AppendAssociates(U32(|a|), a, r);
    AppendAssociates(U32(|b|), b, s);
    U32PrefixFree(|a|, |b|, a + r, b + s);
    SplitEqual(a, b, r, s);
  }

  lemma {:induction false} RowPrefixFree(a: Row, b: Row, r: Bytes, s: Bytes)
    requires RowFits(a) && RowFits(b) && |a| == |b| && EncRow(a) + r == EncRow(b) + s
    ensures a == b && r == s
  {
    if a == [] {
      assert EncRow(a) + r == r && EncRow(b) + s == s;
    } else {
      AppendAssociates(Str(a[0]), EncRow(a[1..]), r);
      AppendAssociates(Str(b[0]), EncRow(b[1..]), s);
      StrPrefixFree(a[0], b[0], EncRow(a[1..]) + r, EncRow(b[1..]) + s);
      RowPrefixFree(a[1..], b[1..], r, s);
      assert a == [a[0]] + a[1..] && b == [b[0]] + b[1..];
    }
  }

  lemma {:induction false} RowsPrefixFree(a: seq<Row>, b: seq<Row>, k: nat, r: Bytes, s: Bytes)
    requires RowsFit(a) && RowsFit(b) && Arity(a, k) && Arity(b, k) && |a| == |b|
    requires EncRows(a) + r == EncRows(b) + s
    ensures a == b && r == s
  {
    if a == [] {
      assert EncRows(a) + r == r && EncRows(b) + s == s;
    } else {
      var x, y := EncRows(a[1..]), EncRows(b[1..]);
      AppendAssociates(EncRow(a[0]), x, r);
      AppendAssociates(EncRow(b[0]), y, s);
      RowPrefixFree(a[0], b[0], x + r, y + s);
      RowsPrefixFree(a[1..], b[1..], k, r, s);
      assert a == [a[0]] + a[1..] && b == [b[0]] + b[1..];
    }
  }

  lemma TablePrefixFree(a: seq<Row>, b: seq<Row>, k: nat, r: Bytes, s: Bytes)
    requires RowsFit(a) && RowsFit(b) && Arity(a, k) && Arity(b, k)
    requires Table(a) + r == Table(b) + s
    ensures a == b && r == s
  {
    AppendAssociates(U32(|a|), EncRows(a), r);
    AppendAssociates(U32(|b|), EncRows(b), s);
    U32PrefixFree(|a|, |b|, EncRows(a) + r, EncRows(b) + s);
    RowsPrefixFree(a, b, k, r, s);
  }

  /** A list of records, each written in front of the rest, can be read back when each record can. */
  function EncList<T>(enc: (T, Bytes) -> Bytes, items: seq<T>, rest: Bytes): Bytes {
    if items == [] then rest else enc(items[0], EncList(enc, items[1..], rest))
  }

  ghost predicate ReadsBack<T>(enc: (T, Bytes) -> Bytes, x: T, y: T) {
    forall r, s :: enc(x, r) == enc(y, s) ==> x == y && r == s
  }

  lemma {:induction false} ListReadsBack<T>(enc: (T, Bytes) -> Bytes, a: seq<T>, b: seq<T>, r: Bytes, s: Bytes)
    requires |a| == |b| && EncList(enc, a, r) == EncList(enc, b, s)
    requires forall i :: 0 <= i < |a| ==> ReadsBack(enc, a[i], b[i])
    ensures a == b && r == s
  {
    if a != [] {
      assert ReadsBack(enc, a[0], b[0]);
      ListReadsBack(enc, a[1..], b[1..], r, s);
      assert a == [a[0]] + a[1..] && b == [b[0]] + b[1..];
    }
  }

  /** `out` is `start` with the record appended. */
  ghost predicate Appends<T>(enc: (T, Bytes) -> Bytes, x: T, start: Bytes, out: Bytes) {
    forall rest :: out + rest == start + enc(x, rest)
  }

  /** `out` is what is written of a list when only `left` is still to come. */
  ghost predicate Writing<T>(enc: (T, Bytes) -> Bytes, whole: Bytes, out: Bytes, left: seq<T>, rest: Bytes) {
    out + EncList(enc, left, rest) == whole
  }

  lemma WritingStep<T>(enc: (T, Bytes) -> Bytes, whole: Bytes, start: Bytes, out: Bytes, items: seq<T>, i: nat, rest: Bytes)
    requires i < |items| && Writing(enc, whole, start, items[i..], rest) && Appends(enc, items[i], start, out)
    ensures Writing(enc, whole, out, items[i + 1..], rest)
  {
    assert items[i..][1..] == items[i + 1..];
    var next := EncList(enc, items[i + 1..], rest);
    assert out + next == start + enc(items[i], next);
  }

  lemma WritingDone<T>(enc: (T, Bytes) -> Bytes, whole: Bytes, out: Bytes, rest: Bytes)
    requires Writing(enc, whole, out, [], rest)
    ensures out + rest == whole
  {
  }

  // ---- writing tables -----------------------------------------------------------------------------

  lemma {:induction false} EncRowAppend(row: Row, i: nat)
    requires RowFits(row) && i < |row|
    ensures EncRow(row[..i + 1]) == EncRow(row[..i]) + Str(row[i])
    decreases i
  {
    if i == 0 {
      assert row[..1][1..] == [] && row[..0] == [];
    } else {
      assert row[..i + 1][1..] == row[1..][..i] && row[..i][1..] == row[1..][..i - 1];
      EncRowAppend(row[1..], i - 1);
      AppendAssociates(Str(row[0]), EncRow(row[1..][..i - 1]), Str(row[i]));
    }
  }

  lemma {:induction false} EncRowsAppend(rows: seq<Row>, i: nat)
    requires RowsFit(rows) && i < |rows|
    ensures EncRows(rows[..i + 1]) == EncRows(rows[..i]) + EncRow(rows[i])
    decreases i
  {
    if i == 0 {
      assert rows[..1][1..] == [] && rows[..0] == [];
    } else {
      assert rows[..i + 1][1..] == rows[1..][..i] && rows[..i][1..] == rows[1..][..i - 1];
      EncRowsAppend(rows[1..], i - 1);
      AppendAssociates(EncRow(rows[0]), EncRows(rows[1..][..i - 1]), EncRow(rows[i]));
    }
  }

  /** `push_str` for each string of a record; a string of four gibibytes or more is an error. */
  method PushRow(start: Bytes, row: Row) returns (ok: bool, out: Bytes)
    ensures ok <==> RowFits(row)
    ensures ok ==> out == start + EncRow(row)
  {
    out := start;
    for i := 0 to |row|
      invariant RowFits(row[..i]) && out == start + EncRow(row[..i])
    {
      if |row[i]| >= U32_LIMIT { return false, out; }
      assert row[..i + 1] == row[..i] + [row[i]];
      EncRowAppend(row[..i + 1], i);
      assert row[..i + 1][..i] == row[..i] && row[..i + 1][..i + 1] == row[..i + 1];
      AppendAssociates(start, EncRow(row[..i]), Str(row[i]));
      out := out + Str(row[i]);
    }
    assert row[..|row|] == row;
    return true, out;
  }

  /** `push_u32` of the length and then the records. */
  method PushTable(start: Bytes, rows: seq<Row>) returns (ok: bool, out: Bytes)
    ensures ok <==> RowsFit(rows)
    ensures ok ==> out == start + Table(rows)
  {
    out := start;
    if |rows| >= U32_LIMIT { return false, out; }
    var head := start + U32(|rows|);
    out := head;
    for i := 0 to |rows|
      invariant RowsFit(rows[..i]) && out == head + EncRows(rows[..i])
    {
      ghost var before := out;
      var fits: bool;
      fits, out := PushRow(out, rows[i]);
      if !fits { return false, out; }
      assert rows[..i + 1] == rows[..i] + [rows[i]];
      EncRowsAppend(rows[..i + 1], i);
      assert rows[..i + 1][..i] == rows[..i] && rows[..i + 1][..i + 1] == rows[..i + 1];
      AppendAssociates(head, EncRows(rows[..i]), EncRow(rows[i]));
    }
    assert rows[..|rows|] == rows;
    AppendAssociates(start, U32(|rows|), EncRows(rows));
    return true, out;
  }

  /** String literals of the source as bytes; all of them are ASCII. */
  function Ascii(s: string): (r: Bytes)
    ensures |r| == |s|
  {
    seq(|s|, i requires 0 <= i < |s| => s[i] as int % 256)
  }

  /** A SHA-256 value, and `format!("sha256:{:x}", hash)`. */
  type Hash = h: Bytes | |h| == 32 witness seq(32, _ => 0)

  function HexDigit(n: int): Byte
    requires 0 <= n < 16
  {
    if n < 10 then 48 + n else 87 + n
  }

  const SHA256: Bytes := [115, 104, 97, 50, 53, 54, 58]

  function HexAt(h: Hash, i: nat): Byte
    requires i < 64
  {
    HexDigit(if i % 2 == 0 then h[i / 2] / 16 else h[i / 2] % 16)
  }

  function Hex(h: Hash): (r: Bytes)
    ensures |r| == 64 && forall i :: 0 <= i < 64 ==> r[i] == HexAt(h, i)
  {
    seq(64, i requires 0 <= i < 64 => HexAt(h, i))
  }

  function DigestText(h: Hash): (r: Bytes)
    ensures ValidDigest(r)
  {
    SHA256 + Hex(h)
  }

  predicate LowerHex(b: Byte) { 48 <= b <= 57 || 97 <= b <= 102 }

  /** `valid_digest`, `validate_digest` and `fingerprint`: `sha256:` and 64 lower-case hex digits. */
  predicate ValidDigest(s: Bytes) {
    && |s| == 71
    && s[..7] == SHA256
    && forall i :: 7 <= i < |s| ==> LowerHex(s[i])
  }

  lemma DigestTextInjective(a: Hash, b: Hash)
    requires DigestText(a) == DigestText(b)
    ensures a == b
  {
    SplitEqual(SHA256, SHA256, Hex(a), Hex(b));
    forall k | 0 <= k < 32 ensures a[k] == b[k] {
      assert HexAt(a, 2 * k) == HexAt(b, 2 * k) && HexAt(a, 2 * k + 1) == HexAt(b, 2 * k + 1);
      assert 2 * k / 2 == k && (2 * k + 1) / 2 == k && (2 * k + 1) % 2 == 1;
    }
  }

  /** Two different pre-images with one hash.  Every hash has such pairs; what a digest identifies is what it
      identifies unless the two pre-images at hand are one of them. */
  predicate Collide(sha: Bytes -> Hash, x: Bytes, y: Bytes) { x != y && sha(x) == sha(y) }

  lemma SameDigest(sha: Bytes -> Hash, x: Bytes, y: Bytes)
    ensures DigestText(sha(x)) == DigestText(sha(y)) <==> x == y || Collide(sha, x, y)
  {
    if DigestText(sha(x)) == DigestText(sha(y)) { DigestTextInjective(sha(x), sha(y)); }
  }
}
