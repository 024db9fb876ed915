/** What the header decoder of the loader reads, in terms of a writer: texts made of plain
    bytes and octal escapes of up to three digits, and whole scripts of such statements. */
module ApeScript {
  import opened Bytes
  import opened ApePrintf

  // ----- one statement -----

  type Oct = d: int | 0 <= d < 8

  /** A byte that stands for itself; a backslash before no digit, which does too; or a
      backslash with one to three octal digits. */
  datatype Piece = Plain(c: byte) | Slash | One(x: Oct) | Two(x: Oct, y: Oct) | Three(x: Oct, y: Oct, z: Oct)

  predicate Sound(u: Piece) { u.Plain? ==> u.c != 39 && u.c != 92 }

  /** An escape that one more digit would change. */
  predicate Short(u: Piece) { u.Slash? || u.One? || u.Two? }

  /** No short escape is followed by a digit. */
  predicate Spelled(us: seq<Piece>) {
    && (forall k :: 0 <= k < |us| ==> Sound(us[k]))
    && (forall j, k :: 0 <= j < |us| && 0 <= k < |us| && k == j + 1 ==> Parted(us[j], us[k]))
  }

  predicate Parted(u: Piece, v: Piece) { Short(u) && v.Plain? ==> !(48 <= v.c <= 55) }

  function Figure(d: Oct): byte { 48 + (d as int) }

  function Spell(u: Piece): seq<byte> {
    match u
    case Plain(c) => [c]
    case Slash => [92]
    case One(x) => [92, Figure(x)]
    case Two(x, y) => [92, Figure(x), Figure(y)]
    case Three(x, y, z) => [92, Figure(x), Figure(y), Figure(z)]
  }

  function Value(u: Piece): byte {
    match u
    case Plain(c) => c
    case Slash => 92
    case One(x) => x
    case Two(x, y) => 8 * (x as int) + y
    case Three(x, y, z) => (64 * (x as int) + 8 * (y as int) + z) % 256
  }

  function Text(us: seq<Piece>): seq<byte> {
    if us == [] then [] else Spell(us[0]) + Text(us[1..])
  }

  function Values(us: seq<Piece>): seq<byte> {
    if us == [] then [] else [Value(us[0])] + Values(us[1..])
  }

  /** The bytes `t` stand at `p`. */
  predicate At(s: seq<byte>, p: nat, t: seq<byte>) {
    p + |t| <= |s| && s[p..p + |t|] == t
  }

  lemma ByteAt(s: seq<byte>, p: nat, t: seq<byte>, k: nat)
    requires At(s, p, t) && k < |t|
    ensures s[p + k] == t[k]
  {
    assert s[p + k] == s[p..p + |t|][k];
  }

  lemma AtSplit(s: seq<byte>, p: nat, a: seq<byte>, b: seq<byte>)
    requires At(s, p, a + b)
    ensures At(s, p, a) && At(s, p + |a|, b)
  {
    var t := s[p..p + |a + b|];
    assert s[p..p + |a|] == t[..|a|] && s[p + |a|..p + |a| + |b|] == t[|a|..];
  }

  /** One piece is read as its value. */
  lemma UnitReads(s: seq<byte>, p: nat, u: Piece)
    requires Sound(u) && p + 3 < |s| && At(s, p, Spell(u))
    requires Short(u) ==> !(48 <= s[p + |Spell(u)|] <= 55)
    ensures Unit(s, p).0 == Value(u) && Unit(s, p).1 == p + |Spell(u)| && s[p] != QUOTE
  {
    var t := Spell(u);
    ByteAt(s, p, t, 0);
    if |t| >= 2 { ByteAt(s, p, t, 1); }
    if |t| >= 3 { ByteAt(s, p, t, 2); }
    if |t| >= 4 { ByteAt(s, p, t, 3); }
  }

  /** The text `t` and a quote stand at `p`. */
  predicate Quoted(s: seq<byte>, p: nat, t: seq<byte>) {
    At(s, p, t) && p + |t| < |s| && s[p + |t|] == 39
  }

  lemma QuotedSplit(s: seq<byte>, p: nat, a: seq<byte>, b: seq<byte>)
    requires Quoted(s, p, a + b)
    ensures At(s, p, a) && Quoted(s, p + |a|, b)
  {
    AtSplit(s, p, a, b);
  }

  lemma TextSplit(us: seq<Piece>)
    requires us != []
    ensures Text(us) == Spell(us[0]) + Text(us[1..]) && Values(us) == [Value(us[0])] + Values(us[1..])
  {
  }

  /** What follows a short escape is no digit. */
  lemma NextByte(s: seq<byte>, q: nat, us: seq<Piece>)
    requires us != [] && Spelled(us) && Quoted(s, q, Text(us[1..]))
    ensures Short(us[0]) ==> !(48 <= s[q] <= 55)
  {
    var rest := us[1..];
    if rest != [] {
      assert rest[0] == us[0 + 1];
      TextSplit(rest);
      QuotedSplit(s, q, Spell(rest[0]), Text(rest[1..]));
      ByteAt(s, q, Spell(rest[0]), 0);
    }
  }

  lemma DecodeStep(s: seq<byte>, p: nat, pe: nat, v: byte, q: nat)
    requires p + 3 < pe <= |s| && s[p] != QUOTE && Unit(s, p).0 == v && Unit(s, p).1 == q
    ensures Decode(s, p, pe).0 == [v] + Decode(s, q, pe).0 && Decode(s, p, pe).1 == Decode(s, q, pe).1
  {
  }

  /** The first piece of a text is read, and the rest is still to come. */
  lemma PieceRead(s: seq<byte>, p: nat, us: seq<Piece>) returns (q: nat)
    requires us != [] && Spelled(us) && Quoted(s, p, Text(us)) && p + 3 < |s|
    ensures q + |Text(us[1..])| == p + |Text(us)| && Quoted(s, q, Text(us[1..]))
    ensures Unit(s, p).0 == Value(us[0]) && Unit(s, p).1 == q && s[p] != QUOTE
    ensures Values(us) == [Value(us[0])] + Values(us[1..])
  {
    FirstPart(s, p, us);
    FirstUnit(s, p, us);
    q := p + |Spell(us[0])|;
  }

  lemma FirstPart(s: seq<byte>, p: nat, us: seq<Piece>)
    requires us != [] && Quoted(s, p, Text(us))
    ensures At(s, p, Spell(us[0])) && Quoted(s, p + |Spell(us[0])|, Text(us[1..]))
    ensures |Text(us)| == |Spell(us[0])| + |Text(us[1..])| && Values(us) == [Value(us[0])] + Values(us[1..])
  {
    TextSplit(us);
    QuotedSplit(s, p, Spell(us[0]), Text(us[1..]));
  }

  lemma FirstUnit(s: seq<byte>, p: nat, us: seq<Piece>)
    requires us != [] && Spelled(us) && p + 3 < |s|
    requires At(s, p, Spell(us[0])) && Quoted(s, p + |Spell(us[0])|, Text(us[1..]))
    ensures Unit(s, p).0 == Value(us[0]) && Unit(s, p).1 == p + |Spell(us[0])| && s[p] != QUOTE
  {
    NextByte(s, p + |Spell(us[0])|, us);
    UnitReads(s, p, us[0]);
  }

  /** A text that ends in a quote is read as the values of its pieces, and to its end. */
  lemma {:induction false} DecodeText(s: seq<byte>, p: nat, us: seq<Piece>, pe: nat)
    requires Spelled(us) && p + |Text(us)| + 3 < pe <= |s| && Quoted(s, p, Text(us))
    ensures Decode(s, p, pe).0 == Values(us) && Decode(s, p, pe).1 == p + |Text(us)| + 1
    decreases |us|
  {
    if us == [] {
      assert s[p] == QUOTE;
    } else {
      var q := PieceRead(s, p, us);
      DecodeText(s, q, us[1..], pe);
      DecodeStep(s, p, pe, Value(us[0]), q);
    }
  }

  /** Every text without a quote can be spelled, so `DecodeText` is about every statement. */
  lemma {:induction false} EveryText(t: seq<byte>) returns (us: seq<Piece>)
    requires 39 !in t
    ensures Spelled(us) && Text(us) == t
    decreases |t|
  {
    if t == [] {
      us := [];
    } else {
      var u := FirstPiece(t);
      var rest := t[|Spell(u)|..];
      var vs := EveryText(rest);
      us := [u] + vs;
      assert us[1..] == vs;
      if vs != [] && Short(u) && vs[0].Plain? {
        assert rest == Spell(vs[0]) + Text(vs[1..]);
        assert rest[0] == vs[0].c;
      }
      assert t == Spell(u) + rest;
    }
  }

  lemma FirstPiece(t: seq<byte>) returns (u: Piece)
    requires t != [] && 39 !in t
    ensures Sound(u) && |Spell(u)| <= |t| && t[..|Spell(u)|] == Spell(u)
    ensures Short(u) && |Spell(u)| < |t| ==> !(48 <= t[|Spell(u)|] <= 55)
  {
    if t[0] != 92 {
      assert t[0] in t;
      u := Plain(t[0]);
    } else {
      u := FirstEscape(t);
    }
  }

  predicate DigitAt(t: seq<byte>, k: nat) { k < |t| && 48 <= t[k] <= 55 }

  lemma FirstEscape(t: seq<byte>) returns (u: Piece)
    requires t != [] && t[0] == 92
    ensures Sound(u) && |Spell(u)| <= |t| && t[..|Spell(u)|] == Spell(u)
    ensures Short(u) && |Spell(u)| < |t| ==> !(48 <= t[|Spell(u)|] <= 55)
  {
    if !DigitAt(t, 1) {
      u := Slash;
    } else if !DigitAt(t, 2) {
      u := One(t[1] - 48);
    } else if !DigitAt(t, 3) {
      u := Two(t[1] - 48, t[2] - 48);
    } else {
      u := Three(t[1] - 48, t[2] - 48, t[3] - 48);
    }
  }

  // ----- whole scripts -----

  /** A `printf` statement and what stands between it and the next one. */
  datatype Statement = Statement(us: seq<Piece>, gap: seq<byte>)

  /** No statement starts in these bytes. */
  predicate Quiet(g: seq<byte>) {
    forall p: nat :: p + 8 <= |g| ==> !IsPrintf(g, p)
  }

  predicate Proper(sts: seq<Statement>) {
    && (forall k :: 0 <= k < |sts| ==> Spelled(sts[k].us) && Quiet(sts[k].gap) && |sts[k].gap| >= 1)
    && (sts != [] ==> |sts[|sts| - 1].gap| >= 3)
  }

  function Line(st: Statement): seq<byte> {
    PRINTF + ((Text(st.us) + [39]) + st.gap)
  }

  const PRINTF: seq<byte> := [112, 114, 105, 110, 116, 102, 32, 39]

  lemma StartAt(s: seq<byte>, p: nat)
    requires At(s, p, PRINTF)
    ensures p + 8 <= |s| && IsPrintf(s, p)
  {
    assert s[p..p + 8] == PRINTF;
    assert forall x :: p <= x < p + 8 ==> s[x] == s[p..p + 8][x - p];
  }

  function Lines(sts: seq<Statement>): seq<byte> {
    if sts == [] then [] else Line(sts[0]) + Lines(sts[1..])
  }

  /** The statements that are long enough for an ELF header. */
  function Long(sts: seq<Statement>): seq<seq<byte>> {
    if sts == [] then []
    else IfLong(Values(sts[0].us)) + Long(sts[1..])
  }

  lemma {:induction false} Skips(s: seq<byte>, p: nat, q: nat, pe: nat)
    requires p <= q <= pe && pe + 7 <= |s| && forall x :: p <= x < q ==> !IsPrintf(s, x)
    ensures Statements(s, p, pe) == Statements(s, q, pe)
    decreases q - p
  {
    if p < q { Skips(s, p + 1, q, pe); }
  }

  /** A quiet stretch up to the next statement or to the end. */
  lemma QuietGap(s: seq<byte>, a: nat, g: seq<byte>, p: nat, pe: nat)
    requires At(s, a, g) && Quiet(g) && a <= p <= a + |g| <= pe && pe + 7 <= |s|
    requires a + |g| == pe || IsPrintf(s, a + |g|)
    ensures Headers(Statements(s, p, pe)) == Headers(Statements(s, a + |g|, pe))
  {
    var b := a + |g|;
    forall x | a <= x && x + 8 <= b ensures !IsPrintf(s, x) { QuietAt(s, a, g, x); }
    if b == pe {
      var q := if pe - 7 <= p then p else pe - 7;
      Skips(s, p, q, pe);
      LateStatements(s, q, pe);
    } else {
      forall x | a <= x < b && b < x + 8 ensures !IsPrintf(s, x) { Unbordered(s, x, b); }
      Skips(s, p, b, pe);
    }
  }

  lemma QuietAt(s: seq<byte>, a: nat, g: seq<byte>, x: nat)
    requires At(s, a, g) && Quiet(g) && a <= x && x + 8 <= a + |g|
    ensures !IsPrintf(s, x)
  {
    assert !IsPrintf(g, x - a);
    assert forall y :: a <= y < a + |g| ==> s[y] == s[a..a + |g|][y - a];
  }

  /** Two statements cannot share bytes. */
  lemma Unbordered(s: seq<byte>, x: nat, b: nat)
    requires x < b < x + 8 && b + 8 <= |s| && IsPrintf(s, b)
    ensures !IsPrintf(s, x)
  {
    assert s[b] == 112;
  }

  /** One statement, up to its gap. */
  lemma LineDecodes(s: seq<byte>, p: nat, st: Statement, pe: nat) returns (g: nat)
    requires Spelled(st.us) && At(s, p, Line(st)) && p + |Line(st)| - |st.gap| + 2 < pe <= |s|
    ensures g + |st.gap| == p + |Line(st)| && g > p + 8 && At(s, g, st.gap)
    ensures IsPrintf(s, p) && Decode(s, p + 8, pe).0 == Values(st.us) && Decode(s, p + 8, pe).1 == g
  {
    var t := Text(st.us);
    AtSplit(s, p, PRINTF, (t + [39]) + st.gap);
    StartAt(s, p);
    AtSplit(s, p + 8, t + [39], st.gap);
    AtSplit(s, p + 8, t, [39]);
    g := p + 8 + |t| + 1;
    ByteAt(s, g - 1, [39], 0);
    DecodeText(s, p + 8, st.us, pe);
  }

  function IfLong(st: seq<byte>): seq<seq<byte>> { if |st| >= 64 then [st] else [] }

  lemma StatementAt(s: seq<byte>, p: nat, pe: nat, st: seq<byte>, g: nat)
    requires pe + 7 <= |s| && p < pe && IsPrintf(s, p) && Decode(s, p + 8, pe).0 == st && Decode(s, p + 8, pe).1 == g
    ensures Statements(s, p, pe) == [st] + Statements(s, g + 1, pe)
  {
  }

  lemma SplitAt(s: seq<byte>, p: nat, pe: nat, st: seq<byte>, g: nat, more: seq<seq<byte>>)
    requires pe + 7 <= |s| && p < pe && IsPrintf(s, p) && Decode(s, p + 8, pe).0 == st && Decode(s, p + 8, pe).1 == g
    requires Headers(Statements(s, g + 1, pe)) == more
    ensures Headers(Statements(s, p, pe)) == IfLong(st) + more
  {
    StatementAt(s, p, pe, st, g);
    HeadersFirst(st, Statements(s, g + 1, pe));
  }

  /** A statement that was read, and its gap, before another statement or the end. */
  lemma GapRead(s: seq<byte>, p: nat, st: seq<byte>, g: nat, gap: seq<byte>, pe: nat)
    requires pe + 7 <= |s| && p < pe && IsPrintf(s, p) && Decode(s, p + 8, pe).0 == st && Decode(s, p + 8, pe).1 == g
    requires At(s, g, gap) && Quiet(gap) && |gap| >= 1 && g + |gap| <= pe
    requires g + |gap| == pe || IsPrintf(s, g + |gap|)
    ensures Headers(Statements(s, p, pe)) == IfLong(st) + Headers(Statements(s, g + |gap|, pe))
  {
    QuietGap(s, g, gap, g + 1, pe);
    SplitAt(s, p, pe, st, g, Headers(Statements(s, g + |gap|, pe)));
  }

  lemma LineRead(s: seq<byte>, p: nat, st: Statement, b: nat, pe: nat)
    requires Spelled(st.us) && Quiet(st.gap) && |st.gap| >= 1 && At(s, p, Line(st)) && pe + 7 <= |s|
    requires b == p + |Line(st)| && if b == pe then |st.gap| >= 3 else b + 8 <= pe && IsPrintf(s, b)
    ensures Headers(Statements(s, p, pe)) == IfLong(Values(st.us)) + Headers(Statements(s, b, pe))
  {
    var g := LineDecodes(s, p, st, pe);
    GapRead(s, p, Values(st.us), g, st.gap, pe);
  }

  lemma LinesStart(s: seq<byte>, p: nat, sts: seq<Statement>)
    requires At(s, p, Lines(sts)) && sts != []
    ensures At(s, p, Line(sts[0])) && At(s, p + |Line(sts[0])|, Lines(sts[1..]))
    ensures |Line(sts[0])| >= 8 && IsPrintf(s, p)
  {
    AtSplit(s, p, Line(sts[0]), Lines(sts[1..]));
    AtSplit(s, p, PRINTF, (Text(sts[0].us) + [39]) + sts[0].gap);
    StartAt(s, p);
  }

  lemma {:induction false} LinesRead(s: seq<byte>, p: nat, sts: seq<Statement>, pe: nat)
    requires Proper(sts) && At(s, p, Lines(sts)) && pe == p + |Lines(sts)| && pe + 7 <= |s|
    ensures Headers(Statements(s, p, pe)) == Long(sts)
    decreases |sts|
  {
    if sts != [] {
      LinesStart(s, p, sts);
      var q := p + |Line(sts[0])|;
      if sts[1..] != [] { LinesStart(s, q, sts[1..]); }
      LinesRead(s, q, sts[1..], pe);
      LineRead(s, p, sts[0], q, pe);
    }
  }

  /** The headers found in a script are exactly its statements of 64 bytes or more, in
      order, whatever lies beyond the file. */
  lemma ScriptHeaders(s: seq<byte>, lead: seq<byte>, sts: seq<Statement>, pe: nat)
    requires Quiet(lead) && Proper(sts) && At(s, 0, lead + Lines(sts)) && pe == |lead + Lines(sts)| && pe + 7 <= |s|
    ensures Headers(Statements(s, 0, pe)) == Long(sts)
  {
    AtSplit(s, 0, lead, Lines(sts));
    LinesRead(s, |lead|, sts, pe);
    if sts != [] { LinesStart(s, |lead|, sts); }
    QuietGap(s, 0, lead, 0, pe);
  }

  // ----- the file as read -----

  /** `s` starts with the characters of `m`. */
  predicate StartsWith(s: seq<byte>, m: string) {
    |m| <= |s| && forall k :: 0 <= k < |m| ==> s[k] == m[k] as int
  }

  /** The three markers of an APE file. */
  predicate Marked(s: seq<byte>) { StartsWith(s, "MZqFpD='") || StartsWith(s, "jartsr='") || StartsWith(s, "APEDBG='") }

  /** A statement starts as it does in the shell. */
  lemma PrintfIs()
    ensures |PRINTF| == 8 && StartsWith(PRINTF, "printf '")
  {
  }

  /** The comparison of the first eight bytes. */
  method ReadsMarker(buf: array<byte>) returns (found: bool)
    requires buf.Length >= 8
    ensures found == Marked(buf[..])
  {
    var w := buf[..8];
    var magic: seq<byte> := [77, 90, 113, 70, 112, 68, 61, 39];
    var jartsr: seq<byte> := [106, 97, 114, 116, 115, 114, 61, 39];
    var debug: seq<byte> := [65, 80, 69, 68, 66, 71, 61, 39];
    SameMarker(buf[..], magic, "MZqFpD='");
    SameMarker(buf[..], jartsr, "jartsr='");
    SameMarker(buf[..], debug, "APEDBG='");
    assert buf[..][..8] == w;
    found := w == magic || w == jartsr || w == debug;
  }

  lemma SameMarker(s: seq<byte>, b: seq<byte>, m: string)
    requires |b| == |m| == 8 <= |s| && StartsWith(b, m)
    ensures s[..8] == b <==> StartsWith(s, m)
  {
    assert forall k :: 0 <= k < 8 ==> s[k] == s[..8][k];
  }

  /** The search as `ApeLoader` runs it: a file too small for a header is refused, and only
      a marked one is searched. */
  method FindHeaders(buf: array<byte>, pe: nat) returns (ok: bool, headers: seq<seq<byte>>)
    requires pe + 7 <= buf.Length && pe <= BUF_SIZE
    modifies buf
    ensures ok <==> pe >= 64
    ensures !ok || !Marked(old(buf[..])) ==> headers == [] && buf[..] == old(buf[..])
    ensures ok && Marked(old(buf[..])) ==> forall lead, sts ::
      Quiet(lead) && Proper(sts) && old(buf[..pe]) == lead + Lines(sts) ==> headers == Long(sts)
  {
    headers := [];
    ok := pe >= EHDR_SIZE;
    if !ok {
      return;
    }
    var found := ReadsMarker(buf);
    if found {
      ghost var s := buf[..];
      headers := ScanHeaders(buf, pe);
      forall lead, sts | Quiet(lead) && Proper(sts) && s[..pe] == lead + Lines(sts) ensures headers == Long(sts) {
        ScriptHeaders(s, lead, sts, pe);
      }
    }
  }
}
