/** The `printf` statements that carry ELF headers in an APE shell script: the
    loader decodes them in place, the linker macros encode them. */
module ApePrintf {
  import opened Bytes

  const BACKSLASH: byte := 92
  const QUOTE: byte := 39
  const EHDR_SIZE := 64
  const BUF_SIZE := 8192

  // ----- decoding an untouched copy -----

  predicate Octal(c: byte) {
    48 <= c <= 55
  }

  function Digit(c: byte): int
    requires Octal(c)
  {
    c - 48
  }

  /** One character or escape at `p`, and where the next one starts. */
  function Unit(s: seq<byte>, p: nat): (byte, nat)
    requires p + 3 < |s|
  {
    if s[p] != BACKSLASH || !Octal(s[p + 1]) then (s[p], p + 1)
    else if !Octal(s[p + 2]) then (Digit(s[p + 1]), p + 2)
    else if !Octal(s[p + 3]) then (Digit(s[p + 1]) * 8 + Digit(s[p + 2]), p + 3)
    else ((Digit(s[p + 1]) * 64 + Digit(s[p + 2]) * 8 + Digit(s[p + 3])) % 256, p + 4)
  }

  /** The bytes of the statement whose text starts at `p`, and where reading stops. */
  function Decode(s: seq<byte>, p: nat, pe: nat): (r: (seq<byte>, nat))
    requires pe <= |s|
    ensures r.1 >= p + |r.0|
    decreases pe - p
  {
    if p + 3 >= pe then ([], p)
    else if s[p] == QUOTE then ([], p + 1)
    else
      var u := Unit(s, p);
      var rest := Decode(s, u.1, pe);
      ([u.0] + rest.0, rest.1)
  }

  /** The eight bytes that start a statement. */
  predicate IsPrintf(s: seq<byte>, p: nat)
    requires p + 8 <= |s|
  {
    && s[p] == 112 && s[p + 1] == 114 && s[p + 2] == 105 && s[p + 3] == 110
    && s[p + 4] == 116 && s[p + 5] == 102 && s[p + 6] == 32 && s[p + 7] == 39
  }

  /** Every statement from `p` on.  The comparison may look up to seven bytes past
      the end of the text. */
  function Statements(s: seq<byte>, p: nat, pe: nat): seq<seq<byte>>
    requires pe + 7 <= |s|
    decreases pe - p
  {
    if p >= pe then []
    else if !IsPrintf(s, p) then Statements(s, p + 1, pe)
    else
      var d := Decode(s, p + 8, pe);
      [d.0] + Statements(s, d.1 + 1, pe)
  }

  /** The statements long enough to be tried as an ELF header. */
  function Headers(sts: seq<seq<byte>>): seq<seq<byte>> {
    if sts == [] then []
    else
      var hs := Headers(sts[..|sts| - 1]);
      var st := sts[|sts| - 1];
      if |st| >= EHDR_SIZE then hs + [st] else hs
  }

  /** The buffer after the statements were written over its start one by one. */
  function Patched(s: seq<byte>, sts: seq<seq<byte>>): seq<byte> {
    if sts == [] then s
    else
      var t := Patched(s, sts[..|sts| - 1]);
      var st := sts[|sts| - 1];
      if |st| <= |t| then st + t[|st|..] else t
  }

  lemma NextStatement(s: seq<byte>, p: nat, pe: nat, sts: seq<seq<byte>>, rest: seq<seq<byte>>)
    requires pe + 7 <= |s| && p < pe && rest == Statements(s, p, pe)
    ensures !IsPrintf(s, p) ==> Statements(s, p + 1, pe) == rest
    ensures IsPrintf(s, p) ==>
      var d := Decode(s, p + 8, pe); (sts + [d.0]) + Statements(s, d.1 + 1, pe) == sts + rest
  {
    if IsPrintf(s, p) {
      var d := Decode(s, p + 8, pe);
      Reassociate(sts, d.0, Statements(s, d.1 + 1, pe));
    }
  }

  lemma Snoc(s: seq<byte>, sts: seq<seq<byte>>, st: seq<byte>)
    ensures Headers(sts + [st]) == if |st| >= EHDR_SIZE then Headers(sts) + [st] else Headers(sts)
    ensures var t := Patched(s, sts); Patched(s, sts + [st]) == if |st| <= |t| then st + t[|st|..] else t
  {
    assert (sts + [st])[..|sts|] == sts;
  }

  // ----- the bytes past the end -----

  lemma HeadersFirst(st: seq<byte>, sts: seq<seq<byte>>)
    ensures Headers([st] + sts) == (if |st| >= EHDR_SIZE then [st] else []) + Headers(sts)
    decreases |sts|
  {
    var all := [st] + sts;
    if sts == [] {
      assert all[..0] == [] && all[0] == st;
    } else {
      var n := |sts| - 1;
      assert all[..|all| - 1] == [st] + sts[..n] && all[|all| - 1] == sts[n];
      HeadersFirst(st, sts[..n]);
    }
  }

  /** What is found within eight bytes of the end has no text, so it is no header. */
  lemma {:induction false} LateStatements(s: seq<byte>, p: nat, pe: nat)
    requires pe + 7 <= |s| && pe < p + 8
    ensures Headers(Statements(s, p, pe)) == []
    decreases pe - p
  {
    if p < pe {
      if IsPrintf(s, p) {
        HeadersFirst([], Statements(s, p + 8 + 1, pe));
        LateStatements(s, p + 8 + 1, pe);
      } else {
        LateStatements(s, p + 1, pe);
      }
    }
  }

  lemma {:induction false} DecodeAlike(s: seq<byte>, t: seq<byte>, p: nat, pe: nat)
    requires pe <= |s| && pe <= |t| && s[..pe] == t[..pe]
    ensures Decode(s, p, pe) == Decode(t, p, pe)
    decreases pe - p
  {
    if p + 3 < pe {
      assert forall k :: 0 <= k < pe ==> s[k] == s[..pe][k] && t[k] == t[..pe][k];
      if s[p] != QUOTE {
        DecodeAlike(s, t, Unit(s, p).1, pe);
      }
    }
  }

  /** The headers do not depend on the up to seven bytes past the end that the
      comparison reads: outside the buffer, for a file that fills it. */
  lemma {:induction false} HeadersIgnoreBeyond(s: seq<byte>, t: seq<byte>, p: nat, pe: nat)
    requires pe + 7 <= |s| && pe + 7 <= |t| && s[..pe] == t[..pe]
    ensures Headers(Statements(s, p, pe)) == Headers(Statements(t, p, pe))
    decreases pe - p
  {
    if pe < p + 8 {
      LateStatements(s, p, pe);
      LateStatements(t, p, pe);
    } else {
      SamePrintf(s, t, p, pe);
      if IsPrintf(s, p) {
        DecodeAlike(s, t, p + 8, pe);
        var q := Decode(s, p + 8, pe).1 + 1;
        HeadersIgnoreBeyond(s, t, q, pe);
        SplitHeaders(s, p, pe);
        SplitHeaders(t, p, pe);
      } else {
        HeadersIgnoreBeyond(s, t, p + 1, pe);
        assert Statements(s, p, pe) == Statements(s, p + 1, pe) && Statements(t, p, pe) == Statements(t, p + 1, pe);
      }
    }
  }

  lemma SamePrintf(s: seq<byte>, t: seq<byte>, p: nat, pe: nat)
    requires pe <= |s| && pe <= |t| && s[..pe] == t[..pe] && p + 8 <= pe
    ensures IsPrintf(s, p) <==> IsPrintf(t, p)
  {
    assert forall k :: 0 <= k < pe ==> s[k] == s[..pe][k] && t[k] == t[..pe][k];
  }

  lemma SplitHeaders(s: seq<byte>, p: nat, pe: nat)
    requires pe + 7 <= |s| && p < pe && IsPrintf(s, p)
    ensures var d := Decode(s, p + 8, pe);
      Headers(Statements(s, p, pe)) == (if |d.0| >= EHDR_SIZE then [d.0] else []) + Headers(Statements(s, d.1 + 1, pe))
  {
    var d := Decode(s, p + 8, pe);
    HeadersFirst(d.0, Statements(s, d.1 + 1, pe));
  }

  // ----- decoding in place -----

  /** The inner loop.  The write index stays below the read index, so what is still
      to be read is what the file held. */
  method DecodeStatement(buf: array<byte>, p0: nat, pe: nat, ghost s: seq<byte>) returns (i: nat, p: nat)
    requires |s| == buf.Length && 8 <= p0 && pe <= buf.Length && pe <= BUF_SIZE
    requires forall k :: p0 <= k < buf.Length ==> buf[k] == s[k]
    modifies buf
    ensures i <= buf.Length && (buf[..i], p) == Decode(s, p0, pe)
    ensures forall k :: i <= k < buf.Length ==> buf[k] == old(buf[k])
    ensures i + 8 <= p
  {
    i, p := 0, p0;
    ghost var full := Decode(s, p0, pe);
    assert buf[..0] + full.0 == full.0;
    while p + 3 < pe
      invariant i + 8 <= p && i <= buf.Length && p0 <= p
      invariant forall k :: i <= k < buf.Length ==> buf[k] == old(buf[k])
      invariant full == (buf[..i] + Decode(s, p, pe).0, Decode(s, p, pe).1)
      decreases pe - p
    {
      ghost var done, rest := buf[..i], Decode(s, p, pe);
      if buf[p] == QUOTE {
        p := p + 1;
        assert done + [] == done;
        return;
      }
      var c;
      c, p := ReadUnit(buf, p, s);
      buf[i] := c;
      assert buf[..i + 1] == done + [c];
      Reassociate(done, c, Decode(s, p, pe).0);
      i := i + 1;
      if i >= BUF_SIZE {
        assert false;
      }
    }
    assert buf[..i] + [] == buf[..i];
  }

  lemma Reassociate<T>(a: seq<T>, x: T, b: seq<T>)
    ensures a + ([x] + b) == (a + [x]) + b
  {
  }

  method ReadUnit(buf: array<byte>, p0: nat, ghost s: seq<byte>) returns (b: byte, p: nat)
    requires |s| == buf.Length && p0 + 3 < buf.Length && forall k :: p0 <= k < buf.Length ==> buf[k] == s[k]
    ensures (b, p) == Unit(s, p0)
  {
    assert buf[p0] == s[p0] && buf[p0 + 1] == s[p0 + 1] && buf[p0 + 2] == s[p0 + 2] && buf[p0 + 3] == s[p0 + 3];
    var c: int := buf[p0];
    p := p0 + 1;
    if c == BACKSLASH {
      if 48 <= buf[p] <= 55 {
        c := buf[p] - 48;
        p := p + 1;
        if 48 <= buf[p] <= 55 {
          c := c * 8;
          c := c + (buf[p] - 48);
          p := p + 1;
          if 48 <= buf[p] <= 55 {
            c := c * 8;
            c := c + (buf[p] - 48);
            p := p + 1;
          }
        }
      }
    }
    b := c % 256;
  }

  method ReadsPrintf(buf: array<byte>, p: nat, ghost s: seq<byte>) returns (found: bool)
    requires |s| == buf.Length && p + 8 <= buf.Length && forall k :: p <= k < buf.Length ==> buf[k] == s[k]
    ensures found == IsPrintf(s, p)
  {
    found :=
      && buf[p] == 112 && buf[p + 1] == 114 && buf[p + 2] == 105 && buf[p + 3] == 110
      && buf[p + 4] == 116 && buf[p + 5] == 102 && buf[p + 6] == 32 && buf[p + 7] == 39;
  }

  /** One statement, with what it makes of the list of headers and of the buffer. */
  method Overwrite(buf: array<byte>, p0: nat, pe: nat, ghost s: seq<byte>, ghost sts: seq<seq<byte>>)
    returns (i: nat, p: nat, ghost st: seq<byte>)
    requires |s| == buf.Length && 8 <= p0 && pe <= buf.Length && pe <= BUF_SIZE
    requires forall k :: p0 <= k < buf.Length ==> buf[k] == s[k]
    requires buf[..] == Patched(s, sts)
    modifies buf
    ensures i <= buf.Length && st == buf[..i] && (st, p) == Decode(s, p0, pe) && i + 8 <= p
    ensures forall k :: i <= k < buf.Length ==> buf[k] == old(buf[k])
    ensures buf[..] == Patched(s, sts + [st])
    ensures Headers(sts + [st]) == if i >= EHDR_SIZE then Headers(sts) + [st] else Headers(sts)
  {
    i, p := DecodeStatement(buf, p0, pe, s);
    st := buf[..i];
    assert buf[..] == st + old(buf[..])[i..];
    Snoc(s, sts, st);
  }

  /** The outer loop: the same headers, in the same order, as from a copy.  The array is
      the buffer and the seven bytes after it, which the comparison may read. */
  method ScanHeaders(buf: array<byte>, pe: nat) returns (headers: seq<seq<byte>>)
    requires pe + 7 <= buf.Length && pe <= BUF_SIZE
    modifies buf
    ensures headers == Headers(Statements(old(buf[..]), 0, pe))
    ensures buf[..] == Patched(old(buf[..]), Statements(old(buf[..]), 0, pe))
  {
    ghost var s := buf[..];
    ghost var sts, rest := [], Statements(s, 0, pe);
    headers := [];
    var p := 0;
    assert sts + rest == Statements(s, 0, pe);
    while p < pe
      invariant forall k :: p <= k < buf.Length ==> buf[k] == s[k]
      invariant sts + rest == Statements(s, 0, pe) && rest == Statements(s, p, pe)
      invariant headers == Headers(sts) && buf[..] == Patched(s, sts)
      decreases pe - p
    {
      NextStatement(s, p, pe, sts, rest);
      var found := ReadsPrintf(buf, p, s);
      if found {
        var i;
        ghost var st;
        i, p, st := Overwrite(buf, p + 8, pe, s, sts);
        sts, rest := sts + [st], Statements(s, p + 1, pe);
        if i >= EHDR_SIZE {
          headers := headers + [buf[..i]];
        }
      }
      p := p + 1;
    }
    assert sts + [] == sts;
  }

  // ----- encoding -----

  function BcoOctet(x: nat): nat {
    x % 8 + 48
  }

  /** A byte as a 32-bit word whose bytes in memory are a backslash and three octal
      digits. */
  function BcobUnit(x: nat): nat {
    BcoOctet(x) * 0x1000000 + BcoOctet(x / 8) * 0x10000 + BcoOctet(x % 256 / 64) * 0x100 + 0x5c
  }

  /** The words `PFBYTE(SYM, X, 0)` to `PFBYTE(SYM, X, n - 1)` as laid out in memory. */
  function PfStub(x: nat, n: nat): seq<byte> {
    if n == 0 then [] else ToLe(BcobUnit(x), 4) + PfStub(x / 256, n - 1)
  }

  lemma UnitText(x: nat)
    ensures ToLe(BcobUnit(x), 4) == [BACKSLASH, BcoOctet(x % 256 / 64), BcoOctet(x / 8), BcoOctet(x)]
  {
    var w := BcobUnit(x);
    assert w / 256 / 256 / 256 == BcoOctet(x);
    assert w / 256 / 256 % 256 == BcoOctet(x / 8);
    assert w / 256 % 256 == BcoOctet(x % 256 / 64);
    assert ToLe(w, 4) == [w % 256] + ToLe(w / 256, 3);
    assert ToLe(w / 256, 3) == [w / 256 % 256] + ToLe(w / 256 / 256, 2);
    assert ToLe(w / 256 / 256, 2) == [w / 256 / 256 % 256] + ToLe(w / 256 / 256 / 256, 1);
  }

  lemma OctalDigits(x: nat)
    ensures x % 256 / 64 * 64 + x / 8 % 8 * 8 + x % 8 == x % 256
    ensures x % 256 / 64 < 4
  {
    var y := x % 256;
    var z := y % 64;
    Eighths(x, 32 * (x / 256) + 8 * (y / 64) + z / 8, z % 8);
    Eighths(x / 8, 4 * (x / 256) + y / 64, z / 8);
  }

  lemma Eighths(x: nat, q: nat, r: nat)
    requires x == 8 * q + r && r < 8
    ensures x / 8 == q && x % 8 == r
  {
  }

  lemma ThreeDigits(s: seq<byte>, p: nat, a: nat, b: nat, c: nat)
    requires p + 4 <= |s| && a < 8 && b < 8 && c < 8
    requires s[p] == BACKSLASH && s[p + 1] == 48 + a && s[p + 2] == 48 + b && s[p + 3] == 48 + c
    ensures Unit(s, p) == ((a * 64 + b * 8 + c) % 256, p + 4)
  {
  }

  lemma UnitAt(s: seq<byte>, p: nat, x: nat)
    requires p + 4 <= |s| && s[p..p + 4] == ToLe(BcobUnit(x), 4)
    ensures Unit(s, p) == (x % 256, p + 4) && s[p] != QUOTE
  {
    UnitText(x);
    OctalDigits(x);
    var t := s[p..p + 4];
    assert s[p] == t[0] && s[p + 1] == t[1] && s[p + 2] == t[2] && s[p + 3] == t[3];
    var a, b, c := x % 256 / 64, x / 8 % 8, x % 8;
    ThreeDigits(s, p, a, b, c);
    assert a * 64 + b * 8 + c == x % 256;
  }

  /** Decoding what the macros encode gives the bytes back, whatever follows the
      closing quote. */
  lemma {:induction false} DecodeEncode(pre: seq<byte>, x: nat, n: nat, rest: seq<byte>)
    ensures var s := pre + PfStub(x, n) + [QUOTE] + rest; Decode(s, |pre|, |s|).0 == ToLe(x, n)
    decreases n
  {
    var s := pre + PfStub(x, n) + [QUOTE] + rest;
    if n > 0 {
      var u := ToLe(BcobUnit(x), 4);
      UnitText(x);
      assert s == pre + u + PfStub(x / 256, n - 1) + [QUOTE] + rest;
      DecodeEncode(pre + u, x / 256, n - 1, rest);
      assert s[|pre|..|pre| + 4] == u;
      UnitAt(s, |pre|, x);
    } else {
      assert s[|pre|] == QUOTE;
    }
  }
}
