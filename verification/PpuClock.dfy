/** The scanline clock of the picture processing unit.  The display registers may have
    any value at any tick. */
module PpuClock {

  const DYN := 240
  const LINE := 341
  const FRAME := 89342

  /** The registers a tick looks at, and whether the program read the status register
      since the last tick. */
  datatype Regs = Regs(showBG: bool, showSP: bool, statusRead: bool)

  datatype Clock = Clock(x: int, scanline: int, scanlineEnd: int, evenOdd: bool, vblank: int)

  const START := Clock(0, 241, LINE, false, 0)

  function CountDown(v: int): int { if v == 0 then 0 else if v < 0 then v + 1 else v - 1 }

  /** Line -1 loses its last pixel if this is seen at x = 337. */
  predicate Shortens(s: Clock, r: Regs) { s.x == 337 && s.scanline == -1 && s.evenOdd && r.showBG }

  function Next(s: Clock, r: Regs): Clock {
    var end := if s.scanline < DYN && (r.showBG || r.showSP) && Shortens(s, r) then 340 else s.scanlineEnd;
    var v := CountDown(s.vblank);
    if s.x + 1 < end then Clock(s.x + 1, s.scanline, end, s.evenOdd, v)
    else if s.scanline + 1 == 261 then Clock(0, -1, LINE, !s.evenOdd, -5)
    else if s.scanline + 1 == 241 then Clock(0, 241, LINE, s.evenOdd, 2)
    else Clock(0, s.scanline + 1, LINE, s.evenOdd, v)
  }

  /** Reading the status cancels the counter, unless the flag is about to be cleared. */
  function Polled(s: Clock, r: Regs): Clock {
    if r.statusRead && s.vblank != -5 then s.(vblank := 0) else s
  }

  class Ppu {
    var x_: int
    var scanline: int
    var scanlineEnd: int
    var evenOddToggle: bool
    var vBlankState: int
    var cycleCounter: nat

    ghost function State(): Clock
      reads this
    {
      Clock(x_, scanline, scanlineEnd, evenOddToggle, vBlankState)
    }

    constructor ()
      ensures State() == START && cycleCounter == 0
    {
      x_, scanline, scanlineEnd, evenOddToggle, vBlankState, cycleCounter := 0, 241, 341, false, 0, 0;
    }

    method ReadStatus()
      modifies this`vBlankState
      ensures forall r: Regs :: r.statusRead ==> State() == Polled(old(State()), r)
    {
      if vBlankState != -5 {
        vBlankState := 0;
      }
    }

    /** The clock part of `RenderingTick`. */
    method RenderingTick(reg: Regs)
      modifies this`scanlineEnd
      ensures scanlineEnd == if Shortens(old(State()), reg) then 340 else old(scanlineEnd)
    {
      if x_ % 8 == 1 {
        if x_ == 337 && scanline == -1 && evenOddToggle && reg.showBG {
          scanlineEnd := 340;
        }
      }
    }

    /** `setFlag` and `clearFlag` tell whether this tick raises or clears the vertical
        blanking flag. */
    method Tick(reg: Regs) returns (setFlag: bool, clearFlag: bool)
      requires cycleCounter < 3
      modifies this
      ensures State() == Next(old(State()), reg)
      ensures setFlag == (old(vBlankState) == 2) && clearFlag == (old(vBlankState) == -5)
      ensures cycleCounter == (old(cycleCounter) + 1) % 3
    {
      setFlag, clearFlag := vBlankState == 2, vBlankState == -5;
      if vBlankState != 0 {
        vBlankState := vBlankState + (if vBlankState < 0 then 1 else -1);
      }
      if scanline < DYN {
        if reg.showBG || reg.showSP {
          RenderingTick(reg);
        }
      }
      cycleCounter := cycleCounter + 1;
      if cycleCounter == 3 {
        cycleCounter := 0;
      }
      x_ := x_ + 1;
      if x_ >= scanlineEnd {
        scanlineEnd := 341;
        x_ := 0;
        scanline := scanline + 1;
        if scanline == 261 {
          scanline := -1;
          evenOddToggle := !evenOddToggle;
          vBlankState := -5;
        } else if scanline == 241 {
          vBlankState := 2;
        }
      }
    }
  }

  // ----- runs -----

  /** The clock after the first k ticks of a run. */
  function After(s: Clock, rs: seq<Regs>, k: nat): Clock
    requires k <= |rs|
  {
    if k == 0 then s else Next(Polled(After(s, rs, k - 1), rs[k - 1]), rs[k - 1])
  }

  /** The counter of the vertical blanking flag at a position. */
  function VBlankAt(scanline: int, x: int): int {
    if scanline == 241 && x < 2 then 2 - x else if scanline == -1 && x < 5 then x - 5 else 0
  }

  /** What holds between ticks, on every run. */
  predicate Sound(s: Clock) {
    && -1 <= s.scanline <= 260 && 0 <= s.x < s.scanlineEnd
    && (s.scanlineEnd == 341 || (s.scanlineEnd == 340 && s.scanline == -1 && 338 <= s.x && s.evenOdd))
  }

  lemma {:induction false} AlwaysSound(rs: seq<Regs>, k: nat)
    requires k <= |rs|
    ensures Sound(After(START, rs, k))
    ensures var s := After(START, rs, k); k >= 2 ==> s.vblank == VBlankAt(s.scanline, s.x) || (s.vblank == 0 && s.x > 0)
    ensures k < 2 ==> After(START, rs, k) == START.(x := k)
  {
    if k > 0 { AlwaysSound(rs, k - 1); }
  }

  /** On every run the tick at the start of line -1 clears the blanking flag, whatever the
      program reads, and the tick at the start of line 241 raises it, unless the program
      reads the status just before; no other tick does. */
  lemma FlagTicks(rs: seq<Regs>, k: nat)
    requires 1 <= k < |rs|
    ensures var s := Polled(After(START, rs, k), rs[k]);
      && (s.vblank == -5 <==> s.scanline == -1 && s.x == 0)
      && (s.vblank == 2 <==> s.scanline == 241 && s.x == 0 && !rs[k].statusRead)
  {
    AlwaysSound(rs, k);
  }

  // ----- one pass over the picture -----

  /** The start of a pass: scanline -1, x 0. */
  predicate Begins(s: Clock) { s.x == 0 && s.scanline == -1 && s.scanlineEnd == LINE }

  /** Whether a pass is short. */
  predicate Short(s: Clock, rs: seq<Regs>)
    requires |rs| > 337
  {
    s.evenOdd && rs[337].showBG
  }

  function Length(s: Clock, rs: seq<Regs>): nat
    requires |rs| > 337
  {
    if Short(s, rs) then FRAME - 1 else FRAME
  }

  /** The position on the picture after k ticks of a pass. */
  function Position(s: Clock, rs: seq<Regs>, k: nat): nat
    requires |rs| > 337
  {
    if Short(s, rs) && k >= 340 then k + 1 else k
  }

  lemma {:induction false} DuringPass(s: Clock, rs: seq<Regs>, k: nat)
    requires Begins(s) && FRAME <= |rs| && k < Length(s, rs)
    ensures var t, p := After(s, rs, k), Position(s, rs, k);
      && t.scanline == p / LINE - 1 && t.x == p % LINE && t.evenOdd == s.evenOdd
      && t.scanlineEnd == if Short(s, rs) && 338 <= k < 340 then 340 else LINE
  {
    if k > 0 {
      DuringPass(s, rs, k - 1);
    }
  }

  /** A pass takes 89342 ticks, or 89341 if it is short; only then does the clock come
      back to where it was, with the toggle inverted. */
  lemma OnePass(s: Clock, rs: seq<Regs>, k: nat)
    requires Begins(s) && FRAME <= |rs|
    ensures var n := Length(s, rs);
      && Begins(After(s, rs, n)) && After(s, rs, n).evenOdd == !s.evenOdd
      && (0 < k < n ==> !Begins(After(s, rs, k)))
  {
    var n := Length(s, rs);
    DuringPass(s, rs, n - 1);
    if 0 < k < n {
      DuringPass(s, rs, k);
    }
  }

  lemma {:induction false} AfterMore(s: Clock, rs: seq<Regs>, n: nat, k: nat)
    requires n + k <= |rs|
    ensures After(s, rs, n + k) == After(After(s, rs, n), rs[n..], k)
  {
    if k > 0 { AfterMore(s, rs, n, k - 1); }
  }

  /** Of two passes in a row at most one is short. */
  lemma TwoPasses(s: Clock, rs: seq<Regs>)
    requires Begins(s) && 2 * FRAME <= |rs|
    ensures var n := Length(s, rs); var t := After(s, rs, n); var m := Length(t, rs[n..]);
      && Begins(After(s, rs, n + m)) && After(s, rs, n + m).evenOdd == s.evenOdd
      && 2 * FRAME - 1 <= n + m <= 2 * FRAME
  {
    var n := Length(s, rs);
    OnePass(s, rs, 0);
    var t := After(s, rs, n);
    OnePass(t, rs[n..], 0);
    AfterMore(s, rs, n, Length(t, rs[n..]));
  }

  /** From power-up, in the middle of line 241, the first pass begins after twenty lines,
      with the toggle set. */
  lemma {:induction false} PowerUp(rs: seq<Regs>, k: nat)
    requires k <= 20 * LINE <= |rs|
    ensures var t := After(START, rs, k);
      && t.scanlineEnd == LINE
      && (k < 20 * LINE ==> t.scanline == 241 + k / LINE && t.x == k % LINE && !t.evenOdd)
      && (k == 20 * LINE ==> Begins(t) && t.evenOdd)
  {
    if k > 0 { PowerUp(rs, k - 1); }
  }

  /** The tick at which pass p begins, counted from the start of pass 0. */
  function PassStart(s: Clock, rs: seq<Regs>, p: nat): (q: nat)
    requires p * FRAME <= |rs|
    ensures q <= p * FRAME
  {
    if p == 0 then 0
    else
      var q := PassStart(s, rs, p - 1);
      q + Length(After(s, rs, q), rs[q..])
  }

  /** Every pass of every run: with the toggle set at the start, odd passes are full, so
      of the first p at most every second one is short. */
  lemma {:induction false} EveryPass(s: Clock, rs: seq<Regs>, p: nat)
    requires Begins(s) && s.evenOdd && p * FRAME <= |rs|
    ensures var t := After(s, rs, PassStart(s, rs, p)); Begins(t) && (t.evenOdd <==> p % 2 == 0)
    ensures PassStart(s, rs, p) >= p * FRAME - (p + 1) / 2
    ensures p > 0 && p % 2 == 0 ==> PassStart(s, rs, p) == PassStart(s, rs, p - 1) + FRAME
  {
    if p > 0 {
      EveryPass(s, rs, p - 1);
      NextPass(s, rs, PassStart(s, rs, p - 1));
    }
  }

  lemma NextPass(s: Clock, rs: seq<Regs>, q: nat)
    requires q + FRAME <= |rs| && Begins(After(s, rs, q))
    ensures var t := After(s, rs, q); var n := Length(t, rs[q..]);
      && Begins(After(s, rs, q + n)) && After(s, rs, q + n).evenOdd == !t.evenOdd
      && FRAME - 1 <= n <= FRAME && (!t.evenOdd ==> n == FRAME)
  {
    var t := After(s, rs, q);
    OnePass(t, rs[q..], 0);
    AfterMore(s, rs, q, Length(t, rs[q..]));
  }
}
