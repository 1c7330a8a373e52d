/**
 The firmware write callback of example/mscboot/fakefat32.c: an event-driven machine that erases and programs flash
 block by block, and keeps its "erase done" flag in bit 0 of the length it has written.
 */
module FirmwareWrite {
  import opened Basics
  import opened Bits

  /** A flash byte; programming a byte that is not erased does not give the value written. */
  datatype Cell = Erased | Data(b: nat) | Corrupt

  /**
   The persistent frame of the callback and the flash: address, position in the buffer, bytes left, bytes written
   with the flag in bit 0, and a log of the erased blocks.
   */
  datatype Writer = Writer(offset: nat, taken: nat, size: nat, wsize: nat, flash: seq<Cell>, erases: seq<nat>)

  /** Erase alignment (also the erase block) and write block; a write block of 0 means the whole request. */
  datatype Config = Config(align: nat, writeBlock: nat)

  function Block(cfg: Config, s: Writer): nat {
    if cfg.writeBlock == 0 then s.size else cfg.writeBlock
  }

  function Erase(flash: seq<Cell>, at: nat, n: nat): (r: seq<Cell>)
  {
    seq(|flash|, i requires 0 <= i < |flash| => if at <= i < at + n then Erased else flash[i])
  }

  function Program(flash: seq<Cell>, at: nat, data: seq<nat>): (r: seq<Cell>)
  {
    seq(|flash|, i requires 0 <= i < |flash| =>
      if at <= i < at + |data| then (if flash[i] == Erased then Data(data[i - at]) else Corrupt) else flash[i])
  }

  /** One event of the callback while bytes are left. */
  function Step(cfg: Config, s: Writer, buff: seq<nat>): (r: Writer)
    requires 0 < s.size && cfg.align > 0 && s.taken + s.size == |buff| && Block(cfg, s) <= s.size
  {
    if s.wsize % 2 == 0 && Aligned(s.offset, cfg.align) then
      s.(wsize := s.wsize + 1, flash := Erase(s.flash, s.offset, cfg.align), erases := s.erases + [s.offset])
    else
      var n := Block(cfg, s);
      Writer(s.offset + n, s.taken + n, s.size - n, s.wsize - s.wsize % 2 + n,
             Program(s.flash, s.offset, buff[s.taken..s.taken + n]), s.erases)
  }

  /** What the board configuration provides, in units of the write block `w`. */
  ghost predicate Setup(cfg: Config, buff: seq<nat>, w: nat, m: nat, n: nat) {
    && w > 0 && m > 0 && n > 0 && cfg.align == Span(w, m) && |buff| == Span(w, n)
    && (cfg.writeBlock == w || (cfg.writeBlock == 0 && n == 1)) && (exists e: nat :: cfg.align == Pow2(e))
  }

  /** And what the callers provide: `n` blocks from block `p` on, erased as far as the first boundary. */
  ghost predicate Request(cfg: Config, s: Writer, buff: seq<nat>, w: nat, m: nat, p: nat, n: nat) {
    && Setup(cfg, buff, w, m, n)
    && s == Writer(Span(w, p), 0, |buff|, 0, s.flash, [])
    && Span(w, p + n) + cfg.align <= |s.flash|
    && forall i :: Span(w, p) <= i < Span(w, p + n) && i < NextBoundary(cfg, Span(w, p)) ==> s.flash[i] == Erased
  }

  /** The first erase boundary at or after an address. */
  function NextBoundary(cfg: Config, a: nat): nat
    requires cfg.align > 0
  {
    if Rem(a, cfg.align) == 0 then a else a - Rem(a, cfg.align) + cfg.align
  }

  // ---------- block arithmetic ----------

  /** The bytes of `k` write blocks. */
  function Span(w: nat, k: nat): nat {
    if k == 0 then 0 else Span(w, k - 1) + w
  }

  lemma {:induction false} SpanAdd(w: nat, a: nat, b: nat)
    ensures Span(w, a + b) == Span(w, a) + Span(w, b)
  {
    if b > 0 { SpanAdd(w, a, b - 1); }
  }

  lemma SpanStrict(w: nat, a: nat, b: nat)
    requires a < b
    ensures Span(w, a) + w <= Span(w, b)
  {
    SpanAdd(w, a + 1, b - a - 1);
  }

  /** The test of the code. */
  predicate Aligned(a: nat, n: nat)
    requires n > 0
  {
    And(a, n - 1) == 0
  }

  /** For the powers of two that flash alignments are, it asks whether the remainder is zero. */
  lemma AlignedIsRem(a: nat, n: nat)
    requires n > 0 && exists e: nat :: n == Pow2(e)
    ensures Aligned(a, n) <==> Rem(a, n) == 0
  {
    var e: nat :| n == Pow2(e);
    OnesIsMask(e);
    forall j: nat ensures Bit(And(a, n - 1), j) <==> Bit(a % n, j) {
      BitAnd(a, n - 1, j);
      BitOnes(e, j);
      BitMod(a, e, j);
    }
    SameBits(And(a, n - 1), a % n);
    RemIsMod(a, n);
  }

  lemma {:induction false} OnesIsMask(e: nat)
    ensures Ones(e) == Pow2(e) - 1
  {
    if e > 0 { OnesIsMask(e - 1); }
  }

  /** The remainder, by subtraction. */
  function Rem(a: nat, n: nat): (r: nat)
    requires n > 0
    ensures r < n && r <= a
  {
    if a < n then a else Rem(a - n, n)
  }

  lemma {:induction false} RemIsMod(a: nat, n: nat)
    requires n > 0
    ensures Rem(a, n) == a % n
  {
    if a >= n {
      RemIsMod(a - n, n);
      assert a == n * ((a - n) / n + 1) + (a - n) % n;
      DivModUnique(a, n, (a - n) / n + 1, (a - n) % n);
    } else {
      DivModUnique(a, n, 0, a);
    }
  }

  /** Counting in write blocks: block `p` starts an erase block exactly when `m` divides `p`. */
  lemma {:induction false} BlockMod(w: nat, m: nat, p: nat)
    requires w > 0 && m > 0
    ensures Span(w, m) > 0 && Rem(Span(w, p), Span(w, m)) == Span(w, Rem(p, m))
    ensures Span(w, Rem(p, m)) == 0 <==> Rem(p, m) == 0
    decreases p
  {
    SpanStrict(w, 0, m);
    if p < m {
      SpanStrict(w, p, m);
    } else {
      SpanAdd(w, p - m, m);
      BlockMod(w, m, p - m);
    }
  }

  /** A write block that does not start an erase block ends before the next boundary. */
  lemma BlockFits(cfg: Config, w: nat, m: nat, p: nat)
    requires w > 0 && m > 0 && cfg.align == Span(w, m)
    ensures cfg.align > 0
    ensures Rem(p, m) != 0 ==> Span(w, p + 1) <= NextBoundary(cfg, Span(w, p))
    ensures Rem(p, m) != 0 && Rem(p + 1, m) != 0 ==> NextBoundary(cfg, Span(w, p + 1)) == NextBoundary(cfg, Span(w, p))
    ensures Rem(p, m) != 0 && Rem(p + 1, m) == 0 ==> NextBoundary(cfg, Span(w, p)) == Span(w, p + 1)
  {
    BlockMod(w, m, p);
    BlockMod(w, m, p + 1);
    ModNext(p, m);
    SpanStrict(w, Rem(p, m), m);
  }

  lemma {:induction false} ModNext(p: nat, m: nat)
    requires m > 0
    ensures Rem(p + 1, m) == if Rem(p, m) + 1 == m then 0 else Rem(p, m) + 1
  {
    if p >= m { ModNext(p - m, m); }
  }

  /** A boundary below an address is at least one erase block below the next boundary after it. */
  lemma {:induction false} BoundaryAfter(cfg: Config, a: nat, b: nat)
    requires cfg.align > 0 && Rem(a, cfg.align) == 0 && a < b
    ensures a + cfg.align <= NextBoundary(cfg, b)
  {
    if a >= cfg.align {
      BoundaryAfter(cfg, a - cfg.align, b - cfg.align);
    }
  }

  lemma BoundaryAtLeast(cfg: Config, a: nat)
    requires cfg.align > 0
    ensures NextBoundary(cfg, a) >= a
  {
  }

  // ---------- the state after k blocks ----------

  /** The aligned blocks among the first `j` write blocks, in order. */
  function Boundaries(w: nat, m: nat, p: nat, j: nat): seq<nat>
    requires m > 0
  {
    if j == 0 then []
    else Boundaries(w, m, p, j - 1) + (if Rem(p + j - 1, m) == 0 then [Span(w, p + j - 1)] else [])
  }

  function Front(cfg: Config, at: nat, erased: bool): nat
    requires cfg.align > 0
  {
    if erased then at + cfg.align else NextBoundary(cfg, at)
  }

  /** The flash when the blocks before `at` are written and the erased area reaches to `front`. */
  ghost predicate FlashAt(flash: seq<Cell>, flash0: seq<Cell>, buff: seq<nat>, start: nat, at: nat, end: nat,
                          front: nat, beyond: nat)
    requires start <= at && end == start + |buff| && at <= end
  {
    && |flash| == |flash0|
    && (forall i :: 0 <= i < |flash| && (i < start || beyond <= i) ==> flash[i] == flash0[i])
    && (forall i :: start <= i < at && i < |flash| ==> flash[i] == Data(buff[i - start]))
    && (forall i :: at <= i < end && i < front && i < |flash| ==> flash[i] == Erased)
  }

  /** The frame of the callback after `k` blocks, and with the next one erased if `f`. */
  ghost predicate Progress(s: Writer, w: nat, m: nat, p: nat, n: nat, k: nat, f: bool)
    requires m > 0
  {
    && k <= n && s.offset == Span(w, p + k) && s.taken == Span(w, k) && s.size == Span(w, n - k)
    && s.wsize == Span(w, k) + (if f then 1 else 0)
    && (f ==> k < n && Rem(p + k, m) == 0)
    && s.erases == Boundaries(w, m, p, if f then k + 1 else k)
  }

  /** The flash after `k` blocks. */
  ghost predicate FlashOk(cfg: Config, flash: seq<Cell>, flash0: seq<Cell>, buff: seq<nat>, w: nat, p: nat, n: nat,
                          k: nat, f: bool)
  {
    && cfg.align > 0
    && Span(w, p) <= Span(w, p + k) <= Span(w, p + n) && Span(w, p + n) == Span(w, p) + |buff|
    && FlashAt(flash, flash0, buff, Span(w, p), Span(w, p + k), Span(w, p + n), Front(cfg, Span(w, p + k), f),
               NextBoundary(cfg, Span(w, p + n)))
  }

  ghost predicate At(cfg: Config, s: Writer, s0: Writer, buff: seq<nat>, w: nat, m: nat, p: nat, n: nat, k: nat,
                     f: bool)
  {
    m > 0 && Progress(s, w, m, p, n, k, f) && FlashOk(cfg, s.flash, s0.flash, buff, w, p, n, k, f)
  }

  lemma {:induction false} EvenSpan(w: nat, k: nat)
    requires w % 2 == 0
    ensures Span(w, k) % 2 == 0
  {
    if k > 0 {
      EvenSpan(w, k - 1);
      var a, b := Span(w, k - 1) / 2, w / 2;
      assert Span(w, k - 1) == 2 * a && w == 2 * b && Span(w, k) == 2 * (a + b);
    }
  }

  lemma Blocks(w: nat, p: nat, n: nat, k: nat)
    requires k <= n
    ensures Span(w, p) <= Span(w, p + k) <= Span(w, p + n)
    ensures Span(w, p + n) == Span(w, p) + Span(w, n) && Span(w, p + k) == Span(w, p) + Span(w, k)
    ensures Span(w, n - k) == Span(w, n) - Span(w, k)
    ensures k < n ==> Span(w, n - k) >= w
    ensures k < n ==> Span(w, p + k + 1) == Span(w, p + k) + w && Span(w, k + 1) == Span(w, k) + w
  {
    SpanAdd(w, p, k);
    SpanAdd(w, p, n);
    SpanAdd(w, k, n - k);
  }

  lemma StartAt(cfg: Config, s: Writer, buff: seq<nat>, w: nat, m: nat, p: nat, n: nat)
    requires Request(cfg, s, buff, w, m, p, n)
    ensures At(cfg, s, s, buff, w, m, p, n, 0, false)
  {
    Blocks(w, p, n, 0);
  }

  /** The next write block is there to be written. */
  lemma FitsRequest(cfg: Config, s: Writer, buff: seq<nat>, w: nat, m: nat, n: nat, k: nat)
    requires Setup(cfg, buff, w, m, n) && k < n && s.size == Span(w, n - k) && s.taken == Span(w, k)
    ensures Block(cfg, s) == w <= s.size && s.taken + s.size == |buff|
  {
    SpanAdd(w, k, n - k);
    SpanStrict(w, 0, n - k);
    if cfg.writeBlock == 0 { assert Span(w, 1) == w; }
  }

  /** The frame after the event that erases the next block. */
  lemma EraseProgress(cfg: Config, s: Writer, buff: seq<nat>, w: nat, m: nat, p: nat, n: nat, k: nat)
    requires Setup(cfg, buff, w, m, n) && Progress(s, w, m, p, n, k, false)
    requires w % 2 == 0 && k < n && Rem(p + k, m) == 0
    ensures 0 < s.size && s.taken + s.size == |buff| && Block(cfg, s) <= s.size
    ensures var r := Step(cfg, s, buff);
      Progress(r, w, m, p, n, k, true) && r.flash == Erase(s.flash, Span(w, p + k), cfg.align)
  {
    FitsRequest(cfg, s, buff, w, m, n, k);
    EvenSpan(w, k);
    BlockMod(w, m, p + k);
    AlignedIsRem(s.offset, cfg.align);
  }

  lemma EraseStep(cfg: Config, s: Writer, s0: Writer, buff: seq<nat>, w: nat, m: nat, p: nat, n: nat, k: nat)
    requires Setup(cfg, buff, w, m, n) && At(cfg, s, s0, buff, w, m, p, n, k, false)
    requires w % 2 == 0 && k < n && Rem(p + k, m) == 0
    ensures 0 < s.size && s.taken + s.size == |buff| && Block(cfg, s) <= s.size
    ensures At(cfg, Step(cfg, s, buff), s0, buff, w, m, p, n, k, true)
  {
    EraseProgress(cfg, s, buff, w, m, p, n, k);
    EraseOk(cfg, s.flash, s0.flash, buff, w, m, p, n, k);
  }

  lemma EraseOk(cfg: Config, flash: seq<Cell>, flash0: seq<Cell>, buff: seq<nat>, w: nat, m: nat, p: nat, n: nat,
                k: nat)
    requires FlashOk(cfg, flash, flash0, buff, w, p, n, k, false)
    requires w > 0 && m > 0 && cfg.align == Span(w, m) && k < n && Rem(p + k, m) == 0
    ensures FlashOk(cfg, Erase(flash, Span(w, p + k), cfg.align), flash0, buff, w, p, n, k, true)
  {
    BlockMod(w, m, p + k);
    SpanStrict(w, p + k, p + n);
    BoundaryAfter(cfg, Span(w, p + k), Span(w, p + n));
    EraseFlash(flash, flash0, buff, Span(w, p), Span(w, p + k), cfg.align, Span(w, p + n),
               NextBoundary(cfg, Span(w, p + k)), NextBoundary(cfg, Span(w, p + n)));
  }

  lemma EraseFlash(flash: seq<Cell>, flash0: seq<Cell>, buff: seq<nat>, start: nat, at: nat, n: nat, end: nat,
                   front: nat, beyond: nat)
    requires start <= at <= end == start + |buff| && at + n <= beyond
    requires FlashAt(flash, flash0, buff, start, at, end, front, beyond)
    ensures FlashAt(Erase(flash, at, n), flash0, buff, start, at, end, at + n, beyond)
  {
  }

  lemma WritesBlock(cfg: Config, s: Writer, buff: seq<nat>, w: nat, m: nat, p: nat, n: nat, k: nat, f: bool)
    requires Setup(cfg, buff, w, m, n) && Progress(s, w, m, p, n, k, f)
    requires w % 2 == 0 && k < n && (f || Rem(p + k, m) != 0)
    ensures 0 < s.size && s.taken + s.size == |buff| && Block(cfg, s) <= s.size && s.taken + w <= |buff| && w <= s.size
    ensures Step(cfg, s, buff) == Writer(s.offset + w, s.taken + w, s.size - w, Span(w, k) + w,
                                         Program(s.flash, s.offset, buff[s.taken..s.taken + w]), s.erases)
  {
    FitsRequest(cfg, s, buff, w, m, n, k);
    assert s.wsize % 2 == (if f then 1 else 0) by { EvenSpan(w, k); }
    assert Aligned(s.offset, cfg.align) <==> Rem(p + k, m) == 0 by {
      BlockMod(w, m, p + k);
      AlignedIsRem(s.offset, cfg.align);
    }
  }

  /** The frame after the event that writes the next block. */
  lemma WriteProgress(cfg: Config, s: Writer, buff: seq<nat>, w: nat, m: nat, p: nat, n: nat, k: nat, f: bool)
    requires Setup(cfg, buff, w, m, n) && Progress(s, w, m, p, n, k, f)
    requires w % 2 == 0 && k < n && (f || Rem(p + k, m) != 0)
    ensures 0 < s.size && s.taken + s.size == |buff| && Block(cfg, s) <= s.size && Span(w, k) + w <= |buff|
    ensures var r := Step(cfg, s, buff);
      && Progress(r, w, m, p, n, k + 1, false)
      && r.flash == Program(s.flash, Span(w, p + k), buff[Span(w, k)..Span(w, k) + w])
  {
    WritesBlock(cfg, s, buff, w, m, p, n, k, f);
    assert s.size - w == Span(w, n - (k + 1)) by { SpanAdd(w, n - k - 1, 1); }
    assert Boundaries(w, m, p, k + 1) == s.erases;
    assert s.offset + w == Span(w, p + (k + 1));
  }

  lemma WriteStep(cfg: Config, s: Writer, s0: Writer, buff: seq<nat>, w: nat, m: nat, p: nat, n: nat, k: nat, f: bool)
    requires Setup(cfg, buff, w, m, n) && At(cfg, s, s0, buff, w, m, p, n, k, f)
    requires w % 2 == 0 && k < n && (f || Rem(p + k, m) != 0)
    ensures 0 < s.size && s.taken + s.size == |buff| && Block(cfg, s) <= s.size
    ensures At(cfg, Step(cfg, s, buff), s0, buff, w, m, p, n, k + 1, false)
  {
    WriteProgress(cfg, s, buff, w, m, p, n, k, f);
    WriteOk(cfg, s.flash, s0.flash, buff, w, m, p, n, k, f, Step(cfg, s, buff).flash);
  }

  lemma WriteOk(cfg: Config, flash: seq<Cell>, flash0: seq<Cell>, buff: seq<nat>, w: nat, m: nat, p: nat, n: nat,
                k: nat, f: bool, r: seq<Cell>)
    requires FlashOk(cfg, flash, flash0, buff, w, p, n, k, f)
    requires w > 0 && m > 0 && cfg.align == Span(w, m) && k < n
    requires (f ==> Rem(p + k, m) == 0) && (f || Rem(p + k, m) != 0)
    requires Span(w, k) + w <= |buff| && r == Program(flash, Span(w, p + k), buff[Span(w, k)..Span(w, k) + w])
    ensures FlashOk(cfg, r, flash0, buff, w, p, n, k + 1, false)
  {
    var at, end := Span(w, p + k), Span(w, p + n);
    WriteSpans(cfg, w, m, p, n, k, f);
    var at' := Span(w, p + (k + 1));
    assert at - Span(w, p) == Span(w, k) && at' - Span(w, p) == Span(w, k) + w;
    WriteFlash(flash, flash0, buff, Span(w, p), at, at', end, Front(cfg, at, f), Front(cfg, at', false),
               NextBoundary(cfg, end), r);
  }

  /** Where block `k` of a request lies. */
  lemma WriteSpans(cfg: Config, w: nat, m: nat, p: nat, n: nat, k: nat, f: bool)
    requires w > 0 && m > 0 && cfg.align == Span(w, m) && k < n
    requires (f ==> Rem(p + k, m) == 0) && (f || Rem(p + k, m) != 0)
    ensures cfg.align > 0 && Span(w, p + k) - Span(w, p) == Span(w, k)
    ensures Span(w, p + k) + w == Span(w, p + (k + 1)) <= Span(w, p + n) <= NextBoundary(cfg, Span(w, p + n))
    ensures var at := Span(w, p + k);
      at + w <= Front(cfg, at, f) && Front(cfg, at + w, false) <= Front(cfg, at, f)
  {
    SpanAdd(w, p, k);
    SpanStrict(w, p + k, p + n);
    FrontMoves(cfg, w, m, p + k, f);
    BoundaryAtLeast(cfg, Span(w, p + n));
  }

  /** Writing a block stays inside the erased area, and what is left of it still reaches to the next boundary. */
  lemma FrontMoves(cfg: Config, w: nat, m: nat, p: nat, f: bool)
    requires w > 0 && m > 0 && cfg.align == Span(w, m) && (f ==> Rem(p, m) == 0) && (f || Rem(p, m) != 0)
    ensures cfg.align > 0
    ensures Span(w, p) + w <= Front(cfg, Span(w, p), f)
    ensures Front(cfg, Span(w, p) + w, false) <= Front(cfg, Span(w, p), f)
  {
    BlockMod(w, m, p);
    if f {
      FirstOfErased(cfg, w, m, p);
    } else {
      BlockFits(cfg, w, m, p);
      BlockMod(w, m, p + 1);
    }
  }

  lemma FirstOfErased(cfg: Config, w: nat, m: nat, p: nat)
    requires w > 0 && m > 0 && cfg.align == Span(w, m) && Rem(p, m) == 0
    ensures cfg.align >= w && NextBoundary(cfg, Span(w, p) + w) == Span(w, p) + cfg.align
  {
    SpanStrict(w, 0, m);
    ModNext(p, m);
    BlockMod(w, m, p + 1);
    assert Span(w, p + 1) == Span(w, p) + w && Span(w, 1) == w;
  }

  lemma WriteFlash(flash: seq<Cell>, flash0: seq<Cell>, buff: seq<nat>, start: nat, at: nat, at': nat, end: nat,
                   front: nat, front': nat, beyond: nat, r: seq<Cell>)
    requires start <= at <= at' <= end == start + |buff| && at' <= front && front' <= front && end <= beyond
    requires FlashAt(flash, flash0, buff, start, at, end, front, beyond)
    requires r == Program(flash, at, buff[at - start..at' - start])
    ensures FlashAt(r, flash0, buff, start, at', end, front', beyond)
  {
  }

  // ---------- whole requests ----------

  /** The next event; the code asserts that a whole write block is left. */
  ghost predicate Next(cfg: Config, s: Writer, buff: seq<nat>, r: Writer) {
    && 0 < s.size && cfg.align > 0
    && (s.taken + s.size == |buff| && Block(cfg, s) <= s.size ==> r == Step(cfg, s, buff))
  }

  ghost predicate NextAt(cfg: Config, states: seq<Writer>, buff: seq<nat>, i: nat)
    requires i + 1 < |states|
  {
    Next(cfg, states[i], buff, states[i + 1])
  }

  ghost predicate IsRun(cfg: Config, states: seq<Writer>, buff: seq<nat>) {
    states != [] && forall i :: 0 <= i < |states| - 1 ==> NextAt(cfg, states, buff, i)
  }

  /** Every event makes progress: it erases the next block, or writes one. */
  lemma AtStep(cfg: Config, s: Writer, s0: Writer, buff: seq<nat>, w: nat, m: nat, p: nat, n: nat, k: nat, f: bool)
    returns (k': nat, f': bool)
    requires Request(cfg, s0, buff, w, m, p, n) && At(cfg, s, s0, buff, w, m, p, n, k, f) && w % 2 == 0 && s.size > 0
    ensures cfg.align > 0 && s.taken + s.size == |buff| && Block(cfg, s) <= s.size
    ensures At(cfg, Step(cfg, s, buff), s0, buff, w, m, p, n, k', f')
    ensures k < k' <= n || (k == k' <= n && !f && f')
  {
    if !f && Rem(p + k, m) == 0 {
      EraseStep(cfg, s, s0, buff, w, m, p, n, k);
      k', f' := k, true;
    } else {
      WriteStep(cfg, s, s0, buff, w, m, p, n, k, f);
      k', f' := k + 1, false;
    }
  }

  lemma {:induction false} RunAt(cfg: Config, states: seq<Writer>, buff: seq<nat>, w: nat, m: nat, p: nat, n: nat,
                                 i: nat)
    returns (k: nat, f: bool)
    requires IsRun(cfg, states, buff) && Request(cfg, states[0], buff, w, m, p, n) && w % 2 == 0 && i < |states|
    ensures At(cfg, states[i], states[0], buff, w, m, p, n, k, f)
  {
    if i == 0 {
      StartAt(cfg, states[0], buff, w, m, p, n);
      k, f := 0, false;
    } else {
      k, f := RunAt(cfg, states, buff, w, m, p, n, i - 1);
      assert NextAt(cfg, states, buff, i - 1);
      k, f := AtStep(cfg, states[i - 1], states[0], buff, w, m, p, n, k, f);
    }
  }

  /** What holds when no bytes are left. */
  ghost predicate Complete(cfg: Config, s: Writer, s0: Writer, buff: seq<nat>, w: nat, m: nat, p: nat, n: nat)
    requires cfg.align > 0 && m > 0
  {
    && s.wsize == |buff| && |s.flash| == |s0.flash| && s.erases == Boundaries(w, m, p, n)
    && (forall i :: 0 <= i < |buff| ==> HasByte(s.flash, Span(w, p), buff, i))
    && forall i :: 0 <= i < |s.flash| && (i < Span(w, p) || NextBoundary(cfg, Span(w, p) + |buff|) <= i) ==>
         s.flash[i] == s0.flash[i]
  }

  lemma AtEnd(cfg: Config, s: Writer, s0: Writer, buff: seq<nat>, w: nat, m: nat, p: nat, n: nat, k: nat, f: bool)
    requires Request(cfg, s0, buff, w, m, p, n) && At(cfg, s, s0, buff, w, m, p, n, k, f) && s.size == 0
    ensures Complete(cfg, s, s0, buff, w, m, p, n)
  {
    var at := Span(w, p);
    forall i | 0 <= i < |buff| ensures HasByte(s.flash, at, buff, i) {
      assert s.flash[at + i] == Data(buff[(at + i) - at]);
    }
  }

  predicate HasByte(flash: seq<Cell>, at: nat, buff: seq<nat>, i: nat)
    requires i < |buff|
  {
    at + i < |flash| && flash[at + i] == Data(buff[i])
  }

  /**
   With an even write block: when no bytes are left, the length returned is the length requested, the flash range is
   the buffer, the erase log is exactly the aligned blocks of the range, each once and in order, and nothing outside
   the range and the last erased block has changed.
   */
  lemma WritesFirmware(cfg: Config, states: seq<Writer>, buff: seq<nat>, w: nat, m: nat, p: nat, n: nat)
    requires IsRun(cfg, states, buff) && Request(cfg, states[0], buff, w, m, p, n) && w % 2 == 0
    requires states[|states| - 1].size == 0
    ensures Complete(cfg, states[|states| - 1], states[0], buff, w, m, p, n)
  {
    var k, f := RunAt(cfg, states, buff, w, m, p, n, |states| - 1);
    AtEnd(cfg, states[|states| - 1], states[0], buff, w, m, p, n, k, f);
  }

  lemma {:induction false} BoundariesWithin(cfg: Config, w: nat, m: nat, p: nat, j: nat)
    requires w > 0 && m > 0 && cfg.align == Span(w, m) && cfg.align > 0
    ensures forall a :: a in Boundaries(w, m, p, j) ==> Span(w, p) <= a < Span(w, p + j) && Rem(a, cfg.align) == 0
  {
    if j > 0 {
      BoundariesWithin(cfg, w, m, p, j - 1);
      BlockMod(w, m, p + j - 1);
      SpanStrict(w, p + (j - 1), p + j);
      SpanAdd(w, p, j - 1);
    }
  }

  ghost predicate Ascending(s: seq<nat>) {
    forall i, k :: 0 <= i < k < |s| ==> s[i] < s[k]
  }

  lemma {:induction false} BoundariesAscend(cfg: Config, w: nat, m: nat, p: nat, j: nat)
    requires w > 0 && m > 0 && cfg.align == Span(w, m) && cfg.align > 0
    ensures Ascending(Boundaries(w, m, p, j))
  {
    if j > 0 {
      BoundariesAscend(cfg, w, m, p, j - 1);
      BoundariesWithin(cfg, w, m, p, j - 1);
      var rest, r, last := Boundaries(w, m, p, j - 1), Boundaries(w, m, p, j), Span(w, p + (j - 1));
      assert p + (j - 1) == p + j - 1 && (r == rest || r == rest + [last]);
      forall i, k | 0 <= i < k < |r| ensures r[i] < r[k] {
        assert r[i] == rest[i] && rest[i] in rest;
        assert r[k] == if k < |rest| then rest[k] else last;
      }
    }
  }

  lemma {:induction false} BoundaryErased(w: nat, m: nat, p: nat, j: nat, i: nat)
    requires m > 0 && p <= i < p + j && Rem(i, m) == 0
    ensures Span(w, i) in Boundaries(w, m, p, j)
  {
    if i == p + j - 1 {
      assert Boundaries(w, m, p, j)[|Boundaries(w, m, p, j - 1)|] == Span(w, i);
    } else {
      BoundaryErased(w, m, p, j - 1, i);
    }
  }

  /** The erase log: strictly ascending, aligned, and every aligned block of the range. */
  lemma BoundariesExact(cfg: Config, w: nat, m: nat, p: nat, j: nat)
    requires w > 0 && m > 0 && cfg.align == Span(w, m)
    ensures cfg.align > 0
    ensures var r := Boundaries(w, m, p, j);
      && (forall a :: a in r ==> Span(w, p) <= a < Span(w, p + j) && Rem(a, cfg.align) == 0)
      && Ascending(r)
      && (forall i :: p <= i < p + j && Rem(i, m) == 0 ==> Span(w, i) in r)
  {
    BlockMod(w, m, 0);
    BoundariesWithin(cfg, w, m, p, j);
    BoundariesAscend(cfg, w, m, p, j);
    forall i | p <= i < p + j && Rem(i, m) == 0 ensures Span(w, i) in Boundaries(w, m, p, j) {
      BoundaryErased(w, m, p, j, i);
    }
  }

  // ---------- odd write blocks ----------

  /** Requests come in whole write blocks, whatever the parity; a write block of 0 means one block. */
  ghost predicate InBlocks(cfg: Config, buff: seq<nat>, w: nat) {
    (exists n :: |buff| == Span(w, n)) && (cfg.writeBlock == w || (cfg.writeBlock == 0 && |buff| == w))
  }

  lemma BlocksLeft(w: nat, k: nat, n: nat, left: nat)
    requires Span(w, k) + left == Span(w, n) && left > 0
    ensures left >= w
  {
    if n < k { SpanStrict(w, n, k); } else if k < n { SpanStrict(w, k, n); }
  }

  lemma NextBlock(cfg: Config, s: Writer, buff: seq<nat>, w: nat, k: nat)
    requires InBlocks(cfg, buff, w) && w > 0 && s.taken == Span(w, k) && s.taken + s.size == |buff| && s.size > 0
    ensures Block(cfg, s) == w <= s.size
  {
    var n :| |buff| == Span(w, n);
    BlocksLeft(w, k, n, s.size);
  }

  /** Once a block of odd length is written, the flag reads as set for the rest of the request. */
  lemma {:induction false} OddRun(cfg: Config, states: seq<Writer>, buff: seq<nat>, w: nat, i: nat) returns (k: nat)
    requires IsRun(cfg, states, buff) && InBlocks(cfg, buff, w) && w % 2 == 1 && i < |states|
    requires states[0].taken == 0 && states[0].size == |buff| && states[0].wsize == 0
    ensures states[i].taken == Span(w, k) && states[i].taken + states[i].size == |buff|
    ensures k == 0 ==> states[i].wsize <= 1
    ensures k > 0 ==> states[i].wsize == Span(w, k) - (k - 1) && states[i].wsize % 2 == 1
    ensures states[i].size > 0 ==> Block(cfg, states[i]) == w <= states[i].size
  {
    if i == 0 {
      k := 0;
    } else {
      k := OddRun(cfg, states, buff, w, i - 1);
      var s := states[i - 1];
      assert NextAt(cfg, states, buff, i - 1);
      if states[i] == s.(wsize := 1, flash := states[i].flash, erases := states[i].erases) {
      } else {
        k := k + 1;
      }
    }
    if states[i].size > 0 { NextBlock(cfg, states[i], buff, w, k); }
  }

  lemma SpanInjective(w: nat, a: nat, b: nat)
    requires w > 0 && Span(w, a) == Span(w, b)
    ensures a == b
  {
    if a < b { SpanStrict(w, a, b); } else if b < a { SpanStrict(w, b, a); }
  }

  /** The length returned is the length requested exactly when the write block is even or there is only one of them. */
  lemma LengthExact(cfg: Config, states: seq<Writer>, buff: seq<nat>, w: nat, m: nat, p: nat, n: nat)
    requires IsRun(cfg, states, buff) && Request(cfg, states[0], buff, w, m, p, n)
    requires states[|states| - 1].size == 0
    ensures states[|states| - 1].wsize == |buff| <==> w % 2 == 0 || n == 1
  {
    if w % 2 == 0 {
      WritesFirmware(cfg, states, buff, w, m, p, n);
    } else {
      OneBlock(cfg, buff, w, m, n);
      var k := OddRun(cfg, states, buff, w, |states| - 1);
      SpanInjective(w, k, n);
    }
  }

  lemma OneBlock(cfg: Config, buff: seq<nat>, w: nat, m: nat, n: nat)
    requires Setup(cfg, buff, w, m, n)
    ensures InBlocks(cfg, buff, w)
  {
    assert Span(w, 1) == w;
  }

  /** A cell before it is written: only the first block of a request is ever erased, if it starts an erase block. */
  function OddBase(cfg: Config, s0: Writer, erased: bool, i: nat): Cell
    requires i < |s0.flash|
  {
    if erased && s0.offset <= i < s0.offset + cfg.align then Erased else s0.flash[i]
  }

  /** The same cell after `taken` bytes. */
  function OddCell(cfg: Config, s0: Writer, buff: seq<nat>, taken: nat, erased: bool, i: nat): Cell
    requires i < |s0.flash| && taken <= |buff|
  {
    var base := OddBase(cfg, s0, erased, i);
    if !(s0.offset <= i < s0.offset + taken) then base
    else if base == Erased then Data(buff[i - s0.offset])
    else Corrupt
  }

  ghost predicate OddFlash(cfg: Config, s: Writer, s0: Writer, buff: seq<nat>)
    requires cfg.align > 0
  {
    && s.offset == s0.offset + s.taken && s.taken <= |buff| && |s.flash| == |s0.flash|
    && (s.taken == 0 && s.wsize == 1 ==> Aligned(s0.offset, cfg.align))
    && var erased := if s.taken == 0 then s.wsize == 1 else Aligned(s0.offset, cfg.align);
      forall i :: 0 <= i < |s.flash| ==> s.flash[i] == OddCell(cfg, s0, buff, s.taken, erased, i)
  }

  lemma OddFlashStep(cfg: Config, s: Writer, s0: Writer, buff: seq<nat>, w: nat)
    requires cfg.align > 0 && OddFlash(cfg, s, s0, buff) && w % 2 == 1
    requires 0 < s.size && s.taken + s.size == |buff| && Block(cfg, s) == w <= s.size
    requires if s.taken == 0 then s.wsize <= 1 else s.wsize % 2 == 1
    ensures OddFlash(cfg, Step(cfg, s, buff), s0, buff)
  {
  }

  lemma {:induction false} OddFlashRun(cfg: Config, states: seq<Writer>, buff: seq<nat>, w: nat, i: nat)
    requires IsRun(cfg, states, buff) && InBlocks(cfg, buff, w) && w % 2 == 1 && i < |states| && cfg.align > 0
    requires states[0].taken == 0 && states[0].size == |buff| && states[0].wsize == 0
    ensures OddFlash(cfg, states[i], states[0], buff)
  {
    if i > 0 {
      OddFlashRun(cfg, states, buff, w, i - 1);
      var k := OddRun(cfg, states, buff, w, i - 1);
      if k > 0 { SpanStrict(w, 0, k); }
      assert NextAt(cfg, states, buff, i - 1);
      OddFlashStep(cfg, states[i - 1], states[0], buff, w);
    }
  }

  /** The range was erased before the request, but for what the one erase at its start covers. */
  predicate OddErased(cfg: Config, flash: seq<Cell>, start: nat, len: nat)
    requires cfg.align > 0
  {
    forall i :: start <= i < start + len && i < |flash| ==>
      flash[i] == Erased || (Aligned(start, cfg.align) && i < start + cfg.align)
  }

  /** With an odd write block the flash range is the buffer exactly when the range was erased like that. */
  lemma OddWritesExact(cfg: Config, states: seq<Writer>, buff: seq<nat>, w: nat)
    requires IsRun(cfg, states, buff) && InBlocks(cfg, buff, w) && w % 2 == 1 && cfg.align > 0 && |buff| > 0
    requires states[0].taken == 0 && states[0].size == |buff| && states[0].wsize == 0
    requires states[0].offset + |buff| <= |states[0].flash| && states[|states| - 1].size == 0
    ensures var s, s0 := states[|states| - 1], states[0];
      (forall i :: 0 <= i < |buff| ==> HasByte(s.flash, s0.offset, buff, i))
      <==> OddErased(cfg, s0.flash, s0.offset, |buff|)
  {
    var s, s0 := states[|states| - 1], states[0];
    OddFlashRun(cfg, states, buff, w, |states| - 1);
    var k := OddRun(cfg, states, buff, w, |states| - 1);
    assert s.taken == |buff|;
    OddOutcome(cfg, s, s0, buff);
  }

  lemma OddOutcome(cfg: Config, s: Writer, s0: Writer, buff: seq<nat>)
    requires cfg.align > 0 && OddFlash(cfg, s, s0, buff) && s.taken == |buff| > 0 && s0.offset + |buff| <= |s0.flash|
    ensures (forall i :: 0 <= i < |buff| ==> HasByte(s.flash, s0.offset, buff, i))
       <==> OddErased(cfg, s0.flash, s0.offset, |buff|)
  {
    var at := s0.offset;
    if forall i :: 0 <= i < |buff| ==> HasByte(s.flash, at, buff, i) {
      forall j | at <= j < at + |buff| && j < |s0.flash|
        ensures s0.flash[j] == Erased || (Aligned(at, cfg.align) && j < at + cfg.align)
      {
        assert HasByte(s.flash, at, buff, j - at);
      }
    }
    if OddErased(cfg, s0.flash, at, |buff|) {
      forall i | 0 <= i < |buff| ensures HasByte(s.flash, at, buff, i) {
        assert s.flash[at + i] == OddCell(cfg, s0, buff, |buff|, Aligned(at, cfg.align), at + i);
      }
    }
  }

  // ---------- the code ----------

  class FirmwareWriter {
    const cfg: Config
    var offset: nat
    var taken: nat
    var size: nat
    var wsize: nat
    var flash: seq<Cell>
    var erases: seq<nat>

    ghost function State(): Writer
      reads this
    {
      Writer(offset, taken, size, wsize, flash, erases)
    }

    constructor (cfg: Config, flash: seq<Cell>)
      ensures this.cfg == cfg && this.flash == flash
    {
      this.cfg, this.flash := cfg, flash;
      offset, taken, size, wsize, erases := 0, 0, 0, 0, [];
    }

    /** __mscboot_on_firmware_write, from VSF_EVT_USER on; a result ends the call. */
    method OnUser(buff: seq<nat>) returns (result: Option<nat>)
      requires cfg.align > 0 && (size > 0 ==> taken + size == |buff| && Block(cfg, State()) <= size)
      modifies this
      ensures old(size) == 0 ==> State() == old(State()) && result == Some(wsize)
      ensures old(size) > 0 ==> State() == Step(cfg, old(State()), buff) && result == None
    {
      if size == 0 {
        return Some(wsize);
      }
      if wsize % 2 == 1 {
        wsize := wsize - 1;
      } else if And(offset, cfg.align - 1) == 0 {
        wsize := wsize + 1;
        flash := Erase(flash, offset, cfg.align);
        erases := erases + [offset];
        return None;
      }
      var cur := if cfg.writeBlock == 0 then size else cfg.writeBlock;
      flash := Program(flash, offset, buff[taken..taken + cur]);
      offset := offset + cur;
      taken := taken + cur;
      wsize := wsize + cur;
      size := size - cur;
      return None;
    }

    /** The whole call: VSF_EVT_INIT, then one VSF_EVT_USER for each flash interrupt, until it returns. */
    method Write(addr: nat, buff: seq<nat>, ghost w: nat, ghost m: nat, ghost p: nat, ghost n: nat)
      returns (written: nat)
      requires Request(cfg, Writer(addr, 0, |buff|, 0, flash, []), buff, w, m, p, n)
      modifies this
      ensures written == |buff| <==> w % 2 == 0 || n == 1
      ensures w % 2 == 0 ==> Complete(cfg, State(), Writer(addr, 0, |buff|, 0, old(flash), []), buff, w, m, p, n)
      ensures w % 2 == 1 ==>
        ((forall i :: 0 <= i < |buff| ==> HasByte(flash, addr, buff, i)) <==> OddErased(cfg, old(flash), addr, |buff|))
    {
      offset, taken, size, wsize, erases := addr, 0, |buff|, 0, [];
      ghost var states := [State()];
      while size > 0
        invariant IsRun(cfg, states, buff) && states[|states| - 1] == State()
        invariant states[0] == Writer(addr, 0, |buff|, 0, old(flash), [])
        decreases size, wsize % 2 == 0
      {
        RunFits(cfg, states, buff, w, m, p, n);
        states := ExtendRun(cfg, states, buff);
        var _ := OnUser(buff);
      }
      RunEnds(cfg, states, buff, w, m, p, n);
      var result := OnUser(buff);
      return result.value;
    }
  }

  /** In a run of a request, a whole write block is left. */
  lemma RunFits(cfg: Config, states: seq<Writer>, buff: seq<nat>, w: nat, m: nat, p: nat, n: nat)
    requires IsRun(cfg, states, buff) && Request(cfg, states[0], buff, w, m, p, n) && states[|states| - 1].size > 0
    ensures var s := states[|states| - 1];
      cfg.align > 0 && s.taken + s.size == |buff| && 0 < Block(cfg, s) <= s.size
  {
    var s := states[|states| - 1];
    BlockMod(w, m, 0);
    if w % 2 == 0 {
      var k, f := RunAt(cfg, states, buff, w, m, p, n, |states| - 1);
      FitsRequest(cfg, s, buff, w, m, n, k);
    } else {
      OneBlock(cfg, buff, w, m, n);
      var _ := OddRun(cfg, states, buff, w, |states| - 1);
    }
  }

  ghost function ExtendRun(cfg: Config, states: seq<Writer>, buff: seq<nat>): (r: seq<Writer>)
    requires IsRun(cfg, states, buff) && cfg.align > 0
    requires var s := states[|states| - 1]; 0 < s.size && s.taken + s.size == |buff| && Block(cfg, s) <= s.size
    ensures IsRun(cfg, r, buff) && r[0] == states[0] && r[|r| - 1] == Step(cfg, states[|states| - 1], buff)
  {
    var r := states + [Step(cfg, states[|states| - 1], buff)];
    assert forall i :: 0 <= i < |r| - 1 ==> NextAt(cfg, r, buff, i) by {
      forall i | 0 <= i < |r| - 1 ensures NextAt(cfg, r, buff, i) {
        if i < |states| - 1 { assert NextAt(cfg, states, buff, i); }
      }
    }
    r
  }

  /** What holds when no bytes are left, for even and for odd write blocks. */
  lemma RunEnds(cfg: Config, states: seq<Writer>, buff: seq<nat>, w: nat, m: nat, p: nat, n: nat)
    requires IsRun(cfg, states, buff) && Request(cfg, states[0], buff, w, m, p, n) && states[|states| - 1].size == 0
    ensures cfg.align > 0
    ensures var s, s0 := states[|states| - 1], states[0];
      && (s.wsize == |buff| <==> w % 2 == 0 || n == 1)
      && (w % 2 == 0 ==> Complete(cfg, s, s0, buff, w, m, p, n))
      && (w % 2 == 1 ==> ((forall i :: 0 <= i < |buff| ==> HasByte(s.flash, s0.offset, buff, i))
                          <==> OddErased(cfg, s0.flash, s0.offset, |buff|)))
  {
    BlockMod(w, m, 0);
    LengthExact(cfg, states, buff, w, m, p, n);
    if w % 2 == 0 {
      WritesFirmware(cfg, states, buff, w, m, p, n);
    } else {
      OneBlock(cfg, buff, w, m, n);
      SpanStrict(w, 0, n);
      SpanAdd(w, p, n);
      OddWritesExact(cfg, states, buff, w);
    }
  }
}
