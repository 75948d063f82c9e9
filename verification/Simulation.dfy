/** Compilation preserves meaning: every CPU step is matched by steps of the run loop on the generated bytes. */
module Simulation {
  import opened Machine32
  import opened Layout
  import opened Code
  import opened Image
  import opened SourceMachine
  import opened ByteMachine
  import opened CodeMap

  /** Saved return address of a frame: 0 for the outermost one. */
  ghost predicate SavedAddr(ws: seq<Word>, lens: seq<nat>, saved: Option<(nat, nat)>, a: nat) {
    match saved
    case None => a == 0
    case Some((w, off)) =>
      HasOp(ws, w, off) && ElemOf(ws, w, off) < |lens| && a == OpAddr(ws, lens, w, off) && 0 < a < 0x10000
  }

  /** Frame `f` occupies the return stack memory just below `rp`: its written locals, then the packed return address. */
  ghost predicate FrameAt(ws: seq<Word>, lens: seq<nat>, f: Frame, rm: seq<u32>, rp: int) {
    var n := |f.locals|;
    && 1 + n <= rp <= |rm|
    && rm[rp - 1] / 0x10000 == n && SavedAddr(ws, lens, f.saved, rm[rp - 1] % 0x10000)
    && forall k :: 0 <= k < n && f.locals[k].Some? ==> rm[rp - 2 - k] == f.locals[k].value
  }

  ghost predicate FramesAt(ws: seq<Word>, lens: seq<nat>, fs: seq<Frame>, rm: seq<u32>, base: nat)
    decreases |fs|
  {
    fs != [] ==>
      var rest := fs[..|fs| - 1];
      FrameAt(ws, lens, fs[|fs| - 1], rm, base + Used(fs)) && FramesAt(ws, lens, rest, rm, base)
  }

  /** The related states: same data stack, matching code position, matching call chain from `base` up. */
  ghost predicate Sim(ws: seq<Word>, lens: seq<nat>, base: nat, s: CState, b: BState) {
    && HasOp(ws, s.w, s.off) && ElemOf(ws, s.w, s.off) < |lens| && b.ip == OpAddr(ws, lens, s.w, s.off)
    && b.ds == s.ds && b.rp == base + Used(s.frames)
    && FramesAt(ws, lens, s.frames, b.rm, base)
    && s.frames != [] && |Top(s).locals| == ws[s.w].numLocals
    && WordsOf(ws, s.frames)
  }

  /** Every suspended word has a frame of its own size below the frame of the word it called. */
  ghost predicate WordsOf(ws: seq<Word>, fs: seq<Frame>) {
    forall i :: 0 <= i < |fs| ==> WordAt(ws, fs, i)
  }

  ghost predicate WordAt(ws: seq<Word>, fs: seq<Frame>, i: int)
    requires 0 <= i < |fs|
  {
    match fs[i].saved
    case None => i == 0
    case Some((w, off)) => i > 0 && HasOp(ws, w, off) && |fs[i - 1].locals| == ws[w].numLocals
  }

  /** The step does not read a local that was never written (the CPU reads 0 there, the run loop a stale cell). */
  predicate ReadsWritten(ws: seq<Word>, s: CState) {
    Running(ws, s) && CurrentOp(ws, s).GetLocal? ==>
      CurrentOp(ws, s).n < |Top(s).locals| && Top(s).locals[CurrentOp(ws, s).n].Some?
  }

  /** The return stack memory holds the frames of `s`, and one more cell while a data word runs. */
  predicate Room(ws: seq<Word>, s: CState, base: nat, size: nat) {
    base + Used(s.frames) +
    (if Running(ws, s) && CurrentOp(ws, s).Call? && CurrentOp(ws, s).target < |ws| && ws[CurrentOp(ws, s).target].Data?
     then 1 else 0) <= size
  }

  /** An opcode that may fall through is followed by another one. */
  lemma Successor(ws: seq<Word>, w: nat, off: nat)
    requires WellFormed(ws) && HasOp(ws, w, off) && ws[w].code[off].MayFallThrough()
    ensures HasOp(ws, w, off + 1)
  {
    assert WellFormedCode(ws[w].numLocals, ws[w].code);
  }

  // ----- Frames in memory -----

  /** Frames only depend on the memory below them. */
  lemma {:induction false} FramesFrame(ws: seq<Word>, lens: seq<nat>, fs: seq<Frame>, rm: seq<u32>, rm': seq<u32>,
                                       base: nat)
    requires FramesAt(ws, lens, fs, rm, base) && base + Used(fs) <= |rm'|
    requires forall i :: 0 <= i < base + Used(fs) && i < |rm| ==> rm'[i] == rm[i]
    ensures FramesAt(ws, lens, fs, rm', base)
    decreases |fs|
  {
    if fs != [] {
      FramesFrame(ws, lens, fs[..|fs| - 1], rm, rm', base);
    }
  }

  lemma FramesPush(ws: seq<Word>, lens: seq<nat>, fs: seq<Frame>, f: Frame, rm: seq<u32>, rm': seq<u32>, base: nat)
    requires FramesAt(ws, lens, fs, rm, base)
    requires forall i :: 0 <= i < base + Used(fs) && i < |rm| ==> i < |rm'| && rm'[i] == rm[i]
    requires FrameAt(ws, lens, f, rm', base + Used(fs) + 1 + |f.locals|)
    ensures FramesAt(ws, lens, fs + [f], rm', base) && Used(fs + [f]) == Used(fs) + 1 + |f.locals|
  {
    assert (fs + [f])[..|fs|] == fs;
    FramesFrame(ws, lens, fs, rm, rm', base);
  }

  lemma FramesTop(ws: seq<Word>, lens: seq<nat>, fs: seq<Frame>, f: Frame, rm: seq<u32>, rm': seq<u32>, base: nat)
    requires fs != [] && FramesAt(ws, lens, fs, rm, base) && |rm'| == |rm|
    requires |f.locals| == |fs[|fs| - 1].locals| && FrameAt(ws, lens, f, rm', base + Used(fs))
    requires forall i :: 0 <= i < base + Used(fs[..|fs| - 1]) && i < |rm| ==> rm'[i] == rm[i]
    ensures FramesAt(ws, lens, fs[|fs| - 1 := f], rm', base) && Used(fs[|fs| - 1 := f]) == Used(fs)
  {
    assert fs[|fs| - 1 := f] == fs[..|fs| - 1] + [f];
    FramesPush(ws, lens, fs[..|fs| - 1], f, rm, rm', base);
  }

  // ----- One step -----

  /** A step inside a word: new position, new data stack, same frames. */
  lemma SimMove(ws: seq<Word>, img: Image, lens: seq<nat>, base: nat, s: CState, b: BState, off: nat, ds: seq<u32>)
    requires ImageOf(ws, img, lens) && Sim(ws, lens, base, s, b) && HasOp(ws, s.w, off)
    ensures ElemOf(ws, s.w, off) < |lens|
    ensures Sim(ws, lens, base, s.(off := off, ds := ds), b.(ip := OpAddr(ws, lens, s.w, off), ds := ds))
  {
    hide FramesAt, WordsOf, OpAddr, ImageOf;
    OpAddrRange(ws, img, lens, s.w, off);
  }

  lemma SimAtOp(ws: seq<Word>, img: Image, lens: seq<nat>, base: nat, s: CState, b: BState)
    requires ImageOf(ws, img, lens) && Sim(ws, lens, base, s, b)
    ensures AtOp(ws, img, lens, s.w, s.off, b) && Running(ws, s) && Program(ws) && WellFormed(ws)
  {
    hide FramesAt, WordsOf, OpAddr;
  }

  lemma StepConst(ws: seq<Word>, img: Image, lens: seq<nat>, base: nat, s: CState, b: BState) returns (b': BState)
    requires ImageOf(ws, img, lens) && Sim(ws, lens, base, s, b) && CurrentOp(ws, s).Const?
    ensures CNext(ws, s).CGo? && BNext(img, b) == Go(b') && Sim(ws, lens, base, CNext(ws, s).s, b') && b'.rm == b.rm
  {
    hide ImageOf, Sim, OpAddr, BNext, U32, AtOp, Program, WellFormed;
    SimAtOp(ws, img, lens, base, s, b);
    ConstTurn(ws, img, lens, s.w, s.off, b);
    Successor(ws, s.w, s.off);
    SameStack(ws, lens, base, s, b);
    var ds := s.ds + [U32(CurrentOp(ws, s).v)];
    SimMove(ws, img, lens, base, s, b, s.off + 1, ds);
    b' := b.(ip := OpAddr(ws, lens, s.w, s.off + 1), ds := ds);
  }

  lemma SameStack(ws: seq<Word>, lens: seq<nat>, base: nat, s: CState, b: BState)
    requires Sim(ws, lens, base, s, b)
    ensures s.ds == b.ds && s.frames != []
  {
    hide FramesAt, WordsOf, OpAddr;
  }

  lemma StepJump(ws: seq<Word>, img: Image, lens: seq<nat>, base: nat, s: CState, b: BState) returns (b': BState)
    requires ImageOf(ws, img, lens) && |img.code| < 0x10000 && Sim(ws, lens, base, s, b)
    requires CurrentOp(ws, s).Jump? && CNext(ws, s).CGo?
    ensures BNext(img, b) == Go(b') && Sim(ws, lens, base, CNext(ws, s).s, b') && b'.rm == b.rm
  {
    hide ImageOf, Sim, OpAddr, BNext, AtOp, Program, WellFormed;
    SimAtOp(ws, img, lens, base, s, b);
    SameStack(ws, lens, base, s, b);
    JumpTarget(ws, img, lens, s.w, s.off);
    var op := CurrentOp(ws, s);
    var to := s.off + 1 + op.disp.value;
    JumpTurn(ws, img, lens, s.w, s.off, b, to);
    var s' := CNext(ws, s).s;
    if s'.off == s.off + 1 {
      if to != s.off + 1 { Successor(ws, s.w, s.off); }
    }
    SimMove(ws, img, lens, base, s, b, s'.off, s'.ds);
    b' := b.(ip := OpAddr(ws, lens, s.w, s'.off), ds := s'.ds);
  }

  lemma StepGet(ws: seq<Word>, img: Image, lens: seq<nat>, base: nat, s: CState, b: BState) returns (b': BState)
    requires ImageOf(ws, img, lens) && Sim(ws, lens, base, s, b)
    requires CurrentOp(ws, s).GetLocal? && ReadsWritten(ws, s)
    ensures CNext(ws, s).CGo? && BNext(img, b) == Go(b') && Sim(ws, lens, base, CNext(ws, s).s, b') && b'.rm == b.rm
  {
    hide ImageOf, OpAddr, BNext, AtOp, Program, WellFormed, SavedAddr, WordsOf;
    SimAtOp(ws, img, lens, base, s, b);
    var n := CurrentOp(ws, s).n;
    LocalNumber(ws, s.w, s.off);
    LocalTurn(ws, img, lens, s.w, s.off, b, n);
    Successor(ws, s.w, s.off);
    var ds := s.ds + [Top(s).locals[n].value];
    assert b.rm[b.rp - 2 - n] == Top(s).locals[n].value;
    SimMove(ws, img, lens, base, s, b, s.off + 1, ds);
    b' := b.(ip := OpAddr(ws, lens, s.w, s.off + 1), ds := ds);
  }

  lemma LocalNumber(ws: seq<Word>, w: nat, off: nat)
    requires Program(ws) && HasOp(ws, w, off) && (ws[w].code[off].GetLocal? || ws[w].code[off].PutLocal?)
    ensures ws[w].code[off].n < ws[w].numLocals < M31
  {
    assert WellFormedCode(ws[w].numLocals, ws[w].code);
  }

  lemma StepPut(ws: seq<Word>, img: Image, lens: seq<nat>, base: nat, s: CState, b: BState) returns (b': BState)
    requires ImageOf(ws, img, lens) && Sim(ws, lens, base, s, b)
    requires CurrentOp(ws, s).PutLocal? && s.ds != []
    ensures CNext(ws, s).CGo? && BNext(img, b) == Go(b') && Sim(ws, lens, base, CNext(ws, s).s, b') && |b'.rm| == |b.rm|
  {
    hide ImageOf, OpAddr, BNext, AtOp, Program, WellFormed, SavedAddr, WordsOf;
    SimAtOp(ws, img, lens, base, s, b);
    var n := CurrentOp(ws, s).n;
    LocalNumber(ws, s.w, s.off);
    LocalTurn(ws, img, lens, s.w, s.off, b, n);
    Successor(ws, s.w, s.off);
    OpAddrRange(ws, img, lens, s.w, s.off + 1);
    var v := s.ds[|s.ds| - 1];
    b' := b.(ip := OpAddr(ws, lens, s.w, s.off + 1), ds := s.ds[..|s.ds| - 1], rm := b.rm[b.rp - 2 - n := v]);
    assert BNext(img, b) == Go(b');
    var f := Top(s).(locals := Top(s).locals[n := Some(v)]);
    FramesTop(ws, lens, s.frames, f, b.rm, b'.rm, base);
    WordsTop(ws, s.frames, f);
  }

  lemma WordsTop(ws: seq<Word>, fs: seq<Frame>, f: Frame)
    requires fs != [] && WordsOf(ws, fs) && f.saved == fs[|fs| - 1].saved && |f.locals| == |fs[|fs| - 1].locals|
    ensures WordsOf(ws, fs[|fs| - 1 := f])
  {
    hide HasOp;
    var gs := fs[|fs| - 1 := f];
    forall i | 0 <= i < |gs|
      ensures WordAt(ws, gs, i)
    {
      assert WordAt(ws, fs, i);
    }
  }

  /** A return inside the outermost word goes back to the caller in both machines. */
  lemma StepRet(ws: seq<Word>, img: Image, lens: seq<nat>, base: nat, s: CState, b: BState) returns (b': BState)
    requires ImageOf(ws, img, lens) && Sim(ws, lens, base, s, b)
    requires CurrentOp(ws, s).Ret? && Top(s).saved.Some?
    ensures CNext(ws, s).CGo? && BNext(img, b) == Go(b') && Sim(ws, lens, base, CNext(ws, s).s, b') && b'.rm == b.rm
  {
    hide ImageOf, OpAddr, BNext, AtOp, Program, WellFormed, FrameAt;
    SimAtOp(ws, img, lens, base, s, b);
    RetTurn(ws, img, lens, s.w, s.off, b);
    RetFrame(ws, lens, Top(s), b);
    var (w, off) := Top(s).saved.value;
    var rest := s.frames[..|s.frames| - 1];
    b' := BState(OpAddr(ws, lens, w, off), b.ds, b.rm, base + Used(rest));
    WordsPop(ws, s.frames);
  }

  lemma RetFrame(ws: seq<Word>, lens: seq<nat>, f: Frame, b: BState)
    requires b.rp >= 0 && FrameAt(ws, lens, f, b.rm, b.rp)
    ensures f.saved.None? ==> ReturnTo(b) == Exit(b.ds, b.rp - 1 - |f.locals|)
    ensures f.saved.Some? ==>
              var (w, off) := f.saved.value;
              && HasOp(ws, w, off) && ElemOf(ws, w, off) < |lens|
              && ReturnTo(b) == Go(BState(OpAddr(ws, lens, w, off), b.ds, b.rm, b.rp - 1 - |f.locals|))
  {
    hide OpAddr, HasOp;
  }

  lemma WordsPop(ws: seq<Word>, fs: seq<Frame>)
    requires fs != [] && WordsOf(ws, fs) && fs[|fs| - 1].saved.Some?
    ensures WordsOf(ws, fs[..|fs| - 1]) && |fs| > 1
    ensures var (w, off) := fs[|fs| - 1].saved.value; HasOp(ws, w, off) && |fs[|fs| - 2].locals| == ws[w].numLocals
  {
    hide HasOp;
    assert WordAt(ws, fs, |fs| - 1);
    var rest := fs[..|fs| - 1];
    forall i | 0 <= i < |rest|
      ensures WordAt(ws, rest, i)
    {
      assert WordAt(ws, fs, i);
    }
  }

  /** The outermost return leaves the run loop, with the same data stack and the return stack as it was on entry. */
  lemma HaltMatches(ws: seq<Word>, img: Image, lens: seq<nat>, base: nat, s: CState, b: BState)
    requires ImageOf(ws, img, lens) && Sim(ws, lens, base, s, b) && CNext(ws, s).CHalt?
    ensures BNext(img, b) == Exit(CNext(ws, s).ds, base)
  {
    hide ImageOf, OpAddr, BNext, AtOp, Program, WellFormed, FrameAt, HasOp;
    assert WordAt(ws, s.frames, |s.frames| - 1);
    SimAtOp(ws, img, lens, base, s, b);
    RetTurn(ws, img, lens, s.w, s.off, b);
    assert FrameAt(ws, lens, Top(s), b.rm, b.rp);
    RetFrame(ws, lens, Top(s), b);
    assert s.frames[..|s.frames| - 1] == [];
    assert Used(s.frames) == 1 + |Top(s).locals|;
    assert CurrentOp(ws, s).Ret?;
  }

  lemma StepNative(ws: seq<Word>, img: Image, lens: seq<nat>, base: nat, m: Meaning, s: CState, s': CState, b: BState)
    returns (b': BState)
    requires ImageOf(ws, img, lens) && Sim(ws, lens, base, s, b) && CNext(ws, s).CNative? && CStep(ws, m, s, s')
    ensures BStep(img, m, b, b') && Sim(ws, lens, base, s', b') && b'.rm == b.rm
  {
    hide ImageOf, Sim, OpAddr, BNext, AtOp, Program, WellFormed;
    SimAtOp(ws, img, lens, base, s, b);
    SameStack(ws, lens, base, s, b);
    var t := CurrentOp(ws, s).target;
    CallTurn(ws, img, lens, s.w, s.off, b, t);
    Successor(ws, s.w, s.off);
    SimMove(ws, img, lens, base, s, b, s.off + 1, s'.ds);
    b' := b.(ip := OpAddr(ws, lens, s.w, s.off + 1), ds := s'.ds);
  }

  /** A call of an interpreted word: the new frame is packed into the return stack memory. */
  lemma StepCall(ws: seq<Word>, img: Image, lens: seq<nat>, base: nat, s: CState, b: BState) returns (b': BState)
    requires Compiles(ws, img, lens) && Sim(ws, lens, base, s, b)
    requires CurrentOp(ws, s).Call? && CurrentOp(ws, s).target < |ws| && ws[CurrentOp(ws, s).target].Interpreted?
    requires CNext(ws, s).CGo? && base + Used(CNext(ws, s).s.frames) <= |b.rm|
    ensures BNext(img, b) == Go(b') && Sim(ws, lens, base, CNext(ws, s).s, b') && |b'.rm| == |b.rm|
  {
    hide ImageOf, OpAddr, BNext, AtOp, Program, WellFormed, Fits, FramesAt, EnterSlot, Slot;
    SimAtOp(ws, img, lens, base, s, b);
    var t := CurrentOp(ws, s).target;
    var next := b.(ip := OpAddr(ws, lens, s.w, s.off + 1));
    CallTurn(ws, img, lens, s.w, s.off, b, t);
    Successor(ws, s.w, s.off);
    OpAddrRange(ws, img, lens, s.w, s.off + 1);
    EntryOp(ws, t);
    CodeFits(ws, img, t);
    var n := ws[t].numLocals;
    var f := Frame(Some((s.w, s.off + 1)), NewLocals(n));
    assert Used(s.frames + [f]) == Used(s.frames) + 1 + n by { assert (s.frames + [f])[..|s.frames|] == s.frames; }
    EnterTurn(ws, img, lens, t, next);
    b' := BState(OpAddr(ws, lens, t, 0), b.ds, b.rm[b.rp + n := next.ip + n * 0x10000], b.rp + n + 1);
    PackedFrame(ws, lens, f, b'.rm, b'.rp, next.ip);
    FramesPush(ws, lens, s.frames, f, b.rm, b'.rm, base);
    WordsPush(ws, s.frames, f);
  }

  lemma EntryOp(ws: seq<Word>, t: nat)
    requires WellFormed(ws) && t < |ws| && ws[t].Interpreted?
    ensures HasOp(ws, t, 0)
  {
    NonEmptyWord(ws, t);
  }

  lemma CodeFits(ws: seq<Word>, img: Image, t: nat)
    requires Fits(ws, img) && t < |ws|
    ensures |img.code| < 0x10000 && LocalsOf(ws[t]) < 0x10000
  {
  }

  lemma PackedFrame(ws: seq<Word>, lens: seq<nat>, f: Frame, rm: seq<u32>, rp: nat, a: nat)
    requires 1 + |f.locals| <= rp <= |rm| && |f.locals| < 0x10000 && a < 0x10000
    requires rm[rp - 1] == a + |f.locals| * 0x10000 && SavedAddr(ws, lens, f.saved, a)
    requires forall k :: 0 <= k < |f.locals| ==> f.locals[k].None?
    ensures FrameAt(ws, lens, f, rm, rp)
  {
    hide SavedAddr;
  }

  lemma WordsPush(ws: seq<Word>, fs: seq<Frame>, f: Frame)
    requires fs != [] && WordsOf(ws, fs) && f.saved.Some?
    requires var (w, off) := f.saved.value; HasOp(ws, w, off) && |fs[|fs| - 1].locals| == ws[w].numLocals
    ensures WordsOf(ws, fs + [f])
  {
    hide HasOp;
    var gs := fs + [f];
    forall i | 0 <= i < |gs|
      ensures WordAt(ws, gs, i)
    {
      if i < |fs| { assert WordAt(ws, fs, i); }
    }
  }

  /** A data word is a native push for the CPU but a called word in the byte code: three turns of the run loop. */
  lemma StepData(ws: seq<Word>, img: Image, lens: seq<nat>, base: nat, s: CState, b: BState)
    returns (b1: BState, b2: BState, b3: BState)
    requires Compiles(ws, img, lens) && Sim(ws, lens, base, s, b)
    requires CurrentOp(ws, s).Call? && CurrentOp(ws, s).target < |ws| && ws[CurrentOp(ws, s).target].Data?
    requires base + Used(s.frames) + 1 <= |b.rm|
    ensures CNext(ws, s).CGo? && BNext(img, b) == Go(b1) && BNext(img, b1) == Go(b2) && BNext(img, b2) == Go(b3)
    ensures Sim(ws, lens, base, CNext(ws, s).s, b3) && |b3.rm| == |b.rm|
  {
    hide ImageOf, OpAddr, BNext, AtOp, Program, WellFormed, Fits, FramesAt, EnterSlot, Slot, Addr, U32, WordsOf;
    SimAtOp(ws, img, lens, base, s, b);
    var t := CurrentOp(ws, s).target;
    var next := b.(ip := OpAddr(ws, lens, s.w, s.off + 1));
    CallTurn(ws, img, lens, s.w, s.off, b, t);
    Successor(ws, s.w, s.off);
    OpAddrRange(ws, img, lens, s.w, s.off + 1);
    CodeFits(ws, img, t);
    EnterTurn(ws, img, lens, t, next);
    DataInside(ws, img, lens, t);
    var rm := b.rm[b.rp := next.ip];
    var k, ds := Start(ws, t), b.ds + [U32(ws[t].address)];
    assert OpAddr(ws, lens, t, 0) == Addr(lens, k + 1) by { DataAddr(ws, lens, t); }
    b1 := BState(Addr(lens, k + 1), b.ds, rm, b.rp + 1);
    b2 := b1.(ip := Addr(lens, k + 2), ds := ds);
    b3 := BState(next.ip, ds, rm, b.rp);
    DataTurns(ws, img, lens, t, b1);
    DataTurns(ws, img, lens, t, b2);
    assert ReturnTo(b2) == Go(b3);
    FramesFrame(ws, lens, s.frames, b.rm, rm, base);
  }

  /** At a call of a data word the run loop leaves the return stack memory exactly when the frames fill it. */
  lemma DataCallFault(ws: seq<Word>, img: Image, lens: seq<nat>, base: nat, s: CState, b: BState)
    requires Compiles(ws, img, lens) && Sim(ws, lens, base, s, b)
    requires CurrentOp(ws, s).Call? && CurrentOp(ws, s).target < |ws| && ws[CurrentOp(ws, s).target].Data?
    ensures BNext(img, b).Fault? <==> base + Used(s.frames) >= |b.rm|
  {
    hide ImageOf, OpAddr, BNext, AtOp, Program, WellFormed, Fits, FramesAt, EnterSlot, Slot, WordsOf;
    SimAtOp(ws, img, lens, base, s, b);
    var t := CurrentOp(ws, s).target;
    CallTurn(ws, img, lens, s.w, s.off, b, t);
    Successor(ws, s.w, s.off);
    OpAddrRange(ws, img, lens, s.w, s.off + 1);
    EnterFaults(ws, img, lens, t, b.(ip := OpAddr(ws, lens, s.w, s.off + 1)));
  }

  lemma DataAddr(ws: seq<Word>, lens: seq<nat>, t: nat)
    requires t < |ws| && Start(ws, t) + 1 < |lens|
    ensures OpAddr(ws, lens, t, 0) == Addr(lens, Start(ws, t) + 1)
  {
  }

  lemma DataInside(ws: seq<Word>, img: Image, lens: seq<nat>, t: nat)
    requires ImageOf(ws, img, lens) && t < |ws| && ws[t].Data?
    ensures Start(ws, t) + 2 < |lens|
  {
    hide ImageOf, Program, WellFormed;
    ImageFacts(ws, img, lens);
    StartGrows(ws, t, |ws|);
  }

  /** A step of the CPU itself, whatever the opcode, is matched by one or more turns of the run loop that no snippet
      decides. */
  lemma OwnStep(ws: seq<Word>, img: Image, lens: seq<nat>, base: nat, s: CState, b: BState) returns (run: seq<BState>)
    requires Compiles(ws, img, lens) && Sim(ws, lens, base, s, b) && CNext(ws, s).CGo?
    requires ReadsWritten(ws, s) && Room(ws, s, base, |b.rm|) && base + Used(CNext(ws, s).s.frames) <= |b.rm|
    ensures |run| >= 2 && run[0] == b && Turns(img, run)
    ensures Sim(ws, lens, base, CNext(ws, s).s, run[|run| - 1]) && |run[|run| - 1].rm| == |b.rm|
  {
    hide *;
    CompiledImage(ws, img, lens);
    CompiledSize(ws, img, lens);
    SimAtOp(ws, img, lens, base, s, b);
    GoShape(ws, s);
    RoomUsed(ws, s, base, |b.rm|);
    var op := CurrentOp(ws, s);
    var b', end;
    if op.Const? {
      b' := StepConst(ws, img, lens, base, s, b);
    } else if op.GetLocal? {
      b' := StepGet(ws, img, lens, base, s, b);
    } else if op.PutLocal? {
      b' := StepPut(ws, img, lens, base, s, b);
    } else if op.Jump? {
      b' := StepJump(ws, img, lens, base, s, b);
    } else if op.Ret? {
      b' := StepRet(ws, img, lens, base, s, b);
    } else if ws[op.target].Interpreted? {
      b' := StepCall(ws, img, lens, base, s, b);
    } else {
      b', run, end := DataRun(ws, img, lens, base, s, b);
      return;
    }
    run := [b, b'];
    TwoTurns(img, b, b');
  }

  /** Turns of the run loop that only depend on the state. */
  ghost predicate Turns(img: Image, run: seq<BState>) {
    forall i :: 0 <= i < |run| - 1 ==> BNext(img, run[i]) == Go(run[i + 1])
  }

  lemma TwoTurns(img: Image, b: BState, b': BState)
    requires BNext(img, b) == Go(b')
    ensures Turns(img, [b, b'])
  {
    hide BNext;
  }

  lemma DataRun(ws: seq<Word>, img: Image, lens: seq<nat>, base: nat, s: CState, b: BState)
    returns (b1: BState, run: seq<BState>, end: BState)
    requires Compiles(ws, img, lens) && Sim(ws, lens, base, s, b)
    requires CurrentOp(ws, s).Call? && CurrentOp(ws, s).target < |ws| && ws[CurrentOp(ws, s).target].Data?
    requires base + Used(s.frames) + 1 <= |b.rm|
    ensures CNext(ws, s).CGo? && |run| == 4 && run[0] == b && Turns(img, run) && end == run[3]
    ensures Sim(ws, lens, base, CNext(ws, s).s, end) && |end.rm| == |b.rm|
  {
    hide Compiles, Sim, BNext, CNext, CurrentOp;
    var b2;
    b1, b2, end := StepData(ws, img, lens, base, s, b);
    run := [b, b1, b2, end];
  }

  lemma CompiledSize(ws: seq<Word>, img: Image, lens: seq<nat>)
    requires Compiles(ws, img, lens)
    ensures |img.code| < 0x10000
  {
    hide ImageOf;
  }

  lemma RoomUsed(ws: seq<Word>, s: CState, base: nat, size: nat)
    requires Room(ws, s, base, size)
    ensures base + Used(s.frames) <= size
    ensures (Running(ws, s) && CurrentOp(ws, s).Call? && CurrentOp(ws, s).target < |ws|
             && ws[CurrentOp(ws, s).target].Data?) ==> base + Used(s.frames) + 1 <= size
  {
  }

  /** What a step of the CPU itself tells about the opcode. */
  lemma GoShape(ws: seq<Word>, s: CState)
    requires Running(ws, s) && CNext(ws, s).CGo?
    ensures var op := CurrentOp(ws, s);
            && (op.Call? ==> op.target < |ws| && !ws[op.target].Native?)
            && (op.Ret? ==> Top(s).saved.Some?) && (op.PutLocal? ==> s.ds != [])
  {
  }

  /** Whatever the opcode, one CPU step is matched by one or more turns of the run loop between related states. */
  lemma SimStep(ws: seq<Word>, img: Image, lens: seq<nat>, base: nat, m: Meaning, s: CState, s': CState, b: BState)
    returns (run: seq<BState>)
    requires Compiles(ws, img, lens) && Sim(ws, lens, base, s, b) && CStep(ws, m, s, s')
    requires ReadsWritten(ws, s) && Room(ws, s, base, |b.rm|) && base + Used(s'.frames) <= |b.rm|
    ensures |run| >= 2 && run[0] == b && BRun(img, m, run)
    ensures Sim(ws, lens, base, s', run[|run| - 1]) && |run[|run| - 1].rm| == |b.rm|
    ensures CNext(ws, s).CGo? ==> Turns(img, run)
    ensures CNext(ws, s).CNative? ==> |run| == 2
  {
    hide *;
    StepKind(ws, m, s, s');
    if CNext(ws, s).CGo? {
      run := OwnStep(ws, img, lens, base, s, b);
      TurnsRun(img, m, run);
    } else {
      CompiledImage(ws, img, lens);
      var b' := StepNative(ws, img, lens, base, m, s, s', b);
      run := [b, b'];
      OneStepRun(img, m, b, b');
    }
  }

  lemma StepKind(ws: seq<Word>, m: Meaning, s: CState, s': CState)
    requires CStep(ws, m, s, s')
    ensures CNext(ws, s).CNative? || CNext(ws, s) == CGo(s')
  {
    hide CNext;
  }

  lemma TurnsRun(img: Image, m: Meaning, run: seq<BState>)
    requires Turns(img, run) && |run| > 0
    ensures BRun(img, m, run)
  {
    hide BNext;
  }

  lemma OneStepRun(img: Image, m: Meaning, b: BState, b': BState)
    requires BStep(img, m, b, b')
    ensures BRun(img, m, [b, b'])
  {
    hide BStep;
  }

  /** Every run of the CPU is matched by a run of the bytes, at least as long, ending in a related state. */
  lemma {:induction false} SimRun(ws: seq<Word>, img: Image, lens: seq<nat>, base: nat, m: Meaning, run: seq<CState>,
                                  b: BState)
    returns (bytes: seq<BState>)
    requires Compiles(ws, img, lens) && CRun(ws, m, run) && Sim(ws, lens, base, run[0], b)
    requires forall i :: 0 <= i < |run| - 1 ==> ReadsWritten(ws, run[i]) && Room(ws, run[i], base, |b.rm|)
    requires forall i :: 0 <= i < |run| ==> base + Used(run[i].frames) <= |b.rm|
    ensures |bytes| >= |run| && bytes[0] == b && BRun(img, m, bytes)
    ensures Sim(ws, lens, base, run[|run| - 1], bytes[|bytes| - 1]) && |bytes[|bytes| - 1].rm| == |b.rm|
    decreases |run|
  {
    hide Compiles, Sim, CStep, BStep, ReadsWritten, Room;
    if |run| == 1 {
      bytes := [b];
    } else {
      assert CStep(ws, m, run[0], run[1]);
      assert base + Used(run[1].frames) <= |b.rm|;
      var first := SimStep(ws, img, lens, base, m, run[0], run[1], b);
      var rest := run[1..];
      forall i | 0 <= i < |rest| - 1
        ensures CStep(ws, m, rest[i], rest[i + 1])
      {
        assert CStep(ws, m, run[i + 1], run[i + 2]);
      }
      var more := SimRun(ws, img, lens, base, m, rest, first[|first| - 1]);
      bytes := first + more[1..];
      JoinRuns(img, m, first, more);
    }
  }

  lemma JoinRuns(img: Image, m: Meaning, a: seq<BState>, b: seq<BState>)
    requires BRun(img, m, a) && BRun(img, m, b) && a[|a| - 1] == b[0]
    ensures BRun(img, m, a + b[1..])
  {
    hide BStep;
    var ab := a + b[1..];
    forall i | 0 <= i < |ab| - 1
      ensures BStep(img, m, ab[i], ab[i + 1])
    {
      if i < |a| - 1 {
        assert BStep(img, m, a[i], a[i + 1]);
      } else {
        assert BStep(img, m, b[i - (|a| - 1)], b[i - (|a| - 1) + 1]);
      }
    }
  }

  /** Entering a word from outside (T0_DEFENTRY) saves address 0 and relates the two machines. */
  lemma EntryRelated(ws: seq<Word>, img: Image, lens: seq<nat>, w: nat, ds: seq<u32>, rm: seq<u32>, base: nat)
    requires Compiles(ws, img, lens) && w < |ws| && ws[w].Interpreted?
    requires base + 1 + ws[w].numLocals <= |rm|
    ensures var b := EnterSlot(img, BState(0, ds, rm, base), Slot(ws, w));
            b.Go? && Sim(ws, lens, base, CEntry(ws, w, ds), b.s) && |b.s.rm| == |rm|
  {
    hide ImageOf, OpAddr, Program, WellFormed, Fits, EnterSlot, Slot;
    ImageFacts(ws, img, lens);
    EntryOp(ws, w);
    CodeFits(ws, img, w);
    OpAddrRange(ws, img, lens, w, 0);
    EnterTurn(ws, img, lens, w, BState(0, ds, rm, base));
    var n := ws[w].numLocals;
    var f := Frame(None, NewLocals(n));
    var rm' := rm[base + n := n * 0x10000];
    PackedFrame(ws, lens, f, rm', base + 1 + n, 0);
    assert [f][..0] == [];
    assert Used([f]) == 1 + n;
    assert FramesAt(ws, lens, [f][..0], rm', base);
    assert FramesAt(ws, lens, [f], rm', base);
    assert WordAt(ws, [f], 0);
  }

  /** The compiler theorem. A word entered on both machines with the same data stack: any run of the CPU that reads only
      written locals is matched by a run of the bytes ending in a related state; when the CPU has returned from the
      outermost word, the run loop leaves with the same data stack and the return stack as it was before the entry. */
  lemma CompiledRun(ws: seq<Word>, img: Image, lens: seq<nat>, w: nat, ds: seq<u32>, rm: seq<u32>, base: nat,
                    m: Meaning, run: seq<CState>)
    returns (bytes: seq<BState>)
    requires Compiles(ws, img, lens) && w < |ws| && ws[w].Interpreted?
    requires CRun(ws, m, run) && run[0] == CEntry(ws, w, ds)
    requires forall i :: 0 <= i < |run| ==> ReadsWritten(ws, run[i]) && Room(ws, run[i], base, |rm|)
    ensures |bytes| >= |run| && BRun(img, m, bytes)
    ensures EnterSlot(img, BState(0, ds, rm, base), Slot(ws, w)) == Go(bytes[0])
    ensures bytes[|bytes| - 1].ds == run[|run| - 1].ds
    ensures CNext(ws, run[|run| - 1]).CHalt? ==>
              BNext(img, bytes[|bytes| - 1]) == Exit(CNext(ws, run[|run| - 1]).ds, base)
  {
    hide *;
    RunStarts(ws, m, run);
    EntryRoom(ws, w, ds, base, |rm|);
    EntryRelated(ws, img, lens, w, ds, rm, base);
    var b := EnterSlot(img, BState(0, ds, rm, base), Slot(ws, w)).s;
    AllUsed(ws, run, base, |rm|);
    bytes := SimRun(ws, img, lens, base, m, run, b);
    SameStack(ws, lens, base, run[|run| - 1], bytes[|bytes| - 1]);
    if CNext(ws, run[|run| - 1]).CHalt? {
      CompiledImage(ws, img, lens);
      HaltMatches(ws, img, lens, base, run[|run| - 1], bytes[|bytes| - 1]);
    }
  }

  lemma RunStarts(ws: seq<Word>, m: Meaning, run: seq<CState>)
    requires CRun(ws, m, run)
    ensures |run| > 0
  {
  }

  lemma AllUsed(ws: seq<Word>, run: seq<CState>, base: nat, size: nat)
    requires forall i :: 0 <= i < |run| ==> Room(ws, run[i], base, size)
    ensures forall i :: 0 <= i < |run| ==> base + Used(run[i].frames) <= size
  {
    hide Room, Used;
    forall i | 0 <= i < |run|
      ensures base + Used(run[i].frames) <= size
    {
      RoomUsed(ws, run[i], base, size);
    }
  }

  lemma EntryRoom(ws: seq<Word>, w: nat, ds: seq<u32>, base: nat, size: nat)
    requires w < |ws| && ws[w].Interpreted?
    ensures Room(ws, CEntry(ws, w, ds), base, size) ==> base + 1 + ws[w].numLocals <= size
  {
    assert CEntry(ws, w, ds).frames[..0] == [];
  }

  lemma CompiledImage(ws: seq<Word>, img: Image, lens: seq<nat>)
    requires Compiles(ws, img, lens)
    ensures ImageOf(ws, img, lens)
  {
  }

  /** Nothing else can happen: whatever a snippet does in the run loop, the CPU can do in the related state. All other
      turns of the run loop are deterministic. */
  lemma NativeReflected(ws: seq<Word>, img: Image, lens: seq<nat>, base: nat, m: Meaning, s: CState, b: BState,
                        b': BState)
    requires ImageOf(ws, img, lens) && Sim(ws, lens, base, s, b) && CNext(ws, s).CNative? && BStep(img, m, b, b')
    ensures CStep(ws, m, s, CNext(ws, s).s.(ds := b'.ds))
    ensures Sim(ws, lens, base, CNext(ws, s).s.(ds := b'.ds), b') && b'.rm == b.rm
  {
    hide ImageOf, Sim, OpAddr, BNext, AtOp, Program, WellFormed;
    SimAtOp(ws, img, lens, base, s, b);
    SameStack(ws, lens, base, s, b);
    var t := CurrentOp(ws, s).target;
    CallTurn(ws, img, lens, s.w, s.off, b, t);
    Successor(ws, s.w, s.off);
    SimMove(ws, img, lens, base, s, b, s.off + 1, b'.ds);
  }

  /** Reading a local that was never written: the CPU pushes 0 and the run loop the stale cell, so the data stacks
      agree exactly when that cell holds 0. */
  lemma UnwrittenLocal(ws: seq<Word>, img: Image, lens: seq<nat>, base: nat, m: Meaning, s: CState, b: BState)
    requires ImageOf(ws, img, lens) && Sim(ws, lens, base, s, b)
    requires CurrentOp(ws, s).GetLocal? && !ReadsWritten(ws, s)
    ensures CNext(ws, s).CGo? && BNext(img, b).Go? && 0 <= b.rp - 2 - CurrentOp(ws, s).n < |b.rm|
    ensures BNext(img, b).s.ds == CNext(ws, s).s.ds <==> b.rm[b.rp - 2 - CurrentOp(ws, s).n] == 0
  {
    hide ImageOf, OpAddr, BNext, AtOp, Program, WellFormed, SavedAddr, WordsOf;
    SimAtOp(ws, img, lens, base, s, b);
    var n := CurrentOp(ws, s).n;
    LocalNumber(ws, s.w, s.off);
    LocalTurn(ws, img, lens, s.w, s.off, b, n);
    var stale := b.rm[b.rp - 2 - n];
    assert (s.ds + [0])[|s.ds|] == 0 && (s.ds + [stale])[|s.ds|] == stale;
  }
}
