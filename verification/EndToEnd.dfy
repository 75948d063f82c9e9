/** Analysis, compilation and execution together: an analysed program, compiled and run on a return stack of the
    size the analysis asks for, behaves as the CPU does and never faults. */
module EndToEnd {
  import opened Machine32
  import opened Code
  import opened Image
  import opened Flow
  import opened FlowAnalysis
  import opened SourceMachine
  import opened ByteMachine
  import opened CodeMap
  import opened Simulation
  import opened RunSafety
  import opened Limits

  /** What runs of a word start from: the compiled program, the analysis, the meaning of the native words, the word
      and its inputs, and the return stack memory filled up to `base`. */
  datatype Setting = Setting(ws: seq<Word>, img: Image, lens: seq<nat>, infos: seq<Info>, sums: seq<Summary>,
                             m: Meaning,
                             w: nat, ds: seq<u32>, g: nat, rm: seq<u32>, base: nat)
  {
    /** The program is compiled, the word analysed, its inputs there, and the native words honest. */
    ghost predicate Sound() {
      Compiles(ws, img, lens) && Ready(ws, infos, sums, m, w, ds, g)
    }

    /** A run of the CPU from the entry of the word. */
    ghost predicate Runs(run: seq<CState>) {
      CRun(ws, m, run) && w < |ws| && ws[w].Interpreted? && run[0] == CEntry(ws, w, ds)
    }

    /** A run of the bytes from the entry of the word. */
    ghost predicate BytesRun(bytes: seq<BState>) {
      BRun(img, m, bytes) && w < |ws| && EnterSlot(img, BState(0, ds, rm, base), Slot(ws, w)) == Go(bytes[0])
    }

    /** The entry word is analysed; its MaxReturnStack. */
    ghost function Cells(): int { if w < |infos| then infos[w].maxReturnStack else 0 }

    /** The memory has MaxReturnStack cells above `base`, and one more if some word reachable by calls calls a data
        word. */
    ghost predicate Capacity() {
      base + Cells() + (if CallsData(ws, infos, w) then 1 else 0) <= |rm|
    }
  }

  // ----- Room -----

  /** Frames never use more than MaxReturnStack cells. */
  lemma FramesFit(x: Setting, run: seq<CState>, i: nat)
    requires x.Sound() && x.Runs(run) && i < |run|
    ensures Used(run[i].frames) <= x.Cells()
    ensures AtDataCall(x.ws, run[i]) ==> CallsData(x.ws, x.infos, x.w)
  {
    hide Compiles, Ready, CStep, CEntry, AtDataCall, CallsData, Used;
    RunPrefix(x.ws, x.m, run, i + 1);
    ReadySizes(x);
    BoundedRun(x.ws, x.infos, x.sums, x.m, x.w, x.ds, x.g, run[..i + 1]);
    if AtDataCall(x.ws, run[i]) {
      DataCallReached(x.ws, x.infos, x.sums, x.m, x.w, x.ds, x.g, run[..i + 1]);
    }
  }

  lemma ReadySizes(x: Setting)
    requires x.Sound()
    ensures x.w < |x.ws| == |x.infos| && x.ws[x.w].Interpreted?
  {
    hide Compiles, NativesKeep, GrowthBound, WellFormed;
  }

  lemma RoomIs(ws: seq<Word>, s: CState, base: nat, size: nat)
    ensures Room(ws, s, base, size) <==> base + Used(s.frames) + (if AtDataCall(ws, s) then 1 else 0) <= size
  {
  }

  lemma CapacityRoom(x: Setting, run: seq<CState>, i: nat)
    requires x.Sound() && x.Runs(run) && i < |run| && x.Capacity()
    ensures Room(x.ws, run[i], x.base, |x.rm|)
  {
    hide Setting.Sound, Setting.Runs, Setting.Cells, Room, AtDataCall, CallsData, Used;
    FramesFit(x, run, i);
    RoomIs(x.ws, run[i], x.base, |x.rm|);
  }

  // ----- Runs of the CPU are matched -----

  /** A run of the CPU whose states all have room, the last one possibly excepted, is matched up to a related state. */
  lemma MatchedRun(x: Setting, run: seq<CState>) returns (bytes: seq<BState>)
    requires x.Sound() && x.Runs(run) && x.base + x.Cells() <= |x.rm|
    requires forall i :: 0 <= i < |run| - 1 ==> ReadsWritten(x.ws, run[i]) && Room(x.ws, run[i], x.base, |x.rm|)
    ensures |bytes| >= |run| && x.BytesRun(bytes)
    ensures Sim(x.ws, x.lens, x.base, run[|run| - 1], bytes[|bytes| - 1]) && |bytes[|bytes| - 1].rm| == |x.rm|
  {
    ghost var b := EntryState(x, run);
    hide Compiles, Ready, Sim, CStep, BStep, Slot, ReadsWritten, Room, EnterSlot, Setting.Cells, Used;
    forall i | 0 <= i < |run|
      ensures x.base + Used(run[i].frames) <= |x.rm|
    {
      FramesFit(x, run, i);
    }
    bytes := SimRun(x.ws, x.img, x.lens, x.base, x.m, run, b);
  }

  lemma EntryState(x: Setting, run: seq<CState>) returns (b: BState)
    requires x.Sound() && x.Runs(run) && x.base + x.Cells() <= |x.rm|
    ensures EnterSlot(x.img, BState(0, x.ds, x.rm, x.base), Slot(x.ws, x.w)) == Go(b)
    ensures Sim(x.ws, x.lens, x.base, run[0], b) && |b.rm| == |x.rm|
  {
    FramesFit(x, run, 0);
    EntryUsed(x.ws, x.w, x.ds);
    hide Compiles, Ready, Sim, CStep, Slot, EnterSlot, Setting.Cells;
    EntryRelated(x.ws, x.img, x.lens, x.w, x.ds, x.rm, x.base);
    b := EnterSlot(x.img, BState(0, x.ds, x.rm, x.base), Slot(x.ws, x.w)).s;
  }

  lemma EntryUsed(ws: seq<Word>, w: nat, ds: seq<u32>)
    requires w < |ws| && ws[w].Interpreted?
    ensures Used(CEntry(ws, w, ds).frames) == 1 + ws[w].numLocals
  {
    assert CEntry(ws, w, ds).frames[..0] == [];
  }

  // ----- The next turn -----

  /** Where the CPU goes on by itself, so does the run loop. */
  lemma NextGoes(x: Setting, run: seq<CState>, b: BState) returns (turns: seq<BState>)
    requires x.Sound() && x.Runs(run) && x.base + x.Cells() <= |b.rm|
    requires Sim(x.ws, x.lens, x.base, run[|run| - 1], b)
    requires ReadsWritten(x.ws, run[|run| - 1]) && Room(x.ws, run[|run| - 1], x.base, |b.rm|)
    requires CNext(x.ws, run[|run| - 1]).CGo?
    ensures |turns| >= 2 && turns[0] == b && Turns(x.img, turns) && |turns[|turns| - 1].rm| == |b.rm|
    ensures x.Runs(run + [CNext(x.ws, run[|run| - 1]).s])
    ensures Sim(x.ws, x.lens, x.base, CNext(x.ws, run[|run| - 1]).s, turns[|turns| - 1])
  {
    hide Compiles, Ready, Sim, ReadsWritten, Room, CNext, CEntry, Setting.Cells, Used, CRun;
    RunStarts(x.ws, x.m, run);
    var s := run[|run| - 1];
    GoIsStep(x.ws, x.m, s);
    RunExtend(x.ws, x.m, run, CNext(x.ws, s).s);
    FramesFit(x, run + [CNext(x.ws, s).s], |run|);
    turns := OwnStep(x.ws, x.img, x.lens, x.base, s, b);
  }

  lemma GoIsStep(ws: seq<Word>, m: Meaning, s: CState)
    requires CNext(ws, s).CGo?
    ensures CStep(ws, m, s, CNext(ws, s).s)
  {
    hide CNext;
  }

  lemma NativeTurn(ws: seq<Word>, img: Image, lens: seq<nat>, base: nat, s: CState, b: BState)
    requires Compiles(ws, img, lens) && Sim(ws, lens, base, s, b) && CNext(ws, s).CNative?
    ensures BNext(img, b).Snippet?
  {
    hide ImageOf, Sim, BNext, AtOp, Program, Fits;
    SimAtOp(ws, img, lens, base, s, b);
    CallTurn(ws, img, lens, s.w, s.off, b, CurrentOp(ws, s).target);
  }

  lemma HaltStack(ws: seq<Word>, s: CState)
    requires CNext(ws, s).CHalt?
    ensures CNext(ws, s).ds == s.ds
  {
  }

  lemma NeverStuck(x: Setting, run: seq<CState>)
    requires x.Sound() && x.Runs(run)
    ensures !CNext(x.ws, run[|run| - 1]).CStuck?
  {
    hide Compiles, Ready, CRun, CNext;
    SafeRun(x.ws, x.infos, x.sums, x.m, x.w, x.ds, x.g, run);
  }

  /** The turn after a matched run: the run loop does not fault, and it leaves exactly when the CPU does. */
  lemma LastTurn(x: Setting, run: seq<CState>, last: BState)
    requires x.Sound() && x.Runs(run) && x.base + x.Cells() <= |last.rm|
    requires Sim(x.ws, x.lens, x.base, run[|run| - 1], last)
    requires ReadsWritten(x.ws, run[|run| - 1]) && Room(x.ws, run[|run| - 1], x.base, |last.rm|)
    ensures !BNext(x.img, last).Fault?
    ensures CNext(x.ws, run[|run| - 1]).CHalt? ==> BNext(x.img, last) == Exit(run[|run| - 1].ds, x.base)
    ensures BNext(x.img, last).Exit? ==> CNext(x.ws, run[|run| - 1]).CHalt?
  {
    hide Compiles, Ready, Sim, CNext, BNext, ReadsWritten, Room, CRun, CEntry, Setting.Cells;
    RunStarts(x.ws, x.m, run);
    var s := run[|run| - 1];
    NeverStuck(x, run);
    if CNext(x.ws, s).CHalt? {
      CompiledImage(x.ws, x.img, x.lens);
      HaltMatches(x.ws, x.img, x.lens, x.base, s, last);
      HaltStack(x.ws, s);
    } else if CNext(x.ws, s).CNative? {
      NativeTurn(x.ws, x.img, x.lens, x.base, s, last);
    } else {
      var turns := NextGoes(x, run, last);
      assert BNext(x.img, turns[0]) == Go(turns[1]);
    }
  }

  // ----- The theorems -----

  /** The whole chain. An entry word whose analysis succeeded, entered on both machines with at least its inputs,
      honest native words, reads of written locals only, and a return stack with the room the analysis asks for:
      every run of the CPU is matched by a run of the bytes with the same data stack, whose height stays within the
      computed bound; the run loop does not fault there, and it leaves with the CPU's final stack when the word
      returns. */
  lemma CheckedProgramRuns(x: Setting, run: seq<CState>) returns (bytes: seq<BState>)
    requires x.Sound() && x.Capacity() && x.Runs(run)
    requires forall i :: 0 <= i < |run| ==> ReadsWritten(x.ws, run[i])
    ensures |bytes| >= |run| && x.BytesRun(bytes) && bytes[|bytes| - 1].ds == run[|run| - 1].ds
    ensures |bytes[|bytes| - 1].ds| <= |x.ds| + x.infos[x.w].maxDataStack + x.g
    ensures !BNext(x.img, bytes[|bytes| - 1]).Fault?
    ensures CNext(x.ws, run[|run| - 1]).CHalt? ==>
              BNext(x.img, bytes[|bytes| - 1]) == Exit(run[|run| - 1].ds, x.base)
              && |run[|run| - 1].ds| == |x.ds| + x.infos[x.w].effect.dout - x.infos[x.w].effect.din
  {
    hide Compiles, Ready, Sim, CRun, CNext, BNext, Slot, ReadsWritten, Room, EnterSlot, BRun, CallsData, CEntry;
    forall i | 0 <= i < |run|
      ensures Room(x.ws, run[i], x.base, |x.rm|)
    {
      CapacityRoom(x, run, i);
    }
    RunStarts(x.ws, x.m, run);
    bytes := MatchedRun(x, run);
    SameStack(x.ws, x.lens, x.base, run[|run| - 1], bytes[|bytes| - 1]);
    LastTurn(x, run, bytes[|bytes| - 1]);
    BoundedRun(x.ws, x.infos, x.sums, x.m, x.w, x.ds, x.g, run);
    SafeRun(x.ws, x.infos, x.sums, x.m, x.w, x.ds, x.g, run);
  }

  /** No run of the CPU from this entry reads a local before it is written. */
  ghost predicate NeverStale(x: Setting) {
    forall run: seq<CState> :: x.Runs(run) ==> ReadsWritten(x.ws, run[|run| - 1])
  }

  /** `run` is where the CPU is when the run loop is at `b`: related to the state some turns of the run loop ahead,
      which only depend on `b` (none, unless a data word is being run). */
  ghost predicate Follows(x: Setting, run: seq<CState>, ahead: seq<BState>, b: BState) {
    && x.Runs(run) && ahead != [] && ahead[0] == b && Turns(x.img, ahead)
    && Sim(x.ws, x.lens, x.base, run[|run| - 1], ahead[|ahead| - 1]) && |ahead[|ahead| - 1].rm| == |x.rm|
  }

  /** Conversely, every run of the bytes is followed by a run of the CPU. */
  lemma {:induction false} EveryByteRun(x: Setting, bytes: seq<BState>) returns (run: seq<CState>, ahead: seq<BState>)
    requires x.Sound() && x.Capacity() && NeverStale(x) && x.BytesRun(bytes)
    ensures Follows(x, run, ahead, bytes[|bytes| - 1])
    decreases |bytes|
  {
    hide Setting.Sound, Setting.Capacity, NeverStale, BStep, EnterSlot, Slot, Follows;
    if |bytes| == 1 {
      run, ahead := FollowsEntry(x, bytes[0]);
    } else {
      var front := bytes[..|bytes| - 1];
      forall i | 0 <= i < |front| - 1
        ensures BStep(x.img, x.m, front[i], front[i + 1])
      {
        assert BStep(x.img, x.m, bytes[i], bytes[i + 1]);
      }
      run, ahead := EveryByteRun(x, front);
      assert BStep(x.img, x.m, bytes[|bytes| - 2], bytes[|bytes| - 1]);
      run, ahead := FollowsStep(x, run, ahead, bytes[|bytes| - 2], bytes[|bytes| - 1]);
    }
  }

  lemma EntryRun(x: Setting)
    requires x.Sound()
    ensures x.w < |x.ws| && x.ws[x.w].Interpreted? && x.Runs([CEntry(x.ws, x.w, x.ds)])
  {
    ReadySizes(x);
  }

  lemma CapacityCells(x: Setting)
    requires x.Capacity()
    ensures x.base + x.Cells() <= |x.rm|
  {
    hide CallsData;
  }

  lemma FollowsEntry(x: Setting, b: BState) returns (run: seq<CState>, ahead: seq<BState>)
    requires x.Sound() && x.Capacity()
    requires x.w < |x.ws| && EnterSlot(x.img, BState(0, x.ds, x.rm, x.base), Slot(x.ws, x.w)) == Go(b)
    ensures Follows(x, run, ahead, b)
  {
    hide Setting.Sound, Setting.Runs, Setting.Capacity, EnterSlot, Slot, Sim, CEntry;
    EntryRun(x);
    run := [CEntry(x.ws, x.w, x.ds)];
    CapacityCells(x);
    var entry := EntryState(x, run);
    ahead := [b];
  }

  lemma FollowsStep(x: Setting, run: seq<CState>, ahead: seq<BState>, b: BState, b': BState)
    returns (run': seq<CState>, ahead': seq<BState>)
    requires x.Sound() && x.Capacity() && NeverStale(x) && Follows(x, run, ahead, b) && BStep(x.img, x.m, b, b')
    ensures Follows(x, run', ahead', b')
  {
    hide Setting.Sound, Setting.Capacity, NeverStale, Setting.Runs, BNext, Sim, ReadsWritten, Room, CNext;
    if |ahead| > 1 {
      assert BNext(x.img, ahead[0]) == Go(ahead[1]);
      run', ahead' := run, ahead[1..];
      forall i | 0 <= i < |ahead'| - 1
        ensures BNext(x.img, ahead'[i]) == Go(ahead'[i + 1])
      {
        assert BNext(x.img, ahead[i + 1]) == Go(ahead[i + 2]);
      }
    } else {
      HereReady(x, run);
      run', ahead' := FollowsTurn(x, run, b, b');
    }
  }

  lemma HereReady(x: Setting, run: seq<CState>)
    requires x.Sound() && x.Capacity() && NeverStale(x) && x.Runs(run)
    ensures |run| > 0 && ReadsWritten(x.ws, run[|run| - 1]) && Room(x.ws, run[|run| - 1], x.base, |x.rm|)
    ensures x.base + x.Cells() <= |x.rm| && Compiles(x.ws, x.img, x.lens) && ImageOf(x.ws, x.img, x.lens)
  {
    hide ReadsWritten, Room, Setting.Cells, CallsData, ImageOf, Ready, CEntry, CStep;
    CapacityCells(x);
    CapacityRoom(x, run, |run| - 1);
  }

  lemma FollowsTurn(x: Setting, run: seq<CState>, b: BState, b': BState)
    returns (run': seq<CState>, ahead: seq<BState>)
    requires x.Sound() && x.Capacity() && NeverStale(x) && x.Runs(run)
    requires |run| > 0 && Sim(x.ws, x.lens, x.base, run[|run| - 1], b) && |b.rm| == |x.rm|
    requires BStep(x.img, x.m, b, b')
    ensures Follows(x, run', ahead, b')
  {
    hide Setting.Sound, Setting.Capacity, NeverStale, Setting.Runs, BNext, Sim, ReadsWritten, Room, CNext, Compiles;
    hide ImageOf;
    HereReady(x, run);
    NeverStuck(x, run);
    var s := run[|run| - 1];
    if CNext(x.ws, s).CNative? {
      NativeReflected(x.ws, x.img, x.lens, x.base, x.m, s, b, b');
      run', ahead := run + [CNext(x.ws, s).s.(ds := b'.ds)], [b'];
      RunsMore(x, run, CNext(x.ws, s).s.(ds := b'.ds));
    } else if CNext(x.ws, s).CGo? {
      var turns := NextGoes(x, run, b);
      assert BNext(x.img, turns[0]) == Go(turns[1]);
      run', ahead := run + [CNext(x.ws, s).s], turns[1..];
      forall i | 0 <= i < |ahead| - 1
        ensures BNext(x.img, ahead[i]) == Go(ahead[i + 1])
      {
        assert BNext(x.img, turns[i + 1]) == Go(turns[i + 2]);
      }
    } else {
      HaltMatches(x.ws, x.img, x.lens, x.base, s, b);
      assert false;
    }
  }

  lemma RunsMore(x: Setting, run: seq<CState>, s: CState)
    requires x.Runs(run) && |run| > 0 && CStep(x.ws, x.m, run[|run| - 1], s)
    ensures x.Runs(run + [s])
  {
    hide CStep, CEntry;
    RunExtend(x.ws, x.m, run, s);
  }

  /** The run loop never faults. In every run of the bytes from the entry of an analysed word, whatever the
      snippets do within their effects, the next turn is not a fault; and if it leaves the loop, the CPU has a run
      that leaves the word with the same data stack, and the return stack is as it was before the entry. */
  lemma NeverFaults(x: Setting, bytes: seq<BState>)
    requires x.Sound() && x.Capacity() && NeverStale(x) && x.BytesRun(bytes)
    ensures !BNext(x.img, bytes[|bytes| - 1]).Fault?
    ensures BNext(x.img, bytes[|bytes| - 1]).Exit? ==>
              exists run: seq<CState> :: x.Runs(run) && CNext(x.ws, run[|run| - 1]).CHalt?
                            && BNext(x.img, bytes[|bytes| - 1]) == Exit(run[|run| - 1].ds, x.base)
  {
    var run, ahead := EveryByteRun(x, bytes);
    hide Setting.Sound, Setting.Capacity, NeverStale, BNext, Sim, ReadsWritten, Room, CNext, Compiles, ImageOf, BRun;
    var b := bytes[|bytes| - 1];
    if |ahead| > 1 {
      assert BNext(x.img, ahead[0]) == Go(ahead[1]);
    } else {
      HereReady(x, run);
      LastTurn(x, run, b);
    }
  }

  /** The state calls a data word while the frames already fill MaxReturnStack cells. */
  ghost predicate Overfull(x: Setting, s: CState) {
    AtDataCall(x.ws, s) && Used(s.frames) == x.Cells()
  }

  /** MaxReturnStack cells are enough for a run exactly when it never calls a data word from frames that fill them:
      then the whole run is matched and the next turn is no fault; otherwise the run is matched up to the first
      such call, and there the run loop faults. */
  lemma ReturnLimitIff(x: Setting, run: seq<CState>) returns (bytes: seq<BState>, k: nat)
    requires x.Sound() && x.Runs(run) && |x.rm| == x.base + x.Cells()
    requires forall i :: 0 <= i < |run| ==> ReadsWritten(x.ws, run[i])
    ensures k < |run| && x.BytesRun(bytes) && Sim(x.ws, x.lens, x.base, run[k], bytes[|bytes| - 1])
    ensures (forall i :: 0 <= i < |run| ==> !Overfull(x, run[i])) <==> !BNext(x.img, bytes[|bytes| - 1]).Fault?
    ensures !BNext(x.img, bytes[|bytes| - 1]).Fault? ==> k == |run| - 1
    ensures BNext(x.img, bytes[|bytes| - 1]).Fault? ==> Overfull(x, run[k])
  {
    hide Setting.Sound, Setting.Cells, Compiles, Ready, Sim, CRun, CNext, BNext, Slot, ReadsWritten, Room, EnterSlot;
    hide Overfull, BRun, CEntry;
    RunStarts(x.ws, x.m, run);
    k := FirstOverfull(x, run);
    forall i | 0 <= i < k
      ensures Room(x.ws, run[i], x.base, |x.rm|)
    {
      RoomUnlessOverfull(x, run, i);
    }
    RunPrefix(x.ws, x.m, run, k + 1);
    RoomUnlessOverfull(x, run, k);
    bytes := MatchedRun(x, run[..k + 1]);
    if Overfull(x, run[k]) {
      OverfullFaults(x, run[k], bytes[|bytes| - 1]);
    } else {
      LastTurn(x, run, bytes[|bytes| - 1]);
    }
  }

  lemma FirstOverfull(x: Setting, run: seq<CState>) returns (k: nat)
    requires |run| > 0
    ensures k < |run| && (forall i :: 0 <= i < k ==> !Overfull(x, run[i])) && (k < |run| - 1 ==> Overfull(x, run[k]))
    ensures (forall i :: 0 <= i < |run| ==> !Overfull(x, run[i])) <==> !Overfull(x, run[k])
  {
    hide Overfull;
    k := 0;
    while k < |run| - 1 && !Overfull(x, run[k])
      invariant k < |run| && forall i :: 0 <= i < k ==> !Overfull(x, run[i])
    {
      k := k + 1;
    }
  }

  lemma RoomUnlessOverfull(x: Setting, run: seq<CState>, i: nat)
    requires x.Sound() && x.Runs(run) && i < |run| && |x.rm| == x.base + x.Cells()
    ensures Overfull(x, run[i]) || Room(x.ws, run[i], x.base, |x.rm|)
    ensures x.base + x.Cells() <= |x.rm|
  {
    hide Setting.Sound, Setting.Runs, Setting.Cells, Room, AtDataCall, CallsData, Used;
    FramesFit(x, run, i);
    RoomIs(x.ws, run[i], x.base, |x.rm|);
  }

  lemma OverfullFaults(x: Setting, s: CState, b: BState)
    requires x.Sound() && Overfull(x, s) && Sim(x.ws, x.lens, x.base, s, b) && |b.rm| == x.base + x.Cells()
    ensures BNext(x.img, b).Fault?
  {
    hide Compiles, Ready, Sim, BNext, Setting.Cells, Used;
    DataCallFault(x.ws, x.img, x.lens, x.base, s, b);
  }
}
