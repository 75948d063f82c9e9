/** The guarantee of the analysis for every word entered in the course of a run, not only for the one it starts with. */
module Called {
  import opened Machine32
  import opened Code
  import opened Flow
  import opened FlowAnalysis
  import opened SourceMachine
  import opened RunSafety

  /** The state as the frame at depth `d` sees it: itself outermost. */
  function Dropped(s: CState, d: nat): CState
    requires d < |s.frames|
  {
    CState(s.w, s.off, s.ds, [Frame(None, s.frames[d].locals)] + s.frames[d + 1..])
  }

  /** While that frame lives, a step is also a step without the frames below it. */
  lemma DroppedStep(ws: seq<Word>, m: Meaning, s: CState, s': CState, d: nat)
    requires CStep(ws, m, s, s') && d < |s.frames| && d < |s'.frames|
    ensures CStep(ws, m, Dropped(s, d), Dropped(s', d))
  {
    hide Dropped;
    DroppedShape(s, d);
    DroppedShape(s', d);
    assert Running(ws, s) && Running(ws, Dropped(s, d));
    assert Top(Dropped(s, d)).locals == Top(s).locals;
    match CurrentOp(ws, s) {
      case PutLocal(_) => DroppedTop(s, s', d);
      case Ret => DroppedPop(s, s', d);
      case Call(t) =>
        if ws[t].Interpreted? { DroppedPush(s, s', d); }
      case _ =>
    }
  }

  lemma DroppedShape(s: CState, d: nat)
    requires d < |s.frames|
    ensures var r := Dropped(s, d);
            && r.w == s.w && r.off == s.off && r.ds == s.ds && |r.frames| == |s.frames| - d
            && r.frames[|r.frames| - 1].locals == s.frames[|s.frames| - 1].locals
    ensures forall s2: CState :: s2.frames == s.frames ==> Dropped(s2, d).frames == Dropped(s, d).frames
  {
  }

  lemma DroppedPush(s: CState, s': CState, d: nat)
    requires d < |s.frames| && |s'.frames| == |s.frames| + 1 && s'.frames[..|s.frames|] == s.frames
    ensures Dropped(s', d).frames == Dropped(s, d).frames + [s'.frames[|s.frames|]]
  {
  }

  lemma DroppedTop(s: CState, s': CState, d: nat)
    requires d < |s.frames| == |s'.frames| && s'.frames == s.frames[|s.frames| - 1 := s'.frames[|s.frames| - 1]]
    requires s'.frames[|s.frames| - 1].saved == s.frames[|s.frames| - 1].saved
    ensures var a, b, k := Dropped(s, d).frames, Dropped(s', d).frames, |s.frames| - 1 - d;
            |a| == |b| == k + 1 && b == a[k := a[k].(locals := s'.frames[|s.frames| - 1].locals)]
  {
    var a, b, k := Dropped(s, d).frames, Dropped(s', d).frames, |s.frames| - 1 - d;
    forall i | 0 <= i < |b|
      ensures b[i] == a[k := a[k].(locals := s'.frames[|s.frames| - 1].locals)][i]
    {
    }
  }

  lemma DroppedPop(s: CState, s': CState, d: nat)
    requires |s.frames| > 0 && s'.frames == s.frames[..|s.frames| - 1] && d < |s'.frames|
    ensures var a, b := Dropped(s, d).frames, Dropped(s', d).frames;
            |a| > 1 && b == a[..|a| - 1] && a[|a| - 1] == s.frames[|s.frames| - 1]
  {
  }

  /** The part of a run in which the frame opened after step `i` lives, as a run of the called word. */
  ghost predicate Alive(run: seq<CState>, i: nat, j: nat) {
    i < j < |run| && forall k :: i < k <= j ==> |run[k].frames| > |run[i].frames|
  }

  function Inner(run: seq<CState>, i: nat, j: nat): seq<CState>
    requires Alive(run, i, j)
  {
    seq(j - i, k requires 0 <= k < j - i => Dropped(run[i + 1 + k], |run[i].frames|))
  }

  lemma InnerRun(ws: seq<Word>, m: Meaning, run: seq<CState>, i: nat, j: nat)
    requires CRun(ws, m, run) && Alive(run, i, j)
    ensures CRun(ws, m, Inner(run, i, j))
  {
    hide CStep, Dropped;
    var inner := Inner(run, i, j);
    forall k | 0 <= k < |inner| - 1
      ensures CStep(ws, m, inner[k], inner[k + 1])
    {
      assert CStep(ws, m, run[i + 1 + k], run[i + 1 + k + 1]);
      DroppedStep(ws, m, run[i + 1 + k], run[i + 1 + k + 1], |run[i].frames|);
    }
  }

  /** The state is about to call the interpreted word `v`. */
  predicate AtCall(ws: seq<Word>, s: CState, v: nat) {
    Running(ws, s) && CurrentOp(ws, s) == Call(v) && v < |ws| && ws[v].Interpreted?
  }

  lemma InnerEntry(ws: seq<Word>, m: Meaning, run: seq<CState>, i: nat, j: nat, v: nat)
    requires CRun(ws, m, run) && Alive(run, i, j) && AtCall(ws, run[i], v)
    ensures Inner(run, i, j)[0] == CEntry(ws, v, run[i].ds)
  {
    assert CStep(ws, m, run[i], run[i + 1]);
    var s, s', d := run[i], run[i + 1], |run[i].frames|;
    assert s' == Enter(s.(off := s.off + 1), v, ws[v].numLocals);
    assert s'.frames[d + 1..] == [];
    assert Inner(run, i, j)[0] == Dropped(s', d);
  }

  /** At a call the inputs of the called word are there, above what belongs to the entry word's caller. */
  lemma InputsThere(ws: seq<Word>, infos: seq<Info>, sums: seq<Summary>, m: Meaning, w: nat, ds: seq<u32>, g: nat,
                    run: seq<CState>, v: nat)
    requires Ready(ws, infos, sums, m, w, ds, g) && CRun(ws, m, run) && run[0] == CEntry(ws, w, ds)
    requires AtCall(ws, run[|run| - 1], v)
    ensures Ready(ws, infos, sums, m, v, run[|run| - 1].ds, g)
  {
    hide Reach, State, WellFormed, NativesKeep, GrowthBound, CStep, Level;
    var bases := RunKeepsInv(ws, infos, sums, m, w, ds, g, run);
    TopFacts(ws, infos, sums, w, ds, g, run[|run| - 1], bases);
  }

  /** The state returns from the frame at depth `d`. */
  predicate ReturnsFrom(ws: seq<Word>, s: CState, d: nat) {
    Running(ws, s) && CurrentOp(ws, s).Ret? && |s.frames| == d + 1
  }

  /** Soundness of the analysis for called words. In any run of an analysed word, take a call of any interpreted
      word `v`, at any depth: its inputs are there; as long as its frame lives, nothing below its inputs changes
      and the CPU is not stuck; and when it returns, the height has changed since the call by exactly its recorded
      effect. */
  lemma CalledWordSafe(ws: seq<Word>, infos: seq<Info>, sums: seq<Summary>, m: Meaning, w: nat, ds: seq<u32>, g: nat,
                       run: seq<CState>, i: nat, j: nat, v: nat)
    requires Ready(ws, infos, sums, m, w, ds, g) && CRun(ws, m, run) && run[0] == CEntry(ws, w, ds)
    requires Alive(run, i, j) && AtCall(ws, run[i], v)
    ensures |infos| == |ws|
    ensures var base, s, se := run[i].ds, run[j], infos[v].effect;
            && 0 <= se.din <= |base| && |s.ds| >= |base| - se.din
            && s.ds[..|base| - se.din] == base[..|base| - se.din]
            && !CNext(ws, s).CStuck?
            && (ReturnsFrom(ws, s, |run[i].frames|) ==> !se.NoExit() && |s.ds| == |base| + se.dout - se.din)
  {
    hide Ready, CRun, CNext, Dropped, AtCall, CEntry, Alive;
    RunSizes(ws, m, run, i, j);
    RunPrefix(ws, m, run, i + 1);
    InputsThere(ws, infos, sums, m, w, ds, g, run[..i + 1], v);
    InnerRun(ws, m, run, i, j);
    InnerEntry(ws, m, run, i, j, v);
    var inner := Inner(run, i, j);
    SafeRun(ws, infos, sums, m, v, run[i].ds, g, inner);
    ReadyEffect(ws, infos, sums, m, v, run[i].ds, g);
    DroppedNext(ws, run[j], |run[i].frames|);
  }

  lemma RunSizes(ws: seq<Word>, m: Meaning, run: seq<CState>, i: nat, j: nat)
    requires CRun(ws, m, run) && Alive(run, i, j)
    ensures i < j < |run| && |run[j].frames| > |run[i].frames|
    ensures |Inner(run, i, j)| == j - i && Inner(run, i, j)[j - i - 1] == Dropped(run[j], |run[i].frames|)
  {
    hide CStep, Dropped;
  }

  lemma ReadyEffect(ws: seq<Word>, infos: seq<Info>, sums: seq<Summary>, m: Meaning, w: nat, ds: seq<u32>, g: nat)
    requires Ready(ws, infos, sums, m, w, ds, g)
    ensures w < |ws| == |infos| && 0 <= infos[w].effect.din <= |ds|
  {
    ReachEntry(ws[w].code, infos);
    hide Reach, WellFormed, NativesKeep, GrowthBound;
    NodeFacts(ws, infos, sums, w, Node(0, 0));
  }

  /** Dropping frames below changes the data stack of no outcome, and makes the return of the frame an end. */
  lemma DroppedNext(ws: seq<Word>, s: CState, d: nat)
    requires d < |s.frames|
    ensures Dropped(s, d).ds == s.ds
    ensures CNext(ws, s).CStuck? ==> CNext(ws, Dropped(s, d)).CStuck?
    ensures ReturnsFrom(ws, s, d) ==> CNext(ws, Dropped(s, d)) == CHalt(s.ds)
  {
    assert Running(ws, s) <==> Running(ws, Dropped(s, d));
    assert Top(Dropped(s, d)).locals == Top(s).locals;
  }
}
