/** What a successful flow analysis means for every run of the CPU, at any call depth: no underflow, the declared net
    effect, and the stack limits. */
module RunSafety {
  import opened Machine32
  import opened Code
  import opened Flow
  import opened Explore
  import opened FlowAnalysis
  import opened SourceMachine

  /** Native words do what their stack effect says: they leave what is below their inputs alone, replace the inputs
      by the outputs, and never return if declared so. */
  ghost predicate NativesKeep(ws: seq<Word>, m: Meaning) {
    forall w, ds: seq<u32>, ds': seq<u32> {:trigger ws[w], m(ws[w].ccode, ds, ds')} ::
      0 <= w < |ws| && ws[w].Native? && ws[w].effect.IsKnown() && |ds| >= ws[w].effect.din
      && m(ws[w].ccode, ds, ds') ==>
        NativeKeeps(ws[w].effect, ds, ds')
  }

  ghost predicate NativeKeeps(se: SType, ds: seq<u32>, ds': seq<u32>) {
    && !se.NoExit() && |ds| >= se.din >= 0 && |ds'| == |ds| - se.din + se.dout
    && |ds'| >= |ds| - se.din >= 0 && ds'[..|ds| - se.din] == ds[..|ds| - se.din]
  }

  /** `g` bounds the net growth of every native and data word. */
  ghost predicate GrowthBound(ws: seq<Word>, g: nat) {
    forall w :: 0 <= w < |ws| ==>
      match ws[w]
      case Native(_, se) => se.IsKnown() && !se.NoExit() ==> se.dout - se.din <= g
      case Data(_) => 1 <= g
      case _ => true
  }

  /** A table whose words called from `w` have all been analysed. */
  ghost predicate Checked(ws: seq<Word>, infos: seq<Info>, sums: seq<Summary>, w: nat) {
    State(ws, infos, sums, []) && WellFormed(ws) && w < |ws| && ws[w].Interpreted? && infos[w].flow == 1
  }

  /** Word of the frame at depth `i` of the call chain, outermost first. */
  function WordOf(s: CState, i: int): nat
    requires 0 <= i < |s.frames|
  {
    if i == |s.frames| - 1 then s.w
    else match s.frames[i + 1].saved case Some((w, _)) => w case None => 0
  }

  /** The frame at depth `i`: an analysed word, entered at stack height `bases[i]`, called by the frame below from
      an opcode its flow reaches at that height; its share of the stack stays above `floor`, and its limits fit in
      the caller's. */
  ghost predicate Level(ws: seq<Word>, infos: seq<Info>, s: CState, bases: seq<int>, floor: int, i: int)
    requires 0 <= i < |s.frames| == |bases| && |infos| == |ws|
  {
    var w := WordOf(s, i);
    && w < |ws| && ws[w].Interpreted? && infos[w].flow == 1
    && |s.frames[i].locals| == ws[w].numLocals
    && floor <= bases[i] - infos[w].effect.din
    && (i == 0 ==> s.frames[0].saved.None?)
    && (i > 0 ==> s.frames[i].saved.Some? && CalledFrom(ws, infos, s, bases, i))
  }

  ghost predicate CalledFrom(ws: seq<Word>, infos: seq<Info>, s: CState, bases: seq<int>, i: int)
    requires 0 < i < |s.frames| == |bases| && |infos| == |ws| && s.frames[i].saved.Some?
  {
    var (v, off) := s.frames[i].saved.value;
    && off > 0 && v < |ws| && ws[v].Interpreted? && CallsAt(ws[v].code, Node(off - 1, 0), WordOf(s, i))
    && Reach(ws[v].code, infos, Node(off - 1, bases[i] - bases[i - 1]))
  }

  /** The invariant of runs started by entering `w0` with stack `ds0`. */
  ghost predicate RunInv(ws: seq<Word>, infos: seq<Info>, w0: nat, ds0: seq<u32>, g: nat, s: CState, bases: seq<int>) {
    && |infos| == |ws| && w0 < |ws| && |bases| == |s.frames| > 0
    && WordOf(s, 0) == w0 && bases[0] == |ds0|
    && var floor := |ds0| - infos[w0].effect.din;
    && 0 <= floor <= |s.ds| && floor <= |ds0| && s.ds[..floor] == ds0[..floor]
    && (forall i :: 0 <= i < |bases| ==> Level(ws, infos, s, bases, floor, i))
    && AtTop(ws, infos, g, s, bases[|bases| - 1])
  }

  /** The running word is at a position its flow reaches at the actual height above its entry. */
  ghost predicate AtTop(ws: seq<Word>, infos: seq<Info>, g: nat, s: CState, base: int) {
    && s.w < |ws| == |infos| && ws[s.w].Interpreted?
    && Reach(ws[s.w].code, infos, Node(s.off, |s.ds| - base))
    && |s.ds| <= base + infos[s.w].maxDataStack + g
  }

  // ----- What the analysis says about a reachable opcode -----

  /** Facts about an analysed word at a node its flow reaches. */
  lemma NodeFacts(ws: seq<Word>, infos: seq<Info>, sums: seq<Summary>, w: nat, n: Node)
    requires State(ws, infos, sums, []) && w < |ws| && ws[w].Interpreted? && infos[w].flow == 1
    requires Reach(ws[w].code, infos, n)
    ensures Covers(ws[w].code, infos, sums[w], n)
    ensures -infos[w].effect.din <= sums[w].depth && infos[w].effect.din >= 0
    ensures infos[w].maxDataStack == sums[w].mds >= 0 && infos[w].maxReturnStack == 1 + ws[w].numLocals + sums[w].mrs
    ensures sums[w].mrs >= 0
    ensures sums[w].exit.Some? ==>
              !infos[w].effect.NoExit() && infos[w].effect.dout - infos[w].effect.din == sums[w].exit.value
  {
    hide Reach, JumpsEnd;
    assert WordState(ws, infos, sums, [], w);
    ComputedExit(ws[w].code, infos, sums[w]);
    assert IsSummary(ws[w].code, infos, sums[w]);
  }

  /** Words that are not interpreted keep their initial fields. */
  lemma FixedWord(ws: seq<Word>, infos: seq<Info>, sums: seq<Summary>, t: nat)
    requires State(ws, infos, sums, []) && t < |ws| && !ws[t].Interpreted?
    ensures infos[t] == Initial(ws[t])
  {
    assert WordState(ws, infos, sums, [], t);
  }

  // ----- Entry -----

  lemma EntryInv(ws: seq<Word>, infos: seq<Info>, sums: seq<Summary>, w: nat, ds: seq<u32>, g: nat)
    requires Checked(ws, infos, sums, w) && |ds| >= infos[w].effect.din
    ensures RunInv(ws, infos, w, ds, g, CEntry(ws, w, ds), [|ds|])
  {
    ReachEntry(ws[w].code, infos);
    NodeFacts(ws, infos, sums, w, Node(0, 0));
  }

  // ----- Steps inside a word -----

  /** Same call chain, up to the contents of locals. */
  ghost predicate SameFrames(fs: seq<Frame>, gs: seq<Frame>) {
    |gs| == |fs| && forall i :: 0 <= i < |fs| ==> gs[i].saved == fs[i].saved && |gs[i].locals| == |fs[i].locals|
  }

  lemma LevelsSame(ws: seq<Word>, infos: seq<Info>, s: CState, s': CState, bases: seq<int>, floor: int)
    requires |infos| == |ws| && |s.frames| == |bases| > 0 && s'.w == s.w
    requires SameFrames(s.frames, s'.frames)
    requires forall i :: 0 <= i < |bases| ==> Level(ws, infos, s, bases, floor, i)
    ensures forall i :: 0 <= i < |bases| ==> Level(ws, infos, s', bases, floor, i)
    ensures WordOf(s', 0) == WordOf(s, 0)
  {
    hide Reach;
    forall i | 0 <= i < |bases|
      ensures WordOf(s', i) == WordOf(s, i)
    {
      if i < |bases| - 1 { assert s'.frames[i + 1].saved == s.frames[i + 1].saved; }
    }
    forall i | 0 <= i < |bases|
      ensures Level(ws, infos, s', bases, floor, i)
    {
      assert Level(ws, infos, s, bases, floor, i);
    }
  }

  /** A step that stays in the running word. */
  lemma StayInv(ws: seq<Word>, infos: seq<Info>, w0: nat, ds0: seq<u32>, g: nat, s: CState, s': CState, bases: seq<int>)
    requires RunInv(ws, infos, w0, ds0, g, s, bases) && s'.w == s.w
    requires SameFrames(s.frames, s'.frames)
    requires var floor := |ds0| - infos[w0].effect.din; |s'.ds| >= floor && s'.ds[..floor] == s.ds[..floor]
    requires var base := bases[|bases| - 1];
             Edge(ws[s.w].code, infos, Node(s.off, |s.ds| - base), Node(s'.off, |s'.ds| - base))
    requires |s'.ds| <= bases[|bases| - 1] + infos[s.w].maxDataStack + g
    ensures RunInv(ws, infos, w0, ds0, g, s', bases)
  {
    hide Reach, Level, Edge;
    LevelsSame(ws, infos, s, s', bases, |ds0| - infos[w0].effect.din);
    var base := bases[|bases| - 1];
    ReachStep(ws[s.w].code, infos, Node(s.off, |s.ds| - base), Node(s'.off, |s'.ds| - base));
  }

  /** What the invariant says about the opcode about to run. */
  lemma TopFacts(ws: seq<Word>, infos: seq<Info>, sums: seq<Summary>, w0: nat, ds0: seq<u32>, g: nat, s: CState,
                 bases: seq<int>)
    requires State(ws, infos, sums, []) && WellFormed(ws) && RunInv(ws, infos, w0, ds0, g, s, bases)
    ensures Running(ws, s) && |Top(s).locals| == ws[s.w].numLocals
    ensures infos[s.w].flow == 1 && |ds0| - infos[w0].effect.din <= bases[|bases| - 1] - infos[s.w].effect.din
    ensures Covers(ws[s.w].code, infos, sums[s.w], Node(s.off, |s.ds| - bases[|bases| - 1]))
    ensures -infos[s.w].effect.din <= sums[s.w].depth && infos[s.w].maxDataStack == sums[s.w].mds
  {
    hide Reach;
    assert Level(ws, infos, s, bases, |ds0| - infos[w0].effect.din, |bases| - 1);
    NodeFacts(ws, infos, sums, s.w, Node(s.off, |s.ds| - bases[|bases| - 1]));
  }

  // ----- One step of the CPU -----

  /** The opcodes other than calls and returns. */
  lemma PlainStep(ws: seq<Word>, infos: seq<Info>, sums: seq<Summary>, w0: nat, ds0: seq<u32>, g: nat, s: CState,
                  bases: seq<int>)
    requires State(ws, infos, sums, []) && WellFormed(ws) && RunInv(ws, infos, w0, ds0, g, s, bases)
    requires Running(ws, s) && !CurrentOp(ws, s).Call? && !CurrentOp(ws, s).Ret?
    ensures CNext(ws, s).CGo? && RunInv(ws, infos, w0, ds0, g, CNext(ws, s).s, bases)
  {
    TopFacts(ws, infos, sums, w0, ds0, g, s, bases);
    OpFacts(ws, s.w, s.off);
    hide Reach, Level, WellFormed, State, CNext;
    PlainMove(ws, infos, s);
    StayInv(ws, infos, w0, ds0, g, s, CNext(ws, s).s, bases);
  }

  /** The CPU at such an opcode: it goes along an edge of the flow and touches at most the item on top. */
  lemma PlainMove(ws: seq<Word>, infos: seq<Info>, s: CState)
    requires Running(ws, s) && !CurrentOp(ws, s).Call? && !CurrentOp(ws, s).Ret?
    requires |Top(s).locals| == ws[s.w].numLocals && |s.ds| + CurrentOp(ws, s).StackAction() >= 0
    requires match CurrentOp(ws, s)
             case GetLocal(n) => n < ws[s.w].numLocals
             case PutLocal(n) => n < ws[s.w].numLocals
             case Jump(_, d) => d.Some? && 0 <= s.off + 1 + d.value < |ws[s.w].code|
             case _ => true
    ensures CNext(ws, s).CGo?
    ensures var s', a := CNext(ws, s).s, CurrentOp(ws, s).StackAction();
            && s'.w == s.w && SameFrames(s.frames, s'.frames) && |s'.ds| == |s.ds| + a
            && s'.ds[..if a < 0 then |s.ds| + a else |s.ds|] == s.ds[..if a < 0 then |s.ds| + a else |s.ds|]
            && forall h :: Edge(ws[s.w].code, infos, Node(s.off, h), Node(s'.off, h + a))
  {
  }

  lemma OpFacts(ws: seq<Word>, w: nat, off: nat)
    requires WellFormed(ws) && w < |ws| && ws[w].Interpreted? && off < |ws[w].code|
    ensures match ws[w].code[off]
            case GetLocal(n) => n < ws[w].numLocals
            case PutLocal(n) => n < ws[w].numLocals
            case Jump(_, d) => d.Some? && 0 <= off + 1 + d.value < |ws[w].code|
            case _ => true
  {
    assert WellFormedCode(ws[w].numLocals, ws[w].code);
  }

  /** A call of a data word: one item more. */
  lemma DataStep(ws: seq<Word>, infos: seq<Info>, sums: seq<Summary>, w0: nat, ds0: seq<u32>, g: nat, s: CState,
                 bases: seq<int>)
    requires State(ws, infos, sums, []) && WellFormed(ws) && RunInv(ws, infos, w0, ds0, g, s, bases)
    requires GrowthBound(ws, g)
    requires Running(ws, s) && CurrentOp(ws, s).Call? && CurrentOp(ws, s).target < |ws|
    requires ws[CurrentOp(ws, s).target].Data?
    ensures CNext(ws, s).CGo? && RunInv(ws, infos, w0, ds0, g, CNext(ws, s).s, bases)
  {
    TopFacts(ws, infos, sums, w0, ds0, g, s, bases);
    FixedWord(ws, infos, sums, CurrentOp(ws, s).target);
    hide Reach, Level, WellFormed, State;
    StayInv(ws, infos, w0, ds0, g, s, CNext(ws, s).s, bases);
  }

  /** A native call that returns. */
  lemma NativeStep(ws: seq<Word>, infos: seq<Info>, sums: seq<Summary>, m: Meaning, w0: nat, ds0: seq<u32>, g: nat,
                   s: CState, s': CState, bases: seq<int>)
    requires State(ws, infos, sums, []) && WellFormed(ws) && RunInv(ws, infos, w0, ds0, g, s, bases)
    requires GrowthBound(ws, g) && NativesKeep(ws, m)
    requires Running(ws, s) && CurrentOp(ws, s).Call? && CurrentOp(ws, s).target < |ws|
    requires ws[CurrentOp(ws, s).target].Native?
    requires CStep(ws, m, s, s')
    ensures RunInv(ws, infos, w0, ds0, g, s', bases)
  {
    TopFacts(ws, infos, sums, w0, ds0, g, s, bases);
    var t := CurrentOp(ws, s).target;
    FixedWord(ws, infos, sums, t);
    assert m(ws[t].ccode, s.ds, s'.ds);
    hide Reach, Level, WellFormed, State;
    assert |s.ds| >= ws[t].effect.din;
    assert NativeKeeps(ws[t].effect, s.ds, s'.ds);
    var floor, keep := |ds0| - infos[w0].effect.din, |s.ds| - ws[t].effect.din;
    assert s'.ds[..floor] == s'.ds[..keep][..floor] == s.ds[..keep][..floor] == s.ds[..floor];
    StayInv(ws, infos, w0, ds0, g, s, s', bases);
  }

  /** A call of an interpreted word opens a level. */
  lemma CallStep(ws: seq<Word>, infos: seq<Info>, sums: seq<Summary>, w0: nat, ds0: seq<u32>, g: nat, s: CState,
                 bases: seq<int>)
    requires State(ws, infos, sums, []) && WellFormed(ws) && RunInv(ws, infos, w0, ds0, g, s, bases)
    requires Running(ws, s) && CurrentOp(ws, s).Call? && CurrentOp(ws, s).target < |ws|
    requires ws[CurrentOp(ws, s).target].Interpreted?
    ensures CNext(ws, s).CGo? && RunInv(ws, infos, w0, ds0, g, CNext(ws, s).s, bases + [|s.ds|])
  {
    TopFacts(ws, infos, sums, w0, ds0, g, s, bases);
    var t := CurrentOp(ws, s).target;
    ReachEntry(ws[t].code, infos);
    NodeFacts(ws, infos, sums, t, Node(0, 0));
    hide Reach, WellFormed, State;
    var s' := CNext(ws, s).s;
    var bases' := bases + [|s.ds|];
    var floor := |ds0| - infos[w0].effect.din;
    PushLevels(ws, infos, s, s', bases, floor);
    var k := |bases|;
    assert s'.frames[k].saved == Some((s.w, s.off + 1));
    assert CalledFrom(ws, infos, s', bases', k);
    assert Level(ws, infos, s', bases', floor, k);
  }

  lemma PushLevels(ws: seq<Word>, infos: seq<Info>, s: CState, s': CState, bases: seq<int>, floor: int)
    requires |infos| == |ws| && |s.frames| == |bases| > 0 && |s'.frames| == |bases| + 1
    requires s'.frames[..|bases|] == s.frames && s'.frames[|bases|].saved == Some((s.w, s.off + 1))
    requires forall i :: 0 <= i < |bases| ==> Level(ws, infos, s, bases, floor, i)
    ensures WordOf(s', 0) == WordOf(s, 0)
    ensures forall i :: 0 <= i < |bases| ==> Level(ws, infos, s', bases + [|s.ds|], floor, i)
  {
    hide Reach;
    forall i | 0 <= i < |bases|
      ensures WordOf(s', i) == WordOf(s, i) && s'.frames[i] == s.frames[i]
    {
      assert s'.frames[i] == s'.frames[..|bases|][i];
      if i < |bases| - 1 { assert s'.frames[i + 1] == s'.frames[..|bases|][i + 1]; }
    }
    forall i | 0 <= i < |bases|
      ensures Level(ws, infos, s', bases + [|s.ds|], floor, i)
    {
      assert Level(ws, infos, s, bases, floor, i);
    }
  }

  /** A return closes the level: the height has changed by the word's recorded effect, as its caller was told. */
  lemma RetStep(ws: seq<Word>, infos: seq<Info>, sums: seq<Summary>, w0: nat, ds0: seq<u32>, g: nat, s: CState,
                bases: seq<int>)
    requires State(ws, infos, sums, []) && WellFormed(ws) && RunInv(ws, infos, w0, ds0, g, s, bases)
    requires Running(ws, s) && CurrentOp(ws, s).Ret?
    ensures |s.ds| - bases[|bases| - 1] == infos[s.w].effect.dout - infos[s.w].effect.din && !infos[s.w].effect.NoExit()
    ensures |bases| == 1 ==> CNext(ws, s) == CHalt(s.ds)
    ensures |bases| > 1 ==> CNext(ws, s).CGo? && RunInv(ws, infos, w0, ds0, g, CNext(ws, s).s, bases[..|bases| - 1])
  {
    TopFacts(ws, infos, sums, w0, ds0, g, s, bases);
    var k, floor := |bases| - 1, |ds0| - infos[w0].effect.din;
    NodeFacts(ws, infos, sums, s.w, Node(s.off, |s.ds| - bases[k]));
    assert Level(ws, infos, s, bases, floor, k);
    if k > 0 {
      var (v, off) := s.frames[k].saved.value;
      var s', bases' := CNext(ws, s).s, bases[..k];
      PopLevels(ws, infos, s, s', bases, bases', floor);
      assert Level(ws, infos, s, bases, floor, k - 1);
      CallerFacts(ws, infos, sums, v, off, bases[k] - bases[k - 1], s.w);
      hide Reach, WellFormed, State, Level;
      var a, b := Node(off - 1, bases[k] - bases[k - 1]), Node(off, |s.ds| - bases[k - 1]);
      assert Edge(ws[v].code, infos, a, b);
      ReachStep(ws[v].code, infos, a, b);
    }
  }

  lemma CallerFacts(ws: seq<Word>, infos: seq<Info>, sums: seq<Summary>, v: nat, off: nat, h: int, t: nat)
    requires State(ws, infos, sums, []) && v < |ws| && ws[v].Interpreted? && infos[v].flow == 1 && off > 0
    requires CallsAt(ws[v].code, Node(off - 1, 0), t) && Reach(ws[v].code, infos, Node(off - 1, h))
    ensures t < |infos| && Settled(ws[v].code[off - 1], infos)
    ensures h + infos[t].maxDataStack <= infos[v].maxDataStack
    ensures infos[t].flow == 1
    ensures infos[t].maxReturnStack + 1 + ws[v].numLocals <= infos[v].maxReturnStack
  {
    hide Reach;
    NodeFacts(ws, infos, sums, v, Node(off - 1, h));
  }

  lemma PopLevels(ws: seq<Word>, infos: seq<Info>, s: CState, s': CState, bases: seq<int>, bases': seq<int>, floor: int)
    requires |infos| == |ws| && |s.frames| == |bases| > 1 && bases' == bases[..|bases| - 1]
    requires s'.frames == s.frames[..|bases| - 1]
    requires s.frames[|bases| - 1].saved.Some? && s'.w == s.frames[|bases| - 1].saved.value.0
    requires forall i :: 0 <= i < |bases| ==> Level(ws, infos, s, bases, floor, i)
    ensures WordOf(s', 0) == WordOf(s, 0) && WordOf(s, |bases| - 2) == s'.w
    ensures forall i :: 0 <= i < |bases| - 1 ==> Level(ws, infos, s', bases', floor, i)
  {
    hide Reach;
    forall i | 0 <= i < |bases| - 1
      ensures WordOf(s', i) == WordOf(s, i)
    {
    }
    forall i | 0 <= i < |bases| - 1
      ensures Level(ws, infos, s', bases', floor, i)
    {
      assert Level(ws, infos, s, bases, floor, i);
    }
  }

  // ----- Whole runs -----

  /** The hypotheses of the run theorems: an analysed entry word with its inputs present, and honest native words. */
  ghost predicate Ready(ws: seq<Word>, infos: seq<Info>, sums: seq<Summary>, m: Meaning, w: nat, ds: seq<u32>, g: nat) {
    Checked(ws, infos, sums, w) && NativesKeep(ws, m) && GrowthBound(ws, g) && |ds| >= infos[w].effect.din
  }

  lemma StepInv(ws: seq<Word>, infos: seq<Info>, sums: seq<Summary>, m: Meaning, w0: nat, ds0: seq<u32>, g: nat,
                s: CState, s': CState, bases: seq<int>) returns (bases': seq<int>)
    requires Ready(ws, infos, sums, m, w0, ds0, g) && RunInv(ws, infos, w0, ds0, g, s, bases) && CStep(ws, m, s, s')
    ensures RunInv(ws, infos, w0, ds0, g, s', bases')
  {
    TopFacts(ws, infos, sums, w0, ds0, g, s, bases);
    hide RunInv, Reach, State, WellFormed, NativesKeep, GrowthBound;
    bases' := bases;
    match CurrentOp(ws, s) {
      case Ret =>
        RetStep(ws, infos, sums, w0, ds0, g, s, bases);
        bases' := bases[..|bases| - 1];
      case Call(t) =>
        match ws[t] {
          case Native(_, _) => NativeStep(ws, infos, sums, m, w0, ds0, g, s, s', bases);
          case Data(_) => DataStep(ws, infos, sums, w0, ds0, g, s, bases);
          case Interpreted(_, _, _) =>
            CallStep(ws, infos, sums, w0, ds0, g, s, bases);
            bases' := bases + [|s.ds|];
        }
      case _ => PlainStep(ws, infos, sums, w0, ds0, g, s, bases);
    }
  }

  lemma {:induction false} RunKeepsInv(ws: seq<Word>, infos: seq<Info>, sums: seq<Summary>, m: Meaning, w0: nat,
                                       ds0: seq<u32>,
                                       g: nat, run: seq<CState>) returns (bases: seq<int>)
    requires Ready(ws, infos, sums, m, w0, ds0, g) && CRun(ws, m, run) && run[0] == CEntry(ws, w0, ds0)
    ensures RunInv(ws, infos, w0, ds0, g, run[|run| - 1], bases)
    decreases |run|
  {
    if |run| == 1 {
      EntryInv(ws, infos, sums, w0, ds0, g);
      bases := [|ds0|];
    } else {
      var front := run[..|run| - 1];
      hide RunInv, CStep, NativesKeep, GrowthBound, Checked;
      forall i | 0 <= i < |front| - 1
        ensures CStep(ws, m, front[i], front[i + 1])
      {
        assert CStep(ws, m, run[i], run[i + 1]);
      }
      var before := RunKeepsInv(ws, infos, sums, m, w0, ds0, g, front);
      assert CStep(ws, m, run[|run| - 2], run[|run| - 1]);
      bases := StepInv(ws, infos, sums, m, w0, ds0, g, run[|run| - 2], run[|run| - 1], before);
    }
  }

  /** Soundness of the analysis, over runs of any call depth. A word entered with at least its inputs never touches
      what is below them, the CPU is never stuck (no underflow, no bad offset, no bad local, no missing word), and
      when the word returns the height has changed by exactly its recorded effect. */
  lemma SafeRun(ws: seq<Word>, infos: seq<Info>, sums: seq<Summary>, m: Meaning, w: nat, ds: seq<u32>, g: nat,
                run: seq<CState>)
    requires Ready(ws, infos, sums, m, w, ds, g) && CRun(ws, m, run) && run[0] == CEntry(ws, w, ds)
    ensures var s, se := run[|run| - 1], infos[w].effect;
            && 0 <= |ds| - se.din <= |ds| && |s.ds| >= |ds| - se.din && s.ds[..|ds| - se.din] == ds[..|ds| - se.din]
            && !CNext(ws, s).CStuck?
            && (CNext(ws, s).CHalt? ==> !se.NoExit() && |s.ds| == |ds| + se.dout - se.din)
  {
    var bases := RunKeepsInv(ws, infos, sums, m, w, ds, g, run);
    var s := run[|run| - 1];
    TopFacts(ws, infos, sums, w, ds, g, s, bases);
    hide Reach, State, WellFormed, NativesKeep, GrowthBound;
    match CurrentOp(ws, s) {
      case Ret =>
        RetStep(ws, infos, sums, w, ds, g, s, bases);
      case Call(t) =>
      case _ => PlainStep(ws, infos, sums, w, ds, g, s, bases);
    }
  }

  // ----- Limits -----

  /** Return stack cells in use, and data stack height, against the limits of the words in the call chain. */
  lemma {:induction false} ChainLimits(ws: seq<Word>, infos: seq<Info>, sums: seq<Summary>, s: CState, bases: seq<int>,
                                       floor: int, i: nat)
    requires State(ws, infos, sums, []) && |infos| == |ws| && i < |bases| == |s.frames|
    requires forall k :: 0 <= k < |bases| ==> Level(ws, infos, s, bases, floor, k)
    ensures WordOf(s, i) < |ws| && ws[WordOf(s, i)].Interpreted? && WordOf(s, 0) < |ws|
    ensures Used(s.frames[..i + 1]) + infos[WordOf(s, i)].maxReturnStack - (1 + ws[WordOf(s, i)].numLocals)
         <= infos[WordOf(s, 0)].maxReturnStack
    ensures bases[i] + infos[WordOf(s, i)].maxDataStack <= bases[0] + infos[WordOf(s, 0)].maxDataStack
    decreases i
  {
    assert Level(ws, infos, s, bases, floor, i);
    assert s.frames[..i + 1][..i] == s.frames[..i];
    if i > 0 {
      hide Reach, State;
      ChainLimits(ws, infos, sums, s, bases, floor, i - 1);
      assert Level(ws, infos, s, bases, floor, i - 1);
      var (v, off) := s.frames[i].saved.value;
      CallerFacts(ws, infos, sums, v, off, bases[i] - bases[i - 1], WordOf(s, i));
    } else {
      assert s.frames[..0] == [];
    }
  }

  /** The stack bounds of the analysis, over every run: the frames never use more than MaxReturnStack cells, and
      the height above the entry never exceeds MaxDataStack plus the largest growth of a native or data word. */
  lemma BoundedRun(ws: seq<Word>, infos: seq<Info>, sums: seq<Summary>, m: Meaning, w: nat, ds: seq<u32>, g: nat,
                   run: seq<CState>)
    requires Ready(ws, infos, sums, m, w, ds, g) && CRun(ws, m, run) && run[0] == CEntry(ws, w, ds)
    ensures Used(run[|run| - 1].frames) <= infos[w].maxReturnStack
    ensures |run[|run| - 1].ds| <= |ds| + infos[w].maxDataStack + g
  {
    var bases := RunKeepsInv(ws, infos, sums, m, w, ds, g, run);
    var s := run[|run| - 1];
    var k := |bases| - 1;
    ChainLimits(ws, infos, sums, s, bases, |ds| - infos[w].effect.din, k);
    NodeFacts(ws, infos, sums, s.w, Node(s.off, |s.ds| - bases[k])) by {
      assert Level(ws, infos, s, bases, |ds| - infos[w].effect.din, k);
    }
    assert s.frames[..k + 1] == s.frames;
  }

  // ----- MaxDataStack alone is not a bound -----

  /** A word that only calls `callee` and returns. */
  function OneCall(callee: Word): seq<Word> { [Interpreted(0, [Call(1), Ret], UNKNOWN), callee] }

  /** The fields its analysis records when the callee takes `din` items and leaves one more. */
  function OneCallInfos(din: nat): seq<Info> { [Info(1, SType(din, din + 1), 0, 1), Info(1, SType(din, din + 1), 0,
                        0)] }

  function OneCallSummaries(din: nat): seq<Summary> {
    var depth: int := din;
    [Summary(-depth, Some(1), 0, 0), Summary(0, None, 0, 0)]
  }

  /** The flow of the word: the call at height 0, then the return at height 1. */
  lemma OneCallReach(callee: Word, din: nat, n: Node)
    ensures Reach(OneCall(callee)[0].code, OneCallInfos(din), n) <==> n == Node(0, 0) || n == Node(1, 1)
  {
    var code, infos := OneCall(callee)[0].code, OneCallInfos(din);
    ReachEntry(code, infos);
    ReachStep(code, infos, Node(0, 0), Node(1, 1));
    if Reach(code, infos, n) {
      var p :| Path(code, infos, p) && p[|p| - 1] == n;
      PathInTable(code, infos, [Some(0), Some(1)], p);
    }
  }

  lemma OneCallSummary(callee: Word, din: nat)
    ensures IsSummary(OneCall(callee)[0].code, OneCallInfos(din), OneCallSummaries(din)[0])
  {
    var code, infos, s := OneCall(callee)[0].code, OneCallInfos(din), OneCallSummaries(din)[0];
    forall n
      ensures Reach(code, infos, n) <==> n == Node(0, 0) || n == Node(1, 1)
    {
      OneCallReach(callee, din, n);
    }
    hide Reach;
    assert Covers(code, infos, s, Node(0, 0)) && Covers(code, infos, s, Node(1, 1));
    assert DepthAt(code, infos, s, Node(0, 0)) && ExitAt(code, s, Node(1, 1));
  }

  lemma OneCallExplored(callee: Word, din: nat)
    ensures ExploresAll(OneCall(callee)[0].code, OneCallInfos(din))
  {
    var code, infos := OneCall(callee)[0].code, OneCallInfos(din);
    var t := Tables([Some(0), Some(1)], [0, 0], 0, 0, 1);
    assert FirstTables(2).sa == [Some(0), None] && FirstTables(2).te == [0, 0];
    assert NextTurn(code, infos, FirstTables(2)) == More(t, true);
    assert NextTurn(code, infos, t) == Finished(t);
    hide NextTurn;
    assert Explored(code, infos, 1) == More(t, true);
    assert Explored(code, infos, 2) == Finished(t);
  }

  lemma OneCallChecked(callee: Word, din: nat)
    requires !callee.Interpreted? && Initial(callee) == OneCallInfos(din)[1]
    ensures Checked(OneCall(callee), OneCallInfos(din), OneCallSummaries(din), 0)
  {
    var ws, infos, sums := OneCall(callee), OneCallInfos(din), OneCallSummaries(din);
    hide Reach, IsSummary, ExploresAll;
    OneCallSummary(callee, din);
    OneCallExplored(callee, din);
    assert JumpsEnd(ws[0].code, infos, [0, 0]);
    assert WordState(ws, infos, sums, [], 0) && WordState(ws, infos, sums, [], 1);
    assert WellFormedCode(0, ws[0].code) && CallsExist(ws, ws[0].code);
  }

  /** A native word like `dup`. */
  function Dup(): Word { Native("dup", SType(1, 2)) }

  /** The analysis of a word that calls `dup` succeeds and records MaxDataStack 0, because Word.MaxDataStack takes
      a minimum with 0, yet its run ends one item above the entry height: the growth term of BoundedRun is needed. */
  lemma DataLimitExceeded(m: Meaning, v: u32)
    requires m("dup", [v], [v, v])
    ensures Checked(OneCall(Dup()), OneCallInfos(1), OneCallSummaries(1), 0) && OneCallInfos(1)[0].maxDataStack == 0
    ensures var s := CEntry(OneCall(Dup()), 0, [v]);
            && CRun(OneCall(Dup()), m, [s, s.(off := 1, ds := [v, v])])
            && |[v, v]| > |s.ds| + OneCallInfos(1)[0].maxDataStack
  {
    OneCallChecked(Dup(), 1);
    var s := CEntry(OneCall(Dup()), 0, [v]);
    assert CStep(OneCall(Dup()), m, s, s.(off := 1, ds := [v, v]));
  }
}
