/** When the recorded MaxDataStack really bounds the stack: only calls of native and data words can exceed it, and
    it is a bound for the words reachable by calls exactly when none of those calls does. */
module Limits {
  import opened Machine32
  import opened Code
  import opened Flow
  import opened Explore
  import opened FlowAnalysis
  import opened SourceMachine
  import opened RunSafety

  // ----- Words reachable by calls -----

  /** A chain of calls the flow reaches leads from `w` to `v`. */
  ghost predicate ReachedBy(ws: seq<Word>, infos: seq<Info>, w: nat, v: nat) {
    exists chain: seq<nat> :: chain != [] && chain[0] == w && chain[|chain| - 1] == v && CallChain(ws, infos, chain)
  }

  lemma ReachedSelf(ws: seq<Word>, infos: seq<Info>, w: nat)
    ensures ReachedBy(ws, infos, w, w)
  {
    assert CallChain(ws, infos, [w]);
  }

  lemma ReachedNext(ws: seq<Word>, infos: seq<Info>, w: nat, v: nat, t: nat)
    requires ReachedBy(ws, infos, w, v) && CallEdge(ws, infos, v, t)
    ensures ReachedBy(ws, infos, w, t)
  {
    hide CallEdge;
    var chain: seq<nat> :| chain != [] && chain[0] == w && chain[|chain| - 1] == v && CallChain(ws, infos, chain);
    var longer := chain + [t];
    forall i | 0 <= i < |longer| - 1
      ensures CallEdge(ws, infos, longer[i], longer[i + 1])
    {
      if i < |chain| - 1 { assert CallEdge(ws, infos, chain[i], chain[i + 1]); }
    }
    assert CallChain(ws, infos, longer);
  }

  /** All of them have been analysed. */
  lemma ReachedAnalysed(ws: seq<Word>, infos: seq<Info>, sums: seq<Summary>, w: nat, v: nat)
    requires State(ws, infos, sums, []) && w < |ws| && infos[w].flow == 1 && ReachedBy(ws, infos, w, v)
    ensures v < |ws| && infos[v].flow == 1
  {
    hide State, CallChain;
    var chain: seq<nat> :| chain != [] && chain[0] == w && chain[|chain| - 1] == v && CallChain(ws, infos, chain);
    if |chain| > 1 {
      NoCallCycle(ws, infos, sums, chain);
    }
  }

  // ----- One word -----

  /** A call after which the next opcode may run. */
  predicate FallingCall(code: seq<Op>, infos: seq<Info>, n: Node) {
    0 <= n.off < |code| && Settled(code[n.off], infos) && code[n.off].Call? && Falls(code[n.off], infos)
  }

  ghost predicate Within(code: seq<Op>, infos: seq<Info>, limit: int) {
    forall n :: Reach(code, infos, n) ==> n.h <= limit
  }

  /** Height after a call that returns. */
  function HeightAfter(code: seq<Op>, infos: seq<Info>, n: Node): int
    requires FallingCall(code, infos, n)
  {
    n.h + Delta(code[n.off], infos)
  }

  lemma {:induction false} PathWithin(code: seq<Op>, infos: seq<Info>, s: Summary, p: seq<Node>)
    requires IsSummary(code, infos, s) && Path(code, infos, p)
    requires forall n :: Reach(code, infos, n) && FallingCall(code, infos, n) ==> HeightAfter(code, infos, n) <= s.mds
    ensures Reach(code, infos, p[|p| - 1]) && p[|p| - 1].h <= s.mds
    decreases |p|
  {
    if |p| > 1 {
      var q := p[..|p| - 1];
      forall i | 0 <= i < |q| - 1
        ensures Edge(code, infos, q[i], q[i + 1])
      {
        assert Edge(code, infos, p[i], p[i + 1]);
      }
      PathWithin(code, infos, s, q);
      EdgeWithin(code, infos, s, p[|p| - 2], p[|p| - 1]);
    } else {
      ReachEntry(code, infos);
    }
  }

  lemma EdgeWithin(code: seq<Op>, infos: seq<Info>, s: Summary, a: Node, b: Node)
    requires IsSummary(code, infos, s) && Reach(code, infos, a) && Edge(code, infos, a, b)
    requires FallingCall(code, infos, a) ==> HeightAfter(code, infos, a) <= s.mds
    ensures Reach(code, infos, b) && b.h <= s.mds
  {
    ReachStep(code, infos, a, b);
    hide Reach;
    assert Covers(code, infos, s, a);
  }

  /** Within one word: all reachable heights respect the computed limit exactly when those after its calls do. */
  lemma WithinIff(code: seq<Op>, infos: seq<Info>, s: Summary)
    requires IsSummary(code, infos, s)
    ensures Within(code, infos, s.mds) <==>
            forall n :: Reach(code, infos, n) && FallingCall(code, infos, n) ==> HeightAfter(code, infos, n) <= s.mds
  {
    if Within(code, infos, s.mds) {
      forall n | Reach(code, infos, n) && FallingCall(code, infos, n)
        ensures HeightAfter(code, infos, n) <= s.mds
      {
        ReachStep(code, infos, n, Node(n.off + 1, HeightAfter(code, infos, n)));
      }
    }
    if forall n :: Reach(code, infos, n) && FallingCall(code, infos, n) ==> HeightAfter(code, infos, n) <= s.mds {
      forall n | Reach(code, infos, n)
        ensures n.h <= s.mds
      {
        var p :| Path(code, infos, p) && p[|p| - 1] == n;
        PathWithin(code, infos, s, p);
      }
    }
  }

  // ----- All the words reachable by calls -----

  /** A callee whose stack growth is not that of its own reachable exit: a native word, a data word, or a word
      declared to return although its flow never does. */
  predicate Outside(ws: seq<Word>, sums: seq<Summary>, t: nat) {
    t < |ws| == |sums| && (!ws[t].Interpreted? || sums[t].exit.None?)
  }

  /** No call of such a callee ends above the word's limit. */
  ghost predicate OwnGrowth(ws: seq<Word>, infos: seq<Info>, sums: seq<Summary>, v: nat) {
    v < |ws| == |infos| && (ws[v].Interpreted? ==>
      forall n :: Reach(ws[v].code, infos, n) && FallingCall(ws[v].code, infos, n)
                  && Outside(ws, sums, ws[v].code[n.off].target)
                  ==> HeightAfter(ws[v].code, infos, n) <= infos[v].maxDataStack)
  }

  /** All heights the flow of the word reaches respect its limit. */
  ghost predicate WordWithin(ws: seq<Word>, infos: seq<Info>, v: nat) {
    v < |ws| == |infos| && (ws[v].Interpreted? ==> Within(ws[v].code, infos, infos[v].maxDataStack))
  }

  lemma WordSummary(ws: seq<Word>, infos: seq<Info>, sums: seq<Summary>, v: nat)
    requires State(ws, infos, sums, []) && v < |ws| && ws[v].Interpreted? && infos[v].flow == 1
    ensures |infos| == |sums| == |ws| && IsSummary(ws[v].code, infos, sums[v])
    ensures infos[v].maxDataStack == sums[v].mds && infos[v].maxReturnStack >= 1
  {
    hide Reach, JumpsEnd, ExploresAll;
    assert WordState(ws, infos, sums, [], v);
  }

  /** A callee within its limits returns within the limit of the caller. */
  lemma CalleeReturnsWithin(ws: seq<Word>, infos: seq<Info>, sums: seq<Summary>, v: nat, n: Node)
    requires State(ws, infos, sums, []) && v < |ws| && ws[v].Interpreted? && infos[v].flow == 1
    requires Reach(ws[v].code, infos, n) && FallingCall(ws[v].code, infos, n)
    requires var t := ws[v].code[n.off].target; t < |ws| && !Outside(ws, sums, t) && WordWithin(ws, infos, t)
    ensures HeightAfter(ws[v].code, infos, n) <= infos[v].maxDataStack
  {
    var t := ws[v].code[n.off].target;
    NodeFacts(ws, infos, sums, v, n);
    WordSummary(ws, infos, sums, t);
    ReachEntry(ws[t].code, infos);
    NodeFacts(ws, infos, sums, t, Node(0, 0));
    hide Reach, State;
    var x :| Reach(ws[t].code, infos, x) && ExitAt(ws[t].code, sums[t], x);
    assert x.h <= infos[t].maxDataStack;
  }

  lemma CallEdgeHere(ws: seq<Word>, infos: seq<Info>, v: nat, n: Node)
    requires v < |ws| && ws[v].Interpreted? && Reach(ws[v].code, infos, n) && FallingCall(ws[v].code, infos, n)
    ensures CallEdge(ws, infos, v, ws[v].code[n.off].target)
  {
    hide Reach;
    assert CallsAt(ws[v].code, n, ws[v].code[n.off].target);
  }

  /** If the calls of native and data words fit, everything fits: by induction along the calls. */
  lemma {:induction false} GrowthSuffices(ws: seq<Word>, infos: seq<Info>, sums: seq<Summary>, w: nat, v: nat)
    requires State(ws, infos, sums, []) && w < |ws| && infos[w].flow == 1 && ReachedBy(ws, infos, w, v)
    requires forall u: nat :: ReachedBy(ws, infos, w, u) ==> OwnGrowth(ws, infos, sums, u)
    ensures WordWithin(ws, infos, v)
    decreases if v < |infos| then Max(infos[v].maxReturnStack, 0) else 0
  {
    hide Reach, State, IsSummary, CallEdge, ReachedBy;
    ReachedAnalysed(ws, infos, sums, w, v);
    if ws[v].Interpreted? {
      WordSummary(ws, infos, sums, v);
      var code := ws[v].code;
      forall n | Reach(code, infos, n) && FallingCall(code, infos, n)
        ensures HeightAfter(code, infos, n) <= infos[v].maxDataStack
      {
        var t := code[n.off].target;
        assert OwnGrowth(ws, infos, sums, v);
        if !Outside(ws, sums, t) {
          CallEdgeHere(ws, infos, v, n);
          CallsDescend(ws, infos, sums, v, t);
          ReachedNext(ws, infos, w, v, t);
          GrowthSuffices(ws, infos, sums, w, t);
          CalleeReturnsWithin(ws, infos, sums, v, n);
        }
      }
      WithinIff(code, infos, sums[v]);
    }
  }

  /** The exact condition. Every word reachable by calls keeps all the heights its flow reaches within its
      MaxDataStack if and only if, in every such word, no reachable call of a native or data word (or of a word
      declared to return that never does) ends above that word's limit. */
  lemma DataLimitIff(ws: seq<Word>, infos: seq<Info>, sums: seq<Summary>, w: nat)
    requires State(ws, infos, sums, []) && w < |ws| && infos[w].flow == 1
    ensures (forall v: nat :: ReachedBy(ws, infos, w, v) ==> WordWithin(ws, infos, v)) <==>
            (forall v: nat :: ReachedBy(ws, infos, w, v) ==> OwnGrowth(ws, infos, sums, v))
  {
    hide Reach, State, IsSummary, ReachedBy;
    if forall v: nat :: ReachedBy(ws, infos, w, v) ==> WordWithin(ws, infos, v) {
      forall v: nat | ReachedBy(ws, infos, w, v)
        ensures OwnGrowth(ws, infos, sums, v)
      {
        ReachedAnalysed(ws, infos, sums, w, v);
        if ws[v].Interpreted? {
          WordSummary(ws, infos, sums, v);
          WithinIff(ws[v].code, infos, sums[v]);
        }
      }
    }
    if forall v: nat :: ReachedBy(ws, infos, w, v) ==> OwnGrowth(ws, infos, sums, v) {
      forall v: nat | ReachedBy(ws, infos, w, v)
        ensures WordWithin(ws, infos, v)
      {
        GrowthSuffices(ws, infos, sums, w, v);
      }
    }
  }

  /** Words that do not grow the stack always fit: MaxDataStack charges them in full. */
  lemma NoGrowthFits(ws: seq<Word>, infos: seq<Info>, sums: seq<Summary>, v: nat)
    requires State(ws, infos, sums, []) && v < |ws| && ws[v].Interpreted? && infos[v].flow == 1
    requires forall n, t: nat :: Reach(ws[v].code, infos, n) && CallsAt(ws[v].code, n, t) && Outside(ws, sums, t) ==>
               !ws[t].Interpreted? && Initial(ws[t]).effect.dout <= Initial(ws[t]).effect.din
    ensures OwnGrowth(ws, infos, sums, v)
  {
    hide Reach, State;
    WordSummary(ws, infos, sums, v);
    forall n | Reach(ws[v].code, infos, n) && FallingCall(ws[v].code, infos, n)
               && Outside(ws, sums, ws[v].code[n.off].target)
      ensures HeightAfter(ws[v].code, infos, n) <= infos[v].maxDataStack
    {
      var t := ws[v].code[n.off].target;
      assert CallsAt(ws[v].code, n, t);
      NodeFacts(ws, infos, sums, v, n);
      FixedWord(ws, infos, sums, t);
    }
  }

  // ----- Runs -----

  function Growth(w: Word): nat {
    match w
    case Native(_, se) => if se.IsKnown() && !se.NoExit() && se.dout > se.din then se.dout - se.din else 0
    case Data(_) => 1
    case Interpreted(_, _, _) => 0
  }

  function LargestGrowth(ws: seq<Word>): (g: nat)
    ensures forall w :: 0 <= w < |ws| ==> Growth(ws[w]) <= g
  {
    if ws == [] then 0
    else
      var g, h := LargestGrowth(ws[..|ws| - 1]), Growth(ws[|ws| - 1]);
      if g < h then h else g
  }

  lemma LargestBounds(ws: seq<Word>)
    ensures GrowthBound(ws, LargestGrowth(ws))
  {
    hide LargestGrowth;
  }

  /** The words of the call chain of a running state are reached by calls from the entry word. */
  lemma {:induction false} LevelReached(ws: seq<Word>, infos: seq<Info>, s: CState, bases: seq<int>, floor: int, i: nat)
    requires |infos| == |ws| && i < |bases| == |s.frames|
    requires forall k :: 0 <= k < |bases| ==> Level(ws, infos, s, bases, floor, k)
    ensures ReachedBy(ws, infos, WordOf(s, 0), WordOf(s, i))
    decreases i
  {
    if i == 0 {
      ReachedSelf(ws, infos, WordOf(s, 0));
    } else {
      hide Reach, ReachedBy;
      LevelReached(ws, infos, s, bases, floor, i - 1);
      assert Level(ws, infos, s, bases, floor, i);
      var (v, off) := s.frames[i].saved.value;
      var n := Node(off - 1, bases[i] - bases[i - 1]);
      assert CallsAt(ws[v].code, n, WordOf(s, i));
      assert CallEdge(ws, infos, v, WordOf(s, i));
      assert WordOf(s, i - 1) == v;
      ReachedNext(ws, infos, WordOf(s, 0), v, WordOf(s, i));
    }
  }

  /** The stack bound without the growth term: under the condition of DataLimitIff, no run of the word, at any call
      depth, ever exceeds the height of its entry by more than MaxDataStack. */
  lemma TightRun(ws: seq<Word>, infos: seq<Info>, sums: seq<Summary>, m: Meaning, w: nat, ds: seq<u32>,
                 run: seq<CState>)
    requires Checked(ws, infos, sums, w) && NativesKeep(ws, m) && |ds| >= infos[w].effect.din
    requires forall v: nat :: ReachedBy(ws, infos, w, v) ==> OwnGrowth(ws, infos, sums, v)
    requires CRun(ws, m, run) && run[0] == CEntry(ws, w, ds)
    ensures |run[|run| - 1].ds| <= |ds| + infos[w].maxDataStack
  {
    hide Reach, State, NativesKeep, OwnGrowth, ReachedBy, CStep, CEntry, Level, WellFormed;
    LargestBounds(ws);
    var bases := RunKeepsInv(ws, infos, sums, m, w, ds, LargestGrowth(ws), run);
    TightState(ws, infos, sums, w, ds, LargestGrowth(ws), run[|run| - 1], bases);
  }

  lemma TightState(ws: seq<Word>, infos: seq<Info>, sums: seq<Summary>, w: nat, ds: seq<u32>, g: nat, s: CState,
                   bases: seq<int>)
    requires Checked(ws, infos, sums, w) && RunInv(ws, infos, w, ds, g, s, bases)
    requires forall v: nat :: ReachedBy(ws, infos, w, v) ==> OwnGrowth(ws, infos, sums, v)
    ensures |s.ds| <= |ds| + infos[w].maxDataStack
  {
    hide Reach, State, OwnGrowth, ReachedBy, Level, WellFormed;
    var k, floor := |bases| - 1, |ds| - infos[w].effect.din;
    LevelReached(ws, infos, s, bases, floor, k);
    GrowthSuffices(ws, infos, sums, w, s.w);
    ChainLimits(ws, infos, sums, s, bases, floor, k);
    assert Within(ws[s.w].code, infos, infos[s.w].maxDataStack);
    assert Node(s.off, |s.ds| - bases[k]).h <= infos[s.w].maxDataStack;
  }

  /** The condition fails where it should: a word recorded with limit 0 that calls `dup`. */
  lemma DupExceeds()
    ensures !OwnGrowth(OneCall(Dup()), OneCallInfos(1), OneCallSummaries(1), 0)
  {
    OneCallReach(Dup(), 1, Node(0, 0));
    hide Reach;
    var code, infos := OneCall(Dup())[0].code, OneCallInfos(1);
    assert FallingCall(code, infos, Node(0, 0)) && HeightAfter(code, infos, Node(0, 0)) == 1;
  }

  // ----- Return stack -----

  /** Some word reachable by calls calls a data word. */
  ghost predicate CallsData(ws: seq<Word>, infos: seq<Info>, w: nat) {
    exists v: nat, t: nat :: ReachedBy(ws, infos, w, v) && CallEdge(ws, infos, v, t) && t < |ws| && ws[t].Data?
  }

  predicate AtDataCall(ws: seq<Word>, s: CState) {
    Running(ws, s) && CurrentOp(ws, s).Call? && CurrentOp(ws, s).target < |ws| && ws[CurrentOp(ws, s).target].Data?
  }

  /** A run that comes to a call of a data word shows that there is one. */
  lemma DataCallReached(ws: seq<Word>, infos: seq<Info>, sums: seq<Summary>, m: Meaning, w: nat, ds: seq<u32>, g: nat,
                        run: seq<CState>)
    requires Ready(ws, infos, sums, m, w, ds, g) && CRun(ws, m, run) && run[0] == CEntry(ws, w, ds)
    requires AtDataCall(ws, run[|run| - 1])
    ensures CallsData(ws, infos, w)
  {
    hide Reach, State, NativesKeep, GrowthBound, ReachedBy, CStep, CEntry, Level, WellFormed;
    var bases := RunKeepsInv(ws, infos, sums, m, w, ds, g, run);
    var s, k := run[|run| - 1], |bases| - 1;
    LevelReached(ws, infos, s, bases, |ds| - infos[w].effect.din, k);
    var t := CurrentOp(ws, s).target;
    assert CallsAt(ws[s.w].code, Node(s.off, |s.ds| - bases[k]), t);
    assert CallEdge(ws, infos, s.w, t);
  }
}
