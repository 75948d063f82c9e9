/** What flow analysis is about: paths through the opcodes of a word at known stack heights, given the stack effects of
    the words it calls, and the summary of a word that AnalyseFlow is to compute. */
module Flow {
  import opened Machine32
  import opened Code

  /** Fields of a word used by the analysis: flowAnalysis (0 new, 2 ongoing, 1 done), StackEffect and the two limits.
      Heights are mathematical integers. */
  datatype Info = Info(flow: int, effect: SType, maxDataStack: int, maxReturnStack: int)

  /** Word.MaxDataStack, used for native and data words. */
  function DefaultDataStack(se: SType): int {
    if !se.IsKnown() then -1 else if se.NoExit() then 0 else Min(0, se.dout - se.din)
  }

  /** The fields of a word before any analysis; native and data words have nothing to analyse. */
  function Initial(w: Word): Info {
    match w
    case Interpreted(_, _, declared) => Info(0, declared, 0, 0)
    case Native(_, effect) => Info(1, effect, DefaultDataStack(effect), 0)
    case Data(_) => Info(1, SType(0, 1), DefaultDataStack(SType(0, 1)), 0)
  }

  // ----- Paths -----

  /** A position in a word: opcode offset, and stack height relative to the entry. */
  datatype Node = Node(off: int, h: int)

  /** The stack effect of the opcode is known. */
  predicate Settled(op: Op, infos: seq<Info>) {
    op.Call? ==> op.target < |infos| && infos[op.target].effect.IsKnown()
  }

  function Effect(op: Op, infos: seq<Info>): SType
    requires op.Call? && op.target < |infos|
  {
    infos[op.target].effect
  }

  /** Change of height. */
  function Delta(op: Op, infos: seq<Info>): int
    requires Settled(op, infos)
  {
    if op.Call? then
      if Effect(op, infos).NoExit() then 0 else Effect(op, infos).dout - Effect(op, infos).din
    else op.StackAction()
  }

  predicate Falls(op: Op, infos: seq<Info>)
    requires Settled(op, infos)
  {
    op.MayFallThrough() && (op.Call? ==> !Effect(op, infos).NoExit())
  }

  /** Execution may go from `a` to `b`. */
  predicate Edge(code: seq<Op>, infos: seq<Info>, a: Node, b: Node) {
    && 0 <= a.off < |code| && Settled(code[a.off], infos)
    && b.h == a.h + Delta(code[a.off], infos)
    && ((code[a.off].Jumps() && code[a.off].disp.Some? && b.off == a.off + 1 + code[a.off].disp.value)
        || (Falls(code[a.off], infos) && b.off == a.off + 1))
  }

  ghost predicate Path(code: seq<Op>, infos: seq<Info>, p: seq<Node>) {
    && |p| > 0 && p[0] == Node(0, 0)
    && forall i :: 0 <= i < |p| - 1 ==> Edge(code, infos, p[i], p[i + 1])
  }

  /** Some path from the entry, at height 0, leads to the node. */
  ghost predicate Reach(code: seq<Op>, infos: seq<Info>, n: Node) {
    exists p :: Path(code, infos, p) && p[|p| - 1] == n
  }

  lemma ReachEntry(code: seq<Op>, infos: seq<Info>)
    ensures Reach(code, infos, Node(0, 0))
  {
    assert Path(code, infos, [Node(0, 0)]);
  }

  lemma ReachStep(code: seq<Op>, infos: seq<Info>, a: Node, b: Node)
    requires Reach(code, infos, a) && Edge(code, infos, a, b)
    ensures Reach(code, infos, b)
  {
    var p :| Path(code, infos, p) && p[|p| - 1] == a;
    var q := p + [b];
    forall i | 0 <= i < |q| - 1
      ensures Edge(code, infos, q[i], q[i + 1])
    {
      if i < |p| - 1 { assert Edge(code, infos, p[i], p[i + 1]); }
    }
    assert Path(code, infos, q) && q[|q| - 1] == b;
  }

  /** A property of the entry kept by every edge holds of every reachable node: here, being recorded in a closed
      table. */
  lemma {:induction false} PathInTable(code: seq<Op>, infos: seq<Info>, sa: seq<Option<int>>, p: seq<Node>)
    requires |sa| == |code| > 0 && sa[0] == Some(0) && Path(code, infos, p)
    requires forall o :: 0 <= o < |sa| && sa[o].Some? ==> Closed(code, infos, sa, o)
    ensures InTable(sa, p[|p| - 1])
    decreases |p|
  {
    if |p| > 1 {
      var q := p[..|p| - 1];
      forall i | 0 <= i < |q| - 1
        ensures Edge(code, infos, q[i], q[i + 1])
      {
        assert Edge(code, infos, p[i], p[i + 1]);
      }
      PathInTable(code, infos, sa, q);
      assert Edge(code, infos, p[|p| - 2], p[|p| - 1]);
      assert Closed(code, infos, sa, p[|p| - 2].off);
    }
  }

  /** The height recorded for the node's offset is the node's height. */
  predicate InTable(sa: seq<Option<int>>, n: Node) {
    0 <= n.off < |sa| && sa[n.off] == Some(n.h)
  }

  /** Every edge from offset `o`, at its recorded height, leads to a recorded node. */
  ghost predicate Closed(code: seq<Op>, infos: seq<Info>, sa: seq<Option<int>>, o: int)
    requires |sa| == |code| && 0 <= o < |code|
  {
    && sa[o].Some? && Settled(code[o], infos)
    && forall b :: Edge(code, infos, Node(o, sa[o].value), b) ==> InTable(sa, b)
  }

  // ----- Summaries -----

  /** Deepest height touched, height at the exits (None if the word never returns), and the two stack limits before the
      word's own frame is added. */
  datatype Summary = Summary(depth: int, exit: Option<int>, mds: int, mrs: int)

  /** Lowest height an opcode touches when it starts at height `h`. */
  function Touch(op: Op, infos: seq<Info>, h: int): int
    requires Settled(op, infos)
  {
    if op.Call? then Min(h - Effect(op, infos).din, h + Delta(op, infos)) else h + Delta(op, infos)
  }

  /** Height the analysis charges to an opcode; returns charge nothing. */
  function Charge(op: Op, infos: seq<Info>, h: int): int
    requires Settled(op, infos) && !op.Ret?
  {
    if op.Call? then h + infos[op.target].maxDataStack else h + Delta(op, infos)
  }

  /** The summary accounts for the opcode at a node. */
  ghost predicate Covers(code: seq<Op>, infos: seq<Info>, s: Summary, n: Node) {
    && 0 <= n.off < |code| && Settled(code[n.off], infos)
    && var op := code[n.off];
    && s.depth <= Touch(op, infos, n.h)
    && (op.Ret? ==> s.exit == Some(n.h))
    && (!op.Ret? ==> Charge(op, infos, n.h) <= s.mds)
    && (op.Call? ==> infos[op.target].maxReturnStack <= s.mrs && infos[op.target].flow == 1)
  }

  ghost predicate DepthAt(code: seq<Op>, infos: seq<Info>, s: Summary, n: Node) {
    0 <= n.off < |code| && Settled(code[n.off], infos) && Touch(code[n.off], infos, n.h) == s.depth
  }

  ghost predicate ChargeAt(code: seq<Op>, infos: seq<Info>, s: Summary, n: Node) {
    0 <= n.off < |code| && Settled(code[n.off], infos) && !code[n.off].Ret? && Charge(code[n.off], infos, n.h) == s.mds
  }

  ghost predicate FrameAt(code: seq<Op>, infos: seq<Info>, s: Summary, n: Node) {
    0 <= n.off < |code| && Settled(code[n.off], infos)
    && code[n.off].Call? && infos[code[n.off].target].maxReturnStack == s.mrs
  }

  ghost predicate ExitAt(code: seq<Op>, s: Summary, n: Node) {
    0 <= n.off < |code| && code[n.off].Ret? && s.exit == Some(n.h)
  }

  /** The exact summary of a word: one height per reachable offset, every reachable opcode covered, every bound
      attained. */
  ghost predicate IsSummary(code: seq<Op>, infos: seq<Info>, s: Summary) {
    && (forall a, b :: Reach(code, infos, a) && Reach(code, infos, b) && a.off == b.off ==> a.h == b.h)
    && (forall n :: Reach(code, infos, n) ==> Covers(code, infos, s, n))
    && s.depth <= 0 && (s.depth == 0 || exists n :: Reach(code, infos, n) && DepthAt(code, infos, s, n))
    && s.mds >= 0 && (s.mds == 0 || exists n :: Reach(code, infos, n) && ChargeAt(code, infos, s, n))
    && s.mrs >= 0 && (s.mrs == 0 || exists n :: Reach(code, infos, n) && FrameAt(code, infos, s, n))
    && (s.exit.Some? ==> exists n :: Reach(code, infos, n) && ExitAt(code, s, n))
  }

  /** The stack effect computed from a summary. */
  function Computed(s: Summary): SType {
    MakeSType(-s.depth, match s.exit case None => -1 case Some(e) => -s.depth + e)
  }

  /** The number of items produced is never negative, so a word that can return is never recorded as never returning. */
  lemma ComputedExit(code: seq<Op>, infos: seq<Info>, s: Summary)
    requires IsSummary(code, infos, s)
    ensures Computed(s).IsKnown() && (Computed(s).NoExit() <==> s.exit.None?)
    ensures Computed(s).din == -s.depth
    ensures s.exit.Some? ==> Computed(s).dout - Computed(s).din == s.exit.value
  {
    if s.exit.Some? {
      var n :| Reach(code, infos, n) && ExitAt(code, s, n);
      assert Covers(code, infos, s, n);
    }
  }

  /** The summary is determined by the code and the effects of the called words: the order of exploration does not
      matter. */
  lemma SummaryUnique(code: seq<Op>, infos: seq<Info>, s: Summary, t: Summary)
    requires IsSummary(code, infos, s) && IsSummary(code, infos, t)
    ensures s == t
  {
    OneBelow(code, infos, s, t);
    OneBelow(code, infos, t, s);
  }

  lemma OneBelow(code: seq<Op>, infos: seq<Info>, s: Summary, t: Summary)
    requires IsSummary(code, infos, s) && IsSummary(code, infos, t)
    ensures t.depth <= s.depth && s.mds <= t.mds && s.mrs <= t.mrs
    ensures s.exit.Some? ==> t.exit == s.exit
  {
    if s.depth != 0 {
      var n :| Reach(code, infos, n) && DepthAt(code, infos, s, n);
      assert Covers(code, infos, t, n);
    }
    if s.mds != 0 {
      var n :| Reach(code, infos, n) && ChargeAt(code, infos, s, n);
      assert Covers(code, infos, t, n);
    }
    if s.mrs != 0 {
      var n :| Reach(code, infos, n) && FrameAt(code, infos, s, n);
      assert Covers(code, infos, t, n);
    }
    if s.exit.Some? {
      var n :| Reach(code, infos, n) && ExitAt(code, s, n);
      assert Covers(code, infos, t, n);
    }
  }

  // ----- Later analyses do not disturb earlier ones -----

  /** `later` comes after `infos`: finished words and known effects stay as they are. */
  ghost predicate Extends(infos: seq<Info>, later: seq<Info>) {
    && |later| == |infos|
    && forall i :: 0 <= i < |infos| ==>
         (infos[i].flow == 1 ==> later[i] == infos[i])
         && (infos[i].effect.IsKnown() ==> later[i].effect == infos[i].effect)
  }

  lemma EdgeStable(code: seq<Op>, infos: seq<Info>, later: seq<Info>, a: Node, b: Node)
    requires Extends(infos, later) && 0 <= a.off < |code| && Settled(code[a.off], infos)
    ensures Edge(code, infos, a, b) <==> Edge(code, later, a, b)
  {
  }

  lemma ReachStable(code: seq<Op>, infos: seq<Info>, later: seq<Info>, n: Node)
    requires Extends(infos, later) && Reach(code, infos, n)
    ensures Reach(code, later, n)
  {
    var p :| Path(code, infos, p) && p[|p| - 1] == n;
    forall i | 0 <= i < |p| - 1
      ensures Edge(code, later, p[i], p[i + 1])
    {
      assert Edge(code, infos, p[i], p[i + 1]);
      EdgeStable(code, infos, later, p[i], p[i + 1]);
    }
    assert Path(code, later, p);
  }

  lemma {:induction false} ReachBack(code: seq<Op>, infos: seq<Info>, later: seq<Info>, p: seq<Node>)
    requires Extends(infos, later) && Path(code, later, p)
    requires forall n :: Reach(code, infos, n) ==> 0 <= n.off < |code| && Settled(code[n.off], infos)
    ensures Reach(code, infos, p[|p| - 1])
    decreases |p|
  {
    if |p| == 1 {
      ReachEntry(code, infos);
    } else {
      var q := p[..|p| - 1];
      forall i | 0 <= i < |q| - 1
        ensures Edge(code, later, q[i], q[i + 1])
      {
        assert Edge(code, later, p[i], p[i + 1]);
      }
      ReachBack(code, infos, later, q);
      var a, b := p[|p| - 2], p[|p| - 1];
      assert Edge(code, later, a, b);
      EdgeStable(code, infos, later, a, b);
      ReachStep(code, infos, a, b);
    }
  }

  /** The summary of a finished word stays its summary. */
  lemma SummaryStable(code: seq<Op>, infos: seq<Info>, later: seq<Info>, s: Summary)
    requires Extends(infos, later) && IsSummary(code, infos, s)
    ensures IsSummary(code, later, s)
    ensures forall n :: Reach(code, infos, n) <==> Reach(code, later, n)
  {
    forall n
      ensures Reach(code, infos, n) <==> Reach(code, later, n)
    {
      if Reach(code, infos, n) {
        ReachStable(code, infos, later, n);
      }
      if Reach(code, later, n) {
        forall k | Reach(code, infos, k)
          ensures 0 <= k.off < |code| && Settled(code[k.off], infos)
        {
          assert Covers(code, infos, s, k);
        }
        var p :| Path(code, later, p) && p[|p| - 1] == n;
        ReachBack(code, infos, later, p);
      }
    }
    hide Reach;
    forall n | Reach(code, later, n)
      ensures Covers(code, later, s, n)
    {
      assert Covers(code, infos, s, n);
    }
    AttainedStable(code, infos, later, s);
  }

  lemma AttainedStable(code: seq<Op>, infos: seq<Info>, later: seq<Info>, s: Summary)
    requires Extends(infos, later) && IsSummary(code, infos, s)
    requires forall n :: Reach(code, infos, n) <==> Reach(code, later, n)
    ensures s.depth == 0 || exists n :: Reach(code, later, n) && DepthAt(code, later, s, n)
    ensures s.mds == 0 || exists n :: Reach(code, later, n) && ChargeAt(code, later, s, n)
    ensures s.mrs == 0 || exists n :: Reach(code, later, n) && FrameAt(code, later, s, n)
  {
    hide Reach;
    if s.depth != 0 {
      var n :| Reach(code, infos, n) && DepthAt(code, infos, s, n);
      assert Reach(code, later, n) && DepthAt(code, later, s, n);
    }
    if s.mds != 0 {
      var n :| Reach(code, infos, n) && ChargeAt(code, infos, s, n);
      assert Covers(code, infos, s, n);
      assert Reach(code, later, n) && ChargeAt(code, later, s, n);
    }
    if s.mrs != 0 {
      var n :| Reach(code, infos, n) && FrameAt(code, infos, s, n);
      assert Covers(code, infos, s, n);
      assert Reach(code, later, n) && FrameAt(code, later, s, n);
    }
  }
}
