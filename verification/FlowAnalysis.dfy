/** WordInterpreted.AnalyseFlow: the exploration loop over one word, calling itself on the words that are called. */
module FlowAnalysis {
  import opened Machine32
  import opened Code
  import opened Flow
  import opened Explore

  /** The exceptions of the analysis. OutOfRange stands for the index exceptions of `Code` and `sa` and for a call of a
      word that does not exist, TooManyJumps for the one of `toExplore`. */
  datatype FlowError =
    | Recursive(w: nat)
    | UnknownEffect(w: nat, off: int, callee: nat)
    | Mismatch(w: nat, off: int, first: int, second: int)
    | ExitMismatch(w: nat, off: int, first: int, second: int)
    | Declared(w: nat, computed: SType)
    | TooManyJumps(w: nat)
    | OutOfRange(w: nat)

  // ----- What the analysis establishes -----

  /** The called word is reached at some height by the flow of the caller. */
  ghost predicate CallEdge(ws: seq<Word>, infos: seq<Info>, w: nat, t: nat) {
    w < |ws| && ws[w].Interpreted?
    && exists n :: Reach(ws[w].code, infos, n) && CallsAt(ws[w].code, n, t)
  }

  predicate CallsAt(code: seq<Op>, n: Node, t: nat) { 0 <= n.off < |code| && code[n.off] == Call(t) }

  /** Jumps among the reachable opcodes never cycle: some ranking increases along every one of them. */
  ghost predicate JumpsEnd(code: seq<Op>, infos: seq<Info>, last: seq<int>) {
    |last| == |code| && forall n :: Reach(code, infos, n) && JumpsFrom(code, n.off) ==>
      0 <= Target(code, n.off) < |code| && last[Target(code, n.off)] > last[n.off]
  }

  /** The recorded fields of a finished word are the ones its exact summary gives; a declared effect is kept, and the
      computed one is a sub-effect of it. */
  ghost predicate Analysed(ws: seq<Word>, infos: seq<Info>, w: nat, s: Summary)
    requires w < |ws| == |infos| && ws[w].Interpreted?
  {
    var (word, info) := (ws[w], infos[w]);
    && IsSummary(word.code, infos, s)
    && info.maxDataStack == s.mds && info.maxReturnStack == 1 + word.numLocals + s.mrs
    && (if word.declared.IsKnown() then info.effect == word.declared && Computed(s).IsSubOf(word.declared)
        else info.effect == Computed(s))
    && (exists last :: JumpsEnd(word.code, infos, last)) && ExploresAll(word.code, infos)
  }

  /** Words being analysed, each called by the one before. */
  ghost predicate CallChain(ws: seq<Word>, infos: seq<Info>, stack: seq<nat>) {
    forall i :: 0 <= i < |stack| - 1 ==> CallEdge(ws, infos, stack[i], stack[i + 1])
  }

  ghost predicate WordState(ws: seq<Word>, infos: seq<Info>, sums: seq<Summary>, stack: seq<nat>, w: nat)
    requires w < |ws| == |infos| == |sums|
  {
    if !ws[w].Interpreted? then infos[w] == Initial(ws[w]) && w !in stack
    else if infos[w].flow == 1 then Analysed(ws, infos, w, sums[w]) && w !in stack
    else infos[w].effect == ws[w].declared && infos[w].flow == if w in stack then 2 else 0
  }

  /** The state of all words between calls of the analysis, `stack` being the words whose analysis is ongoing. */
  ghost predicate State(ws: seq<Word>, infos: seq<Info>, sums: seq<Summary>, stack: seq<nat>) {
    && |infos| == |sums| == |ws| && CallChain(ws, infos, stack)
    && forall w :: 0 <= w < |ws| ==> WordState(ws, infos, sums, stack, w)
  }

  /** What happens to the fields of all words from one state to a later one. */
  ghost predicate Later(infos: seq<Info>, later: seq<Info>) {
    Extends(infos, later) && forall i :: 0 <= i < |infos| && later[i].flow == 0 ==> infos[i].flow == 0
  }

  /** Items an opcode takes from the stack. */
  function Pops(op: Op, infos: seq<Info>): int
    requires Settled(op, infos)
  {
    match op
    case Call(t) => infos[t].effect.din
    case PutLocal(_) => 1
    case Jump(kind, _) => if kind.Always? then 0 else 1
    case _ => 0
  }

  /** Entered at `height`, the word has fewer items at the node than its opcode takes, or returns there at another
      height than declared. */
  ghost predicate FailsAt(code: seq<Op>, infos: seq<Info>, declared: SType, height: int, n: Node) {
    && 0 <= n.off < |code| && Settled(code[n.off], infos)
    && (height + n.h < Pops(code[n.off], infos)
        || (code[n.off].Ret? && (declared.dout < 0 || height + n.h != height - declared.din + declared.dout)))
  }

  /** Entered with the declared inputs on the stack, the word does not keep its declaration. */
  ghost predicate Misdeclared(code: seq<Op>, infos: seq<Info>, declared: SType) {
    exists height: int, n: Node ::
      height >= declared.din && Reach(code, infos, n) && FailsAt(code, infos, declared, height, n)
  }

  /** Every failure reports a real defect of the program. */
  ghost predicate Genuine(ws: seq<Word>, infos: seq<Info>, e: FlowError) {
    match e
    case Recursive(w) =>
      exists cycle: seq<nat> :: |cycle| >= 2 && cycle[0] == cycle[|cycle| - 1] == w && CallChain(ws, infos, cycle)
    case UnknownEffect(w, off, t) =>
      CallEdge(ws, infos, w, t) && t < |infos| && !infos[t].effect.IsKnown()
    case Mismatch(w, off, h, h') =>
      w < |ws| && ws[w].Interpreted? && h != h'
      && Reach(ws[w].code, infos, Node(off, h)) && Reach(ws[w].code, infos, Node(off, h'))
    case ExitMismatch(w, off, h, h') =>
      w < |ws| && ws[w].Interpreted? && h != h' && RetAt(ws[w].code, off)
      && Reach(ws[w].code, infos, Node(off, h'))
      && exists other :: RetAt(ws[w].code, other) && Reach(ws[w].code, infos, Node(other, h))
    case Declared(w, computed) =>
      w < |ws| && ws[w].Interpreted? && ws[w].declared.IsKnown()
      && Misdeclared(ws[w].code, infos, ws[w].declared)
      && exists s :: IsSummary(ws[w].code, infos, s) && computed == Computed(s)
    case TooManyJumps(w) =>
      w < |ws| && ws[w].Interpreted?
      && QueueOverflows(ws[w].code, infos)
      && (JumpLoad(ws[w].code) > |ws[w].code| || !WellFormedCode(ws[w].numLocals, ws[w].code))
    case OutOfRange(w) =>
      w < |ws| && ws[w].Interpreted?
      && !(WellFormedCode(ws[w].numLocals, ws[w].code) && CallsExist(ws, ws[w].code))
  }

  predicate RetAt(code: seq<Op>, off: int) { 0 <= off < |code| && code[off].Ret? }

  /** Words whose analysis has not started. */
  function NewWords(infos: seq<Info>, n: nat): nat
    requires n <= |infos|
  {
    if n == 0 then 0 else NewWords(infos, n - 1) + if infos[n - 1].flow == 0 then 1 else 0
  }

  lemma {:induction false} NewWordsLater(infos: seq<Info>, later: seq<Info>, n: nat)
    requires Later(infos, later) && n <= |infos|
    ensures NewWords(later, n) <= NewWords(infos, n)
    ensures forall w :: 0 <= w < n && infos[w].flow == 0 && later[w].flow != 0 ==>
              NewWords(later, n) < NewWords(infos, n)
    decreases n
  {
    if n > 0 {
      NewWordsLater(infos, later, n - 1);
    }
  }

  lemma LaterTransitive(a: seq<Info>, b: seq<Info>, c: seq<Info>)
    requires Later(a, b) && Later(b, c)
    ensures Later(a, c)
  {
  }

  /** The computed effect of a word is a sub-effect of the declared one exactly when the flow of the word keeps the
      declaration at every height that has the declared inputs. */
  lemma DeclarationKeptIff(code: seq<Op>, infos: seq<Info>, s: Summary, declared: SType)
    requires IsSummary(code, infos, s) && declared.IsKnown()
    ensures Computed(s).IsSubOf(declared) <==> !Misdeclared(code, infos, declared)
  {
    hide Reach;
    ComputedExit(code, infos, s);
    if Computed(s).IsSubOf(declared) {
      forall height: int, n: Node | height >= declared.din && Reach(code, infos, n)
        ensures !FailsAt(code, infos, declared, height, n)
      {
        assert Covers(code, infos, s, n);
        HeightCovered(code, infos, s, n);
      }
    } else if -s.depth > declared.din {
      var n :| Reach(code, infos, n) && DepthAt(code, infos, s, n);
      assert FailsAt(code, infos, declared, declared.din, n);
    } else {
      var n :| Reach(code, infos, n) && ExitAt(code, s, n);
      assert Covers(code, infos, s, n);
      assert FailsAt(code, infos, declared, declared.din, n);
    }
  }

  /** The summary's depth bounds the height at every reachable node, not only after its opcode. */
  lemma HeightCovered(code: seq<Op>, infos: seq<Info>, s: Summary, n: Node)
    requires IsSummary(code, infos, s) && Reach(code, infos, n)
    ensures s.depth <= n.h
  {
    var p :| Path(code, infos, p) && p[|p| - 1] == n;
    if |p| > 1 {
      var a, q := p[|p| - 2], p[..|p| - 1];
      assert Edge(code, infos, a, n);
      forall i | 0 <= i < |q| - 1
        ensures Edge(code, infos, q[i], q[i + 1])
      {
        assert Edge(code, infos, p[i], p[i + 1]);
      }
      assert Path(code, infos, q) && q[|q| - 1] == a;
      assert Covers(code, infos, s, a);
    }
  }

  // ----- State changes -----

  lemma AnalysedStable(ws: seq<Word>, infos: seq<Info>, later: seq<Info>, w: nat, s: Summary)
    requires w < |ws| == |infos| && ws[w].Interpreted? && Analysed(ws, infos, w, s) && Extends(infos, later)
    requires later[w] == infos[w]
    ensures Analysed(ws, later, w, s)
  {
    hide Reach, IsSummary, ExploresAll;
    SummaryStable(ws[w].code, infos, later, s);
    ExploresAllStable(ws[w].code, infos, later);
    var last :| JumpsEnd(ws[w].code, infos, last);
    assert JumpsEnd(ws[w].code, later, last);
  }

  lemma CallEdgeStable(ws: seq<Word>, infos: seq<Info>, later: seq<Info>, w: nat, t: nat)
    requires CallEdge(ws, infos, w, t) && Extends(infos, later)
    ensures CallEdge(ws, later, w, t)
  {
    hide Reach;
    var n :| Reach(ws[w].code, infos, n) && CallsAt(ws[w].code, n, t);
    ReachStable(ws[w].code, infos, later, n);
  }

  lemma CallChainStable(ws: seq<Word>, infos: seq<Info>, later: seq<Info>, stack: seq<nat>)
    requires CallChain(ws, infos, stack) && Extends(infos, later)
    ensures CallChain(ws, later, stack)
  {
    hide CallEdge;
    forall i | 0 <= i < |stack| - 1
      ensures CallEdge(ws, later, stack[i], stack[i + 1])
    {
      CallEdgeStable(ws, infos, later, stack[i], stack[i + 1]);
    }
  }

  /** Starting the analysis of a new word. */
  lemma StateStart(ws: seq<Word>, infos: seq<Info>, sums: seq<Summary>, stack: seq<nat>, w: nat)
    requires State(ws, infos, sums, stack) && w < |ws| && ws[w].Interpreted? && infos[w].flow == 0
    requires stack != [] ==> CallEdge(ws, infos, stack[|stack| - 1], w)
    ensures var later := infos[w := infos[w].(flow := 2)];
            State(ws, later, sums, stack + [w]) && Later(infos, later) && NewWords(later, |ws|) < NewWords(infos, |ws|)
  {
    var later := infos[w := infos[w].(flow := 2)];
    assert Later(infos, later);
    NewWordsLater(infos, later, |ws|);
    hide CallEdge, Analysed;
    CallChainStable(ws, infos, later, stack);
    forall i | 0 <= i < |stack + [w]| - 1
      ensures CallEdge(ws, later, (stack + [w])[i], (stack + [w])[i + 1])
    {
      if i == |stack| - 1 { CallEdgeStable(ws, infos, later, stack[i], w); }
    }
    forall v | 0 <= v < |ws|
      ensures WordState(ws, later, sums, stack + [w], v)
    {
      assert WordState(ws, infos, sums, stack, v);
      if v != w && ws[v].Interpreted? && infos[v].flow == 1 { AnalysedStable(ws, infos, later, v, sums[v]); }
    }
  }

  /** Finishing it: its fields are set from the summary. */
  lemma StateFinish(ws: seq<Word>, infos: seq<Info>, sums: seq<Summary>, stack: seq<nat>, w: nat, info: Info,
                    s: Summary)
    requires State(ws, infos, sums, stack + [w]) && w < |ws| && ws[w].Interpreted? && w !in stack
    requires info.flow == 1 && (infos[w].effect.IsKnown() ==> info.effect == infos[w].effect)
    requires Analysed(ws, infos[w := info], w, s)
    ensures State(ws, infos[w := info], sums[w := s], stack) && Later(infos, infos[w := info])
  {
    hide CallEdge, Analysed;
    var later := infos[w := info];
    assert WordState(ws, infos, sums, stack + [w], w);
    assert Later(infos, later);
    forall i | 0 <= i < |stack| - 1
      ensures CallEdge(ws, infos, stack[i], stack[i + 1])
    {
      assert (stack + [w])[i] == stack[i] && (stack + [w])[i + 1] == stack[i + 1];
    }
    CallChainStable(ws, infos, later, stack);
    var sums' := sums[w := s];
    forall v | 0 <= v < |ws|
      ensures WordState(ws, later, sums', stack, v)
    {
      assert WordState(ws, infos, sums, stack + [w], v);
      if v != w && ws[v].Interpreted? && infos[v].flow == 1 { AnalysedStable(ws, infos, later, v, sums[v]); }
    }
  }

  /** Meeting a word whose analysis is ongoing closes a cycle of calls. */
  lemma CycleFound(ws: seq<Word>, infos: seq<Info>, sums: seq<Summary>, stack: seq<nat>, w: nat)
    requires State(ws, infos, sums, stack) && w < |ws| && infos[w].flow == 2
    requires stack != [] ==> CallEdge(ws, infos, stack[|stack| - 1], w)
    ensures Genuine(ws, infos, Recursive(w))
  {
    hide CallEdge, Analysed;
    assert WordState(ws, infos, sums, stack, w);
    var k :| 0 <= k < |stack| && stack[k] == w;
    var cycle := stack[k..] + [w];
    forall i | 0 <= i < |cycle| - 1
      ensures CallEdge(ws, infos, cycle[i], cycle[i + 1])
    {
      if i < |cycle| - 2 { assert CallEdge(ws, infos, stack[k + i], stack[k + i + 1]); }
    }
    assert CallChain(ws, infos, cycle);
  }

  // ----- The end of the loop -----

  lemma LoopJumpsEnd(code: seq<Op>, infos: seq<Info>, done: set<int>, sa: seq<Option<int>>, last: seq<int>)
    requires AllDone(code, infos, done, sa) && Ranked(code, done, last)
    ensures JumpsEnd(code, infos, last)
  {
    hide Reach;
    forall n | Reach(code, infos, n) && JumpsFrom(code, n.off)
      ensures 0 <= Target(code, n.off) < |code| && last[Target(code, n.off)] > last[n.off]
    {
      TableIsReach(code, infos, done, sa, n);
      assert n.off in done;
    }
  }

  /** Facts about one turn that only depend on the code being well formed. */
  lemma TurnRange(code: seq<Op>, numLocals: nat, falls: bool, c: int, t: Tables)
    requires Shape(code, t) && WellFormedCode(numLocals, code) && (falls ==> code[t.off].MayFallThrough())
    ensures Advance(code[t.off], falls, c, t) != Bad(Range)
    ensures code[t.off].Jumps() ==> code[t.off].disp.Some?
  {
  }

  /** A clash in the table is two paths to one offset at different heights. */
  lemma TurnClash(code: seq<Op>, infos: seq<Info>, done: set<int>, t: Tables, at: int, h: int, h': int)
    requires Marks(code, infos, done, t) && Settled(code[t.off], infos)
    requires Advance(code[t.off], Falls(code[t.off], infos), t.sa[t.off].value + Delta(code[t.off], infos), t)
             == Bad(Clash(at, h, h'))
    ensures h != h' && Reach(code, infos, Node(at, h)) && Reach(code, infos, Node(at, h'))
  {
    hide Reach, Closed, Pending;
    var op, here := code[t.off], Node(t.off, t.sa[t.off].value);
    var c := here.h + Delta(op, infos);
    ReachStep(code, infos, here, Node(at, h'));
    if Queue(op, c, t).More? {
      QueueStep(code, infos, done, t, c);
    }
  }

  /** The recorded fields of a word whose loop has ended. */
  function FinishedInfo(word: Word, s: Summary): Info
    requires word.Interpreted?
  {
    Info(1, if word.declared.IsKnown() then word.declared else Computed(s), s.mds, 1 + word.numLocals + s.mrs)
  }

  /** The summary of a word does not depend on the word's own fields: an ongoing word calls no ongoing word. */
  lemma FinishSummary(ws: seq<Word>, infos: seq<Info>, w: nat, s: Summary, last: seq<int>)
    requires w < |ws| == |infos| && ws[w].Interpreted? && infos[w].flow == 2 && infos[w].effect == ws[w].declared
    requires IsSummary(ws[w].code, infos, s) && JumpsEnd(ws[w].code, infos, last) && ExploresAll(ws[w].code, infos)
    requires ws[w].declared.IsKnown() ==> Computed(s).IsSubOf(ws[w].declared)
    ensures Extends(infos, infos[w := FinishedInfo(ws[w], s)])
    ensures Analysed(ws, infos[w := FinishedInfo(ws[w], s)], w, s)
  {
    hide Reach, IsSummary, ExploresAll;
    var later := infos[w := FinishedInfo(ws[w], s)];
    SummaryStable(ws[w].code, infos, later, s);
    ExploresAllStable(ws[w].code, infos, later);
    assert JumpsEnd(ws[w].code, later, last);
  }

  // ----- One turn -----

  /** A return reached by the flow exits at height `h`. */
  ghost predicate ExitSeen(code: seq<Op>, infos: seq<Info>, h: int) {
    exists off :: RetAt(code, off) && Reach(code, infos, Node(off, h))
  }

  lemma NoSuchWord(ws: seq<Word>, infos: seq<Info>, w: nat, off: int)
    requires w < |ws| && ws[w].Interpreted? && 0 <= off < |ws[w].code|
    requires ws[w].code[off].Call? && ws[w].code[off].target >= |ws|
    ensures Genuine(ws, infos, OutOfRange(w))
  {
  }

  lemma EmptyWord(ws: seq<Word>, infos: seq<Info>, w: nat)
    requires w < |ws| && ws[w].Interpreted? && ws[w].code == []
    ensures Genuine(ws, infos, OutOfRange(w))
  {
  }

  lemma CallEdgeAt(ws: seq<Word>, infos: seq<Info>, w: nat, n: Node, t: nat)
    requires w < |ws| && ws[w].Interpreted? && Reach(ws[w].code, infos, n) && CallsAt(ws[w].code, n, t)
    ensures CallEdge(ws, infos, w, t)
  {
    hide Reach;
  }

  lemma LastCalls(ws: seq<Word>, infos: seq<Info>, stack: seq<nat>, w: nat, t: nat)
    requires CallEdge(ws, infos, w, t)
    ensures CallEdge(ws, infos, (stack + [w])[|stack + [w]| - 1], t)
  {
  }

  lemma NoTurns(code: seq<Op>, infos: seq<Info>, t: Tables)
    requires code != [] && t == FirstTables(|code|)
    ensures Explored(code, infos, 0) == More(t, false)
  {
  }

  lemma ExploredLater(code: seq<Op>, infos: seq<Info>, later: seq<Info>, k: nat)
    requires code != [] && Later(infos, later) && !Explored(code, infos, k).Bad?
    ensures Explored(code, later, k) == Explored(code, infos, k)
  {
    hide Explored;
    ExploredStable(code, infos, later, k);
  }

  lemma LoopEnds(code: seq<Op>, infos: seq<Info>, k: nat)
    requires code != [] && Explored(code, infos, k).Finished?
    ensures ExploresAll(code, infos)
  {
    hide Explored;
  }

  lemma LoopStart(code: seq<Op>, infos: seq<Info>, t: Tables)
    requires |code| == |t.sa| == |t.te| > 0 && t.tX == t.tY == t.off == 0
    requires t.sa == seq(|code|, _ => None)[0 := Some(0)]
    ensures Shape(code, t) && Marks(code, infos, {}, t) && Accounts(code, infos, {}, t.sa, Summary(0, None, 0, 0))
    ensures Ordered(code, {}, seq(|code|, _ => -1), 0, t)
    ensures Budget(code, {0}, t)
  {
    ReachEntry(code, infos);
    hide Reach, Weight;
    OneStarted(code, |code|);
  }

  lemma {:induction false} OneStarted(code: seq<Op>, n: nat)
    ensures LoadUpTo(code, {0}, n) == if n == 0 then 0 else Weight(code, 0)
  {
    hide Weight;
    if n > 0 {
      OneStarted(code, n - 1);
    }
  }

  /** What the loop knows at its head about the current offset. */
  lemma LoopHere(code: seq<Op>, infos: seq<Info>, done: set<int>, t: Tables, s: Summary)
    requires Marks(code, infos, done, t) && Accounts(code, infos, done, t.sa, s)
    ensures Reach(code, infos, Node(t.off, t.sa[t.off].value))
    ensures s.exit.Some? ==> ExitSeen(code, infos, s.exit.value)
  {
    hide Reach;
    if s.exit.Some? {
      var o :| o in done && ExitAt(code, s, At(t.sa, o));
      assert RetAt(code, o) && Reach(code, infos, Node(o, s.exit.value));
    }
  }

  /** The tables after the first part of a turn, which may have analysed other words. */
  lemma LoopVisited(code: seq<Op>, before: seq<Info>, infos: seq<Info>, done: set<int>, t: Tables, s: Summary, off: int)
    requires Marks(code, before, done, t) && Accounts(code, before, done, t.sa, s) && Later(before, infos)
    requires off == t.off
    requires Settled(code[off], infos) && (code[off].Call? ==> infos[code[off].target].flow == 1)
    requires code[off].Ret? ==> s.exit in {None, t.sa[off]}
    ensures Marks(code, infos, done, t)
    ensures Accounts(code, infos, done + {off}, t.sa, Account(code[off], infos, s, t.sa[off].value))
  {
    MarksStable(code, before, infos, done, t);
    AccountsStable(code, before, infos, done, t.sa, s);
    AccountStep(code, infos, done, t.sa, s, off);
  }

  /** Everything the loop keeps, over the second part of a turn. */
  lemma TurnFacts(code: seq<Op>, infos: seq<Info>, done: set<int>, started: set<int>, last: seq<int>, now: int,
                  t: Tables,
                  s: Summary)
    requires Shape(code, t) && Marks(code, infos, done, t) && Settled(code[t.off], infos)
    requires Accounts(code, infos, done + {t.off}, t.sa, s) && Ordered(code, done, last, now, t)
    ensures TurnKept(code, infos, done + {t.off}, last[t.off := now], now + 1, t, s,
                     Advance(code[t.off], Falls(code[t.off], infos), t.sa[t.off].value + Delta(code[t.off], infos), t))
  {
    hide Reach, Marks, Accounts, Ordered, Ranked, AllDone, Advance, Unmarked;
    var falls := Falls(code[t.off], infos);
    var c := t.sa[t.off].value + Delta(code[t.off], infos);
    AdvanceCloses(code, infos, done, t);
    var turn := Advance(code[t.off], falls, c, t);
    if !turn.Bad? {
      AccountsGrown(code, infos, done + {t.off}, t.sa, turn.t.sa, s);
      if turn.More? {
        MarksShape(code, infos, done + {t.off}, turn.t);
        TurnProgress(code, falls, c, t);
      }
      OrderedStep(code, falls, c, done, last, now, t);
    }
  }

  /** The loop's invariant after a turn that goes on, with progress, or its conclusion after the last turn. */
  ghost predicate TurnKept(code: seq<Op>, infos: seq<Info>, done: set<int>, last: seq<int>, now: int, t: Tables,
                           s: Summary,
                           turn: Turn)
    requires |t.sa| == |code|
  {
    && (turn.More? ==>
          && Shape(code, turn.t) && Marks(code, infos, done, turn.t) && Accounts(code, infos, done, turn.t.sa, s)
          && Ordered(code, done, last, now, turn.t) && turn.t.tY <= |code|
          && (turn.t.tY > t.tY || (turn.t.tY == t.tY && (Unmarked(turn.t.sa, |code|) < Unmarked(t.sa, |code|)
                                                      || (turn.t.sa == t.sa && turn.t.tX > t.tX)))))
    && (turn.Finished? ==>
          AllDone(code, infos, done, turn.t.sa) && Accounts(code, infos, done, turn.t.sa, s)
          && Ranked(code, done, last))
  }

  lemma MarksShape(code: seq<Op>, infos: seq<Info>, done: set<int>, t: Tables)
    requires Marks(code, infos, done, t)
    ensures Shape(code, t)
  {
  }

  function TurnError(w: nat, p: Problem): FlowError {
    match p
    case Overflow => TooManyJumps(w)
    case Range => OutOfRange(w)
    case Clash(at, h, h') => Mismatch(w, at, h, h')
  }

  /** The turn the loop takes from its tables. */
  ghost predicate Turning(ws: seq<Word>, infos: seq<Info>, t: Tables, w: nat, turn: Turn) {
    w < |ws| && ws[w].Interpreted? && Shape(ws[w].code, t) && Settled(ws[w].code[t.off], infos)
    && turn == Advance(ws[w].code[t.off], Falls(ws[w].code[t.off], infos),
                       t.sa[t.off].value + Delta(ws[w].code[t.off], infos), t)
  }

  lemma GenuineClash(ws: seq<Word>, infos: seq<Info>, done: set<int>, t: Tables, w: nat, p: Problem)
    requires p.Clash? && Turning(ws, infos, t, w, Bad(p)) && Marks(ws[w].code, infos, done, t)
    ensures Genuine(ws, infos, Mismatch(w, p.at, p.first, p.second))
  {
    hide Reach, Marks, Advance, Shape, Falls, Delta;
    TurnClash(ws[w].code, infos, done, t, p.at, p.first, p.second);
  }

  lemma GenuineRange(ws: seq<Word>, infos: seq<Info>, t: Tables, w: nat)
    requires Turning(ws, infos, t, w, Bad(Range))
    ensures Genuine(ws, infos, OutOfRange(w))
  {
    hide Advance;
    var code := ws[w].code;
    if WellFormedCode(ws[w].numLocals, code) {
      TurnRange(code, ws[w].numLocals, Falls(code[t.off], infos), t.sa[t.off].value + Delta(code[t.off], infos), t);
    }
  }

  lemma GenuineOverflow(ws: seq<Word>, infos: seq<Info>, started: set<int>, t: Tables, w: nat, k: nat)
    requires Turning(ws, infos, t, w, Bad(Overflow)) && ws[w].code != []
    requires Explored(ws[w].code, infos, k).More? && Explored(ws[w].code, infos, k).t == t
    requires JumpLoad(ws[w].code) <= |ws[w].code| && WellFormedCode(ws[w].numLocals, ws[w].code) ==>
               Budget(ws[w].code, started, t)
    ensures Genuine(ws, infos, TooManyJumps(w))
  {
    hide Budget, Advance, Explored, JumpLoad, WellFormedCode, Delta, Falls;
    var code := ws[w].code;
    TurnTaken(code, infos, k, t);
    if JumpLoad(code) <= |code| && WellFormedCode(ws[w].numLocals, code) {
      NoOverflow(code, ws[w].numLocals, infos, started, t);
    }
  }

  lemma NoOverflow(code: seq<Op>, numLocals: nat, infos: seq<Info>, started: set<int>, t: Tables)
    requires Shape(code, t) && Settled(code[t.off], infos) && JumpLoad(code) <= |code|
    requires WellFormedCode(numLocals, code)
    requires Budget(code, started, t)
    ensures Advance(code[t.off], Falls(code[t.off], infos), t.sa[t.off].value + Delta(code[t.off], infos), t)
         != Bad(Overflow)
  {
    hide Budget, Advance, JumpLoad;
    var falls, c := Falls(code[t.off], infos), t.sa[t.off].value + Delta(code[t.off], infos);
    TurnRange(code, numLocals, falls, c, t);
    BudgetStep(code, falls, c, started, t);
  }

  lemma TurnGenuine(ws: seq<Word>, infos: seq<Info>, done: set<int>, started: set<int>, t: Tables, w: nat, p: Problem,
                    k: nat)
    requires Turning(ws, infos, t, w, Bad(p)) && Marks(ws[w].code, infos, done, t) && ws[w].code != []
    requires Explored(ws[w].code, infos, k).More? && Explored(ws[w].code, infos, k).t == t
    requires JumpLoad(ws[w].code) <= |ws[w].code| && WellFormedCode(ws[w].numLocals, ws[w].code) ==>
               Budget(ws[w].code, started, t)
    ensures Genuine(ws, infos, TurnError(w, p))
  {
    hide Turning, Marks, Explored, JumpLoad, WellFormedCode, Budget, Genuine;
    match p {
      case Overflow => GenuineOverflow(ws, infos, started, t, w, k);
      case Range => GenuineRange(ws, infos, t, w);
      case Clash(_, _, _) => GenuineClash(ws, infos, done, t, w, p);
    }
  }

  lemma TurnTaken(code: seq<Op>, infos: seq<Info>, k: nat, t: Tables)
    requires code != [] && Explored(code, infos, k).More? && Explored(code, infos, k).t == t
    requires Shape(code, t) && Settled(code[t.off], infos)
    ensures Explored(code, infos, k + 1)
         == Advance(code[t.off], Falls(code[t.off], infos), t.sa[t.off].value + Delta(code[t.off], infos), t)
  {
    hide Advance, Falls, Delta, Settled, Shape;
  }

  // ----- The loop's invariant -----

  /** What the proof remembers of the turns taken: offsets processed, offsets entered by falling through, the turn
      at which each offset was last processed, and the number of turns. */
  datatype History = History(done: set<int>, started: set<int>, last: seq<int>, now: int, turns: nat)

  function After(h: History, off: int, turn: Turn): History
    requires 0 <= off < |h.last|
  {
    History(h.done + {off}, if turn.More? && turn.entered then h.started + {off + 1} else h.started,
            h.last[off := h.now], h.now + 1, h.turns + 1)
  }

  ghost predicate Looping(word: Word, infos: seq<Info>, h: History, t: Tables, s: Summary)
    requires word.Interpreted?
  {
    var code := word.code;
    && Shape(code, t) && Marks(code, infos, h.done, t) && Accounts(code, infos, h.done, t.sa, s)
    && |h.last| == |code| && Ordered(code, h.done, h.last, h.now, t)
    && Explored(code, infos, h.turns).More? && Explored(code, infos, h.turns).t == t
    && (JumpLoad(code) <= |code| && WellFormedCode(word.numLocals, code) ==> Budget(code, h.started, t))
  }

  lemma LoopBegins(word: Word, infos: seq<Info>)
    requires word.Interpreted? && word.code != []
    ensures Looping(word, infos, History({}, {0}, seq(|word.code|, _ => -1), 0, 0), FirstTables(|word.code|),
                    Summary(0, None, 0, 0))
  {
    hide Shape, Marks, Accounts, Ordered, Budget, Explored, JumpLoad, WellFormedCode;
    LoopStart(word.code, infos, FirstTables(|word.code|));
    NoTurns(word.code, infos, FirstTables(|word.code|));
  }

  /** What the invariant says about the offset about to be processed. */
  lemma LoopFacts(word: Word, infos: seq<Info>, h: History, t: Tables, s: Summary)
    requires word.Interpreted? && Looping(word, infos, h, t, s)
    ensures Shape(word.code, t) && |h.last| == |word.code|
    ensures Reach(word.code, infos, Node(t.off, t.sa[t.off].value))
    ensures s.exit.Some? ==> ExitSeen(word.code, infos, s.exit.value)
  {
    hide Shape, Marks, Accounts, Ordered, Budget, Explored, JumpLoad, WellFormedCode, Reach, ExitSeen;
    MarksShape(word.code, infos, h.done, t);
    LoopHere(word.code, infos, h.done, t, s);
  }

  /** The visit of an opcode that leads to `s'` and leaves the words at `infos`. */
  ghost predicate Visited(word: Word, before: seq<Info>, infos: seq<Info>, t: Tables, s: Summary, s': Summary)
    requires word.Interpreted? && Shape(word.code, t)
  {
    var op, c := word.code[t.off], t.sa[t.off].value;
    && Later(before, infos) && Settled(op, infos) && (op.Call? ==> infos[op.target].flow == 1)
    && (op.Ret? ==> s.exit in {None, Some(c)}) && s' == Account(op, infos, s, c)
  }

  lemma VisitedIs(word: Word, before: seq<Info>, infos: seq<Info>, t: Tables, s: Summary, s': Summary)
    requires word.Interpreted? && Shape(word.code, t)
    requires var op, c := word.code[t.off], t.sa[t.off].value;
             && Later(before, infos) && Settled(op, infos) && (op.Call? ==> infos[op.target].flow == 1)
             && (op.Ret? ==> s.exit in {None, Some(c)}) && s' == Account(op, infos, s, c)
    ensures Visited(word, before, infos, t, s, s')
  {
  }

  /** Before the second part of a turn: everything but the accounting is as before, for the later words. */
  lemma LoopLater(word: Word, before: seq<Info>, infos: seq<Info>, h: History, t: Tables, s: Summary, s': Summary)
    requires word.Interpreted? && Looping(word, before, h, t, s) && Shape(word.code, t)
    requires Visited(word, before, infos, t, s, s')
    ensures Marks(word.code, infos, h.done, t) && Accounts(word.code, infos, h.done + {t.off}, t.sa, s')
    ensures word.code != [] && Explored(word.code, infos, h.turns).More? && Explored(word.code, infos, h.turns).t == t
  {
    hide Marks, Accounts, Ordered, Budget, Explored, JumpLoad, WellFormedCode, Account;
    LoopVisited(word.code, before, infos, h.done, t, s, t.off);
    ExploredLater(word.code, before, infos, h.turns);
  }

  lemma LoopOpen(word: Word, infos: seq<Info>, h: History, t: Tables, s: Summary)
    requires word.Interpreted? && Looping(word, infos, h, t, s)
    ensures |h.last| == |word.code| && Ordered(word.code, h.done, h.last, h.now, t) && Shape(word.code, t)
    ensures JumpLoad(word.code) <= |word.code| && WellFormedCode(word.numLocals, word.code) ==>
              Budget(word.code, h.started, t)
  {
    hide Shape, Marks, Accounts, Ordered, Budget, Explored, JumpLoad, WellFormedCode;
  }

  /** A whole turn: a failure is genuine, going on keeps the invariant and makes progress, and the end is the
      summary. */
  lemma LoopTurn(ws: seq<Word>, w: nat, before: seq<Info>, infos: seq<Info>, h: History, t: Tables, s: Summary,
                 s': Summary,
                 turn: Turn)
    requires w < |ws| && ws[w].Interpreted? && Looping(ws[w], before, h, t, s) && Shape(ws[w].code, t)
    requires |h.last| == |ws[w].code| && Visited(ws[w], before, infos, t, s, s') && Turning(ws, infos, t, w, turn)
    ensures turn.Bad? ==> Genuine(ws, infos, TurnError(w, turn.p))
    ensures turn.More? ==>
              Looping(ws[w], infos, After(h, t.off, turn), turn.t, s') && Progress(|ws[w].code|, t, turn.t)
    ensures turn.Finished? ==>
              IsSummary(ws[w].code, infos, s') && JumpsEnd(ws[w].code, infos, After(h, t.off, turn).last)
              && ExploresAll(ws[w].code, infos)
  {
    hide *;
    LoopOpen(ws[w], before, h, t, s);
    LoopLater(ws[w], before, infos, h, t, s, s');
    if turn.Bad? {
      TurnGenuine(ws, infos, h.done, h.started, t, w, turn.p, h.turns);
    } else {
      LoopGoesOn(ws, w, infos, h, t, s', turn);
    }
  }

  /** A turn leaves less to do. */
  ghost predicate Progress(n: nat, t: Tables, u: Tables) {
    && |u.sa| == |t.sa| == n && u.tY <= n
    && (u.tY > t.tY || (u.tY == t.tY && (Unmarked(u.sa, n) < Unmarked(t.sa, n) || (u.sa == t.sa && u.tX > t.tX))))
  }

  lemma LoopGoesOn(ws: seq<Word>, w: nat, infos: seq<Info>, h: History, t: Tables, s: Summary, turn: Turn)
    requires w < |ws| && ws[w].Interpreted? && Turning(ws, infos, t, w, turn) && !turn.Bad?
    requires var code := ws[w].code;
             && Shape(code, t) && Marks(code, infos, h.done, t) && Accounts(code, infos, h.done + {t.off}, t.sa, s)
             && |h.last| == |code| && Ordered(code, h.done, h.last, h.now, t)
             && code != [] && Explored(code, infos, h.turns).More? && Explored(code, infos, h.turns).t == t
             && (JumpLoad(code) <= |code| && WellFormedCode(ws[w].numLocals, code) ==> Budget(code, h.started, t))
    ensures turn.More? ==>
              Looping(ws[w], infos, After(h, t.off, turn), turn.t, s) && Progress(|ws[w].code|, t, turn.t)
    ensures turn.Finished? ==>
              IsSummary(ws[w].code, infos, s) && JumpsEnd(ws[w].code, infos, After(h, t.off, turn).last)
              && ExploresAll(ws[w].code, infos)
  {
    hide Marks, Accounts, Ordered, Budget, Explored, JumpLoad, WellFormedCode, Advance, Unmarked, Reach, IsSummary;
    hide JumpsEnd, ExploresAll, AllDone, Ranked, Falls, Delta, Settled;
    var code := ws[w].code;
    TurnFacts(code, infos, h.done, h.started, h.last, h.now, t, s);
    BudgetTurn(code, ws[w].numLocals, infos, h.started, t);
    TurnTaken(code, infos, h.turns, t);
    if turn.Finished? {
      LoopSummary(code, infos, h.done + {t.off}, turn.t.sa, s);
      LoopJumpsEnd(code, infos, h.done + {t.off}, turn.t.sa, h.last[t.off := h.now]);
      LoopEnds(code, infos, h.turns + 1);
    }
  }

  // ----- The analyser -----

  /** The words of a compilation with the fields their analysis updates. */
  class Analyser {
    const words: seq<Word>
    var infos: seq<Info>
    ghost var sums: seq<Summary>

    constructor (ws: seq<Word>)
      ensures words == ws && State(words, infos, sums, [])
    {
      words := ws;
      infos := seq(|ws|, w requires 0 <= w < |ws| => Initial(ws[w]));
      sums := seq(|ws|, _ => Summary(0, None, 0, 0));
    }

    /** Second part of a turn, on the arrays: merge the jump target and the next opcode, choose the next offset. */
    method Propagate(op: Op, falls: bool, c: int, sa: array<Option<int>>, toExplore: array<int>, off: int, tX: int,
                     tY: int)
      returns (turn: Turn)
      requires sa.Length == toExplore.Length && 0 <= tX <= tY <= sa.Length
      modifies sa, toExplore
      ensures turn == Advance(op, falls, c, Tables(old(sa[..]), old(toExplore[..]), tX, tY, off))
      ensures !turn.Bad? ==> turn.t.sa == sa[..] && turn.t.te == toExplore[..]
    {
      ghost var t := Tables(sa[..], toExplore[..], tX, tY, off);
      var y := tY;
      if op.Jumps() {
        if tY >= toExplore.Length {
          return Bad(Overflow);
        }
        if op.disp.None? {
          return Bad(Range);
        }
        var j := off + op.disp.value + 1;
        toExplore[tY] := j;
        y := tY + 1;
        var queued := MergeSA(sa, j, c);
        if queued.Wrong? {
          return Bad(queued.p);
        }
      }
      assert Queue(op, c, t) == More(Tables(sa[..], toExplore[..], tX, y, off), false);
      if falls {
        var merged := MergeSA(sa, off + 1, c);
        if merged.Wrong? {
          return Bad(merged.p);
        }
        if merged.New? {
          return More(Tables(sa[..], toExplore[..], tX, y, off + 1), true);
        }
      }
      if tX < y {
        return More(Tables(sa[..], toExplore[..], tX + 1, y, toExplore[tX]), false);
      }
      return Finished(Tables(sa[..], toExplore[..], tX, y, off));
    }

    method MergeSA(sa: array<Option<int>>, j: int, c: int) returns (m: Merged)
      modifies sa
      ensures m == Merge(old(sa[..]), j, c)
      ensures sa[..] == if m.Wrong? then old(sa[..]) else Marked(old(sa[..]), j, c)
      ensures m == Wrong(Range) <==> !(0 <= j < sa.Length)
      ensures 0 <= j < sa.Length ==>
                match old(sa[j])
                case None =>
                  m == New && sa[j] == Some(c) && forall i :: 0 <= i < sa.Length && i != j ==> sa[i] == old(sa[i])
                case Some(h) => (if h == c then m == Same else m == Wrong(Clash(j, h, c))) && sa[..] == old(sa[..])
    {
      if !(0 <= j < sa.Length) {
        return Wrong(Range);
      }
      if sa[j].None? {
        sa[j] := Some(c);
        return New;
      }
      if sa[j].value != c {
        return Wrong(Clash(j, sa[j].value, c));
      }
      return Same;
    }

    /** First part of a turn: the effect of the opcode at `off`, analysing the called word if it is a call. */
    method Visit(w: nat, off: int, c: int, s: Summary, ghost stack: seq<nat>)
      returns (err: Option<FlowError>, a: int, mft: bool, s': Summary)
      requires w < |words| && words[w].Interpreted? && State(words, infos, sums, stack + [w])
      requires 0 <= off < |words[w].code| && Reach(words[w].code, infos, Node(off, c))
      requires s.exit.Some? ==> ExitSeen(words[w].code, infos, s.exit.value)
      modifies this
      decreases NewWords(infos, |infos|), 1
      ensures err.None? ==>
                var op := words[w].code[off];
                && State(words, infos, sums, stack + [w]) && Later(old(infos), infos) && Settled(op, infos)
                && a == Delta(op, infos) && mft == Falls(op, infos) && s' == Account(op, infos, s, c)
                && (op.Call? ==> infos[op.target].flow == 1)
                && (op.Ret? ==> s.exit in {None, Some(c)})
      ensures err.Some? ==> Genuine(words, infos, err.value)
    {
      hide Reach, Analysed, CallChain, IsSummary;
      var code := words[w].code;
      var op := code[off];
      mft := op.MayFallThrough();
      a, s' := 0, s;
      if op.Call? {
        var t := op.target;
        if t >= |words| {
          NoSuchWord(words, infos, w, off);
          return Some(OutOfRange(w)), a, mft, s';
        }
        CallEdgeAt(words, infos, w, Node(off, c), t);
        LastCalls(words, infos, stack, w, t);
        err := AnalyseFlow(t, stack + [w]);
        if err.Some? {
          return;
        }
        var se := infos[t].effect;
        if !se.IsKnown() {
          CallEdgeStable(words, old(infos), infos, w, t);
          return Some(UnknownEffect(w, off, t)), a, mft, s';
        }
        if se.NoExit() {
          mft := false;
          a := 0;
        } else {
          a := se.dout - se.din;
        }
        s' := s'.(mds := Max(s.mds, c + infos[t].maxDataStack), mrs := Max(s.mrs, infos[t].maxReturnStack),
                  depth := Min(s.depth, c - se.din));
      } else if op.Ret? {
        if s.exit.None? {
          s' := s'.(exit := Some(c));
        } else if s.exit.value != c {
          return Some(ExitMismatch(w, off, s.exit.value, c)), a, mft, s';
        }
      } else {
        a := op.StackAction();
        s' := s'.(mds := Max(s.mds, c + a));
      }
      s' := s'.(depth := Min(s'.depth, c + a));
      err := None;
    }

    /** The exploration loop over one word, whose analysis is ongoing. */
    method Summarise(w: nat, ghost stack: seq<nat>) returns (err: Option<FlowError>, s: Summary, ghost last: seq<int>)
      requires w < |words| && words[w].Interpreted? && State(words, infos, sums, stack + [w])
      modifies this
      decreases NewWords(infos, |infos|), 2
      ensures err.None? ==>
                && State(words, infos, sums, stack + [w]) && Later(old(infos), infos)
                && IsSummary(words[w].code, infos, s) && JumpsEnd(words[w].code, infos, last)
                && ExploresAll(words[w].code, infos)
      ensures err.Some? ==> Genuine(words, infos, err.value)
    {
      hide Reach, IsSummary, JumpsEnd, State, Looping, Visited, ExploresAll;
      hide Advance, Falls, Delta, Settled, Unmarked, Account, Genuine, TurnError;
      StateSizes(words, infos, sums, stack + [w]);
      var code := words[w].code;
      var n := |code|;
      s, last := Summary(0, None, 0, 0), [];
      if n == 0 {
        EmptyWord(words, infos, w);
        return Some(OutOfRange(w)), s, last;
      }
      var sa := new Option<int>[n](_ => None);
      sa[0] := Some(0);
      var toExplore := new int[n](_ => 0);
      var tX, tY, off := 0, 0, 0;
      ghost var h := History({}, {0}, seq(n, _ => -1), 0, 0);
      ghost var t := Tables(sa[..], toExplore[..], tX, tY, off);
      assert t == FirstTables(n);
      LoopBegins(words[w], infos);
      while true
        invariant State(words, infos, sums, stack + [w]) && Later(old(infos), infos)
        invariant |infos| == |words| && NewWords(infos, |infos|) <= NewWords(old(infos), |infos|)
        invariant t == Tables(sa[..], toExplore[..], tX, tY, off) && sa.Length == toExplore.Length == n
        invariant Looping(words[w], infos, h, t, s)
        decreases n - tY, Unmarked(sa[..], n), tY - tX
      {
        LoopFacts(words[w], infos, h, t, s);
        var c := sa[off].value;
        ghost var before := infos;
        var a, mft, s';
        err, a, mft, s' := Visit(w, off, c, s, stack);
        if err.Some? {
          return;
        }
        assert Visited(words[w], before, infos, t, s, s') by {
          VisitedIs(words[w], before, infos, t, s, s');
        }
        LaterTransitive(old(infos), before, infos);
        NewWordsLater(before, infos, |infos|);
        var turn := Propagate(code[off], mft, c + a, sa, toExplore, off, tX, tY);
        assert Turning(words, infos, t, w, turn);
        LoopTurn(words, w, before, infos, h, t, s, s', turn);
        if turn.Bad? {
          err := Some(TurnError(w, turn.p));
          return;
        }
        s, h := s', After(h, off, turn);
        if turn.Finished? {
          return None, s, h.last;
        }
        tX, tY, off := turn.t.tX, turn.t.tY, turn.t.off;
        t := turn.t;
      }
    }

    /** AnalyseFlow. Success records the exact summary of the word and of every word its flow calls; every failure is a
        real defect. The call always ends. `stack` holds the words whose analysis is ongoing. */
    method AnalyseFlow(w: nat, ghost stack: seq<nat>) returns (err: Option<FlowError>)
      requires w < |words| && State(words, infos, sums, stack)
      requires stack != [] ==> CallEdge(words, infos, stack[|stack| - 1], w)
      modifies this
      decreases NewWords(infos, |infos|), 0
      ensures err.None? ==> State(words, infos, sums, stack) && Later(old(infos), infos) && infos[w].flow == 1
      ensures err.Some? ==> Genuine(words, infos, err.value)
    {
      hide Reach, Analysed, CallChain, CallEdge, IsSummary, JumpsEnd;
      assert WordState(words, infos, sums, stack, w);
      if infos[w].flow == 1 {
        return None;
      }
      if infos[w].flow != 0 {
        CycleFound(words, infos, sums, stack, w);
        return Some(Recursive(w));
      }
      StateStart(words, infos, sums, stack, w);
      infos := infos[w := infos[w].(flow := 2)];
      ghost var started := infos;
      var s;
      ghost var last;
      err, s, last := Summarise(w, stack);
      if err.Some? {
        return;
      }
      LaterTransitive(old(infos), started, infos);
      assert WordState(words, infos, sums, stack + [w], w);
      var computed := Computed(s);
      if infos[w].effect.IsKnown() && !computed.IsSubOf(infos[w].effect) {
        DeclarationKeptIff(words[w].code, infos, s, words[w].declared);
        return Some(Declared(w, computed));
      }
      ghost var before := infos;
      FinishSummary(words, infos, w, s, last);
      StateFinish(words, infos, sums, stack, w, FinishedInfo(words[w], s), s);
      infos := infos[w := FinishedInfo(words[w], s)];
      LaterTransitive(old(infos), before, infos);
      sums := sums[w := s];
    }
  }

  lemma StateSizes(ws: seq<Word>, infos: seq<Info>, sums: seq<Summary>, stack: seq<nat>)
    requires State(ws, infos, sums, stack)
    ensures |infos| == |sums| == |ws|
  {
  }

  lemma BudgetTurn(code: seq<Op>, numLocals: nat, infos: seq<Info>, started: set<int>, t: Tables)
    requires Shape(code, t) && Settled(code[t.off], infos)
    requires JumpLoad(code) <= |code| && WellFormedCode(numLocals, code) ==> Budget(code, started, t)
    ensures var op := code[t.off];
            var turn := Advance(op, Falls(op, infos), t.sa[t.off].value + Delta(op, infos), t);
            JumpLoad(code) <= |code| && WellFormedCode(numLocals, code) && turn.More? && Shape(code, turn.t) ==>
              Budget(code, if turn.entered then started + {t.off + 1} else started, turn.t)
  {
    hide Budget;
    if JumpLoad(code) <= |code| && WellFormedCode(numLocals, code) {
      BudgetStep(code, Falls(code[t.off], infos), t.sa[t.off].value + Delta(code[t.off], infos), started, t);
    }
  }

  // ----- Consequences of success -----

  /** Along a call between finished words the return stack limit strictly decreases. */
  lemma CallsDescend(ws: seq<Word>, infos: seq<Info>, sums: seq<Summary>, w: nat, t: nat)
    requires State(ws, infos, sums, []) && w < |ws| && infos[w].flow == 1 && CallEdge(ws, infos, w, t)
    ensures t < |ws| && infos[t].flow == 1
    ensures ws[t].Interpreted? ==> infos[t].maxReturnStack < infos[w].maxReturnStack
  {
    hide Reach, JumpsEnd;
    assert WordState(ws, infos, sums, [], w);
    var n :| Reach(ws[w].code, infos, n) && CallsAt(ws[w].code, n, t);
    assert Covers(ws[w].code, infos, sums[w], n);
  }

  /** The flow-reachable call graph below a finished word has no cycle: no chain of calls comes back to where it
      started. */
  lemma {:induction false} NoCallCycle(ws: seq<Word>, infos: seq<Info>, sums: seq<Summary>, chain: seq<nat>)
    requires State(ws, infos, sums, []) && |chain| >= 2 && CallChain(ws, infos, chain)
    requires chain[0] < |ws| && infos[chain[0]].flow == 1
    ensures chain[|chain| - 1] < |ws| && infos[chain[|chain| - 1]].flow == 1
    ensures ws[chain[|chain| - 1]].Interpreted? ==>
              infos[chain[|chain| - 1]].maxReturnStack < infos[chain[0]].maxReturnStack
    ensures chain[0] != chain[|chain| - 1]
    decreases |chain|
  {
    hide CallEdge, State;
    var k := |chain| - 1;
    assert CallEdge(ws, infos, chain[k - 1], chain[k]);
    if |chain| > 2 {
      var front := chain[..k];
      forall i | 0 <= i < |front| - 1
        ensures CallEdge(ws, infos, front[i], front[i + 1])
      {
        assert CallEdge(ws, infos, chain[i], chain[i + 1]);
      }
      NoCallCycle(ws, infos, sums, front);
    }
    assert CallEdge(ws, infos, chain[0], chain[1]);
    CallEdgeCaller(ws, infos, chain[0], chain[1]);
    CallEdgeCaller(ws, infos, chain[k - 1], chain[k]);
    CallsDescend(ws, infos, sums, chain[k - 1], chain[k]);
  }

  lemma CallEdgeCaller(ws: seq<Word>, infos: seq<Info>, w: nat, t: nat)
    requires CallEdge(ws, infos, w, t)
    ensures w < |ws| && ws[w].Interpreted?
  {
  }

  /** A ring of jumps, each landing on the next. */
  ghost predicate JumpRing(code: seq<Op>, ring: seq<int>) {
    && |ring| >= 2 && ring[0] == ring[|ring| - 1]
    && forall i :: 0 <= i < |ring| - 1 ==> JumpsFrom(code, ring[i]) && Target(code, ring[i]) == ring[i + 1]
  }

  /** Along a reachable ring of jumps no ranking increases. */
  lemma RingUnranked(code: seq<Op>, infos: seq<Info>, ring: seq<int>, h: int, last: seq<int>)
    requires JumpRing(code, ring) && Reach(code, infos, Node(ring[0], h))
    ensures !JumpsEnd(code, infos, last)
  {
    if JumpsEnd(code, infos, last) {
      var _ := RingClimbs(code, infos, ring, h, last, |ring| - 1);
    }
  }

  /** A word with a reachable ring of jumps, such as the lone jump of `begin again`, is never recorded as analysed, so
      AnalyseFlow never succeeds on it: the loop queues the jumps of the ring again and again. */
  lemma RingNeverAnalysed(ws: seq<Word>, infos: seq<Info>, sums: seq<Summary>, stack: seq<nat>, w: nat, ring: seq<int>,
                          h: int)
    requires State(ws, infos, sums, stack) && w < |ws| && ws[w].Interpreted?
    requires JumpRing(ws[w].code, ring) && Reach(ws[w].code, infos, Node(ring[0], h))
    ensures infos[w].flow != 1
  {
    hide Reach, IsSummary, JumpsEnd, ExploresAll, JumpRing;
    assert WordState(ws, infos, sums, stack, w);
    if infos[w].flow == 1 {
      var last :| JumpsEnd(ws[w].code, infos, last);
      RingUnranked(ws[w].code, infos, ring, h, last);
    }
  }

  /** A word whose loop meets a full queue is never recorded as analysed; and too many jumps are only reported for
      such a word (Genuine). */
  lemma OverflowNeverAnalysed(ws: seq<Word>, infos: seq<Info>, sums: seq<Summary>, stack: seq<nat>, w: nat)
    requires State(ws, infos, sums, stack) && w < |ws| && ws[w].Interpreted? && QueueOverflows(ws[w].code, infos)
    ensures infos[w].flow != 1
  {
    hide Reach, IsSummary, JumpsEnd, ExploresAll, QueueOverflows;
    assert WordState(ws, infos, sums, stack, w);
    EndsOrOverflows(ws[w].code, infos);
  }

  lemma {:induction false} RingClimbs(code: seq<Op>, infos: seq<Info>, ring: seq<int>, h: int, last: seq<int>, k: nat)
    returns (h': int)
    requires JumpRing(code, ring) && Reach(code, infos, Node(ring[0], h)) && JumpsEnd(code, infos, last)
    requires 0 < k < |ring|
    ensures 0 <= ring[0] < |last| && 0 <= ring[k] < |last| && last[ring[k]] > last[ring[0]]
    ensures Reach(code, infos, Node(ring[k], h'))
    decreases k
  {
    hide Reach;
    var at, height := ring[0], h;
    if k > 1 {
      height := RingClimbs(code, infos, ring, h, last, k - 1);
      at := ring[k - 1];
    }
    assert JumpsFrom(code, ring[k - 1]) && Target(code, ring[k - 1]) == ring[k];
    h' := height + Delta(code[at], infos);
    ReachStep(code, infos, Node(at, height), Node(ring[k], h'));
  }

  /** When no jump lands on a jump, the queue never overflows: the load of a word is at most its number of opcodes. */
  lemma {:induction false} SimpleJumpsFit(code: seq<Op>, n: nat)
    requires n <= |code| && forall o :: JumpsFrom(code, o) ==> !JumpsFrom(code, Target(code, o))
    ensures TotalUpTo(code, n) <= n
    decreases n
  {
    if n > 0 {
      SimpleJumpsFit(code, n - 1);
      assert JumpsFrom(code, n - 1) ==> Chain(code, Target(code, n - 1), |code|) == 0;
    }
  }
}
