/** Two words the exploration queue of the analysis is too short for. */
module QueueExample {
  import opened Machine32
  import opened Code
  import opened Flow
  import opened Explore
  import opened FlowAnalysis

  /** `begin again`: one jump to itself. */
  function BeginAgain(): Word { Interpreted(0, [Jump(Always, Some(-1))], UNKNOWN) }

  lemma BeginAgainNeverAnalysed(ws: seq<Word>, infos: seq<Info>, sums: seq<Summary>, stack: seq<nat>, w: nat)
    requires State(ws, infos, sums, stack) && w < |ws| && ws[w] == BeginAgain()
    ensures infos[w].flow != 1
  {
    hide State, Reach;
    ReachEntry(ws[w].code, infos);
    RingNeverAnalysed(ws, infos, sums, stack, w, [0, 0], 0);
  }

  method AnalyseBeginAgain() returns (err: Option<FlowError>)
    ensures err.Some?
  {
    hide State, Genuine;
    var analyser := new Analyser([BeginAgain()]);
    err := analyser.AnalyseFlow(0, []);
    if err.None? {
      BeginAgainNeverAnalysed(analyser.words, analyser.infos, analyser.sums, [], 0);
    }
  }

  /** Four opcodes, jumps to jumps, but no ring: the constant stands between. */
  function TangleCode(): seq<Op> {
    [Jump(Always, Some(2)), Const(0), Jump(IfTrue, Some(-3)), Jump(Always, Some(-3))]
  }

  function Tangle(): Word { Interpreted(0, TangleCode(), UNKNOWN) }

  function TangleTable(): seq<Option<int>> { [Some(0), Some(0), Some(1), Some(0)] }

  lemma TangleReach(infos: seq<Info>, n: Node)
    ensures Reach(TangleCode(), infos, n) <==> InTable(TangleTable(), n)
  {
    var code := TangleCode();
    ReachEntry(code, infos);
    ReachStep(code, infos, Node(0, 0), Node(3, 0));
    ReachStep(code, infos, Node(3, 0), Node(1, 0));
    ReachStep(code, infos, Node(1, 0), Node(2, 1));
    if Reach(code, infos, n) {
      var p :| Path(code, infos, p) && p[|p| - 1] == n;
      PathInTable(code, infos, TangleTable(), p);
    }
  }

  /** The word is well formed, and its jumps end. */
  lemma TangleJumpsEnd(infos: seq<Info>)
    ensures WellFormedCode(0, TangleCode()) && JumpsEnd(TangleCode(), infos, [1, 3, 0, 2])
  {
    hide Reach;
  }

  /** It is typed consistently. */
  lemma TangleTyped(infos: seq<Info>)
    ensures IsSummary(TangleCode(), infos, Summary(0, None, 1, 0))
  {
    var code, s := TangleCode(), Summary(0, None, 1, 0);
    forall n
      ensures Reach(code, infos, n) <==> InTable(TangleTable(), n)
    {
      TangleReach(infos, n);
    }
    hide Reach;
    assert Covers(code, infos, s, Node(0, 0)) && Covers(code, infos, s, Node(1, 0));
    assert Covers(code, infos, s, Node(2, 1)) && Covers(code, infos, s, Node(3, 0));
    assert ChargeAt(code, infos, s, Node(1, 0));
  }

  /** The tables of the loop after `k` turns. */
  function TangleTables(k: nat): Tables
    requires k <= 5
  {
    match k
    case 0 => Tables([Some(0), None, None, None], [0, 0, 0, 0], 0, 0, 0)
    case 1 => Tables([Some(0), None, None, Some(0)], [3, 0, 0, 0], 1, 1, 3)
    case 2 => Tables([Some(0), Some(0), None, Some(0)], [3, 1, 0, 0], 2, 2, 1)
    case 3 => Tables(TangleTable(), [3, 1, 0, 0], 2, 2, 2)
    case 4 => Tables(TangleTable(), [3, 1, 0, 0], 3, 3, 0)
    case _ => Tables(TangleTable(), [3, 1, 0, 3], 4, 4, 3)
  }

  lemma TangleTurn(infos: seq<Info>, k: nat)
    requires k < 5
    ensures NextTurn(TangleCode(), infos, TangleTables(k)) == More(TangleTables(k + 1), k == 2)
  {
  }

  /** Four turns fill the queue, and the jump of the last one finds it full. */
  lemma LastTangleTurn(infos: seq<Info>)
    ensures NextTurn(TangleCode(), infos, TangleTables(5)) == Bad(Overflow)
  {
  }

  lemma {:induction false} TangleExplored(infos: seq<Info>, k: nat)
    requires k <= 5
    ensures Explored(TangleCode(), infos, k) == More(TangleTables(k), k == 3)
    decreases k
  {
    hide NextTurn;
    if k == 0 {
      assert FirstTables(4) == TangleTables(0);
    } else {
      TangleExplored(infos, k - 1);
      TangleTurn(infos, k - 1);
    }
  }

  lemma TangleOverflows(infos: seq<Info>)
    ensures QueueOverflows(TangleCode(), infos)
  {
    hide NextTurn, TangleTables;
    TangleExplored(infos, 5);
    LastTangleTurn(infos);
    assert Explored(TangleCode(), infos, 6) == Bad(Overflow);
  }

  /** So there are words without a ring of jumps, typed consistently, that the analysis rejects for its queue alone. */
  lemma TangleNeverAnalysed(ws: seq<Word>, infos: seq<Info>, sums: seq<Summary>, stack: seq<nat>, w: nat)
    requires State(ws, infos, sums, stack) && w < |ws| && ws[w] == Tangle()
    ensures infos[w].flow != 1
  {
    hide State, QueueOverflows;
    TangleOverflows(infos);
    OverflowNeverAnalysed(ws, infos, sums, stack, w);
  }
}
