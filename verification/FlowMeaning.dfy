/** The vocabulary of the flow analysis against the CPU: its edges are the moves of the CPU, an opcode takes as many
    items as the CPU must find, and the four counters are the least bounds over all reachable positions. */
module FlowMeaning {
  import opened Machine32
  import opened Code
  import opened Flow
  import opened Explore
  import opened SourceMachine
  import opened FlowAnalysis

  /** The CPU goes from `s` to `t`, inside word `w`, the way `a` and `b` say. */
  ghost predicate Moves(ws: seq<Word>, w: nat, a: Node, b: Node, s: CState, t: CState) {
    && s.w == t.w == w && s.off == a.off && t.off == b.off && CNext(ws, s) == CGo(t)
    && |t.frames| == |s.frames| && |t.ds| - |s.ds| == b.h - a.h
  }

  /** An edge of the flow is a move that the CPU can make from some state, with the same change of height; at a call it
      is the return of a word that exits, with the recorded change. */
  lemma EdgeIsMove(ws: seq<Word>, infos: seq<Info>, w: nat, a: Node, b: Node)
    requires w < |ws| && ws[w].Interpreted? && WellFormedCode(ws[w].numLocals, ws[w].code)
    requires 0 <= a.off < |ws[w].code|
    ensures match ws[w].code[a.off]
            case Call(c) =>
              Edge(ws[w].code, infos, a, b) <==>
                && c < |infos| && infos[c].effect.din >= 0 && infos[c].effect.dout >= 0
                && b == Node(a.off + 1, a.h - infos[c].effect.din + infos[c].effect.dout)
            case _ => Edge(ws[w].code, infos, a, b) <==> exists s, t :: Moves(ws, w, a, b, s, t)
  {
    var op := ws[w].code[a.off];
    if !op.Call? {
      if Edge(ws[w].code, infos, a, b) {
        var s, t := MoveOf(ws, infos, w, a, b);
      }
      forall s, t | Moves(ws, w, a, b, s, t)
        ensures Edge(ws[w].code, infos, a, b)
      {
        EdgeOf(ws, infos, w, a, b, s, t);
      }
    }
  }

  lemma MoveOf(ws: seq<Word>, infos: seq<Info>, w: nat, a: Node, b: Node) returns (s: CState, t: CState)
    requires w < |ws| && ws[w].Interpreted? && WellFormedCode(ws[w].numLocals, ws[w].code)
    requires 0 <= a.off < |ws[w].code| && !ws[w].code[a.off].Call? && Edge(ws[w].code, infos, a, b)
    ensures Moves(ws, w, a, b, s, t)
  {
    var op := ws[w].code[a.off];
    var taken := op.Jumps() && b.off == a.off + 1 + op.disp.value;
    var flag: u32 := if op.Jump? && (op.kind.IfTrue? <==> taken) then 1 else 0;
    s := CState(w, a.off, [flag], [Frame(None, NewLocals(ws[w].numLocals))]);
    t := CNext(ws, s).s;
  }

  lemma EdgeOf(ws: seq<Word>, infos: seq<Info>, w: nat, a: Node, b: Node, s: CState, t: CState)
    requires w < |ws| && ws[w].Interpreted? && WellFormedCode(ws[w].numLocals, ws[w].code)
    requires 0 <= a.off < |ws[w].code| && !ws[w].code[a.off].Call? && Moves(ws, w, a, b, s, t)
    ensures Edge(ws[w].code, infos, a, b)
  {
  }

  /** An opcode other than a call takes just as many items as the CPU needs not to get stuck. */
  lemma StuckIff(ws: seq<Word>, infos: seq<Info>, s: CState)
    requires Running(ws, s) && WellFormedCode(ws[s.w].numLocals, ws[s.w].code) && !CurrentOp(ws, s).Call?
    requires |Top(s).locals| == ws[s.w].numLocals
    ensures CNext(ws, s).CStuck? <==> |s.ds| < Pops(CurrentOp(ws, s), infos)
  {
  }

  // ----- The counters -----

  /** Entered with `k` items, the word has what its opcode takes at the node. */
  ghost predicate Supplied(code: seq<Op>, infos: seq<Info>, n: Node, k: int) {
    0 <= n.off < |code| && Settled(code[n.off], infos) && n.h + k >= Pops(code[n.off], infos)
  }

  /** The opcode at the node leaves the stack within `k` of the entry; a called word is charged with its own limit, and
      a return with nothing. */
  ghost predicate Within(code: seq<Op>, infos: seq<Info>, n: Node, k: int) {
    && 0 <= n.off < |code|
    && match code[n.off]
       case Call(c) => c < |infos| && n.h + infos[c].maxDataStack <= k
       case Ret => true
       case Const(_) => n.h + 1 <= k
       case GetLocal(_) => n.h + 1 <= k
       case PutLocal(_) => n.h - 1 <= k
       case Jump(kind, _) => n.h - (if kind.Always? then 0 else 1) <= k
  }

  ghost predicate FramesWithin(code: seq<Op>, infos: seq<Info>, n: Node, k: int) {
    && 0 <= n.off < |code|
    && (code[n.off].Call? ==> code[n.off].target < |infos| && infos[code[n.off].target].maxReturnStack <= k)
  }

  /** The inputs of a word are the least number of items with which every reachable opcode finds what it takes. */
  lemma DepthIs(code: seq<Op>, infos: seq<Info>, s: Summary, k: int)
    requires IsSummary(code, infos, s)
    ensures Computed(s).din <= k <==> k >= 0 && forall n :: Reach(code, infos, n) ==> Supplied(code, infos, n, k)
  {
    hide Reach;
    ComputedExit(code, infos, s);
    if -s.depth <= k {
      forall n | Reach(code, infos, n)
        ensures Supplied(code, infos, n, k)
      {
        assert Covers(code, infos, s, n);
        HeightCovered(code, infos, s, n);
      }
    } else if s.depth != 0 {
      var n :| Reach(code, infos, n) && DepthAt(code, infos, s, n);
      assert !Supplied(code, infos, n, k);
    }
  }

  /** The data stack limit is the least bound, not below 0, on what its opcodes are charged with. */
  lemma DataLimitIs(code: seq<Op>, infos: seq<Info>, s: Summary, k: int)
    requires IsSummary(code, infos, s)
    ensures s.mds <= k <==> k >= 0 && forall n :: Reach(code, infos, n) ==> Within(code, infos, n, k)
  {
    hide Reach;
    if s.mds <= k {
      forall n | Reach(code, infos, n)
        ensures Within(code, infos, n, k)
      {
        assert Covers(code, infos, s, n);
      }
    } else if s.mds != 0 {
      var n :| Reach(code, infos, n) && ChargeAt(code, infos, s, n);
      assert !Within(code, infos, n, k);
    }
  }

  /** The return stack limit, before the frame of the word itself, is the least bound on those of the called words. */
  lemma ReturnLimitIs(code: seq<Op>, infos: seq<Info>, s: Summary, k: int)
    requires IsSummary(code, infos, s)
    ensures s.mrs <= k <==> k >= 0 && forall n :: Reach(code, infos, n) ==> FramesWithin(code, infos, n, k)
  {
    hide Reach;
    if s.mrs <= k {
      forall n | Reach(code, infos, n)
        ensures FramesWithin(code, infos, n, k)
      {
        assert Covers(code, infos, s, n);
      }
    } else if s.mrs != 0 {
      var n :| Reach(code, infos, n) && FrameAt(code, infos, s, n);
      assert !FramesWithin(code, infos, n, k);
    }
  }

  /** The recorded limit of a native word that exits is the lower one of 0 and its growth: it is a lower bound of both,
      and the greatest one. */
  lemma NativeLimit(se: SType, d: int)
    requires se.din >= 0 && se.dout >= 0
    ensures d <= DefaultDataStack(se) <==> d <= 0 && d <= se.dout - se.din
    ensures DefaultDataStack(SType(se.din, -1)) == 0 && DefaultDataStack(UNKNOWN) == -1
    ensures forall c :: Initial(Native(c, se)) == Info(1, se, DefaultDataStack(se), 0)
    ensures forall a :: Initial(Data(a)) == Info(1, SType(0, 1), 0, 0)
  {
  }

  /** What a finished word records, without its summary: its frame is the return address and its locals, and without a
      declaration it leaves, at every return its flow reaches, its inputs and the change it records. */
  lemma RecordedIs(ws: seq<Word>, infos: seq<Info>, sums: seq<Summary>, stack: seq<nat>, w: nat, k: int)
    requires State(ws, infos, sums, stack) && w < |ws| && ws[w].Interpreted? && infos[w].flow == 1
    ensures var code := ws[w].code;
            && (infos[w].maxDataStack <= k <==>
                  k >= 0 && forall n :: Reach(code, infos, n) ==> Within(code, infos, n, k))
            && (infos[w].maxReturnStack <= 1 + ws[w].numLocals + k <==>
                  k >= 0 && forall n :: Reach(code, infos, n) ==> FramesWithin(code, infos, n, k))
            && (!ws[w].declared.IsKnown() ==>
                  (infos[w].effect.din <= k <==>
                     k >= 0 && forall n :: Reach(code, infos, n) ==> Supplied(code, infos, n, k)))
            && (ws[w].declared.IsKnown() ==>
                  infos[w].effect == ws[w].declared && !Misdeclared(code, infos, ws[w].declared))
            && (forall n :: Reach(code, infos, n) && RetAt(code, n.off) ==>
                  infos[w].effect.dout >= 0 && infos[w].effect.dout - infos[w].effect.din == n.h)
            && (infos[w].effect.dout >= 0 && !ws[w].declared.IsKnown() ==>
                  exists n :: Reach(code, infos, n) && RetAt(code, n.off))
  {
    hide Reach, JumpsEnd, ExploresAll, IsSummary, Supplied, Within, FramesWithin, Misdeclared;
    assert WordState(ws, infos, sums, stack, w);
    var code, s := ws[w].code, sums[w];
    DataLimitIs(code, infos, s, k);
    ReturnLimitIs(code, infos, s, k);
    DepthIs(code, infos, s, k);
    ComputedExit(code, infos, s);
    ExitsAre(code, infos, s);
    if ws[w].declared.IsKnown() {
      DeclarationKeptIff(code, infos, s, ws[w].declared);
    }
  }

  lemma ExitsAre(code: seq<Op>, infos: seq<Info>, s: Summary)
    requires IsSummary(code, infos, s)
    ensures forall n :: Reach(code, infos, n) && RetAt(code, n.off) ==> s.exit == Some(n.h)
    ensures s.exit.Some? ==> exists n :: Reach(code, infos, n) && RetAt(code, n.off)
  {
    hide Reach;
    forall n | Reach(code, infos, n) && RetAt(code, n.off)
      ensures s.exit == Some(n.h)
    {
      assert Covers(code, infos, s, n);
    }
    if s.exit.Some? {
      var n :| Reach(code, infos, n) && ExitAt(code, s, n);
      assert RetAt(code, n.off);
    }
  }
}
