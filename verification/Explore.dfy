/** The exploration loop of AnalyseFlow as a function on its tables: what one turn does after the opcode's own
    effect has been accounted for, what every turn keeps, and why it ends. */
module Explore {
  import opened Machine32
  import opened Code
  import opened Flow

  /** The local variables `sa`, `toExplore`, `tX`, `tY` and `off` of the loop. */
  datatype Tables = Tables(sa: seq<Option<int>>, te: seq<int>, tX: int, tY: int, off: int)

  datatype Problem = Overflow | Range | Clash(at: int, first: int, second: int)

  datatype Turn = More(t: Tables, entered: bool) | Finished(t: Tables) | Bad(p: Problem)

  ghost predicate Shape(code: seq<Op>, t: Tables) {
    && |t.sa| == |t.te| == |code| > 0 && 0 <= t.tX <= t.tY <= |code|
    && 0 <= t.off < |code| && t.sa[t.off].Some? && t.sa[0] == Some(0)
    && forall k :: t.tX <= k < t.tY ==> 0 <= t.te[k] < |code| && t.sa[t.te[k]].Some?
  }

  datatype Merged = New | Same | Wrong(p: Problem)

  /** MergeSA */
  function Merge(sa: seq<Option<int>>, j: int, c: int): Merged {
    if !(0 <= j < |sa|) then Wrong(Range)
    else match sa[j]
      case None => New
      case Some(h) => if h == c then Same else Wrong(Clash(j, h, c))
  }

  function Marked(sa: seq<Option<int>>, j: int, c: int): seq<Option<int>>
    requires !Merge(sa, j, c).Wrong?
  {
    sa[j := Some(c)]
  }

  /** First half of a turn: a jump target is queued, then merged. */
  function Queue(op: Op, c: int, t: Tables): (r: Turn)
    requires |t.te| == |t.sa|
    ensures r.More? ==> |r.t.te| == |r.t.sa| == |t.sa| && r.t.tX == t.tX && r.t.off == t.off && t.tY <= r.t.tY
    ensures r.More? && t.tY <= |t.te| ==> r.t.tY <= |t.te|
    ensures !r.Finished?
  {
    if !op.Jumps() then More(t, false)
    else if !(0 <= t.tY < |t.te|) then Bad(Overflow)
    else if op.disp.None? then Bad(Range)
    else
      var j := t.off + 1 + op.disp.value;
      match Merge(t.sa, j, c)
      case Wrong(p) => Bad(p)
      case _ => More(t.(te := t.te[t.tY := j], tY := t.tY + 1, sa := Marked(t.sa, j, c)), false)
  }

  /** Second half: fall through to an opcode seen for the first time, or take the next queued offset. */
  function Move(falls: bool, c: int, t: Tables): Turn
    requires 0 <= t.tX && |t.te| >= t.tY
  {
    if !falls then Dequeue(t)
    else
      match Merge(t.sa, t.off + 1, c)
      case Wrong(p) => Bad(p)
      case New => More(t.(sa := Marked(t.sa, t.off + 1, c), off := t.off + 1), true)
      case Same => Dequeue(t)
  }

  function Dequeue(t: Tables): Turn
    requires 0 <= t.tX && |t.te| >= t.tY
  {
    if t.tX < t.tY then More(t.(off := t.te[t.tX], tX := t.tX + 1), false) else Finished(t)
  }

  /** One turn at opcode `op`, whose effect leads to height `c`. */
  function Advance(op: Op, falls: bool, c: int, t: Tables): Turn
    requires |t.te| == |t.sa| && 0 <= t.tX && |t.te| >= t.tY
  {
    match Queue(op, c, t)
    case Bad(p) => Bad(p)
    case Finished(q) => Finished(q)
    case More(q, _) => Move(falls, c, q)
  }

  // ----- Marks: what is recorded is reachable, and processed offsets are closed -----

  ghost predicate Pending(t: Tables, o: int)
    requires |t.te| >= t.tY && 0 <= t.tX
  {
    exists k :: t.tX <= k < t.tY && t.te[k] == o
  }

  /** Everything recorded is reachable and is processed, about to be, or queued; `done` offsets only lead to
      recorded nodes. */
  ghost predicate Marks(code: seq<Op>, infos: seq<Info>, done: set<int>, t: Tables) {
    && Shape(code, t)
    && (forall o :: 0 <= o < |code| && t.sa[o].Some? ==> Reach(code, infos, Node(o, t.sa[o].value)))
    && (forall o :: 0 <= o < |code| && t.sa[o].Some? ==> o in done || o == t.off || Pending(t, o))
    && (forall o :: o in done ==> 0 <= o < |code| && Closed(code, infos, t.sa, o))
  }

  /** When the loop ends, every recorded offset has been processed. */
  ghost predicate AllDone(code: seq<Op>, infos: seq<Info>, done: set<int>, sa: seq<Option<int>>) {
    && |sa| == |code| > 0 && sa[0] == Some(0)
    && (forall o :: 0 <= o < |code| && sa[o].Some? ==> Reach(code, infos, Node(o, sa[o].value)))
    && (forall o :: 0 <= o < |code| && sa[o].Some? ==> o in done)
    && (forall o :: o in done ==> 0 <= o < |code| && Closed(code, infos, sa, o))
  }

  ghost predicate Grown(sa: seq<Option<int>>, later: seq<Option<int>>) {
    |later| == |sa| && forall o :: 0 <= o < |sa| && sa[o].Some? ==> later[o] == sa[o]
  }

  lemma ClosedGrown(code: seq<Op>, infos: seq<Info>, sa: seq<Option<int>>, later: seq<Option<int>>, o: int)
    requires |sa| == |code| && 0 <= o < |code| && Closed(code, infos, sa, o) && Grown(sa, later)
    ensures Closed(code, infos, later, o)
  {
    forall b | Edge(code, infos, Node(o, later[o].value), b)
      ensures InTable(later, b)
    {
      assert InTable(sa, b);
    }
  }

  /** The weaker state between the two halves of a turn: the current offset need not be closed yet. */
  ghost predicate Recorded(code: seq<Op>, infos: seq<Info>, done: set<int>, t: Tables) {
    && |t.sa| == |t.te| == |code| > 0 && 0 <= t.tX <= t.tY <= |code| && t.sa[0] == Some(0)
    && (forall k :: t.tX <= k < t.tY ==> 0 <= t.te[k] < |code| && t.sa[t.te[k]].Some?)
    && (forall o :: 0 <= o < |code| && t.sa[o].Some? ==> Reach(code, infos, Node(o, t.sa[o].value)))
    && (forall o :: 0 <= o < |code| && t.sa[o].Some? ==> o in done || Pending(t, o))
  }

  /** Recording a successor of a reachable node keeps every recorded node reachable. */
  lemma RecordReach(code: seq<Op>, infos: seq<Info>, sa: seq<Option<int>>, a: Node, b: Node)
    requires |sa| == |code| && forall o :: 0 <= o < |code| && sa[o].Some? ==> Reach(code, infos, Node(o, sa[o].value))
    requires Reach(code, infos, a) && Edge(code, infos, a, b) && 0 <= b.off < |code| && !Merge(sa, b.off, b.h).Wrong?
    ensures var later := Marked(sa, b.off, b.h);
            Grown(sa, later)
            && forall o :: 0 <= o < |code| && later[o].Some? ==> Reach(code, infos, Node(o, later[o].value))
  {
    hide Reach;
    ReachStep(code, infos, a, b);
  }

  lemma PendingKept(t: Tables, q: Tables, o: int)
    requires 0 <= t.tX == q.tX && |t.te| == |q.te| && t.tY <= q.tY <= |q.te|
    requires forall k :: t.tX <= k < t.tY ==> q.te[k] == t.te[k]
    requires Pending(t, o)
    ensures Pending(q, o)
  {
    var k :| t.tX <= k < t.tY && t.te[k] == o;
    assert q.te[k] == o;
  }

  /** After the first half the jump target, if any, is recorded and queued. */
  lemma QueueStep(code: seq<Op>, infos: seq<Info>, done: set<int>, t: Tables, c: int)
    requires Marks(code, infos, done, t) && Settled(code[t.off], infos)
    requires c == t.sa[t.off].value + Delta(code[t.off], infos) && Queue(code[t.off], c, t).More?
    ensures var q := Queue(code[t.off], c, t).t;
            && Recorded(code, infos, done + {t.off}, q) && Grown(t.sa, q.sa) && q.off == t.off
            && (code[t.off].Jumps() ==>
                  code[t.off].disp.Some? && InTable(q.sa, Node(t.off + 1 + code[t.off].disp.value, c)))
  {
    hide Closed, Reach;
    var q := Queue(code[t.off], c, t).t;
    if code[t.off].Jumps() {
      var j := t.off + 1 + code[t.off].disp.value;
      RecordReach(code, infos, t.sa, Node(t.off, t.sa[t.off].value), Node(j, c));
      hide Pending;
      forall o | 0 <= o < |code| && q.sa[o].Some? && o !in done + {t.off}
        ensures Pending(q, o)
      {
        if o == j { QueuedLast(t, q, j); } else { PendingKept(t, q, o); }
      }
    }
  }

  lemma QueuedLast(t: Tables, q: Tables, j: int)
    requires 0 <= t.tX == q.tX <= t.tY < |t.te| && q.te == t.te[t.tY := j] && q.tY == t.tY + 1
    ensures Pending(q, j)
  {
    assert q.te[t.tY] == j;
  }

  /** After the second half the next opcode, if execution may fall through to it, is recorded. */
  lemma MoveStep(code: seq<Op>, infos: seq<Info>, done: set<int>, q: Tables, falls: bool, c: int, h: int)
    requires Recorded(code, infos, done, q) && 0 <= q.off < |code| && q.sa[q.off] == Some(h)
    requires falls ==> Edge(code, infos, Node(q.off, h), Node(q.off + 1, c))
    requires !Move(falls, c, q).Bad?
    ensures var n := Move(falls, c, q).t;
            && Grown(q.sa, n.sa) && (falls ==> InTable(n.sa, Node(q.off + 1, c))) && n.sa[0] == Some(0)
            && |n.sa| == |n.te| == |code|
            && (forall o :: 0 <= o < |code| && n.sa[o].Some? ==> Reach(code, infos, Node(o, n.sa[o].value)))
            && (Move(falls, c, q).More? ==> Shape(code, n))
            && (forall o :: 0 <= o < |code| && n.sa[o].Some? ==>
                  o in done || (Move(falls, c, q).More? && (o == n.off || Pending(n, o))))
  {
    hide Reach;
    var turn := Move(falls, c, q);
    if turn.More? && turn.entered {
      RecordReach(code, infos, q.sa, Node(q.off, h), Node(q.off + 1, c));
      forall o | Pending(q, o)
        ensures Pending(turn.t, o)
      {
        PendingKept(q, turn.t, o);
      }
    } else {
      forall o | Pending(q, o)
        ensures turn.More? && (o == turn.t.off || Pending(turn.t, o))
      {
        var k :| q.tX <= k < q.tY && q.te[k] == o;
        if k > q.tX { assert turn.t.te[k] == o; }
      }
    }
  }

  ghost predicate AllClosed(code: seq<Op>, infos: seq<Info>, done: set<int>, sa: seq<Option<int>>) {
    |sa| == |code| && forall o :: o in done ==> 0 <= o < |code| && Closed(code, infos, sa, o)
  }

  lemma AdvanceParts(op: Op, falls: bool, c: int, t: Tables)
    requires |t.te| == |t.sa| && 0 <= t.tX && |t.te| >= t.tY
    ensures !Advance(op, falls, c, t).Bad? ==>
              Queue(op, c, t).More? && Advance(op, falls, c, t) == Move(falls, c, Queue(op, c, t).t)
  {
  }

  lemma FallEdge(code: seq<Op>, infos: seq<Info>, o: int, h: int, c: int)
    requires 0 <= o < |code| && Settled(code[o], infos) && c == h + Delta(code[o], infos)
    ensures Falls(code[o], infos) ==> Edge(code, infos, Node(o, h), Node(o + 1, c))
  {
  }

  lemma GrownTwice(a: seq<Option<int>>, b: seq<Option<int>>, c: seq<Option<int>>)
    requires Grown(a, b) && Grown(b, c)
    ensures Grown(a, c)
  {
  }

  lemma MarksFacts(code: seq<Op>, infos: seq<Info>, done: set<int>, t: Tables)
    requires Marks(code, infos, done, t)
    ensures Shape(code, t) && AllClosed(code, infos, done, t.sa)
    ensures |t.sa| == |t.te| == |code| && 0 <= t.tX <= t.tY <= |code| && 0 <= t.off < |code| && t.sa[t.off].Some?
  {
  }

  lemma InTableGrown(sa: seq<Option<int>>, later: seq<Option<int>>, n: Node)
    requires InTable(sa, n) && Grown(sa, later)
    ensures InTable(later, n)
  {
  }

  /** What a turn that goes on or ends leaves recorded: reachable heights, each processed, current or queued. */
  ghost predicate Landed(code: seq<Op>, infos: seq<Info>, done: set<int>, turn: Turn) {
    && !turn.Bad? && |turn.t.sa| == |turn.t.te| == |code| > 0 && turn.t.sa[0] == Some(0)
    && (turn.More? ==> Shape(code, turn.t))
    && (forall o :: 0 <= o < |code| && turn.t.sa[o].Some? ==> Reach(code, infos, Node(o, turn.t.sa[o].value)))
    && (forall o :: 0 <= o < |code| && turn.t.sa[o].Some? ==>
          o in done || (turn.More? && (o == turn.t.off || Pending(turn.t, o))))
  }

  lemma TurnRecords(code: seq<Op>, infos: seq<Info>, done: set<int>, t: Tables, c: int)
    requires Marks(code, infos, done, t) && Settled(code[t.off], infos)
    requires c == t.sa[t.off].value + Delta(code[t.off], infos)
    requires !Advance(code[t.off], Falls(code[t.off], infos), c, t).Bad?
    ensures var op, turn := code[t.off], Advance(code[t.off], Falls(code[t.off], infos), c, t);
            && Landed(code, infos, done + {t.off}, turn) && Grown(t.sa, turn.t.sa)
            && (op.Jumps() ==> op.disp.Some? && InTable(turn.t.sa, Node(t.off + 1 + op.disp.value, c)))
            && (Falls(op, infos) ==> InTable(turn.t.sa, Node(t.off + 1, c)))
  {
    hide Reach, Pending, Closed, Advance, Queue, Move, Marks, Falls, Delta, Edge, Settled, Grown, InTable, Recorded;
    MarksFacts(code, infos, done, t);
    var op, h := code[t.off], t.sa[t.off].value;
    AdvanceParts(op, Falls(op, infos), c, t);
    var turn, q := Advance(op, Falls(op, infos), c, t), Queue(op, c, t).t;
    QueueStep(code, infos, done, t, c);
    RecordedAt(code, infos, done + {t.off}, t, q);
    FallEdge(code, infos, t.off, h, c);
    MoveStep(code, infos, done + {t.off}, q, Falls(op, infos), c, h);
    GrownTwice(t.sa, q.sa, turn.t.sa);
    if op.Jumps() {
      InTableGrown(q.sa, turn.t.sa, Node(t.off + 1 + op.disp.value, c));
    }
  }

  /** A turn that does not fail records exactly the targets of the edges of the current opcode. */
  lemma AdvanceCloses(code: seq<Op>, infos: seq<Info>, done: set<int>, t: Tables)
    requires Marks(code, infos, done, t) && Settled(code[t.off], infos)
    ensures var op := code[t.off];
            var turn := Advance(op, Falls(op, infos), t.sa[t.off].value + Delta(op, infos), t);
            && (turn.More? ==> Marks(code, infos, done + {t.off}, turn.t) && Grown(t.sa, turn.t.sa))
            && (turn.Finished? ==> AllDone(code, infos, done + {t.off}, turn.t.sa) && Grown(t.sa, turn.t.sa))
  {
    hide *;
    MarksFacts(code, infos, done, t);
    var op := code[t.off];
    var c := t.sa[t.off].value + Delta(op, infos);
    var turn := Advance(op, Falls(op, infos), c, t);
    if !turn.Bad? {
      TurnRecords(code, infos, done, t, c);
      LandedSize(code, infos, done + {t.off}, turn);
      ClosesAll(code, infos, done, t.sa, turn.t.sa, t.off, c);
      ClosesMarks(code, infos, done + {t.off}, turn);
    }
  }

  lemma LandedSize(code: seq<Op>, infos: seq<Info>, done: set<int>, turn: Turn)
    requires Landed(code, infos, done, turn)
    ensures |turn.t.sa| == |code|
  {
  }

  lemma RecordedAt(code: seq<Op>, infos: seq<Info>, done: set<int>, t: Tables, q: Tables)
    requires Shape(code, t) && Recorded(code, infos, done, q) && Grown(t.sa, q.sa) && q.off == t.off
    ensures |q.sa| == |q.te| == |code| && 0 <= q.tX <= q.tY <= |code| && q.sa[q.off] == t.sa[t.off]
  {
  }

  lemma ClosesMarks(code: seq<Op>, infos: seq<Info>, done: set<int>, turn: Turn)
    requires Landed(code, infos, done, turn) && AllClosed(code, infos, done, turn.t.sa)
    ensures turn.More? ==> Marks(code, infos, done, turn.t)
    ensures turn.Finished? ==> AllDone(code, infos, done, turn.t.sa)
  {
    hide Reach, Pending, Closed;
  }

  lemma ClosesAll(code: seq<Op>, infos: seq<Info>, done: set<int>, sa: seq<Option<int>>, later: seq<Option<int>>,
                  o: int, c: int)
    requires |sa| == |code| && 0 <= o < |code| && sa[o].Some? && Grown(sa, later)
    requires AllClosed(code, infos, done, sa)
    requires Settled(code[o], infos) && c == sa[o].value + Delta(code[o], infos)
    requires code[o].Jumps() ==> code[o].disp.Some? && InTable(later, Node(o + 1 + code[o].disp.value, c))
    requires Falls(code[o], infos) ==> InTable(later, Node(o + 1, c))
    ensures AllClosed(code, infos, done + {o}, later)
  {
    ClosesHere(code, infos, sa, later, o, c);
    assert |later| == |code|;
    hide Closed, Settled, Delta, Falls, InTable, Grown;
    forall d | d in done
      ensures 0 <= d < |code| && Closed(code, infos, later, d)
    {
      ClosedGrown(code, infos, sa, later, d);
    }
  }

  lemma ClosesHere(code: seq<Op>, infos: seq<Info>, sa: seq<Option<int>>, later: seq<Option<int>>, o: int, c: int)
    requires |sa| == |code| && 0 <= o < |code| && sa[o].Some? && Grown(sa, later)
    requires Settled(code[o], infos) && c == sa[o].value + Delta(code[o], infos)
    requires code[o].Jumps() ==> code[o].disp.Some? && InTable(later, Node(o + 1 + code[o].disp.value, c))
    requires Falls(code[o], infos) ==> InTable(later, Node(o + 1, c))
    ensures Closed(code, infos, later, o)
  {
  }

  /** At the end the table holds exactly the reachable nodes. */
  lemma TableIsReach(code: seq<Op>, infos: seq<Info>, done: set<int>, sa: seq<Option<int>>, n: Node)
    requires AllDone(code, infos, done, sa)
    ensures Reach(code, infos, n) <==> InTable(sa, n)
  {
    if Reach(code, infos, n) {
      var p :| Path(code, infos, p) && p[|p| - 1] == n;
      PathInTable(code, infos, sa, p);
    }
  }

  // ----- Accounting: maxDepth, exitSA, mds and mrs over the processed offsets -----

  /** What the loop adds to its four counters for an opcode at height `h`. */
  function Account(op: Op, infos: seq<Info>, s: Summary, h: int): Summary
    requires Settled(op, infos)
  {
    Summary(Min(s.depth, Touch(op, infos, h)),
            if op.Ret? then Some(h) else s.exit,
            if op.Ret? then s.mds else Max(s.mds, Charge(op, infos, h)),
            if op.Call? then Max(s.mrs, infos[op.target].maxReturnStack) else s.mrs)
  }

  function At(sa: seq<Option<int>>, o: int): Node
    requires 0 <= o < |sa| && sa[o].Some?
  {
    Node(o, sa[o].value)
  }

  ghost predicate Recording(sa: seq<Option<int>>, done: set<int>) {
    forall o :: o in done ==> 0 <= o < |sa| && sa[o].Some?
  }

  ghost predicate Accounts(code: seq<Op>, infos: seq<Info>, done: set<int>, sa: seq<Option<int>>, s: Summary) {
    && |sa| == |code| && Recording(sa, done)
    && (forall o :: o in done ==> Covers(code, infos, s, At(sa, o)))
    && s.depth <= 0 && (s.depth == 0 || exists o :: o in done && DepthAt(code, infos, s, At(sa, o)))
    && s.mds >= 0 && (s.mds == 0 || exists o :: o in done && ChargeAt(code, infos, s, At(sa, o)))
    && s.mrs >= 0 && (s.mrs == 0 || exists o :: o in done && FrameAt(code, infos, s, At(sa, o)))
    && (s.exit.Some? ==> exists o :: o in done && ExitAt(code, s, At(sa, o)))
  }

  /** One more opcode: all processed offsets stay covered, and each counter is still attained. */
  lemma AccountStep(code: seq<Op>, infos: seq<Info>, done: set<int>, sa: seq<Option<int>>, s: Summary, o: int)
    requires Accounts(code, infos, done, sa, s) && 0 <= o < |code| && sa[o].Some? && Settled(code[o], infos)
    requires code[o].Call? ==> infos[code[o].target].flow == 1
    requires code[o].Ret? ==> s.exit in {None, Some(sa[o].value)}
    ensures Accounts(code, infos, done + {o}, sa, Account(code[o], infos, s, sa[o].value))
  {
    var t := Account(code[o], infos, s, sa[o].value);
    var more := done + {o};
    forall k | k in more
      ensures Covers(code, infos, t, At(sa, k))
    {
      if k in done { assert Covers(code, infos, s, At(sa, k)); }
    }
    AttainedStep(code, infos, done, sa, s, o);
  }

  lemma AttainedStep(code: seq<Op>, infos: seq<Info>, done: set<int>, sa: seq<Option<int>>, s: Summary, o: int)
    requires Accounts(code, infos, done, sa, s) && 0 <= o < |code| && sa[o].Some? && Settled(code[o], infos)
    requires code[o].Ret? ==> s.exit in {None, Some(sa[o].value)}
    ensures var t, more := Account(code[o], infos, s, sa[o].value), done + {o};
            && (t.depth == 0 || exists k :: k in more && DepthAt(code, infos, t, At(sa, k)))
            && (t.mds == 0 || exists k :: k in more && ChargeAt(code, infos, t, At(sa, k)))
            && (t.mrs == 0 || exists k :: k in more && FrameAt(code, infos, t, At(sa, k)))
            && (t.exit.Some? ==> exists k :: k in more && ExitAt(code, t, At(sa, k)))
  {
    var t, more := Account(code[o], infos, s, sa[o].value), done + {o};
    assert o in more;
    if t.depth == s.depth != 0 {
      var k :| k in done && DepthAt(code, infos, s, At(sa, k));
      assert k in more && DepthAt(code, infos, t, At(sa, k));
    } else if t.depth != 0 {
      assert DepthAt(code, infos, t, At(sa, o));
    }
    if t.mds == s.mds != 0 {
      var k :| k in done && ChargeAt(code, infos, s, At(sa, k));
      assert k in more && ChargeAt(code, infos, t, At(sa, k));
    } else if t.mds != 0 {
      assert ChargeAt(code, infos, t, At(sa, o));
    }
    if t.mrs == s.mrs != 0 {
      var k :| k in done && FrameAt(code, infos, s, At(sa, k));
      assert k in more && FrameAt(code, infos, t, At(sa, k));
    } else if t.mrs != 0 {
      assert FrameAt(code, infos, t, At(sa, o));
    }
    if code[o].Ret? {
      assert ExitAt(code, t, At(sa, o));
    } else if t.exit.Some? {
      var k :| k in done && ExitAt(code, s, At(sa, k));
      assert k in more && ExitAt(code, t, At(sa, k));
    }
  }

  lemma AccountsGrown(code: seq<Op>, infos: seq<Info>, done: set<int>, sa: seq<Option<int>>, later: seq<Option<int>>,
                      s: Summary)
    requires Accounts(code, infos, done, sa, s) && Grown(sa, later)
    ensures Accounts(code, infos, done, later, s)
  {
    forall o | o in done
      ensures 0 <= o < |later| && later[o].Some? && At(later, o) == At(sa, o)
    {
    }
  }

  /** When the loop ends its counters are the exact summary of the word. */
  lemma LoopSummary(code: seq<Op>, infos: seq<Info>, done: set<int>, sa: seq<Option<int>>, s: Summary)
    requires AllDone(code, infos, done, sa) && Accounts(code, infos, done, sa, s)
    ensures IsSummary(code, infos, s)
  {
    hide Reach, Covers, DepthAt, ChargeAt, FrameAt, ExitAt;
    forall n
      ensures Reach(code, infos, n) <==> InTable(sa, n)
    {
      TableIsReach(code, infos, done, sa, n);
    }
    forall n | Reach(code, infos, n)
      ensures n.off in done && n == At(sa, n.off)
    {
      assert InTable(sa, n);
    }
    forall o | o in done
      ensures Reach(code, infos, At(sa, o))
    {
      assert Closed(code, infos, sa, o);
      assert InTable(sa, At(sa, o));
    }
  }

  // ----- Later analyses of called words do not disturb the tables -----

  lemma MarksStable(code: seq<Op>, infos: seq<Info>, later: seq<Info>, done: set<int>, t: Tables)
    requires Marks(code, infos, done, t) && Extends(infos, later)
    ensures Marks(code, later, done, t)
  {
    hide Reach, Pending;
    forall o | 0 <= o < |code| && t.sa[o].Some?
      ensures Reach(code, later, Node(o, t.sa[o].value))
    {
      ReachStable(code, infos, later, Node(o, t.sa[o].value));
    }
    forall o | o in done
      ensures Closed(code, later, t.sa, o)
    {
      ClosedStable(code, infos, later, t.sa, o);
    }
  }

  lemma ClosedStable(code: seq<Op>, infos: seq<Info>, later: seq<Info>, sa: seq<Option<int>>, o: int)
    requires |sa| == |code| && 0 <= o < |code| && Closed(code, infos, sa, o) && Extends(infos, later)
    ensures Closed(code, later, sa, o)
  {
    forall b | Edge(code, later, Node(o, sa[o].value), b)
      ensures InTable(sa, b)
    {
      EdgeStable(code, infos, later, Node(o, sa[o].value), b);
    }
  }

  lemma AccountsStable(code: seq<Op>, infos: seq<Info>, later: seq<Info>, done: set<int>, sa: seq<Option<int>>,
                       s: Summary)
    requires Accounts(code, infos, done, sa, s) && Extends(infos, later)
    ensures Accounts(code, later, done, sa, s)
  {
    forall o | o in done
      ensures Covers(code, later, s, At(sa, o))
      ensures DepthAt(code, infos, s, At(sa, o)) ==> DepthAt(code, later, s, At(sa, o))
      ensures ChargeAt(code, infos, s, At(sa, o)) ==> ChargeAt(code, later, s, At(sa, o))
      ensures FrameAt(code, infos, s, At(sa, o)) ==> FrameAt(code, later, s, At(sa, o))
    {
      assert Covers(code, infos, s, At(sa, o));
    }
  }

  // ----- Queue load: how many jumps the loop queues -----

  predicate JumpsFrom(code: seq<Op>, o: int) {
    0 <= o < |code| && code[o].Jumps() && code[o].disp.Some?
  }

  function Target(code: seq<Op>, o: int): int
    requires JumpsFrom(code, o)
  {
    o + 1 + code[o].disp.value
  }

  /** Length of the chain of jumps to jumps that starts at `o`, cut at `fuel`. */
  function Chain(code: seq<Op>, o: int, fuel: nat): (n: nat)
    ensures n <= fuel
    decreases fuel
  {
    if fuel == 0 || !JumpsFrom(code, o) then 0 else 1 + Chain(code, Target(code, o), fuel - 1)
  }

  /** Queue entries that processing the opcode at `o` leads to. */
  function Weight(code: seq<Op>, o: int): nat { Chain(code, o, |code| + 1) }

  function LoadUpTo(code: seq<Op>, started: set<int>, n: nat): nat {
    if n == 0 then 0 else LoadUpTo(code, started, n - 1) + if n - 1 in started then Weight(code, n - 1) else 0
  }

  function TotalUpTo(code: seq<Op>, n: nat): nat {
    if n == 0 then 0 else TotalUpTo(code, n - 1) + Weight(code, n - 1)
  }

  /** Sum of the chain lengths of all the opcodes of a word. */
  function JumpLoad(code: seq<Op>): nat { TotalUpTo(code, |code|) }

  lemma {:induction false} LoadBounds(code: seq<Op>, started: set<int>, n: nat)
    ensures LoadUpTo(code, started, n) <= TotalUpTo(code, n)
    ensures forall o :: 0 <= o < n ==> Weight(code, o) <= TotalUpTo(code, n)
    decreases n
  {
    if n > 0 {
      LoadBounds(code, started, n - 1);
    }
  }

  lemma {:induction false} LoadAdd(code: seq<Op>, started: set<int>, o: int, n: nat)
    requires o !in started && 0 <= o
    ensures LoadUpTo(code, started + {o}, n) == LoadUpTo(code, started, n) + if o < n then Weight(code, o) else 0
    decreases n
  {
    if n > 0 {
      LoadAdd(code, started, o, n - 1);
    }
  }

  lemma {:induction false} ChainStable(code: seq<Op>, o: int, fuel: nat)
    requires Chain(code, o, fuel) < fuel
    ensures Chain(code, o, fuel + 1) == Chain(code, o, fuel)
    decreases fuel
  {
    if JumpsFrom(code, o) {
      ChainStable(code, Target(code, o), fuel - 1);
    }
  }

  /** A jump weighs one more than its target, unless the chain is longer than the word. */
  lemma WeightStep(code: seq<Op>, o: int)
    requires JumpsFrom(code, o) && Weight(code, o) <= |code|
    ensures Weight(code, o) == 1 + Weight(code, Target(code, o))
  {
    ChainStable(code, Target(code, o), |code|);
  }

  function PendingLoad(code: seq<Op>, te: seq<int>, a: int, b: int): nat
    requires 0 <= a <= b <= |te|
    decreases b - a
  {
    if a == b then 0 else PendingLoad(code, te, a, b - 1) + Weight(code, te[b - 1])
  }

  lemma {:induction false} PendingHead(code: seq<Op>, te: seq<int>, a: int, b: int)
    requires 0 <= a < b <= |te|
    ensures PendingLoad(code, te, a, b) == Weight(code, te[a]) + PendingLoad(code, te, a + 1, b)
    decreases b - a
  {
    if a + 1 < b {
      PendingHead(code, te, a, b - 1);
    }
  }

  lemma {:induction false} PendingSame(code: seq<Op>, te: seq<int>, ue: seq<int>, a: int, b: int)
    requires 0 <= a <= b <= |te| == |ue| && forall k :: a <= k < b ==> te[k] == ue[k]
    ensures PendingLoad(code, te, a, b) == PendingLoad(code, ue, a, b)
    decreases b - a
  {
    if a < b {
      PendingSame(code, te, ue, a, b - 1);
    }
  }

  /** Exact accounting of the queue: entries used so far, plus those still to come from what is queued or current,
      are the chains of the opcodes entered by falling through (each of which is entered once). */
  ghost predicate Budget(code: seq<Op>, started: set<int>, t: Tables) {
    && Shape(code, t)
    && (forall o :: o in started ==> 0 <= o < |code| && t.sa[o].Some?)
    && t.tY + PendingLoad(code, t.te, t.tX, t.tY) + Weight(code, t.off) == LoadUpTo(code, started, |code|)
  }

  /** First half of a turn: the target of a jump takes over one less than the weight of the jump. */
  lemma BudgetQueue(code: seq<Op>, c: int, started: set<int>, t: Tables)
    requires Budget(code, started, t) && JumpLoad(code) <= |code|
    requires code[t.off].Jumps() ==> code[t.off].disp.Some?
    ensures Queue(code[t.off], c, t) != Bad(Overflow)
    ensures Queue(code[t.off], c, t).More? ==>
              var q := Queue(code[t.off], c, t).t;
              q.tY + PendingLoad(code, q.te, q.tX, q.tY) == LoadUpTo(code, started, |code|)
  {
    LoadBounds(code, started, |code|);
    hide Chain, TotalUpTo, LoadUpTo;
    if code[t.off].Jumps() {
      assert Weight(code, t.off) <= |code|;
      WeightStep(code, t.off);
      if t.tY < |code| {
        var te := t.te[t.tY := Target(code, t.off)];
        PendingSame(code, t.te, te, t.tX, t.tY);
      }
    }
  }

  /** Second half: the weight of the next current opcode comes from the queue, or from entering it for the first
      time. */
  lemma BudgetMove(code: seq<Op>, falls: bool, c: int, started: set<int>, q: Tables)
    requires |q.sa| == |q.te| == |code| && 0 <= q.tX <= q.tY <= |code| && 0 <= q.off
    requires forall o :: o in started ==> 0 <= o < |code| && q.sa[o].Some?
    requires q.tY + PendingLoad(code, q.te, q.tX, q.tY) == LoadUpTo(code, started, |code|)
    ensures Move(falls, c, q) != Bad(Overflow)
    ensures Move(falls, c, q).More? && Shape(code, Move(falls, c, q).t) ==>
              Budget(code, if Move(falls, c, q).entered then started + {q.off + 1} else started, Move(falls, c, q).t)
  {
    hide Weight, LoadUpTo, PendingLoad;
    var turn := Move(falls, c, q);
    if turn.More? {
      if turn.entered {
        LoadAdd(code, started, q.off + 1, |code|);
      } else {
        PendingHead(code, q.te, q.tX, q.tY);
      }
    }
  }

  /** With a load of at most one queue entry per opcode, a turn never overflows the queue. */
  lemma BudgetStep(code: seq<Op>, falls: bool, c: int, started: set<int>, t: Tables)
    requires Budget(code, started, t) && JumpLoad(code) <= |code|
    requires code[t.off].Jumps() ==> code[t.off].disp.Some?
    ensures Advance(code[t.off], falls, c, t) != Bad(Overflow)
    ensures Advance(code[t.off], falls, c, t).More? && Shape(code, Advance(code[t.off], falls, c, t).t) ==>
              Budget(code, if Advance(code[t.off], falls, c, t).entered then started + {t.off + 1} else started,
                     Advance(code[t.off], falls, c, t).t)
  {
    hide Weight, LoadUpTo, PendingLoad, Budget;
    BudgetShape(code, started, t);
    BudgetQueue(code, c, started, t);
    if Queue(code[t.off], c, t).More? {
      BudgetMove(code, falls, c, started, Queue(code[t.off], c, t).t);
    }
  }

  lemma BudgetShape(code: seq<Op>, started: set<int>, t: Tables)
    requires Budget(code, started, t)
    ensures Shape(code, t) && forall o :: o in started ==> 0 <= o < |code| && t.sa[o].Some?
  {
  }

  // ----- Jumps end: every processed jump is followed by a later processing of its target -----

  /** `last` gives the turn at which each offset was last processed; the target of a processed jump is processed
      after it, or still queued, or current. */
  ghost predicate Ordered(code: seq<Op>, done: set<int>, last: seq<int>, now: int, t: Tables) {
    && Shape(code, t) && |last| == |code|
    && (forall o :: 0 <= o < |code| ==> last[o] < now)
    && (forall o :: o in done && JumpsFrom(code, o) ==>
          0 <= Target(code, o) < |code|
          && (last[Target(code, o)] > last[o] || Target(code, o) == t.off || Pending(t, Target(code, o))))
  }

  /** A ranking of offsets that every processed jump increases. */
  ghost predicate Ranked(code: seq<Op>, done: set<int>, last: seq<int>) {
    |last| == |code| &&
    forall o :: o in done && JumpsFrom(code, o) ==>
      0 <= Target(code, o) < |code| && last[Target(code, o)] > last[o]
  }

  lemma OrderedStep(code: seq<Op>, falls: bool, c: int, done: set<int>, last: seq<int>, now: int, t: Tables)
    requires Ordered(code, done, last, now, t)
    ensures var turn := Advance(code[t.off], falls, c, t);
            match turn
            case Bad(_) => true
            case More(n, _) => Shape(code, n) ==> Ordered(code, done + {t.off}, last[t.off := now], now + 1, n)
            case Finished(_) => Ranked(code, done + {t.off}, last[t.off := now])
  {
    var turn := Advance(code[t.off], falls, c, t);
    if !turn.Bad? {
      var q := Queue(code[t.off], c, t).t;
      var after := last[t.off := now];
      forall o | o in done + {t.off} && JumpsFrom(code, o)
        ensures 0 <= Target(code, o) < |code|
        ensures after[Target(code, o)] > after[o] || Pending(q, Target(code, o))
      {
        QueuedTarget(code, c, done, last, now, t, o);
      }
      forall j | Pending(q, j)
        ensures turn.More? && (j == turn.t.off || Pending(turn.t, j))
      {
        MovePending(falls, c, q, j);
      }
    }
  }

  lemma QueuedTarget(code: seq<Op>, c: int, done: set<int>, last: seq<int>, now: int, t: Tables, o: int)
    requires Ordered(code, done, last, now, t) && Queue(code[t.off], c, t).More?
    requires o in done + {t.off} && JumpsFrom(code, o)
    ensures 0 <= Target(code, o) < |code|
    ensures last[t.off := now][Target(code, o)] > last[t.off := now][o]
            || Pending(Queue(code[t.off], c, t).t, Target(code, o))
  {
    var q := Queue(code[t.off], c, t).t;
    if o == t.off {
      QueuedLast(t, q, Target(code, o));
    } else if Pending(t, Target(code, o)) {
      PendingKept(t, q, Target(code, o));
    }
  }

  lemma MovePending(falls: bool, c: int, q: Tables, j: int)
    requires 0 <= q.tX <= q.tY <= |q.te| && Pending(q, j) && !Move(falls, c, q).Bad?
    ensures Move(falls, c, q).More?
    ensures |Move(falls, c, q).t.te| >= Move(falls, c, q).t.tY && 0 <= Move(falls, c, q).t.tX
    ensures j == Move(falls, c, q).t.off || Pending(Move(falls, c, q).t, j)
  {
    var turn := Move(falls, c, q);
    var k :| q.tX <= k < q.tY && q.te[k] == j;
    if turn.entered {
      PendingKept(q, turn.t, j);
    } else if k > q.tX {
      assert turn.t.te[k] == j;
    }
  }

  // ----- Progress -----

  /** Offsets with no recorded height. */
  function Unmarked(sa: seq<Option<int>>, n: nat): nat
    requires n <= |sa|
  {
    if n == 0 then 0 else Unmarked(sa, n - 1) + if sa[n - 1].None? then 1 else 0
  }

  lemma {:induction false} UnmarkedDrop(sa: seq<Option<int>>, later: seq<Option<int>>, o: int, n: nat)
    requires Grown(sa, later) && n <= |sa| && 0 <= o < |sa| && sa[o].None? && later[o].Some?
    ensures Unmarked(later, n) <= Unmarked(sa, n) - if o < n then 1 else 0
    decreases n
  {
    if n > 0 {
      UnmarkedDrop(sa, later, o, n - 1);
    }
  }

  /** Every turn that goes on uses a queue entry, or records an offset, or takes an entry off the queue. */
  lemma TurnProgress(code: seq<Op>, falls: bool, c: int, t: Tables)
    requires Shape(code, t) && Advance(code[t.off], falls, c, t).More?
    ensures var n := Advance(code[t.off], falls, c, t).t;
            && |n.sa| == |code| && n.tY <= |code|
            && (n.tY > t.tY || (n.tY == t.tY && (Unmarked(n.sa, |code|) < Unmarked(t.sa, |code|)
                                                || (n.sa == t.sa && n.tX > t.tX))))
  {
    var turn := Advance(code[t.off], falls, c, t);
    if !code[t.off].Jumps() && turn.entered {
      UnmarkedDrop(t.sa, turn.t.sa, t.off + 1, |code|);
    }
  }

  // ----- The loop as a function -----

  /** The tables before the first turn. */
  function FirstTables(n: nat): Tables
    requires n > 0
  {
    Tables(seq(n, _ => None)[0 := Some(0)], seq(n, _ => 0), 0, 0, 0)
  }

  /** Where the loop is after `k` turns, once the called words have the effects of `infos`. */
  ghost function Explored(code: seq<Op>, infos: seq<Info>, k: nat): Turn
    requires code != []
    decreases k
  {
    if k == 0 then More(FirstTables(|code|), false)
    else
      match Explored(code, infos, k - 1)
      case More(t, _) => NextTurn(code, infos, t)
      case other => other
  }

  ghost function NextTurn(code: seq<Op>, infos: seq<Info>, t: Tables): Turn {
    if Shape(code, t) && Settled(code[t.off], infos)
    then Advance(code[t.off], Falls(code[t.off], infos), t.sa[t.off].value + Delta(code[t.off], infos), t)
    else Bad(Range)
  }

  /** The loop gets to its end. */
  ghost predicate ExploresAll(code: seq<Op>, infos: seq<Info>) {
    code != [] && exists k: nat :: Explored(code, infos, k).Finished?
  }

  /** The loop meets a full queue. */
  ghost predicate QueueOverflows(code: seq<Op>, infos: seq<Info>) {
    code != [] && exists k: nat :: Explored(code, infos, k) == Bad(Overflow)
  }

  /** Once the loop has stopped, it stays as it is. */
  lemma {:induction false} ExploredStops(code: seq<Op>, infos: seq<Info>, k: nat, j: nat)
    requires code != [] && k <= j && !Explored(code, infos, k).More?
    ensures Explored(code, infos, j) == Explored(code, infos, k)
    decreases j
  {
    hide NextTurn;
    if k < j {
      ExploredStops(code, infos, k, j - 1);
    }
  }

  /** A loop that gets to its end meets no full queue. */
  lemma EndsOrOverflows(code: seq<Op>, infos: seq<Info>)
    ensures !(ExploresAll(code, infos) && QueueOverflows(code, infos))
  {
    if ExploresAll(code, infos) && QueueOverflows(code, infos) {
      hide Explored;
      var k: nat :| Explored(code, infos, k).Finished?;
      var j: nat :| Explored(code, infos, j) == Bad(Overflow);
      if k <= j { ExploredStops(code, infos, k, j); } else { ExploredStops(code, infos, j, k); }
    }
  }

  lemma NextTurnStable(code: seq<Op>, infos: seq<Info>, later: seq<Info>, t: Tables)
    requires Extends(infos, later) && !NextTurn(code, infos, t).Bad?
    ensures NextTurn(code, later, t) == NextTurn(code, infos, t)
  {
    hide Advance;
  }

  /** Analysing more words does not change the turns already taken. */
  lemma {:induction false} ExploredStable(code: seq<Op>, infos: seq<Info>, later: seq<Info>, k: nat)
    requires code != [] && Extends(infos, later) && !Explored(code, infos, k).Bad?
    ensures Explored(code, later, k) == Explored(code, infos, k)
    decreases k
  {
    hide NextTurn, Extends;
    if k > 0 {
      ExploredStable(code, infos, later, k - 1);
      if Explored(code, infos, k - 1).More? {
        NextTurnStable(code, infos, later, Explored(code, infos, k - 1).t);
      }
    }
  }

  lemma ExploresAllStable(code: seq<Op>, infos: seq<Info>, later: seq<Info>)
    requires ExploresAll(code, infos) && Extends(infos, later)
    ensures ExploresAll(code, later)
  {
    hide Explored, Extends;
    var k: nat :| Explored(code, infos, k).Finished?;
    ExploredStable(code, infos, later, k);
  }
}
