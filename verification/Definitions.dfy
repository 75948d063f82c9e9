/** What definitions mean: the opcodes that builder calls lead to, and what the CPU does with them. Words that push
    literals, choose a branch, loop, shuffle the stack through locals and call other words, for all literals, stacks,
    names and sizes. */
module Definitions {
  import opened Machine32
  import opened Code
  import opened SourceMachine
  import opened Builder

  // ----- Runs between two states -----

  /** Some run of the CPU leads from `s` to `t`. */
  ghost predicate Leads(ws: seq<Word>, m: Meaning, s: CState, t: CState) {
    exists run :: CRun(ws, m, run) && run[0] == s && run[|run| - 1] == t
  }

  /** Some run of the CPU, started in `s`, leaves the outermost word with the data stack `ds`. */
  ghost predicate Ends(ws: seq<Word>, m: Meaning, s: CState, ds: seq<u32>) {
    exists t :: Leads(ws, m, s, t) && CNext(ws, t) == CHalt(ds)
  }

  lemma LeadsSelf(ws: seq<Word>, m: Meaning, s: CState)
    ensures Leads(ws, m, s, s)
  {
    assert CRun(ws, m, [s]);
  }

  lemma LeadsOn(ws: seq<Word>, m: Meaning, s: CState, t: CState, u: CState)
    requires Leads(ws, m, s, t) && CNext(ws, t) == CGo(u)
    ensures Leads(ws, m, s, u)
  {
    hide CNext, CStep;
    var run :| CRun(ws, m, run) && run[0] == s && run[|run| - 1] == t;
    StepGoes(ws, m, t, u);
    RunExtend(ws, m, run, u);
    var longer := run + [u];
    assert longer[0] == s && longer[|longer| - 1] == u;
  }

  lemma StepGoes(ws: seq<Word>, m: Meaning, t: CState, u: CState)
    requires CNext(ws, t) == CGo(u)
    ensures CStep(ws, m, t, u)
  {
  }

  lemma LeadsEnds(ws: seq<Word>, m: Meaning, s: CState, t: CState, ds: seq<u32>)
    requires Leads(ws, m, s, t) && CNext(ws, t) == CHalt(ds)
    ensures Ends(ws, m, s, ds)
  {
  }

  // ----- Literals -----

  /** The builder calls for some literals. */
  ghost predicate Literals(cmds: seq<Cmd>, vs: seq<i32>) {
    |cmds| == |vs| && forall i :: 0 <= i < |vs| ==> cmds[i] == DoLiteral(vs[i])
  }

  /** The 32-bit patterns of some literals. */
  ghost predicate Patterns(vs: seq<i32>, ps: seq<u32>) {
    |ps| == |vs| && forall i :: 0 <= i < |vs| ==> (ps[i] - vs[i]) % 0x1_0000_0000 == 0
  }

  function Consts(vs: seq<i32>): (code: seq<Op>)
    ensures |code| == |vs|
  {
    seq(|vs|, i requires 0 <= i < |vs| => Const(vs[i]))
  }

  function NoNames(n: nat): seq<Option<string>> { seq(n, _ => None) }

  /** A builder state after some literals. */
  function Added(s: Snap, vs: seq<i32>): Snap {
    s.(code := s.code + Consts(vs), names := s.names + NoNames(|vs|), jumpToLast := s.jumpToLast && vs == [])
  }

  lemma {:induction false} LiteralsAdded(s: Snap, cmds: seq<Cmd>, vs: seq<i32>)
    requires InBuffer(s) && Literals(cmds, vs)
    ensures RunCmds(s, cmds) == Some(Added(s, vs)) && InBuffer(Added(s, vs))
    decreases |vs|
  {
    if vs == [] {
      assert Consts(vs) == [] && NoNames(0) == [];
      assert Added(s, vs) == s;
    } else {
      var k := |vs| - 1;
      LiteralsAdded(s, cmds[..k], vs[..k]);
      assert Consts(vs) == Consts(vs[..k]) + [Const(vs[k])] && NoNames(k + 1) == NoNames(k) + [None];
      assert Added(s, vs) == Emit(Added(s, vs[..k]), Const(vs[k]), None);
    }
  }

  /** A definition of literals builds their constants, in order, and a return. */
  lemma LiteralWord(cmds: seq<Cmd>, vs: seq<i32>)
    requires Literals(cmds, vs)
    ensures Builder.Word(cmds) == Some(Built(0, Consts(vs) + [Op.Ret], NoNames(|vs| + 1)))
  {
    LiteralsAdded(Empty(), cmds, vs);
    var t := Added(Empty(), vs);
    assert t.code == Consts(vs) && t.names == NoNames(|vs|);
    assert NoNames(|vs| + 1) == NoNames(|vs|) + [None];
  }

  /** The constants `vs` stand at offset `off` of word `w`. */
  ghost predicate ConstsAt(ws: seq<Word>, w: nat, off: nat, vs: seq<i32>) {
    w < |ws| && ws[w].Interpreted? && off + |vs| <= |ws[w].code| && ws[w].code[off..off + |vs|] == Consts(vs)
  }

  /** The CPU pushes constants in order. */
  lemma {:induction false} ConstsRun(ws: seq<Word>, m: Meaning, start: CState, s: CState, vs: seq<i32>, ps: seq<u32>)
    requires Leads(ws, m, start, s) && |s.frames| > 0 && ConstsAt(ws, s.w, s.off, vs) && Patterns(vs, ps)
    ensures Leads(ws, m, start, s.(off := s.off + |vs|, ds := s.ds + ps))
    decreases |vs|
  {
    hide Leads;
    if vs == [] {
      assert s.ds + ps == s.ds;
    } else {
      var k := |vs| - 1;
      assert ws[s.w].code[s.off..s.off + k] == ws[s.w].code[s.off..s.off + |vs|][..k];
      assert Consts(vs)[..k] == Consts(vs[..k]);
      ConstsRun(ws, m, start, s, vs[..k], ps[..k]);
      var t := s.(off := s.off + k, ds := s.ds + ps[..k]);
      assert ws[s.w].code[s.off + k] == Consts(vs)[k];
      PatternIs(vs[k], ps[k]);
      assert s.ds + ps[..k] + [ps[k]] == s.ds + ps;
      LeadsOn(ws, m, start, t, s.(off := s.off + |vs|, ds := s.ds + ps));
    }
  }

  lemma PatternIs(v: i32, p: u32)
    requires (p - v) % 0x1_0000_0000 == 0
    ensures p == U32(v)
  {
    U32Unique(v, p, (v - p) / 0x1_0000_0000);
  }

  /** Word `w` of the table is the one that the builder calls make. */
  ghost predicate Defines(ws: seq<Word>, w: nat, cmds: seq<Cmd>) {
    && w < |ws| && ws[w].Interpreted?
    && var r := Builder.Word(cmds);
       r.Some? && ws[w].numLocals == r.value.numLocals && ws[w].code == r.value.code
  }

  /** Running a definition of literals leaves them on the stack, each as its 32-bit pattern. */
  lemma LiteralsRun(ws: seq<Word>, m: Meaning, w: nat, cmds: seq<Cmd>, vs: seq<i32>, ps: seq<u32>, ds: seq<u32>)
    requires Literals(cmds, vs) && Patterns(vs, ps) && Defines(ws, w, cmds)
    ensures Ends(ws, m, CEntry(ws, w, ds), ds + ps)
  {
    hide Leads, Ends;
    LiteralWord(cmds, vs);
    var s := CEntry(ws, w, ds);
    LeadsSelf(ws, m, s);
    assert ws[w].code[..|vs|] == Consts(vs);
    ConstsRun(ws, m, s, s, vs, ps);
    LeadsEnds(ws, m, s, s.(off := |vs|, ds := ds + ps), ds + ps);
  }

  // ----- Branches -----

  lemma AheadFirst(kind: JumpKind)
    ensures var s := Emit(Push(Empty(), 0), Jump(kind, None), None);
            && RunCmds(Empty(), [DoAhead(kind)]) == Some(s) && InBuffer(s) && s.ptr == 0 && s.buf[0] == 0
            && s.code == [Jump(kind, None)] && s.names == NoNames(1) && s.locals == map[]
  {
    RunOne(Empty(), DoAhead(kind));
  }

  /** `then` at the end of a definition: the jump is resolved to the return that Build adds. */
  lemma ThenLast(s: Snap, x: nat, before: seq<Op>, kind: JumpKind, after: seq<Op>)
    requires InBuffer(s) && s.ptr == 0 && s.buf[0] == x == |before| && s.locals == map[]
    requires s.code == before + [Jump(kind, None)] + after && s.names == NoNames(|s.code|)
    ensures RunCmds(s, [DoThen]).Some?
    ensures var code := before + [Jump(kind, Some(|after|))] + after + [Op.Ret];
            Finish(RunCmds(s, [DoThen]).value) == Some(Built(0, code, NoNames(|code|)))
  {
    RunOne(s, DoThen);
    assert s.code[x] == Jump(kind, None);
    assert s.code[x := Jump(kind, Some(|after|))] == before + [Jump(kind, Some(|after|))] + after;
    assert NoNames(|s.code| + 1) == NoNames(|s.code|) + [None];
  }

  /** `ahead ... then` around literals builds one jump over their constants. */
  lemma SkipWord(kind: JumpKind, a: seq<Cmd>, vs: seq<i32>)
    requires Literals(a, vs)
    ensures var code := [Jump(kind, Some(|vs|))] + Consts(vs) + [Op.Ret];
            Builder.Word([DoAhead(kind)] + a + [DoThen]) == Some(Built(0, code, NoNames(|code|)))
  {
    hide RunCmds, Finish, PushBuf, Literals;
    var first := [DoAhead(kind)];
    AheadFirst(kind);
    var s := RunCmds(Empty(), first).value;
    RunConcat(Empty(), first, a);
    LiteralsAdded(s, a, vs);
    var t := Added(s, vs);
    RunConcat(Empty(), first + a, [DoThen]);
    assert NoNames(1) + NoNames(|vs|) == NoNames(1 + |vs|);
    assert t.code == [] + [Jump(kind, None)] + Consts(vs);
    ThenLast(t, 0, [], kind, Consts(vs));
    assert [] + [Jump(kind, Some(|vs|))] == [Jump(kind, Some(|vs|))];
  }

  /** Whether a jump of this kind is taken, given the flag it pops. */
  predicate Taken(kind: JumpKind, flag: u32) {
    match kind case Always => true case IfTrue => flag != 0 case IfFalse => flag == 0
  }

  /** A forward jump skips the literals exactly when the popped flag is nonzero (AheadIf), zero (AheadIfNot), or
      always and without popping anything (Ahead). */
  lemma SkipRun(ws: seq<Word>, m: Meaning, w: nat, kind: JumpKind, a: seq<Cmd>, vs: seq<i32>, ps: seq<u32>,
                ds: seq<u32>, flag: u32)
    requires Literals(a, vs) && Patterns(vs, ps) && Defines(ws, w, [DoAhead(kind)] + a + [DoThen])
    ensures kind == Always ==> Ends(ws, m, CEntry(ws, w, ds), ds)
    ensures kind == IfTrue ==> Ends(ws, m, CEntry(ws, w, ds + [flag]), if flag != 0 then ds else ds + ps)
    ensures kind == IfFalse ==> Ends(ws, m, CEntry(ws, w, ds + [flag]), if flag == 0 then ds else ds + ps)
  {
    hide Leads, Ends, Literals, Consts, Patterns, RunCmds;
    SkipWord(kind, a, vs);
    var start := if kind == Always then CEntry(ws, w, ds) else CEntry(ws, w, ds + [flag]);
    LeadsSelf(ws, m, start);
    var n := |vs|;
    assert ws[w].code == [Jump(kind, Some(n))] + Consts(vs) + [Op.Ret];
    assert ws[w].code[1..1 + n] == Consts(vs);
    assert (ds + [flag])[..|ds|] == ds;
    if Taken(kind, flag) {
      LeadsOn(ws, m, start, start, start.(off := 1 + n, ds := ds));
      LeadsEnds(ws, m, start, start.(off := 1 + n, ds := ds), ds);
    } else {
      LeadsOn(ws, m, start, start, start.(off := 1, ds := ds));
      ConstsRun(ws, m, start, start.(off := 1, ds := ds), vs, ps);
      LeadsEnds(ws, m, start, start.(off := 1 + n, ds := ds + ps), ds + ps);
    }
  }

  /** `else` after the first branch, at the start of a definition. */
  lemma ElseFirst(t: Snap, vs: seq<i32>)
    requires InBuffer(t) && t.ptr == 0 && t.buf[0] == 0 && t.locals == map[]
    requires t.code == [Jump(IfFalse, None)] + Consts(vs) && t.names == NoNames(|vs| + 1)
    ensures RunCmds(t, ELSE).Some?
    ensures var u := RunCmds(t, ELSE).value;
            && InBuffer(u) && u.ptr == 0 && u.buf[0] == |vs| + 1 && u.locals == map[]
            && u.code == [Jump(IfFalse, Some(|vs| + 1))] + Consts(vs) + [Jump(Always, None)]
            && u.names == NoNames(|vs| + 2)
  {
    hide RunCmds, PushBuf, RollBuf;
    RunThree(t, DoAhead(Always), DoRoll(1), DoThen);
    PushStack(t, |t.code|);
    var p := Emit(Push(t, |t.code|), Jump(Always, None), None);
    TwoOnStack(t, p);
    assert Step(t, DoAhead(Always)) == Some(p);
    var q := p.(buf := RollBuf(p.buf, 0, 1));
    assert Step(p, DoRoll(1)) == Some(q);
    Rolled(p.buf);
    assert q.code[0] == Jump(IfFalse, None);
    var u := Step(q, DoThen).value;
    assert u.code == [Jump(IfFalse, Some(|vs| + 1))] + Consts(vs) + [Jump(Always, None)];
    assert NoNames(|vs| + 2) == NoNames(|vs| + 1) + [None];
  }

  lemma TwoOnStack(t: Snap, p: Snap)
    requires InBuffer(t) && t.ptr == 0 && InBuffer(Push(t, |t.code|))
    requires p.buf == Push(t, |t.code|).buf && p.ptr == Push(t, |t.code|).ptr
    ensures p.ptr == 1 < |p.buf| && p.buf[0] == t.buf[0] && p.buf[1] == |t.code|
  {
  }

  lemma Rolled(buf: seq<int>)
    requires |buf| > 1
    ensures |RollBuf(buf, 0, 1)| == |buf| && RollBuf(buf, 0, 1)[0] == buf[1] && RollBuf(buf, 0, 1)[1] == buf[0]
  {
    assert buf[..2] == [buf[0], buf[1]];
  }

  /** `if ... else ... then` around literals builds the two jumps over the two branches. */
  lemma BranchWord(a: seq<Cmd>, vs: seq<i32>, b: seq<Cmd>, us: seq<i32>)
    requires Literals(a, vs) && Literals(b, us)
    ensures var first := [Jump(IfFalse, Some(|vs| + 1))] + Consts(vs);
            var code := first + [Jump(Always, Some(|us|))] + Consts(us) + [Op.Ret];
            Builder.Word([DoAhead(IfFalse)] + a + ELSE + b + [DoThen]) == Some(Built(0, code, NoNames(|code|)))
  {
    hide RunCmds, Finish, PushBuf, Literals, ELSE;
    var first := [DoAhead(IfFalse)];
    AheadFirst(IfFalse);
    var s := RunCmds(Empty(), first).value;
    RunConcat(Empty(), first, a);
    LiteralsAdded(s, a, vs);
    var t := Added(s, vs);
    assert NoNames(1) + NoNames(|vs|) == NoNames(|vs| + 1);
    ElseFirst(t, vs);
    RunConcat(Empty(), first + a, ELSE);
    var u := RunCmds(t, ELSE).value;
    RunConcat(Empty(), first + a + ELSE, b);
    LiteralsAdded(u, b, us);
    RunConcat(Empty(), first + a + ELSE + b, [DoThen]);
    assert NoNames(|vs| + 2) + NoNames(|us|) == NoNames(|vs| + 2 + |us|);
    ThenLast(Added(u, us), |vs| + 1, [Jump(IfFalse, Some(|vs| + 1))] + Consts(vs), Always, Consts(us));
  }

  /** A conditional with two branches of literals leaves those of the first branch if the flag on top is nonzero, and
      those of the second one if it is zero. */
  lemma BranchRun(ws: seq<Word>, m: Meaning, w: nat, a: seq<Cmd>, vs: seq<i32>, ps: seq<u32>, b: seq<Cmd>,
                  us: seq<i32>, qs: seq<u32>, ds: seq<u32>, flag: u32)
    requires Literals(a, vs) && Patterns(vs, ps) && Literals(b, us) && Patterns(us, qs)
    requires Defines(ws, w, [DoAhead(IfFalse)] + a + ELSE + b + [DoThen])
    ensures Ends(ws, m, CEntry(ws, w, ds + [flag]), ds + if flag != 0 then ps else qs)
  {
    hide Leads, Ends, Literals, ELSE, Consts;
    BranchWord(a, vs, b, us);
    var start := CEntry(ws, w, ds + [flag]);
    LeadsSelf(ws, m, start);
    BranchParts(ws[w].code, vs, us);
    assert (ds + [flag])[..|ds|] == ds;
    if flag != 0 {
      LeadsOn(ws, m, start, start, start.(off := 1, ds := ds));
      FirstBranch(ws, m, start, start.(off := 1, ds := ds), vs, ps, us);
    } else {
      LeadsOn(ws, m, start, start, start.(off := |vs| + 2, ds := ds));
      SecondBranch(ws, m, start, start.(off := |vs| + 2, ds := ds), vs, us, qs);
    }
  }

  /** The code of such a conditional, by offsets. */
  ghost predicate BranchCode(code: seq<Op>, vs: seq<i32>, us: seq<i32>) {
    && |code| == |vs| + |us| + 3 && code[0] == Jump(IfFalse, Some(|vs| + 1)) && code[1..1 + |vs|] == Consts(vs)
    && code[|vs| + 1] == Jump(Always, Some(|us|)) && code[|vs| + 2..|vs| + 2 + |us|] == Consts(us)
    && code[|vs| + |us| + 2] == Op.Ret
  }

  lemma BranchParts(code: seq<Op>, vs: seq<i32>, us: seq<i32>)
    requires code == [Jump(IfFalse, Some(|vs| + 1))] + Consts(vs) + [Jump(Always, Some(|us|))] + Consts(us) + [Op.Ret]
    ensures BranchCode(code, vs, us)
  {
    hide Consts;
  }

  lemma FirstBranch(ws: seq<Word>, m: Meaning, start: CState, s: CState, vs: seq<i32>, ps: seq<u32>, us: seq<i32>)
    requires s.w < |ws| && ws[s.w].Interpreted? && BranchCode(ws[s.w].code, vs, us) && Patterns(vs, ps)
    requires Leads(ws, m, start, s) && s.off == 1 && |s.frames| == 1 && s.frames[0].saved == None
    ensures Ends(ws, m, start, s.ds + ps)
  {
    hide Leads, Ends, Consts, Patterns;
    ConstsRun(ws, m, start, s, vs, ps);
    var t := s.(off := |vs| + 2 + |us|, ds := s.ds + ps);
    LeadsOn(ws, m, start, s.(off := 1 + |vs|, ds := s.ds + ps), t);
    LeadsEnds(ws, m, start, t, s.ds + ps);
  }

  lemma SecondBranch(ws: seq<Word>, m: Meaning, start: CState, s: CState, vs: seq<i32>, us: seq<i32>, qs: seq<u32>)
    requires s.w < |ws| && ws[s.w].Interpreted? && BranchCode(ws[s.w].code, vs, us) && Patterns(us, qs)
    requires Leads(ws, m, start, s) && s.off == |vs| + 2 && |s.frames| == 1 && s.frames[0].saved == None
    ensures Ends(ws, m, start, s.ds + qs)
  {
    hide Leads, Ends, Consts, Patterns;
    ConstsRun(ws, m, start, s, us, qs);
    LeadsEnds(ws, m, start, s.(off := |vs| + 2 + |us|, ds := s.ds + qs), s.ds + qs);
  }

  // ----- Loops -----

  /** `begin` followed by a conditional `again` builds a jump to itself. */
  lemma LoopWord(kind: JumpKind)
    requires kind != Always
    ensures Builder.Word([DoBegin, DoAgain(kind)])
         == Some(Built(0, [Jump(kind, Some(-1)), Op.Ret], [None, None]))
  {
    var s := Push(Empty(), -1);
    RunOne(Empty(), DoBegin);
    RunConcat(Empty(), [DoBegin], [DoAgain(kind)]);
    RunOne(s, DoAgain(kind));
    assert [DoBegin] + [DoAgain(kind)] == [DoBegin, DoAgain(kind)];
    hide RunCmds;
    assert s.buf[0] == -1 && s.ptr == 0;
    var t := Emit(s.(ptr := -1), Jump(kind, Some(-1)), None);
    assert Step(s, DoAgain(kind)) == Some(t);
    assert t.code == [Jump(kind, Some(-1))] && t.names == [None];
    assert RunCmds(Empty(), [DoBegin]) == Some(s);
    assert RunCmds(Empty(), [DoBegin, DoAgain(kind)]) == Some(t);
    assert Finish(t) == Some(Built(0, t.code + [Op.Ret], t.names + [None]));
    assert t.code + [Op.Ret] == [Jump(kind, Some(-1)), Op.Ret] && t.names + [None] == [None, None];
  }

  /** That loop drops flags as long as they make the jump, and the first one that does not. */
  lemma LoopRun(ws: seq<Word>, m: Meaning, w: nat, kind: JumpKind, ds: seq<u32>, stop: u32, flags: seq<u32>)
    requires kind != Always && Defines(ws, w, [DoBegin, DoAgain(kind)])
    requires forall i :: 0 <= i < |flags| ==> (flags[i] != 0 <==> kind == IfTrue)
    requires stop != 0 <==> kind == IfFalse
    ensures Ends(ws, m, CEntry(ws, w, ds + [stop] + flags), ds)
  {
    hide Leads, Ends;
    LoopWord(kind);
    var start := CEntry(ws, w, ds + [stop] + flags);
    LeadsSelf(ws, m, start);
    LoopTurns(ws, m, start, w, kind, ds + [stop], flags);
    var t := start.(ds := ds + [stop]);
    assert (ds + [stop])[..|ds|] == ds;
    LeadsOn(ws, m, start, t, start.(off := 1, ds := ds));
    LeadsEnds(ws, m, start, start.(off := 1, ds := ds), ds);
  }

  lemma {:induction false} LoopTurns(ws: seq<Word>, m: Meaning, start: CState, w: nat, kind: JumpKind, ds: seq<u32>,
                                     flags: seq<u32>)
    requires w < |ws| && ws[w].Interpreted? && ws[w].code == [Jump(kind, Some(-1)), Op.Ret] && kind != Always
    requires start.w == w && start.off == 0 && |start.frames| > 0 && Leads(ws, m, start, start.(ds := ds + flags))
    requires forall i :: 0 <= i < |flags| ==> (flags[i] != 0 <==> kind == IfTrue)
    ensures Leads(ws, m, start, start.(ds := ds))
    decreases |flags|
  {
    hide Leads;
    if flags == [] {
      assert ds + flags == ds;
    } else {
      var k := |flags| - 1;
      assert (ds + flags)[..|ds| + k] == ds + flags[..k] && (ds + flags)[|ds| + k] == flags[k];
      LeadsOn(ws, m, start, start.(ds := ds + flags), start.(ds := ds + flags[..k]));
      LoopTurns(ws, m, start, w, kind, ds, flags[..k]);
    }
  }

  // ----- Calls -----

  lemma CallWord(t: nat, a: seq<Cmd>, us: seq<i32>)
    requires Literals(a, us)
    ensures Builder.Word([DoCallExt(t)] + a)
         == Some(Built(0, [Op.Call(t)] + Consts(us) + [Op.Ret], NoNames(|us| + 2)))
  {
    hide RunCmds;
    var s := Emit(Empty(), Op.Call(t), None);
    RunOne(Empty(), DoCallExt(t));
    RunConcat(Empty(), [DoCallExt(t)], a);
    LiteralsAdded(s, a, us);
    assert s.code == [Op.Call(t)] && s.names == NoNames(1);
    assert NoNames(1) + NoNames(|us|) + [None] == NoNames(|us| + 2);
  }

  lemma OnePattern(vs: seq<i32>, ps: seq<u32>)
    requires Patterns(vs, ps) && |vs| == 1
    ensures ps == [U32(vs[0])]
  {
    PatternIs(vs[0], ps[0]);
  }

  lemma LiteralCall(ws: seq<Word>, m: Meaning, start: CState, s: CState, t: nat, callee: seq<Cmd>, vs: seq<i32>,
                    ps: seq<u32>)
    requires Literals(callee, vs) && Defines(ws, t, callee) && Patterns(vs, ps) && |s.frames| > 0 && s.off > 0
    requires Leads(ws, m, start, s.(off := s.off - 1))
    requires CNext(ws, s.(off := s.off - 1)) == CGo(SourceMachine.Enter(s, t, 0))
    ensures Leads(ws, m, start, s.(ds := s.ds + ps))
  {
    hide Leads, Literals, Consts, Patterns;
    LiteralWord(callee, vs);
    assert ws[t].code[..|vs|] == Consts(vs);
    var inside := SourceMachine.Enter(s, t, 0);
    LeadsOn(ws, m, start, s.(off := s.off - 1), inside);
    ConstsRun(ws, m, start, inside, vs, ps);
    assert inside.frames[..|inside.frames| - 1] == s.frames;
    LeadsOn(ws, m, start, inside.(off := |vs|, ds := s.ds + ps), s.(ds := s.ds + ps));
  }

  /** A call of a word of literals runs that word and comes back to the opcode after the call; a call of a data word
      pushes its address. */
  lemma CallRun(ws: seq<Word>, m: Meaning, w: nat, t: nat, callee: seq<Cmd>, vs: seq<i32>, ps: seq<u32>, a: seq<Cmd>,
                us: seq<i32>, qs: seq<u32>, ds: seq<u32>)
    requires Literals(a, us) && Patterns(us, qs) && Defines(ws, w, [DoCallExt(t)] + a) && t < |ws|
    requires Patterns(vs, ps)
    requires (Literals(callee, vs) && Defines(ws, t, callee)) || (|vs| == 1 && ws[t] == Data(vs[0]))
    ensures Ends(ws, m, CEntry(ws, w, ds), ds + ps + qs)
  {
    hide Leads, Ends, Literals, Consts, Patterns;
    CallWord(t, a, us);
    var start := CEntry(ws, w, ds);
    var code := ws[w].code;
    assert code == [Op.Call(t)] + Consts(us) + [Op.Ret];
    LeadsSelf(ws, m, start);
    var back := start.(off := 1, ds := ds + ps);
    if ws[t].Data? {
      OnePattern(vs, ps);
      LeadsOn(ws, m, start, start, back);
    } else {
      LiteralWord(callee, vs);
      LiteralCall(ws, m, start, start.(off := 1), t, callee, vs, ps);
    }
    assert code[1..1 + |us|] == Consts(us);
    ConstsRun(ws, m, start, back, us, qs);
    LeadsEnds(ws, m, start, back.(off := 1 + |us|, ds := ds + ps + qs), ds + ps + qs);
  }

  // ----- Locals -----

  /** Different names, none of them starting with the mark of a write. */
  ghost predicate PlainNames(xs: seq<string>) {
    (forall i, j :: 0 <= i < j < |xs| ==> xs[i] != xs[j]) && forall i :: 0 <= i < |xs| ==> !(">" <= xs[i])
  }

  /** Calls that declare the locals `xs`, write them all, the last one first, and read those at `ks`. */
  ghost predicate Shuffles(decls: seq<Cmd>, puts: seq<Cmd>, gets: seq<Cmd>, xs: seq<string>, ks: seq<nat>) {
    && (forall j :: 0 <= j < |ks| ==> ks[j] < |xs|)
    && |decls| == |xs| && (forall i :: 0 <= i < |xs| ==> decls[i] == DoLocal(xs[i]))
    && |puts| == |xs| && (forall i :: 0 <= i < |xs| ==> puts[i] == DoCall(">" + xs[|xs| - 1 - i]))
    && |gets| == |ks| && (forall j :: 0 <= j < |ks| ==> gets[j] == DoCall(xs[ks[j]]))
  }

  /** The names numbered in order. */
  ghost predicate Numbers(locals: map<string, nat>, xs: seq<string>) {
    && |locals| == |xs| && (forall i :: 0 <= i < |xs| ==> xs[i] in locals && locals[xs[i]] == i)
    && forall x :: x in locals ==> x in xs
  }

  lemma {:induction false} DeclaresRun(cmds: seq<Cmd>, xs: seq<string>) returns (locals: map<string, nat>)
    requires |cmds| == |xs| && (forall i :: 0 <= i < |xs| ==> cmds[i] == DoLocal(xs[i]))
    requires forall i, j :: 0 <= i < j < |xs| ==> xs[i] != xs[j]
    ensures RunCmds(Empty(), cmds) == Some(Empty().(locals := locals)) && Numbers(locals, xs)
    decreases |xs|
  {
    hide Numbers;
    if xs == [] {
      locals := map[];
      NoLocals();
    } else {
      var k := |xs| - 1;
      var fewer := DeclaresRun(cmds[..k], xs[..k]);
      OneMoreLocal(fewer, xs);
      locals := fewer[xs[k] := k];
    }
  }

  lemma NoLocals()
    ensures Numbers(map[], [])
  {
  }

  lemma OneMoreLocal(fewer: map<string, nat>, xs: seq<string>)
    requires xs != [] && Numbers(fewer, xs[..|xs| - 1])
    requires forall i, j :: 0 <= i < j < |xs| ==> xs[i] != xs[j]
    ensures var k := |xs| - 1; xs[k] !in fewer && |fewer| == k && Numbers(fewer[xs[k] := k], xs)
  {
    var k := |xs| - 1;
    assert xs[k] !in fewer;
    assert |fewer[xs[k] := k]| == |fewer| + 1;
    forall i | 0 <= i < k
      ensures xs[i] in fewer && xs[i] != xs[k] && fewer[xs[i]] == i
    {
      assert xs[..k][i] == xs[i];
    }
  }

  /** Calls that all name locals add their opcodes. */
  lemma {:induction false} LocalCalls(s: Snap, cmds: seq<Cmd>, ops: seq<Op>)
    requires InBuffer(s) && |ops| == |cmds|
    requires forall i :: 0 <= i < |cmds| ==> cmds[i].DoCall? && CallOp(s.locals, cmds[i].target) == (ops[i], None)
    ensures RunCmds(s, cmds)
         == Some(s.(code := s.code + ops, names := s.names + NoNames(|ops|), jumpToLast := s.jumpToLast && ops == []))
    decreases |cmds|
  {
    hide CallOp;
    if cmds == [] {
      assert s.code + ops == s.code && s.names + NoNames(0) == s.names;
    } else {
      var k := |cmds| - 1;
      LocalCalls(s, cmds[..k], ops[..k]);
      assert s.code + ops == s.code + ops[..k] + [ops[k]];
      assert s.names + NoNames(k + 1) == s.names + NoNames(k) + [None];
    }
  }

  /** The opcodes of such a definition. */
  function ShuffleCode(n: nat, ks: seq<nat>): (code: seq<Op>)
    ensures |code| == n + |ks|
  {
    seq(n + |ks|, i requires 0 <= i < n + |ks| => if i < n then PutLocal(n - 1 - i) else GetLocal(ks[i - n]))
  }

  lemma ShuffleWord(decls: seq<Cmd>, puts: seq<Cmd>, gets: seq<Cmd>, xs: seq<string>, ks: seq<nat>)
    requires PlainNames(xs) && Shuffles(decls, puts, gets, xs, ks)
    ensures Builder.Word(decls + puts + gets)
         == Some(Built(|xs|, ShuffleCode(|xs|, ks) + [Op.Ret], NoNames(|xs| + |ks| + 1)))
  {
    hide *;
    var locals := ShuffleCalls(decls, puts, gets, xs, ks);
    FinishLocals(locals, ShuffleCode(|xs|, ks));
    WordIs(decls + puts + gets);
    assert NoNames(|xs| + |ks| + 1) == NoNames(|xs| + |ks|) + [None] by { OneMoreName(|xs| + |ks|); }
  }

  lemma WordIs(cmds: seq<Cmd>)
    requires RunCmds(Empty(), cmds).Some?
    ensures Builder.Word(cmds) == Finish(RunCmds(Empty(), cmds).value)
  {
  }

  lemma OneMoreName(n: nat)
    ensures NoNames(n + 1) == NoNames(n) + [None]
  {
  }

  /** The state after the calls that declare, write and read locals. */
  function LocalsState(locals: map<string, nat>, ops: seq<Op>): Snap {
    Empty().(locals := locals, code := ops, names := NoNames(|ops|), jumpToLast := ops == [])
  }

  lemma ShuffleCalls(decls: seq<Cmd>, puts: seq<Cmd>, gets: seq<Cmd>, xs: seq<string>, ks: seq<nat>)
    returns (locals: map<string, nat>)
    requires PlainNames(xs) && Shuffles(decls, puts, gets, xs, ks)
    ensures RunCmds(Empty(), decls + puts + gets) == Some(LocalsState(locals, ShuffleCode(|xs|, ks)))
    ensures |locals| == |xs| && forall op :: op in ShuffleCode(|xs|, ks) ==> op.PutLocal? || op.GetLocal?
  {
    hide RunCmds, ShuffleCode, CallOp, Numbers;
    locals := DeclaresRun(decls, xs);
    NumberedSize(locals, xs);
    var ops := ShuffleCode(|xs|, ks);
    hide PlainNames, Shuffles;
    LocalOps(decls, puts, gets, xs, ks, locals);
    LocalCalls(Empty().(locals := locals), puts + gets, ops);
    RunConcat(Empty(), decls, puts + gets);
    assert decls + puts + gets == decls + (puts + gets);
    assert [] + ops == ops && [] + NoNames(|ops|) == NoNames(|ops|);
  }

  lemma NumberedSize(locals: map<string, nat>, xs: seq<string>)
    requires Numbers(locals, xs)
    ensures |locals| == |xs|
  {
  }

  lemma FinishLocals(locals: map<string, nat>, ops: seq<Op>)
    requires forall op :: op in ops ==> op.PutLocal? || op.GetLocal?
    ensures Finish(LocalsState(locals, ops)) == Some(Built(|locals|, ops + [Op.Ret], NoNames(|ops|) + [None]))
  {
    if ops != [] { assert ops[|ops| - 1] in ops; }
  }

  lemma LocalOps(decls: seq<Cmd>, puts: seq<Cmd>, gets: seq<Cmd>, xs: seq<string>, ks: seq<nat>,
                 locals: map<string, nat>)
    requires PlainNames(xs) && Shuffles(decls, puts, gets, xs, ks) && Numbers(locals, xs)
    ensures |puts + gets| == |xs| + |ks|
    ensures forall i :: 0 <= i < |xs| + |ks| ==>
              var c, op := (puts + gets)[i], ShuffleCode(|xs|, ks)[i];
              c.DoCall? && CallOp(locals, c.target) == (op, None) && (op.PutLocal? || op.GetLocal?)
  {
    hide CallOp, Numbers, PlainNames, ShuffleCode;
    forall i | 0 <= i < |xs| + |ks|
      ensures var c, op := (puts + gets)[i], ShuffleCode(|xs|, ks)[i];
              c.DoCall? && CallOp(locals, c.target) == (op, None) && (op.PutLocal? || op.GetLocal?)
    {
      if i < |xs| {
        PutAt(decls, puts, gets, xs, ks, locals, i);
      } else {
        GetAt(decls, puts, gets, xs, ks, locals, i - |xs|);
      }
    }
  }

  lemma PutAt(decls: seq<Cmd>, puts: seq<Cmd>, gets: seq<Cmd>, xs: seq<string>, ks: seq<nat>,
              locals: map<string, nat>, i: nat)
    requires Shuffles(decls, puts, gets, xs, ks) && Numbers(locals, xs) && i < |xs|
    ensures i < |puts| && puts[i].DoCall? && CallOp(locals, puts[i].target) == (PutLocal(|xs| - 1 - i), None)
    ensures ShuffleCode(|xs|, ks)[i] == PutLocal(|xs| - 1 - i)
  {
    hide CallOp;
    assert puts[i] == DoCall(">" + xs[|xs| - 1 - i]);
    WriteOp(locals, xs[|xs| - 1 - i]);
  }

  lemma GetAt(decls: seq<Cmd>, puts: seq<Cmd>, gets: seq<Cmd>, xs: seq<string>, ks: seq<nat>,
              locals: map<string, nat>, j: nat)
    requires PlainNames(xs) && Shuffles(decls, puts, gets, xs, ks) && Numbers(locals, xs) && j < |ks|
    ensures |puts| == |xs| && j < |gets| && gets[j].DoCall?
    ensures CallOp(locals, gets[j].target) == (GetLocal(ks[j]), None)
    ensures ShuffleCode(|xs|, ks)[|xs| + j] == GetLocal(ks[j])
  {
    hide CallOp;
    assert gets[j] == DoCall(xs[ks[j]]);
    ReadOp(locals, xs[ks[j]]);
  }

  lemma WriteOp(locals: map<string, nat>, x: string)
    requires x in locals
    ensures CallOp(locals, ">" + x) == (PutLocal(locals[x]), None)
  {
    assert (">" + x)[1..] == x;
  }

  lemma ReadOp(locals: map<string, nat>, x: string)
    requires x in locals && !(">" <= x)
    ensures CallOp(locals, x) == (GetLocal(locals[x]), None)
  {
  }

  /** The frame after the writes of all locals from number k up. */
  function Written(args: seq<u32>, k: nat): Frame {
    Frame(None, seq(|args|, i requires 0 <= i < |args| => if i >= k then Some(args[i]) else None))
  }

  lemma {:induction false} PutsRun(ws: seq<Word>, m: Meaning, start: CState, w: nat, ds: seq<u32>, args: seq<u32>,
                                   ks: seq<nat>, j: nat)
    requires w < |ws| && ws[w].Interpreted? && ws[w].numLocals == |args| && j <= |args|
    requires ws[w].code == ShuffleCode(|args|, ks) + [Op.Ret] && start == CEntry(ws, w, ds + args)
    ensures var n := |args| - j;
            Leads(ws, m, start, CState(w, j, ds + args[..n], [Written(args, n)]))
    decreases j
  {
    hide Leads;
    if j == 0 {
      assert args[..|args|] == args;
      assert NewLocals(|args|) == Written(args, |args|).locals;
      LeadsSelf(ws, m, start);
    } else {
      PutsRun(ws, m, start, w, ds, args, ks, j - 1);
      var n := |args| - j;
      var s := CState(w, j - 1, ds + args[..n + 1], [Written(args, n + 1)]);
      assert ws[w].code[j - 1] == PutLocal(n);
      assert s.ds[..|s.ds| - 1] == ds + args[..n] && s.ds[|s.ds| - 1] == args[n];
      assert Written(args, n + 1).locals[n := Some(args[n])] == Written(args, n).locals;
      LeadsOn(ws, m, start, s, CState(w, j, ds + args[..n], [Written(args, n)]));
    }
  }

  lemma {:induction false} GetsRun(ws: seq<Word>, m: Meaning, start: CState, w: nat, ds: seq<u32>, args: seq<u32>,
                                   ks: seq<nat>, outs: seq<u32>, j: nat)
    requires forall i :: 0 <= i < |ks| ==> ks[i] < |args|
    requires |outs| == |ks| && (forall i :: 0 <= i < |ks| ==> outs[i] == args[ks[i]]) && j <= |ks|
    requires w < |ws| && ws[w].Interpreted? && ws[w].code == ShuffleCode(|args|, ks) + [Op.Ret]
    requires Leads(ws, m, start, CState(w, |args|, ds, [Written(args, 0)]))
    ensures Leads(ws, m, start, CState(w, |args| + j, ds + outs[..j], [Written(args, 0)]))
    decreases j
  {
    hide Leads;
    if j == 0 {
      assert ds + outs[..0] == ds;
    } else {
      GetsRun(ws, m, start, w, ds, args, ks, outs, j - 1);
      var s := CState(w, |args| + j - 1, ds + outs[..j - 1], [Written(args, 0)]);
      assert ws[w].code[|args| + j - 1] == GetLocal(ks[j - 1]);
      assert ds + outs[..j - 1] + [outs[j - 1]] == ds + outs[..j];
      LeadsOn(ws, m, start, s, CState(w, |args| + j, ds + outs[..j], [Written(args, 0)]));
    }
  }

  /** Any rearrangement of the topmost items through locals: the locals take the items in the order of their
      declaration, and each read copies the item of the name it reads. */
  lemma ShuffleRun(ws: seq<Word>, m: Meaning, w: nat, decls: seq<Cmd>, puts: seq<Cmd>, gets: seq<Cmd>,
                   xs: seq<string>, ks: seq<nat>, ds: seq<u32>, args: seq<u32>, outs: seq<u32>)
    requires PlainNames(xs) && Shuffles(decls, puts, gets, xs, ks)
    requires Defines(ws, w, decls + puts + gets)
    requires |args| == |xs| && |outs| == |ks| && forall j :: 0 <= j < |ks| ==> ks[j] < |xs| && outs[j] == args[ks[j]]
    ensures Ends(ws, m, CEntry(ws, w, ds + args), ds + outs)
  {
    hide Leads, Ends, PlainNames, Shuffles;
    ShuffleWord(decls, puts, gets, xs, ks);
    var start := CEntry(ws, w, ds + args);
    PutsRun(ws, m, start, w, ds, args, ks, |args|);
    assert ds + args[..0] == ds;
    GetsRun(ws, m, start, w, ds, args, ks, outs, |ks|);
    assert outs[..|ks|] == outs;
    LeadsEnds(ws, m, start, CState(w, |args| + |ks|, ds + outs, [Written(args, 0)]), ds + outs);
  }
}
