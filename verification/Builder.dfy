/** WordBuilder: opcodes are accumulated, and jumps are resolved through a control-flow stack. */
module Builder {
  import opened Machine32
  import opened Code

  /** A finished word: number of locals, opcodes, and the names its calls still have to be resolved to. */
  datatype Built = Built(numLocals: nat, code: seq<Op>, toResolve: seq<Option<string>>)

  // ----- Code under construction -----

  predicate Unresolved(code: seq<Op>, i: int) {
    0 <= i < |code| && code[i].Jump? && code[i].disp.None?
  }

  /** The opcode is consistent with the code around it: a resolved jump lands at most one past the end, and there
      only if `jumpToLast` says so; locals exist. */
  predicate OpInside(code: seq<Op>, jumpToLast: bool, numLocals: nat, i: int)
    requires 0 <= i < |code|
  {
    match code[i]
    case GetLocal(k) => k < numLocals
    case PutLocal(k) => k < numLocals
    case Jump(_, Some(d)) => 0 <= i + 1 + d <= |code| && (i + 1 + d == |code| ==> jumpToLast)
    case _ => true
  }

  /** Code under construction with its control-flow stack: every unresolved jump has its origin on the stack; a
      forward jump is unresolved until it is resolved, which happens at most once. `forward` and `resolved` are the
      history. */
  ghost predicate UnderWay(code: seq<Op>, cf: seq<int>, jumpToLast: bool, numLocals: nat, forward: set<int>,
                           resolved: multiset<int>) {
    && (code == [] ==> jumpToLast)
    && (forall i :: 0 <= i < |code| ==> OpInside(code, jumpToLast, numLocals, i))
    && (forall i :: Unresolved(code, i) ==> i in cf)
    && (forall i :: Unresolved(code, i) <==> i in forward && resolved[i] == 0)
    && (forall i :: i in forward ==> 0 <= i < |code|)
    && (forall i :: resolved[i] > 0 ==> i in forward && resolved[i] == 1)
  }

  lemma PlainAdded(code: seq<Op>, cf: seq<int>, j: bool, n: nat, forward: set<int>, resolved: multiset<int>, op: Op)
    requires UnderWay(code, cf, j, n, forward, resolved) && !op.Jump?
    requires match op case GetLocal(k) => k < n case PutLocal(k) => k < n case _ => true
    ensures UnderWay(code + [op], cf, false, n, forward, resolved)
  {
    OpsExtended(code, j, n, op);
    UnresolvedExtended(code, op);
  }

  lemma OpsExtended(code: seq<Op>, j: bool, n: nat, op: Op)
    requires forall i :: 0 <= i < |code| ==> OpInside(code, j, n, i)
    requires match op
             case GetLocal(k) => k < n
             case PutLocal(k) => k < n
             case Jump(_, Some(d)) => 0 <= |code| + 1 + d <= |code|
             case _ => true
    ensures forall i :: 0 <= i < |code| + 1 ==> OpInside(code + [op], false, n, i)
  {
    forall i | 0 <= i < |code| + 1
      ensures OpInside(code + [op], false, n, i)
    {
      if i < |code| { assert OpInside(code, j, n, i); }
    }
  }

  lemma UnresolvedExtended(code: seq<Op>, op: Op)
    ensures forall i ::
              Unresolved(code + [op], i) <==> Unresolved(code, i) || (i == |code| && op.Jump? && op.disp.None?)
  {
  }

  lemma ForwardAdded(code: seq<Op>, cf: seq<int>, j: bool, n: nat, forward: set<int>, resolved: multiset<int>,
                     kind: JumpKind)
    requires UnderWay(code, cf, j, n, forward, resolved)
    ensures UnderWay(code + [Jump(kind, None)], cf + [|code|], false, n, forward + {|code|}, resolved)
  {
    OpsExtended(code, j, n, Jump(kind, None));
    UnresolvedExtended(code, Jump(kind, None));
    assert |code| in cf + [|code|];
  }

  lemma BackwardAdded(code: seq<Op>, cf: seq<int>, j: bool, n: nat, forward: set<int>, resolved: multiset<int>,
                      kind: JumpKind,
                      d: int)
    requires UnderWay(code, cf + [-d - 1], j, n, forward, resolved) && 0 <= d <= |code|
    ensures UnderWay(code + [Jump(kind, Some(d - |code| - 1))], cf, false, n, forward, resolved)
  {
    OpsExtended(code, j, n, Jump(kind, Some(d - |code| - 1)));
    UnresolvedExtended(code, Jump(kind, Some(d - |code| - 1)));
  }

  lemma ForwardResolved(code: seq<Op>, cf: seq<int>, j: bool, n: nat, forward: set<int>, resolved: multiset<int>,
                        x: int)
    requires UnderWay(code, cf + [x], j, n, forward, resolved) && Unresolved(code, x)
    ensures UnderWay(code[x := code[x].(disp := Some(|code| - x - 1))], cf, true, n, forward, resolved + multiset{x})
  {
    var later := code[x := code[x].(disp := Some(|code| - x - 1))];
    assert forall i :: Unresolved(later, i) <==> Unresolved(code, i) && i != x;
    forall i | 0 <= i < |later|
      ensures OpInside(later, true, n, i)
    {
      if i != x { assert OpInside(code, j, n, i); }
    }
  }

  lemma StackRearranged(code: seq<Op>, cf: seq<int>, cf': seq<int>, j: bool, n: nat, forward: set<int>,
                        resolved: multiset<int>)
    requires UnderWay(code, cf, j, n, forward, resolved) && forall i :: i in cf ==> i in cf'
    ensures UnderWay(code, cf', j, n, forward, resolved)
  {
  }

  lemma LocalAdded(code: seq<Op>, cf: seq<int>, j: bool, n: nat, forward: set<int>, resolved: multiset<int>)
    requires UnderWay(code, cf, j, n, forward, resolved)
    ensures UnderWay(code, cf, j, n + 1, forward, resolved)
  {
    var more := n + 1;
    forall i | 0 <= i < |code|
      ensures OpInside(code, j, more, i)
    {
      assert OpInside(code, j, n, i);
    }
  }

  /** With an empty stack and an end that cannot be reached, the code is well formed and each forward jump was resolved
      exactly once. */
  lemma Complete(code: seq<Op>, n: nat, forward: set<int>, resolved: multiset<int>)
    requires UnderWay(code, [], false, n, forward, resolved) && code != [] && !code[|code| - 1].MayFallThrough()
    ensures WellFormedCode(n, code)
    ensures forall x :: x in forward ==> resolved[x] == 1
  {
    assert forall i {:trigger code[i]} :: 0 <= i < |code| ==> OpInside(code, false, n, i) && !Unresolved(code, i);
    forall x | x in forward
      ensures resolved[x] == 1
    {
      assert !Unresolved(code, x);
    }
  }

  /** The entry at `k` taken out and put on top. */
  function Roll(s: seq<int>, k: nat): seq<int>
    requires k < |s|
  {
    s[..k] + s[k + 1..] + [s[k]]
  }

  lemma RollKeeps(s: seq<int>, k: nat)
    requires k < |s|
    ensures forall i :: i in s ==> i in Roll(s, k)
  {
    var t := Roll(s, k);
    forall j | 0 <= j < |s|
      ensures s[j] in t
    {
      assert t[if j < k then j else if j == k then |s| - 1 else j - 1] == s[j];
    }
  }

  /** Destinations among the entries are offsets of the code, of length `n`, or its end. */
  ghost predicate DestsInside(entries: seq<int>, n: nat) {
    forall k :: 0 <= k < |entries| && entries[k] < 0 ==> -entries[k] - 1 <= n
  }

  lemma DestsGrow(entries: seq<int>, n: nat)
    requires DestsInside(entries, n)
    ensures DestsInside(entries, n + 1)
  {
  }

  lemma RollIs(s: seq<int>, t: seq<int>, k: nat)
    requires k < |s| == |t| && t[|s| - 1] == s[k]
    requires forall i :: 0 <= i < k ==> t[i] == s[i]
    requires forall i :: k <= i < |s| - 1 ==> t[i] == s[i + 1]
    ensures t == Roll(s, k)
  {
  }

  // ----- The builder as a function -----

  /** The builder calls a definition can make. */
  datatype Cmd =
    | DoLiteral(v: i32)
    | DoCall(target: string)
    | DoCallExt(t: nat)
    | DoLocal(name: string)
    | DoRet
    | DoAhead(kind: JumpKind)
    | DoThen
    | DoBegin
    | DoAgain(kind: JumpKind)
    | DoRoll(depth: int)
    | DoPick(depth: int)

  /** The fields of a builder; `buf` is the buffer of the control-flow stack, filled up to `ptr`. */
  datatype Snap = Snap(code: seq<Op>, names: seq<Option<string>>, locals: map<string, nat>, jumpToLast: bool,
                       buf: seq<int>, ptr: int)

  predicate InBuffer(s: Snap) { 0 < |s.buf| && -1 <= s.ptr < |s.buf| }

  /** The entries of the control-flow stack, top last. */
  function Stack(s: Snap): seq<int> {
    if -1 <= s.ptr < |s.buf| then s.buf[..s.ptr + 1] else []
  }

  /** The buffer after a push above `ptr`; a full one is doubled first. */
  function PushBuf(buf: seq<int>, ptr: int, x: int): (r: seq<int>)
    requires 0 < |buf| && -1 <= ptr < |buf|
    ensures ptr + 1 < |r|
  {
    (if ptr + 1 == |buf| then buf + seq(|buf|, _ => 0) else buf)[ptr + 1 := x]
  }

  /** The buffer after the entry at `k` has moved to `ptr`. */
  function RollBuf(buf: seq<int>, k: int, ptr: int): seq<int>
    requires 0 <= k <= ptr < |buf|
  {
    Roll(buf[..ptr + 1], k) + buf[ptr + 1..]
  }

  function Push(s: Snap, x: int): Snap
    requires InBuffer(s)
  {
    s.(buf := PushBuf(s.buf, s.ptr, x), ptr := s.ptr + 1)
  }

  function Emit(s: Snap, op: Op, name: Option<string>): Snap {
    s.(code := s.code + [op], names := s.names + [name], jumpToLast := false)
  }

  /** A local is read, or written after `>`; anything else is a call to resolve later. */
  function CallOp(locals: map<string, nat>, target: string): (Op, Option<string>) {
    var write := |target| > 0 && target[0] == '>';
    var lname := if write then target[1..] else target;
    if lname !in locals then (Op.Call(0), Some(target))
    else if write then (PutLocal(locals[lname]), None) else (GetLocal(locals[lname]), None)
  }

  /** One builder call; None for its exceptions. */
  function Step(s: Snap, c: Cmd): Option<Snap> {
    if !InBuffer(s) then None
    else
      match c
      case DoLiteral(v) => Some(Emit(s, Const(v), None))
      case DoCall(target) => var (op, name) := CallOp(s.locals, target); Some(Emit(s, op, name))
      case DoCallExt(t) => Some(Emit(s, Op.Call(t), None))
      case DoLocal(name) => if name in s.locals then None else Some(s.(locals := s.locals[name := |s.locals|]))
      case DoRet => Some(Emit(s, Op.Ret, None))
      case DoAhead(kind) => Some(Emit(Push(s, |s.code|), Jump(kind, None), None))
      case DoThen =>
        if s.ptr < 0 || !Unresolved(s.code, s.buf[s.ptr]) then None
        else
          var x := s.buf[s.ptr];
          var code := s.code[x := s.code[x].(disp := Some(|s.code| - x - 1))];
          Some(s.(code := code, jumpToLast := true, ptr := s.ptr - 1))
      case DoBegin => Some(Push(s, -|s.code| - 1))
      case DoAgain(kind) =>
        if s.ptr < 0 || s.buf[s.ptr] >= 0 then None
        else Some(Emit(s.(ptr := s.ptr - 1), Jump(kind, Some(-s.buf[s.ptr] - 1 - |s.code| - 1)), None))
      case DoRoll(depth) =>
        if !(0 <= depth <= s.ptr) then None else Some(s.(buf := RollBuf(s.buf, s.ptr - depth, s.ptr)))
      case DoPick(depth) =>
        if !(0 <= s.ptr - depth < |s.buf|) then None else Some(Push(s, s.buf[s.ptr - depth]))
  }

  /** Any sequence of builder calls; None when one fails. */
  function RunCmds(s: Snap, cmds: seq<Cmd>): Option<Snap> {
    if cmds == [] then Some(s)
    else
      match RunCmds(s, cmds[..|cmds| - 1])
      case None => None
      case Some(t) => Step(t, cmds[|cmds| - 1])
  }

  function Empty(): Snap { Snap([], [], map[], true, seq(16, _ => 0), -1) }

  /** Build: fails unless the control-flow stack is empty; a return is appended if the end can be reached. */
  function Finish(s: Snap): Option<Built> {
    if s.ptr != -1 || (s.code == [] && !s.jumpToLast) then None
    else
      var t := if s.jumpToLast || s.code[|s.code| - 1].MayFallThrough() then Emit(s, Op.Ret, None) else s;
      Some(Built(|t.locals|, t.code, t.names))
  }

  // ----- What every builder call keeps -----

  /** A name to resolve stands beside a call. */
  predicate NamesCalls(code: seq<Op>, names: seq<Option<string>>) {
    |names| == |code| && forall i :: 0 <= i < |code| && names[i].Some? ==> code[i].Call?
  }

  /** Distinct locals have distinct numbers, all below their count. */
  ghost predicate LocalsOk(locals: map<string, nat>) {
    && (forall x :: x in locals ==> locals[x] < |locals|)
    && (forall x, y :: x in locals && y in locals && locals[x] == locals[y] ==> x == y)
  }

  /** The buffer holds the stack; its destinations, popped entries included, are offsets of the code or its end. */
  ghost predicate Buffered(s: Snap) {
    InBuffer(s) && DestsInside(s.buf, |s.code|)
  }

  ghost predicate Good(s: Snap, forward: set<int>, resolved: multiset<int>) {
    Buffered(s) && LocalsOk(s.locals) && NamesCalls(s.code, s.names)
    && UnderWay(s.code, Stack(s), s.jumpToLast, |s.locals|, forward, resolved)
  }

  /** The forward jump a call opens, and the one it resolves. */
  function Opened(s: Snap, c: Cmd): set<int> { if c.DoAhead? then {|s.code|} else {} }

  function Closed(s: Snap, c: Cmd): multiset<int> {
    if c.DoThen? && 0 <= s.ptr < |s.buf| then multiset{s.buf[s.ptr]} else multiset{}
  }

  lemma EmptyGood()
    ensures Good(Empty(), {}, multiset{})
  {
  }

  lemma BufferedEmit(s: Snap, op: Op, name: Option<string>)
    requires Buffered(s)
    ensures Buffered(Emit(s, op, name)) && Stack(Emit(s, op, name)) == Stack(s)
  {
    hide DestsInside;
    DestsGrow(s.buf, |s.code|);
  }

  lemma PushStack(s: Snap, x: int)
    requires InBuffer(s)
    ensures InBuffer(Push(s, x)) && Stack(Push(s, x)) == Stack(s) + [x]
  {
    var buf := PushBuf(s.buf, s.ptr, x);
    assert |buf| >= |s.buf|;
    assert buf[..s.ptr + 1] == s.buf[..s.ptr + 1];
  }

  lemma BufferedPush(s: Snap, x: int)
    requires Buffered(s) && (x < 0 ==> -x - 1 <= |s.code|)
    ensures Buffered(Push(s, x)) && Stack(Push(s, x)) == Stack(s) + [x]
  {
    PushStack(s, x);
    var buf := PushBuf(s.buf, s.ptr, x);
    forall k | 0 <= k < |buf| && buf[k] < 0
      ensures -buf[k] - 1 <= |s.code|
    {
      if k != s.ptr + 1 && k < |s.buf| { assert buf[k] == s.buf[k]; }
    }
  }

  lemma BufferedPop(s: Snap)
    requires Buffered(s) && s.ptr >= 0
    ensures var x := s.buf[s.ptr];
            && Buffered(s.(ptr := s.ptr - 1)) && Stack(s) == Stack(s.(ptr := s.ptr - 1)) + [x]
            && (x < 0 ==> -x - 1 <= |s.code|)
  {
  }

  lemma NamesEmit(s: Snap, op: Op, name: Option<string>)
    requires NamesCalls(s.code, s.names) && (name.Some? ==> op.Call?)
    ensures NamesCalls(Emit(s, op, name).code, Emit(s, op, name).names)
  {
  }

  lemma EmitGood(s: Snap, op: Op, name: Option<string>, forward: set<int>, resolved: multiset<int>)
    requires Good(s, forward, resolved) && !op.Jump? && (name.Some? ==> op.Call?)
    requires match op case GetLocal(k) => k < |s.locals| case PutLocal(k) => k < |s.locals| case _ => true
    ensures Good(Emit(s, op, name), forward, resolved)
  {
    hide UnderWay, Buffered, LocalsOk, NamesCalls, Stack;
    BufferedEmit(s, op, name);
    NamesEmit(s, op, name);
    PlainAdded(s.code, Stack(s), s.jumpToLast, |s.locals|, forward, resolved, op);
  }

  lemma CallGood(s: Snap, target: string, forward: set<int>, resolved: multiset<int>)
    requires Good(s, forward, resolved)
    ensures var (op, name) := CallOp(s.locals, target); Good(Emit(s, op, name), forward, resolved)
  {
    hide UnderWay, Buffered, NamesCalls, Stack, Emit;
    var (op, name) := CallOp(s.locals, target);
    EmitGood(s, op, name, forward, resolved);
  }

  lemma LocalGood(s: Snap, name: string, forward: set<int>, resolved: multiset<int>)
    requires Good(s, forward, resolved) && name !in s.locals
    ensures Good(s.(locals := s.locals[name := |s.locals|]), forward, resolved)
  {
    hide UnderWay, DestsInside, NamesCalls;
    var later := s.locals[name := |s.locals|];
    assert |later| == |s.locals| + 1;
    LocalAdded(s.code, Stack(s), s.jumpToLast, |s.locals|, forward, resolved);
  }

  lemma AheadGood(s: Snap, kind: JumpKind, forward: set<int>, resolved: multiset<int>)
    requires Good(s, forward, resolved)
    ensures Good(Emit(Push(s, |s.code|), Jump(kind, None), None), forward + {|s.code|}, resolved)
  {
    hide UnderWay, Buffered, LocalsOk, NamesCalls, Stack, PushBuf;
    BufferedPtr(s);
    var t := Push(s, |s.code|);
    BufferedPush(s, |s.code|);
    BufferedEmit(t, Jump(kind, None), None);
    NamesEmit(t, Jump(kind, None), None);
    ForwardAdded(s.code, Stack(s), s.jumpToLast, |s.locals|, forward, resolved, kind);
  }

  lemma BufferedPtr(s: Snap)
    requires Buffered(s)
    ensures InBuffer(s)
  {
  }

  lemma ThenGood(s: Snap, forward: set<int>, resolved: multiset<int>)
    requires Good(s, forward, resolved) && Step(s, DoThen).Some?
    ensures Good(Step(s, DoThen).value, forward, resolved + multiset{s.buf[s.ptr]})
  {
    hide UnderWay, LocalsOk, DestsInside, Stack;
    BufferedPop(s);
    ForwardResolved(s.code, Stack(s.(ptr := s.ptr - 1)), s.jumpToLast, |s.locals|, forward, resolved, s.buf[s.ptr]);
    StackSame(s.(ptr := s.ptr - 1), Step(s, DoThen).value);
  }

  lemma StackSame(s: Snap, t: Snap)
    requires s.buf == t.buf && s.ptr == t.ptr
    ensures Stack(s) == Stack(t)
  {
  }

  lemma PushGood(s: Snap, x: int, forward: set<int>, resolved: multiset<int>)
    requires Good(s, forward, resolved) && (x < 0 ==> -x - 1 <= |s.code|)
    ensures InBuffer(s) && Good(Push(s, x), forward, resolved)
  {
    hide UnderWay, Buffered, LocalsOk, NamesCalls, Stack, PushBuf;
    BufferedPtr(s);
    BufferedPush(s, x);
    StackRearranged(s.code, Stack(s), Stack(Push(s, x)), s.jumpToLast, |s.locals|, forward, resolved);
  }

  lemma AgainGood(s: Snap, kind: JumpKind, forward: set<int>, resolved: multiset<int>)
    requires Good(s, forward, resolved) && Step(s, DoAgain(kind)).Some?
    ensures Good(Step(s, DoAgain(kind)).value, forward, resolved)
  {
    hide UnderWay, Buffered, LocalsOk, NamesCalls, Stack;
    var t, d := s.(ptr := s.ptr - 1), -s.buf[s.ptr] - 1;
    BufferedPop(s);
    BackwardAdded(s.code, Stack(t), s.jumpToLast, |s.locals|, forward, resolved, kind, d);
    BufferedEmit(t, Jump(kind, Some(d - |s.code| - 1)), None);
    NamesEmit(t, Jump(kind, Some(d - |s.code| - 1)), None);
  }

  lemma RollGood(s: Snap, k: int, forward: set<int>, resolved: multiset<int>)
    requires Good(s, forward, resolved) && 0 <= k <= s.ptr < |s.buf|
    ensures var t := s.(buf := RollBuf(s.buf, k, s.ptr)); Good(t, forward, resolved) && Stack(t) == Roll(Stack(s), k)
  {
    hide UnderWay, LocalsOk, NamesCalls;
    var t := s.(buf := RollBuf(s.buf, k, s.ptr));
    RollKeeps(Stack(s), k);
    RollStack(s, k);
    hide Roll, DestsInside, Stack;
    StackRearranged(s.code, Stack(s), Stack(t), s.jumpToLast, |s.locals|, forward, resolved);
  }

  lemma RollStack(s: Snap, k: int)
    requires 0 <= k <= s.ptr < |s.buf| && DestsInside(s.buf, |s.code|)
    ensures var t := s.(buf := RollBuf(s.buf, k, s.ptr));
            |t.buf| == |s.buf| && Stack(t) == Roll(Stack(s), k) && DestsInside(t.buf, |s.code|)
  {
    var buf := RollBuf(s.buf, k, s.ptr);
    forall i | 0 <= i < |buf|
      ensures buf[i] == s.buf[if k <= i < s.ptr then i + 1 else if i == s.ptr then k else i]
    {
    }
  }

  /** The calls that add no jump. */
  lemma PlainGood(s: Snap, c: Cmd, forward: set<int>, resolved: multiset<int>)
    requires Good(s, forward, resolved) && Step(s, c).Some?
    requires c.DoLiteral? || c.DoCall? || c.DoCallExt? || c.DoLocal? || c.DoRet?
    ensures Good(Step(s, c).value, forward, resolved)
  {
    hide Good, Emit, CallOp, InBuffer;
    match c {
      case DoLiteral(v) => EmitGood(s, Const(v), None, forward, resolved);
      case DoCall(target) => CallGood(s, target, forward, resolved);
      case DoCallExt(t) => EmitGood(s, Op.Call(t), None, forward, resolved);
      case DoLocal(name) => LocalGood(s, name, forward, resolved);
      case _ => EmitGood(s, Op.Ret, None, forward, resolved);
    }
  }

  /** The calls on the control-flow stack that resolve and open nothing. */
  lemma FlowGood(s: Snap, c: Cmd, forward: set<int>, resolved: multiset<int>)
    requires Good(s, forward, resolved) && Step(s, c).Some? && (c.DoBegin? || c.DoAgain? || c.DoRoll? || c.DoPick?)
    ensures Good(Step(s, c).value, forward, resolved)
  {
    hide Good, RollBuf, Emit, Push;
    match c {
      case DoBegin => PushGood(s, -|s.code| - 1, forward, resolved);
      case DoAgain(kind) => AgainGood(s, kind, forward, resolved);
      case DoRoll(depth) => RollGood(s, s.ptr - depth, forward, resolved);
      case DoPick(depth) =>
        PickInside(s, depth, forward, resolved);
        PushGood(s, s.buf[s.ptr - depth], forward, resolved);
    }
  }

  /** Every successful builder call keeps the state good; `forward` and `resolved` grow by what it opens and
      resolves. */
  lemma StepGood(s: Snap, c: Cmd, forward: set<int>, resolved: multiset<int>)
    requires Good(s, forward, resolved) && Step(s, c).Some?
    ensures Good(Step(s, c).value, forward + Opened(s, c), resolved + Closed(s, c))
  {
    hide Good, Emit, Push;
    if c.DoAhead? {
      AheadGood(s, c.kind, forward, resolved);
      assert resolved + multiset{} == resolved;
    } else if c.DoThen? {
      ThenGood(s, forward, resolved);
      assert forward + {} == forward;
    } else {
      assert forward + {} == forward && resolved + multiset{} == resolved;
      hide Step;
      if c.DoBegin? || c.DoAgain? || c.DoRoll? || c.DoPick? {
        FlowGood(s, c, forward, resolved);
      } else {
        PlainGood(s, c, forward, resolved);
      }
    }
  }

  lemma PickInside(s: Snap, depth: int, forward: set<int>, resolved: multiset<int>)
    requires Good(s, forward, resolved) && 0 <= s.ptr - depth < |s.buf|
    ensures s.buf[s.ptr - depth] < 0 ==> -s.buf[s.ptr - depth] - 1 <= |s.code|
  {
    hide UnderWay, LocalsOk, NamesCalls;
  }

  /** From a good state an empty control-flow stack is all that Build needs. The word is well formed, and every
      forward jump was resolved exactly once. */
  lemma FinishGood(s: Snap, forward: set<int>, resolved: multiset<int>)
    requires Good(s, forward, resolved)
    ensures Finish(s).Some? <==> Stack(s) == []
    ensures Finish(s).Some? ==>
              && WellFormedCode(Finish(s).value.numLocals, Finish(s).value.code)
              && NamesCalls(Finish(s).value.code, Finish(s).value.toResolve)
              && (forall x :: x in forward ==> resolved[x] == 1)
  {
    NotEmpty(s.code, Stack(s), s.jumpToLast, |s.locals|, forward, resolved);
    EmptyStack(s);
    hide UnderWay, WellFormedCode, NamesCalls, LocalsOk, Stack, Buffered;
    if Finish(s).Some? {
      var last := s.jumpToLast || s.code[|s.code| - 1].MayFallThrough();
      if last {
        EmitGood(s, Op.Ret, None, forward, resolved);
        BufferedEmit(s, Op.Ret, None);
      }
      var t := if last then Emit(s, Op.Ret, None) else s;
      Complete(t.code, |t.locals|, forward, resolved);
    }
  }

  lemma EmptyStack(s: Snap)
    requires Buffered(s)
    ensures Stack(s) == [] <==> s.ptr == -1
  {
    hide DestsInside;
  }

  lemma NotEmpty(code: seq<Op>, cf: seq<int>, j: bool, n: nat, forward: set<int>, resolved: multiset<int>)
    requires UnderWay(code, cf, j, n, forward, resolved)
    ensures j || code != []
  {
  }

  // ----- Whole definitions -----

  /** All the forward jumps a definition opens, and all those it resolves. */
  function AllOpened(s: Snap, cmds: seq<Cmd>): set<int> {
    if cmds == [] then {}
    else
      match RunCmds(s, cmds[..|cmds| - 1])
      case None => {}
      case Some(t) => AllOpened(s, cmds[..|cmds| - 1]) + Opened(t, cmds[|cmds| - 1])
  }

  function AllClosed(s: Snap, cmds: seq<Cmd>): multiset<int> {
    if cmds == [] then multiset{}
    else
      match RunCmds(s, cmds[..|cmds| - 1])
      case None => multiset{}
      case Some(t) => AllClosed(s, cmds[..|cmds| - 1]) + Closed(t, cmds[|cmds| - 1])
  }

  lemma {:induction false} RunGood(cmds: seq<Cmd>)
    requires RunCmds(Empty(), cmds).Some?
    ensures Good(RunCmds(Empty(), cmds).value, AllOpened(Empty(), cmds), AllClosed(Empty(), cmds))
    decreases |cmds|
  {
    hide Good, Step, Opened, Closed, Empty;
    if cmds == [] {
      EmptyGood();
    } else {
      var front := cmds[..|cmds| - 1];
      RunGood(front);
      var t := RunCmds(Empty(), front).value;
      StepGood(t, cmds[|cmds| - 1], AllOpened(Empty(), front), AllClosed(Empty(), front));
    }
  }

  /** The word a definition makes, if it makes one. */
  function Word(cmds: seq<Cmd>): Option<Built> {
    match RunCmds(Empty(), cmds)
    case None => None
    case Some(s) => Finish(s)
  }

  /** Any sequence of builder calls, whatever it does to the control-flow stack: it makes a word exactly when no
      call fails and the control-flow stack ends empty; then every jump of the word lands on one of its opcodes,
      its last opcode never falls through, its locals exist, and each forward jump was resolved exactly once. */
  lemma AnyDefinition(cmds: seq<Cmd>)
    ensures Word(cmds).Some? <==> RunCmds(Empty(), cmds).Some? && Stack(RunCmds(Empty(), cmds).value) == []
    ensures Word(cmds).Some? ==>
              && WellFormedCode(Word(cmds).value.numLocals, Word(cmds).value.code)
              && NamesCalls(Word(cmds).value.code, Word(cmds).value.toResolve)
              && (forall x :: x in AllOpened(Empty(), cmds) ==> AllClosed(Empty(), cmds)[x] == 1)
  {
    hide Good, RunCmds, Finish, Stack, Empty, WellFormedCode, NamesCalls, AllOpened, AllClosed;
    if RunCmds(Empty(), cmds).Some? {
      RunGood(cmds);
      FinishGood(RunCmds(Empty(), cmds).value, AllOpened(Empty(), cmds), AllClosed(Empty(), cmds));
    }
  }

  // ----- The class -----

  class WordBuilder {
    var cfStack: array<int>
    var cfPtr: int
    var code: seq<Op>
    var toResolve: seq<Option<string>>
    var locals: map<string, nat>
    var jumpToLast: bool

    ghost function Snapshot(): Snap
      reads this, cfStack
    {
      Snap(code, toResolve, locals, jumpToLast, cfStack[..], cfPtr)
    }

    /** The entries of the control-flow stack, top last. */
    ghost function CF(): seq<int>
      reads this, cfStack
    {
      Stack(Snapshot())
    }

    ghost predicate Valid()
      reads this, cfStack
    {
      cfStack.Length > 0 && -1 <= cfPtr < cfStack.Length
    }

    /** The builder is as the call leaves it: the exception, or the state after it. */
    ghost predicate Did(s: Snap, c: Cmd, ok: bool)
      reads this, cfStack
    {
      match Step(s, c)
      case None => !ok
      case Some(t) => ok && Snapshot() == t && Valid()
    }

    constructor ()
      ensures Valid() && fresh(cfStack) && Snapshot() == Empty() && cfStack.Length == 16 && CF() == []
    {
      cfStack := new int[16](_ => 0);
      cfPtr := -1;
      code, toResolve, locals, jumpToLast := [], [], map[], true;
      new;
      assert cfStack[..] == seq(16, _ => 0);
    }

    // ----- Control-flow stack -----

    method CSPush(x: int)
      requires Valid()
      modifies this`cfStack, this`cfPtr, cfStack
      ensures Valid() && (cfStack == old(cfStack) || fresh(cfStack))
      ensures Snapshot() == Push(old(Snapshot()), x) && CF() == old(CF()) + [x]
      ensures cfStack.Length == old(if |CF()| == cfStack.Length then 2 * cfStack.Length else cfStack.Length)
    {
      var len := cfStack.Length;
      ghost var was := cfStack[..];
      cfPtr := cfPtr + 1;
      if cfPtr == len {
        var ncf := new int[len * 2](_ => 0);
        forall i | 0 <= i < len {
          ncf[i] := cfStack[i];
        }
        cfStack := ncf;
        assert cfStack[..] == was + seq(len, _ => 0);
      }
      cfStack[cfPtr] := x;
    }

    /** Fails on an empty stack. */
    method CSPop() returns (r: Option<int>)
      requires Valid()
      modifies this`cfPtr
      ensures Valid()
      ensures r.None? <==> old(CF()) == []
      ensures r.None? ==> cfPtr == old(cfPtr) == -1
      ensures r.Some? ==> old(CF()) == CF() + [r.value] && cfPtr == old(cfPtr) - 1 && r.value == cfStack[old(cfPtr)]
    {
      if cfPtr < 0 {
        return None;
      }
      cfPtr := cfPtr - 1;
      r := Some(cfStack[cfPtr + 1]);
    }

    /** Succeeds exactly for a depth inside the stack; the entry at that depth moves to the top. */
    method CSRoll(depth: int) returns (ok: bool)
      requires Valid()
      modifies cfStack
      ensures Did(old(Snapshot()), DoRoll(depth), ok)
      ensures ok <==> 0 <= depth < |old(CF())|
      ensures ok ==> CF() == Roll(old(CF()), |old(CF())| - 1 - depth)
      ensures ok ==>
                var s := old(CF()); var k := |s| - 1 - depth;
                CF() == s[..k] + s[k + 1..] + [s[k]]
    {
      hide RollBuf;
      if !(0 <= cfPtr - depth < cfStack.Length) || depth < 0 {
        return false;
      }
      MoveToTop(cfStack, cfPtr - depth, cfPtr);
      return true;
    }

    /** Pushes a copy of the entry at a depth; a negative depth that stays in the buffer picks an entry already
        popped. */
    method CSPick(depth: int) returns (ok: bool)
      requires Valid()
      modifies this`cfStack, this`cfPtr, cfStack
      ensures (cfStack == old(cfStack) || fresh(cfStack)) && Did(old(Snapshot()), DoPick(depth), ok)
      ensures ok <==> 0 <= old(cfPtr) - depth < old(cfStack.Length)
      ensures ok ==> CF() == old(CF()) + [old(cfStack[cfPtr - depth])]
    {
      if !(0 <= cfPtr - depth < cfStack.Length) {
        return false;
      }
      CSPush(cfStack[cfPtr - depth]);
      return true;
    }

    // ----- Opcodes -----

    method Add(op: Op, refName: Option<string>)
      requires Valid()
      modifies this`code, this`toResolve, this`jumpToLast
      ensures Valid() && Snapshot() == Emit(old(Snapshot()), op, refName)
    {
      code := code + [op];
      toResolve := toResolve + [refName];
      jumpToLast := false;
    }

    method Literal(v: i32)
      requires Valid()
      modifies this`code, this`toResolve, this`jumpToLast
      ensures Did(old(Snapshot()), DoLiteral(v), true)
      ensures code == old(code) + [Const(v)] && toResolve == old(toResolve) + [None] && !jumpToLast
    {
      Add(Const(v), None);
    }

    /** Call by name: a local is read, or written after `>`; anything else is a call to resolve later. */
    method Call(target: string)
      requires Valid()
      modifies this`code, this`toResolve, this`jumpToLast
      ensures Did(old(Snapshot()), DoCall(target), true)
      ensures var write := |target| > 0 && target[0] == '>';
              var lname := if write then target[1..] else target;
              if lname in locals
              then code == old(code) + [if write then PutLocal(locals[lname]) else GetLocal(locals[lname])]
                   && toResolve == old(toResolve) + [None]
              else code == old(code) + [Op.Call(0)] && toResolve == old(toResolve) + [Some(target)]
    {
      var write := |target| > 0 && target[0] == '>';
      var lname := if write then target[1..] else target;
      if lname in locals {
        if write {
          Add(PutLocal(locals[lname]), None);
        } else {
          Add(GetLocal(locals[lname]), None);
        }
      } else {
        Add(Op.Call(0), Some(target));
      }
    }

    /** Call of a known word. */
    method CallExt(t: nat)
      requires Valid()
      modifies this`code, this`toResolve, this`jumpToLast
      ensures Did(old(Snapshot()), DoCallExt(t), true)
      ensures code == old(code) + [Op.Call(t)] && toResolve == old(toResolve) + [None] && !jumpToLast
    {
      Add(Op.Call(t), None);
    }

    /** Defines a local under the next free number; fails if the name is taken. */
    method DefLocal(lname: string) returns (ok: bool)
      requires Valid()
      modifies this`locals
      ensures Did(old(Snapshot()), DoLocal(lname), ok)
      ensures ok <==> lname !in old(locals)
      ensures ok ==> locals == old(locals)[lname := |old(locals)|]
    {
      if lname in locals {
        return false;
      }
      locals := locals[lname := |locals|];
      return true;
    }

    method Ret()
      requires Valid()
      modifies this`code, this`toResolve, this`jumpToLast
      ensures Did(old(Snapshot()), DoRet, true)
      ensures code == old(code) + [Op.Ret] && toResolve == old(toResolve) + [None] && !jumpToLast
    {
      Add(Op.Ret, None);
    }

    // ----- Jumps -----

    /** Ahead, AheadIf and AheadIfNot: an unresolved jump, whose offset is pushed as an origin. */
    method AheadOf(kind: JumpKind)
      requires Valid()
      modifies this, cfStack
      ensures (cfStack == old(cfStack) || fresh(cfStack)) && Did(old(Snapshot()), DoAhead(kind), true)
      ensures code == old(code) + [Jump(kind, None)] && CF() == old(CF()) + [|old(code)|]
    {
      CSPush(|code|);
      Add(Jump(kind, None), None);
    }

    /** Resolves the forward jump on top of the stack to the current end of the code. It succeeds exactly when the
        top is the origin of a jump that is still unresolved. */
    method Then() returns (ok: bool)
      requires Valid()
      modifies this`cfPtr, this`code, this`jumpToLast
      ensures Did(old(Snapshot()), DoThen, ok)
      ensures ok <==> old(CF()) != [] && Unresolved(old(code), old(CF())[|old(CF())| - 1])
      ensures ok ==>
                var x := old(CF())[|old(CF())| - 1];
                && old(CF()) == CF() + [x] && jumpToLast
                && code == old(code)[x := old(code)[x].(disp := Some(|old(code)| - x - 1))]
    {
      var top := CSPop();
      if top.None? || top.value < 0 || top.value >= |code| || !code[top.value].Jump? || code[top.value].disp.Some? {
        return false;
      }
      var x := top.value;
      code := code[x := code[x].(disp := Some(|code| - x - 1))];
      jumpToLast := true;
      return true;
    }

    /** Pushes the current end of the code as a destination. */
    method Begin()
      requires Valid()
      modifies this`cfStack, this`cfPtr, cfStack
      ensures (cfStack == old(cfStack) || fresh(cfStack)) && Did(old(Snapshot()), DoBegin, true)
      ensures CF() == old(CF()) + [-|code| - 1]
    {
      CSPush(-|code| - 1);
    }

    /** Again, AgainIf and AgainIfNot: a jump back to the destination on top of the stack; fails on anything else. */
    method AgainOf(kind: JumpKind) returns (ok: bool)
      requires Valid()
      modifies this`cfPtr, this`code, this`toResolve, this`jumpToLast
      ensures Did(old(Snapshot()), DoAgain(kind), ok)
      ensures ok <==> old(CF()) != [] && old(CF())[|old(CF())| - 1] < 0
      ensures ok ==>
                var d := -old(CF())[|old(CF())| - 1] - 1;
                && old(CF()) == CF() + [-d - 1] && code == old(code) + [Jump(kind, Some(d - |old(code)| - 1))]
    {
      var top := CSPop();
      if top.None? || top.value >= 0 {
        return false;
      }
      var x := -top.value - 1;
      Add(Jump(kind, Some(x - |code| - 1)), None);
      return true;
    }

    /** Fails unless the control-flow stack is empty; a return is appended if the end can be reached. (Without
        opcodes the end can always be reached in the states builder calls lead to; otherwise the code list would be
        indexed at -1.) */
    method Build() returns (r: Option<Built>)
      requires Valid()
      modifies this`code, this`toResolve, this`jumpToLast
      ensures r == Finish(old(Snapshot()))
      ensures r.Some? <==> old(CF()) == [] && old(jumpToLast || code != [])
      ensures r.Some? ==>
                var open := old(jumpToLast || code[|code| - 1].MayFallThrough());
                && r.value.numLocals == |locals|
                && r.value.code == (if open then old(code) + [Op.Ret] else old(code))
                && r.value.toResolve == (if open then old(toResolve) + [None] else old(toResolve))
      ensures r.Some? ==> r.value.code != [] && !r.value.code[|r.value.code| - 1].MayFallThrough()
    {
      if cfPtr != -1 || (!jumpToLast && |code| == 0) {
        return None;
      }
      if jumpToLast || code[|code| - 1].MayFallThrough() {
        Ret();
      }
      r := Some(Built(|locals|, code, toResolve));
    }
  }

  /** The copy that CSRoll makes inside the buffer. */
  method MoveToTop(a: array<int>, k: nat, top: nat)
    requires k <= top < a.Length
    modifies a
    ensures a[..] == RollBuf(old(a[..]), k, top) && a[..top + 1] == Roll(old(a[..top + 1]), k)
  {
    hide Roll;
    ghost var s := a[..top + 1];
    var x := a[k];
    forall i | k <= i < top {
      a[i] := a[i + 1];
    }
    a[top] := x;
    RollIs(s, a[..top + 1], k);
    assert a[..] == a[..top + 1] + a[top + 1..];
    assert old(a[..])[..top + 1] == s && old(a[..])[top + 1..] == a[top + 1..];
  }

  method Perform(b: WordBuilder, c: Cmd) returns (ok: bool)
    requires b.Valid()
    modifies b, b.cfStack
    ensures (b.cfStack == old(b.cfStack) || fresh(b.cfStack)) && b.Did(old(b.Snapshot()), c, ok)
  {
    hide Step;
    ok := true;
    match c {
      case DoLiteral(v) => b.Literal(v);
      case DoCall(target) => b.Call(target);
      case DoCallExt(t) => b.CallExt(t);
      case DoLocal(name) => ok := b.DefLocal(name);
      case DoRet => b.Ret();
      case DoAhead(kind) => b.AheadOf(kind);
      case DoThen => ok := b.Then();
      case DoBegin => b.Begin();
      case DoAgain(kind) => ok := b.AgainOf(kind);
      case DoRoll(depth) => ok := b.CSRoll(depth);
      case DoPick(depth) => ok := b.CSPick(depth);
    }
  }

  /** A whole definition on the object: the word AnyDefinition speaks about. */
  method Define(cmds: seq<Cmd>) returns (r: Option<Built>)
    ensures r == Word(cmds)
    ensures r.Some? <==> RunCmds(Empty(), cmds).Some? && Stack(RunCmds(Empty(), cmds).value) == []
    ensures r.Some? ==>
              && WellFormedCode(r.value.numLocals, r.value.code) && NamesCalls(r.value.code, r.value.toResolve)
              && (forall x :: x in AllOpened(Empty(), cmds) ==> AllClosed(Empty(), cmds)[x] == 1)
  {
    AnyDefinition(cmds);
    hide Step, Good, Finish, Stack, Empty, WellFormedCode, NamesCalls, AllOpened, AllClosed;
    var b := new WordBuilder();
    for i := 0 to |cmds|
      invariant b.Valid() && fresh(b) && fresh(b.cfStack) && RunCmds(Empty(), cmds[..i]) == Some(b.Snapshot())
    {
      assert cmds[..i + 1][..i] == cmds[..i];
      var ok := Perform(b, cmds[i]);
      if !ok {
        RunStops(Empty(), cmds, i + 1);
        return None;
      }
    }
    assert cmds[..|cmds|] == cmds;
    r := b.Build();
  }

  /** After a call that fails there is nothing more. */
  lemma {:induction false} RunStops(s: Snap, cmds: seq<Cmd>, k: nat)
    requires k <= |cmds| && RunCmds(s, cmds[..k]).None?
    ensures RunCmds(s, cmds).None?
    decreases |cmds|
  {
    hide Step;
    if k == |cmds| {
      assert cmds[..k] == cmds;
    } else {
      assert cmds[..|cmds| - 1][..k] == cmds[..k];
      RunStops(s, cmds[..|cmds| - 1], k);
    }
  }

  lemma {:induction false} RunConcat(s: Snap, a: seq<Cmd>, b: seq<Cmd>)
    requires RunCmds(s, a).Some?
    ensures RunCmds(s, a + b) == RunCmds(RunCmds(s, a).value, b)
    decreases |b|
  {
    hide Step;
    if b == [] {
      assert a + b == a;
    } else {
      assert (a + b)[..|a + b| - 1] == a + b[..|b| - 1];
      RunConcat(s, a, b[..|b| - 1]);
    }
  }

  /** The calls lead from `s` to `t`, restore the control-flow stack and only add code. */
  ghost predicate Encloses(s: Snap, cmds: seq<Cmd>, t: Snap) {
    RunCmds(s, cmds) == Some(t) && Stack(t) == Stack(s) && s.code <= t.code && InBuffer(s) && InBuffer(t)
  }

  /** The branches of a conditional: `opened` after the first forward jump, `closed` after `else`. */
  function Opening(s: Snap): Snap
    requires InBuffer(s)
  {
    Emit(Push(s, |s.code|), Jump(IfFalse, None), None)
  }

  /** `else` of kern.t0, `ahead 1 cs-roll then`: an unconditional jump over what follows, and the first jump
      resolved to it. */
  const ELSE: seq<Cmd> := [DoAhead(Always), DoRoll(1), DoThen]

  /** `if A else B then` of kern.t0, for any builder calls A and B that restore the control-flow stack and only add
      code (A the opcodes `thn`, B the opcodes `els`): the first jump skips A and the second jump and lands on B,
      the second one skips B, and the control-flow stack is as before. */
  lemma IfElse(s: Snap, a: seq<Cmd>, t: Snap, u: Snap, b: seq<Cmd>, v: Snap)
    requires InBuffer(s) && Encloses(Opening(s), a, t)
    requires RunCmds(t, ELSE) == Some(u) && Encloses(u, b, v)
    ensures |s.code| < |t.code| < |v.code|
    ensures var thn, els := t.code[|s.code| + 1..], v.code[|t.code| + 1..];
            var w := RunCmds(s, [DoAhead(IfFalse)] + a + ELSE + b + [DoThen]);
            && w.Some? && Stack(w.value) == Stack(s) && w.value.jumpToLast && w.value.locals == v.locals
            && w.value.code == s.code + [Jump(IfFalse, Some(|thn| + 1))] + thn + [Jump(Always, Some(|els|))] + els
  {
    hide Step, RunCmds, Encloses, Stack, PushBuf;
    var first := [DoAhead(IfFalse)];
    IfOpens(s);
    EnclosesRun(Opening(s), a, t);
    EnclosesRun(u, b, v);
    RunConcat(s, first, a);
    RunConcat(s, first + a, ELSE);
    RunConcat(s, first + a + ELSE, b);
    RunConcat(s, first + a + ELSE + b, [DoThen]);
    ElseMiddle(s, a, t, u);
    IfCloses(s, t, u, b, v);
  }

  lemma IfOpens(s: Snap)
    requires InBuffer(s)
    ensures RunCmds(s, [DoAhead(IfFalse)]) == Some(Opening(s)) && Stack(Opening(s)) == Stack(s) + [|s.code|]
    ensures Opening(s).code == s.code + [Jump(IfFalse, None)]
  {
    hide PushBuf, Stack;
    PushStack(s, |s.code|);
    RunOne(s, DoAhead(IfFalse));
    StackSame(Push(s, |s.code|), Opening(s));
  }

  lemma RunOne(s: Snap, c: Cmd)
    ensures RunCmds(s, [c]) == Step(s, c)
  {
    hide Step;
    assert [c][..0] == [];
    assert RunCmds(s, []) == Some(s);
  }

  lemma EnclosesRun(s: Snap, cmds: seq<Cmd>, t: Snap)
    requires Encloses(s, cmds, t)
    ensures RunCmds(s, cmds) == Some(t)
  {
  }

  lemma RunThree(s: Snap, c: Cmd, d: Cmd, e: Cmd)
    ensures RunCmds(s, [c, d, e]) ==
            match Step(s, c)
            case None => None
            case Some(t) => (match Step(t, d) case None => None case Some(u) => Step(u, e))
  {
    hide Step;
    var cmds := [c, d, e];
    assert cmds[..2] == [c, d] && [c, d][..1] == [c] && [c][..0] == [];
    assert RunCmds(s, []) == Some(s);
    assert RunCmds(s, [c]) == Step(s, c);
  }

  /** What `else` does, from a stack with the origin of an unresolved jump on top. */
  lemma ElseIs(t: Snap, u: Snap, below: seq<int>, x: int)
    requires InBuffer(t) && Stack(t) == below + [x] && x < |t.code| && RunCmds(t, ELSE) == Some(u)
    ensures Stack(u) == below + [|t.code|] && InBuffer(u) && Unresolved(t.code, x)
    ensures u.code == t.code[x := t.code[x].(disp := Some(|t.code| - x))] + [Jump(Always, None)]
  {
    hide PushBuf, RollBuf, RunCmds, Stack;
    RunThree(t, DoAhead(Always), DoRoll(1), DoThen);
    var p := Emit(Push(t, |t.code|), Jump(Always, None), None);
    PushStack(t, |t.code|);
    StackSame(Push(t, |t.code|), p);
    StackSize(p);
    assert Step(t, DoAhead(Always)) == Some(p);
    var q := p.(buf := RollBuf(p.buf, p.ptr - 1, p.ptr));
    assert Step(p, DoRoll(1)) == Some(q);
    RolledTop(p, q, below, x, |t.code|);
    assert Step(q, DoThen) == Some(u);
    PoppedStack(q, u, below + [|t.code|], x);
  }

  lemma StackSize(s: Snap)
    requires InBuffer(s)
    ensures |Stack(s)| == s.ptr + 1
  {
  }

  lemma PoppedStack(s: Snap, t: Snap, below: seq<int>, x: int)
    requires InBuffer(s) && Stack(s) == below + [x] && t.buf == s.buf && t.ptr == s.ptr - 1
    ensures s.ptr >= 0 && s.buf[s.ptr] == x && Stack(t) == below && InBuffer(t)
  {
    assert s.buf[..s.ptr + 1] == below + [x];
    assert t.buf[..t.ptr + 1] == below;
  }

  lemma RolledTop(p: Snap, q: Snap, below: seq<int>, x: int, y: int)
    requires 1 <= p.ptr < |p.buf| && Stack(p) == below + [x] + [y] && q == p.(buf := RollBuf(p.buf, p.ptr - 1, p.ptr))
    ensures |q.buf| == |p.buf| && Stack(q) == below + [y] + [x] && q.buf[q.ptr] == x
  {
    assert p.buf[..p.ptr + 1] == below + [x] + [y];
    assert Roll(below + [x] + [y], p.ptr - 1) == below + [y] + [x];
  }

  lemma ElseMiddle(s: Snap, a: seq<Cmd>, t: Snap, u: Snap)
    requires InBuffer(s) && Encloses(Opening(s), a, t) && RunCmds(t, ELSE) == Some(u)
    ensures |s.code| < |t.code| && s.code + [Jump(IfFalse, None)] <= t.code
    ensures Stack(u) == Stack(s) + [|t.code|] && InBuffer(u)
    ensures u.code
          == s.code + [Jump(IfFalse, Some(|t.code| - |s.code|))] + t.code[|s.code| + 1..] + [Jump(Always, None)]
  {
    hide RunCmds, Stack, PushBuf, Step, Opening;
    IfOpens(s);
    PrefixSplit(s.code, Jump(IfFalse, None), t.code);
    ElseIs(t, u, Stack(s), |s.code|);
  }

  lemma PrefixSplit(code: seq<Op>, op: Op, longer: seq<Op>)
    requires code + [op] <= longer
    ensures |code| < |longer| && longer[|code|] == op && longer[..|code|] == code
    ensures forall p: Op :: longer[|code| := p] == code + [p] + longer[|code| + 1..]
  {
    assert longer[|code|] == (code + [op])[|code|];
    assert longer[..|code|] == (code + [op])[..|code|];
  }

  /** The last `then`, from a stack with the origin of the second jump on top. */
  lemma ThenIs(v: Snap, below: seq<int>, x: int)
    requires InBuffer(v) && Stack(v) == below + [x] && Unresolved(v.code, x)
    ensures RunCmds(v, [DoThen]).Some? && Stack(RunCmds(v, [DoThen]).value) == below
    ensures RunCmds(v, [DoThen]).value.jumpToLast && RunCmds(v, [DoThen]).value.locals == v.locals
    ensures RunCmds(v, [DoThen]).value.code == v.code[x := v.code[x].(disp := Some(|v.code| - x - 1))]
  {
    hide RunCmds, Stack;
    RunOne(v, DoThen);
    PoppedStack(v, v.(ptr := v.ptr - 1), below, x);
    StackSame(v.(ptr := v.ptr - 1), Step(v, DoThen).value);
  }

  lemma IfCloses(s: Snap, t: Snap, u: Snap, b: seq<Cmd>, v: Snap)
    requires Encloses(u, b, v) && |s.code| < |t.code| && Stack(u) == Stack(s) + [|t.code|]
    requires u.code
          == s.code + [Jump(IfFalse, Some(|t.code| - |s.code|))] + t.code[|s.code| + 1..] + [Jump(Always, None)]
    ensures |u.code| == |t.code| + 1 <= |v.code|
    ensures var thn, els := t.code[|s.code| + 1..], v.code[|t.code| + 1..];
            var w := RunCmds(v, [DoThen]);
            && w.Some? && Stack(w.value) == Stack(s) && w.value.jumpToLast && w.value.locals == v.locals
            && w.value.code == s.code + [Jump(IfFalse, Some(|thn| + 1))] + thn + [Jump(Always, Some(|els|))] + els
  {
    hide RunCmds, Stack, Step;
    var x := |t.code|;
    assert v.code[x] == u.code[x] == Jump(Always, None);
    ThenIs(v, Stack(s), x);
    var els := v.code[x + 1..];
    assert v.code[..x + 1] == u.code;
    assert u.code[..x] == s.code + [Jump(IfFalse, Some(x - |s.code|))] + t.code[|s.code| + 1..];
    assert v.code == u.code[..x] + [v.code[x]] + els;
  }

  /** WordInterpreted.Resolve: the calls by name get their targets; it fails exactly when some name is unknown. */
  method Resolve(b: Built, words: map<string, nat>) returns (code: Option<seq<Op>>)
    requires NamesCalls(b.code, b.toResolve)
    ensures code.None? <==> exists i :: 0 <= i < |b.code| && b.toResolve[i].Some? && b.toResolve[i].value !in words
    ensures code.Some? ==>
              && |code.value| == |b.code|
              && forall i :: 0 <= i < |b.code| ==>
                   if b.toResolve[i].None? then code.value[i] == b.code[i]
                   else b.toResolve[i].value in words && code.value[i] == Op.Call(words[b.toResolve[i].value])
    ensures code.Some? ==> ResolvedTo(b, words, code.value)
  {
    var ops := b.code;
    for i := 0 to |b.toResolve|
      invariant |ops| == |b.code| && forall k :: 0 <= k < i && b.toResolve[k].Some? ==> b.toResolve[k].value in words
      invariant forall k :: 0 <= k < |ops| ==> ops[k] == if k < i then Target(b, words, k) else b.code[k]
    {
      var tt := b.toResolve[i];
      if tt.Some? {
        if tt.value !in words {
          return None;
        }
        ops := ops[i := Op.Call(words[tt.value])];
      }
    }
    code := Some(ops);
  }

  function Target(b: Built, words: map<string, nat>, k: int): Op
    requires |b.toResolve| == |b.code| && 0 <= k < |b.code|
  {
    var tt := b.toResolve[k];
    if tt.Some? && tt.value in words then Op.Call(words[tt.value]) else b.code[k]
  }

  ghost predicate ResolvedTo(b: Built, words: map<string, nat>, code: seq<Op>)
    requires |b.toResolve| == |b.code|
  {
    |code| == |b.code| && forall k :: 0 <= k < |code| ==> code[k] == Target(b, words, k)
  }

  /** A built word, once resolved against a table of `n` words, is one the compiler and the analysis accept. */
  lemma ResolvedWord(b: Built, words: map<string, nat>, code: seq<Op>, ws: seq<Word>)
    requires WellFormedCode(b.numLocals, b.code) && NamesCalls(b.code, b.toResolve) && ResolvedTo(b, words, code)
    requires forall s :: s in words ==> words[s] < |ws|
    requires forall i :: 0 <= i < |b.code| && b.toResolve[i].Some? ==> b.toResolve[i].value in words
    requires forall i :: 0 <= i < |b.code| && b.code[i].Call? && b.toResolve[i].None? ==> b.code[i].target < |ws|
    ensures WellFormedCode(b.numLocals, code) && CallsExist(ws, code)
  {
    forall i | 0 <= i < |code|
      ensures code[i] == b.code[i] || (code[i].Call? && b.code[i].Call?)
      ensures code[i].Call? ==> code[i].target < |ws|
    {
      assert code[i] == Target(b, words, i);
    }
  }
}
