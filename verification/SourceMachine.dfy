/** The compile-time CPU over opcodes (CPU.cs and the Run methods of the opcodes). A stack cell is its 32-bit
    pattern. */
module SourceMachine {
  import opened Machine32
  import opened Code

  /** Meaning of the C snippets of native words: which data stack each may turn into which. */
  type Meaning = (string, seq<u32>, seq<u32>) -> bool

  /** A frame: where to return (None for the outermost one) and the locals; a local not written yet is None and
      reads 0. */
  datatype Frame = Frame(saved: Option<(nat, nat)>, locals: seq<Option<u32>>)

  /** Word and opcode offset being executed, data stack (top last) and frames (innermost last). */
  datatype CState = CState(w: nat, off: nat, ds: seq<u32>, frames: seq<Frame>)

  datatype COut = CGo(s: CState) | CNative(ccode: string, s: CState) | CHalt(ds: seq<u32>) | CStuck

  function NewLocals(n: nat): seq<Option<u32>> { seq(n, _ => None) }

  function Top(s: CState): Frame
    requires |s.frames| > 0
  {
    s.frames[|s.frames| - 1]
  }

  predicate Running(ws: seq<Word>, s: CState) {
    s.w < |ws| && ws[s.w].Interpreted? && s.off < |ws[s.w].code| && |s.frames| > 0
  }

  function CurrentOp(ws: seq<Word>, s: CState): Op
    requires Running(ws, s)
  {
    ws[s.w].code[s.off]
  }

  function Enter(s: CState, w: nat, numLocals: nat): CState {
    CState(w, 0, s.ds, s.frames + [Frame(Some((s.w, s.off)), NewLocals(numLocals))])
  }

  function JumpTo(s: CState, disp: Option<int>): COut {
    if disp.Some? && s.off + disp.value >= 0 then CGo(s.(off := s.off + disp.value)) else CStuck
  }

  /** One opcode, after the instruction pointer has moved past it. */
  function RunOp(ws: seq<Word>, op: Op, s: CState): COut
    requires |s.frames| > 0
  {
    var n := |s.ds|;
    match op
    case Const(v) => CGo(s.(ds := s.ds + [U32(v)]))
    case GetLocal(k) =>
      if k >= |Top(s).locals| then CStuck
      else CGo(s.(ds := s.ds + [match Top(s).locals[k] case None => 0 case Some(v) => v]))
    case PutLocal(k) =>
      if n == 0 || k >= |Top(s).locals| then CStuck
      else
        var f := Top(s).(locals := Top(s).locals[k := Some(s.ds[n - 1])]);
        CGo(s.(ds := s.ds[..n - 1], frames := s.frames[|s.frames| - 1 := f]))
    case Jump(Always, d) => JumpTo(s, d)
    case Jump(IfTrue, d) =>
      if n == 0 then CStuck
      else if s.ds[n - 1] != 0 then JumpTo(s.(ds := s.ds[..n - 1]), d) else CGo(s.(ds := s.ds[..n - 1]))
    case Jump(IfFalse, d) =>
      if n == 0 then CStuck
      else if s.ds[n - 1] == 0 then JumpTo(s.(ds := s.ds[..n - 1]), d) else CGo(s.(ds := s.ds[..n - 1]))
    case Ret =>
      (match Top(s).saved
       case None => CHalt(s.ds)
       case Some((w, off)) => CGo(CState(w, off, s.ds, s.frames[..|s.frames| - 1])))
    case Call(t) =>
      if t >= |ws| then CStuck
      else
        match ws[t]
        case Interpreted(numLocals, _, _) => CGo(Enter(s, t, numLocals))
        case Native(ccode, _) => CNative(ccode, s)
        case Data(address) => CGo(s.(ds := s.ds + [U32(address)]))
  }

  /** One step of the CPU loop. */
  function CNext(ws: seq<Word>, s: CState): COut {
    if Running(ws, s) then RunOp(ws, CurrentOp(ws, s), s.(off := s.off + 1)) else CStuck
  }

  predicate CStep(ws: seq<Word>, m: Meaning, s: CState, s': CState) {
    match CNext(ws, s)
    case CGo(x) => s' == x
    case CNative(ccode, x) => m(ccode, x.ds, s'.ds) && s' == x.(ds := s'.ds)
    case _ => false
  }

  ghost predicate CRun(ws: seq<Word>, m: Meaning, run: seq<CState>) {
    |run| > 0 && forall i :: 0 <= i < |run| - 1 ==> CStep(ws, m, run[i], run[i + 1])
  }

  /** Every prefix of a run is a run. */
  lemma RunPrefix(ws: seq<Word>, m: Meaning, run: seq<CState>, k: nat)
    requires CRun(ws, m, run) && 0 < k <= |run|
    ensures CRun(ws, m, run[..k])
  {
    hide CStep;
    forall i | 0 <= i < k - 1
      ensures CStep(ws, m, run[..k][i], run[..k][i + 1])
    {
      assert CStep(ws, m, run[i], run[i + 1]);
    }
  }

  /** A run with one more step is a run. */
  lemma RunExtend(ws: seq<Word>, m: Meaning, run: seq<CState>, s: CState)
    requires CRun(ws, m, run) && CStep(ws, m, run[|run| - 1], s)
    ensures CRun(ws, m, run + [s])
  {
    hide CStep;
    var longer := run + [s];
    forall i | 0 <= i < |longer| - 1
      ensures CStep(ws, m, longer[i], longer[i + 1])
    {
      if i < |run| - 1 { assert CStep(ws, m, run[i], run[i + 1]); }
    }
  }

  /** Entering word `w` from outside, with data stack `ds`. */
  function CEntry(ws: seq<Word>, w: nat, ds: seq<u32>): CState
    requires w < |ws| && ws[w].Interpreted?
  {
    CState(w, 0, ds, [Frame(None, NewLocals(ws[w].numLocals))])
  }

  /** How an opcode ends: the CPU goes on, hands over to a native word, leaves the outermost word, or fails. */
  datatype Status = Goes | RunsNative(ccode: string) | Halts | Fails

  /** The CPU object: its registers, its growing stack buffer and its frames. */
  class Cpu {
    var ipBuf: nat
    var ipOff: nat
    var stackBuf: array<u32>
    var stackPtr: int
    var frames: seq<Frame>

    ghost predicate Valid()
      reads this, stackBuf
    {
      stackBuf.Length >= 16 && -1 <= stackPtr < stackBuf.Length
    }

    ghost function Stack(): seq<u32>
      reads this, stackBuf
      requires Valid()
    {
      stackBuf[..stackPtr + 1]
    }

    ghost function State(): CState
      reads this, stackBuf
      requires Valid()
    {
      CState(ipBuf, ipOff, Stack(), frames)
    }

    constructor ()
      ensures Valid() && fresh(stackBuf) && Stack() == [] && frames == []
    {
      ipBuf, ipOff, frames := 0, 0, [];
      stackBuf := new u32[16];
      stackPtr := -1;
    }

    method Push(v: u32)
      requires Valid()
      modifies this`stackBuf, this`stackPtr, stackBuf
      ensures Valid() && (stackBuf == old(stackBuf) || fresh(stackBuf))
      ensures Stack() == old(Stack()) + [v]
    {
      var len := stackBuf.Length;
      stackPtr := stackPtr + 1;
      if stackPtr == len {
        var nbuf := new u32[len * 2];
        forall i | 0 <= i < len {
          nbuf[i] := stackBuf[i];
        }
        stackBuf := nbuf;
      }
      stackBuf[stackPtr] := v;
    }

    /** Popping an empty stack indexes the buffer at -1 and fails. */
    method Pop() returns (r: Option<u32>)
      requires Valid()
      modifies this`stackPtr
      ensures Valid()
      ensures old(Stack()) == [] ==> r.None? && Stack() == []
      ensures old(Stack()) != [] ==> r.Some? && old(Stack()) == Stack() + [r.value]
    {
      if stackPtr < 0 {
        return None;
      }
      stackPtr := stackPtr - 1;
      r := Some(stackBuf[stackPtr + 1]);
    }

    method EnterWord(w: nat, numLocals: nat)
      requires Valid()
      modifies this`ipBuf, this`ipOff, this`frames
      ensures Valid() && State() == Enter(old(State()), w, numLocals)
    {
      frames := frames + [Frame(Some((ipBuf, ipOff)), NewLocals(numLocals))];
      ipBuf, ipOff := w, 0;
    }

    /** The object is where the outcome `o` leads. */
    ghost predicate Follows(o: COut, r: Status)
      requires Valid()
      reads this, stackBuf
    {
      match o
      case CGo(x) => r == Goes && State() == x
      case CHalt(ds) => r == Halts && Stack() == ds
      case CStuck => r == Fails
      case CNative(ccode, x) => r == RunsNative(ccode) && State() == x
    }

    method TakeJump(disp: Option<int>) returns (r: Status)
      requires Valid()
      modifies this`ipOff
      ensures Valid() && Follows(JumpTo(old(State()), disp), r)
    {
      if disp.None? || ipOff + disp.value < 0 {
        return Fails;
      }
      ipOff := ipOff + disp.value;
      return Goes;
    }

    /** OpcodePutLocal. */
    method PutLocal(n: nat) returns (r: Status)
      requires Valid() && |frames| > 0
      modifies this`stackPtr, this`frames
      ensures Valid() && Follows(RunOp([], Op.PutLocal(n), old(State())), r)
    {
      var v := Pop();
      var f := frames[|frames| - 1];
      if v.None? || n >= |f.locals| {
        return Fails;
      }
      frames := frames[|frames| - 1 := f.(locals := f.locals[n := v])];
      return Goes;
    }

    /** OpcodeJumpUncond, OpcodeJumpIf and OpcodeJumpIfNot. */
    method Jump(kind: JumpKind, disp: Option<int>) returns (r: Status)
      requires Valid() && |frames| > 0
      modifies this`stackPtr, this`ipOff
      ensures Valid() && Follows(RunOp([], Op.Jump(kind, disp), old(State())), r)
    {
      if kind.Always? {
        r := TakeJump(disp);
        return;
      }
      ghost var s := State();
      var v := Pop();
      if v.None? {
        return Fails;
      }
      assert Stack() == s.ds[..|s.ds| - 1];
      if (v.value != 0) == kind.IfTrue? {
        r := TakeJump(disp);
        return;
      }
      return Goes;
    }

    /** OpcodeRet: CPU.Exit. */
    method Return() returns (r: Status)
      requires Valid() && |frames| > 0
      modifies this`ipBuf, this`ipOff, this`frames
      ensures Valid() && Follows(RunOp([], Op.Ret, old(State())), r)
    {
      match frames[|frames| - 1].saved {
        case None =>
          return Halts;
        case Some(at) =>
          ipBuf, ipOff := at.0, at.1;
          frames := frames[..|frames| - 1];
          return Goes;
      }
    }

    /** OpcodeCall: the Run method of the called word; a native word is left to the caller. */
    method Call(ws: seq<Word>, t: nat) returns (r: Status)
      requires Valid() && |frames| > 0
      modifies this, stackBuf
      ensures Valid() && (stackBuf == old(stackBuf) || fresh(stackBuf))
      ensures Follows(RunOp(ws, Op.Call(t), old(State())), r)
    {
      if t >= |ws| {
        return Fails;
      }
      match ws[t] {
        case Interpreted(numLocals, _, _) => EnterWord(t, numLocals);
        case Data(address) => Push(U32(address));
        case Native(ccode, _) => return RunsNative(ccode);
      }
      return Goes;
    }

    /** One opcode. */
    method Run(ws: seq<Word>, op: Op) returns (r: Status)
      requires Valid() && |frames| > 0
      modifies this, stackBuf
      ensures Valid() && (stackBuf == old(stackBuf) || fresh(stackBuf))
      ensures Follows(RunOp(ws, op, old(State())), r)
    {
      match op {
        case Const(v) =>
          Push(U32(v));
          return Goes;
        case GetLocal(n) =>
          var f := frames[|frames| - 1];
          if n >= |f.locals| {
            return Fails;
          }
          Push(match f.locals[n] case None => 0 case Some(v) => v);
          return Goes;
        case PutLocal(n) =>
          r := PutLocal(n);
        case Jump(kind, disp) =>
          r := Jump(kind, disp);
        case Ret =>
          r := Return();
        case Call(t) =>
          r := Call(ws, t);
      }
    }

    /** One turn of the CPU loop: fetch, move past the opcode, run it. */
    method Step(ws: seq<Word>) returns (r: Status)
      requires Valid()
      modifies this, stackBuf
      ensures Valid() && (stackBuf == old(stackBuf) || fresh(stackBuf))
      ensures Follows(CNext(ws, old(State())), r)
    {
      hide RunOp;
      if ipBuf >= |ws| || !ws[ipBuf].Interpreted? || ipOff >= |ws[ipBuf].code| || |frames| == 0 {
        return Fails;
      }
      var op := ws[ipBuf].code[ipOff];
      ghost var before := State();
      assert CurrentOp(ws, before) == op;
      ipOff := ipOff + 1;
      r := Run(ws, op);
    }
  }

  /** Return stack cells the frames stand for: the locals and one return address each. */
  function Used(fs: seq<Frame>): nat {
    if fs == [] then 0 else Used(fs[..|fs| - 1]) + 1 + |fs[|fs| - 1].locals|
  }
}
