/** Opcodes, stack effects and words of the T0 compiler. Words are named by their index in one table. */
module Code {
  import opened Machine32

  /** SType: items consumed and produced; `din < 0` is unknown, `dout < 0` with `din >= 0` never exits. */
  datatype SType = SType(din: int, dout: int) {
    predicate IsKnown() { din >= 0 }

    predicate NoExit() { din >= 0 && dout < 0 }

    predicate IsSubOf(s: SType) {
      IsKnown() && s.IsKnown() && din <= s.din
      && (NoExit() || (!s.NoExit() && din - dout == s.din - s.dout))
    }
  }

  const UNKNOWN := SType(-1, -1)

  /** What being a sub-effect means: on every stack that has the declared inputs the computed ones are there too, and
      a word that exits leaves that stack at the height the declaration promises. */
  lemma SubEffectIff(t: SType, s: SType)
    ensures t.IsSubOf(s) <==>
              && t.din >= 0 && s.din >= 0
              && forall ds: seq<u32> :: |ds| >= s.din ==>
                   && |ds| >= t.din
                   && (t.dout >= 0 ==> s.dout >= 0 && |ds| - t.din + t.dout == |ds| - s.din + s.dout)
  {
    if t.din >= 0 && s.din >= 0 {
      var ds: seq<u32> := seq(s.din, _ => 0);
      assert |ds| >= s.din;
    }
  }

  /** The SType constructor, which normalises negative counts. */
  function MakeSType(din: int, dout: int): SType {
    SType(if din < 0 then -1 else din, if dout < 0 then -1 else dout)
  }

  datatype JumpKind = Always | IfTrue | IfFalse

  /** A displacement of `None` is the unresolved marker of a forward jump. */
  datatype Op =
    | Call(target: nat)
    | Ret
    | Const(v: i32)
    | GetLocal(n: nat)
    | PutLocal(n: nat)
    | Jump(kind: JumpKind, disp: Option<int>)
  {
    predicate MayFallThrough() { !Ret? && (Jump? && kind.Always? ==> disp == Some(0)) }

    /** Items added to the stack; 0 for calls, whose effect is that of the word. */
    function StackAction(): int {
      match this
      case Const(_) => 1
      case GetLocal(_) => 1
      case PutLocal(_) => -1
      case Jump(IfTrue, _) => -1
      case Jump(IfFalse, _) => -1
      case _ => 0
    }

    /** A jump that goes somewhere else than the next opcode. */
    predicate Jumps() { Jump? && disp != Some(0) }
  }

  datatype Word =
    | Interpreted(numLocals: nat, code: seq<Op>, declared: SType)
    | Native(ccode: string, effect: SType)
    | Data(address: i32)

  /** What the word builder guarantees of a finished word. */
  ghost predicate WellFormedCode(numLocals: nat, code: seq<Op>) {
    && |code| > 0 && !code[|code| - 1].MayFallThrough()
    && (forall i :: 0 <= i < |code| ==>
          match code[i]
          case GetLocal(n) => n < numLocals
          case PutLocal(n) => n < numLocals
          case Jump(_, d) => d.Some? && 0 <= i + 1 + d.value < |code|
          case _ => true)
  }

  /** Every interpreted word is well formed and every call names a word of the table. */
  ghost predicate WellFormed(ws: seq<Word>) {
    forall w :: 0 <= w < |ws| && ws[w].Interpreted? ==>
      WellFormedCode(ws[w].numLocals, ws[w].code) && CallsExist(ws, ws[w].code)
  }

  ghost predicate CallsExist(ws: seq<Word>, code: seq<Op>) {
    forall i :: 0 <= i < |code| && code[i].Call? ==> code[i].target < |ws|
  }
}
