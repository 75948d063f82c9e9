/** One small program taken all the way: the word of RunSafety that calls a native word like `dup`, its analysis, its
    image and its runs on both machines. The hypotheses of the run and compiler theorems hold of it. */
module Example {
  import opened Machine32
  import opened Digits
  import opened SevenE
  import opened Layout
  import opened Code
  import opened Image
  import opened SourceMachine
  import opened ByteMachine
  import opened CodeMap
  import opened Simulation
  import opened FlowAnalysis
  import opened RunSafety
  import opened Limits
  import opened EndToEnd

  function DupImage(): Image { Image([0, 7, 0], [0], 8, ["dup"], true) }

  lemma DupElems()
    ensures Program(OneCall(Dup())) && Elems(OneCall(Dup()), 2) == [UInt(0), UInt(7), UInt(0)]
    ensures Snippets(OneCall(Dup()), 2) == ["dup"] && Compiled(OneCall(Dup()), 2) == 1
    ensures Start(OneCall(Dup()), 0) == Compiled(OneCall(Dup()), 0) == 0
  {
    var ws := OneCall(Dup());
    OneCallChecked(Dup(), 1);
    assert Snippets(ws, 1) == [] && Snippets(ws, 2) == ["dup"];
    assert Compiled(ws, 1) == 1;
    assert Slot(ws, 1) == 7;
    assert Elems(ws, 0) == [];
    assert WordElems(ws, 0) == [UInt(0), UInt(7), UInt(0)];
    assert Elems(ws, 1) == Elems(ws, 0) + WordElems(ws, 0);
    assert WordElems(ws, 1) == [];
    assert Elems(ws, 2) == Elems(ws, 1) + [];
  }

  lemma DupEmitted()
    ensures var g: seq<Elem> := [UInt(0), UInt(7), UInt(0)];
            Targets(g) && Consistent(g, true, [1, 1, 1]) && Encodable(g, true)
            && Emitted(g, true, [1, 1, 1], 3) == [0, 7, 0]
  {
    var g: seq<Elem> := [UInt(0), UInt(7), UInt(0)];
    var lens: seq<nat> := [1, 1, 1];
    assert Targets(g) && Consistent(g, true, lens) && Encodable(g, true);
    assert ElemBytes(g, true, lens, 0) == [0] && ElemBytes(g, true, lens, 1) == [7];
    assert ElemBytes(g, true, lens, 2) == [0];
    assert Emitted(g, true, lens, 0) == [];
    assert Emitted(g, true, lens, 1) == [0];
    assert Emitted(g, true, lens, 2) == [0, 7];
    assert Emitted(g, true, lens, 3) == [0, 7, 0];
  }

  lemma DupCompiles()
    ensures Compiles(OneCall(Dup()), DupImage(), [1, 1, 1])
  {
    hide Emitted, Consistent, Encodable, Program, Snippets;
    DupElems();
    DupEmitted();
  }

  /** What `dup` does. */
  predicate DupMeaning(ccode: string, before: seq<u32>, after: seq<u32>) {
    ccode == "dup" && before != [] && after == before + [before[|before| - 1]]
  }

  lemma DupReady(v: u32)
    ensures Ready(OneCall(Dup()), OneCallInfos(1), OneCallSummaries(1), DupMeaning, 0, [v], 1)
  {
    hide Checked;
    OneCallChecked(Dup(), 1);
  }

  function DupRun(v: u32): seq<CState> {
    [CEntry(OneCall(Dup()), 0, [v]), CEntry(OneCall(Dup()), 0, [v]).(off := 1, ds := [v, v])]
  }

  lemma DupCpu(v: u32)
    ensures CRun(OneCall(Dup()), DupMeaning, DupRun(v)) && DupRun(v)[0] == CEntry(OneCall(Dup()), 0, [v])
    ensures CNext(OneCall(Dup()), DupRun(v)[1]) == CHalt([v, v])
    ensures forall i :: 0 <= i < |DupRun(v)| ==> ReadsWritten(OneCall(Dup()), DupRun(v)[i])
  {
    assert CStep(OneCall(Dup()), DupMeaning, DupRun(v)[0], DupRun(v)[1]);
  }

  /** One return stack cell, nothing below. */
  function DupSetting(v: u32, stale: u32): Setting {
    Setting(OneCall(Dup()), DupImage(), [1, 1, 1], OneCallInfos(1), OneCallSummaries(1), DupMeaning, 0, [v], 1,
            [stale], 0)
  }

  /** No data word is called, so MaxReturnStack cells are enough. */
  lemma DupCapacity(v: u32, stale: u32)
    ensures DupSetting(v, stale).Capacity() && Slot(OneCall(Dup()), 0) == 8
  {
    DupElems();
    assert forall t :: 0 <= t < |OneCall(Dup())| ==> !OneCall(Dup())[t].Data?;
    hide Slot, ReachedBy, CallEdge;
  }

  lemma DupSound(v: u32, stale: u32)
    ensures DupSetting(v, stale).Sound() && DupSetting(v, stale).Runs(DupRun(v))
  {
    DupReady(v);
    DupCompiles();
    DupCpu(v);
    hide Ready, Compiles, CRun, DupRun, CEntry;
  }

  /** Every hypothesis of CheckedProgramRuns holds, so its conclusion does: three bytes and one return stack cell
      suffice, and the run loop leaves with the doubled item and the return stack it was given. */
  lemma DupRuns(v: u32, stale: u32) returns (bytes: seq<BState>)
    ensures |bytes| >= 2 && BRun(DupImage(), DupMeaning, bytes)
    ensures EnterSlot(DupImage(), BState(0, [v], [stale], 0), 8) == Go(bytes[0])
    ensures BNext(DupImage(), bytes[|bytes| - 1]) == Exit([v, v], 0)
  {
    DupSound(v, stale);
    DupCapacity(v, stale);
    DupCpu(v);
    hide Setting.Sound, Setting.Capacity, Setting.Runs, BRun, BNext, EnterSlot, CRun, CStep, CNext, ReadsWritten, Slot;
    hide DupMeaning, DupImage;
    bytes := CheckedProgramRuns(DupSetting(v, stale), DupRun(v));
  }

  // ----- A data word -----

  function Table(): Word { Data(5) }

  function TableImage(): Image { Image([0, 8, 0, 0, 1, 5, 0], [0, 3], 7, [], true) }

  /** MaxReturnStack alone is not enough for a word that calls a data word: the recorded limit is one cell, and on
      one cell the run loop faults at the call, because T0_ENTER saves a return address for the data word too. */
  lemma ReturnLimitExceeded(stale: u32)
    ensures Checked(OneCall(Table()), OneCallInfos(0), OneCallSummaries(0), 0) && OneCallInfos(0)[0].maxReturnStack == 1
    ensures Compiles(OneCall(Table()), TableImage(), [1, 1, 1, 1, 2, 1])
    ensures var b := BState(1, [], [0], 1);
            EnterSlot(TableImage(), BState(0, [], [stale], 0), 7) == Go(b) && BNext(TableImage(), b).Fault?
  {
    OneCallChecked(Table(), 0);
    TableCompiles();
    TableTurns(stale);
  }

  lemma TableTurns(stale: u32)
    ensures var b := BState(1, [], [0], 1);
            EnterSlot(TableImage(), BState(0, [], [stale], 0), 7) == Go(b) && BNext(TableImage(), b).Fault?
  {
    assert [stale][0 := 0] == [0];
  }

  lemma TableElems()
    ensures Program(OneCall(Table())) && Elems(OneCall(Table()), 2) == TableCode()
    ensures Snippets(OneCall(Table()), 2) == [] && Compiled(OneCall(Table()), 2) == 2
    ensures Compiled(OneCall(Table()), 1) == 1
    ensures Start(OneCall(Table()), 0) == 0 && Start(OneCall(Table()), 1) == 3
  {
    var ws := OneCall(Table());
    OneCallChecked(Table(), 0);
    assert Snippets(ws, 1) == [] && Snippets(ws, 2) == [];
    assert Compiled(ws, 0) == 0 && Compiled(ws, 1) == 1;
    assert Slot(ws, 1) == 8;
    assert Elems(ws, 0) == [];
    assert WordElems(ws, 0) == [UInt(0), UInt(8), UInt(0)];
    assert Elems(ws, 1) == Elems(ws, 0) + WordElems(ws, 0);
    assert WordElems(ws, 1) == [UInt(0), UIntInt(1, 5), UInt(0)];
    assert Elems(ws, 2) == Elems(ws, 1) + WordElems(ws, 1);
  }

  function TableCode(): seq<Elem> { [UInt(0), UInt(8), UInt(0), UInt(0), UIntInt(1, 5), UInt(0)] }

  lemma TableEmitted()
    ensures var g, lens := TableCode(), [1, 1, 1, 1, 2, 1];
            Targets(g) && Consistent(g, true, lens) && Encodable(g, true)
            && Emitted(g, true, lens, 6) == [0, 8, 0, 0, 1, 5, 0]
  {
    var g := TableCode();
    var lens: seq<nat> := [1, 1, 1, 1, 2, 1];
    assert Targets(g) && Consistent(g, true, lens) && Encodable(g, true);
    assert ElemBytes(g, true, lens, 0) == [0] && ElemBytes(g, true, lens, 1) == [8];
    assert ElemBytes(g, true, lens, 2) == [0];
    assert ElemBytes(g, true, lens, 3) == [0] && ElemBytes(g, true, lens, 4) == [1, 5];
    assert ElemBytes(g, true, lens, 5) == [0];
    assert Emitted(g, true, lens, 2) == [0, 8];
    assert Emitted(g, true, lens, 4) == [0, 8, 0, 0];
    assert Emitted(g, true, lens, 6) == [0, 8, 0, 0, 1, 5, 0];
  }

  lemma TableCompiles()
    ensures Compiles(OneCall(Table()), TableImage(), [1, 1, 1, 1, 2, 1])
  {
    hide Emitted, Consistent, Encodable, Program, Snippets;
    TableElems();
    TableEmitted();
  }

  // ----- Constants, local counts and locals that do not survive compilation -----

  /** A constant declared up to 2^31 - 1 takes five bytes; a small value, such as 5, is then not read back: the
      decoder stops after the first byte. */
  lemma WideConstantLost()
    ensures ExprWidth(0, 0x7FFF_FFFF) == 5 && IntN(5, 5) == [0, 128, 128, 128, 5]
    ensures ParseSigned(IntN(5, 5), 0) == Parsed(0, 1)
  {
    BitLenRange(0x7FFF_FFFF, 28);
    PowValues();
    SByteValue(5);
    ShiftValues(5);
    hide SByte, Shift, BitLen, Pow2;
    assert IntN(5, 5) == [0, 128, 128, 128, 5];
  }

  /** A word with 128 locals in one-byte code. */
  function ManyLocals(): seq<Word> { [Interpreted(128, [Ret], UNKNOWN)] }

  function ManyImage(): Image { Image([128, 0], [0], 7, [], true) }

  /** Its image is what Generate writes, but entering it decodes no locals, and then runs out of the code. */
  lemma ManyLocalsLost(stale: u32)
    ensures ImageOf(ManyLocals(), ManyImage(), [1, 1])
    ensures ParseUnsigned(ManyImage().code, 0) == Parsed(0, 2)
    ensures EnterSlot(ManyImage(), BState(0, [], [stale], 0), 7) == Go(BState(2, [], [0], 1))
    ensures BNext(ManyImage(), BState(2, [], [0], 1)).Fault?
  {
    ManyImageOf();
    ManyEntered(stale);
  }

  lemma ManyEntered(stale: u32)
    ensures ParseUnsigned(ManyImage().code, 0) == Parsed(0, 2)
    ensures EnterSlot(ManyImage(), BState(0, [], [stale], 0), 7) == Go(BState(2, [], [0], 1))
    ensures BNext(ManyImage(), BState(2, [], [0], 1)).Fault?
  {
    assert ParseFrom(ManyImage().code, 1, 0) == Parsed(0, 2);
    assert [stale][0 := 0] == [0];
  }

  lemma ManyElems()
    ensures Program(ManyLocals()) && Elems(ManyLocals(), 1) == [UInt(128), UInt(0)]
    ensures Snippets(ManyLocals(), 1) == [] && Compiled(ManyLocals(), 1) == 1
    ensures Start(ManyLocals(), 0) == 0 && Compiled(ManyLocals(), 0) == 0
  {
    var ws := ManyLocals();
    assert WellFormedCode(128, ws[0].code) && CallsExist(ws, ws[0].code);
    assert Elems(ws, 0) == [] && WordElems(ws, 0) == [UInt(128), UInt(0)];
    assert Snippets(ws, 0) == [];
  }

  lemma ManyImageOf()
    ensures ImageOf(ManyLocals(), ManyImage(), [1, 1])
  {
    ManyElems();
    ManyEmitted();
    hide Emitted, Consistent, Encodable, Program, Snippets, Elems;
  }

  lemma ManyEmitted()
    ensures var g: seq<Elem> := [UInt(128), UInt(0)];
            Targets(g) && Consistent(g, true, [1, 1]) && Encodable(g, true) && Emitted(g, true, [1, 1], 2) == [128, 0]
  {
    var g: seq<Elem> := [UInt(128), UInt(0)];
    var lens: seq<nat> := [1, 1];
    assert Targets(g) && Consistent(g, true, lens) && Encodable(g, true);
    assert ElemBytes(g, true, lens, 0) == [128] && ElemBytes(g, true, lens, 1) == [0];
    assert Emitted(g, true, lens, 0) == [];
    assert Emitted(g, true, lens, 1) == [128];
  }

  /** A word that reads a local it never wrote. */
  function FreshLocal(): seq<Word> { [Interpreted(1, [GetLocal(0), Ret], UNKNOWN)] }

  function FreshImage(): Image { Image([1, 2, 0, 0], [0], 7, [], true) }

  /** The CPU pushes 0, the run loop whatever the return stack memory holds there. */
  lemma FreshLocalDiffers(stale: u32)
    ensures Compiles(FreshLocal(), FreshImage(), [1, 2, 1])
    ensures CNext(FreshLocal(), CEntry(FreshLocal(), 0, [])).CGo?
            && CNext(FreshLocal(), CEntry(FreshLocal(), 0, [])).s.ds == [0]
    ensures var b := BState(1, [], [stale, 0x10000], 2);
            && EnterSlot(FreshImage(), BState(0, [], [stale, stale], 0), 7) == Go(b)
            && BNext(FreshImage(), b) == Go(b.(ip := 3, ds := [stale]))
  {
    FreshCompiles();
    FreshTurns(stale);
    hide Compiles, BNext, EnterSlot;
  }

  lemma FreshTurns(stale: u32)
    ensures var b := BState(1, [], [stale, 0x10000], 2);
            && EnterSlot(FreshImage(), BState(0, [], [stale, stale], 0), 7) == Go(b)
            && BNext(FreshImage(), b) == Go(b.(ip := 3, ds := [stale]))
  {
    assert [stale, stale][1 := 0x10000] == [stale, 0x10000];
    assert ParseUnsigned(FreshImage().code, 0) == Parsed(1, 1);
    assert ParseUnsigned(FreshImage().code, 2) == Parsed(0, 3);
  }

  lemma FreshElems()
    ensures Program(FreshLocal()) && Elems(FreshLocal(), 1) == [UInt(1), UIntUInt(2, 0), UInt(0)]
    ensures Snippets(FreshLocal(), 1) == [] && Compiled(FreshLocal(), 1) == 1
    ensures Start(FreshLocal(), 0) == 0 && Compiled(FreshLocal(), 0) == 0
  {
    var ws := FreshLocal();
    assert WellFormedCode(1, ws[0].code) && CallsExist(ws, ws[0].code);
    assert Elems(ws, 0) == [] && WordElems(ws, 0) == [UInt(1), UIntUInt(2, 0), UInt(0)];
    assert Snippets(ws, 0) == [];
  }

  lemma FreshEmitted()
    ensures var g: seq<Elem> := [UInt(1), UIntUInt(2, 0), UInt(0)];
            Targets(g) && Consistent(g, true, [1, 2, 1]) && Encodable(g, true)
            && Emitted(g, true, [1, 2, 1], 3) == [1, 2, 0, 0]
  {
    var g: seq<Elem> := [UInt(1), UIntUInt(2, 0), UInt(0)];
    var lens: seq<nat> := [1, 2, 1];
    assert Targets(g) && Consistent(g, true, lens) && Encodable(g, true);
    assert ElemBytes(g, true, lens, 0) == [1] && ElemBytes(g, true, lens, 1) == [2, 0];
    assert ElemBytes(g, true, lens, 2) == [0];
    assert Emitted(g, true, lens, 0) == [];
    assert Emitted(g, true, lens, 1) == [1];
    assert Emitted(g, true, lens, 2) == [1, 2, 0];
  }

  lemma FreshCompiles()
    ensures Compiles(FreshLocal(), FreshImage(), [1, 2, 1])
  {
    FreshElems();
    FreshEmitted();
    hide Emitted, Consistent, Encodable, Program, Snippets, Elems;
  }
}
