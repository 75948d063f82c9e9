/** What stands in a generated code block, and what the run loop does when it reaches each opcode. */
module CodeMap {
  import opened Machine32
  import opened SevenE
  import opened Layout
  import opened Code
  import opened Image
  import opened SourceMachine
  import opened ByteMachine

  /** Byte address of opcode `off` of word `w`. */
  function OpAddr(ws: seq<Word>, lens: seq<nat>, w: nat, off: nat): nat
    requires w < |ws| && ElemOf(ws, w, off) <= |lens|
  {
    Addr(lens, ElemOf(ws, w, off))
  }

  /** The limits the run loop needs: 16-bit code addresses, and local counts it can decode and pack. */
  ghost predicate Fits(ws: seq<Word>, img: Image) {
    && |img.code| < 0x10000
    && forall w :: 0 <= w < |ws| && ws[w].Interpreted? ==>
         ws[w].numLocals < if img.oneByte then 128 else 0x10000
  }

  /** The compiled form of a table: an image, its element lengths, and the limits it respects. */
  ghost predicate Compiles(ws: seq<Word>, img: Image, lens: seq<nat>) {
    ImageOf(ws, img, lens) && Fits(ws, img)
  }

  predicate HasOp(ws: seq<Word>, w: nat, off: nat) {
    w < |ws| && ws[w].Interpreted? && off < |ws[w].code|
  }

  // ----- What stands in the code block -----

  lemma ImageFacts(ws: seq<Word>, img: Image, lens: seq<nat>)
    requires ImageOf(ws, img, lens)
    ensures Program(ws) && WellFormed(ws) && |lens| == Start(ws, |ws|) && img.interp >= 7
  {
  }

  lemma LensPositive(ws: seq<Word>, img: Image, lens: seq<nat>)
    requires ImageOf(ws, img, lens)
    ensures forall e :: 0 <= e < |lens| ==> lens[e] >= 1
  {
    forall e | 0 <= e < |lens|
      ensures lens[e] >= 1
    {
      FirstLenLeast(Elems(ws, |ws|), img.oneByte, lens, e);
    }
  }

  /** Element `k` of word `w` stands in the code block. */
  lemma WordElemStands(ws: seq<Word>, img: Image, lens: seq<nat>, w: nat, k: nat)
    requires ImageOf(ws, img, lens) && w < |ws| && k < Size(ws[w])
    ensures var g, e := Elems(ws, |ws|), Start(ws, w) + k;
            && Targets(g) && e < |g| == |lens| && g[e] == WordElems(ws, w)[k]
            && Stands(img.code, img.oneByte, lens, e, g[e].v, OperandBytes(g, lens, e))
  {
    hide WordElems, Stands, Emitted, OperandBytes;
    ElemsAt(ws, w, |ws|, k);
    ElementStands(Elems(ws, |ws|), img.oneByte, lens, Start(ws, w) + k);
  }

  lemma WordElemAt(ws: seq<Word>, w: nat, off: nat)
    requires Program(ws) && HasOp(ws, w, off)
    ensures WordElems(ws, w)[1 + off] == OpElem(ws, w, off)
  {
  }

  /** Opcode number or slot under which opcode `off` of word `w` is compiled. */
  function OpSlot(ws: seq<Word>, w: nat, off: nat): nat
    requires HasOp(ws, w, off)
  {
    match ws[w].code[off]
    case Call(t) => if t < |ws| then Slot(ws, t) else 0
    case Ret => 0
    case Const(_) => 1
    case GetLocal(_) => 2
    case PutLocal(_) => 3
    case Jump(kind, _) => match kind case Always => 4 case IfTrue => 5 case IfFalse => 6
  }

  /** Its operand, as bytes. */
  function OpOperand(ws: seq<Word>, lens: seq<nat>, w: nat, off: nat): seq<byte>
    requires HasOp(ws, w, off) && |lens| == Start(ws, |ws|)
  {
    match ws[w].code[off]
    case Call(_) => []
    case Ret => []
    case Const(v) => EncodeS(v)
    case GetLocal(n) => EncodeU(n)
    case PutLocal(n) => EncodeU(n)
    case Jump(_, d) =>
      StartGrows(ws, w, |ws|);
      if d.Some? && 0 <= off + 1 + d.value < |ws[w].code|
      then EncodeS(Addr(lens, ElemOf(ws, w, off + 1 + d.value)) - Addr(lens, ElemOf(ws, w, off + 1)))
      else []
  }

  lemma OpElemSpelled(ws: seq<Word>, lens: seq<nat>, w: nat, off: nat)
    requires Program(ws) && HasOp(ws, w, off) && |lens| == Start(ws, |ws|)
    requires Targets(Elems(ws, |ws|)) && ElemOf(ws, w, off) < |lens|
    requires Elems(ws, |ws|)[ElemOf(ws, w, off)] == OpElem(ws, w, off)
    ensures Elems(ws, |ws|)[ElemOf(ws, w, off)].v == OpSlot(ws, w, off)
    ensures OperandBytes(Elems(ws, |ws|), lens, ElemOf(ws, w, off)) == OpOperand(ws, lens, w, off)
  {
    hide Elems, Slot, Start, EncodeS, EncodeU, Program;
    OpRefs(ws, w, off);
  }

  lemma OpRefs(ws: seq<Word>, w: nat, off: nat)
    requires Program(ws) && HasOp(ws, w, off)
    ensures ws[w].code[off].Call? ==> ws[w].code[off].target < |ws|
    ensures ws[w].code[off].Jump? ==>
              ws[w].code[off].disp.Some? && 0 <= off + 1 + ws[w].code[off].disp.value < |ws[w].code|
  {
    assert WellFormedCode(ws[w].numLocals, ws[w].code) && CallsExist(ws, ws[w].code);
  }

  /** Every opcode of every word stands in the code block at its own address. */
  lemma OpStands(ws: seq<Word>, img: Image, lens: seq<nat>, w: nat, off: nat)
    requires ImageOf(ws, img, lens) && HasOp(ws, w, off)
    ensures |lens| == Start(ws, |ws|) && ElemOf(ws, w, off) < |lens|
    ensures OpSlot(ws, w, off) < M32 && img.interp >= 7
    ensures Stands(img.code, img.oneByte, lens, ElemOf(ws, w, off), OpSlot(ws, w, off), OpOperand(ws, lens, w, off))
  {
    hide ImageOf, WordElems, OpElem, Stands, OperandBytes, Elems, Program, WellFormed, OpOperand, OpSlot, Start;
    ImageFacts(ws, img, lens);
    WordElemAt(ws, w, off);
    WordElemStands(ws, img, lens, w, 1 + off);
    OpElemSpelled(ws, lens, w, off);
  }

  /** A number below 128 is one byte in both formats. */
  lemma SmallOpcode(code: seq<byte>, oneByte: bool, lens: seq<nat>, e: nat, v: u32, operand: seq<byte>)
    requires Stands(code, oneByte, lens, e, v, operand) && v < 128
    ensures e + 1 <= |lens| && Addr(lens, e) < |code| && code[Addr(lens, e)] == v
    ensures At(code, Addr(lens, e) + 1, operand) && Addr(lens, e + 1) == Addr(lens, e) + 1 + |operand|
  {
    hide At, Addr;
    if !oneByte {
      ReadInOneByte(code, Addr(lens, e), v);
    }
  }

  lemma ReadInOneByte(code: seq<byte>, ip: nat, v: u32)
    requires ParseUnsigned(code, ip) == Parsed(v, ip + 1)
    ensures ip < |code| && code[ip] == v
  {
    U32Identity(0);
  }

  /** The compiled form of every opcode in bytes: its number, from 0 to 6, then its operand; a jump holds the distance
      from the next opcode to its target. A call is the number of the called word, above those. */
  lemma OpcodeBytes(ws: seq<Word>, img: Image, lens: seq<nat>, w: nat, off: nat)
    requires ImageOf(ws, img, lens) && HasOp(ws, w, off)
    ensures ElemOf(ws, w, off) < |lens|
    ensures var a, next := OpAddr(ws, lens, w, off), OpAddr(ws, lens, w, off + 1);
            && a < |img.code|
            && match ws[w].code[off]
               case Ret => img.code[a] == 0 && next == a + 1
               case Const(v) => img.code[a] == 1 && At(img.code, a + 1, EncodeS(v)) && next == a + 1 + SLen(v)
               case GetLocal(n) => img.code[a] == 2 && At(img.code, a + 1, EncodeU(n)) && next == a + 1 + ULen(n)
               case PutLocal(n) => img.code[a] == 3 && At(img.code, a + 1, EncodeU(n)) && next == a + 1 + ULen(n)
               case Jump(kind, d) =>
                 && img.code[a] == (match kind case Always => 4 case IfTrue => 5 case IfFalse => 6)
                 && d.Some? && 0 <= off + 1 + d.value < |ws[w].code| && ElemOf(ws, w, off + 1 + d.value) < |lens|
                 && var dist := OpAddr(ws, lens, w, off + 1 + d.value) - next;
                    At(img.code, a + 1, EncodeS(dist)) && next == a + 1 + SLen(dist)
               case Call(t) =>
                 t < |ws| && Slot(ws, t) >= 7 && ParseOp(img.code, img.oneByte, a) == Parsed(Slot(ws, t), next)
  {
    hide ImageOf, Stands, Addr, Start, Slot, EncodeS, EncodeU, At, ParseOp, Program, WellFormed;
    ImageFacts(ws, img, lens);
    OpStands(ws, img, lens, w, off);
    OpRefs(ws, w, off);
    if ws[w].code[off].Call? {
      SlotRange(ws, ws[w].code[off].target);
      CallParsed(img, lens, ElemOf(ws, w, off), OpSlot(ws, w, off));
    } else {
      SmallOpcode(img.code, img.oneByte, lens, ElemOf(ws, w, off), OpSlot(ws, w, off), OpOperand(ws, lens, w, off));
      StartGrows(ws, w, |ws|);
    }
  }

  lemma CallParsed(img: Image, lens: seq<nat>, e: nat, slot: u32)
    requires Stands(img.code, img.oneByte, lens, e, slot, [])
    ensures Addr(lens, e) < |img.code|
    ensures ParseOp(img.code, img.oneByte, Addr(lens, e)) == Parsed(slot, Addr(lens, e + 1))
  {
    hide Addr, ParseOp;
  }

  /** A data word in bytes: no locals, the address as a constant, a return. */
  lemma DataBytes(ws: seq<Word>, img: Image, lens: seq<nat>, t: nat)
    requires ImageOf(ws, img, lens) && t < |ws| && ws[t].Data?
    ensures Start(ws, t) < |lens|
    ensures var a := Addr(lens, Start(ws, t));
            && a + 2 + SLen(ws[t].address) < |img.code|
            && img.code[a] == 0 && img.code[a + 1] == 1 && At(img.code, a + 2, EncodeS(ws[t].address))
            && img.code[a + 2 + SLen(ws[t].address)] == 0
  {
    hide ImageOf, Stands, Addr, Start, EncodeS, At;
    DataElem(ws, img, lens, t);
    PrologueStands(ws, img, lens, t, 0);
    var e := Start(ws, t);
    SmallOpcode(img.code, img.oneByte, lens, e, 0, []);
    SmallOpcode(img.code, img.oneByte, lens, e + 1, 1, EncodeS(ws[t].address));
    SmallOpcode(img.code, img.oneByte, lens, e + 2, 0, []);
  }

  /** Opcode addresses are never 0 and lie inside the code block. */
  lemma OpAddrRange(ws: seq<Word>, img: Image, lens: seq<nat>, w: nat, off: nat)
    requires ImageOf(ws, img, lens) && HasOp(ws, w, off)
    ensures ElemOf(ws, w, off) < |lens| && 0 < OpAddr(ws, lens, w, off) < |img.code|
  {
    hide ImageOf, OpSlot, OpOperand, Program, Elems, Start;
    ImageFacts(ws, img, lens);
    LensPositive(ws, img, lens);
    OpStands(ws, img, lens, w, off);
    assert lens[ElemOf(ws, w, off) - 1] >= 1;
  }

  // ----- What the run loop does at each opcode -----

  /** The run loop is about to read opcode `off` of word `w`. */
  ghost predicate AtOp(ws: seq<Word>, img: Image, lens: seq<nat>, w: nat, off: nat, b: BState) {
    ImageOf(ws, img, lens) && HasOp(ws, w, off) && ElemOf(ws, w, off) < |lens| && b.ip == OpAddr(ws, lens, w, off)
  }

  lemma ConstTurn(ws: seq<Word>, img: Image, lens: seq<nat>, w: nat, off: nat, b: BState)
    requires AtOp(ws, img, lens, w, off, b) && ws[w].code[off].Const?
    ensures BNext(img, b) == Go(b.(ip := OpAddr(ws, lens, w, off + 1), ds := b.ds + [U32(ws[w].code[off].v)]))
  {
    hide ImageOf, Stands, BNext, U32, EncodeS, Start;
    OpStands(ws, img, lens, w, off);
    ConstBytes(img, lens, b, ElemOf(ws, w, off), ws[w].code[off].v);
  }

  lemma ConstBytes(img: Image, lens: seq<nat>, b: BState, e: nat, v: i32)
    requires Stands(img.code, img.oneByte, lens, e, 1, EncodeS(v)) && b.ip == Addr(lens, e) && img.interp >= 7
    ensures BNext(img, b) == Go(b.(ip := Addr(lens, e + 1), ds := b.ds + [U32(v)]))
  {
    hide EncodeS, ParseSigned, At;
    SignedRoundTrip(img.code, Addr(lens, e) + OpLen(img.oneByte, 1), v);
  }

  lemma LocalTurn(ws: seq<Word>, img: Image, lens: seq<nat>, w: nat, off: nat, b: BState, n: u32)
    requires AtOp(ws, img, lens, w, off, b) && ws[w].code[off] in {GetLocal(n), PutLocal(n)}
    ensures BNext(img, b) == LocalAccess(b, OpAddr(ws, lens, w, off + 1), ws[w].code[off].PutLocal?, n)
  {
    hide ImageOf, Stands, BNext, LocalAccess, EncodeU, Start;
    OpStands(ws, img, lens, w, off);
    LocalBytes(img, lens, b, ElemOf(ws, w, off), ws[w].code[off].PutLocal?, n);
  }

  function LocalAccess(b: BState, next: nat, put: bool, n: u32): BOut {
    var at := b.rp - 2 - n;
    if !(0 <= at < |b.rm|) || (put && b.ds == []) then Fault
    else if put then Go(b.(ip := next, ds := b.ds[..|b.ds| - 1], rm := b.rm[at := b.ds[|b.ds| - 1]]))
    else Go(b.(ip := next, ds := b.ds + [b.rm[at]]))
  }

  lemma LocalBytes(img: Image, lens: seq<nat>, b: BState, e: nat, put: bool, n: u32)
    requires Stands(img.code, img.oneByte, lens, e, if put then 3 else 2, EncodeU(n))
    requires b.ip == Addr(lens, e) && img.interp >= 7
    ensures BNext(img, b) == LocalAccess(b, Addr(lens, e + 1), put, n)
  {
    hide EncodeU, ParseUnsigned, ParseSigned, At;
    UnsignedRoundTrip(img.code, Addr(lens, e) + OpLen(img.oneByte, if put then 3 else 2), n);
  }

  /** A taken jump lands on the target opcode, an untaken one on the next opcode. */
  lemma JumpTurn(ws: seq<Word>, img: Image, lens: seq<nat>, w: nat, off: nat, b: BState, to: nat)
    requires AtOp(ws, img, lens, w, off, b) && ws[w].code[off].Jump? && |img.code| < 0x10000
    requires ws[w].code[off].disp == Some(to - off - 1)
    ensures HasOp(ws, w, to) && ElemOf(ws, w, to) < |lens|
    ensures BNext(img, b) == Branch(b, ws[w].code[off].kind, OpAddr(ws, lens, w, to), OpAddr(ws, lens, w, off + 1))
  {
    hide ImageOf, Stands, BNext, Branch, EncodeS, Start, Addr;
    JumpTarget(ws, img, lens, w, off);
    OpStands(ws, img, lens, w, off);
    OpAddrRange(ws, img, lens, w, to);
    var e := ElemOf(ws, w, off);
    var dist := OpAddr(ws, lens, w, to) - OpAddr(ws, lens, w, off + 1);
    StandsEnd(img, lens, e, OpSlot(ws, w, off), EncodeS(dist));
    JumpBytes(img, lens, b, e, ws[w].code[off].kind, dist);
  }

  lemma JumpTarget(ws: seq<Word>, img: Image, lens: seq<nat>, w: nat, off: nat)
    requires ImageOf(ws, img, lens) && HasOp(ws, w, off) && ws[w].code[off].Jump?
    ensures ws[w].code[off].disp.Some? && 0 <= off + 1 + ws[w].code[off].disp.value < |ws[w].code|
  {
    assert WellFormedCode(ws[w].numLocals, ws[w].code);
  }

  lemma StandsEnd(img: Image, lens: seq<nat>, e: nat, v: u32, operand: seq<byte>)
    requires Stands(img.code, img.oneByte, lens, e, v, operand)
    ensures Addr(lens, e + 1) <= |img.code|
  {
  }

  function Branch(b: BState, kind: JumpKind, to: nat, next: nat): BOut {
    if kind.Always? then Go(b.(ip := to))
    else if b.ds == [] then Fault
    else
      var taken := if kind.IfTrue? then b.ds[|b.ds| - 1] != 0 else b.ds[|b.ds| - 1] == 0;
      Go(b.(ip := if taken then to else next, ds := b.ds[..|b.ds| - 1]))
  }

  lemma JumpBytes(img: Image, lens: seq<nat>, b: BState, e: nat, kind: JumpKind, dist: i32)
    requires Stands(img.code, img.oneByte, lens, e,
                    match kind case Always => 4 case IfTrue => 5 case IfFalse => 6, EncodeS(dist))
    requires b.ip == Addr(lens, e) && img.interp >= 7 && Addr(lens, e + 1) + dist >= 0
    ensures BNext(img, b) == Branch(b, kind, Addr(lens, e + 1) + dist, Addr(lens, e + 1))
  {
    hide EncodeS, ParseSigned, ParseUnsigned, At;
    SignedRoundTrip(img.code,
      Addr(lens, e) + OpLen(img.oneByte, match kind case Always => 4 case IfTrue => 5 case IfFalse => 6), dist);
  }

  lemma RetTurn(ws: seq<Word>, img: Image, lens: seq<nat>, w: nat, off: nat, b: BState)
    requires AtOp(ws, img, lens, w, off, b) && ws[w].code[off].Ret?
    ensures BNext(img, b) == ReturnTo(b)
  {
    hide ImageOf, Stands, BNext, ReturnTo, Start;
    OpStands(ws, img, lens, w, off);
    RetBytes(img, lens, b, ElemOf(ws, w, off));
  }

  /** The return opcode: drop the frame on top, then leave the loop or go to the saved address. */
  function ReturnTo(b: BState): BOut {
    if b.rp == 0 || b.rp > |b.rm| then Fault
    else
      var x := b.rm[b.rp - 1];
      var rp := b.rp - 1 - x / 0x10000;
      if rp < 0 then Fault
      else if x % 0x10000 == 0 then Exit(b.ds, rp)
      else Go(BState(x % 0x10000, b.ds, b.rm, rp))
  }

  lemma RetBytes(img: Image, lens: seq<nat>, b: BState, e: nat)
    requires Stands(img.code, img.oneByte, lens, e, 0, []) && b.ip == Addr(lens, e) && img.interp >= 7
    ensures BNext(img, b) == ReturnTo(b)
  {
    hide At, Addr, ParseUnsigned, ParseSigned;
  }

  /** A data word entered at its second element pushes its address, then returns. */
  lemma DataTurns(ws: seq<Word>, img: Image, lens: seq<nat>, t: nat, b: BState)
    requires ImageOf(ws, img, lens) && t < |ws| && ws[t].Data? && Start(ws, t) + 2 < |lens|
    ensures b.ip == Addr(lens, Start(ws, t) + 1) ==>
              BNext(img, b) == Go(b.(ip := Addr(lens, Start(ws, t) + 2), ds := b.ds + [U32(ws[t].address)]))
    ensures b.ip == Addr(lens, Start(ws, t) + 2) ==> BNext(img, b) == ReturnTo(b)
  {
    hide ImageOf, Stands, BNext, ReturnTo, Start, Elems, Addr, EncodeS, U32;
    ImageFacts(ws, img, lens);
    DataElem(ws, img, lens, t);
    if b.ip == Addr(lens, Start(ws, t) + 1) {
      ConstBytes(img, lens, b, Start(ws, t) + 1, ws[t].address);
    }
    if b.ip == Addr(lens, Start(ws, t) + 2) {
      RetBytes(img, lens, b, Start(ws, t) + 2);
    }
  }

  lemma DataElem(ws: seq<Word>, img: Image, lens: seq<nat>, t: nat)
    requires ImageOf(ws, img, lens) && t < |ws| && ws[t].Data?
    ensures Stands(img.code, img.oneByte, lens, Start(ws, t) + 1, 1, EncodeS(ws[t].address))
    ensures Stands(img.code, img.oneByte, lens, Start(ws, t) + 2, 0, [])
  {
    hide ImageOf, Stands, Start, Elems, Program, EncodeS;
    ImageFacts(ws, img, lens);
    WordElemStands(ws, img, lens, t, 1);
    WordElemStands(ws, img, lens, t, 2);
  }

  /** At a call the run loop reads the slot of the called word. */
  lemma CallTurn(ws: seq<Word>, img: Image, lens: seq<nat>, w: nat, off: nat, b: BState, t: nat)
    requires AtOp(ws, img, lens, w, off, b) && ws[w].code[off] == Call(t)
    ensures t < |ws|
    ensures var next := b.(ip := OpAddr(ws, lens, w, off + 1));
            BNext(img, b) == if ws[t].Native? then Snippet(ws[t].ccode, next) else EnterSlot(img, next, Slot(ws, t))
  {
    hide ImageOf, Stands, BNext, EnterSlot, Slot, Start, Addr, FirstCompiled, Snippets, IndexOf, Compiled;
    CallTarget(ws, img, lens, w, off);
    OpStands(ws, img, lens, w, off);
    SlotBytes(img, lens, b, ElemOf(ws, w, off), Slot(ws, t));
  }

  /** The slot of a word leads the run loop to its snippet or to its compiled code. */
  lemma CallTarget(ws: seq<Word>, img: Image, lens: seq<nat>, w: nat, off: nat)
    requires ImageOf(ws, img, lens) && HasOp(ws, w, off) && ws[w].code[off].Call?
    ensures var t := ws[w].code[off].target;
            && t < |ws| && Slot(ws, t) >= 7
            && (ws[t].Native? <==> Slot(ws, t) < img.interp)
            && (ws[t].Native? ==> Slot(ws, t) - 7 < |img.snippets| && img.snippets[Slot(ws, t) - 7] == ws[t].ccode)
  {
    hide Consistent, Emitted, Elems, Encodable, AddressesOf;
    assert CallsExist(ws, ws[w].code);
    var t := ws[w].code[off].target;
    SlotRange(ws, t);
    if ws[t].Native? {
      SnippetKnown(ws, t, |ws|);
    }
  }

  lemma SlotBytes(img: Image, lens: seq<nat>, b: BState, e: nat, slot: u32)
    requires Stands(img.code, img.oneByte, lens, e, slot, []) && b.ip == Addr(lens, e) && slot >= 7
    ensures var next := b.(ip := Addr(lens, e + 1));
            BNext(img, b) == if slot >= img.interp then EnterSlot(img, next, slot)
                             else if slot - 7 < |img.snippets| then Snippet(img.snippets[slot - 7], next)
                             else Go(next)
  {
    hide ParseUnsigned, ParseSigned, At, EnterSlot;
  }

  function LocalsOf(w: Word): nat {
    match w
    case Interpreted(n, _, _) => n
    case _ => 0
  }

  /** Entering a compiled word skips its local count and saves the return address. */
  lemma EnterTurn(ws: seq<Word>, img: Image, lens: seq<nat>, t: nat, b: BState)
    requires Compiles(ws, img, lens) && t < |ws| && !ws[t].Native? && b.ip < 0x10000
    requires b.rp + LocalsOf(ws[t]) < |b.rm|
    ensures ElemOf(ws, t, 0) < |lens|
    ensures EnterSlot(img, b, Slot(ws, t)) == Go(BState(OpAddr(ws, lens, t, 0), b.ds,
      b.rm[b.rp + LocalsOf(ws[t]) := b.ip + LocalsOf(ws[t]) * 0x10000], b.rp + LocalsOf(ws[t]) + 1))
  {
    hide EnterSlot, ImageOf, Fits, Addr, Start, Compiled, FirstCompiled, Slot, ParseUnsigned;
    EnterPrologue(ws, img, lens, t);
    EnterBytes(img, b, Slot(ws, t), LocalsOf(ws[t]), Addr(lens, Start(ws, t) + 1));
  }

  /** It goes out of the return stack memory exactly when the cell for the return address lies outside. */
  lemma EnterFaults(ws: seq<Word>, img: Image, lens: seq<nat>, t: nat, b: BState)
    requires Compiles(ws, img, lens) && t < |ws| && !ws[t].Native?
    ensures EnterSlot(img, b, Slot(ws, t)).Fault? <==> b.rp + LocalsOf(ws[t]) >= |b.rm|
  {
    hide ImageOf, Fits, Addr, Start, Compiled, FirstCompiled, Slot, ParseUnsigned;
    EnterPrologue(ws, img, lens, t);
  }

  /** The local count of a compiled word is read back from the address the table gives for its slot. */
  lemma EnterPrologue(ws: seq<Word>, img: Image, lens: seq<nat>, t: nat)
    requires ImageOf(ws, img, lens) && Fits(ws, img) && t < |ws| && !ws[t].Native?
    ensures ElemOf(ws, t, 0) < |lens| && LocalsOf(ws[t]) < 0x10000
    ensures Slot(ws, t) >= img.interp && Slot(ws, t) - img.interp < |img.caddr|
    ensures ParseUnsigned(img.code, img.caddr[Slot(ws, t) - img.interp])
         == Parsed(LocalsOf(ws[t]), Addr(lens, Start(ws, t) + 1))
  {
    hide ImageOf, Addr, Start, ParseUnsigned, Compiled, FirstCompiled, Slot, Program, WellFormed, Elems;
    ImageFacts(ws, img, lens);
    LocalsFit(ws, img, t);
    TableEntry(ws, img, lens, t);
    StartGrows(ws, t, |ws|);
    PrologueParsed(ws, img, lens, t, LocalsOf(ws[t]));
  }

  lemma PrologueParsed(ws: seq<Word>, img: Image, lens: seq<nat>, t: nat, n: u32)
    requires ImageOf(ws, img, lens) && t < |ws| && Size(ws[t]) > 0 && n == LocalsOf(ws[t])
    requires n < if img.oneByte then 128 else 0x10000
    ensures Start(ws, t) < |lens| && Addr(lens, Start(ws, t)) < |img.code|
    ensures ParseUnsigned(img.code, Addr(lens, Start(ws, t))) == Parsed(n, Addr(lens, Start(ws, t) + 1))
  {
    hide ImageOf, Addr, ParseUnsigned, Start, ParseOp;
    PrologueStands(ws, img, lens, t, n);
    PrologueBytes(img.code, img.oneByte, lens, Start(ws, t), n);
  }

  lemma EnterBytes(img: Image, b: BState, slot: nat, n: nat, newip: nat)
    requires slot >= img.interp && slot - img.interp < |img.caddr|
    requires ParseUnsigned(img.code, img.caddr[slot - img.interp]) == Parsed(n, newip)
    requires n < 0x10000 && b.ip < 0x10000 && b.rp + n < |b.rm|
    ensures EnterSlot(img, b, slot) == Go(BState(newip, b.ds, b.rm[b.rp + n := b.ip + n * 0x10000], b.rp + n + 1))
  {
    hide ParseUnsigned;
    U32Identity(b.ip + n * 0x10000);
  }

  lemma PrologueStands(ws: seq<Word>, img: Image, lens: seq<nat>, t: nat, n: u32)
    requires ImageOf(ws, img, lens) && t < |ws| && Size(ws[t]) > 0 && n == LocalsOf(ws[t])
    ensures Stands(img.code, img.oneByte, lens, Start(ws, t), n, [])
  {
    hide ImageOf, WordElems, Elems, Stands, Program, Start;
    ImageFacts(ws, img, lens);
    WordElemStands(ws, img, lens, t, 0);
    PrologueElem(ws, t);
  }

  lemma PrologueElem(ws: seq<Word>, t: nat)
    requires Program(ws) && t < |ws| && !ws[t].Native?
    ensures WordElems(ws, t) != [] && WordElems(ws, t)[0] == UInt(LocalsOf(ws[t]))
  {
  }

  lemma TableEntry(ws: seq<Word>, img: Image, lens: seq<nat>, t: nat)
    requires ImageOf(ws, img, lens) && t < |ws| && !ws[t].Native?
    ensures Slot(ws, t) >= img.interp && Slot(ws, t) - img.interp < |img.caddr| && Start(ws, t) <= |lens|
    ensures img.caddr[Slot(ws, t) - img.interp] == Addr(lens, Start(ws, t)) % 0x10000
  {
    hide Consistent, Emitted, Elems, Encodable, Program, Addr, Snippets, AddressesOf, Start, Slot, Compiled;
    TableSlot(ws, img.caddr, lens, t);
  }

  lemma LocalsFit(ws: seq<Word>, img: Image, t: nat)
    requires Fits(ws, img) && WellFormed(ws) && t < |ws| && !ws[t].Native?
    ensures LocalsOf(ws[t]) < (if img.oneByte then 128 else 0x10000)
    ensures Size(ws[t]) >= 2
  {
    if ws[t].Interpreted? {
      NonEmptyWord(ws, t);
    }
  }

  lemma TableSlot(ws: seq<Word>, caddr: seq<nat>, lens: seq<nat>, t: nat)
    requires AddressesOf(ws, caddr, lens) && t < |ws| && !ws[t].Native?
    ensures Slot(ws, t) - FirstCompiled(ws) == Compiled(ws, t) < |caddr| && Start(ws, t) <= |lens|
    ensures caddr[Compiled(ws, t)] == Addr(lens, Start(ws, t)) % 0x10000
  {
    hide Addr, Start, Snippets, FirstCompiled;
  }

  lemma NonEmptyWord(ws: seq<Word>, t: nat)
    requires WellFormed(ws) && t < |ws| && ws[t].Interpreted?
    ensures |ws[t].code| > 0
  {
    assert WellFormedCode(ws[t].numLocals, ws[t].code);
  }

  /** T0_ENTER decodes the local count in 7E format whatever the code format. */
  lemma PrologueBytes(code: seq<byte>, oneByte: bool, lens: seq<nat>, e: nat, n: nat)
    requires n < (if oneByte then 128 else 0x10000) && Stands(code, oneByte, lens, e, n, [])
    ensures ParseUnsigned(code, Addr(lens, e)) == Parsed(n, Addr(lens, e + 1))
  {
  }

  /** A number written in one byte is read back, over that byte, exactly when it is below 128. */
  lemma OneByteRead(code: seq<byte>, ip: nat, n: byte)
    requires ip < |code| && code[ip] == n
    ensures ParseUnsigned(code, ip) == Parsed(n, ip + 1) <==> n < 128
  {
    U32Identity(0);
  }

  /** In one-byte code the local count of a compiled word, read by T0_ENTER from the address the table gives for
      its slot, is read back exactly when it is below 128. */
  lemma OneBytePrologue(ws: seq<Word>, img: Image, lens: seq<nat>, t: nat)
    requires ImageOf(ws, img, lens) && img.oneByte && |img.code| < 0x10000 && t < |ws| && !ws[t].Native?
    ensures Slot(ws, t) >= img.interp && Slot(ws, t) - img.interp < |img.caddr| && Start(ws, t) + 1 <= |lens|
    ensures (ParseUnsigned(img.code, img.caddr[Slot(ws, t) - img.interp])
             == Parsed(LocalsOf(ws[t]), Addr(lens, Start(ws, t) + 1))) <==> LocalsOf(ws[t]) < 128
  {
    hide *;
    ImageFacts(ws, img, lens);
    LocalsInside(ws, t);
    TableEntry(ws, img, lens, t);
    PrologueStands(ws, img, lens, t, LocalsOf(ws[t]));
    OneByteStands(img.code, lens, Start(ws, t), LocalsOf(ws[t]));
    OneByteRead(img.code, Addr(lens, Start(ws, t)), LocalsOf(ws[t]));
  }

  lemma LocalsInside(ws: seq<Word>, t: nat)
    requires Program(ws) && t < |ws| && !ws[t].Native?
    ensures Size(ws[t]) > 0 && LocalsOf(ws[t]) < 0x1_0000_0000
  {
  }

  lemma OneByteStands(code: seq<byte>, lens: seq<nat>, e: nat, n: u32)
    requires Stands(code, true, lens, e, n, [])
    ensures e < |lens| && Addr(lens, e) < |code| && code[Addr(lens, e)] == n < 256
    ensures Addr(lens, e + 1) == Addr(lens, e) + 1
  {
    hide Addr, At;
  }
}
