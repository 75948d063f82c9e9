/** The run loop over bytes that T0Comp.cs emits. A stack cell is its 32-bit pattern. */
module ByteMachine {
  import opened Machine32
  import opened SevenE
  import opened Layout
  import opened Image
  import opened SourceMachine

  /** Instruction pointer (offset in the code block), data stack, return stack memory and its fill level. */
  datatype BState = BState(ip: nat, ds: seq<u32>, rm: seq<u32>, rp: nat)

  /** Leaving the loop through the outermost return; a fault is an access outside the code block or the stacks. */
  datatype BOut = Go(s: BState) | Snippet(ccode: string, s: BState) | Exit(ds: seq<u32>, rp: nat) | Fault

  /** T0_ENTER: skip the locals, which keep whatever the memory holds, and save the return address with their count. */
  function EnterSlot(img: Image, b: BState, slot: nat): BOut {
    if slot < img.interp || slot - img.interp >= |img.caddr| then Fault
    else
      match ParseUnsigned(img.code, img.caddr[slot - img.interp])
      case Overrun => Fault
      case Parsed(lnum, newip) =>
        var rp := b.rp + lnum;
        if rp >= |b.rm| then Fault
        else Go(BState(newip, b.ds, b.rm[rp := U32(b.ip + lnum * 0x10000)], rp + 1))
  }

  function BJump(b: BState, off: int): BOut {
    if b.ip + off >= 0 then Go(b.(ip := b.ip + off)) else Fault
  }

  /** Index of a local in the return stack memory (T0_LOCAL). */
  function LocalAt(b: BState, k: nat): int { b.rp - 2 - k }

  /** One of the seven built-in opcodes, after the opcode itself has been read. */
  function BuiltIn(img: Image, b: BState, slot: nat): BOut
    requires slot < 7
  {
    var n := |b.ds|;
    if slot == 0 then
      if b.rp == 0 || b.rp > |b.rm| then Fault
      else
        var x := b.rm[b.rp - 1];
        var rp := b.rp - 1 - x / 0x10000;
        if rp < 0 then Fault
        else if x % 0x10000 == 0 then Exit(b.ds, rp)
        else Go(BState(x % 0x10000, b.ds, b.rm, rp))
    else if slot == 2 || slot == 3 then
      match ParseUnsigned(img.code, b.ip)
      case Overrun => Fault
      case Parsed(k, ip) =>
        var at := LocalAt(b, k);
        if !(0 <= at < |b.rm|) then Fault
        else if slot == 2 then Go(b.(ip := ip, ds := b.ds + [b.rm[at]]))
        else if n == 0 then Fault
        else Go(b.(ip := ip, ds := b.ds[..n - 1], rm := b.rm[at := b.ds[n - 1]]))
    else
      match ParseSigned(img.code, b.ip)
      case Overrun => Fault
      case Parsed(v, ip) =>
        if slot == 1 then Go(b.(ip := ip, ds := b.ds + [U32(v)]))
        else if slot == 4 then BJump(b.(ip := ip), v)
        else if n == 0 then Fault
        else
          var taken := if slot == 5 then b.ds[n - 1] != 0 else b.ds[n - 1] == 0;
          var popped := b.(ip := ip, ds := b.ds[..n - 1]);
          if taken then BJump(popped, v) else Go(popped)
  }

  /** One turn of the run loop. */
  function BNext(img: Image, b: BState): BOut {
    match ParseOp(img.code, img.oneByte, b.ip)
    case Overrun => Fault
    case Parsed(slot, ip) =>
      if slot < img.interp then
        if slot < 7 then BuiltIn(img, b.(ip := ip), slot)
        else if slot - 7 < |img.snippets| then Snippet(img.snippets[slot - 7], b.(ip := ip))
        else Go(b.(ip := ip))
      else EnterSlot(img, b.(ip := ip), slot)
  }

  predicate BStep(img: Image, m: Meaning, b: BState, b': BState) {
    match BNext(img, b)
    case Go(x) => b' == x
    case Snippet(ccode, x) => m(ccode, x.ds, b'.ds) && b' == x.(ds := b'.ds)
    case _ => false
  }

  ghost predicate BRun(img: Image, m: Meaning, run: seq<BState>) {
    |run| > 0 && forall i :: 0 <= i < |run| - 1 ==> BStep(img, m, run[i], run[i + 1])
  }

  /** How a turn ends: with the next turn, with a C snippet to run, by leaving the loop, or outside the code or the
      stacks. */
  datatype Status = Continue | Native(ccode: string) | Left | Faulted

  /** The run loop as an object: the t0_context registers and the return stack memory it works on in place. */
  class RunLoop {
    var ip: nat
    var ds: seq<u32>
    var rp: nat
    const rstack: array<u32>

    constructor (ip: nat, ds: seq<u32>, rstack: array<u32>, rp: nat)
      ensures this.ip == ip && this.ds == ds && this.rstack == rstack && this.rp == rp
    {
      this.ip, this.ds, this.rstack, this.rp := ip, ds, rstack, rp;
    }

    ghost function State(): BState
      reads this, rstack
    {
      BState(ip, ds, rstack[..], rp)
    }

    /** The object is where the turn `o` leads. */
    ghost predicate Reaches(o: BOut, r: Status)
      reads this, rstack
    {
      match o
      case Go(x) => r == Continue && State() == x
      case Snippet(ccode, x) => r == Native(ccode) && State() == x
      case Exit(ds', rp') => r == Left && ds == ds' && rp == rp'
      case Fault => r == Faulted
    }

    method Enter(img: Image, slot: nat) returns (r: Status)
      modifies this, rstack
      ensures Reaches(EnterSlot(img, old(State()), slot), r)
    {
      if slot < img.interp || slot - img.interp >= |img.caddr| {
        return Faulted;
      }
      var p := T0Parse7EUnsigned(img.code, img.caddr[slot - img.interp]);
      if p.Overrun? || rp + p.value >= rstack.Length {
        return Faulted;
      }
      rp := rp + p.value;
      rstack[rp] := U32(ip + p.value * 0x10000);
      rp := rp + 1;
      ip := p.next;
      return Continue;
    }

    method Branch(off: int) returns (r: Status)
      modifies this`ip
      ensures Reaches(BJump(old(State()), off), r)
    {
      if ip + off < 0 {
        return Faulted;
      }
      ip := ip + off;
      return Continue;
    }

    /** One of the opcodes 0 to 6. */
    method Step(img: Image, slot: nat) returns (r: Status)
      requires slot < 7
      modifies this, rstack
      ensures Reaches(BuiltIn(img, old(State()), slot), r)
    {
      if slot == 0 {
        if rp == 0 || rp > rstack.Length {
          return Faulted;
        }
        var x := rstack[rp - 1];
        if rp - 1 - x / 0x10000 < 0 {
          return Faulted;
        }
        rp := rp - 1 - x / 0x10000;
        if x % 0x10000 == 0 {
          return Left;
        }
        ip := x % 0x10000;
        return Continue;
      }
      if slot == 2 || slot == 3 {
        var p := T0Parse7EUnsigned(img.code, ip);
        if p.Overrun? || !(0 <= rp - 2 - p.value < rstack.Length) || (slot == 3 && |ds| == 0) {
          return Faulted;
        }
        ip := p.next;
        if slot == 2 {
          ds := ds + [rstack[rp - 2 - p.value]];
        } else {
          rstack[rp - 2 - p.value] := ds[|ds| - 1];
          ds := ds[..|ds| - 1];
        }
        return Continue;
      }
      var p := T0Parse7ESigned(img.code, ip);
      if p.Overrun? {
        return Faulted;
      }
      ip := p.next;
      if slot == 1 {
        ds := ds + [U32(p.value)];
        return Continue;
      }
      if slot == 4 {
        r := Branch(p.value);
        return;
      }
      if |ds| == 0 {
        return Faulted;
      }
      var v := ds[|ds| - 1];
      ds := ds[..|ds| - 1];
      if (slot == 5) == (v != 0) {
        r := Branch(p.value);
        return;
      }
      return Continue;
    }

    /** One turn of the loop: the next opcode is read and dispatched. */
    method Turn(img: Image) returns (r: Status)
      modifies this, rstack
      ensures Reaches(BNext(img, old(State())), r)
    {
      hide BuiltIn, EnterSlot;
      var p;
      if !img.oneByte {
        p := T0Parse7EUnsigned(img.code, ip);
      } else if ip < |img.code| {
        p := Parsed(img.code[ip], ip + 1);
      } else {
        p := Overrun;
      }
      if p.Overrun? {
        return Faulted;
      }
      ip := p.next;
      if p.value >= img.interp {
        r := Enter(img, p.value);
      } else if p.value < 7 {
        r := Step(img, p.value);
      } else if p.value - 7 < |img.snippets| {
        return Native(img.snippets[p.value - 7]);
      } else {
        return Continue;
      }
    }
  }
}
