/** T0Comp.Generate: slot numbers, code elements, one-byte decision, layout and emission of the code block. */
module Image {
  import opened Machine32
  import opened SevenE
  import opened Layout
  import opened Code

  // ----- Slots -----

  /** Distinct C snippets of the native words among the first `n`, in order of first use. */
  function Snippets(ws: seq<Word>, n: nat): seq<string>
    requires n <= |ws|
  {
    if n == 0 then [] else
      var before := Snippets(ws, n - 1);
      if ws[n - 1].Native? && ws[n - 1].ccode !in before then before + [ws[n - 1].ccode] else before
  }

  /** Number of words without C code among the first `n`. */
  function Compiled(ws: seq<Word>, n: nat): (c: nat)
    requires n <= |ws|
    ensures c <= n
  {
    if n == 0 then 0 else Compiled(ws, n - 1) + if ws[n - 1].Native? then 0 else 1
  }

  function IndexOf(ss: seq<string>, s: string): (k: nat)
    requires s in ss
    ensures k < |ss| && ss[k] == s
  {
    if ss[0] == s then 0 else 1 + IndexOf(ss[1..], s)
  }

  lemma {:induction false} SnippetKnown(ws: seq<Word>, w: nat, n: nat)
    requires w < n <= |ws| && ws[w].Native?
    ensures ws[w].ccode in Snippets(ws, n)
    decreases n
  {
    if w < n - 1 {
      SnippetKnown(ws, w, n - 1);
    }
  }

  /** First slot of the words without C code (T0_INTERPRETED). */
  function FirstCompiled(ws: seq<Word>): nat { 7 + |Snippets(ws, |ws|)| }

  function Slot(ws: seq<Word>, w: nat): nat
    requires w < |ws|
  {
    if ws[w].Native? then
      SnippetKnown(ws, w, |ws|);
      7 + IndexOf(Snippets(ws, |ws|), ws[w].ccode)
    else FirstCompiled(ws) + Compiled(ws, w)
  }

  lemma {:induction false} SnippetCount(ws: seq<Word>, n: nat)
    requires n <= |ws|
    ensures |Snippets(ws, n)| + Compiled(ws, n) <= n
  {
    if n > 0 {
      SnippetCount(ws, n - 1);
    }
  }

  lemma {:induction false} CompiledGrows(ws: seq<Word>, a: nat, b: nat)
    requires a < b <= |ws| && !ws[a].Native?
    ensures Compiled(ws, a) < Compiled(ws, b)
    decreases b
  {
    if a < b - 1 {
      CompiledGrows(ws, a, b - 1);
    }
  }

  /** Slots tell words apart up to their code: equal slots mean the same word or the same C snippet. */
  lemma SlotsSeparate(ws: seq<Word>, a: nat, b: nat)
    requires a < |ws| && b < |ws| && Slot(ws, a) == Slot(ws, b)
    ensures a == b || (ws[a].Native? && ws[b].Native? && ws[a].ccode == ws[b].ccode)
  {
    if ws[a].Native? { SnippetKnown(ws, a, |ws|); }
    if ws[b].Native? { SnippetKnown(ws, b, |ws|); }
    if !ws[a].Native? && !ws[b].Native? && a != b {
      if a < b { CompiledGrows(ws, a, b); } else { CompiledGrows(ws, b, a); }
    }
  }

  /** Slots are given in the order of the table: to C snippets when first met, then to the words without C code. */
  lemma SlotOrder(ws: seq<Word>, a: nat, b: nat)
    requires a < |ws| && b < |ws|
    ensures ws[a].Native? && !ws[b].Native? ==> 7 <= Slot(ws, a) < Slot(ws, b)
    ensures a < b && !ws[a].Native? && !ws[b].Native? ==> 7 <= Slot(ws, a) < Slot(ws, b)
    ensures a < b && ws[a].Native? && ws[b].Native?
            && (forall c :: 0 <= c < b && ws[c].Native? ==> ws[c].ccode != ws[b].ccode) ==>
              7 <= Slot(ws, a) < Slot(ws, b)
    ensures ws[a].Native? && ws[b].Native? && ws[a].ccode == ws[b].ccode ==> Slot(ws, a) == Slot(ws, b)
  {
    SlotRange(ws, a);
    SlotRange(ws, b);
    if ws[a].Native? { SnippetKnown(ws, a, |ws|); }
    if ws[b].Native? { SnippetKnown(ws, b, |ws|); }
    if a < b && !ws[a].Native? && !ws[b].Native? {
      CompiledGrows(ws, a, b);
    }
    if a < b && ws[a].Native? && ws[b].Native?
       && (forall c :: 0 <= c < b && ws[c].Native? ==> ws[c].ccode != ws[b].ccode) {
      SnippetKnown(ws, a, b);
      NewSnippet(ws, ws[b].ccode, b);
      SnippetsGrow(ws, b, |ws|);
      IndexInFront(Snippets(ws, b), Snippets(ws, |ws|), ws[a].ccode, ws[b].ccode);
    }
  }

  lemma {:induction false} NewSnippet(ws: seq<Word>, s: string, n: nat)
    requires n <= |ws| && forall c :: 0 <= c < n && ws[c].Native? ==> ws[c].ccode != s
    ensures s !in Snippets(ws, n)
  {
    if n > 0 {
      NewSnippet(ws, s, n - 1);
    }
  }

  lemma {:induction false} SnippetsGrow(ws: seq<Word>, a: nat, b: nat)
    requires a <= b <= |ws|
    ensures Snippets(ws, a) <= Snippets(ws, b)
    decreases b
  {
    if a < b {
      SnippetsGrow(ws, a, b - 1);
    }
  }

  lemma IndexInFront(front: seq<string>, all: seq<string>, s: string, t: string)
    requires front <= all && s in front && t !in front && t in all
    ensures IndexOf(all, s) < |front| <= IndexOf(all, t)
  {
    IndexFirst(front, all, s);
    IndexBehind(front, all, t);
  }

  lemma {:induction false} IndexBehind(front: seq<string>, all: seq<string>, t: string)
    requires front <= all && t !in front && t in all
    ensures |front| <= IndexOf(all, t)
    decreases |front|
  {
    if front != [] {
      assert front[0] in front && all[0] == front[0];
      assert front[1..] <= all[1..];
      IndexBehind(front[1..], all[1..], t);
    }
  }

  lemma {:induction false} IndexFirst(front: seq<string>, all: seq<string>, s: string)
    requires front <= all && s in front
    ensures s in all && IndexOf(all, s) == IndexOf(front, s)
    decreases |front|
  {
    if front[0] != s {
      assert front[1..] <= all[1..];
      IndexFirst(front[1..], all[1..], s);
    }
  }

  /** No slot is left out: every number from 7 up to the last one belongs to some word. */
  lemma {:induction false} SlotsFilled(ws: seq<Word>, k: nat)
    requires 7 <= k < FirstCompiled(ws) + Compiled(ws, |ws|)
    ensures exists w :: 0 <= w < |ws| && Slot(ws, w) == k
  {
    if k < FirstCompiled(ws) {
      var s := Snippets(ws, |ws|)[k - 7];
      var w := SnippetFrom(ws, |ws|, k - 7);
      SnippetsDiffer(ws, |ws|);
      SnippetKnown(ws, w, |ws|);
      assert Slot(ws, w) == k;
    } else {
      var w := CompiledFrom(ws, |ws|, k - FirstCompiled(ws));
      assert Slot(ws, w) == k;
    }
  }

  lemma {:induction false} SnippetFrom(ws: seq<Word>, n: nat, k: nat) returns (w: nat)
    requires n <= |ws| && k < |Snippets(ws, n)|
    ensures w < n && ws[w].Native? && ws[w].ccode == Snippets(ws, n)[k]
    decreases n
  {
    if k < |Snippets(ws, n - 1)| {
      w := SnippetFrom(ws, n - 1, k);
    } else {
      w := n - 1;
    }
  }

  lemma {:induction false} SnippetsDiffer(ws: seq<Word>, n: nat)
    requires n <= |ws|
    ensures forall i, j :: 0 <= i < j < |Snippets(ws, n)| ==> Snippets(ws, n)[i] != Snippets(ws, n)[j]
    decreases n
  {
    if n > 0 {
      SnippetsDiffer(ws, n - 1);
    }
  }

  lemma {:induction false} CompiledFrom(ws: seq<Word>, n: nat, k: nat) returns (w: nat)
    requires n <= |ws| && k < Compiled(ws, n)
    ensures w < n && !ws[w].Native? && Compiled(ws, w) == k
    decreases n
  {
    if k < Compiled(ws, n - 1) {
      w := CompiledFrom(ws, n - 1, k);
    } else {
      w := n - 1;
    }
  }

  // ----- Code elements -----

  function Size(w: Word): nat {
    match w
    case Interpreted(_, code, _) => 1 + |code|
    case Native(_, _) => 0
    case Data(_) => 3
  }

  /** Index of the first code element of word `w`. */
  function Start(ws: seq<Word>, w: nat): nat
    requires w <= |ws|
  {
    if w == 0 then 0 else Start(ws, w - 1) + Size(ws[w - 1])
  }

  /** Index of the element of opcode `off` of word `w`, after the element holding the local count. */
  function ElemOf(ws: seq<Word>, w: nat, off: nat): nat
    requires w < |ws|
  {
    Start(ws, w) + 1 + off
  }

  /** A table the compiler can process: sizes fit the integer types, and every word is well formed. */
  ghost predicate Program(ws: seq<Word>) {
    && WellFormed(ws) && |ws| + 7 < M31
    && forall w :: 0 <= w < |ws| && ws[w].Interpreted? ==> ws[w].numLocals < M31
  }

  lemma SlotRange(ws: seq<Word>, w: nat)
    requires w < |ws|
    ensures 7 <= Slot(ws, w) < 7 + |ws|
    ensures Slot(ws, w) < FirstCompiled(ws) + Compiled(ws, |ws|)
    ensures ws[w].Native? <==> Slot(ws, w) < FirstCompiled(ws)
  {
    SnippetCount(ws, |ws|);
    if ws[w].Native? {
      SnippetKnown(ws, w, |ws|);
    } else {
      CompiledGrows(ws, w, |ws|);
    }
  }

  function OpElem(ws: seq<Word>, w: nat, i: nat): Elem
    requires Program(ws) && w < |ws| && ws[w].Interpreted? && i < |ws[w].code|
  {
    match ws[w].code[i]
    case Call(t) => SlotRange(ws, t); UInt(Slot(ws, t))
    case Ret => UInt(0)
    case Const(v) => UIntInt(1, v)
    case GetLocal(n) => UIntUInt(2, n)
    case PutLocal(n) => UIntUInt(3, n)
    case Jump(kind, d) =>
      Elem.Jump(match kind case Always => 4 case IfTrue => 5 case IfFalse => 6, ElemOf(ws, w, i + 1 + d.value))
  }

  /** GenerateCodeElements of one word. */
  function WordElems(ws: seq<Word>, w: nat): (es: seq<Elem>)
    requires Program(ws) && w < |ws|
    ensures |es| == Size(ws[w])
  {
    match ws[w]
    case Interpreted(numLocals, code, _) =>
      [UInt(numLocals)] + seq(|code|, i requires 0 <= i < |code| => OpElem(ws, w, i))
    case Native(_, _) => []
    case Data(address) => [UInt(0), UIntInt(1, address), UInt(0)]
  }

  function Elems(ws: seq<Word>, n: nat): (es: seq<Elem>)
    requires Program(ws) && n <= |ws|
    ensures |es| == Start(ws, n)
  {
    if n == 0 then [] else Elems(ws, n - 1) + WordElems(ws, n - 1)
  }

  lemma {:induction false} StartGrows(ws: seq<Word>, a: nat, b: nat)
    requires a < b <= |ws|
    ensures Start(ws, a) + Size(ws[a]) <= Start(ws, b)
    decreases b
  {
    if a < b - 1 {
      StartGrows(ws, a, b - 1);
    }
  }

  /** The elements of a word stand at its start in the whole list. */
  lemma {:induction false} ElemsAt(ws: seq<Word>, w: nat, n: nat, k: nat)
    requires Program(ws) && w < n <= |ws| && k < Size(ws[w])
    ensures Start(ws, w) + k < |Elems(ws, n)| && Elems(ws, n)[Start(ws, w) + k] == WordElems(ws, w)[k]
    decreases n
  {
    hide WordElems, OpElem, Program;
    var es, front := Elems(ws, n), Elems(ws, n - 1);
    assert es == front + WordElems(ws, n - 1);
    if w < n - 1 {
      ElemsAt(ws, w, n - 1, k);
      assert es[Start(ws, w) + k] == front[Start(ws, w) + k];
    } else {
      assert es[|front| + k] == WordElems(ws, w)[k];
    }
  }

  /** A jump element of a word targets an element of the same word. */
  lemma WordTargets(ws: seq<Word>, w: nat, k: nat)
    requires Program(ws) && w < |ws| && k < Size(ws[w]) && WordElems(ws, w)[k].Jump?
    ensures WordElems(ws, w)[k].target < Start(ws, w) + Size(ws[w])
  {
    assert WordElems(ws, w)[k] == OpElem(ws, w, k - 1);
  }

  lemma TargetsAppend(front: seq<Elem>, last: seq<Elem>)
    requires Targets(front)
    requires forall k :: 0 <= k < |last| && last[k].Jump? ==> last[k].target < |front| + |last|
    ensures Targets(front + last)
  {
    var es := front + last;
    forall i | 0 <= i < |es| && es[i].Jump?
      ensures es[i].target < |es|
    {
      assert es[i] == if i < |front| then front[i] else last[i - |front|];
    }
  }

  lemma {:induction false} ElemTargets(ws: seq<Word>, n: nat)
    requires Program(ws) && n <= |ws|
    ensures Targets(Elems(ws, n))
    decreases n
  {
    hide WordElems, OpElem, Program;
    if n > 0 {
      ElemTargets(ws, n - 1);
      var last := WordElems(ws, n - 1);
      forall k | 0 <= k < |last| && last[k].Jump?
        ensures last[k].target < Start(ws, n)
      {
        WordTargets(ws, n - 1, k);
      }
      TargetsAppend(Elems(ws, n - 1), last);
    }
  }

  // ----- The image -----

  /** What the generated C file holds: the code block, the t0_caddr table, T0_INTERPRETED and the switch cases. */
  datatype Image = Image(code: seq<byte>, caddr: seq<nat>, interp: nat, snippets: seq<string>, oneByte: bool)

  /** `img` is the output for `ws`, with element lengths `lens`; table entries are 16 bits wide. */
  ghost predicate ImageOf(ws: seq<Word>, img: Image, lens: seq<nat>) {
    && Program(ws)
    && var g := Elems(ws, |ws|);
    && Consistent(g, img.oneByte, lens) && Encodable(g, img.oneByte)
    && img.code == Emitted(g, img.oneByte, lens, |g|)
    && img.snippets == Snippets(ws, |ws|) && img.interp == FirstCompiled(ws)
    && (img.oneByte <==> img.interp + |img.caddr| < 256)
    && AddressesOf(ws, img.caddr, lens)
  }

  /** The t0_caddr table: one 16-bit entry per compiled word, in slot order. */
  ghost predicate AddressesOf(ws: seq<Word>, caddr: seq<nat>, lens: seq<nat>) {
    && |caddr| == Compiled(ws, |ws|)
    && forall w :: 0 <= w < |ws| && !ws[w].Native? ==>
         Compiled(ws, w) < |caddr| && Start(ws, w) <= |lens|
         && caddr[Compiled(ws, w)] == Addr(lens, Start(ws, w)) % 0x10000
  }

  /** Slot assignment: one pass for the words with C code, one for the others. */
  method AssignSlots(ws: seq<Word>) returns (slots: seq<nat>, ccodeUni: seq<string>, slotInterpreted: nat, curSlot: nat)
    ensures |slots| == |ws| && forall w :: 0 <= w < |ws| ==> slots[w] == Slot(ws, w)
    ensures ccodeUni == Snippets(ws, |ws|) && slotInterpreted == FirstCompiled(ws)
    ensures curSlot == slotInterpreted + Compiled(ws, |ws|)
  {
    hide IndexOf, Compiled;
    CompiledCount(ws);
    curSlot := 7;
    ccodeUni := [];
    var slot := new nat[|ws|];
    for w := 0 to |ws|
      invariant ccodeUni == Snippets(ws, w) && curSlot == 7 + |ccodeUni|
      invariant forall k :: 0 <= k < w && ws[k].Native? ==>
                  (ws[k].ccode in ccodeUni && slot[k] == 7 + IndexOf(ccodeUni, ws[k].ccode))
    {
      if ws[w].Native? {
        if ws[w].ccode in ccodeUni {
          slot[w] := 7 + IndexOf(ccodeUni, ws[w].ccode);
        } else {
          forall s | s in ccodeUni
            ensures IndexOf(ccodeUni + [ws[w].ccode], s) == IndexOf(ccodeUni, s)
          {
            IndexStable(ccodeUni, ws[w].ccode, s);
          }
          IndexLast(ccodeUni, ws[w].ccode);
          ccodeUni := ccodeUni + [ws[w].ccode];
          slot[w] := curSlot;
          curSlot := curSlot + 1;
        }
      }
    }
    slotInterpreted := curSlot;
    hide Snippets;
    for w := 0 to |ws|
      invariant curSlot == slotInterpreted + Compiled(ws, w)
      invariant forall k :: 0 <= k < |ws| && ws[k].Native? ==> slot[k] == Slot(ws, k)
      invariant forall k :: 0 <= k < w ==> slot[k] == Slot(ws, k)
    {
      if !ws[w].Native? {
        slot[w] := curSlot;
        curSlot := curSlot + 1;
      }
    }
    slots := slot[..];
  }

  lemma CompiledCount(ws: seq<Word>)
    ensures Compiled(ws, 0) == 0
    ensures forall w :: 0 <= w < |ws| ==> Compiled(ws, w + 1) == Compiled(ws, w) + if ws[w].Native? then 0 else 1
  {
  }

  lemma {:induction false} IndexStable(ss: seq<string>, t: string, s: string)
    requires s in ss
    ensures IndexOf(ss + [t], s) == IndexOf(ss, s)
    decreases |ss|
  {
    if ss[0] != s {
      assert (ss + [t])[1..] == ss[1..] + [t];
      IndexStable(ss[1..], t, s);
    }
  }

  lemma {:induction false} IndexLast(ss: seq<string>, t: string)
    requires t !in ss
    ensures IndexOf(ss + [t], t) == |ss|
    decreases |ss|
  {
    if ss != [] {
      assert (ss + [t])[1..] == ss[1..] + [t];
      IndexLast(ss[1..], t);
    }
  }

  /** The code elements of all words without C code, and the index of the first one of each. */
  method Gather(ws: seq<Word>) returns (gcode: seq<Elem>, entry: seq<nat>)
    requires Program(ws)
    ensures gcode == Elems(ws, |ws|) && Entries(ws, |ws|, entry)
  {
    hide Entries, WordElems, Compiled;
    gcode, entry := [], [];
    EntriesNone(ws);
    for w := 0 to |ws|
      invariant gcode == Elems(ws, w) && Entries(ws, w, entry)
    {
      EntriesExtend(ws, w, entry);
      if !ws[w].Native? {
        entry := entry + [|gcode|];
        gcode := gcode + WordElems(ws, w);
      }
    }
  }

  lemma EntriesNone(ws: seq<Word>)
    ensures Entries(ws, 0, [])
  {
  }

  lemma EntriesExtend(ws: seq<Word>, n: nat, entry: seq<nat>)
    requires n < |ws| && Entries(ws, n, entry)
    ensures Entries(ws, n + 1, if ws[n].Native? then entry else entry + [Start(ws, n)])
  {
    hide Start, Compiled;
    CountStep(ws, n);
    var longer := if ws[n].Native? then entry else entry + [Start(ws, n)];
    forall w | 0 <= w < n + 1 && !ws[w].Native?
      ensures Compiled(ws, w) < |longer| && longer[Compiled(ws, w)] == Start(ws, w)
    {
      if w < n {
        assert longer[Compiled(ws, w)] == entry[Compiled(ws, w)];
      }
    }
  }

  lemma CountStep(ws: seq<Word>, n: nat)
    requires n < |ws|
    ensures Compiled(ws, n + 1) == Compiled(ws, n) + if ws[n].Native? then 0 else 1
  {
  }

  /** Every entry is the index of an element. */
  lemma {:induction false} EntriesInside(ws: seq<Word>, n: nat, entry: seq<nat>)
    requires n <= |ws| && Entries(ws, n, entry)
    ensures forall k :: 0 <= k < |entry| ==> entry[k] < Start(ws, n)
    decreases n
  {
    hide Compiled;
    if n > 0 {
      CountStep(ws, n - 1);
      EntriesPrefix(ws, n, entry);
      EntriesInside(ws, n - 1, entry[..Compiled(ws, n - 1)]);
    } else {
      EntriesEmpty(ws, entry);
    }
  }

  lemma EntriesCount(ws: seq<Word>, n: nat, entry: seq<nat>)
    requires n <= |ws| && Entries(ws, n, entry)
    ensures |entry| == Compiled(ws, n)
  {
    hide Compiled, Start;
  }

  lemma EntriesEmpty(ws: seq<Word>, entry: seq<nat>)
    requires Entries(ws, 0, entry)
    ensures entry == []
  {
  }

  lemma EntriesPrefix(ws: seq<Word>, n: nat, entry: seq<nat>)
    requires 0 < n <= |ws| && Entries(ws, n, entry)
    ensures Compiled(ws, n - 1) <= |entry| && Entries(ws, n - 1, entry[..Compiled(ws, n - 1)])
  {
    hide Compiled, Start;
    CountStep(ws, n - 1);
    forall w | 0 <= w < n - 1 && !ws[w].Native?
      ensures Compiled(ws, w) < Compiled(ws, n - 1)
    {
      CompiledGrows(ws, w, n - 1);
    }
  }

  ghost predicate Entries(ws: seq<Word>, n: nat, entry: seq<nat>)
    requires n <= |ws|
  {
    && |entry| == Compiled(ws, n)
    && (forall w :: 0 <= w < n && !ws[w].Native? ==>
         Compiled(ws, w) < |entry| && entry[Compiled(ws, w)] == Start(ws, w))
  }

  /** The t0_caddr table, in 16-bit entries. */
  method AddressTable(block: CodeBlock, entry: seq<nat>, ghost lens: seq<nat>) returns (caddr: seq<nat>)
    requires block.Placed(lens) && forall k :: 0 <= k < |entry| ==> entry[k] < |lens|
    ensures |caddr| == |entry| && forall j :: 0 <= j < |entry| ==> caddr[j] == Addr(lens, entry[j]) % 0x10000
  {
    caddr := [];
    for k := 0 to |entry|
      invariant |caddr| == k && forall j :: 0 <= j < k ==> caddr[j] == Addr(lens, entry[j]) % 0x10000
    {
      caddr := caddr + [block.address[entry[k]] % 0x10000];
    }
  }

  /** Generation of the code block. It fails exactly when one-byte code meets a word with more than 255 locals. */
  method Generate(ws: seq<Word>) returns (r: Option<Image>, ghost lens: seq<nat>)
    requires Program(ws)
    ensures r.Some? ==> ImageOf(ws, r.value, lens)
    ensures r.Some? ==>
              && r.value.interp == 7 + |r.value.snippets|
              && (r.value.oneByte <==> 7 + |r.value.snippets| + |r.value.caddr| < 256)
              && forall a :: a in r.value.caddr ==> a < 65536
    ensures r.None? <==> FirstCompiled(ws) + Compiled(ws, |ws|) < 256
                         && exists w :: 0 <= w < |ws| && ws[w].Interpreted? && ws[w].numLocals > 255
  {
    hide Start, Compiled, Snippets, Entries, AddressesOf;
    var slots, ccodeUni, slotInterpreted, curSlot := AssignSlots(ws);
    var gcode, entry := Gather(ws);
    EntriesCount(ws, |ws|, entry);
    var oneByteCode := !(slotInterpreted + |entry| >= 256);
    ElemTargets(ws, |ws|);
    var block := new CodeBlock(gcode, oneByteCode);
    var totalLen;
    totalLen, lens := block.Layout();
    var bw := new Blob();
    var ok := block.EncodeAll(bw, lens);
    EncodableLocals(ws, oneByteCode);
    if !ok {
      return None, lens;
    }
    EntriesInside(ws, |ws|, entry);
    var caddr := AddressTable(block, entry, lens);
    EntriesAddressed(ws, entry, caddr, lens);
    r := Some(Image(bw.data, caddr, slotInterpreted, ccodeUni, oneByteCode));
  }

  lemma EntriesAddressed(ws: seq<Word>, entry: seq<nat>, caddr: seq<nat>, lens: seq<nat>)
    requires Entries(ws, |ws|, entry) && |caddr| == |entry|
    requires forall j :: 0 <= j < |entry| ==> entry[j] <= |lens| && caddr[j] == Addr(lens, entry[j]) % 0x10000
    ensures AddressesOf(ws, caddr, lens)
  {
    hide Start, Compiled, Addr;
  }

  lemma EncodableLocals(ws: seq<Word>, oneByte: bool)
    requires Program(ws)
    requires oneByte <==> FirstCompiled(ws) + Compiled(ws, |ws|) < 256
    ensures Encodable(Elems(ws, |ws|), oneByte) <==>
            (oneByte ==> forall w :: 0 <= w < |ws| && ws[w].Interpreted? ==> ws[w].numLocals <= 255)
  {
    if oneByte {
      var g := Elems(ws, |ws|);
      if Encodable(g, true) {
        forall w | 0 <= w < |ws| && ws[w].Interpreted?
          ensures ws[w].numLocals <= 255
        {
          ElemsAt(ws, w, |ws|, 0);
        }
      }
      if forall w :: 0 <= w < |ws| && ws[w].Interpreted? ==> ws[w].numLocals <= 255 {
        SmallElems(ws, |ws|);
      }
    }
  }

  lemma {:induction false} SmallElems(ws: seq<Word>, n: nat)
    requires Program(ws) && n <= |ws| && FirstCompiled(ws) + Compiled(ws, |ws|) < 256
    requires forall w :: 0 <= w < |ws| && ws[w].Interpreted? ==> ws[w].numLocals <= 255
    ensures forall i :: 0 <= i < |Elems(ws, n)| ==> Elems(ws, n)[i].v <= 255
    decreases n
  {
    if n > 0 {
      SmallElems(ws, n - 1);
      forall t | 0 <= t < |ws|
        ensures Slot(ws, t) < 256
      {
        SlotRange(ws, t);
      }
      var es := WordElems(ws, n - 1);
      forall k | 0 <= k < |es|
        ensures es[k].v <= 255
      {
        if ws[n - 1].Interpreted? && k > 0 {
          assert es[k] == OpElem(ws, n - 1, k - 1);
        }
      }
    }
  }
}
