/** The trust store of wm_cert_store.c: counting and loading the PEM bundle, and appending the compiled-in roots within
    a capacity fixed from the count. */
module CertStore {
  import opened Machine32
  import Base64

  const BEGIN: string := "-----BEGIN CERTIFICATE-----"
  const END: string := "-----END CERTIFICATE-----"
  const MAX_EXTERNAL: nat := 256
  const DER_MAX: nat := 8192
  const FILE_MAX: nat := 524288

  // ----- Finding markers -----

  predicate MatchAt(text: string, needle: string, p: nat) {
    p + |needle| <= |text| && text[p..p + |needle|] == needle
  }

  /** wm_cert_store_find_text: the first match at or after `from`. */
  method FindText(text: string, from: nat, needle: string) returns (p: Option<nat>)
    requires needle != [] && from <= |text|
    ensures p == FirstMatch(text, needle, from)
  {
    hide MatchAt;
    var q := from;
    while q + |needle| <= |text|
      invariant from <= q <= |text|
      invariant FirstMatch(text, needle, from) == FirstMatch(text, needle, q)
    {
      if text[q..q + |needle|] == needle {
        assert MatchAt(text, needle, q) by { Matches(text, needle, q); }
        return Some(q);
      }
      assert !MatchAt(text, needle, q) by { Matches(text, needle, q); }
      q := q + 1;
    }
    NoRoom(text, needle, q);
    return None;
  }

  lemma Matches(text: string, needle: string, p: nat)
    requires p + |needle| <= |text|
    ensures MatchAt(text, needle, p) <==> text[p..p + |needle|] == needle
  {
  }

  function FirstMatch(text: string, needle: string, from: nat): (p: Option<nat>)
    requires needle != []
    ensures p.Some? ==> from <= p.value < |text|
    decreases |text| - from
  {
    if from >= |text| then None
    else if MatchAt(text, needle, from) then Some(from)
    else FirstMatch(text, needle, from + 1)
  }

  lemma {:induction false} NoRoom(text: string, needle: string, from: nat)
    requires needle != [] && from + |needle| > |text|
    ensures FirstMatch(text, needle, from) == None
    decreases |text| - from
  {
    if from < |text| {
      NoRoom(text, needle, from + 1);
    }
  }

  /** What the search means: a match, and none before it. */
  lemma {:induction false} FirstMatchIs(text: string, needle: string, from: nat)
    requires needle != []
    ensures var p := FirstMatch(text, needle, from);
            && (p.Some? ==> MatchAt(text, needle, p.value))
            && forall q :: from <= q && (p.Some? ==> q < p.value) ==> !MatchAt(text, needle, q)
    decreases |text| - from
  {
    hide MatchAt;
    if from >= |text| {
      forall q | from <= q
        ensures !MatchAt(text, needle, q)
      {
        if MatchAt(text, needle, q) {
          MatchInside(text, needle, q);
        }
      }
    } else if !MatchAt(text, needle, from) {
      FirstMatchIs(text, needle, from + 1);
    }
  }

  lemma MatchInside(text: string, needle: string, p: nat)
    requires MatchAt(text, needle, p)
    ensures p + |needle| <= |text|
  {
  }

  // ----- Counting -----

  /** How many markers a greedy scan from `from` meets. */
  function Greedy(text: string, from: nat): nat
    decreases |text| - from
  {
    match FirstMatch(text, BEGIN, from)
    case None => 0
    case Some(p) => 1 + Greedy(text, p + |BEGIN|)
  }

  /** wm_cert_store_count_pem_certs. */
  method CountPemCerts(text: string) returns (count: nat)
    ensures count == if Greedy(text, 0) < MAX_EXTERNAL then Greedy(text, 0) else MAX_EXTERNAL
  {
    hide FirstMatch;
    count := 0;
    var p := 0;
    while true
      invariant p <= |text| && count < MAX_EXTERNAL
      invariant Greedy(text, 0) == count + Greedy(text, p)
      decreases |text| - p
    {
      var q := FindText(text, p, BEGIN);
      if q.None? {
        return;
      }
      FirstMatchIs(text, BEGIN, p);
      MatchInside(text, BEGIN, q.value);
      count := count + 1;
      p := q.value + |BEGIN|;
      if count >= MAX_EXTERNAL {
        return;
      }
    }
  }

  /** Markers at the given places, one after another without overlap. */
  ghost predicate Disjoint(text: string, places: seq<nat>, from: nat)
    decreases |places|
  {
    places == [] ||
    (from <= places[0] && MatchAt(text, BEGIN, places[0]) && Disjoint(text, places[1..], places[0] + |BEGIN|))
  }

  /** The greedy scan starts later, at most as many markers are left. */
  lemma {:induction false} GreedyMonotone(text: string, from: nat, later: nat)
    requires from <= later
    ensures Greedy(text, later) <= Greedy(text, from)
    decreases |text| - from
  {
    hide MatchAt, FirstMatch;
    FirstMatchIs(text, BEGIN, from);
    FirstMatchIs(text, BEGIN, later);
    var p, q := FirstMatch(text, BEGIN, from), FirstMatch(text, BEGIN, later);
    if q.Some? {
      assert p.Some? && p.value <= q.value;
      GreedyMonotone(text, p.value + |BEGIN|, q.value + |BEGIN|);
    }
  }

  /** No family of disjoint markers is larger than the greedy one. */
  lemma {:induction false} GreedyIsMaximal(text: string, places: seq<nat>, from: nat)
    requires Disjoint(text, places, from)
    ensures |places| <= Greedy(text, from)
    decreases |places|
  {
    hide MatchAt, FirstMatch;
    if places != [] {
      FirstMatchIs(text, BEGIN, from);
      var p := FirstMatch(text, BEGIN, from);
      assert p.Some? && p.value <= places[0];
      GreedyMonotone(text, p.value + |BEGIN|, places[0] + |BEGIN|);
      GreedyIsMaximal(text, places[1..], places[0] + |BEGIN|);
    }
  }

  // ----- Certificates -----

  /** A trust anchor: its name and its public key. */
  datatype Anchor = Anchor(name: seq<byte>, key: seq<byte>)

  /** wm_build_anchor_from_der: whether the certificate is taken, and what the slot holds afterwards either way. */
  type Builder = seq<byte> -> (bool, Anchor)

  /** The certificate bytes of a PEM body; none when they do not fit. */
  function DerOf(body: string): seq<byte> {
    var bytes := Base64.Decode(Base64.Kept(body)).bytes;
    if |bytes| > DER_MAX then [] else bytes
  }

  function BuiltFrom(build: Builder, der: seq<byte>): seq<Anchor> {
    if build(der).0 then [build(der).1] else []
  }

  /** Anchors of a list of certificates, in order. */
  function BuiltAll(build: Builder, ders: seq<seq<byte>>): seq<Anchor> {
    if ders == [] then [] else BuiltFrom(build, ders[0]) + BuiltAll(build, ders[1..])
  }

  /** The bodies of the PEM blocks from `from` on, each up to the first footer after its marker. */
  function Bodies(text: string, from: nat): seq<string>
    decreases |text| - from
  {
    match FirstMatch(text, BEGIN, from)
    case None => []
    case Some(p) =>
      match FirstMatch(text, END, p + |BEGIN|)
      case None => []
      case Some(q) => [text[p + |BEGIN|..q]] + Bodies(text, q + |END|)
  }

  /** The certificates of the bodies that decode to something. */
  function Ders(bodies: seq<string>): seq<seq<byte>> {
    if bodies == [] then [] else (if DerOf(bodies[0]) == [] then [] else [DerOf(bodies[0])]) + Ders(bodies[1..])
  }

  /** What one body adds. */
  function BodyAnchor(build: Builder, body: string): seq<Anchor> {
    if DerOf(body) == [] then [] else BuiltFrom(build, DerOf(body))
  }

  /** The anchors a PEM bundle holds from `from` on. */
  function PemAnchors(build: Builder, text: string, from: nat): seq<Anchor> {
    BuiltAll(build, Ders(Bodies(text, from)))
  }

  lemma NoPemAnchors(build: Builder, text: string, from: nat)
    requires match FirstMatch(text, BEGIN, from)
             case None => true
             case Some(p) => FirstMatch(text, END, p + |BEGIN|).None?
    ensures PemAnchors(build, text, from) == []
  {
    assert Bodies(text, from) == [];
  }

  lemma PemAnchorsStep(build: Builder, text: string, from: nat, p: nat, q: nat)
    requires FirstMatch(text, BEGIN, from) == Some(p) && FirstMatch(text, END, p + |BEGIN|) == Some(q)
    ensures PemAnchors(build, text, from)
         == BodyAnchor(build, text[p + |BEGIN|..q]) + PemAnchors(build, text, q + |END|)
  {
    hide FirstMatch, DerOf, BuiltFrom;
    var body, rest := text[p + |BEGIN|..q], Bodies(text, q + |END|);
    assert Bodies(text, from) == [body] + rest;
    DersStep(body, rest);
    BuiltStep(build, DerOf(body), Ders(rest));
  }

  lemma DersStep(body: string, rest: seq<string>)
    ensures Ders([body] + rest) == if DerOf(body) == [] then Ders(rest) else [DerOf(body)] + Ders(rest)
  {
    hide DerOf;
    assert ([body] + rest)[1..] == rest;
  }

  lemma BuiltStep(build: Builder, der: seq<byte>, rest: seq<seq<byte>>)
    ensures BuiltAll(build, [der] + rest) == BuiltFrom(build, der) + BuiltAll(build, rest)
  {
    assert ([der] + rest)[1..] == rest;
  }

  lemma {:induction false} BuiltConcat(build: Builder, a: seq<seq<byte>>, b: seq<seq<byte>>)
    ensures BuiltAll(build, a + b) == BuiltAll(build, a) + BuiltAll(build, b)
    decreases |a|
  {
    hide BuiltFrom;
    if a == [] {
      assert a + b == b;
    } else {
      assert (a + b)[1..] == a[1..] + b;
      BuiltConcat(build, a[1..], b);
    }
  }

  /** The first n elements, or all of them. */
  function Upto<T>(s: seq<T>, n: nat): seq<T> {
    if |s| <= n then s else s[..n]
  }

  lemma UptoTwice<T>(a: seq<T>, b: seq<T>, n: nat)
    ensures Upto(Upto(a, n) + b, n) == Upto(a + b, n)
  {
  }

  /** wm_cert_store_read_file: a file that cannot be opened or read (None), is empty or is over 512 KiB gives
      nothing. */
  function ReadFile(file: Option<string>): Option<string> {
    if file.None? || file.value == [] || |file.value| > FILE_MAX then None else file
  }

  /** The markers counted in what was read. */
  function ExternalCount(text: Option<string>): nat {
    if text.None? then 0 else if Greedy(text.value, 0) < MAX_EXTERNAL then Greedy(text.value, 0) else MAX_EXTERNAL
  }

  /** The anchors offered by the bundle: it is loaded only when markers were counted. */
  function Bundled(build: Builder, external: nat, text: Option<string>, memory: bool): seq<Anchor> {
    if external > 0 && text.Some? && memory then PemAnchors(build, text.value, 0) else []
  }

  /** What an initialisation depends on: the compiled-in certificates, the file as the counting and the loading
      read find it, and whether the heap has room for the decoding buffer. */
  datatype Setup = Setup(build: Builder, builtin: seq<seq<byte>>, extra: seq<seq<byte>>, counted: Option<string>,
                         loaded: Option<string>, memory: bool)
  {
    function External(): nat { ExternalCount(ReadFile(counted)) }

    function Wanted(): nat { |builtin| + |extra| + External() }

    /** The anchors of the bundle. */
    function FromFile(): seq<Anchor> { Bundled(build, External(), ReadFile(loaded), memory) }

    /** The compiled-in roots that decode. */
    function CompiledIn(): seq<Anchor> { BuiltAll(build, builtin + extra) }
  }

  /** g_trust_anchors and the globals beside it. */
  class Store {
    var anchors: array?<Anchor>
    var capacity: nat
    var count: nat
    var initialized: bool

    ghost predicate Valid()
      reads this
    {
      && count <= capacity
      && (anchors == null ==> capacity == 0)
      && (anchors != null ==> anchors.Length == capacity)
    }

    /** Between calls: no store before the first successful initialisation. */
    ghost predicate Settled()
      reads this
    {
      Valid() && (!initialized ==> anchors == null)
    }

    /** The anchors handed to the engine. */
    ghost function Contents(): (s: seq<Anchor>)
      requires Valid()
      reads this, anchors
      ensures |s| == count
    {
      if anchors == null then [] else anchors[..count]
    }

    constructor ()
      ensures Settled() && !initialized && Contents() == []
    {
      anchors := null;
      capacity, count, initialized := 0, 0, false;
    }

    /** wm_cert_store_alloc: `memory` is whether the heap gives both blocks. */
    method Alloc(wanted: nat, memory: bool) returns (ok: bool)
      requires Settled() && !initialized
      modifies this`anchors, this`capacity
      ensures ok <==> wanted > 0 && memory
      ensures if ok then anchors != null && fresh(anchors) && anchors.Length == capacity == wanted
              else Settled() && capacity == 0
    {
      if wanted == 0 {
        return false;
      }
      if !memory {
        anchors := null;
        capacity := 0;
        return false;
      }
      anchors := new Anchor[wanted](_ => Anchor([], []));
      capacity := wanted;
      return true;
    }

    /** wm_build_anchor_from_der into the next slot, which it may overwrite even when it fails. */
    method BuildNext(build: Builder, der: seq<byte>, next: nat) returns (ok: bool)
      requires Valid() && anchors != null && next == count < capacity
      modifies this`count, anchors
      ensures Valid() && ok == build(der).0 && count == if ok then next + 1 else next
      ensures Contents() == old(Contents()) + BuiltFrom(build, der)
    {
      anchors[next] := build(der).1;
      ok := build(der).0;
      if ok {
        count := count + 1;
      }
    }

    /** One PEM body: decoded, and built into the next slot if it decodes to something. */
    method LoadBody(build: Builder, body: string, der: array<byte>, next: nat) returns (ok: bool)
      requires Valid() && anchors != null && next == count < capacity && der.Length == DER_MAX
      modifies this`count, anchors, der
      ensures Valid() && count == if ok then next + 1 else next
      ensures Contents() == old(Contents()) + BodyAnchor(build, body)
    {
      hide DerOf, BodyAnchor, Base64.Decode, Base64.Kept, BuiltFrom;
      var derLen := Base64.CertDecode(body, der);
      DecodedBody(build, body, der[..derLen]);
      ok := false;
      if derLen > 0 {
        ok := BuildNext(build, der[..derLen], next);
      }
    }

    /** The loop over the blocks of the bundle. */
    method LoadBlocks(build: Builder, text: string, der: array<byte>, nextAnchor: nat) returns (next: nat, loaded: nat)
      requires Valid() && anchors != null && nextAnchor == count && der.Length == DER_MAX
      modifies this`count, anchors, der
      ensures Valid() && next == count && loaded == next - nextAnchor
      ensures Contents() == Upto(old(Contents()) + PemAnchors(build, text, 0), capacity)
    {
      hide PemAnchors, FirstMatch, BodyAnchor, Upto, MatchAt;
      next, loaded := nextAnchor, 0;
      var p := 0;
      ghost var goal := Contents() + PemAnchors(build, text, 0);
      while next < capacity
        invariant Valid() && anchors == old(anchors) && next == count && loaded == next - nextAnchor && p <= |text|
        invariant goal == Contents() + PemAnchors(build, text, p)
        decreases |text| - p
      {
        var begin := FindText(text, p, BEGIN);
        if begin.None? {
          NoPemAnchors(build, text, p);
          break;
        }
        Inside(text, BEGIN, p);
        var body := begin.value + |BEGIN|;
        var footer := FindText(text, body, END);
        if footer.None? {
          NoPemAnchors(build, text, p);
          break;
        }
        Inside(text, END, body);
        PemAnchorsStep(build, text, p, begin.value, footer.value);
        var ok := LoadBody(build, text[body..footer.value], der, next);
        if ok {
          next := next + 1;
          loaded := loaded + 1;
        }
        p := footer.value + |END|;
      }
      UptoReached(Contents(), PemAnchors(build, text, p), capacity);
    }

    /** wm_cert_store_load_pem_roots: `memory` is whether the heap gives the decoding buffer. */
    method LoadPemRoots(build: Builder, pem: Option<string>, memory: bool, nextAnchor: nat)
      returns (next: nat, loaded: nat)
      requires Valid() && anchors != null && nextAnchor == count
      modifies this`count, anchors
      ensures Valid() && next == count && loaded == next - nextAnchor
      ensures Contents() == Upto(old(Contents()) + if pem.Some? && memory then PemAnchors(build, pem.value, 0) else [],
                                 capacity)
    {
      hide PemAnchors;
      next, loaded := nextAnchor, 0;
      if pem.None? || !memory {
        return;
      }
      var der := new byte[DER_MAX];
      next, loaded := LoadBlocks(build, pem.value, der, nextAnchor);
    }

    /** The loop over one compiled-in list. */
    method AppendBuilt(build: Builder, ders: seq<seq<byte>>, nextAnchor: nat) returns (next: nat)
      requires Valid() && anchors != null && nextAnchor == count
      modifies this`count, anchors
      ensures Valid() && next == count
      ensures Contents() == Upto(old(Contents()) + BuiltAll(build, ders), capacity)
    {
      hide BuiltFrom, BuiltAll;
      next := nextAnchor;
      var i := 0;
      ghost var goal := Contents() + BuiltAll(build, ders);
      while i < |ders| && next < capacity
        invariant Valid() && anchors == old(anchors) && next == count && i <= |ders|
        invariant goal == Contents() + BuiltAll(build, ders[i..])
      {
        assert ders[i..] == [ders[i]] + ders[i + 1..];
        BuiltStep(build, ders[i], ders[i + 1..]);
        var ok := BuildNext(build, ders[i], next);
        if ok {
          next := next + 1;
        }
        i := i + 1;
      }
      if i == |ders| {
        NoneBuilt(build, ders[i..]);
      }
    }

    /** The store as an initialisation from `u` leaves it. */
    ghost predicate LeftBy(u: Setup)
      reads this, anchors
    {
      Valid() && initialized && capacity == u.Wanted() && Contents() == Upto(u.FromFile() + u.CompiledIn(), capacity)
    }

    /** wm_cert_store_init. */
    method Init(u: Setup, storeMemory: bool) returns (ok: bool)
      requires Settled()
      modifies this, anchors
      ensures Settled()
      ensures old(initialized) ==> ok && initialized && anchors == old(anchors) && Contents() == old(Contents())
      ensures !old(initialized) && storeMemory && u.Wanted() > 0 ==> LeftBy(u) && (ok <==> Contents() != [])
      ensures !old(initialized) && !(storeMemory && u.Wanted() > 0) ==> !ok && !initialized && Contents() == []
    {
      hide PemAnchors, BuiltAll, Greedy, Upto, ReadFile;
      if initialized {
        return true;
      }
      var external := 0;
      var text := ReadFile(u.counted);
      if text.Some? {
        external := CountPemCerts(text.value);
      }
      var wanted := |u.builtin| + |u.extra|;
      if external > 0 {
        wanted := wanted + external;
      }
      var enough := Alloc(wanted, storeMemory);
      if !enough {
        return false;
      }
      count := 0;
      var next := 0;
      NothingCut<Anchor>(capacity);
      if external > 0 {
        var n;
        next, n := LoadPemRoots(u.build, ReadFile(u.loaded), u.memory, next);
      }
      ghost var bundled := u.FromFile();
      assert [] + bundled == bundled;
      assert Contents() == Upto(bundled, capacity);
      next := AppendBuilt(u.build, u.builtin, next);
      next := AppendBuilt(u.build, u.extra, next);
      BuiltConcat(u.build, u.builtin, u.extra);
      TwoLists(bundled, BuiltAll(u.build, u.builtin), BuiltAll(u.build, u.extra), capacity);
      initialized := true;
      return count > 0;
    }
  }

  lemma NothingCut<T>(n: nat)
    ensures Upto<T>([], n) == []
  {
  }

  lemma TwoLists<T>(a: seq<T>, b: seq<T>, c: seq<T>, n: nat)
    ensures Upto(Upto(Upto(a, n) + b, n) + c, n) == Upto(a + (b + c), n)
  {
    hide Upto;
    UptoTwice(a, b, n);
    UptoTwice(a + b, c, n);
    assert a + b + c == a + (b + c);
  }

  /** What is there when the loop stops: all of it, or as much as fits. */
  lemma UptoReached<T>(s: seq<T>, rest: seq<T>, n: nat)
    requires |s| <= n && (|s| == n || rest == [])
    ensures Upto(s + rest, n) == s
  {
  }

  lemma NoneBuilt(build: Builder, ders: seq<seq<byte>>)
    requires ders == []
    ensures BuiltAll(build, ders) == []
  {
  }

  lemma Inside(text: string, needle: string, from: nat)
    requires needle != []
    ensures var p := FirstMatch(text, needle, from); p.Some? ==> from <= p.value && p.value + |needle| <= |text|
  {
    hide FirstMatch, MatchAt;
    FirstMatchIs(text, needle, from);
    var p := FirstMatch(text, needle, from);
    if p.Some? {
      MatchInside(text, needle, p.value);
    }
  }

  /** The decoder's buffer holds the certificate of the body, or nothing. */
  lemma DecodedBody(build: Builder, body: string, der: seq<byte>)
    requires var bytes := Base64.Decode(Base64.Kept(body)).bytes; der == if |bytes| > DER_MAX then [] else bytes
    ensures BodyAnchor(build, body) == if der == [] then [] else BuiltFrom(build, der)
  {
    hide Base64.Decode, Base64.Kept, BuiltFrom;
  }

  // ----- Are the compiled-in roots always there? -----

  lemma {:induction false} BuiltBound(build: Builder, ders: seq<seq<byte>>)
    ensures |BuiltAll(build, ders)| <= |ders|
    decreases |ders|
  {
    if ders != [] {
      BuiltBound(build, ders[1..]);
    }
  }

  lemma {:induction false} DersBound(bodies: seq<string>)
    ensures |Ders(bodies)| <= |bodies|
    decreases |bodies|
  {
    hide DerOf;
    if bodies != [] {
      DersBound(bodies[1..]);
    }
  }

  /** The loader skips from footer to marker, so it never meets more markers than the greedy count. */
  lemma {:induction false} BodiesBound(text: string, from: nat)
    ensures |Bodies(text, from)| <= Greedy(text, from)
    decreases |text| - from
  {
    hide FirstMatch, MatchAt;
    var p := FirstMatch(text, BEGIN, from);
    if p.Some? {
      var q := FirstMatch(text, END, p.value + |BEGIN|);
      if q.Some? {
        BodiesBound(text, q.value + |END|);
        GreedyMonotone(text, p.value + |BEGIN|, q.value + |END|);
      }
    }
  }

  lemma PemBound(build: Builder, text: string)
    ensures |PemAnchors(build, text, 0)| <= Greedy(text, 0)
  {
    hide Greedy, Bodies, BuiltAll, Ders;
    BodiesBound(text, 0);
    DersBound(Bodies(text, 0));
    BuiltBound(build, Ders(Bodies(text, 0)));
  }

  lemma PemFits(u: Setup)
    requires u.counted == u.loaded
    requires ReadFile(u.counted).Some? ==> Greedy(ReadFile(u.counted).value, 0) <= MAX_EXTERNAL
    ensures |u.FromFile()| <= u.External()
  {
    hide Greedy, PemAnchors, ReadFile;
    if ReadFile(u.counted).Some? {
      PemBound(u.build, ReadFile(u.counted).value);
    }
  }

  lemma CompiledInBound(u: Setup)
    ensures |u.CompiledIn()| <= |u.builtin| + |u.extra|
  {
    hide BuiltAll;
    BuiltBound(u.build, u.builtin + u.extra);
  }

  /** Every compiled-in root that decodes is appended exactly when the bundle's anchors and those roots together fit the
      capacity computed from the count; otherwise the first ones that still fit follow the bundle's anchors. */
  lemma RootsKeptIff(s: Store, u: Setup)
    requires s.LeftBy(u)
    ensures s.Contents() == u.FromFile() + u.CompiledIn() <==>
              |u.FromFile()| + |u.CompiledIn()| <= |u.builtin| + |u.extra| + u.External()
    ensures |u.FromFile()| <= u.Wanted() ==>
              s.Contents() == u.FromFile() + Upto(u.CompiledIn(), u.Wanted() - |u.FromFile()|)
    ensures |u.FromFile()| > u.Wanted() ==> s.Contents() == u.FromFile()[..u.Wanted()]
  {
    hide Bundled, BuiltAll, ExternalCount;
    var bundled, roots := u.FromFile(), u.CompiledIn();
    if |bundled| > u.Wanted() {
      assert (bundled + roots)[..u.Wanted()] == bundled[..u.Wanted()];
    } else if |bundled| + |roots| > u.Wanted() {
      assert (bundled + roots)[..u.Wanted()] == bundled + roots[..u.Wanted() - |bundled|];
    }
  }

  /** Whether the store merely ends with the compiled-in roots does not tell: a bundle that holds the same anchor
      may end with it although the compiled-in one was cut. */
  lemma SameAnchorTwice(a: Anchor)
    ensures var all := [a, a] + [a]; Upto(all, 2) != all && Upto(all, 2)[1..] == [a]
  {
  }

  /** With at most 256 markers and the same file at both reads, every compiled-in root that decodes is in the
      store, after all the anchors of the bundle. */
  lemma CompiledRootsAppended(s: Store, u: Setup)
    requires s.LeftBy(u) && u.counted == u.loaded
    requires ReadFile(u.counted).Some? ==> Greedy(ReadFile(u.counted).value, 0) <= MAX_EXTERNAL
    ensures s.Contents() == u.FromFile() + u.CompiledIn()
  {
    hide *;
    PemFits(u);
    CompiledInBound(u);
    WantedIs(u);
    RootsKeptIff(s, u);
  }

  lemma WantedIs(u: Setup)
    ensures u.Wanted() == |u.builtin| + |u.extra| + u.External()
  {
  }

  /** The loader installs an anchor for the body of a block. */
  predicate Accepted(build: Builder, body: string) {
    DerOf(body) != [] && build(DerOf(body)).0
  }

  ghost predicate AllAccepted(build: Builder, bodies: seq<string>) {
    forall i :: 0 <= i < |bodies| ==> Accepted(build, bodies[i])
  }

  lemma {:induction false} AllBuilt(build: Builder, bodies: seq<string>)
    requires AllAccepted(build, bodies)
    ensures |BuiltAll(build, Ders(bodies))| == |bodies|
    decreases |bodies|
  {
    hide DerOf;
    if bodies == [] {
      assert Ders(bodies) == [];
    } else {
      assert Accepted(build, bodies[0]);
      AllBuilt(build, bodies[1..]);
      DersStep(bodies[0], bodies[1..]);
      assert bodies == [bodies[0]] + bodies[1..];
      BuiltStep(build, DerOf(bodies[0]), Ders(bodies[1..]));
    }
  }

  /** Without slack, when every marker starts a block of its own, all blocks and all compiled-in certificates are
      taken, and the file is the same at both reads, the roots are all appended exactly when there are at most 256
      markers. */
  lemma RootsKeptIffFew(s: Store, u: Setup, text: string)
    requires s.LeftBy(u) && u.memory && ReadFile(u.counted) == ReadFile(u.loaded) == Some(text)
    requires |Bodies(text, 0)| == Greedy(text, 0) && AllAccepted(u.build, Bodies(text, 0))
    requires |u.CompiledIn()| == |u.builtin| + |u.extra|
    ensures s.Contents() == u.FromFile() + u.CompiledIn() <==> Greedy(text, 0) <= MAX_EXTERNAL
  {
    hide Greedy, Bodies, Ders, BuiltAll, ReadFile, Upto, AllAccepted, Store.LeftBy;
    AllBuilt(u.build, Bodies(text, 0));
    RootsKeptIff(s, u);
  }

  // ----- A bundle that leaves no room -----

  /** n copies of one block. */
  function Bundle(body: string, n: nat): (text: string)
    ensures |text| == n * (|body| + 52)
  {
    if n == 0 then [] else BEGIN + body + END + Bundle(body, n - 1)
  }

  lemma Mismatch(text: string, needle: string, p: nat)
    requires needle != [] && p < |text| && text[p] != needle[0]
    ensures !MatchAt(text, needle, p)
  {
  }

  lemma BlockParts(text: string, from: nat, body: string, rest: string)
    requires from <= |text| && text[from..] == BEGIN + body + END + rest
    ensures from + 52 + |body| <= |text| && MatchAt(text, BEGIN, from) && MatchAt(text, END, from + 27 + |body|)
    ensures text[from + 27..from + 27 + |body|] == body && text[from + 52 + |body|..] == rest
    ensures |BEGIN| == 27 && |END| == 25
  {
    var tail, k := text[from..], |body|;
    assert text[from..from + 27] == tail[..27] == BEGIN;
    assert text[from + 27..from + 27 + k] == tail[27..27 + k] == body;
    assert text[from + 27 + k..from + 52 + k] == tail[27 + k..52 + k] == END;
    assert text[from + 52 + k..] == tail[52 + k..] == rest;
  }

  /** The first match is the one match before which there is none. */
  lemma FirstMatchAt(text: string, needle: string, from: nat, p: nat)
    requires needle != [] && from <= p && MatchAt(text, needle, p)
    requires forall q :: from <= q < p ==> !MatchAt(text, needle, q)
    ensures FirstMatch(text, needle, from) == Some(p)
  {
    hide FirstMatch, MatchAt;
    FirstMatchIs(text, needle, from);
  }

  /** The first block of what is left of the bundle. */
  lemma FirstBlock(text: string, from: nat, body: string, rest: string)
    requires from <= |text| && text[from..] == BEGIN + body + END + rest && '-' !in body
    ensures FirstMatch(text, BEGIN, from) == Some(from)
    ensures FirstMatch(text, END, from + |BEGIN|) == Some(from + 27 + |body|)
    ensures from + 52 + |body| <= |text|
    ensures text[from + |BEGIN|..from + 27 + |body|] == body && text[from + 52 + |body|..] == rest
  {
    hide FirstMatch, MatchAt;
    BlockParts(text, from, body, rest);
    var b := from + 27;
    FirstMatchAt(text, BEGIN, from, from);
    forall q | b <= q < b + |body|
      ensures !MatchAt(text, END, q)
    {
      assert text[q] == body[q - b];
      Mismatch(text, END, q);
    }
    FirstMatchAt(text, END, b, b + |body|);
  }

  ghost predicate AllEqual(bodies: seq<string>, body: string) {
    forall i :: 0 <= i < |bodies| ==> bodies[i] == body
  }

  lemma {:induction false} BundleBodies(text: string, from: nat, body: string, n: nat)
    requires from <= |text| && text[from..] == Bundle(body, n) && '-' !in body
    ensures |Bodies(text, from)| == n && AllEqual(Bodies(text, from), body)
    decreases n
  {
    hide FirstMatch;
    if n == 0 {
      assert from == |text|;
      FirstMatchEnd(text, from);
    } else {
      FirstBlock(text, from, body, Bundle(body, n - 1));
      BundleBodies(text, from + 52 + |body|, body, n - 1);
    }
  }

  lemma FirstMatchEnd(text: string, from: nat)
    requires from >= |text|
    ensures FirstMatch(text, BEGIN, from) == None
  {
  }

  lemma BundleAnchors(build: Builder, body: string, n: nat)
    requires '-' !in body && Accepted(build, body)
    ensures |PemAnchors(build, Bundle(body, n), 0)| == n <= Greedy(Bundle(body, n), 0)
  {
    hide Bundle, Bodies, Ders, BuiltAll, Greedy, FirstMatch, Accepted;
    var text := Bundle(body, n);
    assert text[0..] == text;
    BundleBodies(text, 0, body, n);
    BodiesBound(text, 0);
    AllBuilt(build, Bodies(text, 0));
  }

  /** "Always appended" is false past 256 markers. Take any certificate the decoder accepts, as a PEM body without
      dashes, and a file within the size limit that holds it 256 + k times, k being the number of compiled-in
      certificates: then every slot holds an anchor of the file and no compiled-in root is appended. */
  lemma RootsStarved(s: Store, u: Setup, body: string, n: nat)
    requires '-' !in body && Accepted(u.build, body)
    requires n == MAX_EXTERNAL + |u.builtin| + |u.extra| && n * (|body| + 52) <= FILE_MAX
    requires u.counted == u.loaded == Some(Bundle(body, n)) && u.memory && s.LeftBy(u)
    ensures u.External() == MAX_EXTERNAL && |u.FromFile()| == n && s.Contents() == u.FromFile()
  {
    hide Bundle, Bodies, Ders, BuiltAll, Greedy, PemAnchors, Accepted, Store.LeftBy;
    BundleAnchors(u.build, body, n);
    RootsKeptIff(s, u);
    assert u.FromFile()[..n] == u.FromFile();
  }

  /** The same by running the initialisation. */
  method StarvedInit(build: Builder, builtin: seq<seq<byte>>, extra: seq<seq<byte>>, body: string) returns (s: Store)
    requires '-' !in body && Accepted(build, body)
    requires (MAX_EXTERNAL + |builtin| + |extra|) * (|body| + 52) <= FILE_MAX
    ensures s.Valid() && s.count == MAX_EXTERNAL + |builtin| + |extra|
    ensures s.Contents() == PemAnchors(build, Bundle(body, s.count), 0)
  {
    hide Bundle, PemAnchors, Greedy, Accepted;
    var n := MAX_EXTERNAL + |builtin| + |extra|;
    var file := Some(Bundle(body, n));
    var u := Setup(build, builtin, extra, file, file, true);
    s := new Store();
    var ok := s.Init(u, true);
    BundleAnchors(build, body, n);
    RootsStarved(s, u, body, n);
  }
}
