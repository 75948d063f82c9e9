/** What the trust store takes from a bundle and from the compiled-in list, by positions in the text and in the lists
    alone. */
module PemBundle {
  import opened Machine32
  import Base64
  import opened CertStore
  import opened Selections

  /** `needle` stands at position `p`. */
  predicate Stands(text: string, needle: string, p: int) {
    0 <= p && p + |needle| <= |text| && text[p..p + |needle|] == needle
  }

  /** `p` is the first place at or after `from` where `needle` stands. */
  ghost predicate First(text: string, needle: string, from: int, p: int) {
    from <= p && Stands(text, needle, p) && forall q :: from <= q < p ==> !Stands(text, needle, q)
  }

  ghost predicate Nowhere(text: string, needle: string, from: int) {
    forall q :: from <= q ==> !Stands(text, needle, q)
  }

  lemma StandsIff(text: string, needle: string, p: nat)
    ensures Stands(text, needle, p) <==> MatchAt(text, needle, p)
  {
  }

  /** The search finds the first place, or there is none. */
  lemma SearchIs(text: string, needle: string, from: nat)
    requires needle != []
    ensures var p := FirstMatch(text, needle, from);
            if p.Some? then First(text, needle, from, p.value) else Nowhere(text, needle, from)
  {
    hide FirstMatch, MatchAt, Stands;
    FirstMatchIs(text, needle, from);
    forall q: nat
      ensures Stands(text, needle, q) <==> MatchAt(text, needle, q)
    {
      StandsIff(text, needle, q);
    }
  }

  lemma SearchFinds(text: string, needle: string, from: nat, p: nat)
    requires needle != [] && First(text, needle, from, p)
    ensures FirstMatch(text, needle, from) == Some(p)
  {
    hide FirstMatch, Stands;
    SearchIs(text, needle, from);
  }

  lemma SearchFails(text: string, needle: string, from: nat)
    requires needle != [] && Nowhere(text, needle, from)
    ensures FirstMatch(text, needle, from) == None
  {
    hide FirstMatch, Stands;
    SearchIs(text, needle, from);
  }

  // ----- Markers -----

  /** Markers of 27 characters at increasing places, none overlapping the next. */
  ghost predicate Separate(text: string, places: seq<nat>) {
    && (forall i :: 0 <= i < |places| ==> Stands(text, "-----BEGIN CERTIFICATE-----", places[i]))
    && forall i :: 0 < i < |places| ==> places[i - 1] + 27 <= places[i]
  }

  lemma {:induction false} SeparateDisjoint(text: string, places: seq<nat>, from: nat)
    requires Separate(text, places) && (places != [] ==> from <= places[0])
    ensures Disjoint(text, places, from)
    decreases |places|
  {
    hide Stands, MatchAt;
    if places != [] {
      StandsIff(text, BEGIN, places[0]);
      forall i | 0 < i < |places[1..]|
        ensures places[1..][i - 1] + 27 <= places[1..][i]
      {
        assert places[1..][i - 1] == places[i] && places[1..][i] == places[i + 1];
      }
      SeparateDisjoint(text, places[1..], places[0] + 27);
    }
  }

  lemma {:induction false} GreedyPlaces(text: string, from: nat) returns (places: seq<nat>)
    ensures Separate(text, places) && |places| == Greedy(text, from) && (places != [] ==> from <= places[0])
    decreases |text| - from
  {
    hide Stands, MatchAt, FirstMatch;
    SearchIs(text, BEGIN, from);
    match FirstMatch(text, BEGIN, from) {
      case None =>
        places := [];
      case Some(p) =>
        var rest := GreedyPlaces(text, p + 27);
        places := [p] + rest;
    }
  }

  /** The count is the largest number of markers that stand in the text without overlapping. */
  lemma CountIs(text: string, n: nat)
    ensures Greedy(text, 0) == n <==>
              && (exists places :: Separate(text, places) && |places| == n)
              && forall places :: Separate(text, places) ==> |places| <= n
  {
    hide Greedy, Disjoint, Separate;
    var most := GreedyPlaces(text, 0);
    forall places | Separate(text, places)
      ensures |places| <= Greedy(text, 0)
    {
      SeparateDisjoint(text, places, 0);
      GreedyIsMaximal(text, places, 0);
    }
  }

  // ----- Blocks -----

  /** Where the search for block `i` starts: at the front, or behind the footer (25 characters) of the block before. */
  function From(qs: seq<nat>, i: nat): nat
    requires i <= |qs|
  {
    if i == 0 then 0 else qs[i - 1] + 25
  }

  /** The blocks of a text: each marker is the first one from there on, its footer the first one behind the marker, and
      after the last block no marker with a footer behind it is left. */
  ghost predicate BlocksAre(text: string, ps: seq<nat>, qs: seq<nat>) {
    && |ps| == |qs|
    && (forall i :: 0 <= i < |ps| ==> First(text, "-----BEGIN CERTIFICATE-----", From(qs, i), ps[i]))
    && (forall i :: 0 <= i < |ps| ==> First(text, "-----END CERTIFICATE-----", ps[i] + 27, qs[i]))
    && (Nowhere(text, "-----BEGIN CERTIFICATE-----", From(qs, |qs|))
        || exists p :: First(text, "-----BEGIN CERTIFICATE-----", From(qs, |qs|), p)
                       && Nowhere(text, "-----END CERTIFICATE-----", p + 27))
  }

  /** The loader meets exactly those blocks, in order, and takes what stands between marker and footer. */
  lemma BodiesAre(text: string, ps: seq<nat>, qs: seq<nat>)
    requires |ps| == |qs| && BlocksAre(text, ps, qs)
    ensures |Bodies(text, 0)| == |ps|
    ensures forall i :: 0 <= i < |ps| ==> ps[i] + 27 <= qs[i] <= |text| && Bodies(text, 0)[i] == text[ps[i] + 27..qs[i]]
  {
    hide BlocksAre, Bodies;
    BodiesFrom(text, ps, qs, 0);
    forall i | 0 <= i < |ps|
      ensures ps[i] + 27 <= qs[i] <= |text| && Bodies(text, 0)[i] == text[ps[i] + 27..qs[i]]
    {
      assert BodyAt(text, ps, qs, i, Bodies(text, 0), 0);
    }
  }

  lemma {:induction false} BodiesFrom(text: string, ps: seq<nat>, qs: seq<nat>, k: nat)
    requires BlocksAre(text, ps, qs) && k <= |ps|
    ensures |Bodies(text, From(qs, k))| == |ps| - k
    ensures forall i :: k <= i < |ps| ==> BodyAt(text, ps, qs, i, Bodies(text, From(qs, k)), k)
    decreases |ps| - k
  {
    hide *;
    BlockAt(text, ps, qs, k);
    if k == |ps| {
      NoMoreBlocks(text, From(qs, k));
    } else {
      BlockFound(text, From(qs, k), ps[k], qs[k]);
      BodiesFrom(text, ps, qs, k + 1);
      FrontBody(text, ps, qs, k, k + 1, Bodies(text, From(qs, k + 1)), Bodies(text, From(qs, k)));
    }
  }

  /** The body of block `i` is in the list of those from block `k` on. */
  ghost predicate BodyAt(text: string, ps: seq<nat>, qs: seq<nat>, i: nat, bodies: seq<string>, k: nat) {
    k <= i < |ps| == |qs| && i - k < |bodies| && ps[i] + 27 <= qs[i] <= |text|
    && bodies[i - k] == text[ps[i] + 27..qs[i]]
  }

  lemma BlockAt(text: string, ps: seq<nat>, qs: seq<nat>, k: nat)
    requires BlocksAre(text, ps, qs) && k <= |ps|
    ensures |ps| == |qs|
    ensures k < |ps| ==> First(text, BEGIN, From(qs, k), ps[k]) && First(text, END, ps[k] + 27, qs[k])
    ensures k < |ps| ==> From(qs, k + 1) == qs[k] + 25
    ensures k == |ps| ==>
              Nowhere(text, BEGIN, From(qs, k))
              || exists p :: First(text, BEGIN, From(qs, k), p) && Nowhere(text, END, p + 27)
  {
    hide First, Nowhere;
  }

  lemma FrontBody(text: string, ps: seq<nat>, qs: seq<nat>, k: nat, next: nat, rest: seq<string>, bodies: seq<string>)
    requires |ps| == |qs| && k < |ps| && ps[k] + 27 <= qs[k] <= |text| && |rest| == |ps| - next && next == k + 1
    requires forall i :: next <= i < |ps| ==> BodyAt(text, ps, qs, i, rest, next)
    requires bodies == [text[ps[k] + 27..qs[k]]] + rest
    ensures forall i :: k <= i < |ps| ==> BodyAt(text, ps, qs, i, bodies, k)
  {
    forall i | k <= i < |ps|
      ensures BodyAt(text, ps, qs, i, bodies, k)
    {
      if i > k { assert BodyAt(text, ps, qs, i, rest, next); }
    }
  }

  lemma NoMoreBlocks(text: string, from: nat)
    requires Nowhere(text, BEGIN, from) || exists p :: First(text, BEGIN, from, p) && Nowhere(text, END, p + 27)
    ensures Bodies(text, from) == []
  {
    hide FirstMatch, Stands, First, Nowhere;
    if Nowhere(text, BEGIN, from) {
      SearchFails(text, BEGIN, from);
    } else {
      var p :| First(text, BEGIN, from, p) && Nowhere(text, END, p + 27);
      FirstLater(text, BEGIN, from, p);
      SearchFinds(text, BEGIN, from, p);
      SearchFails(text, END, p + 27);
    }
  }

  lemma FirstLater(text: string, needle: string, from: nat, p: int)
    requires First(text, needle, from, p)
    ensures from <= p && p + |needle| <= |text|
  {
  }

  lemma BlockFound(text: string, from: nat, p: nat, q: nat)
    requires First(text, BEGIN, from, p) && First(text, END, p + 27, q)
    ensures p + 27 <= q <= |text| && Bodies(text, from) == [text[p + 27..q]] + Bodies(text, q + 25)
  {
    hide FirstMatch, Stands, First;
    FirstLater(text, BEGIN, from, p);
    FirstLater(text, END, p + 27, q);
    SearchFinds(text, BEGIN, from, p);
    SearchFinds(text, END, p + 27, q);
  }

  // ----- Anchors -----

  /** Appending a list of certificates appends the anchors of the accepted ones, in order. */
  lemma {:induction false} BuiltAre(build: Builder, ders: seq<seq<byte>>, taken: seq<bool>, at: seq<nat>)
    requires |taken| == |ders| && (forall i :: 0 <= i < |ders| ==> taken[i] == build(ders[i]).0) && Selects(taken, at)
    ensures |BuiltAll(build, ders)| == |at|
    ensures forall j :: 0 <= j < |at| ==> at[j] < |ders| && BuiltAll(build, ders)[j] == build(ders[at[j]]).1
    decreases |ders|
  {
    hide BuiltAll, BuiltFrom, Selects;
    if ders == [] {
      NoneSelected(at);
      NoneBuilt(build, ders);
    } else {
      var n := |ders| - 1;
      BuiltLast(build, ders[..n], ders[n]);
      assert ders == ders[..n] + [ders[n]];
      if taken[n] {
        LastSelected(taken, at);
        BuiltAre(build, ders[..n], taken[..n], at[..|at| - 1]);
      } else {
        LastUnselected(taken, at);
        BuiltAre(build, ders[..n], taken[..n], at);
      }
    }
  }

  lemma BuiltLast(build: Builder, front: seq<seq<byte>>, der: seq<byte>)
    ensures BuiltAll(build, front + [der]) == BuiltAll(build, front) + if build(der).0 then [build(der).1] else []
  {
    BuiltConcat(build, front, [der]);
    assert BuiltAll(build, [der]) == BuiltFrom(build, der) + BuiltAll(build, []);
  }

  /** The bytes of a body, before their size is looked at. */
  function Decoded(body: string): seq<byte> { Base64.Decode(Base64.Kept(body)).bytes }

  /** A body counts if it decodes to between 1 and 8192 bytes; the anchors of a bundle are those of the certificates
      in the bodies that count. */
  lemma AnchorsAre(build: Builder, text: string, counts: seq<bool>, at: seq<nat>, ders: seq<seq<byte>>)
    requires |counts| == |Bodies(text, 0)| && Selects(counts, at) && |ders| == |at|
    requires forall i :: 0 <= i < |counts| ==> counts[i] == (1 <= |Decoded(Bodies(text, 0)[i])| <= 8192)
    requires forall j :: 0 <= j < |at| ==> at[j] < |counts| && ders[j] == Decoded(Bodies(text, 0)[at[j]])
    ensures PemAnchors(build, text, 0) == BuiltAll(build, ders)
  {
    hide Bodies, BuiltAll, Decoded, Selects;
    DersAre(Bodies(text, 0), counts, at, ders);
  }

  lemma {:induction false} DersAre(bodies: seq<string>, counts: seq<bool>, at: seq<nat>, ders: seq<seq<byte>>)
    requires |counts| == |bodies| && Selects(counts, at) && |ders| == |at|
    requires forall i :: 0 <= i < |bodies| ==> counts[i] == (1 <= |Decoded(bodies[i])| <= 8192)
    requires forall j :: 0 <= j < |at| ==> at[j] < |bodies| && ders[j] == Decoded(bodies[at[j]])
    ensures Ders(bodies) == ders
    decreases |bodies|
  {
    hide Decoded, Ders;
    if bodies == [] {
      NoneSelected(at);
      NoDers();
    } else {
      var n := |bodies| - 1;
      DersLast(bodies[..n], bodies[n]);
      assert bodies == bodies[..n] + [bodies[n]];
      if counts[n] {
        LastSelected(counts, at);
        var m := |at| - 1;
        assert ders == ders[..m] + [ders[m]];
        DersAre(bodies[..n], counts[..n], at[..m], ders[..m]);
      } else {
        LastUnselected(counts, at);
        DersAre(bodies[..n], counts[..n], at, ders);
      }
    }
  }

  lemma NoDers()
    ensures Ders([]) == []
  {
  }

  lemma {:induction false} DersLast(front: seq<string>, body: string)
    ensures Ders(front + [body]) == Ders(front) + if 1 <= |Decoded(body)| <= 8192 then [Decoded(body)] else []
    decreases |front|
  {
    hide Base64.Decode, Base64.Kept;
    if front == [] {
      assert front + [body] == [body] + [];
      DersStep(body, []);
    } else {
      assert front + [body] == [front[0]] + (front[1..] + [body]) && front == [front[0]] + front[1..];
      DersStep(front[0], front[1..] + [body]);
      DersStep(front[0], front[1..]);
      DersLast(front[1..], body);
    }
  }

  // ----- The store -----

  /** What a read gives: the text of a file of 1 to 524288 bytes that can be opened and read. */
  predicate Reads(file: Option<string>, text: string) {
    file == Some(text) && 1 <= |text| <= 524288
  }

  /** The whole initialisation, with the count `external` of at most 256 markers that the counting read gives, and the
      anchors `bundle` of the loading read, which is only looked at if markers were counted. */
  lemma StoreIs(s: Store, u: Setup, external: nat, bundle: seq<Anchor>)
    requires s.LeftBy(u)
    requires forall text :: Reads(u.counted, text) ==>
               external == if Greedy(text, 0) <= 256 then Greedy(text, 0) else 256
    requires (forall text :: !Reads(u.counted, text)) ==> external == 0
    requires forall text :: external > 0 && u.memory && Reads(u.loaded, text) ==> bundle == PemAnchors(u.build, text, 0)
    requires external == 0 || !u.memory || (forall text :: !Reads(u.loaded, text)) ==> bundle == []
    ensures s.capacity == |u.builtin| + |u.extra| + external
    ensures var all := bundle + BuiltAll(u.build, u.builtin + u.extra);
            s.Contents() == if |all| <= s.capacity then all else all[..s.capacity]
  {
    hide Greedy, PemAnchors, BuiltAll;
    CountedIs(u, external);
    LoadedIs(u, external, bundle);
  }

  lemma CountedIs(u: Setup, external: nat)
    requires forall text :: Reads(u.counted, text) ==>
               external == if Greedy(text, 0) <= 256 then Greedy(text, 0) else 256
    requires (forall text :: !Reads(u.counted, text)) ==> external == 0
    ensures u.External() == external
  {
    hide Greedy;
    if u.counted.Some? && 1 <= |u.counted.value| <= 524288 {
      assert Reads(u.counted, u.counted.value);
    }
  }

  lemma LoadedIs(u: Setup, external: nat, bundle: seq<Anchor>)
    requires u.External() == external
    requires forall text :: external > 0 && u.memory && Reads(u.loaded, text) ==> bundle == PemAnchors(u.build, text, 0)
    requires external == 0 || !u.memory || (forall text :: !Reads(u.loaded, text)) ==> bundle == []
    ensures u.FromFile() == bundle
  {
    hide Greedy, PemAnchors;
    if u.loaded.Some? && 1 <= |u.loaded.value| <= 524288 {
      assert Reads(u.loaded, u.loaded.value);
    }
  }
}
