/** The request and response records of one batch, the grouping of parts by
    video that `process` performs, and the `hasErrors` fold. */
module Batch {
  import opened JavaStrings
  import opened Validation

  /** One requested clip: `video` from `from` to `to` seconds. */
  datatype PartRequest = PartRequest(video: string, from: Int32, to: Int32)

  /** The answer for one requested clip. */
  datatype PartResponse = PartResponse(video: string, from: Int32, to: Int32, succeeded: bool)

  datatype ClipperResponse = ClipperResponse(parts: seq<PartResponse>, hasErrors: bool)

  /** The request a response answers. */
  function RequestOf(r: PartResponse): PartRequest {
    PartRequest(r.video, r.from, r.to)
  }

  function RequestsOf(rs: seq<PartResponse>): (ps: seq<PartRequest>)
    ensures |ps| == |rs|
    ensures forall i :: 0 <= i < |rs| ==> ps[i] == RequestOf(rs[i])
  {
    seq(|rs|, i requires 0 <= i < |rs| => RequestOf(rs[i]))
  }

  /** `anyMatch(resp -> !resp.succeeded)`. */
  function HasErrors(rs: seq<PartResponse>): (b: bool)
    ensures b <==> exists i :: 0 <= i < |rs| && !rs[i].succeeded
    decreases |rs|
  {
    if rs == [] then false else !rs[0].succeeded || HasErrors(rs[1..])
  }

  // ---------------------------------------------------------------------------
  // Grouping by video
  // ---------------------------------------------------------------------------

  /** The group `groupingBy(p -> p.video)` builds for `v`: the parts of `v`
      in input order. */
  function PartsOf(parts: seq<PartRequest>, v: string): (g: seq<PartRequest>)
    ensures forall i :: 0 <= i < |g| ==> g[i].video == v
    ensures |g| <= |parts|
    decreases |parts|
  {
    if parts == [] then []
    else
      var last := parts[|parts| - 1];
      PartsOf(parts[..|parts| - 1], v) + (if last.video == v then [last] else [])
  }

  function Videos(parts: seq<PartRequest>): set<string> {
    set p | p in parts :: p.video
  }

  /** The order in which the grouping map hands out its keys is unspecified;
      `order` stands for it: every video of the batch, each exactly once. */
  predicate IsGroupOrder(order: seq<string>, parts: seq<PartRequest>) {
    NoDuplicates(order) && (set v | v in order) == Videos(parts)
  }

  /** The parts as the stream of groups hands them on: group after group. */
  function Regrouped(parts: seq<PartRequest>, order: seq<string>): seq<PartRequest>
    decreases |order|
  {
    if order == [] then []
    else Regrouped(parts, order[..|order| - 1]) + PartsOf(parts, order[|order| - 1])
  }

  /** The regrouped parts are parts of the batch whose video is listed. */
  lemma {:induction false} RegroupedWithin(parts: seq<PartRequest>, order: seq<string>)
    ensures forall p :: p in Regrouped(parts, order) ==> p in parts && p.video in order
    decreases |order|
  {
    if order != [] {
      var o, v := order[..|order| - 1], order[|order| - 1];
      RegroupedWithin(parts, o);
      PartsOfWithin(parts, v);
      assert Regrouped(parts, order) == Regrouped(parts, o) + PartsOf(parts, v);
    }
  }

  lemma {:induction false} PartsOfWithin(parts: seq<PartRequest>, v: string)
    ensures forall p :: p in PartsOf(parts, v) ==> p in parts
    decreases |parts|
  {
    if parts != [] {
      PartsOfWithin(parts[..|parts| - 1], v);
    }
  }

  lemma {:induction false} PartsOfAppend(a: seq<PartRequest>, b: seq<PartRequest>, v: string)
    ensures PartsOf(a + b, v) == PartsOf(a, v) + PartsOf(b, v)
    decreases |b|
  {
    if b == [] {
      assert a + b == a;
    } else {
      var b' := b[..|b| - 1];
      assert (a + b)[..|a + b| - 1] == a + b';
      PartsOfAppend(a, b', v);
    }
  }

  lemma {:induction false} PartsOfGroup(parts: seq<PartRequest>, u: string, v: string)
    ensures PartsOf(PartsOf(parts, u), v) == if u == v then PartsOf(parts, u) else []
    decreases |parts|
  {
    if parts != [] {
      var init, last := parts[..|parts| - 1], parts[|parts| - 1];
      PartsOfGroup(init, u, v);
      var tail := if last.video == u then [last] else [];
      PartsOfAppend(PartsOf(init, u), tail, v);
    }
  }

  /** An empty batch regroups to nothing, whatever the key order; the base
      case of the induction in `RegroupedCovers`. */
  lemma {:induction false} RegroupedEmpty(order: seq<string>)
    ensures Regrouped([], order) == []
    decreases |order|
  {
    if order != [] {
      RegroupedEmpty(order[..|order| - 1]);
    }
  }

  /** Adding a part at the end adds it to the regrouped parts once, if its
      video is listed. */
  lemma {:induction false} RegroupedSnoc(ps: seq<PartRequest>, p: PartRequest, order: seq<string>)
    requires NoDuplicates(order)
    ensures multiset(Regrouped(ps + [p], order)) ==
              multiset(Regrouped(ps, order)) + (if p.video in order then multiset{p} else multiset{})
    decreases |order|
  {
    if order != [] {
      var o, v := order[..|order| - 1], order[|order| - 1];
      assert NoDuplicates(o);
      assert v !in o;
      assert order == o + [v];
      RegroupedSnoc(ps, p, o);
      assert (ps + [p])[..|ps|] == ps;
      assert PartsOf(ps + [p], v) == PartsOf(ps, v) + (if p.video == v then [p] else []);
    }
  }

  lemma {:induction false} RegroupedCovers(parts: seq<PartRequest>, order: seq<string>)
    requires NoDuplicates(order)
    requires Videos(parts) <= set v | v in order
    ensures multiset(Regrouped(parts, order)) == multiset(parts)
    decreases |parts|
  {
    if parts == [] {
      RegroupedEmpty(order);
    } else {
      var ps, p := parts[..|parts| - 1], parts[|parts| - 1];
      assert parts == ps + [p];
      assert Videos(ps) <= Videos(parts);
      assert p.video in Videos(parts);
      RegroupedCovers(ps, order);
      RegroupedSnoc(ps, p, order);
    }
  }

  /** Grouping loses no part and duplicates none. */
  lemma {:induction false} RegroupedIsPermutation(parts: seq<PartRequest>, order: seq<string>)
    requires IsGroupOrder(order, parts)
    ensures multiset(Regrouped(parts, order)) == multiset(parts)
    ensures |Regrouped(parts, order)| == |parts|
  {
    RegroupedCovers(parts, order);
    assert |multiset(Regrouped(parts, order))| == |multiset(parts)|;
  }

  lemma {:induction false} RegroupedVideo(parts: seq<PartRequest>, order: seq<string>, v: string)
    requires NoDuplicates(order)
    ensures PartsOf(Regrouped(parts, order), v) == if v in order then PartsOf(parts, v) else []
    decreases |order|
  {
    if order != [] {
      var o, u := order[..|order| - 1], order[|order| - 1];
      assert NoDuplicates(o);
      assert u !in o;
      assert v in order <==> v in o || v == u;
      RegroupedVideo(parts, o, v);
      PartsOfAppend(Regrouped(parts, o), PartsOf(parts, u), v);
      PartsOfGroup(parts, u, v);
    }
  }

  /** Within each video, grouping keeps the parts in their input order. */
  lemma {:induction false} RegroupedKeepsVideoOrder(parts: seq<PartRequest>, order: seq<string>, v: string)
    requires IsGroupOrder(order, parts)
    ensures PartsOf(Regrouped(parts, order), v) == PartsOf(parts, v)
  {
    RegroupedVideo(parts, order, v);
    if v !in order {
      NoPartsOfOtherVideo(parts, v);
    }
  }

  lemma {:induction false} NoPartsOfOtherVideo(parts: seq<PartRequest>, v: string)
    requires v !in Videos(parts)
    ensures PartsOf(parts, v) == []
    decreases |parts|
  {
    if parts != [] {
      var init := parts[..|parts| - 1];
      assert Videos(init) <= Videos(parts);
      NoPartsOfOtherVideo(init, v);
      assert parts[|parts| - 1].video in Videos(parts);
    }
  }
}
