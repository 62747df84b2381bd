/** Putting ranked lists together: reciprocal-rank fusion, and the merge of patterns, cards, the fused list and the
    deterministic hits that fills the answer up to its limit. */
module Fusion {
  import opened Sorting

  type Id = string

  // ---------------------------------------------------------------- scores

  function Weight(k: real, rank: nat): (w: real)
    requires k >= 0.0
    ensures w > 0.0
  {
    1.0 / (k + rank as real + 1.0)
  }

  /** What one list gives to the id: the weights of all ranks it stands at. */
  function ListScore(list: seq<Id>, k: real, id: Id): (w: real)
    requires k >= 0.0
    ensures w >= 0.0
    ensures id !in list ==> w == 0.0
  {
    if list == [] then 0.0
    else
      var n := |list| - 1;
      assert list == list[..n] + [list[n]];
      ListScore(list[..n], k, id) + if list[n] == id then Weight(k, n) else 0.0
  }

  function Score(lists: seq<seq<Id>>, k: real, id: Id): (w: real)
    requires k >= 0.0
    ensures w >= 0.0
  {
    if lists == [] then 0.0 else Score(lists[..|lists| - 1], k, id) + ListScore(lists[|lists| - 1], k, id)
  }

  function Ids(lists: seq<seq<Id>>): set<Id> {
    set list, id | list in lists && id in list :: id
  }

  /** Higher scores first, ties in the order of the ids. */
  predicate RanksAbove(lists: seq<seq<Id>>, k: real, a: Id, b: Id)
    requires k >= 0.0
  {
    Score(lists, k, a) > Score(lists, k, b) || (Score(lists, k, a) == Score(lists, k, b) && Before(a, b))
  }

  /** All ids of the lists, each once, in the order of their scores. */
  ghost predicate IsFusion(lists: seq<seq<Id>>, k: real, ids: seq<Id>)
    requires k >= 0.0
  {
    && (forall x :: x in ids <==> x in Ids(lists))
    && (forall i, j :: 0 <= i < j < |ids| ==> RanksAbove(lists, k, ids[i], ids[j]))
  }

  lemma RanksAreTotal(lists: seq<seq<Id>>, k: real, a: Id, b: Id)
    requires k >= 0.0
    ensures RanksAbove(lists, k, a, b) ==> !RanksAbove(lists, k, b, a)
    ensures a != b ==> RanksAbove(lists, k, a, b) || RanksAbove(lists, k, b, a)
    ensures !RanksAbove(lists, k, a, a)
  {
    hide Before, Score;
    BeforeAsymmetric(a, b);
    BeforeAsymmetric(a, a);
  }

  /** There is one fusion, whatever order the scores were collected in. */
  lemma {:induction false} FusionIsUnique(lists: seq<seq<Id>>, k: real, x: seq<Id>, y: seq<Id>, i: nat)
    requires k >= 0.0 && IsFusion(lists, k, x) && IsFusion(lists, k, y)
    ensures |x| == |y| && (i < |x| ==> x[i] == y[i])
    decreases i
  {
    FusionLength(lists, k, x);
    FusionLength(lists, k, y);
    if i < |x| {
      forall j | 0 <= j < i ensures x[j] == y[j] {
        FusionIsUnique(lists, k, x, y, j);
      }
      FusionNext(lists, k, x, y, i);
    }
  }

  lemma FusionLength(lists: seq<seq<Id>>, k: real, x: seq<Id>)
    requires k >= 0.0 && IsFusion(lists, k, x)
    ensures |x| == |Ids(lists)|
  {
    hide RanksAbove;
    forall i, j | 0 <= i < j < |x| ensures x[i] != x[j] {
      RanksAreTotal(lists, k, x[i], x[i]);
    }
    DistinctCount(x);
    assert (set v | v in x) == Ids(lists);
  }

  lemma {:induction false} DistinctCount(x: seq<Id>)
    requires forall i, j :: 0 <= i < j < |x| ==> x[i] != x[j]
    ensures |(set v | v in x)| == |x|
    decreases |x|
  {
    if x != [] {
      var init, last := x[..|x| - 1], x[|x| - 1];
      assert x == init + [last];
      DistinctCount(init);
      assert (set v | v in x) == (set v | v in init) + {last};
      assert last !in init;
    } else {
      assert (set v | v in x) == {};
    }
  }

  lemma FusionNext(lists: seq<seq<Id>>, k: real, x: seq<Id>, y: seq<Id>, i: nat)
    requires k >= 0.0 && IsFusion(lists, k, x) && IsFusion(lists, k, y) && i < |x| == |y|
    requires forall j :: 0 <= j < i ==> x[j] == y[j]
    ensures x[i] == y[i]
  {
    hide RanksAbove;
    assert x[i] in x && y[i] in y;
    var p :| 0 <= p < |y| && y[p] == x[i];
    var q :| 0 <= q < |x| && x[q] == y[i];
    RanksAreTotal(lists, k, x[i], y[i]);
    RanksAreTotal(lists, k, x[i], x[i]);
    RanksAreTotal(lists, k, y[i], y[i]);
  }

  // ---------------------------------------------------------------- better in every list

  ghost predicate NoDuplicates(list: seq<Id>) {
    forall i, j :: 0 <= i < j < |list| ==> list[i] != list[j]
  }

  lemma {:induction false} SingleScore(list: seq<Id>, k: real, i: nat)
    requires k >= 0.0 && NoDuplicates(list) && i < |list|
    ensures ListScore(list, k, list[i]) == Weight(k, i)
    decreases |list|
  {
    var n := |list| - 1;
    if i < n {
      SingleScore(list[..n], k, i);
    } else {
      assert list[n] !in list[..n];
    }
  }

  /** A list without repetitions adds one over `k` and the rank of the id, ranks counted from 1, to its score. */
  lemma ScoreByRank(lists: seq<seq<Id>>, list: seq<Id>, k: real, id: Id)
    requires k >= 0.0 && NoDuplicates(list)
    ensures Score([], k, id) == 0.0
    ensures id !in list ==> Score(lists + [list], k, id) == Score(lists, k, id)
    ensures forall i :: 0 <= i < |list| && list[i] == id ==>
              Score(lists + [list], k, id) == Score(lists, k, id) + 1.0 / (k + (i + 1) as real)
  {
    assert (lists + [list])[..|lists|] == lists;
    forall i | 0 <= i < |list| && list[i] == id
      ensures ListScore(list, k, id) == 1.0 / (k + (i + 1) as real)
    {
      SingleScore(list, k, i);
    }
  }

  lemma WeightFalls(k: real, i: nat, j: nat)
    requires k >= 0.0 && i < j
    ensures Weight(k, i) > Weight(k, j)
  {
    Quotients(k + i as real + 1.0, k + j as real + 1.0);
  }

  lemma Quotients(a: real, b: real)
    requires 0.0 < a < b
    ensures 1.0 / a > 1.0 / b
  {
    var x, y := 1.0 / a, 1.0 / b;
    assert x * a == 1.0 && y * b == 1.0 && y > 0.0;
    assert y * (b - a) > 0.0;
    assert (x - y) * a > 0.0;
  }

  /** `a` stands before `b` in the list, or `b` is not in it. */
  ghost predicate Precedes(list: seq<Id>, a: Id, b: Id) {
    b in list ==> exists i, j :: 0 <= i < j < |list| && list[i] == a && list[j] == b
  }

  lemma ListScoreFalls(list: seq<Id>, k: real, a: Id, b: Id)
    requires k >= 0.0 && NoDuplicates(list) && Precedes(list, a, b)
    ensures ListScore(list, k, a) >= ListScore(list, k, b)
    ensures b in list ==> ListScore(list, k, a) > ListScore(list, k, b)
  {
    hide ListScore, Weight;
    if b in list {
      var i, j :| 0 <= i < j < |list| && list[i] == a && list[j] == b;
      SingleScore(list, k, i);
      SingleScore(list, k, j);
      WeightFalls(k, i, j);
    }
  }

  lemma {:induction false} ScoreFalls(lists: seq<seq<Id>>, k: real, a: Id, b: Id)
    requires k >= 0.0
    requires forall list :: list in lists ==> NoDuplicates(list) && Precedes(list, a, b)
    ensures Score(lists, k, a) >= Score(lists, k, b)
    ensures b in Ids(lists) ==> Score(lists, k, a) > Score(lists, k, b)
    decreases |lists|
  {
    hide ListScore, NoDuplicates, Precedes;
    if lists != [] {
      var init, last := lists[..|lists| - 1], lists[|lists| - 1];
      assert lists == init + [last] && last in lists;
      ScoreFalls(init, k, a, b);
      ListScoreFalls(last, k, a, b);
    }
  }

  /** If `a` precedes `b` in every list that holds `b`, it precedes `b` in the fusion. */
  lemma FusionRespectsLists(lists: seq<seq<Id>>, k: real, ids: seq<Id>, a: Id, b: Id)
    requires k >= 0.0 && IsFusion(lists, k, ids) && b in Ids(lists)
    requires forall list :: list in lists ==> NoDuplicates(list) && Precedes(list, a, b)
    ensures exists i, j :: 0 <= i < j < |ids| && ids[i] == a && ids[j] == b
  {
    hide Score, NoDuplicates;
    ScoreFalls(lists, k, a, b);
    var list :| list in lists && b in list;
    assert Precedes(list, a, b);
    var p, q :| 0 <= p < q < |list| && list[p] == a && list[q] == b;
    assert a in list && a in Ids(lists);
    var i :| 0 <= i < |ids| && ids[i] == a;
    var j :| 0 <= j < |ids| && ids[j] == b;
    assert !RanksAbove(lists, k, b, a);
  }

  // ---------------------------------------------------------------- computing the fusion

  function Scored(scores: map<Id, real>, id: Id): real {
    if id in scores then scores[id] else 0.0
  }

  /** Adds what one list gives to the scores. */
  method AddList(list: seq<Id>, k: real, before: map<Id, real>) returns (scores: map<Id, real>)
    requires k >= 0.0
    ensures forall id :: id in scores <==> id in before || id in list
    ensures forall id :: Scored(scores, id) == Scored(before, id) + ListScore(list, k, id)
  {
    hide Weight;
    scores := before;
    for rank := 0 to |list|
      invariant forall id :: id in scores <==> id in before || id in list[..rank]
      invariant forall id :: Scored(scores, id) == Scored(before, id) + ListScore(list[..rank], k, id)
    {
      assert list[..rank + 1][..rank] == list[..rank];
      assert list[..rank + 1] == list[..rank] + [list[rank]];
      var id := list[rank];
      scores := scores[id := Scored(scores, id) + Weight(k, rank)];
    }
    assert list[..|list|] == list;
  }

  method ScoreLists(lists: seq<seq<Id>>, k: real) returns (scores: map<Id, real>)
    requires k >= 0.0
    ensures scores.Keys == Ids(lists)
    ensures forall id :: id in scores ==> scores[id] == Score(lists, k, id)
  {
    hide ListScore;
    scores := map[];
    for i := 0 to |lists|
      invariant scores.Keys == Ids(lists[..i])
      invariant forall id :: Scored(scores, id) == Score(lists[..i], k, id)
    {
      assert lists[..i + 1][..i] == lists[..i];
      assert lists[..i + 1] == lists[..i] + [lists[i]];
      scores := AddList(lists[i], k, scores);
    }
    assert lists[..|lists|] == lists;
  }

  predicate Above(scores: map<Id, real>, a: Id, b: Id) {
    Scored(scores, a) > Scored(scores, b) || (Scored(scores, a) == Scored(scores, b) && Before(a, b))
  }

  /** Puts the id where the order wants it. */
  method Place(scores: map<Id, real>, ids: seq<Id>, id: Id) returns (r: seq<Id>)
    requires forall i, j :: 0 <= i < j < |ids| ==> Above(scores, ids[i], ids[j])
    requires id !in ids
    ensures forall i, j :: 0 <= i < j < |r| ==> Above(scores, r[i], r[j])
    ensures forall x :: x in r <==> x in ids || x == id
  {
    hide Above;
    var n := |ids|;
    while n > 0 && !Above(scores, ids[n - 1], id)
      invariant 0 <= n <= |ids|
      invariant forall i :: n <= i < |ids| ==> Above(scores, id, ids[i])
    {
      AboveIsTotal(scores, ids[n - 1], id);
      n := n - 1;
    }
    forall i | 0 <= i < n ensures Above(scores, ids[i], id) {
      if i < n - 1 {
        AboveIsTransitive(scores, ids[i], ids[n - 1], id);
      }
    }
    r := ids[..n] + [id] + ids[n..];
    assert ids == ids[..n] + ids[n..];
  }

  lemma AboveIsTotal(scores: map<Id, real>, a: Id, b: Id)
    requires a != b
    ensures Above(scores, a, b) || Above(scores, b, a)
  {
    hide Before;
    BeforeAsymmetric(a, b);
  }

  lemma AboveIsTransitive(scores: map<Id, real>, a: Id, b: Id, c: Id)
    requires Above(scores, a, b) && Above(scores, b, c)
    ensures Above(scores, a, c)
  {
    hide Before;
    if Before(a, b) && Before(b, c) {
      BeforeTransitive(a, b, c);
    }
  }

  /** Sums the scores, takes the ids in whatever order the map gives them, and sorts. */
  method FuseRRF(lists: seq<seq<Id>>, k: real) returns (ids: seq<Id>)
    requires k >= 0.0
    ensures IsFusion(lists, k, ids)
  {
    hide Score, Above;
    var scores := ScoreLists(lists, k);
    ids := [];
    var rest := scores.Keys;
    while rest != {}
      invariant rest <= scores.Keys
      invariant forall x :: x in ids <==> x in scores && x !in rest
      invariant forall i, j :: 0 <= i < j < |ids| ==> Above(scores, ids[i], ids[j])
      decreases rest
    {
      var id :| id in rest;
      rest := rest - {id};
      ids := Place(scores, ids, id);
    }
    forall i, j | 0 <= i < j < |ids| ensures RanksAbove(lists, k, ids[i], ids[j]) {
      assert ids[i] in ids && ids[j] in ids;
      AboveRanks(lists, k, scores, ids[i], ids[j]);
    }
  }

  lemma AboveRanks(lists: seq<seq<Id>>, k: real, scores: map<Id, real>, a: Id, b: Id)
    requires k >= 0.0 && a in scores && b in scores && scores[a] == Score(lists, k, a) && scores[b] == Score(lists, k, b)
    requires Above(scores, a, b)
    ensures RanksAbove(lists, k, a, b)
  {
  }

  // ---------------------------------------------------------------- filling the answer

  datatype Hit = Hit(patternId: string, heading: string, patternTier: bool, section: int)

  /** What makes two hits the same answer. */
  function Key(h: Hit): string {
    h.patternId + "|" + h.heading
  }

  function Keys(hits: seq<Hit>): set<string> {
    set h | h in hits :: Key(h)
  }

  /** The first `limit` hits of different keys. */
  function FirstDistinct(hits: seq<Hit>, limit: nat): (r: seq<Hit>)
    ensures |r| <= limit
  {
    if hits == [] then []
    else
      var before, last := FirstDistinct(hits[..|hits| - 1], limit), hits[|hits| - 1];
      if |before| >= limit || Key(last) in Keys(before) then before else before + [last]
  }

  function PatternTier(hits: seq<Hit>): seq<Hit> {
    if hits == [] then []
    else PatternTier(hits[..|hits| - 1]) + if hits[|hits| - 1].patternTier then [hits[|hits| - 1]] else []
  }

  function Picked(hits: seq<Hit>, patternsOnly: bool): seq<Hit> {
    if patternsOnly then PatternTier(hits) else hits
  }

  lemma PickedStep(hits: seq<Hit>, patternsOnly: bool, i: nat)
    requires i < |hits|
    ensures Picked(hits[..i + 1], patternsOnly) ==
            Picked(hits[..i], patternsOnly) + if !patternsOnly || hits[i].patternTier then [hits[i]] else []
  {
    assert hits[..i + 1][..i] == hits[..i] && hits[..i + 1] == hits[..i] + [hits[i]];
  }

  /** Exact patterns, the strongest cards, the fusion, and all deterministic hits as the floor. */
  function Candidates(deterministic: seq<Hit>, cards: seq<Hit>, fused: seq<Hit>): seq<Hit> {
    PatternTier(deterministic) + cards + fused + deterministic
  }

  /** A hit is left out only if its key is there or the limit is reached. */
  lemma {:induction false} NothingSkipped(hits: seq<Hit>, limit: nat)
    ensures var r := FirstDistinct(hits, limit);
            |r| == limit || forall i :: 0 <= i < |hits| ==> Key(hits[i]) in Keys(r)
    decreases |hits|
  {
    hide Key;
    if hits != [] {
      var init, last := hits[..|hits| - 1], hits[|hits| - 1];
      NothingSkipped(init, limit);
      var before, r := FirstDistinct(init, limit), FirstDistinct(hits, limit);
      KeysAppend(before, last);
      assert forall i :: 0 <= i < |init| ==> hits[i] == init[i];
    }
  }

  /** Where each hit of the answer comes from: it is the first of its key, and the order is kept. */
  lemma {:induction false} FirstOfItsKey(hits: seq<Hit>, limit: nat) returns (at: seq<nat>)
    ensures var r := FirstDistinct(hits, limit);
            && |at| == |r|
            && (forall i :: 0 <= i < |r| ==> at[i] < |hits| && hits[at[i]] == r[i])
            && (forall i, j :: 0 <= i < j < |r| ==> at[i] < at[j])
            && (forall i, j :: 0 <= i < |r| && 0 <= j < at[i] ==> Key(hits[j]) != Key(r[i]))
    decreases |hits|
  {
    hide Key, Keys;
    if hits == [] {
      at := [];
    } else {
      var init, last := hits[..|hits| - 1], hits[|hits| - 1];
      var before := FirstDistinct(init, limit);
      at := FirstOfItsKey(init, limit);
      if |before| < limit && Key(last) !in Keys(before) {
        NothingSkipped(init, limit);
        assert forall j :: 0 <= j < |init| ==> Key(init[j]) in Keys(before) && init[j] == hits[j];
        at := at + [|init|];
      }
    }
  }

  lemma KeysAppend(hits: seq<Hit>, h: Hit)
    ensures Keys(hits + [h]) == Keys(hits) + {Key(h)}
  {
    hide Key;
    assert h in hits + [h];
  }

  /** The answer under construction. */
  class Answer {
    const limit: nat
    var seen: set<string>
    var out: seq<Hit>

    ghost predicate Valid()
      reads this
    {
      seen == Keys(out) && |out| <= limit
    }

    constructor (limit: nat)
      ensures Valid() && out == [] && this.limit == limit
    {
      this.limit, seen, out := limit, {}, [];
    }

    /** Adds a hit unless its key is there; says whether there is room for more. */
    method Add(h: Hit, ghost hits: seq<Hit>) returns (more: bool)
      requires Valid() && out == FirstDistinct(hits, limit)
      modifies this
      ensures Valid() && out == FirstDistinct(hits + [h], limit)
      ensures !more ==> |out| == limit
    {
      hide Key;
      assert (hits + [h])[..|hits|] == hits;
      if |out| >= limit {
        return false;
      }
      var key := Key(h);
      if key in seen {
        return true;
      }
      KeysAppend(out, h);
      seen := seen + {key};
      out := out + [h];
      more := |out| < limit;
    }

    /** Adds the hits one by one, while there is room; only those of the pattern tier, if asked. */
    method AddAll(hits: seq<Hit>, patternsOnly: bool, ghost before: seq<Hit>) returns (more: bool)
      requires Valid() && out == FirstDistinct(before, limit)
      modifies this
      ensures Valid() && out == FirstDistinct(before + Picked(hits, patternsOnly), limit)
      ensures !more ==> |out| == limit
    {
      hide Key, FirstDistinct, Picked;
      NonePicked(before, hits, patternsOnly);
      for i := 0 to |hits|
        invariant Valid() && out == FirstDistinct(before + Picked(hits[..i], patternsOnly), limit)
      {
        ghost var done := before + Picked(hits[..i], patternsOnly);
        PickedStep(hits, patternsOnly, i);
        if !patternsOnly || hits[i].patternTier {
          assert done + [hits[i]] == before + (Picked(hits[..i], patternsOnly) + [hits[i]]);
          var room := Add(hits[i], done);
          if !room {
            FullStaysFull(before, hits, i + 1, patternsOnly, limit);
            return false;
          }
        } else {
          assert before + (Picked(hits[..i], patternsOnly) + []) == done;
        }
      }
      assert hits[..|hits|] == hits;
      more := true;
    }
  }

  lemma NonePicked(before: seq<Hit>, hits: seq<Hit>, patternsOnly: bool)
    ensures before + Picked(hits[..0], patternsOnly) == before
  {
    assert hits[..0] == [];
  }

  lemma PrefixOfAll(hits: seq<Hit>, n: nat)
    requires n <= |hits|
    ensures hits == hits[..n] + hits[n..]
  {
  }

  lemma {:induction false} PatternTierAppend(a: seq<Hit>, b: seq<Hit>)
    ensures PatternTier(a + b) == PatternTier(a) + PatternTier(b)
    decreases |b|
  {
    if b == [] {
      assert a + b == a;
    } else {
      PatternTierAppend(a, b[..|b| - 1]);
      assert (a + b)[..|a + b| - 1] == a + b[..|b| - 1];
    }
  }

  /** Once the limit is reached, more hits change nothing. */
  lemma {:induction false} FullStays(a: seq<Hit>, b: seq<Hit>, limit: nat)
    requires |FirstDistinct(a, limit)| == limit
    ensures FirstDistinct(a + b, limit) == FirstDistinct(a, limit)
    decreases |b|
  {
    if b == [] {
      assert a + b == a;
    } else {
      FullStays(a, b[..|b| - 1], limit);
      assert (a + b)[..|a + b| - 1] == a + b[..|b| - 1];
    }
  }

  lemma FullStaysFull(before: seq<Hit>, hits: seq<Hit>, n: nat, patternsOnly: bool, limit: nat)
    requires n <= |hits| && |FirstDistinct(before + Picked(hits[..n], patternsOnly), limit)| == limit
    ensures FirstDistinct(before + Picked(hits, patternsOnly), limit) == FirstDistinct(before + Picked(hits[..n], patternsOnly), limit)
  {
    hide FirstDistinct, PatternTier;
    PrefixOfAll(hits, n);
    PatternTierAppend(hits[..n], hits[n..]);
    FullStays(before + Picked(hits[..n], patternsOnly), Picked(hits[n..], patternsOnly), limit);
    assert before + Picked(hits[..n], patternsOnly) + Picked(hits[n..], patternsOnly) == before + Picked(hits, patternsOnly);
  }

  method MergeResults(deterministic: seq<Hit>, cards: seq<Hit>, fused: seq<Hit>, limit: nat) returns (out: seq<Hit>)
    ensures out == FirstDistinct(Candidates(deterministic, cards, fused), limit)
  {
    hide FirstDistinct, PatternTier;
    ghost var patterns := PatternTier(deterministic);
    var answer := new Answer(limit);
    NoHits(limit);
    assert [] + patterns == patterns;
    var more := answer.AddAll(deterministic, true, []);
    if !more {
      FullStays(patterns, cards + fused + deterministic, limit);
      assert patterns + (cards + fused + deterministic) == Candidates(deterministic, cards, fused);
      return answer.out;
    }
    more := answer.AddAll(cards, false, patterns);
    if !more {
      FullStays(patterns + cards, fused + deterministic, limit);
      assert patterns + cards + (fused + deterministic) == Candidates(deterministic, cards, fused);
      return answer.out;
    }
    more := answer.AddAll(fused, false, patterns + cards);
    if !more {
      FullStays(patterns + cards + fused, deterministic, limit);
      return answer.out;
    }
    more := answer.AddAll(deterministic, false, patterns + cards + fused);
    out := answer.out;
  }

  lemma NoHits(limit: nat)
    ensures FirstDistinct([], limit) == []
  {
  }

  /** A deterministic hit is missing from the answer only if the limit was reached. */
  lemma DeterministicFloor(deterministic: seq<Hit>, cards: seq<Hit>, fused: seq<Hit>, limit: nat, h: Hit)
    requires h in deterministic
    ensures var r := FirstDistinct(Candidates(deterministic, cards, fused), limit);
            |r| == limit || exists g :: g in r && g.patternId + "|" + g.heading == h.patternId + "|" + h.heading
  {
    hide FirstDistinct, PatternTier;
    var all := Candidates(deterministic, cards, fused);
    NothingSkipped(all, limit);
    assert h in all;
    if Key(h) in Keys(FirstDistinct(all, limit)) {
      var g :| g in FirstDistinct(all, limit) && Key(g) == Key(h);
    }
  }
}
