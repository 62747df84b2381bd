/** The claims of a decision: cleaned, each under an identifier of its own, and stored as JSON without their
    predictions, which are recomputed on reading. */
module Claims {
  import opened Text
  import opened Lists
  import Digits

  const UNVERIFIED := "unverified"
  const SUPPORTED := "supported"
  const WEAKENED := "weakened"
  const REFUTED := "refuted"
  const INCONCLUSIVE := "inconclusive"

  datatype Realizability = Unstated | Realizable | Nonrealizable | Unknown

  datatype Probability = NotGiven | Given(p: real)

  datatype Claim = Claim(id: string, claim: string, observable: string, threshold: string, status: string,
                         verifyAfter: string, realizability: Realizability, probability: Probability)

  datatype Prediction = Prediction(claim: string, observable: string, threshold: string, status: string,
                                   verifyAfter: string, realizability: Realizability, probability: Probability)

  function NormalizeStatus(value: string): string {
    var s := Trim(value);
    if s in [UNVERIFIED, SUPPORTED, WEAKENED, REFUTED, INCONCLUSIVE] then s else UNVERIFIED
  }

  // ---------------------------------------------------------------- generated identifiers

  function CanonicalId(index: nat): string {
    "claim-" + Digits.Padded(index + 1, 3)
  }

  lemma CanonicalIdInjective(i: nat, j: nat)
    ensures CanonicalId(i) == CanonicalId(j) ==> i == j
    ensures CanonicalId(i) != "" && Trim(CanonicalId(i)) == CanonicalId(i)
  {
    hide Trim, Digits.Padded, Digits.Read;
    var a, b := Digits.Padded(i + 1, 3), Digits.Padded(j + 1, 3);
    assert CanonicalId(i)[6..] == a && CanonicalId(j)[6..] == b;
    Digits.ReadPadded(i + 1, 3);
    Digits.ReadPadded(j + 1, 3);
    var s := CanonicalId(i);
    assert s[0] == 'c' && s[|s| - 1] == a[|a| - 1] && Digits.IsDigit(a[|a| - 1]);
    TrimIsTrimmed(s);
  }

  lemma PaddedOne()
    ensures Digits.Padded(1, 3) == "001"
  {
    assert Digits.Render(1) == "1";
    assert Digits.PadLeft("1", 3) == Digits.PadLeft("0" + "1", 3) == Digits.PadLeft("0" + "01", 3) == "001";
  }

  lemma PaddedMore()
    ensures Digits.Padded(12, 3) == "012" && Digits.Padded(1000, 3) == "1000"
  {
    assert Digits.Render(12) == "1" + "2" == "12";
    assert Digits.PadLeft("12", 3) == Digits.PadLeft("0" + "12", 3) == "012";
    assert Digits.Render(10) == "10" && Digits.Render(100) == "100" && Digits.Render(1000) == "1000";
  }

  /** Generated identifiers count from one, with three digits or more. */
  lemma FirstIds()
    ensures CanonicalId(0) == "claim-001" && CanonicalId(11) == "claim-012" && CanonicalId(999) == "claim-1000"
  {
    hide Digits.Padded;
    PaddedOne();
    PaddedMore();
  }

  /** The identifiers in use that the search from `n` may still meet. */
  ghost function Blocking(seen: set<string>, n: nat): set<string> {
    set s | s in seen && exists k: nat :: k >= n && s == CanonicalId(k)
  }

  lemma SearchAdvances(seen: set<string>, n: nat)
    requires CanonicalId(n) in seen
    ensures Blocking(seen, n + 1) < Blocking(seen, n)
  {
    hide CanonicalId;
    assert CanonicalId(n) in Blocking(seen, n);
    if CanonicalId(n) in Blocking(seen, n + 1) {
      var k: nat :| k >= n + 1 && CanonicalId(n) == CanonicalId(k);
      CanonicalIdInjective(n, k);
    }
  }

  function FreshId(seen: set<string>, n: nat): (id: string)
    ensures id !in seen
    decreases Blocking(seen, n)
  {
    if CanonicalId(n) !in seen then CanonicalId(n)
    else
      SearchAdvances(seen, n);
      FreshId(seen, n + 1)
  }

  lemma {:induction false} FreshIdIsCanonical(seen: set<string>, n: nat)
    ensures FreshId(seen, n) != "" && Trim(FreshId(seen, n)) == FreshId(seen, n)
    decreases Blocking(seen, n)
  {
    hide Trim, CanonicalId;
    if CanonicalId(n) !in seen {
      CanonicalIdInjective(n, n);
    } else {
      SearchAdvances(seen, n);
      FreshIdIsCanonical(seen, n + 1);
    }
  }

  /** The candidate itself if it is free, else the first free generated identifier from `position` on. */
  function UniqueIdFor(candidate: string, position: nat, seen: set<string>): (id: string)
    ensures id !in seen
  {
    if candidate != "" && candidate !in seen then candidate else FreshId(seen, position)
  }

  method UniqueClaimId(candidate: string, position: nat, seen: set<string>) returns (id: string)
    ensures id == UniqueIdFor(Trim(candidate), position, seen)
  {
    hide Trim, CanonicalId;
    var trimmed := Trim(candidate);
    if trimmed != "" && trimmed !in seen {
      return trimmed;
    }
    var next := position;
    while CanonicalId(next) in seen
      invariant FreshId(seen, position) == FreshId(seen, next)
      decreases Blocking(seen, next)
    {
      SearchAdvances(seen, next);
      next := next + 1;
    }
    id := CanonicalId(next);
  }

  // ---------------------------------------------------------------- normalisation

  function Clean(c: Claim): Claim {
    c.(id := Trim(c.id), claim := Trim(c.claim), observable := Trim(c.observable), threshold := Trim(c.threshold),
       status := NormalizeStatus(c.status), verifyAfter := Trim(c.verifyAfter))
  }

  predicate Empty(c: Claim) {
    c.claim == "" && c.observable == "" && c.threshold == ""
  }

  function Ids(claims: seq<Claim>): set<string> {
    set c | c in claims :: c.id
  }

  function Normalize(values: seq<Claim>): (r: seq<Claim>)
  {
    if values == [] then []
    else
      var before, c := Normalize(values[..|values| - 1]), Clean(values[|values| - 1]);
      if Empty(c) then before else before + [c.(id := UniqueIdFor(c.id, |before|, Ids(before)))]
  }

  method NormalizeDecisionClaims(values: seq<Claim>) returns (claims: seq<Claim>)
    ensures claims == Normalize(values)
  {
    hide Clean, UniqueIdFor;
    claims := [];
    var seen: set<string> := {};
    for i := 0 to |values|
      invariant claims == Normalize(values[..i]) && seen == Ids(claims)
    {
      assert values[..i + 1][..i] == values[..i];
      var c := Clean(values[i]);
      if !Empty(c) {
        var id := UniqueClaimId(c.id, |claims|, seen);
        CleanTwice(values[i]);
        claims := claims + [c.(id := id)];
        seen := seen + {id};
      }
    }
    assert values[..|values|] == values;
  }

  lemma StatusTwice(value: string)
    ensures NormalizeStatus(NormalizeStatus(value)) == NormalizeStatus(value)
    ensures Trim(NormalizeStatus(value)) == NormalizeStatus(value)
  {
    hide Trim;
    TrimTwice(value);
    PlainStatuses();
  }

  lemma PlainStatuses()
    ensures Trim(UNVERIFIED) == UNVERIFIED
  {
    TrimIsTrimmed(UNVERIFIED);
  }

  lemma CleanTwice(c: Claim)
    ensures Clean(Clean(c)) == Clean(c) && Trim(Clean(c).id) == Clean(c).id
  {
    hide Trim, NormalizeStatus;
    TrimTwice(c.id);
    TrimTwice(c.claim);
    TrimTwice(c.observable);
    TrimTwice(c.threshold);
    TrimTwice(c.verifyAfter);
    StatusTwice(c.status);
  }

  /** Clean, not empty, with identifiers that are non-blank and all different. */
  ghost predicate Normal(claims: seq<Claim>) {
    && (forall c :: c in claims ==> c.id != "" && !Empty(c) && Clean(c) == c)
    && (forall i, j :: 0 <= i < j < |claims| ==> claims[i].id != claims[j].id)
  }

  lemma NormalAppend(before: seq<Claim>, d: Claim)
    requires Normal(before) && d.id != "" && !Empty(d) && Clean(d) == d && d.id !in Ids(before)
    ensures Normal(before + [d])
  {
    hide Clean;
    forall b | b in before ensures b.id != d.id {
      IdsHolds(before, b);
    }
  }

  lemma {:induction false} NormalizeIsNormal(values: seq<Claim>)
    ensures Normal(Normalize(values))
    decreases |values|
  {
    hide Clean, FreshId, Ids, Empty;
    if values != [] {
      var before, c := Normalize(values[..|values| - 1]), Clean(values[|values| - 1]);
      NormalizeIsNormal(values[..|values| - 1]);
      if !Empty(c) {
        var d := c.(id := UniqueIdFor(c.id, |before|, Ids(before)));
        FreshIdIsCanonical(Ids(before), |before|);
        CleanTwice(values[|values| - 1]);
        CleanWithId(c, d.id);
        NormalAppend(before, d);
      }
    }
  }

  lemma IdsHolds(claims: seq<Claim>, c: Claim)
    requires c in claims
    ensures c.id in Ids(claims)
  {
  }

  lemma CleanWithId(c: Claim, id: string)
    requires Clean(c) == c && Trim(id) == id
    ensures Clean(c.(id := id)) == c.(id := id) && Empty(c.(id := id)) == Empty(c)
  {
    hide Trim, NormalizeStatus;
  }

  lemma {:induction false} NormalIsFixed(claims: seq<Claim>)
    requires Normal(claims)
    ensures Normalize(claims) == claims
    decreases |claims|
  {
    hide Clean, FreshId;
    if claims != [] {
      var init, c := claims[..|claims| - 1], claims[|claims| - 1];
      assert claims == init + [c] && c in claims;
      assert Normal(init) by {
        assert forall d :: d in init ==> d in claims;
      }
      NormalIsFixed(init);
      forall d | d in init ensures d.id != c.id {
        var i :| 0 <= i < |init| && init[i] == d;
        assert claims[i].id != claims[|claims| - 1].id;
      }
    }
  }

  /** Normalising a second time changes nothing. */
  lemma NormalizeTwice(values: seq<Claim>)
    ensures Normalize(Normalize(values)) == Normalize(values)
  {
    NormalizeIsNormal(values);
    NormalIsFixed(Normalize(values));
  }

  function Cleaned(values: seq<Claim>): seq<Claim> {
    if values == [] then []
    else
      var before, c := Cleaned(values[..|values| - 1]), Clean(values[|values| - 1]);
      if Empty(c) then before else before + [c]
  }

  lemma FirstHolderKeeps(before: seq<Claim>, c: Claim)
    ensures c.id != "" && (forall k :: 0 <= k < |before| ==> before[k].id != c.id) ==>
              UniqueIdFor(c.id, |before|, Ids(before)) == c.id
  {
    hide FreshId;
  }

  /** Claims keep their order and content; a trimmed identifier is kept by the first claim that has it. */
  lemma {:induction false} NormalizeKeepsOrder(values: seq<Claim>)
    ensures var r, cleaned := Normalize(values), Cleaned(values);
            && |r| == |cleaned|
            && (forall i :: 0 <= i < |r| ==> r[i] == cleaned[i].(id := r[i].id))
            && (forall i :: 0 <= i < |r| && cleaned[i].id != "" && (forall k :: 0 <= k < i ==> r[k].id != cleaned[i].id) ==>
                  r[i].id == cleaned[i].id)
    decreases |values|
  {
    hide Clean, FreshId;
    if values != [] {
      NormalizeKeepsOrder(values[..|values| - 1]);
      var before, c := Normalize(values[..|values| - 1]), Clean(values[|values| - 1]);
      if !Empty(c) {
        FirstHolderKeeps(before, c);
        var r := Normalize(values);
        assert forall k :: 0 <= k < |before| ==> r[k] == before[k];
      }
    }
  }

  /** The normal form of one claim: its texts trimmed, its status one of five words, the rest as given. */
  predicate IsNormalOf(r: Claim, c: Claim) {
    && r.claim == Trim(c.claim) && r.observable == Trim(c.observable) && r.threshold == Trim(c.threshold)
    && r.verifyAfter == Trim(c.verifyAfter) && r.realizability == c.realizability && r.probability == c.probability
    && r.status == (if Trim(c.status) in {"unverified", "supported", "weakened", "refuted", "inconclusive"} then Trim(c.status)
                    else "unverified")
  }

  predicate AllBlank(c: Claim) {
    Trim(c.claim) == "" && Trim(c.observable) == "" && Trim(c.threshold) == ""
  }

  lemma CleanIsNormal(c: Claim, id: string)
    ensures IsNormalOf(Clean(c).(id := id), c) && (Empty(Clean(c)) <==> AllBlank(c))
  {
    hide Trim;
  }

  /** What is kept of the values: in order, just those with some text, each in its normal form. */
  ghost predicate KeepsEach(values: seq<Claim>, r: seq<Claim>, positions: seq<nat>) {
    && |positions| == |r|
    && (forall k :: 0 <= k < |r| ==> positions[k] < |values| && IsNormalOf(r[k], values[positions[k]]))
    && (forall k, l :: 0 <= k < l < |r| ==> positions[k] < positions[l])
    && (forall i :: 0 <= i < |values| ==> (i in positions <==> !AllBlank(values[i])))
  }

  lemma KeepsOneMore(values: seq<Claim>, value: Claim, r: seq<Claim>, positions: seq<nat>, kept: Claim)
    requires KeepsEach(values, r, positions) && !AllBlank(value) && IsNormalOf(kept, value)
    ensures KeepsEach(values + [value], r + [kept], positions + [|values|])
  {
    hide AllBlank, IsNormalOf;
  }

  lemma KeepsNoMore(values: seq<Claim>, value: Claim, r: seq<Claim>, positions: seq<nat>)
    requires KeepsEach(values, r, positions) && AllBlank(value)
    ensures KeepsEach(values + [value], r, positions)
  {
    hide AllBlank, IsNormalOf;
  }

  /** Which claims normalising keeps, and as what. */
  lemma {:induction false} NormalizeKeepsEach(values: seq<Claim>) returns (positions: seq<nat>)
    ensures KeepsEach(values, Normalize(values), positions)
    decreases |values|
  {
    hide Clean, UniqueIdFor, Empty, AllBlank, IsNormalOf, Normalize, KeepsEach;
    positions := [];
    NothingKept();
    if values != [] {
      var init, last := values[..|values| - 1], values[|values| - 1];
      assert values == init + [last];
      var before, c := Normalize(init), Clean(last);
      positions := NormalizeKeepsEach(init);
      NormalizeLast(values);
      CleanIsNormal(last, UniqueIdFor(c.id, |before|, Ids(before)));
      if Empty(c) {
        KeepsNoMore(init, last, before, positions);
      } else {
        KeepsOneMore(init, last, before, positions, c.(id := UniqueIdFor(c.id, |before|, Ids(before))));
        positions := positions + [|init|];
      }
    }
  }

  lemma NothingKept()
    ensures KeepsEach([], Normalize([]), [])
  {
  }

  lemma NormalizeLast(values: seq<Claim>)
    requires values != []
    ensures var before, c := Normalize(values[..|values| - 1]), Clean(values[|values| - 1]);
            Normalize(values) == if Empty(c) then before else before + [c.(id := UniqueIdFor(c.id, |before|, Ids(before)))]
  {
    hide Clean, UniqueIdFor, Empty;
  }

  // ---------------------------------------------------------------- stored and read back

  /** The part of the decision fields that holds claims. */
  datatype Fields = Fields(claims: seq<Claim>, predictions: seq<Prediction>)

  function FromPrediction(p: Prediction): Claim {
    Claim("", Trim(p.claim), Trim(p.observable), Trim(p.threshold), NormalizeStatus(p.status), Trim(p.verifyAfter),
          p.realizability, p.probability)
  }

  function FromPredictions(ps: seq<Prediction>): seq<Claim> {
    seq(|ps|, i requires 0 <= i < |ps| => FromPrediction(ps[i]))
  }

  function ClaimsFromPredictions(ps: seq<Prediction>): seq<Claim> {
    Normalize(FromPredictions(ps))
  }

  function ToPrediction(c: Claim): Prediction {
    Prediction(c.claim, c.observable, c.threshold, c.status, c.verifyAfter, c.realizability, c.probability)
  }

  function PredictionsFromClaims(claims: seq<Claim>): seq<Prediction> {
    var cs := Normalize(claims);
    seq(|cs|, i requires 0 <= i < |cs| => ToPrediction(cs[i]))
  }

  function EffectiveClaims(f: Fields): seq<Claim> {
    if Normalize(f.claims) != [] then Normalize(f.claims) else ClaimsFromPredictions(f.predictions)
  }

  /** What the JSON holds. */
  function Marshal(f: Fields): Fields {
    Fields(EffectiveClaims(f), [])
  }

  function Unmarshal(f: Fields): Fields {
    Fields(EffectiveClaims(f), PredictionsFromClaims(EffectiveClaims(f)))
  }

  /** Claims read from predictions, when no claim is stored: in order, one for each prediction with some text. */
  lemma PredictionsKeepEach(f: Fields) returns (positions: seq<nat>)
    requires Normalize(f.claims) == []
    ensures |positions| == |EffectiveClaims(f)|
    ensures forall k :: 0 <= k < |positions| ==>
              && positions[k] < |f.predictions|
              && var c, p := EffectiveClaims(f)[k], f.predictions[positions[k]];
                 && c.claim == Trim(p.claim) && c.observable == Trim(p.observable) && c.threshold == Trim(p.threshold)
                 && c.verifyAfter == Trim(p.verifyAfter) && c.realizability == p.realizability && c.probability == p.probability
                 && c.status == (if Trim(p.status) in {"unverified", "supported", "weakened", "refuted", "inconclusive"}
                                 then Trim(p.status) else "unverified")
    ensures forall k, l :: 0 <= k < l < |positions| ==> positions[k] < positions[l]
    ensures forall i :: 0 <= i < |f.predictions| ==>
              (i in positions <==>
                 Trim(f.predictions[i].claim) != "" || Trim(f.predictions[i].observable) != "" || Trim(f.predictions[i].threshold) != "")
  {
    hide Trim, Normalize, NormalizeStatus;
    positions := NormalizeKeepsEach(FromPredictions(f.predictions));
    forall i | 0 <= i < |f.predictions| ensures var c, p := FromPredictions(f.predictions)[i], f.predictions[i];
              && Trim(c.claim) == Trim(p.claim) && Trim(c.observable) == Trim(p.observable)
              && Trim(c.threshold) == Trim(p.threshold) && Trim(c.verifyAfter) == Trim(p.verifyAfter)
              && Trim(c.status) == c.status == NormalizeStatus(p.status)
              && c.realizability == p.realizability && c.probability == p.probability
    {
      var p := f.predictions[i];
      TrimTwice(p.claim);
      TrimTwice(p.observable);
      TrimTwice(p.threshold);
      TrimTwice(p.verifyAfter);
      StatusTwice(p.status);
    }
    StatusIsWord(f.predictions);
  }

  lemma StatusIsWord(ps: seq<Prediction>)
    ensures forall i :: 0 <= i < |ps| ==>
              var s := Trim(ps[i].status);
              NormalizeStatus(ps[i].status)
              == if s in {"unverified", "supported", "weakened", "refuted", "inconclusive"} then s else "unverified"
  {
    hide Trim;
  }

  /** A claim's projection holds the same in every field but the identifier. */
  predicate Projects(p: Prediction, c: Claim) {
    && p.claim == c.claim && p.observable == c.observable && p.threshold == c.threshold && p.status == c.status
    && p.verifyAfter == c.verifyAfter && p.realizability == c.realizability && p.probability == c.probability
  }

  /** Storing and reading back returns the normalised claims, with predictions equal to their projection; storing
      what was read back stores the same again. */
  lemma MarshalRoundTrip(f: Fields)
    ensures var back := Unmarshal(Marshal(f));
            && back.claims == EffectiveClaims(f)
            && Normal(back.claims)
            && |back.predictions| == |back.claims|
            && (forall i :: 0 <= i < |back.claims| ==> Projects(back.predictions[i], back.claims[i]))
            && Marshal(back) == Marshal(f)
  {
    hide Normalize;
    var cs := EffectiveClaims(f);
    NormalizeIsNormal(f.claims);
    NormalizeIsNormal(FromPredictions(f.predictions));
    NormalIsFixed(cs);
    if cs == [] {
      NothingFromNothing();
    }
  }

  lemma NothingFromNothing()
    ensures ClaimsFromPredictions([]) == [] && Normalize([]) == []
  {
  }
}
