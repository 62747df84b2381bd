/** What one piece of evidence scores: a base by verdict and kind, less the penalty of its congruence level. */
module EvidenceScores {
  import opened Text
  import opened WeakestLink

  /** One evidence row; `congruence` is -1 when the row stores none. */
  datatype Evidence = Evidence(kind: string, verdict: string, congruence: int, expired: bool)

  function KindLevel(kind: string): int {
    var k := Lower(kind);
    if k == "internal" || k == "audit_report" then 3
    else if k == "external" then 2
    else if k == "research" then 1
    else 3
  }

  function EffectiveLevel(e: Evidence): (cl: int)
    ensures 0 <= cl <= 3
  {
    if 0 <= e.congruence <= 3 then e.congruence else KindLevel(e.kind)
  }

  predicate Refuting(verdict: string) {
    var v := Lower(Trim(verdict));
    v == "refutes" || v == "failed" || v == "fail"
  }

  predicate Supporting(verdict: string) {
    var v := Lower(Trim(verdict));
    v == "supports" || v == "accepted" || v == "pass"
  }

  /** An unknown verdict counts as a weakening one. */
  function VerdictBase(verdict: string): real {
    if Supporting(verdict) then 1.0 else if Refuting(verdict) then 0.0 else 0.5
  }

  function Base(kind: string, verdict: string): real {
    var k := Lower(Trim(kind));
    if k == "explicit_measure" then 0.8
    else if k == "partial_measure" then 0.5
    else if k == "attached" then if Refuting(verdict) then 0.0 else 0.7
    else VerdictBase(verdict)
  }

  /** Rounds a score that is not negative to two decimals. */
  function Rounded(x: real): real {
    (x * 100.0 + 0.5).Floor as real / 100.0
  }

  function EvidenceScore(e: Evidence): real {
    if e.expired then 0.1 else Rounded(Max(0.0, Base(e.kind, e.verdict) - Penalty(EffectiveLevel(e))))
  }

  // ---------------------------------------------------------------- the scores in numbers

  /** What level a row counts at: the one stored or else that of its kind, whatever the letter case. */
  lemma LevelOfKind(e: Evidence)
    ensures 0 <= e.congruence <= 3 ==> EffectiveLevel(e) == e.congruence
    ensures !(0 <= e.congruence <= 3) && Lower(e.kind) == "external" ==> EffectiveLevel(e) == 2
    ensures !(0 <= e.congruence <= 3) && Lower(e.kind) == "research" ==> EffectiveLevel(e) == 1
    ensures !(0 <= e.congruence <= 3) && Lower(e.kind) !in {"external", "research"} ==> EffectiveLevel(e) == 3
  {
  }

  /** Rounding changes no score; the penalty is 0, 0.1, 0.4 and 0.9 from level 3 down to 0. */
  lemma ScoreByLevel(e: Evidence)
    requires !e.expired
    ensures var base, level := Base(e.kind, e.verdict), EffectiveLevel(e);
            && (level == 3 ==> EvidenceScore(e) == base)
            && (level == 2 ==> EvidenceScore(e) == if base >= 0.1 then base - 0.1 else 0.0)
            && (level == 1 ==> EvidenceScore(e) == if base >= 0.4 then base - 0.4 else 0.0)
            && (level == 0 ==> EvidenceScore(e) == if base >= 0.9 then base - 0.9 else 0.0)
    ensures 0.0 <= EvidenceScore(e) <= 1.0
  {
    hide Trim, Lower, EffectiveLevel;
    assert Base(e.kind, e.verdict) in {0.0, 0.5, 0.7, 0.8, 1.0};
  }

  lemma ScoreInRange(e: Evidence)
    ensures 0.0 <= EvidenceScore(e) <= 1.0
  {
    if !e.expired {
      ScoreByLevel(e);
    }
  }

  lemma KindWords()
    ensures forall w :: w in {"internal", "external", "research", "general", "explicit_measure", "partial_measure", "attached"} ==>
              Trim(w) == w && Lower(w) == w
  {
    hide Trim, Lower;
    PlainWord("internal");
    PlainWord("external");
    PlainWord("research");
    PlainWord("general");
    PlainWord("explicit_measure");
    PlainWord("partial_measure");
    PlainWord("attached");
  }

  lemma VerdictWords()
    ensures forall w :: w in {"supports", "accepted", "pass", "weakens", "partial", "degrade", "unclear", "refutes", "failed", "fail"} ==>
              Trim(w) == w && Lower(w) == w
  {
    hide Trim, Lower;
    PlainWord("supports");
    PlainWord("accepted");
    PlainWord("pass");
    PlainWord("weakens");
    PlainWord("partial");
    PlainWord("degrade");
    PlainWord("unclear");
    PlainWord("refutes");
    PlainWord("failed");
    PlainWord("fail");
  }

  /** Ordinary evidence, by the words of its verdict: 1, a half or nothing before the penalty; expired evidence 0.1. */
  lemma ScoreOfWords(e: Evidence)
    requires e.kind in {"internal", "external", "research", "general"} && e.congruence < 0
    ensures e.expired ==> EvidenceScore(e) == 0.1
    ensures !e.expired && e.verdict in {"supports", "accepted", "pass"} ==>
              EvidenceScore(e) == if e.kind == "external" then 0.9 else if e.kind == "research" then 0.6 else 1.0
    ensures !e.expired && e.verdict in {"weakens", "partial", "degrade", "unclear"} ==>
              EvidenceScore(e) == if e.kind == "external" then 0.4 else if e.kind == "research" then 0.1 else 0.5
    ensures !e.expired && e.verdict in {"refutes", "failed", "fail"} ==> EvidenceScore(e) == 0.0
  {
    hide Trim, Lower, Rounded;
    KindWords();
    VerdictWords();
    if !e.expired {
      ScoreByLevel(e);
    }
  }

  /** Measures and attached evidence have bases of their own. */
  lemma ScoreOfMeasures(e: Evidence)
    requires !e.expired && e.congruence == 3
    ensures e.kind == "explicit_measure" ==> EvidenceScore(e) == 0.8
    ensures e.kind == "partial_measure" ==> EvidenceScore(e) == 0.5
    ensures e.kind == "attached" ==> EvidenceScore(e) == if Refuting(e.verdict) then 0.0 else 0.7
  {
    hide Trim, Lower, Rounded, Refuting;
    KindWords();
    ScoreByLevel(e);
  }
}
