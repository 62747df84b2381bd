/** String lists as the repository cleans them: trimmed, without blanks, each entry once.

    `Dedupe` keeps the first of several equal entries and the order of what it keeps.

    The lemmas say what is in a cleaned list, that nothing is in it twice, and that cleaning a clean list changes
    nothing. */
module Lists {
  import opened Text

  function Trims(values: seq<string>): (r: seq<string>)
    ensures |r| == |values| && forall i :: 0 <= i < |values| ==> r[i] == Trim(values[i])
  {
    seq(|values|, i requires 0 <= i < |values| => Trim(values[i]))
  }

  /** Drops blanks and keeps the first of each. */
  function Unique(values: seq<string>): (r: seq<string>)
    ensures forall i, j :: 0 <= i < j < |r| ==> r[i] != r[j]
    ensures forall v :: v in r <==> v != "" && v in values
  {
    if values == [] then []
    else
      var init, last := Unique(values[..|values| - 1]), values[|values| - 1];
      assert values == values[..|values| - 1] + [last];
      if last == "" || last in init then init else init + [last]
  }

  function Dedupe(values: seq<string>): seq<string> {
    Unique(Trims(values))
  }

  lemma DedupeTrims(values: seq<string>)
    ensures forall v :: v in Dedupe(values) ==> v != "" && Trim(v) == v
    ensures forall v :: v in values && v != "" && Trim(v) == v ==> v in Dedupe(values)
  {
    hide Trim;
    forall v | v in Dedupe(values) ensures Trim(v) == v {
      var i :| 0 <= i < |values| && Trims(values)[i] == v;
      TrimTwice(values[i]);
    }
    forall v | v in values && v != "" && Trim(v) == v ensures v in Dedupe(values) {
      var i :| 0 <= i < |values| && values[i] == v;
      assert Trims(values)[i] == v;
    }
  }

  lemma DedupeIsUnique(values: seq<string>)
    ensures forall i, j :: 0 <= i < j < |Dedupe(values)| ==> Dedupe(values)[i] != Dedupe(values)[j]
  {
  }

  lemma {:induction false} UniqueKeepsUnique(values: seq<string>)
    requires "" !in values && forall i, j :: 0 <= i < j < |values| ==> values[i] != values[j]
    ensures Unique(values) == values
    decreases |values|
  {
    if values != [] {
      UniqueKeepsUnique(values[..|values| - 1]);
      assert values == values[..|values| - 1] + [values[|values| - 1]];
    }
  }

  lemma DedupeTwice(values: seq<string>)
    ensures Dedupe(Dedupe(values)) == Dedupe(values)
  {
    hide Trim;
    var r := Dedupe(values);
    DedupeTrims(values);
    assert Trims(r) == r;
    UniqueKeepsUnique(r);
  }

  lemma HeadIsMember<T>(s: seq<T>)
    ensures s != [] ==> s[0] in s
  {
  }
}
