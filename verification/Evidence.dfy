/** What a piece of evidence says about which claims: references, scope aliases, binding keys, and the status
    that the active evidence gives a claim. */
module Evidence {
  import opened Text
  import opened Lists
  import opened Sorting
  import opened Claims

  /** How criteria are matched: the key of a text, and the keys a criterion is looked up under. */
  datatype Vocabulary = Vocabulary(matchKey: string -> string, aliasKeys: string -> seq<string>)

  /** The part of a claim that bindings depend on. Its status is not in it. */
  datatype Label = Label(id: string, claim: string, observable: string, threshold: string)

  function Labels(claims: seq<Claim>): (r: seq<Label>)
    ensures |r| == |claims|
    ensures forall i :: 0 <= i < |claims| ==>
              r[i] == Label(claims[i].id, claims[i].claim, claims[i].observable, claims[i].threshold)
  {
    seq(|claims|, i requires 0 <= i < |claims| => Label(claims[i].id, claims[i].claim, claims[i].observable, claims[i].threshold))
  }

  // ---------------------------------------------------------------- aliases

  function AliasValues(l: Label): seq<string> {
    var c, o, t := Trim(l.claim), Trim(l.observable), Trim(l.threshold);
    (if c != "" then [c] else [])
    + (if o != "" then [o] else [])
    + (if c != "" && o != "" then [c + " " + o] else [])
    + (if c != "" && t != "" then [c + " " + t] else [])
    + (if o != "" && t != "" then [o + " " + t] else [])
    + (if c != "" && o != "" && t != "" then [c + " " + o + " " + t] else [])
  }

  /** The texts a claim answers to: its claim, its observable, and joined by blanks each of these with what follows it
      among claim, observable and threshold. The threshold alone is none. */
  lemma AliasTexts(l: Label)
    ensures var c, o, t := Trim(l.claim), Trim(l.observable), Trim(l.threshold);
            && (c != "" && o != "" && t != "" ==>
                  AliasValues(l) == [c, o, c + " " + o, c + " " + t, o + " " + t, c + " " + o + " " + t])
            && (c != "" && o != "" && t == "" ==> AliasValues(l) == [c, o, c + " " + o])
            && (c != "" && o == "" && t != "" ==> AliasValues(l) == [c, c + " " + t])
            && (c == "" && o != "" && t != "" ==> AliasValues(l) == [o, o + " " + t])
            && (c != "" && o == "" && t == "" ==> AliasValues(l) == [c])
            && (c == "" && o != "" && t == "" ==> AliasValues(l) == [o])
            && (c == "" && o == "" ==> AliasValues(l) == [])
  {
    hide Trim;
  }

  function KeysOf(v: Vocabulary, values: seq<string>): (keys: seq<string>)
    ensures forall i, j :: 0 <= i < j < |keys| ==> keys[i] != keys[j]
  {
    Unique(seq(|values|, i requires 0 <= i < |values| => v.matchKey(values[i])))
  }

  function AliasKeys(v: Vocabulary, l: Label): (keys: seq<string>)
    ensures forall i, j :: 0 <= i < j < |keys| ==> keys[i] != keys[j]
  {
    KeysOf(v, AliasValues(l))
  }

  /** How many claims answer to the key, and the first that does. */
  function Holders(v: Vocabulary, labels: seq<Label>, key: string): nat {
    if labels == [] then 0
    else Holders(v, labels[..|labels| - 1], key) + if key in AliasKeys(v, labels[|labels| - 1]) then 1 else 0
  }

  function FirstHolder(v: Vocabulary, labels: seq<Label>, key: string): (i: nat)
    requires Holders(v, labels, key) > 0
    ensures i < |labels|
  {
    var init := labels[..|labels| - 1];
    if Holders(v, init, key) > 0 then FirstHolder(v, init, key) else |labels| - 1
  }

  datatype Index = NoIndex | At(i: nat)

  /** A key stands for a claim only if no other claim answers to it. */
  function Owner(v: Vocabulary, labels: seq<Label>, key: string): (r: Index)
    ensures r.At? ==> r.i < |labels|
  {
    if Holders(v, labels, key) == 1 then At(FirstHolder(v, labels, key)) else NoIndex
  }

  function Counted(counts: map<string, nat>, key: string): nat {
    if key in counts then counts[key] else 0
  }

  /** Counts one claim's keys, and notes the claim under each key met for the first time. */
  method CountKeys(keys: seq<string>, i: nat, counts0: map<string, nat>, aliases0: map<string, nat>)
    returns (counts: map<string, nat>, aliases: map<string, nat>)
    requires counts0.Keys == aliases0.Keys
    requires forall i, j :: 0 <= i < j < |keys| ==> keys[i] != keys[j]
    ensures counts.Keys == aliases.Keys
    ensures forall key :: key in counts <==> key in counts0 || key in keys
    ensures forall key :: key in counts ==> counts[key] == Counted(counts0, key) + (if key in keys then 1 else 0)
    ensures forall key :: key in aliases ==> aliases[key] == if key in aliases0 then aliases0[key] else i
  {
    counts, aliases := counts0, aliases0;
    for j := 0 to |keys|
      invariant counts.Keys == aliases.Keys
      invariant forall key :: key in counts <==> key in counts0 || key in keys[..j]
      invariant forall key :: key in counts ==> counts[key] == Counted(counts0, key) + (if key in keys[..j] then 1 else 0)
      invariant forall key :: key in aliases ==> aliases[key] == if key in aliases0 then aliases0[key] else i
    {
      var key := keys[j];
      assert keys[..j + 1] == keys[..j] + [key] && key !in keys[..j];
      counts := counts[key := Counted(counts, key) + 1];
      if key !in aliases {
        aliases := aliases[key := i];
      }
    }
    assert keys[..|keys|] == keys;
  }

  lemma HoldersStep(v: Vocabulary, labels: seq<Label>, i: nat, key: string)
    requires i < |labels|
    ensures Holders(v, labels[..i + 1], key) ==
            Holders(v, labels[..i], key) + if key in AliasKeys(v, labels[i]) then 1 else 0
    ensures Holders(v, labels[..i + 1], key) > 0 ==>
              FirstHolder(v, labels[..i + 1], key) ==
                if Holders(v, labels[..i], key) > 0 then FirstHolder(v, labels[..i], key) else i
  {
    hide AliasKeys;
    assert labels[..i + 1][..i] == labels[..i];
  }

  ghost predicate IsAliasIndex(v: Vocabulary, labels: seq<Label>, index: map<string, nat>) {
    && (forall key :: key in index <==> Owner(v, labels, key).At?)
    && (forall key :: key in index ==> index[key] == Owner(v, labels, key).i)
  }

  method BuildAliasIndex(v: Vocabulary, labels: seq<Label>) returns (index: map<string, nat>)
    ensures IsAliasIndex(v, labels, index)
  {
    hide AliasKeys, Holders, FirstHolder;
    var counts: map<string, nat> := map[];
    var aliases: map<string, nat> := map[];
    NoHolders(v, labels);
    for i := 0 to |labels|
      invariant counts.Keys == aliases.Keys
      invariant forall key :: Counted(counts, key) == Holders(v, labels[..i], key)
      invariant forall key :: key in counts ==> counts[key] > 0
      invariant forall key :: key in counts ==> Holders(v, labels[..i], key) > 0 && aliases[key] == FirstHolder(v, labels[..i], key)
    {
      forall key {
        HoldersStep(v, labels, i, key);
      }
      counts, aliases := CountKeys(AliasKeys(v, labels[i]), i, counts, aliases);
    }
    assert labels[..|labels|] == labels;
    index := map key | key in aliases && counts[key] == 1 :: aliases[key];
  }

  lemma NoHolders(v: Vocabulary, labels: seq<Label>)
    ensures forall key :: Holders(v, labels[..0], key) == 0
  {
  }

  function FirstOwned(v: Vocabulary, labels: seq<Label>, keys: seq<string>): (r: Index)
    ensures r.At? ==> r.i < |labels|
  {
    if keys == [] then NoIndex
    else if Owner(v, labels, keys[0]).At? then Owner(v, labels, keys[0])
    else FirstOwned(v, labels, keys[1..])
  }

  /** The claim a criterion or scope entry stands for. */
  function ResolveAlias(v: Vocabulary, labels: seq<Label>, value: string): (r: Index)
    ensures r.At? ==> r.i < |labels|
  {
    FirstOwned(v, labels, v.aliasKeys(value))
  }

  /** The claim answers to the key: it is that of one of its texts. */
  predicate Answers(v: Vocabulary, l: Label, key: string) {
    key != "" && exists s :: s in AliasValues(l) && v.matchKey(s) == key
  }

  lemma AliasKeysAnswer(v: Vocabulary, l: Label, key: string)
    ensures key in AliasKeys(v, l) <==> Answers(v, l, key)
  {
    hide AliasValues;
    var values := AliasValues(l);
    var keys := seq(|values|, i requires 0 <= i < |values| => v.matchKey(values[i]));
    if key in keys {
      var i :| 0 <= i < |keys| && keys[i] == key;
      assert values[i] in values;
    }
    if s :| s in values && v.matchKey(s) == key {
      var i :| 0 <= i < |values| && values[i] == s;
      assert keys[i] == key;
    }
  }

  lemma {:induction false} NoHoldersIff(v: Vocabulary, labels: seq<Label>, key: string)
    ensures Holders(v, labels, key) == 0 <==> forall j :: 0 <= j < |labels| ==> !Answers(v, labels[j], key)
    decreases |labels|
  {
    hide AliasKeys, Answers;
    if labels != [] {
      NoHoldersIff(v, labels[..|labels| - 1], key);
      AliasKeysAnswer(v, labels[|labels| - 1], key);
    }
  }

  /** A key stands for a claim exactly if that claim answers to it and no other does. */
  lemma {:induction false} OwnerIff(v: Vocabulary, labels: seq<Label>, key: string, i: nat)
    requires i < |labels|
    ensures Owner(v, labels, key) == At(i) <==>
              Answers(v, labels[i], key) && forall j :: 0 <= j < |labels| && j != i ==> !Answers(v, labels[j], key)
    decreases |labels|
  {
    hide AliasKeys, Answers;
    var n := |labels| - 1;
    var init := labels[..n];
    AliasKeysAnswer(v, labels[n], key);
    NoHoldersIff(v, init, key);
    if i < n {
      OwnerIff(v, init, key, i);
    }
  }

  /** The claim alone answers to the key at position `k`, and no claim alone answers to an earlier one. */
  ghost predicate FirstAlone(v: Vocabulary, labels: seq<Label>, keys: seq<string>, k: nat, i: nat)
    requires i < |labels|
  {
    && k < |keys| && Alone(v, labels, keys[k], i)
    && forall m, j: nat :: 0 <= m < k && j < |labels| ==> !Alone(v, labels, keys[m], j)
  }

  ghost predicate Alone(v: Vocabulary, labels: seq<Label>, key: string, i: nat)
    requires i < |labels|
  {
    Answers(v, labels[i], key) && forall j :: 0 <= j < |labels| && j != i ==> !Answers(v, labels[j], key)
  }

  lemma {:induction false} FirstOwnedIff(v: Vocabulary, labels: seq<Label>, keys: seq<string>, i: nat)
    requires i < |labels|
    ensures FirstOwned(v, labels, keys) == At(i) <==> exists k: nat :: FirstAlone(v, labels, keys, k, i)
    decreases |keys|
  {
    hide Owner, Answers, Alone;
    if keys != [] {
      forall j: nat | j < |labels| ensures Owner(v, labels, keys[0]) == At(j) <==> Alone(v, labels, keys[0], j) {
        OwnerAlone(v, labels, keys[0], j);
      }
      var rest := keys[1..];
      FirstOwnedIff(v, labels, rest, i);
      if Owner(v, labels, keys[0]).At? {
        var j := Owner(v, labels, keys[0]).i;
        assert Alone(v, labels, keys[0], j);
        if j == i {
          assert FirstAlone(v, labels, keys, 0, i);
        }
      } else {
        if k: nat :| FirstAlone(v, labels, rest, k, i) {
          FirstAloneLater(v, labels, keys, k, i);
        }
        if k: nat :| FirstAlone(v, labels, keys, k, i) {
          FirstAloneSooner(v, labels, keys, k, i);
        }
      }
    }
  }

  lemma OwnerAlone(v: Vocabulary, labels: seq<Label>, key: string, i: nat)
    requires i < |labels|
    ensures Owner(v, labels, key) == At(i) <==> Alone(v, labels, key, i)
  {
    hide Owner, Answers;
    OwnerIff(v, labels, key, i);
  }

  lemma FirstAloneLater(v: Vocabulary, labels: seq<Label>, keys: seq<string>, k: nat, i: nat)
    requires i < |labels| && keys != [] && FirstAlone(v, labels, keys[1..], k, i)
    requires forall j: nat :: j < |labels| ==> !Alone(v, labels, keys[0], j)
    ensures FirstAlone(v, labels, keys, k + 1, i)
  {
    hide Alone;
    forall m, j: nat | 0 <= m < k + 1 && j < |labels| ensures !Alone(v, labels, keys[m], j) {
      assert m > 0 ==> keys[m] == keys[1..][m - 1];
    }
  }

  lemma FirstAloneSooner(v: Vocabulary, labels: seq<Label>, keys: seq<string>, k: nat, i: nat)
    requires i < |labels| && keys != [] && FirstAlone(v, labels, keys, k, i)
    requires forall j: nat :: j < |labels| ==> !Alone(v, labels, keys[0], j)
    ensures k > 0 && FirstAlone(v, labels, keys[1..], k - 1, i)
  {
    hide Alone;
    forall m, j: nat | 0 <= m < k - 1 && j < |labels| ensures !Alone(v, labels, keys[1..][m], j) {
      assert keys[m + 1] == keys[1..][m];
    }
  }

  /** A criterion stands for a claim exactly if that claim alone answers to one of its keys, the first that one claim
      alone answers to. */
  lemma ResolvesIff(v: Vocabulary, labels: seq<Label>, value: string, i: nat)
    requires i < |labels|
    ensures ResolveAlias(v, labels, value) == At(i) <==> exists k: nat :: FirstAlone(v, labels, v.aliasKeys(value), k, i)
  {
    hide FirstOwned, FirstAlone;
    FirstOwnedIff(v, labels, v.aliasKeys(value), i);
  }

  // ---------------------------------------------------------------- references

  datatype Item = Item(id: string, kind: string, verdict: string, congruence: int, refs: seq<string>, scope: seq<string>)

  function NormalizeScope(scope: seq<string>): seq<string> {
    Sort(Dedupe(scope))
  }

  datatype Refs = UnknownRefs | Refs(ids: seq<string>)

  function LabelIds(labels: seq<Label>): set<string> {
    set l | l in labels :: l.id
  }

  function ScopeIds(v: Vocabulary, labels: seq<Label>, scope: seq<string>): seq<string> {
    if scope == [] then []
    else
      var r := ResolveAlias(v, labels, scope[0]);
      (if r.At? then [labels[r.i].id] else []) + ScopeIds(v, labels, scope[1..])
  }

  /** Explicit references must all be known; without any, the scope is resolved by alias. */
  function ResolveRefs(v: Vocabulary, labels: seq<Label>, refs: seq<string>, scope: seq<string>): Refs {
    var explicitRefs := Dedupe(refs);
    if labels == [] then
      if explicitRefs == [] then Refs([]) else UnknownRefs
    else if explicitRefs != [] then
      if forall r :: r in explicitRefs ==> r in LabelIds(labels) then Refs(explicitRefs) else UnknownRefs
    else Refs(Dedupe(ScopeIds(v, labels, NormalizeScope(scope))))
  }

  predicate Binds(v: Vocabulary, labels: seq<Label>, item: Item, id: string) {
    var r := ResolveRefs(v, labels, item.refs, item.scope);
    r.Refs? && id in r.ids
  }

  lemma {:induction false} ScopeIdsMembers(v: Vocabulary, labels: seq<Label>, scope: seq<string>, id: string)
    ensures id in ScopeIds(v, labels, scope) <==>
              exists s, i: nat :: s in scope && i < |labels| && ResolveAlias(v, labels, s) == At(i) && labels[i].id == id
  {
    hide ResolveAlias;
    if scope != [] {
      ScopeIdsMembers(v, labels, scope[1..], id);
      assert scope == [scope[0]] + scope[1..];
    }
  }

  lemma DedupeIs(values: seq<string>, x: string)
    ensures x in Dedupe(values) <==> x != "" && exists w :: w in values && Trim(w) == x
  {
    hide Trim;
    if x in Dedupe(values) {
      var i :| 0 <= i < |values| && Trims(values)[i] == x;
      assert values[i] in values;
    }
    if w :| w in values && Trim(w) == x {
      var i :| 0 <= i < |values| && values[i] == w;
      assert Trims(values)[i] == x;
    }
  }

  lemma ScopeIs(scope: seq<string>, x: string)
    ensures x in NormalizeScope(scope) <==> x != "" && exists w :: w in scope && Trim(w) == x
  {
    hide Trim, Sort, Dedupe;
    DedupeIs(scope, x);
    SortKeepsMembers(Dedupe(scope));
  }

  /** The item names some claim outright. */
  predicate NamesClaims(item: Item) {
    exists r :: r in item.refs && Trim(r) != ""
  }

  predicate Knows(labels: seq<Label>, id: string) {
    exists l :: l in labels && l.id == id
  }

  /** What an item is bound to. If it names claims, it is bound to those, but to none if one of them is unknown;
      otherwise it is bound to the claims its scope entries stand for. */
  lemma BindsIff(v: Vocabulary, labels: seq<Label>, item: Item, id: string)
    requires forall l :: l in labels ==> l.id != "" && Trim(l.id) == l.id
    ensures Binds(v, labels, item, id) <==>
              if NamesClaims(item) then
                && (exists r :: r in item.refs && Trim(r) == id)
                && id != "" && forall r :: r in item.refs && Trim(r) != "" ==> Knows(labels, Trim(r))
              else
                exists s, i: nat :: s in item.scope && Trim(s) != "" && i < |labels|
                                    && ResolveAlias(v, labels, Trim(s)) == At(i) && labels[i].id == id
  {
    hide Trim, Dedupe, NormalizeScope, ScopeIds, ResolveAlias;
    var explicitRefs := Dedupe(item.refs);
    forall x ensures x in explicitRefs <==> x != "" && exists w :: w in item.refs && Trim(w) == x {
      DedupeIs(item.refs, x);
    }
    HeadIsMember(explicitRefs);
    if !NamesClaims(item) {
      ScopeBindsIff(v, labels, item.scope, id);
      assert explicitRefs == [];
    } else {
      var r :| r in item.refs && Trim(r) != "";
      assert Trim(r) in explicitRefs;
      forall x ensures x in LabelIds(labels) <==> Knows(labels, x) {
      }
    }
  }

  /** References are refused exactly if one that is not blank names no claim. */
  lemma UnknownIff(v: Vocabulary, labels: seq<Label>, refs: seq<string>, scope: seq<string>)
    ensures ResolveRefs(v, labels, refs, scope).UnknownRefs? <==>
              exists r :: r in refs && Trim(r) != "" && !Knows(labels, Trim(r))
  {
    hide Trim, Dedupe, NormalizeScope, ScopeIds;
    var explicitRefs := Dedupe(refs);
    forall x ensures x in explicitRefs <==> x != "" && exists w :: w in refs && Trim(w) == x {
      DedupeIs(refs, x);
    }
    forall x ensures x in LabelIds(labels) <==> Knows(labels, x) {
    }
    if r :| r in refs && Trim(r) != "" && !Knows(labels, Trim(r)) {
      assert Trim(r) in explicitRefs;
    }
    HeadIsMember(explicitRefs);
  }

  lemma ScopeBindsIff(v: Vocabulary, labels: seq<Label>, scope: seq<string>, id: string)
    requires forall l :: l in labels ==> l.id != "" && Trim(l.id) == l.id
    ensures id in Dedupe(ScopeIds(v, labels, NormalizeScope(scope))) <==>
              exists s, i: nat :: s in scope && Trim(s) != "" && i < |labels|
                                  && ResolveAlias(v, labels, Trim(s)) == At(i) && labels[i].id == id
  {
    hide Trim, Dedupe, NormalizeScope, ScopeIds, ResolveAlias;
    var normal := NormalizeScope(scope);
    var ids := ScopeIds(v, labels, normal);
    forall x ensures x in ids <==> exists s, i: nat :: s in normal && i < |labels| && ResolveAlias(v, labels, s) == At(i) && labels[i].id == x {
      ScopeIdsMembers(v, labels, normal, x);
    }
    forall s ensures s in normal <==> s != "" && exists w :: w in scope && Trim(w) == s {
      ScopeIs(scope, s);
    }
    DedupeIs(ids, id);
    if id in ids {
      var s, i: nat :| s in normal && i < |labels| && ResolveAlias(v, labels, s) == At(i) && labels[i].id == id;
      assert labels[i] in labels;
    }
    forall w | w in ids ensures Trim(w) == w {
      var s, i: nat :| s in normal && i < |labels| && ResolveAlias(v, labels, s) == At(i) && labels[i].id == w;
      assert labels[i] in labels;
    }
    if s, i: nat :| s in scope && Trim(s) != "" && i < |labels| && ResolveAlias(v, labels, Trim(s)) == At(i) && labels[i].id == id {
      assert Trim(s) in normal && labels[i] in labels;
    }
  }

  // ---------------------------------------------------------------- binding keys

  function ObservableOf(labels: seq<Label>, id: string): string {
    if labels == [] then ""
    else if labels[|labels| - 1].id == id then labels[|labels| - 1].observable
    else ObservableOf(labels[..|labels| - 1], id)
  }

  function BindingKey(labels: seq<Label>, id: string): string {
    Trim(id) + "\0" + Trim(ObservableOf(labels, id))
  }

  function BindingKeys(v: Vocabulary, labels: seq<Label>, item: Item): set<string> {
    set id | id in LabelIds(labels) && Binds(v, labels, item, id) :: BindingKey(labels, id)
  }

  /** Two measurements overlap if they share a key, or if neither is bound to anything. */
  predicate KeysOverlap(a: set<string>, b: set<string>) {
    if a == {} || b == {} then a == b else a * b != {}
  }

  predicate Overlaps(v: Vocabulary, labels: seq<Label>, existing: Item, incoming: seq<Item>) {
    exists it :: it in incoming && KeysOverlap(BindingKeys(v, labels, existing), BindingKeys(v, labels, it))
  }

  lemma SplitAtNul(a: string, b: string, x: string, y: string)
    requires '\0' !in a && '\0' !in b && a + "\0" + x == b + "\0" + y
    ensures a == b
  {
    var s, t := a + "\0" + x, b + "\0" + y;
    assert s[|a|] == '\0' && t[|b|] == '\0';
    assert forall i :: 0 <= i < |a| ==> s[i] == a[i] && a[i] in a;
    assert forall i :: 0 <= i < |b| ==> t[i] == b[i] && b[i] in b;
    assert |a| == |b|;
    assert s[..|a|] == a && t[..|b|] == b;
  }

  // ---------------------------------------------------------------- status

  datatype Class = Support | Weaken | Refute | Other

  function ClassOf(verdict: string): Class {
    var t := Trim(verdict);
    if t == "supports" || t == "accepted" then Support
    else if t == "weakens" || t == "partial" then Weaken
    else if t == "refutes" || t == "failed" then Refute
    else Other
  }

  const SUPERSEDED := "superseded"

  predicate Active(item: Item) {
    item.verdict != SUPERSEDED
  }

  /** Some active item bound to the claim has a verdict of the class. */
  predicate Bears(v: Vocabulary, labels: seq<Label>, items: seq<Item>, id: string, class_: Class) {
    exists it :: it in items && Active(it) && Binds(v, labels, it, id) && ClassOf(it.verdict) == class_
  }

  function StatusOf(support: bool, weaken: bool, refute: bool, other: bool): string {
    if support && refute then WEAKENED
    else if refute then REFUTED
    else if weaken then WEAKENED
    else if support then SUPPORTED
    else if other then INCONCLUSIVE
    else UNVERIFIED
  }

  function StatusFor(v: Vocabulary, labels: seq<Label>, items: seq<Item>, id: string): string {
    StatusOf(Bears(v, labels, items, id, Support), Bears(v, labels, items, id, Weaken),
             Bears(v, labels, items, id, Refute), Bears(v, labels, items, id, Other))
  }

  /** The claims, each with the status its active evidence gives it. */
  function Rebuild(v: Vocabulary, claims: seq<Claim>, items: seq<Item>): (r: seq<Claim>)
    requires Normal(claims)
    ensures |r| == |claims|
    ensures forall i :: 0 <= i < |claims| ==>
              r[i] == claims[i].(status := StatusFor(v, Labels(claims), items, claims[i].id))
  {
    seq(|claims|, i requires 0 <= i < |claims| =>
      claims[i].(status := StatusFor(v, Labels(claims), items, claims[i].id)))
  }

  lemma StatusIsPlain(support: bool, weaken: bool, refute: bool, other: bool)
    ensures NormalizeStatus(StatusOf(support, weaken, refute, other)) == StatusOf(support, weaken, refute, other)
  {
    hide Trim;
    var s := StatusOf(support, weaken, refute, other);
    assert |s| > 0 && 'a' <= s[0] <= 'z' && 'a' <= s[|s| - 1] <= 'z';
    TrimIsTrimmed(s);
  }

  /** Rebuilding keeps the claims normal and their labels as they were. */
  lemma RebuildKeepsLabels(v: Vocabulary, claims: seq<Claim>, items: seq<Item>)
    requires Normal(claims)
    ensures Normal(Rebuild(v, claims, items))
    ensures Labels(Rebuild(v, claims, items)) == Labels(claims)
  {
    hide Trim, Bears, NormalizeStatus, StatusOf;
    var r, labels := Rebuild(v, claims, items), Labels(claims);
    forall c | c in r ensures c.id != "" && !Empty(c) && Clean(c) == c {
      var i :| 0 <= i < |r| && r[i] == c;
      assert claims[i] in claims;
      StatusIsPlain(Bears(v, labels, items, c.id, Support), Bears(v, labels, items, c.id, Weaken),
                    Bears(v, labels, items, c.id, Refute), Bears(v, labels, items, c.id, Other));
    }
  }

  /** The evidence of one claim, as the source groups it. */
  function BoundItems(v: Vocabulary, labels: seq<Label>, items: seq<Item>, id: string): seq<Item> {
    if items == [] then []
    else
      var it := items[|items| - 1];
      BoundItems(v, labels, items[..|items| - 1], id) + if Active(it) && Binds(v, labels, it, id) then [it] else []
  }

  lemma {:induction false} BoundItemsAreTheBound(v: Vocabulary, labels: seq<Label>, items: seq<Item>, id: string, it: Item)
    ensures it in BoundItems(v, labels, items, id) <==> it in items && Active(it) && Binds(v, labels, it, id)
    decreases |items|
  {
    hide Binds;
    if items != [] {
      BoundItemsAreTheBound(v, labels, items[..|items| - 1], id, it);
      assert items == items[..|items| - 1] + [items[|items| - 1]];
    }
  }

  function Group(groups: map<string, seq<Item>>, id: string): seq<Item> {
    if id in groups then groups[id] else []
  }

  method AddToGroups(ids: seq<string>, it: Item, before: map<string, seq<Item>>) returns (groups: map<string, seq<Item>>)
    requires forall i, j :: 0 <= i < j < |ids| ==> ids[i] != ids[j]
    ensures forall id :: Group(groups, id) == Group(before, id) + if id in ids then [it] else []
  {
    groups := before;
    for j := 0 to |ids|
      invariant forall id :: Group(groups, id) == Group(before, id) + if id in ids[..j] then [it] else []
    {
      assert ids[..j + 1] == ids[..j] + [ids[j]] && ids[j] !in ids[..j];
      groups := groups[ids[j] := Group(groups, ids[j]) + [it]];
    }
    assert ids[..|ids|] == ids;
  }

  method GroupByClaim(v: Vocabulary, labels: seq<Label>, items: seq<Item>) returns (groups: map<string, seq<Item>>)
    ensures forall id :: BoundItems(v, labels, items, id) == Group(groups, id)
  {
    hide ResolveRefs;
    groups := map[];
    for i := 0 to |items|
      invariant forall id :: BoundItems(v, labels, items[..i], id) == Group(groups, id)
    {
      assert items[..i + 1][..i] == items[..i];
      var it := items[i];
      if Active(it) {
        var r := ResolveRefs(v, labels, it.refs, it.scope);
        if r.Refs? {
          RefsAreUnique(v, labels, it.refs, it.scope);
          groups := AddToGroups(r.ids, it, groups);
        }
      }
    }
    assert items[..|items|] == items;
  }

  lemma RefsAreUnique(v: Vocabulary, labels: seq<Label>, refs: seq<string>, scope: seq<string>)
    ensures var r := ResolveRefs(v, labels, refs, scope);
            r.Refs? ==> forall i, j :: 0 <= i < j < |r.ids| ==> r.ids[i] != r.ids[j]
  {
    hide Dedupe, ScopeIds;
    DedupeIsUnique(refs);
    DedupeIsUnique(ScopeIds(v, labels, NormalizeScope(scope)));
  }

  predicate Any(items: seq<Item>, c: Class) {
    exists it :: it in items && ClassOf(it.verdict) == c
  }

  lemma AnyStep(items: seq<Item>, i: nat, c: Class)
    requires i < |items|
    ensures Any(items[..i + 1], c) <==> Any(items[..i], c) || ClassOf(items[i].verdict) == c
  {
    hide ClassOf;
    assert items[..i + 1] == items[..i] + [items[i]];
  }

  method StatusFromItems(items: seq<Item>) returns (status: string)
    ensures status == StatusOf(Any(items, Support), Any(items, Weaken), Any(items, Refute), Any(items, Other))
  {
    hide ClassOf, Any;
    var support, weaken, refute, other := false, false, false, false;
    NoneOfAny();
    for i := 0 to |items|
      invariant support == Any(items[..i], Support) && weaken == Any(items[..i], Weaken)
      invariant refute == Any(items[..i], Refute) && other == Any(items[..i], Other)
    {
      forall c {
        AnyStep(items, i, c);
      }
      match ClassOf(items[i].verdict)
      case Support => support := true;
      case Weaken => weaken := true;
      case Refute => refute := true;
      case Other => other := true;
    }
    assert items[..|items|] == items;
    status := if support && refute then WEAKENED
              else if refute then REFUTED
              else if weaken then WEAKENED
              else if support then SUPPORTED
              else if other then INCONCLUSIVE
              else UNVERIFIED;
  }

  lemma NoneOfAny()
    ensures forall c :: !Any([], c)
  {
  }

  method RebuildClaims(v: Vocabulary, claims: seq<Claim>, items: seq<Item>) returns (updated: seq<Claim>)
    requires Normal(claims)
    ensures updated == Rebuild(v, claims, items)
  {
    hide Binds, StatusOf, Normal, ClassOf;
    var labels := Labels(claims);
    var groups := GroupByClaim(v, labels, items);
    updated := [];
    for i := 0 to |claims|
      invariant updated == Rebuild(v, claims, items)[..i]
    {
      var id := claims[i].id;
      var bound := Group(groups, id);
      var status := StatusFromItems(bound);
      forall it ensures it in bound <==> it in items && Active(it) && Binds(v, labels, it, id) {
        BoundItemsAreTheBound(v, labels, items, id, it);
      }
      assert status == StatusFor(v, labels, items, id);
      updated := updated + [claims[i].(status := status)];
    }
  }
}
