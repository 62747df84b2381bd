/** Sorted string lists, as `sort.Strings` leaves them.

    `Before` is the strict order of strings character by character, a total order.

    A sorted list without repetitions is determined by its members, so any way of sorting the same members gives the
    same list. */
module Sorting {
  import opened Lists

  /** Lexicographic order by character. */
  predicate Before(a: string, b: string) {
    if b == [] then false
    else if a == [] then true
    else if a[0] != b[0] then a[0] < b[0]
    else Before(a[1..], b[1..])
  }

  ghost predicate Sorted(s: seq<string>) {
    forall i, j :: 0 <= i < j < |s| ==> !Before(s[j], s[i])
  }

  ghost predicate StrictlySorted(s: seq<string>) {
    forall i, j :: 0 <= i < j < |s| ==> Before(s[i], s[j])
  }

  lemma {:induction false} BeforeAsymmetric(a: string, b: string)
    ensures Before(a, b) ==> !Before(b, a)
    ensures a != b ==> Before(a, b) || Before(b, a)
    ensures !Before(a, a)
  {
    if a != [] && b != [] && a[0] == b[0] {
      BeforeAsymmetric(a[1..], b[1..]);
      assert a == [a[0]] + a[1..] && b == [b[0]] + b[1..];
    }
    if a != [] {
      BeforeAsymmetric(a[1..], a[1..]);
    }
  }

  lemma {:induction false} BeforeTransitive(a: string, b: string, c: string)
    requires Before(a, b) && Before(b, c)
    ensures Before(a, c)
  {
    if a != [] && a[0] == b[0] && b[0] == c[0] {
      BeforeTransitive(a[1..], b[1..], c[1..]);
    }
  }

  /** The strings agree up to `i`, where `a` ends or has the lesser character. */
  predicate DiffersAt(a: string, b: string, i: nat) {
    i <= |a| && i < |b| && a[..i] == b[..i] && (i == |a| || a[i] < b[i])
  }

  lemma StartsAlike(a: string, b: string, i: nat)
    requires DiffersAt(a, b, i) && i > 0
    ensures a != [] && b != [] && a[0] == b[0]
  {
    assert a[..i][0] == b[..i][0];
  }

  /** The order is that of the first difference; what continues a string comes after it. */
  lemma {:induction false} BeforeIff(a: string, b: string)
    ensures Before(a, b) <==> exists i: nat :: DiffersAt(a, b, i)
    decreases |a|
  {
    if a == [] || b == [] || a[0] != b[0] {
      assert a[..0] == b[..0];
      if b != [] && (a == [] || a[0] < b[0]) {
        assert DiffersAt(a, b, 0);
      }
      if i: nat :| DiffersAt(a, b, i) && i > 0 {
        StartsAlike(a, b, i);
      }
    } else {
      BeforeIff(a[1..], b[1..]);
      if i: nat :| DiffersAt(a[1..], b[1..], i) {
        assert a[..i + 1] == [a[0]] + a[1..][..i] && b[..i + 1] == [b[0]] + b[1..][..i];
        assert DiffersAt(a, b, i + 1);
      }
      if i: nat :| DiffersAt(a, b, i) {
        var k: nat := i - 1;
        assert a[1..][..k] == a[..i][1..] && b[1..][..k] == b[..i][1..];
        assert DiffersAt(a[1..], b[1..], k);
      }
    }
  }

  function Insert(x: string, s: seq<string>): (r: seq<string>)
    ensures multiset(r) == multiset(s) + multiset{x}
  {
    if s == [] || !Before(s[0], x) then [x] + s
    else
      assert s == [s[0]] + s[1..];
      [s[0]] + Insert(x, s[1..])
  }

  function Sort(s: seq<string>): (r: seq<string>)
    ensures multiset(r) == multiset(s)
  {
    if s == [] then []
    else
      assert s == [s[0]] + s[1..];
      Insert(s[0], Sort(s[1..]))
  }

  lemma SortKeepsMembers(s: seq<string>)
    ensures |Sort(s)| == |s|
    ensures forall x :: x in Sort(s) <==> x in s
  {
    assert |multiset(Sort(s))| == |multiset(s)|;
    forall x ensures x in Sort(s) <==> x in s {
      assert x in multiset(Sort(s)) <==> x in multiset(s);
    }
  }

  lemma NotBeforeTransitive(a: string, b: string, c: string)
    requires !Before(a, b) && !Before(b, c)
    ensures !Before(a, c)
  {
    hide Before;
    BeforeAsymmetric(b, c);
    BeforeAsymmetric(a, b);
    if Before(a, c) && b != c {
      BeforeTransitive(a, c, b);
    }
  }

  lemma SortedCons(x: string, s: seq<string>)
    requires Sorted(s) && forall y :: y in s ==> !Before(y, x)
    ensures Sorted([x] + s)
  {
    hide Before;
  }

  lemma {:induction false} InsertSorts(x: string, s: seq<string>)
    requires Sorted(s)
    ensures Sorted(Insert(x, s))
  {
    hide Before;
    BeforeAsymmetric(x, x);
    if s == [] {
    } else if !Before(s[0], x) {
      forall y | y in s ensures !Before(y, x) {
        var j :| 0 <= j < |s| && s[j] == y;
        BeforeAsymmetric(s[0], s[0]);
        NotBeforeTransitive(y, s[0], x);
      }
      SortedCons(x, s);
    } else {
      InsertSorts(x, s[1..]);
      var rest := Insert(x, s[1..]);
      forall y | y in rest ensures !Before(y, s[0]) {
        assert y in multiset(rest);
        BeforeAsymmetric(s[0], x);
        if y != x {
          var k :| 0 <= k < |s[1..]| && s[1..][k] == y;
          assert s[k + 1] == y;
        }
      }
      SortedCons(s[0], rest);
    }
  }

  lemma {:induction false} SortSorts(s: seq<string>)
    ensures Sorted(Sort(s))
  {
    if s != [] {
      SortSorts(s[1..]);
      InsertSorts(s[0], Sort(s[1..]));
    }
  }

  /** A list without repetitions sorts strictly. */
  lemma SortOfDistinct(s: seq<string>)
    requires forall i, j :: 0 <= i < j < |s| ==> s[i] != s[j]
    ensures StrictlySorted(Sort(s))
  {
    SortSorts(s);
    var r := Sort(s);
    forall i, j | 0 <= i < j < |r| ensures Before(r[i], r[j]) {
      BeforeAsymmetric(r[i], r[j]);
      if r[i] == r[j] {
        DistinctOnce(s, r[i]);
        TwiceCounts(r, i, j);
      }
    }
  }

  lemma {:induction false} DistinctOnce(s: seq<string>, x: string)
    requires forall i, j :: 0 <= i < j < |s| ==> s[i] != s[j]
    ensures multiset(s)[x] <= 1
  {
    if s != [] {
      DistinctOnce(s[1..], x);
      assert s == [s[0]] + s[1..];
    }
  }

  lemma TwiceCounts(r: seq<string>, i: nat, j: nat)
    requires i < j < |r| && r[i] == r[j]
    ensures multiset(r)[r[i]] >= 2
  {
    assert r == r[..j] + [r[j]] + r[j + 1..];
    assert r[i] in r[..j];
  }

  /** Two strictly sorted lists with the same members are the same list. */
  lemma {:induction false} StrictlySortedUnique(a: seq<string>, b: seq<string>)
    requires StrictlySorted(a) && StrictlySorted(b) && forall x :: x in a <==> x in b
    ensures a == b
    decreases |a|
  {
    if a == [] {
      HeadIsMember(b);
    } else {
      assert a[0] in b;
      HeadIsMember(b);
      HeadsAgree(a, b);
      forall x ensures x in a[1..] <==> x in b[1..] {
        TailMembers(a, x);
        TailMembers(b, x);
      }
      StrictlySortedUnique(a[1..], b[1..]);
      assert a == [a[0]] + a[1..] && b == [b[0]] + b[1..];
    }
  }

  lemma HeadsAgree(a: seq<string>, b: seq<string>)
    requires StrictlySorted(a) && StrictlySorted(b) && a != [] && b != [] && a[0] in b && b[0] in a
    ensures a[0] == b[0]
  {
    var i :| 0 <= i < |b| && b[i] == a[0];
    var j :| 0 <= j < |a| && a[j] == b[0];
    BeforeAsymmetric(a[0], b[0]);
  }

  lemma TailMembers(s: seq<string>, x: string)
    requires StrictlySorted(s) && s != []
    ensures x in s[1..] <==> x in s && x != s[0]
  {
    assert s == [s[0]] + s[1..];
    if x in s[1..] {
      var i :| 0 <= i < |s[1..]| && s[1..][i] == x;
      assert Before(s[0], s[i + 1]);
      BeforeAsymmetric(s[0], s[0]);
    }
  }
}
