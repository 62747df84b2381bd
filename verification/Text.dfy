/** The string operations the repository takes from Go's `strings` package, on sequences of characters.

    A string is a sequence of characters, not of bytes. White space is that of Unicode, as in `TrimSpace`; letter case is
    folded for ASCII letters only.

    The lemmas say what trimming means: it leaves neither end blank, does nothing to what is trimmed, and undoes
    padding. */
module Text {

  /** Unicode white space. */
  predicate IsSpace(c: char) {
    || '\t' <= c <= '\r'
    || c == ' ' || c == '\U{0085}' || c == '\U{00A0}' || c == '\U{1680}'
    || '\U{2000}' <= c <= '\U{200A}'
    || c == '\U{2028}' || c == '\U{2029}' || c == '\U{202F}' || c == '\U{205F}' || c == '\U{3000}'
  }

  function TrimLeft(s: string, cut: char -> bool): (r: string)
    ensures |r| <= |s|
  {
    if s != [] && cut(s[0]) then TrimLeft(s[1..], cut) else s
  }

  function TrimRight(s: string, cut: char -> bool): (r: string)
    ensures r <= s
  {
    if s != [] && cut(s[|s| - 1]) then TrimRight(s[..|s| - 1], cut) else s
  }

  /** Without the white space at either end. */
  function Trim(s: string): string {
    if s != [] && IsSpace(s[0]) then Trim(s[1..])
    else if s != [] && IsSpace(s[|s| - 1]) then Trim(s[..|s| - 1])
    else s
  }

  /** Neither end is white space. */
  predicate Trimmed(s: string) {
    s == [] || (!IsSpace(s[0]) && !IsSpace(s[|s| - 1]))
  }

  lemma {:induction false} TrimIsTrimmed(s: string)
    ensures Trimmed(Trim(s)) && |Trim(s)| <= |s|
    ensures Trimmed(s) <==> Trim(s) == s
    decreases |s|
  {
    hide IsSpace;
    if s != [] && IsSpace(s[0]) {
      TrimIsTrimmed(s[1..]);
    } else if s != [] && IsSpace(s[|s| - 1]) {
      TrimIsTrimmed(s[..|s| - 1]);
    }
  }

  lemma TrimTwice(s: string)
    ensures Trim(Trim(s)) == Trim(s)
  {
    hide Trim;
    TrimIsTrimmed(s);
    TrimIsTrimmed(Trim(s));
  }

  function LowerChar(c: char): char {
    if 'A' <= c <= 'Z' then c - 'A' + 'a' else c
  }

  function Lower(s: string): (r: string)
    ensures |r| == |s|
    ensures forall i :: 0 <= i < |s| ==> r[i] == LowerChar(s[i])
  {
    seq(|s|, i requires 0 <= i < |s| => LowerChar(s[i]))
  }

  predicate AllSpace(s: string) {
    forall i :: 0 <= i < |s| ==> IsSpace(s[i])
  }

  /** Small letters and underscores alone. */
  predicate IsPlainWord(w: string) {
    w != "" && forall i :: 0 <= i < |w| ==> 'a' <= w[i] <= 'z' || w[i] == '_'
  }

  /** Such a word is read as it stands. */
  lemma PlainWord(w: string)
    requires IsPlainWord(w)
    ensures Lower(w) == w && Trim(w) == w
  {
    TrimIsTrimmed(w);
  }

  /** What trimming takes away at either end. */
  lemma {:induction false} TrimParts(s: string) returns (left: string, right: string)
    ensures AllSpace(left) && AllSpace(right) && s == left + Trim(s) + right
    decreases |s|
  {
    hide IsSpace;
    if s != [] && IsSpace(s[0]) {
      left, right := TrimParts(s[1..]);
      assert s == [s[0]] + s[1..];
      left := [s[0]] + left;
    } else if s != [] && IsSpace(s[|s| - 1]) {
      left, right := TrimParts(s[..|s| - 1]);
      assert s == s[..|s| - 1] + [s[|s| - 1]];
      right := right + [s[|s| - 1]];
    } else {
      left, right := [], [];
    }
  }

  /** Trimming undoes padding. */
  lemma {:induction false} TrimUnique(left: string, t: string, right: string)
    requires AllSpace(left) && AllSpace(right) && Trimmed(t)
    ensures Trim(left + t + right) == t
    decreases |left| + |right|
  {
    hide IsSpace;
    var s := left + t + right;
    if left != [] {
      assert s[0] == left[0] && s[1..] == left[1..] + t + right;
      TrimUnique(left[1..], t, right);
    } else if right != [] {
      var shorter := right[..|right| - 1];
      assert s[|s| - 1] == right[|right| - 1] && s[..|s| - 1] == left + t + shorter;
      if t == [] {
        assert s == right + t + [] && s[1..] == right[1..] + t + [];
        TrimUnique(right[1..], t, []);
        assert s[0] == right[0];
      } else {
        assert s[0] == t[0];
        TrimUnique(left, t, shorter);
      }
    } else {
      assert s == t;
    }
  }
}
