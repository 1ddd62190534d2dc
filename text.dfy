// The .NET string primitives the header tool relies on, stated over
// seq<char>. Characters are compared code point by code point; for
// well-formed UTF-16 text this agrees with .NET's ordinal comparison.

module Text {

  /** Char.IsWhiteSpace: U+0009..U+000D, U+0085 and the Unicode space,
      line and paragraph separators. */
  predicate IsWhiteSpace(c: char) {
    ('\t' <= c <= '\r') || c == ' ' || c == '\U{85}' || c == '\U{A0}' || c == '\U{1680}'
    || ('\U{2000}' <= c <= '\U{200A}') || c == '\U{2028}' || c == '\U{2029}'
    || c == '\U{202F}' || c == '\U{205F}' || c == '\U{3000}'
  }

  /** The first index in lo..hi from which s[..hi] has no leading white
      space left. */
  function SkipLeading(s: string, lo: nat, hi: nat): (i: nat)
    requires lo <= hi <= |s|
    ensures lo <= i <= hi
    ensures forall k :: lo <= k < i ==> IsWhiteSpace(s[k])
    ensures i < hi ==> !IsWhiteSpace(s[i])
    decreases hi - lo
  {
    if lo < hi && IsWhiteSpace(s[lo]) then SkipLeading(s, lo + 1, hi) else lo
  }

  /** The last index in lo..hi up to which s[lo..] has no trailing white
      space left. */
  function SkipTrailing(s: string, lo: nat, hi: nat): (j: nat)
    requires lo <= hi <= |s|
    ensures lo <= j <= hi
    ensures forall k :: j <= k < hi ==> IsWhiteSpace(s[k])
    ensures lo < j ==> !IsWhiteSpace(s[j - 1])
    decreases hi - lo
  {
    if lo < hi && IsWhiteSpace(s[hi - 1]) then SkipTrailing(s, lo, hi - 1) else hi
  }

  /** String.Trim(): skips the white space at the front, then the white
      space at the back of what remains, and keeps the infix in between. */
  function Trim(s: string): (r: string)
    ensures r != [] ==> !IsWhiteSpace(r[0]) && !IsWhiteSpace(r[|r| - 1])
  {
    var i := SkipLeading(s, 0, |s|);
    s[i..SkipTrailing(s, i, |s|)]
  }

  /** Trim keeps one infix of s, cuts only white space on either side of
      it, and yields the empty string exactly when s is all white space. */
  lemma TrimShape(s: string)
    ensures exists i, j ::
              && 0 <= i <= j <= |s| && Trim(s) == s[i..j]
              && (forall k :: 0 <= k < i ==> IsWhiteSpace(s[k]))
              && (forall k :: j <= k < |s| ==> IsWhiteSpace(s[k]))
    ensures Trim(s) == [] <==> forall k :: 0 <= k < |s| ==> IsWhiteSpace(s[k])
  {
    var i := SkipLeading(s, 0, |s|);
    var j := SkipTrailing(s, i, |s|);
    assert Trim(s) == s[i..j];
    if i < j {
      assert !IsWhiteSpace(s[i]);
    }
  }

  /** Trimming an already trimmed string changes nothing. */
  lemma TrimIdempotent(s: string)
    ensures Trim(Trim(s)) == Trim(s)
  {
    var r := Trim(s);
    if r != [] {
      assert SkipLeading(r, 0, |r|) == 0;
      assert SkipTrailing(r, 0, |r|) == |r|;
    }
  }

  /** String.LastIndexOf(char): the index of the last occurrence of c,
      or -1 when c does not occur. */
  function LastIndexOf(s: string, c: char): (r: int)
    ensures -1 <= r < |s|
    ensures r == -1 <==> c !in s
    ensures r != -1 ==> s[r] == c && forall k :: r < k < |s| ==> s[k] != c
    decreases |s|
  {
    if s == [] then -1
    else if s[|s| - 1] == c then |s| - 1
    else LastIndexOf(s[..|s| - 1], c)
  }

  /** String.LastIndexOfAny(char[]): the index of the last character that
      belongs to anyOf, or -1 when there is none. */
  function LastIndexOfAny(s: string, anyOf: set<char>): (r: int)
    ensures -1 <= r < |s|
    ensures r == -1 <==> forall k :: 0 <= k < |s| ==> s[k] !in anyOf
    ensures r != -1 ==> s[r] in anyOf && forall k :: r < k < |s| ==> s[k] !in anyOf
    decreases |s|
  {
    if s == [] then -1
    else if s[|s| - 1] in anyOf then |s| - 1
    else LastIndexOfAny(s[..|s| - 1], anyOf)
  }

  /** The last occurrence in a concatenation lies in the right-hand part
      when that part has one, and is the left-hand part's otherwise. */
  lemma {:induction false} LastIndexOfAppend(p: string, q: string, c: char)
    ensures LastIndexOf(p + q, c)
            == if c in q then |p| + LastIndexOf(q, c) else LastIndexOf(p, c)
  {
    var r := LastIndexOf(p + q, c);
    if c in q {
      var j := LastIndexOf(q, c);
      assert (p + q)[|p| + j] == c;
      assert forall k :: |p| + j < k < |p + q| ==> (p + q)[k] == q[k - |p|];
      LastIndexIsUnique(p + q, c, r, |p| + j);
    } else {
      assert forall k :: |p| <= k < |p + q| ==> (p + q)[k] == q[k - |p|];
      if c in p {
        var j := LastIndexOf(p, c);
        assert (p + q)[j] == c;
        LastIndexIsUnique(p + q, c, r, j);
      } else {
        assert forall k :: 0 <= k < |p| ==> (p + q)[k] == p[k];
        assert c !in p + q;
      }
    }
  }

  /** Two indices that both hold c with no c after them are the same index. */
  lemma LastIndexIsUnique(s: string, c: char, i: int, j: int)
    requires 0 <= i < |s| && s[i] == c && forall k :: i < k < |s| ==> s[k] != c
    requires 0 <= j < |s| && s[j] == c && forall k :: j < k < |s| ==> s[k] != c
    ensures i == j
  {
  }

  /** String.StartsWith(string), taken as an ordinal comparison. */
  predicate StartsWith(s: string, prefix: string) {
    |prefix| <= |s| && s[..|prefix|] == prefix
  }
}
