/** Helpers on strings: prefixes, substring occurrence, and the facts needed
    to show that a fixed word does or does not occur in a text assembled
    from several pieces. */
module Text {

  /** Go's strings.HasPrefix. */
  predicate HasPrefix(s: string, p: string) {
    |p| <= |s| && s[..|p|] == p
  }

  /** Go's strings.HasSuffix. */
  predicate HasSuffix(s: string, p: string) {
    |p| <= |s| && s[|s| - |p|..] == p
  }

  /** `w` occurs in `s` starting at position `i`. */
  predicate OccursAt(s: string, w: string, i: int) {
    0 <= i && i + |w| <= |s| && s[i..i + |w|] == w
  }

  /** Go's strings.Contains. */
  predicate Contains(s: string, w: string) {
    exists i | 0 <= i <= |s| - |w| :: OccursAt(s, w, i)
  }

  /** Go's strings.ContainsAny: some character of `s` is one of `chars`. */
  predicate ContainsAny(s: string, chars: string) {
    exists c | c in s :: c in chars
  }

  /** A prefix is contained in the string it prefixes. */
  lemma PrefixContained(s: string, p: string)
    requires HasPrefix(s, p)
    ensures Contains(s, p)
  {
    assert OccursAt(s, p, 0);
  }

  /** A prefix stays a prefix when text is added behind the string. */
  lemma PrefixExtended(s: string, p: string, t: string)
    requires HasPrefix(s, p)
    ensures HasPrefix(s + t, p)
  {
    assert (s + t)[..|p|] == s[..|p|];
  }

  /** The text added behind a string is a suffix of the result. */
  lemma SuffixAppended(s: string, t: string)
    ensures HasSuffix(s + t, t)
  {
    assert (s + t)[|s + t| - |t|..] == t;
  }

  /** A word occurs in any text that has it between two other pieces. */
  lemma ContainsMiddle(x: string, w: string, y: string)
    ensures Contains(x + w + y, w)
  {
    assert (x + w + y)[|x|..|x| + |w|] == w;
    assert OccursAt(x + w + y, w, |x|);
  }

  /** An occurrence survives putting text in front of the string. */
  lemma ContainsPrepended(x: string, s: string, w: string)
    requires Contains(s, w)
    ensures Contains(x + s, w)
  {
    var i :| 0 <= i <= |s| - |w| && OccursAt(s, w, i);
    assert (x + s)[|x| + i..|x| + i + |w|] == s[i..i + |w|];
    assert OccursAt(x + s, w, |x| + i);
  }

  /** An occurrence survives putting text behind the string. */
  lemma ContainsAppended(s: string, y: string, w: string)
    requires Contains(s, w)
    ensures Contains(s + y, w)
  {
    var i :| 0 <= i <= |s| - |w| && OccursAt(s, w, i);
    assert (s + y)[i..i + |w|] == s[i..i + |w|];
    assert OccursAt(s + y, w, i);
  }

  /** When `x` ends with a character that `w` does not use, no occurrence of
      `w` can straddle the border between `x` and `y`. */
  lemma {:induction false} NotContainsJoin(x: string, y: string, w: string)
    requires 0 < |x| && x[|x| - 1] !in w
    requires !Contains(x, w) && !Contains(y, w)
    ensures !Contains(x + y, w)
  {
    var s := x + y;
    forall i | 0 <= i <= |s| - |w| ensures !OccursAt(s, w, i) {
      if i + |w| <= |x| {
        assert !OccursAt(x, w, i);
        assert s[i..i + |w|] == x[i..i + |w|];
      } else if |x| <= i {
        assert s[i..i + |w|] == y[i - |x|..i - |x| + |w|];
        assert !OccursAt(y, w, i - |x|);
      } else {
        assert s[i..i + |w|][|x| - 1 - i] == x[|x| - 1];
      }
    }
  }

  /** `w` does not occur in `s` when `s` can be cut into pieces no longer
      than `w`, each ending with a character that `w` does not use:
      an occurrence would have to lie inside a single piece. The cut
      positions are listed in `cuts`, from 0 to |s|. */
  lemma {:induction false} NotContainsByCuts(s: string, w: string, cuts: seq<nat>)
    requires 0 < |w| && 0 < |cuts| && cuts[0] == 0 && cuts[|cuts| - 1] == |s|
    requires forall k :: 0 < k < |cuts| ==>
      cuts[k - 1] < cuts[k] <= cuts[k - 1] + |w| && cuts[k] <= |s| && s[cuts[k] - 1] !in w
    ensures !Contains(s, w)
  {
    var k := |cuts| - 1;
    while k > 0
      invariant 0 <= k < |cuts|
      invariant !Contains(s[cuts[k]..], w)
    {
      var p, q := cuts[k - 1], cuts[k];
      var piece := s[p..q];
      assert !Contains(piece, w) by {
        forall i | 0 <= i <= |piece| - |w| ensures !OccursAt(piece, w, i) {
          assert piece[i..i + |w|][|w| - 1] == piece[|piece| - 1];
        }
      }
      NotContainsJoin(piece, s[q..], w);
      assert piece + s[q..] == s[p..];
      k := k - 1;
    }
  }
}
