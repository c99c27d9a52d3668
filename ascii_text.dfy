/** ASCII text operations used by the workshop message handlers: lower-casing
    (`str.lower()` restricted to ASCII), prefix tests (`str.startswith`) and
    substring tests (`sub in s`).

    Besides the executable definitions, the module gives an independent,
    position-based reading of "the message mentions this keyword, ignoring
    case" (`MatchesAt`, `HasWord`, `HasPrefix`) and proves that the executable
    tests applied to the lower-cased message agree with it. */
module AsciiText {

  predicate IsUpper(c: char) {
    'A' <= c <= 'Z'
  }

  /** Lower-cases one ASCII letter; every other character is left as it is. */
  function LowerChar(c: char): (r: char)
    ensures !IsUpper(r)
    ensures IsUpper(c) ==> 'a' <= r <= 'z' && r as int - c as int == 'a' as int - 'A' as int
    ensures !IsUpper(c) ==> r == c
  {
    if IsUpper(c) then (c as int - 'A' as int + 'a' as int) as char else c
  }

  /** `s.lower()` on ASCII text: the character at every position is lower-cased. */
  function Lower(s: string): (r: string)
    ensures |r| == |s|
    ensures forall i :: 0 <= i < |s| ==> r[i] == LowerChar(s[i])
  {
    if s == [] then [] else [LowerChar(s[0])] + Lower(s[1..])
  }

  /** `s.startswith(p)`: `p` is the first |p| characters of `s`. */
  predicate StartsWith(s: string, p: string)
    ensures StartsWith(s, p) <==> |p| <= |s| && forall j :: 0 <= j < |p| ==> s[j] == p[j]
  {
    |p| <= |s| && s[..|p|] == p
  }

  /** `sub` is the slice of `s` that starts at position `i`. */
  ghost predicate OccursAt(s: string, sub: string, i: nat) {
    i + |sub| <= |s| && s[i..i + |sub|] == sub
  }

  /** `sub in s`: `sub` starts at the first position or somewhere further on.
      The empty word occurs in every text. */
  predicate Contains(s: string, sub: string)
    ensures Contains(s, sub) <==> exists i: nat :: OccursAt(s, sub, i)
    ensures sub == [] ==> Contains(s, sub)
    decreases |s|
  {
    OccursAtShift(s, sub);
    assert StartsWith(s, sub) <==> OccursAt(s, sub, 0);
    StartsWith(s, sub) || (|s| > 0 && Contains(s[1..], sub))
  }

  /** An occurrence in `s` past the first position is an occurrence in the tail
      one position earlier, and the other way round. */
  lemma OccursAtShift(s: string, sub: string)
    ensures |s| > 0 ==> forall i: nat :: OccursAt(s[1..], sub, i) ==> OccursAt(s, sub, i + 1)
    ensures |s| > 0 ==> forall i: nat :: OccursAt(s, sub, i) ==> i == 0 || OccursAt(s[1..], sub, i - 1)
  {
    if |s| > 0 {
      forall i: nat | OccursAt(s[1..], sub, i)
        ensures OccursAt(s, sub, i + 1)
      {
        assert s[1..][i..i + |sub|] == s[i + 1..i + 1 + |sub|];
      }
      forall i: nat | OccursAt(s, sub, i) && i > 0
        ensures OccursAt(s[1..], sub, i - 1)
      {
        assert s[1..][i - 1..i - 1 + |sub|] == s[i..i + |sub|];
      }
    }
  }

  /** The keyword `w` is spelt out in `s` from position `i` on, ignoring ASCII case. */
  ghost predicate MatchesAt(s: string, w: string, i: nat) {
    i + |w| <= |s| && forall j :: 0 <= j < |w| ==> LowerChar(s[i + j]) == w[j]
  }

  /** `s` mentions the keyword `w` somewhere, ignoring ASCII case. */
  ghost predicate HasWord(s: string, w: string) {
    exists i: nat :: MatchesAt(s, w, i)
  }

  /** `s` begins with the keyword `w`, ignoring ASCII case. */
  ghost predicate HasPrefix(s: string, w: string) {
    MatchesAt(s, w, 0)
  }

  /** Lower-casing twice is lower-casing once. */
  lemma LowerIdempotent(s: string)
    ensures Lower(Lower(s)) == Lower(s)
  {
    var l := Lower(s);
    assert forall i :: 0 <= i < |l| ==> Lower(l)[i] == l[i];
  }

  /** The lower-cased text holds no upper-case letter. */
  lemma LowerHasNoUpper(s: string)
    ensures forall i :: 0 <= i < |Lower(s)| ==> !IsUpper(Lower(s)[i])
  {
  }

  /** Lower-casing commutes with dropping the first character. */
  lemma LowerTail(s: string)
    requires |s| > 0
    ensures Lower(s)[1..] == Lower(s[1..])
  {
  }

  /** The prefix test on the lower-cased text is the case-blind prefix reading. */
  lemma StartsWithLowerIff(s: string, w: string)
    ensures StartsWith(Lower(s), w) <==> HasPrefix(s, w)
  {
    var l := Lower(s);
    if HasPrefix(s, w) {
      assert forall j :: 0 <= j < |w| ==> l[..|w|][j] == w[j];
    }
    if StartsWith(l, w) {
      forall j | 0 <= j < |w|
        ensures LowerChar(s[j]) == w[j]
      {
        assert l[..|w|][j] == l[j];
      }
    }
  }

  /** A case-blind match in the tail is a match one position further on in `s`. */
  lemma MatchesAtTail(s: string, w: string, i: nat)
    requires |s| > 0
    ensures MatchesAt(s[1..], w, i) <==> MatchesAt(s, w, i + 1)
  {
    if MatchesAt(s, w, i + 1) {
      forall j | 0 <= j < |w|
        ensures LowerChar(s[1..][i + j]) == w[j]
      {
        assert s[1..][i + j] == s[i + 1 + j];
      }
    }
    if MatchesAt(s[1..], w, i) {
      forall j | 0 <= j < |w|
        ensures LowerChar(s[i + 1 + j]) == w[j]
      {
        assert s[1..][i + j] == s[i + 1 + j];
      }
    }
  }

  /** A word occurs in `s` exactly when it starts `s` or occurs in its tail. */
  lemma HasWordUnfold(s: string, w: string)
    ensures HasWord(s, w) <==> HasPrefix(s, w) || (|s| > 0 && HasWord(s[1..], w))
  {
    if HasWord(s, w) && !HasPrefix(s, w) {
      var i: nat :| MatchesAt(s, w, i);
      assert i > 0;
      assert |s| > 0;
      MatchesAtTail(s, w, i - 1);
      assert MatchesAt(s[1..], w, i - 1);
    }
    if |s| > 0 && HasWord(s[1..], w) {
      var i: nat :| MatchesAt(s[1..], w, i);
      MatchesAtTail(s, w, i);
      assert MatchesAt(s, w, i + 1);
    }
    if HasPrefix(s, w) {
      assert MatchesAt(s, w, 0);
    }
  }

  /** The substring test on the lower-cased text is the case-blind reading:
      `w in s.lower()` holds exactly when `w` is spelt out somewhere in `s`,
      ignoring ASCII case. */
  lemma {:induction false} ContainsLowerIff(s: string, w: string)
    ensures Contains(Lower(s), w) <==> HasWord(s, w)
    decreases |s|
  {
    StartsWithLowerIff(s, w);
    HasWordUnfold(s, w);
    if |s| > 0 {
      LowerTail(s);
      ContainsLowerIff(s[1..], w);
    }
  }

  /** A message in which the letter `c` never appears in either case cannot
      mention a keyword that contains `c`. */
  lemma AbsentLetter(s: string, w: string, c: char)
    requires c in w
    requires forall d :: d in s ==> LowerChar(d) != c
    ensures !HasWord(s, w)
  {
    var j :| 0 <= j < |w| && w[j] == c;
    forall i: nat | i + |w| <= |s|
      ensures !MatchesAt(s, w, i)
    {
      assert s[i + j] in s;
    }
  }

  /** A message that begins with a keyword mentions it. */
  lemma PrefixIsWord(s: string, w: string)
    requires HasPrefix(s, w)
    ensures HasWord(s, w)
  {
    assert MatchesAt(s, w, 0);
  }
}
