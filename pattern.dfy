/**
 * The two regular expressions the graders compile, both with `re.IGNORECASE`:
 * `must[- ]fix` and `re.escape(severity)`. Neither uses alternation or
 * repetition, so each is a sequence of character classes, one per matched
 * character, and `re.search` tries them at every start position from the left.
 */
module Pattern {
  import opened Text

  /** The lower-case characters one pattern position accepts. */
  type CharClass = set<char>

  /** A pattern made of character classes only: it matches exactly |p| characters. */
  type Pattern = seq<CharClass>

  /** `re.IGNORECASE` on ASCII: a character matches when its lower-case form is in the class. */
  predicate Accepts(cls: CharClass, c: char)
  {
    Lower(c) in cls
  }

  /** The pattern matches at the very start of `t` (`re.match`). */
  predicate MatchesPrefix(p: Pattern, t: string)
    decreases |p|
  {
    p == [] || (t != [] && Accepts(p[0], t[0]) && MatchesPrefix(p[1..], t[1..]))
  }

  /** `re.search(p, s)` finds a match: try position 0, then the rest of the string. */
  predicate Search(p: Pattern, s: string)
    decreases |s|
  {
    MatchesPrefix(p, s) || (s != [] && Search(p, s[1..]))
  }

  /** The pattern matches `s` starting at index `i`. */
  predicate MatchesAt(p: Pattern, s: string, i: int)
  {
    0 <= i <= |s| && MatchesPrefix(p, s[i..])
  }

  /** `re.escape(literal)`: every character, special or not, stands for itself. */
  function Escape(literal: string): (p: Pattern)
    ensures |p| == |literal|
    ensures forall j | 0 <= j < |literal| :: p[j] == {Lower(literal[j])}
  {
    if literal == [] then [] else [{Lower(literal[0])}] + Escape(literal[1..])
  }

  /** `must[- ]fix`, the pattern of a must-fix finding. */
  const MustFix: Pattern := [{'m'}, {'u'}, {'s'}, {'t'}, {'-', ' '}, {'f'}, {'i'}, {'x'}]

  /** Matching at the start means: `t` is long enough and each character is accepted by its class. */
  lemma {:induction false} MatchesPrefixIff(p: Pattern, t: string)
    ensures MatchesPrefix(p, t) <==> |p| <= |t| && forall j | 0 <= j < |p| :: Accepts(p[j], t[j])
    decreases |p|
  {
    if p != [] && t != [] {
      MatchesPrefixIff(p[1..], t[1..]);
      if |p| <= |t| && forall j | 0 <= j < |p| :: Accepts(p[j], t[j]) {
        forall j | 0 <= j < |p| - 1
          ensures Accepts(p[1..][j], t[1..][j])
        {
          assert Accepts(p[j + 1], t[j + 1]);
        }
      }
    }
  }

  /** `re.search` succeeds exactly when the pattern matches at some index. */
  lemma {:induction false} SearchIff(p: Pattern, s: string)
    ensures Search(p, s) <==> exists i :: MatchesAt(p, s, i)
    decreases |s|
  {
    if MatchesPrefix(p, s) {
      assert s[0..] == s;
      assert MatchesAt(p, s, 0);
    } else if s != [] {
      SearchIff(p, s[1..]);
      if Search(p, s[1..]) {
        var i :| MatchesAt(p, s[1..], i);
        assert s[1..][i..] == s[i + 1..];
        assert MatchesAt(p, s, i + 1);
      } else {
        forall i | MatchesAt(p, s, i) && i > 0
          ensures MatchesAt(p, s[1..], i - 1)
        {
          assert s[1..][i - 1..] == s[i..];
        }
      }
    }
  }

  /** The escaped severity matches at the start of `t` exactly when the lowered `t` starts with the lowered literal. */
  lemma EscapedPrefix(literal: string, t: string)
    ensures MatchesPrefix(Escape(literal), t) <==> StartsWith(LowerStr(t), LowerStr(literal))
  {
    var p := Escape(literal);
    MatchesPrefixIff(p, t);
    if MatchesPrefix(p, t) {
      forall j | 0 <= j < |literal|
        ensures LowerStr(t)[..|literal|][j] == LowerStr(literal)[j]
      {
        assert Accepts(p[j], t[j]);
      }
    }
  }

  /**
   * `re.search(re.escape(literal), s, re.IGNORECASE)` succeeds exactly when
   * `literal.lower() in s.lower()`: the severity check and the keyword check
   * use the same case-insensitive substring relation.
   */
  lemma {:induction false} EscapedSearch(literal: string, s: string)
    ensures Search(Escape(literal), s) <==> Contains(LowerStr(s), LowerStr(literal))
    decreases |s|
  {
    EscapedPrefix(literal, s);
    if s != [] {
      EscapedSearch(literal, s[1..]);
      LowerStrTail(s);
    }
  }

  /** `must[- ]fix` matches at the start of `t` exactly when lowered `t` begins with "must-fix" or "must fix". */
  lemma MustFixPrefix(t: string)
    ensures MatchesPrefix(MustFix, t) <==>
      StartsWith(LowerStr(t), "must-fix") || StartsWith(LowerStr(t), "must fix")
  {
    MatchesPrefixIff(MustFix, t);
    if |t| >= 8 {
      var l := LowerStr(t)[..8];
      assert l == [Lower(t[0]), Lower(t[1]), Lower(t[2]), Lower(t[3]),
                   Lower(t[4]), Lower(t[5]), Lower(t[6]), Lower(t[7])];
      assert (forall j | 0 <= j < 8 :: Accepts(MustFix[j], t[j])) <==>
        l[0] == 'm' && l[1] == 'u' && l[2] == 's' && l[3] == 't' &&
        (l[4] == '-' || l[4] == ' ') && l[5] == 'f' && l[6] == 'i' && l[7] == 'x';
    }
  }

  /** `must[- ]fix` under `re.IGNORECASE` finds a match exactly when lowered `s` contains "must-fix" or "must fix". */
  lemma {:induction false} MustFixSearch(s: string)
    ensures Search(MustFix, s) <==>
      Contains(LowerStr(s), "must-fix") || Contains(LowerStr(s), "must fix")
    decreases |s|
  {
    MustFixPrefix(s);
    if s != [] {
      MustFixSearch(s[1..]);
      LowerStrTail(s);
    }
  }

  /** Where `must[- ]fix` matches, the text reads "must", a hyphen or a space, then "fix". */
  lemma MustFixMatchShape(s: string, i: int)
    requires MatchesAt(MustFix, s, i)
    ensures i + 8 <= |s|
    ensures Lower(s[i]) == 'm' && Lower(s[i + 1]) == 'u' && Lower(s[i + 2]) == 's' && Lower(s[i + 3]) == 't'
    ensures s[i + 4] == '-' || s[i + 4] == ' '
    ensures Lower(s[i + 5]) == 'f' && Lower(s[i + 6]) == 'i' && Lower(s[i + 7]) == 'x'
  {
    MatchesPrefixIff(MustFix, s[i..]);
    assert Accepts(MustFix[0], s[i..][0]) && Accepts(MustFix[1], s[i..][1]);
    assert Accepts(MustFix[2], s[i..][2]) && Accepts(MustFix[3], s[i..][3]);
    assert Accepts(MustFix[4], s[i..][4]) && Accepts(MustFix[5], s[i..][5]);
    assert Accepts(MustFix[6], s[i..][6]) && Accepts(MustFix[7], s[i..][7]);
  }
}
