/**
 * `WildcardMatcher`: a list of glob patterns and a set of exact names, split
 * out of a ','/';'-separated list. In a pattern '*' matches any run of
 * characters and the configurable question mark matches one character.
 */
module Wildcard {
  import opened Strings

  /** The character read one past the end of a pattern: the string's terminating NUL. */
  const NUL: char := '\0'

  /** The reference meaning of a pattern: does `w` match all of `s`? */
  predicate Glob(w: string, s: string, qm: char)
    decreases |w| + |s|
  {
    if w == [] then s == []
    else if w[0] == '*' then Glob(w[1..], s, qm) || (s != [] && Glob(w, s[1..], qm))
    else s != [] && (w[0] == s[0] || w[0] == qm) && Glob(w[1..], s[1..], qm)
  }

  /** `p` matches some suffix of `s` (the choices a star before `p` leaves open). */
  predicate AnySuffix(p: string, s: string, qm: char)
    decreases |s|
  {
    Glob(p, s, qm) || (s != [] && AnySuffix(p, s[1..], qm))
  }

  predicate StarFree(x: string)
  {
    forall i :: 0 <= i < |x| ==> x[i] != '*'
  }

  /** A star matches exactly when the rest matches some suffix. */
  lemma {:induction false} StarIsAnySuffix(p: string, s: string, qm: char)
    ensures Glob(['*'] + p, s, qm) <==> AnySuffix(p, s, qm)
    decreases |s|
  {
    assert (['*'] + p)[1..] == p;
    if s != [] {
      StarIsAnySuffix(p, s[1..], qm);
    }
  }

  /** A suffix of a suffix is a suffix. */
  lemma {:induction false} AnySuffixOfSuffix(p: string, s: string, k: nat, qm: char)
    requires k <= |s|
    requires AnySuffix(p, s[k..], qm)
    ensures AnySuffix(p, s, qm)
    decreases k
  {
    if k > 0 {
      assert s[1..][k - 1..] == s[k..];
      AnySuffixOfSuffix(p, s[1..], k - 1, qm);
    }
  }

  /** A star-free head consumes exactly its length; then the tail must match. */
  lemma {:induction false} StarFreeHead(x: string, rest: string, s: string, qm: char)
    requires StarFree(x)
    requires Glob(x + rest, s, qm)
    ensures |x| <= |s| && Glob(rest, s[|x|..], qm)
    decreases |x|
  {
    if x != [] {
      assert (x + rest)[0] == x[0];
      assert (x + rest)[1..] == x[1..] + rest;
      StarFreeHead(x[1..], rest, s[1..], qm);
      assert s[1..][|x| - 1..] == s[|x|..];
    } else {
      assert x + rest == rest;
    }
  }

  /** A pattern whose star-free head is longer than the text matches no suffix of it. */
  lemma {:induction false} TooShort(x: string, rest: string, s: string, qm: char)
    requires StarFree(x) && |x| > |s|
    ensures !AnySuffix(x + rest, s, qm)
    decreases |s|
  {
    if Glob(x + rest, s, qm) {
      StarFreeHead(x, rest, s, qm);
    }
    if s != [] {
      TooShort(x, rest, s[1..], qm);
    }
  }

  /**
   * The alternatives an earlier star left open are covered by the star just
   * reached: a match of `x * p` from any start at or after `cp` continues
   * with `p` from some position after `sit`.
   */
  lemma Subsumed(x: string, p: string, s: string, cp: nat, qm: char)
    requires StarFree(x) && cp <= |s|
    requires AnySuffix(x + ['*'] + p, s[cp..], qm)
    ensures cp + |x| <= |s| && AnySuffix(p, s[cp + |x|..], qm)
  {
    SubsumedFrom(x, p, s[cp..], qm);
    assert s[cp..][|x|..] == s[cp + |x|..];
  }

  lemma {:induction false} SubsumedFrom(x: string, p: string, t: string, qm: char)
    requires StarFree(x)
    requires AnySuffix(x + ['*'] + p, t, qm)
    ensures |x| <= |t| && AnySuffix(p, t[|x|..], qm)
    decreases |t|
  {
    assert x + ['*'] + p == x + (['*'] + p);
    if Glob(x + (['*'] + p), t, qm) {
      StarFreeHead(x, ['*'] + p, t, qm);
      StarIsAnySuffix(p, t[|x|..], qm);
    } else {
      SubsumedFrom(x, p, t[1..], qm);
      assert t[1..][|x|..] == t[|x| + 1..];
      AnySuffixOfSuffix(p, t[|x|..], 1, qm);
    }
  }

  /** The pattern character at `i`, or the terminating NUL at the end. */
  function At(w: string, i: nat): char
  {
    if i < |w| then w[i] else NUL
  }

  lemma {:induction false} OnlyStarsMatchEmpty(w: string, i: nat, qm: char)
    requires i <= |w|
    ensures Glob(w[i..], [], qm) <==> forall j :: i <= j < |w| ==> w[j] == '*'
    decreases |w| - i
  {
    if i < |w| {
      assert w[i..][1..] == w[i + 1..];
      OnlyStarsMatchEmpty(w, i + 1, qm);
    }
  }

  /**
   * The state of the backtracking scan: `wit`/`sit` are the pattern and
   * text positions, `mp` the pattern position after the last star and `cp`
   * the next text position to retry from. The answer is the current attempt
   * or one of the retries the last star still allows.
   */
  predicate ScanState(w: string, s: string, qm: char, wit: nat, sit: nat, mp: nat, cp: nat, starSeen: bool)
  {
    && wit <= |w| && sit <= |s|
    && (!starSeen ==> cp == sit && (sit < |s| ==> At(w, wit) == '*'))
    && (starSeen ==> 1 <= mp <= wit && 1 <= cp <= |s| + 1 && sit + 1 - cp == wit - mp && StarFree(w[mp..wit]))
    && (Glob(w, s, qm) == (Glob(w[wit..], s[sit..], qm) || (starSeen && cp <= |s| && AnySuffix(w[mp..], s[cp..], qm))))
  }

  /** Reaching a star that is not the last pattern character. */
  lemma StarStep(w: string, s: string, qm: char, wit: nat, sit: nat, mp: nat, cp: nat, starSeen: bool)
    requires ScanState(w, s, qm, wit, sit, mp, cp, starSeen)
    requires sit < |s| && At(w, wit) == '*' && wit + 1 < |w|
    ensures ScanState(w, s, qm, wit + 1, sit, wit + 1, sit + 1, true)
  {
    assert w[wit..] == ['*'] + w[wit + 1..];
    StarIsAnySuffix(w[wit + 1..], s[sit..], qm);
    assert s[sit..][1..] == s[sit + 1..];
    if starSeen && cp <= |s| && AnySuffix(w[mp..], s[cp..], qm) {
      assert w[mp..] == w[mp..wit] + ['*'] + w[wit + 1..];
      Subsumed(w[mp..wit], w[wit + 1..], s, cp, qm);
    }
  }

  /** A star as the last pattern character matches whatever text is left. */
  lemma FinalStar(w: string, s: string, qm: char, wit: nat, sit: nat, mp: nat, cp: nat, starSeen: bool)
    requires ScanState(w, s, qm, wit, sit, mp, cp, starSeen)
    requires sit < |s| && At(w, wit) == '*' && wit + 1 == |w|
    ensures Glob(w, s, qm)
  {
    assert w[wit..] == ['*'] + w[wit + 1..];
    StarIsAnySuffix(w[wit + 1..], s[sit..], qm);
    assert Glob([], s[|s|..], qm);
    AnySuffixOfSuffix([], s[sit..], |s| - sit, qm);
  }

  /** One character matched. */
  lemma MatchStep(w: string, s: string, qm: char, wit: nat, sit: nat, mp: nat, cp: nat, starSeen: bool)
    requires ScanState(w, s, qm, wit, sit, mp, cp, starSeen) && NUL !in s && qm != NUL
    requires sit < |s| && At(w, wit) != '*' && (At(w, wit) == s[sit] || At(w, wit) == qm)
    ensures starSeen && wit < |w|
    ensures ScanState(w, s, qm, wit + 1, sit + 1, mp, cp, starSeen)
  {
    assert s[sit] != NUL;
    assert w[wit..][1..] == w[wit + 1..] && s[sit..][1..] == s[sit + 1..];
    assert w[mp..wit + 1] == w[mp..wit] + [w[wit]];
  }

  /** A mismatch: retry the part after the last star one text position later. */
  lemma MismatchStep(w: string, s: string, qm: char, wit: nat, sit: nat, mp: nat, cp: nat, starSeen: bool)
    requires ScanState(w, s, qm, wit, sit, mp, cp, starSeen) && NUL !in s && qm != NUL
    requires sit < |s| && At(w, wit) != '*' && At(w, wit) != s[sit] && At(w, wit) != qm
    ensures starSeen && cp <= |s|
    ensures ScanState(w, s, qm, mp, cp, mp, cp + 1, true)
  {
    assert s[sit] != NUL;
    assert !Glob(w[wit..], s[sit..], qm);
    if cp < |s| {
      assert s[cp..][1..] == s[cp + 1..];
    }
    assert w[mp..mp] == [];
  }

  /** The text is used up: only the current attempt can still succeed. */
  lemma ScanDone(w: string, s: string, qm: char, wit: nat, sit: nat, mp: nat, cp: nat, starSeen: bool)
    requires ScanState(w, s, qm, wit, sit, mp, cp, starSeen) && sit == |s|
    ensures Glob(w, s, qm) == Glob(w[wit..], [], qm)
  {
    if starSeen && cp <= |s| {
      assert w[mp..] == w[mp..wit] + w[wit..];
      TooShort(w[mp..wit], w[wit..], s[cp..], qm);
    }
    assert s[sit..] == [];
  }

  /**
   * The first loop of `wild_cmp`: match character by character up to the
   * first star. `ok` is false on a mismatch, which settles the answer.
   */
  method ScanToStar(w: string, s: string, qm: char) returns (ok: bool, i: nat)
    requires NUL !in s && qm != NUL
    ensures !ok ==> !Glob(w, s, qm)
    ensures ok ==> i <= |s| && i <= |w| && (i < |s| ==> At(w, i) == '*')
    ensures ok ==> Glob(w, s, qm) == Glob(w[i..], s[i..], qm)
  {
    i := 0;
    while i < |s| && At(w, i) != '*'
      invariant i <= |s| && i <= |w|
      invariant Glob(w, s, qm) == Glob(w[i..], s[i..], qm)
      decreases |s| - i
    {
      if At(w, i) != s[i] && At(w, i) != qm {
        assert s[i] != NUL;
        return false, i;
      }
      assert w[i..][1..] == w[i + 1..] && s[i..][1..] == s[i + 1..];
      i := i + 1;
    }
    ok := true;
  }

  /** The last loop of `wild_cmp`: skip trailing stars and report whether the pattern is used up. */
  method OnlyStarsLeft(w: string, wit: nat, qm: char) returns (b: bool)
    requires wit <= |w|
    ensures b == Glob(w[wit..], [], qm)
  {
    var end := wit;
    while At(w, end) == '*'
      invariant wit <= end <= |w|
      invariant forall j :: wit <= j < end ==> w[j] == '*'
      decreases |w| - end
    {
      end := end + 1;
    }
    OnlyStarsMatchEmpty(w, wit, qm);
    b := end == |w|;
  }

  /**
   * One turn of the main loop of `wild_cmp`: a star that ends the pattern
   * settles the match; otherwise the scan state moves on and the position
   * to retry from, the text position or the pattern position advances.
   */
  method ScanStep(w: string, s: string, qm: char, wit: nat, sit: nat, mp: nat, cp: nat, ghost starSeen: bool)
    returns (done: bool, wit': nat, sit': nat, mp': nat, cp': nat, ghost starSeen': bool)
    requires ScanState(w, s, qm, wit, sit, mp, cp, starSeen) && sit < |s| && NUL !in s && qm != NUL
    ensures done ==> Glob(w, s, qm)
    ensures !done ==> ScanState(w, s, qm, wit', sit', mp', cp', starSeen')
    ensures !done ==> cp' > cp || (cp' == cp && sit' > sit) || (cp' == cp && sit' == sit && wit' > wit)
  {
    if At(w, wit) == '*' {
      if wit + 1 == |w| {
        FinalStar(w, s, qm, wit, sit, mp, cp, starSeen);
        return true, wit, sit, mp, cp, starSeen;
      }
      StarStep(w, s, qm, wit, sit, mp, cp, starSeen);
      return false, wit + 1, sit, wit + 1, sit + 1, true;
    } else if At(w, wit) == s[sit] || At(w, wit) == qm {
      MatchStep(w, s, qm, wit, sit, mp, cp, starSeen);
      return false, wit + 1, sit + 1, mp, cp, starSeen;
    } else {
      MismatchStep(w, s, qm, wit, sit, mp, cp, starSeen);
      return false, mp, cp, mp, cp + 1, true;
    }
  }

  /**
   * `wild_cmp`: a greedy scan that remembers the position after the last
   * star and the next text position to retry from, and backtracks there on
   * a mismatch. It returns whether the pattern matches the whole text.
   */
  method WildCmp(w: string, s: string, qm: char) returns (b: bool)
    requires NUL !in s && qm != NUL
    ensures b == Glob(w, s, qm)
  {
    var ok, start := ScanToStar(w, s, qm);
    if !ok {
      return false;
    }
    var wit: nat := start;
    var sit: nat := start;
    ghost var starSeen := false;
    var mp: nat := 0;
    var cp: nat := sit;
    while sit < |s|
      invariant ScanState(w, s, qm, wit, sit, mp, cp, starSeen)
      decreases |s| + 1 - cp, |s| - sit, |w| + 1 - wit
    {
      var done;
      done, wit, sit, mp, cp, starSeen := ScanStep(w, s, qm, wit, sit, mp, cp, starSeen);
      if done {
        return true;
      }
    }
    ScanDone(w, s, qm, wit, sit, mp, cp, starSeen);
    b := OnlyStarsLeft(w, wit, qm);
  }

  /** The characters the constructor splits the list on. */
  const SEPARATORS: set<char> := {',', ';'}

  datatype Matcher = Matcher(qm: char, onBothEmpty: bool, wildcards: seq<string>, exact: set<string>)

  /**
   * A token is a pattern when it holds '*' or the question mark. The marks
   * are searched as a C string, so a NUL question mark ends the search early
   * and only '*' counts.
   */
  predicate IsPattern(tok: string, qm: char)
  {
    '*' in tok || (qm != NUL && qm in tok)
  }

  /** Patterns in list order, and the set of the other tokens. */
  function Classify(tokens: seq<string>, qm: char): (r: (seq<string>, set<string>))
    ensures forall t :: t in r.0 <==> t in tokens && IsPattern(t, qm)
    ensures forall t :: t in r.1 <==> t in tokens && !IsPattern(t, qm)
    ensures |r.0| <= |tokens|
  {
    if tokens == [] then ([], {})
    else
      var rest := Classify(tokens[1..], qm);
      assert forall t :: t in tokens <==> t == tokens[0] || t in tokens[1..];
      if IsPattern(tokens[0], qm) then ([tokens[0]] + rest.0, rest.1)
      else (rest.0, {tokens[0]} + rest.1)
  }

  /**
   * The constructor: nothing for an empty list; otherwise every piece
   * between separators, empty pieces included, is a pattern or an exact name.
   */
  function NewMatcher(wildcards: string, qm: char, onBothEmpty: bool): (m: Matcher)
    ensures m.qm == qm && m.onBothEmpty == onBothEmpty
    ensures wildcards == "" ==> m.wildcards == [] && m.exact == {}
    ensures wildcards != "" ==> forall t :: t in m.wildcards <==> t in Split(wildcards, SEPARATORS) && IsPattern(t, qm)
    ensures wildcards != "" ==> forall t :: t in m.exact <==> t in Split(wildcards, SEPARATORS) && !IsPattern(t, qm)
  {
    if wildcards == "" then Matcher(qm, onBothEmpty, [], {})
    else
      var parts := Classify(Split(wildcards, SEPARATORS), qm);
      Matcher(qm, onBothEmpty, parts.0, parts.1)
  }

  /** The meaning of `match`: an exact hit, else `on_both_empty` with nothing configured, else some pattern. */
  predicate Matches(m: Matcher, name: string)
  {
    if m.exact != {} && name in m.exact then true
    else if m.exact == {} && m.wildcards == [] then m.onBothEmpty
    else exists i :: 0 <= i < |m.wildcards| && Glob(m.wildcards[i], name, m.qm)
  }

  /** `match`: the exact set first, then each pattern in turn through `wild_cmp`. */
  method Match(m: Matcher, name: string) returns (b: bool)
    requires NUL !in name && m.qm != NUL
    ensures b == Matches(m, name)
  {
    if |m.exact| > 0 {
      if name in m.exact {
        return true;
      }
    } else if |m.wildcards| == 0 {
      return m.onBothEmpty;
    }
    var i := 0;
    while i < |m.wildcards|
      invariant 0 <= i <= |m.wildcards|
      invariant forall j :: 0 <= j < i ==> !Glob(m.wildcards[j], name, m.qm)
    {
      var hit := WildCmp(m.wildcards[i], name, m.qm);
      if hit {
        return true;
      }
      i := i + 1;
    }
    b := false;
  }

  lemma SplitAtSeparator(c: char, rest: string)
    requires c in SEPARATORS
    ensures Split([c] + rest, SEPARATORS) == [""] + Split(rest, SEPARATORS)
  {
    assert ([c] + rest)[1..] == rest;
  }

  lemma {:induction false} SplitWord(w: string, rest: string)
    requires forall i :: 0 <= i < |w| ==> w[i] !in SEPARATORS
    ensures Split(w + rest, SEPARATORS) == [w + Split(rest, SEPARATORS)[0]] + Split(rest, SEPARATORS)[1..]
  {
    if w != [] {
      assert (w + rest)[0] == w[0];
      assert (w + rest)[1..] == w[1..] + rest;
      SplitWord(w[1..], rest);
      var r := Split(rest, SEPARATORS);
      assert [w[0]] + (w[1..] + r[0]) == w + r[0];
    } else {
      assert w + rest == rest;
      var r := Split(rest, SEPARATORS);
      assert r == [r[0]] + r[1..];
      assert w + r[0] == r[0];
    }
  }

  /** A separator-free word splits to itself. */
  lemma SplitPlainWord(w: string)
    requires forall i :: 0 <= i < |w| ==> w[i] !in SEPARATORS
    ensures Split(w, SEPARATORS) == [w]
  {
    SplitWord(w, "");
    assert w + "" == w;
  }

  lemma SplitSteps()
    ensures Split("a,,b", SEPARATORS) == ["a", "", "b"]
  {
    SplitPlainWord("b");
    SplitAtSeparator(',', "b");
    assert [','] + "b" == ",b";
    SplitAtSeparator(',', ",b");
    assert [','] + ",b" == ",,b";
    var r := Split(",,b", SEPARATORS);
    assert r == ["", "", "b"];
    SplitWord("a", ",,b");
    assert "a" + ",,b" == "a,,b";
    assert "a" + r[0] == "a";
    assert r[1..] == ["", "b"];
  }

  /** An empty piece between two separators becomes the exact name "". */
  lemma EmptyPieceIsExact()
    ensures NewMatcher("a,,b", '?', false).exact == {"a", "", "b"}
    ensures forall t :: t !in NewMatcher("a,,b", '?', false).wildcards
  {
    SplitSteps();
    assert !IsPattern("a", '?') && !IsPattern("", '?') && !IsPattern("b", '?');
    assert forall t :: t in ["a", "", "b"] <==> t == "a" || t == "" || t == "b";
  }

  lemma SplitTail3()
    ensures Split("b,c?", SEPARATORS) == ["b", "c?"]
  {
    SplitPlainWord("c?");
    SplitAtSeparator(',', "c?");
    assert [','] + "c?" == ",c?";
    var r1 := Split(",c?", SEPARATORS);
    SplitWord("b", ",c?");
    assert "b" + ",c?" == "b,c?";
    assert "b" + r1[0] == "b";
  }

  lemma SplitSteps3()
    ensures Split("a*;b,c?", SEPARATORS) == ["a*", "b", "c?"]
  {
    SplitTail3();
    SplitAtSeparator(';', "b,c?");
    assert [';'] + "b,c?" == ";b,c?";
    var r3 := Split(";b,c?", SEPARATORS);
    assert r3 == ["", "b", "c?"];
    SplitWord("a*", ";b,c?");
    assert "a*" + ";b,c?" == "a*;b,c?";
    assert "a*" + r3[0] == "a*";
  }

  /** Both separators split, and a token with a mark becomes a pattern. */
  lemma MixedList()
    ensures "a*" in NewMatcher("a*;b,c?", '?', true).wildcards
    ensures "c?" in NewMatcher("a*;b,c?", '?', true).wildcards
    ensures forall t :: t in NewMatcher("a*;b,c?", '?', true).exact <==> t == "b"
  {
    SplitSteps3();
    ThreeTokens(Split("a*;b,c?", SEPARATORS));
  }

  lemma ThreeTokens(tokens: seq<string>)
    requires tokens == ["a*", "b", "c?"]
    ensures "a*" in tokens && IsPattern("a*", '?')
    ensures "c?" in tokens && IsPattern("c?", '?')
    ensures forall t :: t in tokens && !IsPattern(t, '?') <==> t == "b"
  {
    assert IsPattern("a*", '?') && !IsPattern("b", '?') && IsPattern("c?", '?');
    assert tokens[0] == "a*" && tokens[1] == "b" && tokens[2] == "c?";
  }

  /** A pattern matches names of the shape it describes, and not others. */
  lemma GlobExamples()
    ensures Glob("km_*", "km_var1", '?')
    ensures Glob("f?ag", "flag", '?')
    ensures !Glob("f?ag", "flags", '?')
    ensures Glob("*a*", "bab", '?')
    ensures !Glob("km_*", "sys", '?')
  {
    assert Glob("", "", '?');
    assert Glob("*", "", '?');
    assert Glob("*", "b", '?');
    assert Glob("a*", "ab", '?');
    assert Glob("*a*", "ab", '?');
  }
}
