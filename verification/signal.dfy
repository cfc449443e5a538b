/**
 * `sigar_signum_get`: a signal name, with or without a leading "SIG" in any
 * case, to its number. Numbers are the Linux x86-64 ones; the branches for
 * EMT and INFO are compiled out there.
 */
module Signal {
  import opened Wrappers
  import opened Strings

  /** The names the lookup knows, in the order the lookup tries them, with their Linux numbers. */
  const SIGNALS: seq<(string, int)> := [
    ("ABRT", 6), ("ALRM", 14),
    ("BUS", 7),
    ("CONT", 18), ("CHLD", 17), ("CLD", 17),
    ("FPE", 8),
    ("HUP", 1),
    ("INT", 2), ("ILL", 4), ("IOT", 6), ("IO", 29),
    ("KILL", 9),
    ("POLL", 29), ("PIPE", 13), ("PROF", 27), ("PWR", 30),
    ("QUIT", 3),
    ("SEGV", 11), ("SYS", 31), ("STOP", 19), ("STKFLT", 16),
    ("TRAP", 5), ("TERM", 15), ("TSTP", 20), ("TTIN", 21), ("TTOU", 22),
    ("URG", 23), ("USR1", 10), ("USR2", 12),
    ("VTALRM", 26),
    ("WINCH", 28),
    ("XCPU", 24), ("XFSZ", 25)
  ]

  /** All names in `table` start with an upper-case letter. */
  predicate UpperInitials(table: seq<(string, int)>)
  {
    forall k :: 0 <= k < |table| ==> table[k].0 != "" && IsUpper(table[k].0[0])
  }

  /** Every known name starts with an upper-case letter. */
  lemma NamesStartUpper()
    ensures UpperInitials(SIGNALS)
  {
  }

  /** The entries of `table` whose name starts with `c`, in order. */
  function Starting(table: seq<(string, int)>, c: char): (r: seq<(string, int)>)
    ensures |r| <= |table|
    ensures forall k :: 0 <= k < |r| ==> r[k].0 != "" && r[k].0[0] == c
  {
    if table == [] then []
    else if table[0].0 != "" && table[0].0[0] == c then [table[0]] + Starting(table[1..], c)
    else Starting(table[1..], c)
  }

  /** The names one `case` of the switch tries: those starting with `c`, in the order written. */
  function Candidates(c: char): (r: seq<(string, int)>)
    ensures forall k :: 0 <= k < |r| ==> r[k].0 != "" && r[k].0[0] == c
  {
    Starting(SIGNALS, c)
  }

  /** The number of the first candidate equal to `name` ignoring case. */
  function FirstMatch(name: string, cands: seq<(string, int)>): (r: Option<int>)
    ensures r.None? <==> forall e :: e in cands ==> !EqualsIgnoreCase(name, e.0)
    ensures r.Some? ==> exists e :: e in cands && EqualsIgnoreCase(name, e.0) && e.1 == r.value
  {
    if cands == [] then None
    else if EqualsIgnoreCase(name, cands[0].0) then Some(cands[0].1)
    else
      assert forall e :: e in cands <==> e == cands[0] || e in cands[1..];
      FirstMatch(name, cands[1..])
  }

  /** The name with one leading "SIG", in any case, removed. */
  function Stripped(name: string): (r: string)
    ensures StartsWithIgnoreCase(name, "SIG") ==> r == name[3..]
    ensures !StartsWithIgnoreCase(name, "SIG") ==> r == name
  {
    if StartsWithIgnoreCase(name, "SIG") then name[3..] else name
  }

  /** The tail of a table with upper-case initials has them too. */
  lemma UpperInitialsTail(table: seq<(string, int)>)
    requires UpperInitials(table) && table != []
    ensures UpperInitials(table[1..])
  {
    forall k | 0 <= k < |table[1..]| ensures table[1..][k].0 != "" && IsUpper(table[1..][k].0[0]) {
      assert table[1..][k] == table[k + 1];
    }
  }

  /** Two names whose initials are different upper-case letters differ ignoring case. */
  lemma DifferentInitials(a: string, b: string)
    requires a != "" && b != "" && IsUpper(a[0]) && IsUpper(b[0]) && a[0] != b[0]
    ensures !EqualsIgnoreCase(a, b)
  {
    assert ToLower(a[0]) != ToLower(b[0]);
  }

  /**
   * With upper-case initials only, searching the entries that start with an
   * upper-case `name[0]` finds what searching all of them finds: a name equal
   * to `name` ignoring case has the same upper-case initial.
   */
  lemma {:induction false} SwitchSearchesAll(table: seq<(string, int)>, name: string)
    requires UpperInitials(table) && name != "" && IsUpper(name[0])
    ensures FirstMatch(name, Starting(table, name[0])) == FirstMatch(name, table)
  {
    if table != [] {
      UpperInitialsTail(table);
      SwitchSearchesAll(table[1..], name);
      if table[0].0[0] != name[0] {
        DifferentInitials(name, table[0].0);
      }
    }
  }

  /** No entry with upper-case initials starts with a character that is not upper case. */
  lemma {:induction false} NoLowerCase(table: seq<(string, int)>, c: char)
    requires UpperInitials(table) && !IsUpper(c)
    ensures Starting(table, c) == []
  {
    if table != [] {
      UpperInitialsTail(table);
      NoLowerCase(table[1..], c);
    }
  }

  /** The search answers with the number of the first entry that matches. */
  lemma {:induction false} FirstMatchAt(name: string, table: seq<(string, int)>, k: nat)
    requires k < |table| && EqualsIgnoreCase(name, table[k].0)
    requires forall j :: 0 <= j < k ==> !EqualsIgnoreCase(name, table[j].0)
    ensures FirstMatch(name, table) == Some(table[k].1)
  {
    if k > 0 {
      assert forall j :: 0 <= j < k - 1 ==> table[1..][j] == table[j + 1];
      FirstMatchAt(name, table[1..], k - 1);
    }
  }

  /** The lookup over all known names, ignoring case throughout. */
  function SignumGetIgnoringCase(name: string): (r: Result<int>)
    ensures r == Failure(InvalidArgument) <==> Stripped(name) == ""
    ensures r.Failure? ==> r == Failure(InvalidArgument) || r == Failure(NotFound)
    ensures r.Success? <==> Stripped(name) != "" && exists e :: e in SIGNALS && EqualsIgnoreCase(Stripped(name), e.0)
    ensures r.Success? ==> exists e :: e in SIGNALS && EqualsIgnoreCase(Stripped(name), e.0) && e.1 == r.value
  {
    var rest := Stripped(name);
    if rest == "" then Failure(InvalidArgument)
    else
      match FirstMatch(rest, SIGNALS)
      case Some(n) => Success(n)
      case None => Failure(NotFound)
  }

  /**
   * `sigar_signum_get`: an empty remainder is an invalid argument; otherwise
   * the remainder's first character picks the `case` of the switch,
   * case-sensitively, and the names there are compared ignoring case; no
   * match is not found. So it agrees with the case-blind lookup exactly when
   * the remainder starts with an upper-case letter.
   */
  function SignumGet(name: string): (r: Result<int>)
    ensures r == Failure(InvalidArgument) <==> Stripped(name) == ""
    ensures Stripped(name) != "" && !IsUpper(Stripped(name)[0]) ==> r == Failure(NotFound)
    ensures Stripped(name) != "" && IsUpper(Stripped(name)[0]) ==> r == SignumGetIgnoringCase(name)
  {
    var rest := Stripped(name);
    if rest == "" then Failure(InvalidArgument)
    else
      NamesStartUpper();
      if IsUpper(rest[0]) then SwitchSearchesAll(SIGNALS, rest); SwitchCase(rest)
      else NoLowerCase(SIGNALS, rest[0]); SwitchCase(rest)
  }

  /** The `case` of the switch for a non-empty remainder. */
  function SwitchCase(rest: string): (r: Result<int>)
    requires rest != ""
    ensures r.Success? ==> exists e :: e in Candidates(rest[0]) && EqualsIgnoreCase(rest, e.0) && e.1 == r.value
    ensures r.Failure? <==> forall e :: e in Candidates(rest[0]) ==> !EqualsIgnoreCase(rest, e.0)
    ensures r.Failure? ==> r == Failure(NotFound)
  {
    match FirstMatch(rest, Candidates(rest[0]))
    case Some(n) => Success(n)
    case None => Failure(NotFound)
  }

  /** A name that does not start with an S in either case keeps all its characters. */
  lemma NotPrefixed(s: string)
    requires |s| >= 3 && ToLower(s[0]) != 's'
    ensures Stripped(s) == s
  {
    assert s[..3][0] == s[0];
  }

  /** A name whose first letter is lower case is not found, whatever follows. */
  lemma LowerCaseExamples()
    ensures SignumGet("kill") == Failure(NotFound)
    ensures SignumGet("sigint") == Failure(NotFound)
  {
    NotPrefixed("kill");
    assert Stripped("sigint") == "int";
  }

  /** The prefix alone, or nothing at all, is an invalid argument. */
  lemma EmptyExamples()
    ensures SignumGet("SIG") == Failure(InvalidArgument)
    ensures SignumGet("sig") == Failure(InvalidArgument)
    ensures SignumGet("") == Failure(InvalidArgument)
  {
    assert Stripped("SIG") == "";
    assert Stripped("sig") == "";
  }

  /** KILL is the thirteenth name, and no name before it starts with K. */
  lemma KillPosition()
    ensures |SIGNALS| > 12 && SIGNALS[12] == ("KILL", 9)
    ensures forall j :: 0 <= j < 12 ==> SIGNALS[j].0 != "" && IsUpper(SIGNALS[j].0[0]) && SIGNALS[j].0[0] != 'K'
  {
  }

  /** A spelling of KILL with an upper-case K is found as 9 by the search over all names. */
  lemma KillFound(name: string)
    requires EqualsIgnoreCase(name, "KILL") && name[0] == 'K'
    ensures FirstMatch(name, SIGNALS) == Some(9)
  {
    KillPosition();
    forall j | 0 <= j < 12 ensures !EqualsIgnoreCase(name, SIGNALS[j].0) {
      DifferentInitials(name, SIGNALS[j].0);
    }
    FirstMatchAt(name, SIGNALS, 12);
  }

  /** KILL is signal 9 however the rest of its letters are written, with or without the prefix. */
  lemma KillExamples()
    ensures SignumGet("Kill") == Success(9)
    ensures SignumGet("sigKILL") == Success(9)
  {
    NotPrefixed("Kill");
    assert Stripped("sigKILL") == "KILL";
    KillFound("Kill");
    KillFound("KILL");
  }

  /** Two names whose second letters are different upper-case letters differ ignoring case. */
  lemma DifferentSecond(a: string, b: string)
    requires |a| >= 2 && |b| >= 2 && IsUpper(a[1]) && IsUpper(b[1]) && a[1] != b[1]
    ensures !EqualsIgnoreCase(a, b)
  {
    assert ToLower(a[1]) != ToLower(b[1]);
  }

  /** The names starting with S are SEGV, SYS, STOP and STKFLT. */
  lemma NamesWithS()
    ensures forall k :: 0 <= k < |SIGNALS| && SIGNALS[k].0 != "" && SIGNALS[k].0[0] == 'S' ==>
      |SIGNALS[k].0| != 6 || SIGNALS[k].0[1] == 'T'
  {
  }

  /** A name with an upper-case initial, shaped like the names starting with S, differs from "SIGINT". */
  lemma NotSigInt(x: string)
    requires x != "" && IsUpper(x[0]) && (x[0] == 'S' ==> |x| != 6 || x[1] == 'T')
    ensures !EqualsIgnoreCase("SIGINT", x)
  {
    if x[0] != 'S' {
      DifferentInitials("SIGINT", x);
    } else if |x| == 6 {
      DifferentSecond("SIGINT", x);
    }
  }

  /** No name matches "SIGINT": the names starting with S differ from it in length or in the second letter. */
  lemma SigIntUnknown()
    ensures FirstMatch("SIGINT", SIGNALS) == None
  {
    NamesStartUpper();
    NamesWithS();
    forall k | 0 <= k < |SIGNALS| ensures !EqualsIgnoreCase("SIGINT", SIGNALS[k].0) {
      NotSigInt(SIGNALS[k].0);
    }
    assert forall e :: e in SIGNALS ==> !EqualsIgnoreCase("SIGINT", e.0);
  }

  /** The prefix is removed once only: "SIGSIGINT" leaves "SIGINT", which no name matches. */
  lemma DoublePrefixNotFound()
    ensures SignumGet("SIGSIGINT") == Failure(NotFound)
  {
    assert Stripped("SIGSIGINT") == "SIGINT";
    SigIntUnknown();
  }

  /** `a` and `b` are equal ignoring case exactly when their lower-case forms agree everywhere. */
  lemma IgnoreCaseTransitive(a: string, b: string, c: string)
    requires EqualsIgnoreCase(a, b)
    ensures EqualsIgnoreCase(a, c) <==> EqualsIgnoreCase(b, c)
  {
  }

  /** Stripping the prefix of two names equal ignoring case leaves remainders equal ignoring case. */
  lemma StrippedIgnoresCase(a: string, b: string)
    requires EqualsIgnoreCase(a, b)
    ensures EqualsIgnoreCase(Stripped(a), Stripped(b))
  {
    if StartsWithIgnoreCase(a, "SIG") {
      assert forall i :: 0 <= i < 3 ==> ToLower(a[i]) == ToLower(b[i]);
      assert StartsWithIgnoreCase(b, "SIG");
      assert forall i :: 0 <= i < |a| - 3 ==> a[3..][i] == a[i + 3] && b[3..][i] == b[i + 3];
    } else {
      assert !StartsWithIgnoreCase(b, "SIG") by {
        if |b| >= 3 {
          assert forall i :: 0 <= i < 3 ==> ToLower(a[i]) == ToLower(b[i]);
          assert a[..3] == [a[0], a[1], a[2]] && b[..3] == [b[0], b[1], b[2]];
        }
      }
    }
  }

  /** `FirstMatch` gives the same answer for names equal ignoring case. */
  lemma {:induction false} FirstMatchIgnoresCase(a: string, b: string, cands: seq<(string, int)>)
    requires EqualsIgnoreCase(a, b)
    ensures FirstMatch(a, cands) == FirstMatch(b, cands)
  {
    if cands != [] {
      IgnoreCaseTransitive(a, b, cands[0].0);
      FirstMatchIgnoresCase(a, b, cands[1..]);
    }
  }

  /** The corrected lookup gives the same answer for any spelling of a name. */
  lemma CorrectedIgnoresCase(a: string, b: string)
    requires EqualsIgnoreCase(a, b)
    ensures SignumGetIgnoringCase(a) == SignumGetIgnoringCase(b)
  {
    StrippedIgnoresCase(a, b);
    FirstMatchIgnoresCase(Stripped(a), Stripped(b), SIGNALS);
  }

  /** "kill" and "Kill" differ only in the case of the first letter. */
  lemma KillSpellings()
    ensures EqualsIgnoreCase("kill", "Kill")
  {
    var a, b := "kill", "Kill";
    assert ToLower(a[0]) == ToLower(b[0]) == 'k';
    assert a[1..] == b[1..];
    assert forall i :: 1 <= i < 4 ==> a[i] == b[i];
  }

  /** The lookup as written misses a name that differs from a known one only in case; the case-blind one finds it. */
  lemma LowerCaseNameNotFound()
    ensures EqualsIgnoreCase("kill", "Kill")
    ensures SignumGet("kill") == Failure(NotFound) && SignumGet("Kill") == Success(9)
    ensures SignumGetIgnoringCase("kill") == Success(9)
  {
    LowerCaseExamples();
    KillExamples();
    KillSpellings();
    CorrectedIgnoresCase("kill", "Kill");
  }
}
