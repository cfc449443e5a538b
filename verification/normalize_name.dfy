/**
 * `to_underscored_name`: appends to `out` a version of `src` that uses only
 * lower-case ASCII letters, digits and underscores. A letter that starts a
 * new camel-case word is preceded by '_', and every run of other characters
 * becomes a single '_'.
 */
module NormalizeName {
  import opened Strings

  /** The characters a normalised name is made of. */
  predicate NameChar(c: char)
  {
    IsLower(c) || IsDigit(c) || c == '_'
  }

  predicate NoDoubleUnderscore(s: string)
  {
    forall i :: 0 <= i < |s| - 1 ==> !(s[i] == '_' && s[i + 1] == '_')
  }

  /** A name the function leaves unchanged. */
  predicate Normalized(s: string)
  {
    (forall i :: 0 <= i < |s| ==> NameChar(s[i])) && NoDoubleUnderscore(s)
  }

  /**
   * What one source character appends. `out` is non-empty past the first
   * character, because every character appends something to an empty `out`,
   * so reading its last character is defined.
   */
  function Step(out: string, src: string, i: nat): string
    requires i < |src| && (i > 0 ==> |out| > 0)
  {
    var c := src[i];
    if IsAlpha(c) then
      if IsUpper(c) then
        if i > 0 && !IsUpper(src[i - 1]) && out[|out| - 1] != '_' then out + ['_', ToLower(c)]
        else out + [ToLower(c)]
      else out + [c]
    else if IsDigit(c) then out + [c]
    else if |out| == 0 || out[|out| - 1] != '_' then out + ['_']
    else out
  }

  /**
   * One character keeps `out` as a prefix, appends only name characters
   * and no "__", ends with the character lowered when it is a letter or
   * digit, and puts '_' before an upper-case letter exactly when it
   * follows a character that is not upper case and `out` does not already
   * end in '_'.
   */
  lemma StepSpec(out: string, src: string, i: nat)
    requires i < |src| && (i > 0 ==> |out| > 0)
    ensures var r := Step(out, src, i);
      && |r| >= |out| && r[..|out|] == out && |r| > 0
      && (forall j :: |out| <= j < |r| ==> NameChar(r[j]))
      && (NoDoubleUnderscore(out) ==> NoDoubleUnderscore(r))
      && (IsAlpha(src[i]) || IsDigit(src[i]) ==> r[|r| - 1] == ToLower(src[i]))
      && (IsUpper(src[i]) ==>
           (r == out + ['_', ToLower(src[i])] <==> i > 0 && !IsUpper(src[i - 1]) && out[|out| - 1] != '_'))
  {
  }

  /** The loop over `src` from position `i` on. */
  function Go(out: string, src: string, i: nat): (r: string)
    requires i <= |src| && (i > 0 ==> |out| > 0)
    ensures |src| > 0 ==> |r| > 0
    decreases |src| - i
  {
    if i == |src| then out else Go(Step(out, src, i), src, i + 1)
  }

  /**
   * What the loop keeps: `out` stays a prefix, it only appends name
   * characters, and it creates no "__".
   */
  lemma {:induction false} GoKeeps(out: string, src: string, i: nat)
    requires i <= |src| && (i > 0 ==> |out| > 0)
    ensures var r := Go(out, src, i);
      && |r| >= |out| && r[..|out|] == out
      && (forall j :: |out| <= j < |r| ==> NameChar(r[j]))
      && (NoDoubleUnderscore(out) ==> NoDoubleUnderscore(r))
    decreases |src| - i
  {
    if i < |src| {
      var next := Step(out, src, i);
      StepSpec(out, src, i);
      GoKeeps(next, src, i + 1);
      var r := Go(next, src, i + 1);
      assert r[..|out|] == r[..|next|][..|out|];
    }
  }

  /**
   * `to_underscored_name(out, src)`: `out` is kept as a prefix, every
   * appended character is a lower-case letter, a digit or '_', and no "__"
   * appears that was not already in `out`.
   */
  function ToUnderscoredName(out: string, src: string): (r: string)
    ensures |r| >= |out| && r[..|out|] == out
    ensures forall j :: |out| <= j < |r| ==> NameChar(r[j])
    ensures NoDoubleUnderscore(out) ==> NoDoubleUnderscore(r)
  {
    GoKeeps(out, src, 0);
    Go(out, src, 0)
  }

  /** On an already normalised prefix of `s`, the loop reproduces the rest of `s`. */
  lemma {:induction false} GoIdentity(s: string, i: nat)
    requires Normalized(s) && 0 < i <= |s|
    ensures Go(s[..i], s, i) == s
    decreases |s| - i
  {
    if i < |s| {
      var c := s[i];
      assert s[..i][i - 1] == s[i - 1];
      assert c == '_' ==> s[i - 1] != '_';
      assert Step(s[..i], s, i) == s[..i + 1];
      GoIdentity(s, i + 1);
    } else {
      assert s[..i] == s;
    }
  }

  /** Normalising an already normalised name from an empty `out` returns it unchanged. */
  lemma Idempotent(s: string)
    requires Normalized(s)
    ensures ToUnderscoredName("", s) == s
  {
    if |s| > 0 {
      assert Step("", s, 0) == s[..1];
      GoIdentity(s, 1);
    }
  }

  /** The result of normalising anything is itself normalised. */
  lemma ResultIsNormalized(src: string)
    ensures Normalized(ToUnderscoredName("", src))
  {
  }

  /** Past the first character, the loop only looks back one character. */
  lemma {:induction false} Shift(out: string, src: string, k: nat, i: nat)
    requires k < i <= |src| && |out| > 0
    ensures Go(out, src, i) == Go(out, src[k..], i - k)
    decreases |src| - i
  {
    if i < |src| {
      assert src[k..][i - k] == src[i] && src[k..][i - k - 1] == src[i - 1];
      var next := Step(out, src, i);
      assert Step(out, src[k..], i - k) == next;
      Shift(next, src, k, i + 1);
    }
  }

  /**
   * Normalising `a + b` is normalising `a`, then carrying on with `b` after
   * the last character of `a`.
   */
  lemma {:induction false} Compose(out: string, a: string, b: string, i: nat)
    requires 0 < |a| && i <= |a| && (i > 0 ==> |out| > 0)
    ensures Go(out, a + b, i) == Go(Go(out, a, i), a[|a| - 1..] + b, 1)
    decreases |a| - i
  {
    if i == |a| {
      Shift(out, a + b, |a| - 1, |a|);
      assert (a + b)[|a| - 1..] == a[|a| - 1..] + b;
    } else {
      assert (a + b)[i] == a[i];
      assert i > 0 ==> (a + b)[i - 1] == a[i - 1];
      var next := Step(out, a, i);
      assert Step(out, a + b, i) == next;
      Compose(next, a, b, i + 1);
    }
  }

  lemma DashPiece()
    ensures Go("", "foo-", 0) == "foo_"
  {
  }

  lemma ColonPiece()
    ensures Go("", "foo:", 0) == "foo_"
  {
  }

  lemma MiddlePiece()
    ensures Go("foo_", "::bar:", 1) == "foo_bar_"
  {
  }

  lemma InlHeaderHead()
    ensures Go("", "foo-inl.h", 0) == Go("foo_", "-inl.h", 1)
  {
    assert "foo-" + "inl.h" == "foo-inl.h";
    Compose("", "foo-", "inl.h", 0);
    DashPiece();
    assert "foo-"[3..] + "inl.h" == "-inl.h";
  }

  lemma ExampleInlHeader()
    ensures ToUnderscoredName("", "foo-inl.h") == "foo_inl_h"
  {
    InlHeaderHead();
    assert Go("foo_", "-inl.h", 1) == "foo_inl_h";
  }

  lemma NamespacesHead(a: string, b: string)
    requires a == "foo:" && b == ":bar::Apple"
    ensures Go("", a + b, 0) == Go("foo_", a[3..] + b, 1)
  {
    Compose("", a, b, 0);
    ColonPiece();
  }

  lemma NamespacesMiddle()
    ensures Go("foo_", "::bar::Apple", 1) == Go("foo_bar_", "::Apple", 1)
  {
    assert "::bar:" + ":Apple" == "::bar::Apple";
    Compose("foo_", "::bar:", ":Apple", 1);
    MiddlePiece();
    assert "::bar:"[5..] + ":Apple" == "::Apple";
  }

  lemma NamespacesTail()
    ensures Go("foo_bar_", "::Apple", 1) == "foo_bar_apple"
  {
  }

  lemma ExampleNamespaces()
    ensures ToUnderscoredName("", "foo::bar::Apple") == "foo_bar_apple"
  {
    NamespacesHead("foo:", ":bar::Apple");
    assert "foo:" + ":bar::Apple" == "foo::bar::Apple";
    assert "foo:"[3..] + ":bar::Apple" == "::bar::Apple";
    NamespacesMiddle();
    NamespacesTail();
  }

  lemma ExampleUnderscore()
    ensures ToUnderscoredName("", "Car_Rot") == "car_rot"
  {
  }

  lemma ExampleCamelCase()
    ensures ToUnderscoredName("", "FooBar") == "foo_bar"
  {
  }

  lemma ExampleAcronym()
    ensures ToUnderscoredName("", "RPCTest") == "rpctest"
  {
  }

  lemma ExampleAllCaps()
    ensures ToUnderscoredName("", "HELLO") == "hello"
  {
  }
}
