/**
 * The output normaliser `refine` of the test runner: trim surrounding
 * whitespace, delete every carriage return, then replace each " \n" by "\n"
 * in one global left-to-right pass.
 */
module Normalizer {

  /** The characters ECMAScript's String.prototype.trim removes: the WhiteSpace
      and LineTerminator productions (tab, line feed, vertical tab, form feed,
      carriage return, space, no-break space, the Zs category, U+2028, U+2029
      and the byte order mark). */
  predicate IsSpace(c: char) {
    c == '\t' || c == '\n' || c == '\U{000B}' || c == '\U{000C}' || c == '\r' || c == ' '
    || c == '\U{00A0}' || c == '\U{1680}' || ('\U{2000}' <= c <= '\U{200A}')
    || c == '\U{2028}' || c == '\U{2029}' || c == '\U{202F}' || c == '\U{205F}'
    || c == '\U{3000}' || c == '\U{FEFF}'
  }

  predicate AllSpace(s: string) {
    forall k :: 0 <= k < |s| ==> IsSpace(s[k])
  }

  /** Removes the longest all-whitespace prefix. */
  function TrimStart(s: string): string {
    if s != [] && IsSpace(s[0]) then TrimStart(s[1..]) else s
  }

  /** Removes the longest all-whitespace suffix. */
  function TrimEnd(s: string): string {
    if s != [] && IsSpace(s[|s| - 1]) then TrimEnd(s[..|s| - 1]) else s
  }

  /** String.prototype.trim. */
  function Trim(s: string): string {
    TrimEnd(TrimStart(s))
  }

  /** Deletes every occurrence of `c`, keeping the other characters in order
      (`content.replace(/\r/g, "")` for c = '\r'). */
  function DeleteAll(s: string, c: char): string {
    if s == [] then []
    else if s[0] == c then DeleteAll(s[1..], c)
    else [s[0]] + DeleteAll(s[1..], c)
  }

  /** `content.replace(/ \n/g, "\n")`: scanning left to right, each
      non-overlapping " \n" becomes "\n" and scanning resumes after it. */
  function DropSpaceBeforeNewline(s: string): string {
    if |s| >= 2 && s[0] == ' ' && s[1] == '\n' then "\n" + DropSpaceBeforeNewline(s[2..])
    else if s == [] then []
    else [s[0]] + DropSpaceBeforeNewline(s[1..])
  }

  /** Reference reading of the same rule, one position at a time: a character
      survives unless it is a space immediately followed by a newline. */
  function KeepUnlessSpaceBeforeNewline(s: string): string {
    if s == [] then []
    else if |s| >= 2 && s[0] == ' ' && s[1] == '\n' then KeepUnlessSpaceBeforeNewline(s[1..])
    else [s[0]] + KeepUnlessSpaceBeforeNewline(s[1..])
  }

  /** `refine`: trim, delete carriage returns, drop a space before each newline. */
  function Refine(s: string): string {
    DropSpaceBeforeNewline(DeleteAll(Trim(s), '\r'))
  }

  // ---------------------------------------------------------------------------
  // What each step guarantees

  /** TrimStart removes a whitespace prefix, and exactly the longest one. */
  lemma {:induction false} TrimStartSpec(s: string)
    ensures var r := TrimStart(s);
      && |r| <= |s| && r == s[|s| - |r|..]
      && AllSpace(s[..|s| - |r|])
      && (r == [] || !IsSpace(r[0]))
  {
    if s != [] && IsSpace(s[0]) {
      TrimStartSpec(s[1..]);
      var r := TrimStart(s);
      assert s[..|s| - |r|] == [s[0]] + s[1..][..|s| - 1 - |r|];
    }
  }

  /** TrimEnd removes a whitespace suffix, and exactly the longest one. */
  lemma {:induction false} TrimEndSpec(s: string)
    ensures var r := TrimEnd(s);
      && |r| <= |s| && r == s[..|r|]
      && AllSpace(s[|r|..])
      && (r == [] || !IsSpace(r[|r| - 1]))
  {
    if s != [] && IsSpace(s[|s| - 1]) {
      var init := s[..|s| - 1];
      TrimEndSpec(init);
      var r := TrimEnd(s);
      assert s[|r|..] == init[|r|..] + [s[|s| - 1]];
    }
  }

  /** The trimmed text neither starts nor ends with whitespace, and it is
      empty exactly when the whole text is whitespace. */
  lemma TrimSpec(s: string)
    ensures var r := Trim(s);
      && (r == [] || (!IsSpace(r[0]) && !IsSpace(r[|r| - 1])))
      && (r == [] <==> AllSpace(s))
  {
    var t := TrimStart(s);
    TrimStartSpec(s);
    TrimEndSpec(t);
    var r := TrimEnd(t);
    if r != [] {
      assert r[0] == t[0];
      assert !AllSpace(s) by {
        assert s[|s| - |t|] == t[0];
      }
    } else if t == [] {
      assert s[..|s| - |t|] == s;
    }
  }

  /** DeleteAll leaves no occurrence of c, keeps every other character as
      often as it occurred, and keeps a first or last character other than c
      in place. */
  lemma {:induction false} DeleteAllSpec(s: string, c: char)
    ensures var r := DeleteAll(s, c);
      && c !in r
      && multiset(r) == multiset(s)[c := 0]
      && (s != [] && s[0] != c ==> r != [] && r[0] == s[0])
      && (s != [] && s[|s| - 1] != c ==> r != [] && r[|r| - 1] == s[|s| - 1])
  {
    DeleteAllCounts(s, c);
    if s != [] {
      DeleteAllSpec(s[1..], c);
      if |s| >= 2 {
        assert s[1..][|s[1..]| - 1] == s[|s| - 1];
      }
    }
  }

  lemma {:induction false} DeleteAllCounts(s: string, c: char)
    ensures multiset(DeleteAll(s, c)) == multiset(s)[c := 0]
  {
    if s != [] {
      DeleteAllCounts(s[1..], c);
      assert s == [s[0]] + s[1..];
    }
  }

  /** The refined text holds no carriage return and neither starts nor ends
      with whitespace. */
  lemma RefineSpec(s: string)
    ensures var r := Refine(s);
      && '\r' !in r
      && (r == [] || (!IsSpace(r[0]) && !IsSpace(r[|r| - 1])))
  {
    TrimSpec(s);
    var t := DeleteAll(Trim(s), '\r');
    DeleteAllSpec(Trim(s), '\r');
    DropKeepsEnds(t);
  }

  /** The pass never lengthens the text nor introduces a character, keeps the
      first character unless it is a space and the last unless it is a newline. */
  lemma {:induction false} DropKeepsEnds(s: string)
    ensures |DropSpaceBeforeNewline(s)| <= |s|
    ensures forall x :: x in DropSpaceBeforeNewline(s) ==> x in s
    ensures s != [] && s[0] != ' ' ==> DropSpaceBeforeNewline(s) != [] && DropSpaceBeforeNewline(s)[0] == s[0]
    ensures s != [] && s[|s| - 1] != '\n' ==>
              var r := DropSpaceBeforeNewline(s); r != [] && r[|r| - 1] == s[|s| - 1]
  {
    if |s| >= 2 && s[0] == ' ' && s[1] == '\n' {
      DropKeepsEnds(s[2..]);
    } else if s != [] {
      DropKeepsEnds(s[1..]);
    }
  }

  // ---------------------------------------------------------------------------
  // Carriage returns

  lemma {:induction false} DeleteAllConcat(a: string, b: string, c: char)
    ensures DeleteAll(a + b, c) == DeleteAll(a, c) + DeleteAll(b, c)
  {
    if a == [] {
      assert a + b == b;
    } else {
      assert (a + b)[0] == a[0];
      assert (a + b)[1..] == a[1..] + b;
      DeleteAllConcat(a[1..], b, c);
      if a[0] != c {
        assert [a[0]] + (DeleteAll(a[1..], c) + DeleteAll(b, c))
            == ([a[0]] + DeleteAll(a[1..], c)) + DeleteAll(b, c);
      }
    }
  }

  lemma {:induction false} DeleteAllIdempotent(s: string, c: char)
    ensures DeleteAll(DeleteAll(s, c), c) == DeleteAll(s, c)
  {
    if s != [] {
      DeleteAllIdempotent(s[1..], c);
    }
  }

  /** Deleting a whitespace character commutes with trimming the front. */
  lemma {:induction false} TrimStartDeleteAll(s: string, c: char)
    requires IsSpace(c)
    ensures TrimStart(DeleteAll(s, c)) == DeleteAll(TrimStart(s), c)
  {
    if s != [] {
      if IsSpace(s[0]) {
        TrimStartDeleteAll(s[1..], c);
      }
    }
  }

  /** Deleting a whitespace character commutes with trimming the back. */
  lemma {:induction false} TrimEndDeleteAll(s: string, c: char)
    requires IsSpace(c)
    ensures TrimEnd(DeleteAll(s, c)) == DeleteAll(TrimEnd(s), c)
  {
    if s != [] {
      var init, last := s[..|s| - 1], s[|s| - 1];
      assert s == init + [last];
      DeleteAllConcat(init, [last], c);
      if IsSpace(last) {
        TrimEndDeleteAll(init, c);
        if last == c {
          assert DeleteAll(s, c) == DeleteAll(init, c);
        } else {
          var d := DeleteAll(init, c);
          assert DeleteAll(s, c) == d + [last];
          assert (d + [last])[..|d + [last]| - 1] == d;
        }
      }
    }
  }

  /** `refine` ignores carriage returns: a CRLF file and its LF version
      normalise to the same text. */
  lemma RefineIgnoresCarriageReturns(s: string)
    ensures Refine(DeleteAll(s, '\r')) == Refine(s)
  {
    var d := DeleteAll(s, '\r');
    TrimStartDeleteAll(s, '\r');
    TrimEndDeleteAll(TrimStart(s), '\r');
    assert Trim(d) == DeleteAll(Trim(s), '\r');
    DeleteAllIdempotent(Trim(s), '\r');
  }

  // ---------------------------------------------------------------------------
  // The space-before-newline pass

  /** The regular-expression pass agrees with the per-position rule: exactly the
      spaces that stand immediately before a newline are removed. */
  lemma {:induction false} DropMatchesPerPositionRule(s: string)
    ensures DropSpaceBeforeNewline(s) == KeepUnlessSpaceBeforeNewline(s)
  {
    if |s| >= 2 && s[0] == ' ' && s[1] == '\n' {
      DropMatchesPerPositionRule(s[2..]);
      assert s[1..][1..] == s[2..];
    } else if s != [] {
      DropMatchesPerPositionRule(s[1..]);
    }
  }

  /** The pass works piecewise on text that does not split a " \n" in two. */
  lemma {:induction false} DropConcat(p: string, q: string)
    requires p == [] || q == [] || p[|p| - 1] != ' ' || q[0] != '\n'
    ensures DropSpaceBeforeNewline(p + q) == DropSpaceBeforeNewline(p) + DropSpaceBeforeNewline(q)
  {
    if |p| >= 2 && p[0] == ' ' && p[1] == '\n' {
      assert (p + q)[2..] == p[2..] + q;
      DropConcat(p[2..], q);
    } else if |p| == 1 {
      assert (p + q)[1..] == q;
    } else if p != [] {
      assert (p + q)[1..] == p[1..] + q;
      DropConcat(p[1..], q);
    } else {
      assert p + q == q;
    }
  }

  function Spaces(k: nat): (r: string)
    ensures |r| == k && forall j :: 0 <= j < k ==> r[j] == ' '
  {
    seq(k, _ => ' ')
  }

  /** A run of k >= 1 spaces right before a newline loses exactly one space. */
  lemma {:induction false} SpaceRunLosesOne(k: nat, t: string)
    requires k >= 1
    ensures DropSpaceBeforeNewline(Spaces(k) + "\n" + t) == Spaces(k - 1) + "\n" + DropSpaceBeforeNewline(t)
  {
    var s := Spaces(k) + "\n" + t;
    if k == 1 {
      assert s[2..] == t;
      assert Spaces(0) == [];
    } else {
      assert s[1] == ' ';
      assert s[1..] == Spaces(k - 1) + "\n" + t;
      SpaceRunLosesOne(k - 1, t);
      assert Spaces(k - 1) == [' '] + Spaces(k - 2);
    }
  }

  /** The same, for a maximal run of spaces inside any text. */
  lemma SpaceRunInContextLosesOne(p: string, k: nat, t: string)
    requires k >= 1
    requires p == [] || p[|p| - 1] != ' '
    ensures DropSpaceBeforeNewline(p + Spaces(k) + "\n" + t)
         == DropSpaceBeforeNewline(p) + Spaces(k - 1) + "\n" + DropSpaceBeforeNewline(t)
  {
    DropConcat(p, Spaces(k) + "\n" + t);
    assert p + Spaces(k) + "\n" + t == p + (Spaces(k) + "\n" + t);
    SpaceRunLosesOne(k, t);
  }

  lemma {:induction false} DeleteAllAbsent(s: string, c: char)
    requires c !in s
    ensures DeleteAll(s, c) == s
  {
    if s != [] {
      DeleteAllAbsent(s[1..], c);
    }
  }

  /** On text with no surrounding whitespace and no carriage return, `refine`
      is the space-before-newline pass alone. */
  lemma RefineOfTrimmedText(s: string)
    requires s != [] && !IsSpace(s[0]) && !IsSpace(s[|s| - 1])
    requires '\r' !in s
    ensures Refine(s) == DropSpaceBeforeNewline(s)
  {
    assert TrimStart(s) == s;
    assert TrimEnd(s) == s;
    DeleteAllAbsent(s, '\r');
  }

  /** Because only one space of a run goes per pass, `refine` is not idempotent. */
  lemma RefineNotIdempotent()
    ensures Refine("a  \nb") == "a \nb"
    ensures Refine("a \nb") == "a\nb"
    ensures Refine(Refine("a  \nb")) != Refine("a  \nb")
  {
    var twice, once := "a  \nb", "a \nb";
    assert twice == "a" + Spaces(2) + "\n" + "b";
    assert once == "a" + Spaces(1) + "\n" + "b";
    assert "a\nb" == "a" + Spaces(0) + "\n" + "b";
    RefineOfTrimmedText(twice);
    RefineOfTrimmedText(once);
    SpaceRunInContextLosesOne("a", 2, "b");
    SpaceRunInContextLosesOne("a", 1, "b");
    assert DropSpaceBeforeNewline("a") == "a";
    assert DropSpaceBeforeNewline("b") == "b";
  }

  // ---------------------------------------------------------------------------
  // Surrounding whitespace

  lemma {:induction false} TrimStartAppend(s: string, w: string)
    ensures TrimStart(s + w) == if TrimStart(s) == [] then TrimStart(w) else TrimStart(s) + w
  {
    if s != [] {
      assert (s + w)[1..] == s[1..] + w;
      if IsSpace(s[0]) {
        TrimStartAppend(s[1..], w);
      }
    } else {
      assert s + w == w;
    }
  }

  lemma {:induction false} TrimEndAppendSpace(s: string, w: string)
    requires AllSpace(w)
    ensures TrimEnd(s + w) == TrimEnd(s)
  {
    if w != [] {
      var w' := w[..|w| - 1];
      assert (s + w)[..|s + w| - 1] == s + w';
      TrimEndAppendSpace(s, w');
    } else {
      assert s + w == s;
    }
  }

  /** Trailing whitespace (blank lines, a final newline) never changes the
      refined text. */
  lemma RefineIgnoresTrailingWhitespace(s: string, w: string)
    requires AllSpace(w)
    ensures Refine(s + w) == Refine(s)
  {
    TrimStartAppend(s, w);
    if TrimStart(s) != [] {
      TrimEndAppendSpace(TrimStart(s), w);
    } else {
      TrimStartSpec(w);
    }
  }

  /** A trailing space before the final newline does not matter. */
  lemma TrailingSpaceScenario()
    ensures Refine("5 \n") == Refine("5\n")
  {
    assert AllSpace(" \n") && AllSpace("\n");
    RefineIgnoresTrailingWhitespace("5", " \n");
    RefineIgnoresTrailingWhitespace("5", "\n");
    assert "5" + " \n" == "5 \n";
    assert "5" + "\n" == "5\n";
  }

  /** CRLF line ends compare equal to LF line ends. */
  lemma CrlfScenario()
    ensures Refine("a\r\nb") == Refine("a\nb")
  {
    var crlf := "a\r\nb";
    assert crlf == "a" + "\r" + "\nb";
    DeleteAllConcat("a" + "\r", "\nb", '\r');
    DeleteAllConcat("a", "\r", '\r');
    DeleteAllAbsent("a", '\r');
    DeleteAllAbsent("\nb", '\r');
    assert DeleteAll("\r", '\r') == [];
    assert DeleteAll(crlf, '\r') == "a\nb";
    RefineIgnoresCarriageReturns(crlf);
  }
}
