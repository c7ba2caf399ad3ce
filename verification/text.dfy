/** The string primitives the COLMAP tools lean on, with Python's meaning:
    `str.split()` with no argument, `str.strip()`, `" ".join(...)`,
    `str.lower()`, `startswith`, `endswith` and the `in` substring test.
    Whitespace and case are ASCII-only. */
module Text {

  /** Python's `str.isspace` on ASCII: space, the controls \t \n \v \f \r,
      and the four separators \x1c..\x1f, which `str.split()` also breaks on. */
  predicate IsSpace(c: char) {
    c == ' ' || (9 <= c as int <= 13) || (28 <= c as int <= 31)
  }

  /** A non-empty run of non-whitespace characters: what `split()` yields. */
  predicate IsToken(s: string) {
    |s| > 0 && forall i :: 0 <= i < |s| ==> !IsSpace(s[i])
  }

  type Token = s: string | IsToken(s) witness "0"

  lemma SingleCharToken(c: char)
    requires !IsSpace(c)
    ensures IsToken([c])
  {
  }

  predicate AllSpace(s: string) {
    forall i :: 0 <= i < |s| ==> IsSpace(s[i])
  }

  /** `s` with its leading whitespace removed. */
  function TrimStart(s: string): (r: string)
    ensures |r| <= |s|
    ensures r == [] || !IsSpace(r[0])
  {
    if s == [] || !IsSpace(s[0]) then s else TrimStart(s[1..])
  }

  /** `TrimStart` removes exactly the leading whitespace. */
  lemma TrimStartSpec(s: string)
    ensures TrimStart(s) == s[|s| - |TrimStart(s)|..]
    ensures AllSpace(s[..|s| - |TrimStart(s)|])
  {
    if s != [] && IsSpace(s[0]) {
      TrimStartSpec(s[1..]);
      assert s[..|s| - |TrimStart(s)|] == [s[0]] + s[1..][..|s[1..]| - |TrimStart(s[1..])|];
    }
  }

  lemma TrimStartNoSpace(s: string)
    requires s == [] || !IsSpace(s[0])
    ensures TrimStart(s) == s
  {
  }

  lemma TrimStartIdem(s: string)
    ensures TrimStart(TrimStart(s)) == TrimStart(s)
  {
  }

  /** `s` with its trailing whitespace removed. */
  function TrimEnd(s: string): (r: string)
    ensures |r| <= |s|
    ensures r == [] || !IsSpace(r[|r| - 1])
    ensures s != [] && !IsSpace(s[0]) ==> r != [] && r[0] == s[0]
  {
    if s == [] || !IsSpace(s[|s| - 1]) then s else TrimEnd(s[..|s| - 1])
  }

  /** `TrimEnd` removes exactly the trailing whitespace. */
  lemma TrimEndSpec(s: string)
    ensures TrimEnd(s) == s[..|TrimEnd(s)|]
    ensures AllSpace(s[|TrimEnd(s)|..])
  {
    if s != [] && IsSpace(s[|s| - 1]) {
      var t := s[..|s| - 1];
      TrimEndSpec(t);
      assert s[|TrimEnd(s)|..] == t[|TrimEnd(t)|..] + [s[|s| - 1]];
    }
  }

  lemma TrimEndNoSpace(s: string)
    requires s == [] || !IsSpace(s[|s| - 1])
    ensures TrimEnd(s) == s
  {
  }

  /** Python's `s.strip()`. */
  function Strip(s: string): string
  {
    TrimEnd(TrimStart(s))
  }

  /** The stripped string is empty exactly for all-whitespace input, and
      otherwise begins and ends with non-whitespace. */
  lemma StripSpec(s: string)
    ensures Strip(s) == [] <==> AllSpace(s)
    ensures Strip(s) != [] ==> !IsSpace(Strip(s)[0]) && !IsSpace(Strip(s)[|Strip(s)| - 1])
  {
    var t := TrimStart(s);
    TrimStartSpec(s);
    if t != [] {
      assert !IsSpace(s[|s| - |t|]);
    } else {
      assert s[..|s|] == s;
    }
  }

  /** Stripping twice is stripping once. */
  lemma StripIdem(s: string)
    ensures Strip(Strip(s)) == Strip(s)
  {
    StripSpec(s);
    var r := Strip(s);
    if r != [] {
      TrimStartNoSpace(r);
      TrimEndNoSpace(r);
    }
  }

  /** The longest whitespace-free prefix of `s`. */
  function Word(s: string): (r: string)
    ensures |r| <= |s|
    ensures s != [] && !IsSpace(s[0]) ==> r != []
  {
    if s == [] || IsSpace(s[0]) then [] else [s[0]] + Word(s[1..])
  }

  lemma WordSpec(s: string)
    ensures Word(s) == s[..|Word(s)|]
    ensures |Word(s)| == |s| || IsSpace(s[|Word(s)|])
    ensures forall i :: 0 <= i < |Word(s)| ==> !IsSpace(Word(s)[i])
  {
    if s != [] && !IsSpace(s[0]) {
      WordSpec(s[1..]);
    }
  }

  /** Python's `s.split()`: the maximal runs of non-whitespace, in order. */
  function Split(s: string): seq<string>
    decreases |s|
  {
    var t := TrimStart(s);
    if t == [] then []
    else
      var w := Word(t);
      [w] + Split(t[|w|..])
  }

  /** Every piece `Split` yields is a token. */
  lemma {:induction false} SplitTokens(s: string)
    ensures forall i :: 0 <= i < |Split(s)| ==> IsToken(Split(s)[i])
    decreases |s|
  {
    var t := TrimStart(s);
    if t != [] {
      var w := Word(t);
      WordSpec(t);
      SplitTokens(t[|w|..]);
    }
  }

  /** A line splits into no tokens exactly when it is all whitespace. */
  lemma SplitEmptyIff(s: string)
    ensures Split(s) == [] <==> AllSpace(s)
  {
    var t := TrimStart(s);
    TrimStartSpec(s);
    if t == [] {
      assert s[..|s|] == s;
    } else {
      assert !IsSpace(s[|s| - |t|]);
    }
  }

  lemma SplitLeadingSpace(c: char, s: string)
    requires IsSpace(c)
    ensures Split([c] + s) == Split(s)
  {
    assert ([c] + s)[1..] == s;
    assert TrimStart([c] + s) == TrimStart(s);
  }

  lemma {:induction false} TrimStartAppend(s: string, w: string)
    requires TrimStart(s) != []
    ensures TrimStart(s + w) == TrimStart(s) + w
    decreases |s|
  {
    if IsSpace(s[0]) {
      assert (s + w)[1..] == s[1..] + w;
      TrimStartAppend(s[1..], w);
    }
  }

  lemma {:induction false} WordAppendSpace(t: string, w: string)
    requires AllSpace(w)
    ensures Word(t + w) == Word(t)
    decreases |t|
  {
    if t == [] {
      assert t + w == w;
    } else if !IsSpace(t[0]) {
      assert (t + w)[1..] == t[1..] + w;
      WordAppendSpace(t[1..], w);
    }
  }

  /** Trailing whitespace never changes how a line splits. */
  lemma {:induction false} SplitTrailingSpace(s: string, w: string)
    requires AllSpace(w)
    ensures Split(s + w) == Split(s)
    decreases |s|
  {
    var t := TrimStart(s);
    if t == [] {
      SplitEmptyIff(s);
      SplitEmptyIff(s + w);
      assert forall i :: 0 <= i < |s + w| ==> IsSpace((s + w)[i]) by {
        forall i | 0 <= i < |s + w|
          ensures IsSpace((s + w)[i])
        {
          if i >= |s| {
            assert (s + w)[i] == w[i - |s|];
          }
        }
      }
    } else {
      TrimStartAppend(s, w);
      TrimStartSpec(s);
      WordAppendSpace(t, w);
      var n := |Word(t)|;
      assert (t + w)[n..] == t[n..] + w;
      SplitTrailingSpace(t[n..], w);
    }
  }

  /** Splitting the stripped line gives the same tokens as splitting the line. */
  lemma SplitStrip(s: string)
    ensures Split(Strip(s)) == Split(s)
  {
    var t := TrimStart(s);
    TrimStartIdem(s);
    assert Split(t) == Split(s);
    TrimEndSpec(t);
    var e := TrimEnd(t);
    assert t == e + t[|e|..];
    SplitTrailingSpace(e, t[|e|..]);
  }

  /** The first token of a line that starts with non-whitespace starts with
      the line's first character. */
  lemma SplitFirstChar(s: string)
    requires s != [] && !IsSpace(s[0])
    ensures Split(s) != [] && Split(s)[0] != [] && Split(s)[0][0] == s[0]
  {
    TrimStartNoSpace(s);
  }

  /** Python's `" ".join(parts)`. */
  function Join(parts: seq<string>): string
  {
    if parts == [] then []
    else if |parts| == 1 then parts[0]
    else parts[0] + " " + Join(parts[1..])
  }

  /** A joined non-empty list of tokens starts with its first token. */
  lemma JoinHead(ts: seq<string>)
    requires ts != []
    ensures |Join(ts)| >= |ts[0]| && Join(ts)[..|ts[0]|] == ts[0]
  {
  }

  lemma JoinNoEdgeSpace(ts: seq<string>)
    requires forall i :: 0 <= i < |ts| ==> IsToken(ts[i])
    ensures Join(ts) == [] <==> ts == []
    ensures Join(ts) != [] ==> !IsSpace(Join(ts)[0]) && !IsSpace(Join(ts)[|Join(ts)| - 1])
  {
    if |ts| > 1 {
      JoinNoEdgeSpace(ts[1..]);
    }
  }

  /** Stripping a joined token list changes nothing. */
  lemma StripJoin(ts: seq<string>)
    requires forall i :: 0 <= i < |ts| ==> IsToken(ts[i])
    ensures Strip(Join(ts)) == Join(ts)
  {
    JoinNoEdgeSpace(ts);
    TrimStartNoSpace(Join(ts));
    TrimEndNoSpace(Join(ts));
  }

  lemma WordOfToken(t: string, rest: string)
    requires IsToken(t)
    requires rest == [] || IsSpace(rest[0])
    ensures Word(t + rest) == t
    decreases |t|
  {
    if |t| > 1 {
      assert (t + rest)[1..] == t[1..] + rest;
      WordOfToken(t[1..], rest);
    }
  }

  /** A token followed by whitespace or nothing splits off as one piece. */
  lemma SplitCons(t: string, rest: string)
    requires IsToken(t)
    requires rest == [] || IsSpace(rest[0])
    ensures Split(t + rest) == [t] + Split(rest)
  {
    TrimStartNoSpace(t + rest);
    WordOfToken(t, rest);
    assert (t + rest)[|t|..] == rest;
    if rest != [] {
      SplitLeadingSpace(rest[0], rest[1..]);
      assert rest == [rest[0]] + rest[1..];
    }
  }

  /** Splitting undoes joining with single spaces, for whitespace-free
      non-empty tokens. */
  lemma {:induction false} SplitJoin(ts: seq<string>)
    requires forall i :: 0 <= i < |ts| ==> IsToken(ts[i])
    ensures Split(Join(ts)) == ts
    decreases |ts|
  {
    if ts == [] {
    } else if |ts| == 1 {
      SplitCons(ts[0], []);
      assert ts[0] + [] == ts[0];
    } else {
      SplitJoin(ts[1..]);
      SplitJoinCons(ts[0], ts[1..]);
      assert ts == [ts[0]] + ts[1..];
    }
  }

  lemma SplitJoinCons(t: string, ts: seq<string>)
    requires IsToken(t) && ts != []
    requires Split(Join(ts)) == ts
    ensures Split(Join([t] + ts)) == [t] + ts
  {
    var tail := Join(ts);
    var rest: string := " " + tail;
    assert ([t] + ts)[1..] == ts;
    assert Join([t] + ts) == t + rest;
    SplitCons(t, rest);
    SplitLeadingSpace(' ', tail);
  }

  /** A line of single-space-joined tokens is its own stripped form, splits
      back into those tokens, and begins with the first token's first
      character. */
  lemma JoinedTokens(ts: seq<string>)
    requires ts != [] && forall i :: 0 <= i < |ts| ==> IsToken(ts[i])
    ensures IsToken(ts[0]) && Join(ts) != [] && Join(ts)[0] == ts[0][0]
    ensures Strip(Join(ts)) == Join(ts)
    ensures Split(Join(ts)) == ts
  {
    SplitJoin(ts);
    StripJoin(ts);
    JoinHead(ts);
  }

  /** What stripping a line leaves for the tests that follow it: the same
      tokens, emptiness exactly when there are no tokens, and otherwise the
      first token's first character in front. */
  lemma StrippedLine(line: string)
    ensures Split(Strip(line)) == Split(line)
    ensures Strip(line) == [] <==> Split(line) == []
    ensures Strip(line) != [] ==> Split(line)[0] != [] && Strip(line)[0] == Split(line)[0][0]
    ensures forall i :: 0 <= i < |Split(line)| ==> IsToken(Split(line)[i])
  {
    StripSpec(line);
    SplitStrip(line);
    SplitEmptyIff(line);
    SplitTokens(line);
    if Strip(line) != [] {
      SplitFirstChar(Strip(line));
    }
  }

  /** Python's `str.lower()` on one ASCII character. */
  function LowerChar(c: char): char {
    if 'A' <= c <= 'Z' then (c as int + 32) as char else c
  }

  /** Python's `str.lower()`, ASCII-only. */
  function Lower(s: string): (r: string)
    ensures |r| == |s|
    ensures forall i :: 0 <= i < |s| ==> r[i] == LowerChar(s[i])
  {
    if s == [] then [] else [LowerChar(s[0])] + Lower(s[1..])
  }

  predicate StartsWith(s: string, prefix: string) {
    |prefix| <= |s| && s[..|prefix|] == prefix
  }

  /** A one-character prefix is a test of the first character. */
  lemma StartsWithChar(s: string, c: char)
    ensures StartsWith(s, [c]) <==> s != [] && s[0] == c
  {
    if s != [] {
      assert s[..1][0] == s[0];
    }
  }

  predicate EndsWith(s: string, suffix: string) {
    |suffix| <= |s| && s[|s| - |suffix|..] == suffix
  }

  /** Python's `pattern in s` for strings. */
  predicate Contains(s: string, pattern: string)
    decreases |s|
  {
    StartsWith(s, pattern) || (s != [] && Contains(s[1..], pattern))
  }

  predicate OccursAt(s: string, pattern: string, k: int) {
    0 <= k && k + |pattern| <= |s| && s[k..k + |pattern|] == pattern
  }

  /** `Contains` means that the pattern occurs at some offset. */
  lemma {:induction false} ContainsIff(s: string, pattern: string)
    ensures Contains(s, pattern) <==> exists k :: OccursAt(s, pattern, k)
    decreases |s|
  {
    if s != [] {
      ContainsIff(s[1..], pattern);
      if Contains(s[1..], pattern) {
        var k :| OccursAt(s[1..], pattern, k);
        assert OccursAt(s, pattern, k + 1);
      }
      if StartsWith(s, pattern) {
        assert OccursAt(s, pattern, 0);
      }
      if exists k :: OccursAt(s, pattern, k) {
        var k :| OccursAt(s, pattern, k);
        if k > 0 {
          assert OccursAt(s[1..], pattern, k - 1);
        }
      }
    } else {
      if StartsWith(s, pattern) {
        assert OccursAt(s, pattern, 0);
      }
      if exists k :: OccursAt(s, pattern, k) {
        var k :| OccursAt(s, pattern, k);
        assert StartsWith(s, pattern);
      }
    }
  }

  /** A pattern with a character the string lacks does not occur in it. */
  lemma MissingCharNotContained(s: string, pattern: string, j: int)
    requires 0 <= j < |pattern| && pattern[j] !in s
    ensures !Contains(s, pattern)
  {
    ContainsIff(s, pattern);
    forall k
      ensures !OccursAt(s, pattern, k)
    {
      if 0 <= k && k + |pattern| <= |s| {
        assert s[k..k + |pattern|][j] == s[k + j];
        assert s[k + j] in s;
      }
    }
  }
}
