/** Splitting and trimming text, over ASCII whitespace. */
module Texts {

  predicate Space(c: char) {
    c == ' ' || c == '\n' || c == '\t' || c == '\r' || c == '\U{0B}' || c == '\U{0C}'
  }

  ghost predicate Blank(s: string) {
    forall i :: 0 <= i < |s| ==> Space(s[i])
  }

  function TrimStart(s: string): string {
    if s != "" && Space(s[0]) then TrimStart(s[1..]) else s
  }

  function TrimEnd(s: string): string {
    if s != "" && Space(s[|s| - 1]) then TrimEnd(s[..|s| - 1]) else s
  }

  function Trim(s: string): string {
    TrimEnd(TrimStart(s))
  }

  /** The text up to the first `c`, or all of it. */
  function Before(s: string, c: char): (t: string)
    ensures t <= s && c !in t
    ensures c !in s ==> t == s
    ensures c in s ==> |t| < |s| && s[|t|] == c
  {
    if s == "" || s[0] == c then "" else [s[0]] + Before(s[1..], c)
  }

  function SplitOn(s: string, c: char): (parts: seq<string>)
    ensures parts != []
  {
    if c in s then [Before(s, c)] + SplitOn(s[|Before(s, c)| + 1..], c) else [s]
  }

  /** The lines of a text; a final line break ends the last line. */
  function Lines(s: string): seq<string> {
    if s == "" then []
    else if '\n' in s then [Before(s, '\n')] + Lines(s[|Before(s, '\n')| + 1..])
    else [s]
  }

  function Unlines(lines: seq<string>): string {
    if lines == [] then "" else lines[0] + "\n" + Unlines(lines[1..])
  }

  lemma {:induction false} BeforeAt(a: string, c: char, b: string)
    requires c !in a
    ensures Before(a + [c] + b, c) == a
  {
    if a != "" {
      assert (a + [c] + b)[1..] == a[1..] + [c] + b;
      BeforeAt(a[1..], c, b);
    }
  }

  lemma {:induction false} LinesOfUnlines(lines: seq<string>)
    requires forall i :: 0 <= i < |lines| ==> '\n' !in lines[i]
    ensures Lines(Unlines(lines)) == lines
  {
    if lines != [] {
      var rest := Unlines(lines[1..]);
      LinesOfUnlines(lines[1..]);
      assert Unlines(lines) == lines[0] + ['\n'] + rest;
      BeforeAt(lines[0], '\n', rest);
      assert (lines[0] + ['\n'] + rest)[|lines[0]| + 1..] == rest;
      assert (lines[0] + ['\n'] + rest)[|lines[0]|] == '\n';
    }
  }

  lemma SplitAt(t: string, c: char, rest: string)
    requires c !in t
    ensures SplitOn(t + [c] + rest, c) == [t] + SplitOn(rest, c)
  {
    hide Before;
    var s := t + [c] + rest;
    assert s[|t|] == c && s[|t| + 1..] == rest;
    BeforeAt(t, c, rest);
  }

  lemma {:induction false} SplitBoth(a: string, c: char, b: string)
    ensures SplitOn(a + [c] + b, c) == SplitOn(a, c) + SplitOn(b, c)
  {
    hide Before, SplitOn;
    if c in a {
      var t := Before(a, c);
      var rest := a[|t| + 1..];
      assert a == t + [c] + rest;
      assert a + [c] + b == t + [c] + (rest + [c] + b);
      SplitAt(t, c, rest);
      SplitAt(t, c, rest + [c] + b);
      SplitBoth(rest, c, b);
      assert [t] + (SplitOn(rest, c) + SplitOn(b, c)) == [t] + SplitOn(rest, c) + SplitOn(b, c);
    } else {
      SplitAt(a, c, b);
      SplitNone(a, c);
    }
  }

  lemma SplitNone(s: string, c: char)
    requires c !in s
    ensures SplitOn(s, c) == [s]
  {
  }

  // ----- Trimming

  lemma {:induction false} TrimStartBlank(pad: string, s: string)
    requires Blank(pad)
    ensures TrimStart(pad + s) == TrimStart(s)
  {
    if pad == "" {
      assert pad + s == s;
    } else {
      assert (pad + s)[1..] == pad[1..] + s;
      TrimStartBlank(pad[1..], s);
    }
  }

  lemma {:induction false} TrimEndBlank(s: string, pad: string)
    requires Blank(pad)
    ensures TrimEnd(s + pad) == TrimEnd(s)
  {
    if pad == "" {
      assert s + pad == s;
    } else {
      assert (s + pad)[..|s + pad| - 1] == s + pad[..|pad| - 1];
      TrimEndBlank(s, pad[..|pad| - 1]);
    }
  }

  /** What trimming takes from the end is blank. */
  lemma {:induction false} TrimEndSplits(s: string)
    ensures TrimEnd(s) <= s && Blank(s[|TrimEnd(s)|..])
  {
    if s != "" && Space(s[|s| - 1]) {
      TrimEndSplits(s[..|s| - 1]);
    }
  }

  lemma {:induction false} TrimStartSplits(s: string)
    ensures |TrimStart(s)| <= |s|
    ensures var n := |s| - |TrimStart(s)|; s[n..] == TrimStart(s) && Blank(s[..n])
  {
    if s != "" && Space(s[0]) {
      TrimStartSplits(s[1..]);
      var n := |s| - |TrimStart(s)|;
      assert s[n..] == s[1..][n - 1..] && s[..n] == [s[0]] + s[1..][..n - 1];
    }
  }

  /** Trimming the end stops at a character that is not blank. */
  lemma {:induction false} TrimEndStops(s: string, rest: string)
    requires s != "" && !Space(s[|s| - 1])
    ensures TrimEnd(s + rest) == s + TrimEnd(rest)
  {
    if rest == "" {
      assert s + rest == s;
    } else if Space(rest[|rest| - 1]) {
      assert (s + rest)[..|s + rest| - 1] == s + rest[..|rest| - 1];
      TrimEndStops(s, rest[..|rest| - 1]);
    }
  }

  /** Space is the blank and the control characters from tab to carriage return. */
  lemma SpaceIsAscii(c: char)
    ensures Space(c) <==> c as int == 32 || 9 <= c as int <= 13
  {
  }

  /** Trimming takes all the space around a text and nothing else. */
  lemma TrimTakesTheSpace(before: string, s: string, after: string)
    requires Blank(before) && Blank(after) && (s == "" || (!Space(s[0]) && !Space(s[|s| - 1])))
    ensures Trim(before + s + after) == s
  {
    assert before + s + after == before + (s + after);
    TrimStartBlank(before, s + after);
    if s == "" {
      assert s + after == after + "";
      TrimStartBlank(after, "");
    } else {
      assert (s + after)[0] == s[0];
      TrimEndBlank(s, after);
    }
  }
}
