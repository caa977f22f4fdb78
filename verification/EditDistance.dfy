/**
 * Levenshtein distance (crates/rlmesh-adapters/src/fmt.rs, `edit_distance`): the
 * one-row loop, the recursive distance, and the cheapest edit script.
 */
module EditDistance {
  import opened Wrappers

  function Min(x: nat, y: nat): nat {
    if x < y then x else y
  }

  function Differ(x: char, y: char): nat {
    if x == y then 0 else 1
  }

  function Front(s: string): string
    requires s != ""
  {
    s[..|s| - 1]
  }

  function Back(s: string): char
    requires s != ""
  {
    s[|s| - 1]
  }

  /** The distance by its textbook recursion. */
  function Lev(a: string, b: string): nat
    decreases |a| + |b|
  {
    if a == "" then |b|
    else if b == "" then |a|
    else Min(Min(Lev(Front(a), b) + 1, Lev(a, Front(b)) + 1), Lev(Front(a), Front(b)) + Differ(Back(a), Back(b)))
  }

  lemma LevEdge(a: string, b: string)
    ensures Lev("", b) == |b| && Lev(a, "") == |a|
  {
  }

  lemma {:induction false} LevUnfold(a: string, b: string)
    requires a != "" && b != ""
    ensures Lev(a, b) == Min(Min(Lev(Front(a), b) + 1, Lev(a, Front(b)) + 1), Lev(Front(a), Front(b)) + Differ(Back(a), Back(b)))
  {
    hide Min, Differ, Front, Back;
  }

  /** The recursion at the (i + 1, j + 1) prefixes. */
  lemma {:induction false} LevStep(a: string, b: string, i: nat, j: nat)
    requires i < |a| && j < |b|
    ensures Lev(a[..i + 1], b[..j + 1])
            == Min(Min(Lev(a[..i], b[..j + 1]) + 1, Lev(a[..i + 1], b[..j]) + 1), Lev(a[..i], b[..j]) + Differ(a[i], b[j]))
  {
    hide Lev;
    var (p, q) := (a[..i + 1], b[..j + 1]);
    LevUnfold(p, q);
    assert Front(p) == a[..i] && Front(q) == b[..j];
    assert Back(p) == a[i] && Back(q) == b[j];
  }

  /** The single-row loop of the source. */
  method EditDistance(a: string, b: string) returns (distance: nat)
    ensures distance == Lev(a, b)
  {
    hide Lev, Min, Differ;
    var row := new nat[|b| + 1](j => j);
    forall j | 0 <= j <= |b| ensures Lev(a[..0], b[..j]) == j {
      LevEdge("", b[..j]);
    }
    for i := 0 to |a|
      invariant forall j :: 0 <= j <= |b| ==> row[j] == Lev(a[..i], b[..j])
    {
      var diagonal := row[0];
      row[0] := i + 1;
      LevEdge(a[..i + 1], "");
      for j := 0 to |b|
        invariant diagonal == Lev(a[..i], b[..j])
        invariant forall k :: 0 <= k <= j ==> row[k] == Lev(a[..i + 1], b[..k])
        invariant forall k :: j < k <= |b| ==> row[k] == Lev(a[..i], b[..k])
      {
        var above := row[j + 1];
        row[j + 1] := Min(Min(above + 1, row[j] + 1), diagonal + Differ(a[i], b[j]));
        LevStep(a, b, i, j);
        diagonal := above;
      }
    }
    assert a[..|a|] == a && b[..|b|] == b;
    return row[|b|];
  }

  /** One edit of a script, read left to right. */
  datatype Edit = Keep(c: char) | Replace(c: char, d: char) | Insert(d: char) | Delete(c: char)

  type Script = seq<Edit>

  function Reads(e: Edit): string {
    if e.Insert? then "" else [e.c]
  }

  function Writes(e: Edit): string {
    if e.Delete? then "" else if e.Keep? then [e.c] else [e.d]
  }

  /** What the script reads. */
  function Source(s: Script): string {
    if s == [] then "" else Source(s[..|s| - 1]) + Reads(s[|s| - 1])
  }

  /** What the script writes. */
  function Target(s: Script): string {
    if s == [] then "" else Target(s[..|s| - 1]) + Writes(s[|s| - 1])
  }

  function Cost(s: Script): nat {
    if s == [] then 0 else Cost(s[..|s| - 1]) + if s[|s| - 1].Keep? then 0 else 1
  }

  /** What a script with one more edit reads, writes and costs. */
  lemma Append(s: Script, e: Edit)
    ensures Source(s + [e]) == Source(s) + Reads(e)
    ensures Target(s + [e]) == Target(s) + Writes(e)
    ensures Cost(s + [e]) == Cost(s) + if e.Keep? then 0 else 1
  {
    assert (s + [e])[..|s|] == s;
  }

  /** No script is cheaper than the distance. */
  lemma {:induction false} LevIsLeast(s: Script)
    ensures Lev(Source(s), Target(s)) <= Cost(s)
  {
    hide Lev;
    if s == [] {
      LevEdge("", "");
    } else {
      var before := s[..|s| - 1];
      LevIsLeast(before);
      EditStep(Source(before), Target(before), s[|s| - 1]);
    }
  }

  /** One edit changes the distance by at most its own cost. */
  lemma EditStep(a: string, b: string, e: Edit)
    ensures Lev(a + Reads(e), b + Writes(e)) <= Lev(a, b) + if e.Keep? then 0 else 1
  {
    hide Lev;
    assert a + "" == a && b + "" == b;
    match e
    case Keep(c) => StepBoth(a, b, c, c);
    case Replace(c, d) => StepBoth(a, b, c, d);
    case Insert(d) => StepRight(a, b, d);
    case Delete(c) => StepLeft(a, b, c);
  }

  lemma {:induction false} StepBoth(a: string, b: string, c: char, d: char)
    ensures Lev(a + [c], b + [d]) <= Lev(a, b) + Differ(c, d)
  {
    assert Front(a + [c]) == a && Front(b + [d]) == b;
  }

  lemma {:induction false} StepRight(a: string, b: string, d: char)
    ensures Lev(a, b + [d]) <= Lev(a, b) + 1
  {
    assert Front(b + [d]) == b;
  }

  lemma {:induction false} StepLeft(a: string, b: string, c: char)
    ensures Lev(a + [c], b) <= Lev(a, b) + 1
  {
    assert Front(a + [c]) == a;
  }

  ghost predicate Turns(s: Script, a: string, b: string) {
    Source(s) == a && Target(s) == b
  }

  lemma {:induction false} LevCases(a: string, b: string)
    ensures a == "" && b != "" ==> Lev(a, b) == Lev(a, Front(b)) + 1
    ensures b == "" && a != "" ==> Lev(a, b) == Lev(Front(a), b) + 1
    ensures a != "" && b != "" ==>
              || Lev(a, b) == Lev(a, Front(b)) + 1
              || Lev(a, b) == Lev(Front(a), b) + 1
              || Lev(a, b) == Lev(Front(a), Front(b)) + Differ(Back(a), Back(b))
  {
  }

  lemma FrontBack(s: string)
    requires s != ""
    ensures Front(s) + [Back(s)] == s
  {
  }

  /** Some script is exactly as cheap as the distance. */
  lemma {:induction false} LevIsReached(a: string, b: string) returns (s: Script)
    ensures Turns(s, a, b) && Cost(s) == Lev(a, b)
    decreases |a| + |b|
  {
    hide Lev, Source, Target, Cost;
    LevCases(a, b);
    if a == "" && b == "" {
      s := [];
      EmptyScript();
    } else if a == "" || (b != "" && Lev(a, b) == Lev(a, Front(b)) + 1) {
      s := LevIsReached(a, Front(b));
      Append(s, Insert(Back(b)));
      s := s + [Insert(Back(b))];
      FrontBack(b);
    } else if b == "" || Lev(a, b) == Lev(Front(a), b) + 1 {
      s := LevIsReached(Front(a), b);
      Append(s, Delete(Back(a)));
      s := s + [Delete(Back(a))];
      FrontBack(a);
    } else {
      s := LevIsReached(Front(a), Front(b));
      var e := if Back(a) == Back(b) then Keep(Back(a)) else Replace(Back(a), Back(b));
      Append(s, e);
      s := s + [e];
      FrontBack(a);
      FrontBack(b);
    }
  }

  lemma EmptyScript()
    ensures Turns([], "", "") && Cost([]) == 0 && Lev("", "") == 0
  {
  }

  /** The distance is the cost of the cheapest script between the two strings. */
  lemma LevIsCheapestScript(a: string, b: string)
    ensures exists s :: Turns(s, a, b) && Cost(s) == Lev(a, b)
    ensures forall s :: Turns(s, a, b) ==> Lev(a, b) <= Cost(s)
  {
    var s := LevIsReached(a, b);
    forall s | Turns(s, a, b) ensures Lev(a, b) <= Cost(s) {
      LevIsLeast(s);
    }
  }

  lemma {:induction false} LevSymmetric(a: string, b: string)
    ensures Lev(a, b) == Lev(b, a)
    decreases |a| + |b|
  {
    if a != "" && b != "" {
      LevSymmetric(Front(a), b);
      LevSymmetric(a, Front(b));
      LevSymmetric(Front(a), Front(b));
    }
  }

  lemma {:induction false} LevZeroIffEqual(a: string, b: string)
    ensures Lev(a, b) == 0 <==> a == b
    decreases |a| + |b|
  {
    if a != "" && b != "" {
      LevZeroIffEqual(Front(a), Front(b));
      FrontBack(a);
      FrontBack(b);
    }
  }

  /** A non-empty script is its front and its last edit. */
  lemma LastEdit(s: Script)
    requires s != []
    ensures Source(s) == Source(s[..|s| - 1]) + Reads(s[|s| - 1])
    ensures Target(s) == Target(s[..|s| - 1]) + Writes(s[|s| - 1])
    ensures Cost(s) == Cost(s[..|s| - 1]) + if s[|s| - 1].Keep? then 0 else 1
  {
  }

  /** Run one script after another, dropping what the first writes and the second deletes. */
  lemma {:induction false} Compose(s: Script, t: Script) returns (u: Script)
    requires Target(s) == Source(t)
    ensures Turns(u, Source(s), Target(t)) && Cost(u) <= Cost(s) + Cost(t)
    decreases |s| + |t|
  {
    hide Source, Target, Cost;
    EmptyScript();
    if s != [] { LastEdit(s); }
    if t != [] { LastEdit(t); }
    if s != [] && s[|s| - 1].Delete? {
      assert Target(s) == Target(s[..|s| - 1]);
      u := Compose(s[..|s| - 1], t);
      Append(u, s[|s| - 1]);
      u := u + [s[|s| - 1]];
    } else if t != [] && t[|t| - 1].Insert? {
      assert Source(t) == Source(t[..|t| - 1]);
      u := Compose(s, t[..|t| - 1]);
      Append(u, t[|t| - 1]);
      u := u + [t[|t| - 1]];
    } else if s == [] || t == [] {
      u := [];
    } else {
      u := ComposeLast(s, t);
    }
  }

  /** The case where both scripts end at the same character of the middle string. */
  lemma {:induction false} ComposeLast(s: Script, t: Script) returns (u: Script)
    requires Target(s) == Source(t) && s != [] && t != []
    requires !s[|s| - 1].Delete? && !t[|t| - 1].Insert?
    ensures Turns(u, Source(s), Target(t)) && Cost(u) <= Cost(s) + Cost(t)
    decreases |s| + |t|, 0
  {
    hide Source, Target, Cost;
    var e, f := s[|s| - 1], t[|t| - 1];
    LastEdit(s);
    LastEdit(t);
    LastChar(s, t);
    u := Compose(s[..|s| - 1], t[..|t| - 1]);
    JoinedIsBoth(e, f);
    if Joined(e, f).Some? {
      Append(u, Joined(e, f).value);
      u := u + [Joined(e, f).value];
    }
  }

  /** Two edits that meet at one character, as one edit or none. */
  function Joined(e: Edit, f: Edit): Option<Edit> {
    match (e, f)
    case (Keep(_), _) => Some(f)
    case (_, Keep(_)) => Some(e)
    case (Replace(c, _), Replace(_, d)) => Some(if c == d then Keep(c) else Replace(c, d))
    case (Replace(c, _), Delete(_)) => Some(Delete(c))
    case (Insert(_), Replace(_, d)) => Some(Insert(d))
    case _ => None
  }

  lemma JoinedIsBoth(e: Edit, f: Edit)
    requires !e.Delete? && !f.Insert? && Writes(e) == Reads(f)
    ensures var j := Joined(e, f);
            if j.None? then Reads(e) == "" && Writes(f) == ""
            else
              && Reads(j.value) == Reads(e) && Writes(j.value) == Writes(f)
              && (if j.value.Keep? then 0 else 1) <= (if e.Keep? then 0 else 1) + (if f.Keep? then 0 else 1)
  {
    assert Writes(e)[0] == Reads(f)[0];
  }

  /** The character the first script wrote last is the one the second reads last. */
  lemma LastChar(s: Script, t: Script)
    requires s != [] && t != [] && !s[|s| - 1].Delete? && !t[|t| - 1].Insert? && Target(s) == Source(t)
    ensures Target(s[..|s| - 1]) == Source(t[..|t| - 1])
    ensures Writes(s[|s| - 1]) == Reads(t[|t| - 1])
  {
    hide Source, Target, Cost;
    LastEdit(s);
    LastEdit(t);
    assert Front(Target(s)) == Target(s[..|s| - 1]) && Front(Source(t)) == Source(t[..|t| - 1]);
    assert [Back(Target(s))] == Writes(s[|s| - 1]) && [Back(Source(t))] == Reads(t[|t| - 1]);
  }

  /** Going through a third string is never shorter. */
  lemma LevTriangle(a: string, b: string, c: string)
    ensures Lev(a, c) <= Lev(a, b) + Lev(b, c)
  {
    var s := LevIsReached(a, b);
    var t := LevIsReached(b, c);
    var u := Compose(s, t);
    LevIsLeast(u);
  }
}
