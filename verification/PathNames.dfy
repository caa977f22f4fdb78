/**
 * When the text of a path identifies it (crates/rlmesh-adapters/src/path.rs, the
 * `Display` of `NodePath`), and what hangs on it
 * (crates/rlmesh-adapters/src/plans.rs, `stacks`).
 */
module PathNames {
  import opened Paths
  import opened Plans

  const ROOT_NAME := "<root>"

  // ----- Alphabets

  predicate Digit(c: char) {
    '0' <= c <= '9'
  }

  /** Keys drawn from the letters can hold neither a dot nor a whole index. */
  ghost predicate Separable(letters: set<char>) {
    && '.' !in letters
    && !('[' in letters && ']' in letters && exists c :: c in letters && Digit(c))
  }

  /** And they cannot spell the root's name. */
  ghost predicate Readable(letters: set<char>) {
    Separable(letters) && !Spells(letters, ROOT_NAME)
  }

  ghost predicate Spells(letters: set<char>, word: string) {
    forall i :: 0 <= i < |word| ==> word[i] in letters
  }

  /** Every key of the path is a non-empty word over the letters. */
  ghost predicate Over(letters: set<char>, segs: seq<PathSeg>) {
    forall i :: 0 <= i < |segs| && segs[i].Key? ==> segs[i].name != "" && Spells(letters, segs[i].name)
  }

  // ----- Decimals

  lemma {:induction false} DecimalIsDigits(n: nat)
    ensures Decimal(n) != "" && forall i :: 0 <= i < |Decimal(n)| ==> Digit(Decimal(n)[i])
    ensures n < 10 <==> |Decimal(n)| == 1
  {
    if n >= 10 {
      DecimalIsDigits(n / 10);
    }
  }

  lemma {:induction false} DecimalIsInjective(m: nat, n: nat)
    requires Decimal(m) == Decimal(n)
    ensures m == n
  {
    DecimalIsDigits(m);
    DecimalIsDigits(n);
    if m >= 10 {
      var a, b := Decimal(m / 10), Decimal(n / 10);
      assert a == Decimal(m)[..|Decimal(m)| - 1] && b == Decimal(n)[..|Decimal(n)| - 1];
      DecimalIsInjective(m / 10, n / 10);
      LastDigit(m, n);
    }
  }

  lemma LastDigit(m: nat, n: nat)
    requires m >= 10 && n >= 10 && Decimal(m) == Decimal(n)
    ensures m % 10 == n % 10
  {
    assert Decimal(m)[|Decimal(m)| - 1] == DIGITS[m % 10];
    assert Decimal(n)[|Decimal(n)| - 1] == DIGITS[n % 10];
  }

  /** The number a text of decimal digits denotes. */
  ghost function Denotes(s: string): int {
    if s == "" then 0 else 10 * Denotes(s[..|s| - 1]) + (s[|s| - 1] as int - '0' as int)
  }

  /** The decimal of a number denotes it. */
  lemma {:induction false} DecimalDenotes(n: nat)
    ensures Denotes(Decimal(n)) == n
  {
    var s := Decimal(n);
    assert s[|s| - 1] == DIGITS[n % 10] && DIGITS[n % 10] as int - '0' as int == n % 10;
    if n >= 10 {
      DecimalDenotes(n / 10);
      assert s[..|s| - 1] == Decimal(n / 10);
    } else {
      assert s[..0] == "";
    }
  }

  /** A run of digits ends where its bracket is. */
  lemma {:induction false} DigitsEnd(d: string, x: string, e: string, y: string)
    requires d + "]" + x == e + "]" + y
    requires (forall i :: 0 <= i < |d| ==> Digit(d[i])) && forall i :: 0 <= i < |e| ==> Digit(e[i])
    ensures d == e && x == y
  {
    var s, t := d + "]" + x, e + "]" + y;
    assert s[0] == (if d == "" then ']' else d[0]) && t[0] == (if e == "" then ']' else e[0]);
    if d == "" {
      assert x == s[1..] && y == t[1..];
    } else {
      assert s[1..] == d[1..] + "]" + x && t[1..] == e[1..] + "]" + y;
      DigitsEnd(d[1..], x, e[1..], y);
      assert d == [d[0]] + d[1..] && e == [e[0]] + e[1..];
    }
  }

  // ----- Segments

  /** The text of one segment. */
  function SegText(seg: PathSeg, position: nat): string {
    match seg
    case Key(name) => (if position > 0 then "." else "") + name
    case Index(i) => "[" + Decimal(i) + "]"
  }

  /** What follows a segment starts with a dot or a bracket. */
  ghost predicate Continues(s: string) {
    s == "" || s[0] == '.' || s[0] == '['
  }

  lemma RenderUnfolds(segs: seq<PathSeg>, position: nat)
    requires segs != []
    ensures RenderFrom(segs, position) == SegText(segs[0], position) + RenderFrom(segs[1..], position + 1)
  {
  }

  lemma RenderContinues(segs: seq<PathSeg>, position: nat)
    requires position > 0
    ensures Continues(RenderFrom(segs, position))
  {
    if segs != [] {
      RenderUnfolds(segs, position);
      assert SegText(segs[0], position)[0] in {'.', '['};
    }
  }

  /** Only the empty path of non-empty keys renders as nothing. */
  lemma RenderIsEmpty(letters: set<char>, segs: seq<PathSeg>, position: nat)
    requires Over(letters, segs)
    ensures RenderFrom(segs, position) == "" <==> segs == []
  {
    if segs != [] {
      RenderUnfolds(segs, position);
      assert SegText(segs[0], position) != "";
    }
  }

  /** A word over separable letters is not the start of an index, nor the other way around. */
  lemma NoIndexInside(letters: set<char>, word: string, rest: string, n: nat, more: string)
    requires Separable(letters) && word != "" && Spells(letters, word) && Continues(rest)
    ensures word + rest != "[" + Decimal(n) + "]" + more
  {
    DecimalIsDigits(n);
    var index := "[" + Decimal(n) + "]" + more;
    var end := |Decimal(n)| + 1;
    assert forall i :: 0 < i < end ==> index[i] == Decimal(n)[i - 1];
    assert index[0] == '[' && index[end] == ']' && Digit(index[1]);
    if |word| > end {
      assert word[0] in letters && word[1] in letters && word[end] in letters;
      assert forall i :: 0 <= i < |word| ==> (word + rest)[i] == word[i];
    } else if rest != "" {
      assert (word + rest)[|word|] == rest[0];
    }
  }

  lemma SplitSame(a: string, x: string, b: string, y: string)
    requires a + x == b + y && |a| == |b|
    ensures a == b && x == y
  {
    assert a == (a + x)[..|a|] && b == (b + y)[..|b|];
    assert x == (a + x)[|a|..] && y == (b + y)[|b|..];
  }

  /** A key over separable letters ends where the next segment starts. */
  lemma KeyEnds(letters: set<char>, a: string, u: seq<PathSeg>, b: string, v: seq<PathSeg>, position: nat)
    requires Separable(letters) && Spells(letters, b) && position > 0 && |a| < |b|
    ensures a + RenderFrom(u, position) != b + RenderFrom(v, position)
  {
    hide RenderFrom, Decimal;
    var x, y, c := RenderFrom(u, position), RenderFrom(v, position), b[|a|..];
    RenderContinues(u, position);
    RenderContinues(v, position);
    assert (a + x)[|a|..] == x && (b + y)[|a|..] == c + y;
    assert c[0] == b[|a|] && (c + y)[0] == c[0] && c[0] in letters;
    if u != [] {
      RenderUnfolds(u, position);
      if u[0].Index? {
        forall i | 0 <= i < |c| ensures c[i] in letters {
          assert c[i] == b[|a| + i];
        }
        NoIndexInside(letters, c, y, u[0].position, RenderFrom(u[1..], position + 1));
      } else {
        assert x[0] == '.';
      }
    } else {
      NothingRendered(position);
    }
  }

  lemma NothingRendered(position: nat)
    ensures RenderFrom([], position) == ""
  {
  }

  /** Segments whose keys are words over separable letters are told apart by their text. */
  lemma {:induction false} SegmentsReadBack(letters: set<char>, u: seq<PathSeg>, v: seq<PathSeg>, position: nat)
    requires Separable(letters) && Over(letters, u) && Over(letters, v)
    requires RenderFrom(u, position) == RenderFrom(v, position)
    ensures u == v
    decreases |u|
  {
    hide RenderFrom, Decimal, Separable;
    RenderIsEmpty(letters, u, position);
    RenderIsEmpty(letters, v, position);
    if u != [] {
      RenderUnfolds(u, position);
      RenderUnfolds(v, position);
      FirstReadsBack(letters, u, v, position);
      SegmentsReadBack(letters, u[1..], v[1..], position + 1);
      assert u == [u[0]] + u[1..] && v == [v[0]] + v[1..];
    }
  }

  lemma FirstReadsBack(letters: set<char>, u: seq<PathSeg>, v: seq<PathSeg>, position: nat)
    requires Separable(letters) && Over(letters, u) && Over(letters, v) && u != [] && v != []
    requires SegText(u[0], position) + RenderFrom(u[1..], position + 1)
             == SegText(v[0], position) + RenderFrom(v[1..], position + 1)
    ensures u[0] == v[0] && RenderFrom(u[1..], position + 1) == RenderFrom(v[1..], position + 1)
  {
    hide RenderFrom, Decimal, Separable;
    var x, y := RenderFrom(u[1..], position + 1), RenderFrom(v[1..], position + 1);
    match (u[0], v[0])
    case (Key(a), Key(b)) =>
      SameKey(letters, a, u[1..], b, v[1..], position);
    case (Key(a), Index(n)) =>
      RenderContinues(u[1..], position + 1);
      KeyIsNoIndex(letters, a, x, n, y, position);
    case (Index(n), Key(b)) =>
      RenderContinues(v[1..], position + 1);
      KeyIsNoIndex(letters, b, y, n, x, position);
    case (Index(m), Index(n)) =>
      SameIndex(m, x, n, y);
  }

  lemma SameKey(letters: set<char>, a: string, u: seq<PathSeg>, b: string, v: seq<PathSeg>, position: nat)
    requires Separable(letters) && Spells(letters, a) && Spells(letters, b)
    requires SegText(Key(a), position) + RenderFrom(u, position + 1) == SegText(Key(b), position) + RenderFrom(v, position + 1)
    ensures a == b && RenderFrom(u, position + 1) == RenderFrom(v, position + 1)
  {
    hide RenderFrom, Separable, Spells;
    var x, y := RenderFrom(u, position + 1), RenderFrom(v, position + 1);
    var dot := if position > 0 then "." else "";
    assert dot + (a + x) == (dot + a) + x && dot + (b + y) == (dot + b) + y;
    SplitSame(dot, a + x, dot, b + y);
    if |a| < |b| {
      KeyEnds(letters, a, u, b, v, position + 1);
    } else if |b| < |a| {
      KeyEnds(letters, b, v, a, u, position + 1);
    }
    SplitSame(a, x, b, y);
  }

  lemma KeyIsNoIndex(letters: set<char>, a: string, x: string, n: nat, y: string, position: nat)
    requires Separable(letters) && a != "" && Spells(letters, a) && Continues(x)
    ensures SegText(Key(a), position) + x != SegText(Index(n), position) + y
  {
    hide Decimal, Separable;
    if position > 0 {
      assert (SegText(Key(a), position) + x)[0] == '.';
      assert (SegText(Index(n), position) + y)[0] == '[';
    } else {
      NoIndexInside(letters, a, x, n, y);
      assert SegText(Key(a), position) == a;
    }
  }

  lemma SameIndex(m: nat, x: string, n: nat, y: string)
    requires "[" + Decimal(m) + "]" + x == "[" + Decimal(n) + "]" + y
    ensures m == n && x == y
  {
    hide Decimal;
    var d, e := Decimal(m), Decimal(n);
    assert d + "]" + x == ("[" + d + "]" + x)[1..] == ("[" + e + "]" + y)[1..] == e + "]" + y;
    DecimalIsDigits(m);
    DecimalIsDigits(n);
    DigitsEnd(d, x, e, y);
    DecimalIsInjective(m, n);
  }

  // ----- Paths

  lemma RootNameReads(position: nat)
    ensures RenderFrom([Key(ROOT_NAME)], 0) == ROOT_NAME
  {
    assert [Key(ROOT_NAME)][1..] == [];
  }

  /** Only one path of separable keys, besides the root, reads as the root does. */
  lemma OnlyTheRootsName(letters: set<char>, segs: seq<PathSeg>)
    requires Separable(letters) && Over(letters, segs) && RenderFrom(segs, 0) == ROOT_NAME
    ensures segs == [Key(ROOT_NAME)] && Spells(letters, ROOT_NAME)
  {
    hide RenderFrom;
    var more := letters + {'<', 'r', 'o', 't', '>'};
    RootNameReads(0);
    assert Spells(more, ROOT_NAME);
    forall i | 0 <= i < |segs| && segs[i].Key? ensures Spells(more, segs[i].name) {
      assert Spells(letters, segs[i].name);
    }
    SegmentsReadBack(more, segs, [Key(ROOT_NAME)], 0);
    assert segs[0].name == ROOT_NAME;
  }

  /** All paths whose keys are words over the letters are told apart by their text. */
  ghost predicate Identifies(letters: set<char>) {
    forall p: NodePath, q: NodePath :: Over(letters, p.segs) && Over(letters, q.segs) && Render(p) == Render(q) ==> p == q
  }

  /**
   * The text of a path identifies it among the paths with non-empty keys over an
   * alphabet, if and only if the alphabet lacks the dot, lacks a bracket or every
   * digit, and lacks a letter of the root's name.
   */
  lemma TextIdentifiesIff(letters: set<char>)
    ensures Identifies(letters) <==> Readable(letters)
  {
    hide Render, Separable;
    if Readable(letters) {
      forall p: NodePath, q: NodePath | Over(letters, p.segs) && Over(letters, q.segs) && Render(p) == Render(q) ensures p == q {
        ReadableReadsBack(letters, p, q);
      }
    } else if !Separable(letters) {
      InseparableCollide(letters);
    } else {
      RootCollides(letters);
    }
  }

  lemma ReadableReadsBack(letters: set<char>, p: NodePath, q: NodePath)
    requires Readable(letters) && Over(letters, p.segs) && Over(letters, q.segs) && Render(p) == Render(q)
    ensures p == q
  {
    hide RenderFrom, Separable;
    if p.segs != [] && q.segs != [] {
      SegmentsReadBack(letters, p.segs, q.segs, 0);
    } else if p.segs != [] {
      OnlyTheRootsName(letters, p.segs);
    } else if q.segs != [] {
      OnlyTheRootsName(letters, q.segs);
    }
  }

  /** A key made of dots reads as keys made of dots; a key made of an index reads as the index. */
  lemma InseparableCollide(letters: set<char>)
    requires !Separable(letters)
    ensures !Identifies(letters)
  {
    if '.' in letters {
      DotsCollide();
      assert Over(letters, [Key("...")]) && Over(letters, [Key("."), Key(".")]);
      assert NodePath([Key("...")]) != NodePath([Key("."), Key(".")]);
    } else {
      var c :| c in letters && Digit(c);
      var n: nat := c as int - '0' as int;
      IndexCollides(n);
      assert DIGITS[n] == c;
      assert Over(letters, [Key("[" + Decimal(n) + "]")]) && Over(letters, [Index(n)]);
      assert NodePath([Key("[" + Decimal(n) + "]")]) != NodePath([Index(n)]);
    }
  }

  lemma DotsCollide()
    ensures Render(NodePath([Key("...")])) == Render(NodePath([Key("."), Key(".")]))
  {
    OneKeyReads("...");
    TwoKeysRead(".", ".");
    assert "." + "." + "." == "...";
  }

  lemma OneKeyReads(a: string)
    ensures RenderFrom([Key(a)], 0) == a
  {
    assert [Key(a)][1..] == [];
  }

  lemma TwoKeysRead(a: string, b: string)
    ensures RenderFrom([Key(a), Key(b)], 0) == a + "." + b
  {
    assert [Key(a), Key(b)][1..] == [Key(b)] && [Key(b)][1..] == [];
    assert RenderFrom([Key(b)], 1) == "." + b + "";
  }

  lemma IndexCollides(n: nat)
    ensures Render(NodePath([Key("[" + Decimal(n) + "]")])) == Render(NodePath([Index(n)]))
  {
    OneKeyReads("[" + Decimal(n) + "]");
    assert [Index(n)][1..] == [];
  }

  lemma RootCollides(letters: set<char>)
    requires Spells(letters, ROOT_NAME)
    ensures !Identifies(letters)
  {
    OneKeyReads(ROOT_NAME);
    assert Over(letters, [Key(ROOT_NAME)]) && Over(letters, ROOT.segs);
    assert Render(NodePath([Key(ROOT_NAME)])) == Render(ROOT);
  }

  /** Any dotted key reads as the two keys around its dot, so such paths always collide. */
  lemma DottedKeysCollide(a: string, b: string)
    ensures Render(NodePath([Key(a + "." + b)])) == Render(NodePath([Key(a), Key(b)]))
    ensures Apart(NodePath([Key(a + "." + b)]), NodePath([Key(a), Key(b)]))
  {
    OneKeyReads(a + "." + b);
    TwoKeysRead(a, b);
    assert |a + "." + b| > |a|;
    assert [Key(a + "." + b)][0] != [Key(a), Key(b)][0];
  }

  /** An empty first key reads as nothing, so empty keys always collide too. */
  lemma EmptyKeysCollide(n: nat)
    ensures Render(NodePath([Key(""), Index(n)])) == Render(NodePath([Index(n)]))
  {
    assert [Key(""), Index(n)][1..] == [Index(n)] && [Index(n)][1..] == [];
    NothingRendered(1);
    NothingRendered(2);
    assert RenderFrom([Index(n)], 0) == RenderFrom([Index(n)], 1);
    assert "" + RenderFrom([Index(n)], 1) == RenderFrom([Index(n)], 1);
  }

  // ----- Two given paths

  ghost function Letters(segs: seq<PathSeg>): set<char> {
    set i, j | 0 <= i < |segs| && segs[i].Key? && 0 <= j < |segs[i].name| :: segs[i].name[j]
  }

  /** No empty key, no dot and no opening bracket in a key, and not the root's name alone. */
  ghost predicate Plain(p: NodePath) {
    && (forall i :: 0 <= i < |p.segs| && p.segs[i].Key? ==>
          p.segs[i].name != "" && '.' !in p.segs[i].name && '[' !in p.segs[i].name)
    && p.segs != [Key(ROOT_NAME)]
  }

  /** Two plain paths with one text are one path. */
  lemma PlainPathsReadApart(p: NodePath, q: NodePath)
    requires Plain(p) && Plain(q) && Render(p) == Render(q)
    ensures p == q
  {
    hide RenderFrom;
    var letters := Letters(p.segs) + Letters(q.segs);
    PlainLetters(p, letters);
    PlainLetters(q, letters);
    if p.segs != [] && q.segs != [] {
      SegmentsReadBack(letters, p.segs, q.segs, 0);
    } else if p.segs != [] {
      OnlyTheRootsName(letters, p.segs);
    } else if q.segs != [] {
      OnlyTheRootsName(letters, q.segs);
    }
  }

  lemma PlainLetters(p: NodePath, letters: set<char>)
    requires Plain(p) && Letters(p.segs) <= letters
    ensures Over(letters, p.segs) && '.' !in Letters(p.segs) && '[' !in Letters(p.segs)
  {
    forall i | 0 <= i < |p.segs| && p.segs[i].Key? ensures Spells(letters, p.segs[i].name) {
      forall j | 0 <= j < |p.segs[i].name| ensures p.segs[i].name[j] in letters {
        assert p.segs[i].name[j] in Letters(p.segs);
      }
    }
  }

  // ----- Stacks by name

  /** The depths of the first `n` stacked placements, under the text of each. */
  function StacksByName(adapter: Adapter, n: nat): map<string, nat>
    requires n <= |adapter.stacked|
  {
    if n == 0 then map[]
    else StacksByName(adapter, n - 1)[Render(adapter.stacked[n - 1].placement) := adapter.stacked[n - 1].depth]
  }

  ghost predicate NamesDiffer(adapter: Adapter, n: nat)
    requires n <= |adapter.stacked|
  {
    forall j, k :: 0 <= j < k < n ==> Render(adapter.stacked[j].placement) != Render(adapter.stacked[k].placement)
  }

  lemma {:induction false} NamesListed(adapter: Adapter, n: nat)
    requires n <= |adapter.stacked|
    ensures forall name :: name in StacksByName(adapter, n) <==>
              exists k :: 0 <= k < n && Render(adapter.stacked[k].placement) == name
  {
    hide Render;
    if n > 0 {
      NamesListed(adapter, n - 1);
    }
  }

  /** The summary loses an entry exactly when two stacked placements have one text. */
  lemma {:induction false} StacksKeepEveryEntryIff(adapter: Adapter, n: nat)
    requires n <= |adapter.stacked|
    ensures |StacksByName(adapter, n)| <= n
    ensures |StacksByName(adapter, n)| == n <==> NamesDiffer(adapter, n)
  {
    hide Render;
    if n > 0 {
      var name, before := Render(adapter.stacked[n - 1].placement), StacksByName(adapter, n - 1);
      StacksKeepEveryEntryIff(adapter, n - 1);
      NamesListed(adapter, n - 1);
      OneMoreName(before, name, adapter.stacked[n - 1].depth);
      assert NamesDiffer(adapter, n) <==> NamesDiffer(adapter, n - 1) && name !in before;
    }
  }

  lemma OneMoreName(m: map<string, nat>, name: string, depth: nat)
    ensures |m[name := depth]| == |m| + if name in m then 0 else 1
  {
    assert m[name := depth].Keys == m.Keys + {name};
    assert |m| == |m.Keys| && |m[name := depth]| == |m[name := depth].Keys|;
  }

  /** Distinct placements over plain keys lose nothing. */
  /** Under each name stands the depth of the last entry that renders so. */
  lemma {:induction false} StacksShowTheLast(adapter: Adapter, n: nat, j: nat)
    requires j < n <= |adapter.stacked|
    requires forall k :: j < k < n ==> Render(adapter.stacked[k].placement) != Render(adapter.stacked[j].placement)
    ensures var name := Render(adapter.stacked[j].placement);
            name in StacksByName(adapter, n) && StacksByName(adapter, n)[name] == adapter.stacked[j].depth
  {
    hide Render;
    if j < n - 1 {
      StacksShowTheLast(adapter, n - 1, j);
    }
  }

  lemma PlainStacksKeepEveryEntry(adapter: Adapter)
    requires DistinctSlots(adapter) && forall j :: 0 <= j < |adapter.stacked| ==> Plain(adapter.stacked[j].placement)
    ensures |StacksByName(adapter, |adapter.stacked|)| == |adapter.stacked|
  {
    hide Render, Plain;
    StacksKeepEveryEntryIff(adapter, |adapter.stacked|);
    forall j, k | 0 <= j < k < |adapter.stacked|
      ensures Render(adapter.stacked[j].placement) != Render(adapter.stacked[k].placement)
    {
      if Render(adapter.stacked[j].placement) == Render(adapter.stacked[k].placement) {
        PlainPathsReadApart(adapter.stacked[j].placement, adapter.stacked[k].placement);
      }
    }
  }
}
