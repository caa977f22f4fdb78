/**
 * The workflow edition lineage: what a version bump does to the manifest, and what
 * a build then offers (scripts/bump_version.py; crates/rlmesh-proto/build.rs).
 */
module Editions {
  import opened Wrappers

  /** One `[workflow.editions."…"]` table. */
  datatype Block =
    | Provisional(edition: string, spec: string)
    | Sealed(edition: string, spec: string, sealedIn: string, sha: string)

  /** The `[workflow]` part of the manifest; the edition tables are in file order. */
  datatype Manifest = Manifest(base: string, current: string, supported: seq<string>, blocks: seq<Block>)

  // ----- Lists of editions

  function Without(editions: seq<string>, edition: string): (rest: seq<string>)
    ensures forall e :: e in rest <==> e in editions && e != edition
  {
    if editions == [] then []
    else if editions[0] == edition then Without(editions[1..], edition)
    else [editions[0]] + Without(editions[1..], edition)
  }

  function SealedEditions(blocks: seq<Block>): (editions: seq<string>)
    ensures forall e :: e in editions <==> exists b :: b in blocks && b.Sealed? && b.edition == e
  {
    if blocks == [] then []
    else
      var rest := SealedEditions(blocks[1..]);
      assert blocks == [blocks[0]] + blocks[1..];
      if blocks[0].Sealed? then [blocks[0].edition] + rest else rest
  }

  ghost predicate NoRepeats<T(!new)>(s: seq<T>) {
    forall i, j :: 0 <= i < j < |s| ==> s[i] != s[j]
  }

  ghost predicate DistinctTables(blocks: seq<Block>) {
    forall i, j :: 0 <= i < j < |blocks| ==> blocks[i].edition != blocks[j].edition
  }

  lemma {:induction false} WithoutAppend(a: seq<string>, b: seq<string>, e: string)
    ensures Without(a + b, e) == Without(a, e) + Without(b, e)
  {
    if a == [] {
      assert a + b == b;
    } else {
      assert (a + b)[1..] == a[1..] + b;
      WithoutAppend(a[1..], b, e);
    }
  }

  lemma {:induction false} SealedAppend(a: seq<Block>, b: seq<Block>)
    ensures SealedEditions(a + b) == SealedEditions(a) + SealedEditions(b)
  {
    if a == [] {
      assert a + b == b;
    } else {
      assert (a + b)[1..] == a[1..] + b;
      SealedAppend(a[1..], b);
    }
  }

  lemma {:induction false} WithoutNoRepeats(s: seq<string>, e: string)
    requires NoRepeats(s)
    ensures NoRepeats(Without(s, e))
  {
    if s != [] {
      assert NoRepeats(s[1..]);
      WithoutNoRepeats(s[1..], e);
      assert s[0] !in s[1..];
    }
  }

  lemma {:induction false} SealedNoRepeats(blocks: seq<Block>)
    requires DistinctTables(blocks)
    ensures NoRepeats(SealedEditions(blocks))
  {
    if blocks != [] {
      SealedNoRepeats(blocks[1..]);
      assert blocks[0].edition !in SealedEditions(blocks[1..]);
    }
  }

  lemma {:induction false} WithoutAbsent(s: seq<string>, e: string)
    requires e !in s
    ensures Without(s, e) == s
  {
    if s != [] {
      WithoutAbsent(s[1..], e);
    }
  }

  // ----- A version bump

  /** The accepted versions carry a dash exactly when they are prereleases. */
  predicate Prerelease(version: string) {
    '-' in version
  }

  function EditionName(base: string, version: string): string {
    if Prerelease(version) then base + "-" + version else base
  }

  function NewBlock(base: string, version: string, sha: string): Block {
    var spec := "docs/editions/" + base + ".md";
    if Prerelease(version) then Provisional(EditionName(base, version), spec)
    else Sealed(EditionName(base, version), spec, version, sha)
  }

  function Find(blocks: seq<Block>, edition: string): (at: Option<nat>)
    ensures at.Some? ==> at.value < |blocks| && blocks[at.value].edition == edition
    ensures at.None? ==> forall b :: b in blocks ==> b.edition != edition
  {
    if blocks == [] then None
    else if blocks[0].edition == edition then Some(0)
    else
      assert blocks == [blocks[0]] + blocks[1..];
      match Find(blocks[1..], edition)
      case None => None
      case Some(i) => Some(i + 1)
  }

  function DropProvisional(blocks: seq<Block>, edition: string): seq<Block> {
    match Find(blocks, edition)
    case Some(i) => if blocks[i].Provisional? then blocks[..i] + blocks[i + 1..] else blocks
    case None => blocks
  }

  function UpdateBlocks(blocks: seq<Block>, was: string, block: Block): seq<Block> {
    match Find(blocks, block.edition)
    case Some(i) =>
      if block.Sealed? && blocks[i].Sealed? then DropProvisional(blocks, was) else blocks[i := block]
    case None =>
      match Find(blocks, was)
      case Some(j) => if blocks[j].Sealed? then blocks + [block] else blocks[j := block]
      case None => blocks + [block]
  }

  function Bump(m: Manifest, version: string, sha: string): Manifest {
    var block := NewBlock(m.base, version, sha);
    Manifest(
      m.base, block.edition,
      [block.edition] + Without(SealedEditions(m.blocks), block.edition),
      UpdateBlocks(m.blocks, m.current, block))
  }

  /** The loop over the edition tables, in file order. */
  method SealedWorkflowEditions(blocks: seq<Block>) returns (sealed: seq<string>)
    ensures sealed == SealedEditions(blocks)
  {
    sealed := [];
    for i := 0 to |blocks|
      invariant sealed == SealedEditions(blocks[..i])
    {
      assert blocks[..i + 1] == blocks[..i] + [blocks[i]];
      SealedAppend(blocks[..i], [blocks[i]]);
      if blocks[i].Sealed? {
        sealed := sealed + [blocks[i].edition];
      }
    }
    assert blocks[..|blocks|] == blocks;
  }

  // ----- What one bump keeps

  /** The list a manifest should declare: the current edition, then every other sealed one. */
  function Listed(m: Manifest): seq<string> {
    [m.current] + Without(SealedEditions(m.blocks), m.current)
  }

  /** Tables are distinct, and only the current edition's may be provisional. */
  ghost predicate Lineage(m: Manifest) {
    && DistinctTables(m.blocks)
    && forall b :: b in m.blocks && b.Provisional? ==> b.edition == m.current
  }

  /** The one family of bumps that rewrites a sealed table. */
  ghost predicate Collides(m: Manifest, version: string) {
    Prerelease(version) && EditionName(m.base, version) in SealedEditions(m.blocks)
  }

  lemma ReplacedSealed(blocks: seq<Block>, i: nat, block: Block, e: string)
    requires i < |blocks| && block.edition == e && (blocks[i].Sealed? ==> blocks[i].edition == e)
    ensures Without(SealedEditions(blocks[i := block]), e) == Without(SealedEditions(blocks), e)
  {
    var (a, z) := (blocks[..i], blocks[i + 1..]);
    assert blocks == a + ([blocks[i]] + z) && blocks[i := block] == a + ([block] + z);
    SealedAppend(a, [blocks[i]] + z);
    SealedAppend([blocks[i]], z);
    SealedAppend(a, [block] + z);
    SealedAppend([block], z);
    WithoutAppend(SealedEditions(a), SealedEditions([blocks[i]] + z), e);
    WithoutAppend(SealedEditions([blocks[i]]), SealedEditions(z), e);
    WithoutAppend(SealedEditions(a), SealedEditions([block] + z), e);
    WithoutAppend(SealedEditions([block]), SealedEditions(z), e);
  }

  lemma DroppedSealed(blocks: seq<Block>, edition: string)
    ensures SealedEditions(DropProvisional(blocks, edition)) == SealedEditions(blocks)
  {
    var at := Find(blocks, edition);
    if at.Some? && blocks[at.value].Provisional? {
      var i := at.value;
      assert blocks == blocks[..i] + ([blocks[i]] + blocks[i + 1..]);
      SealedAppend(blocks[..i], [blocks[i]] + blocks[i + 1..]);
      SealedAppend([blocks[i]], blocks[i + 1..]);
      SealedAppend(blocks[..i], blocks[i + 1..]);
    }
  }

  lemma AppendedSealed(blocks: seq<Block>, block: Block)
    ensures Without(SealedEditions(blocks + [block]), block.edition) == Without(SealedEditions(blocks), block.edition)
  {
    SealedAppend(blocks, [block]);
    WithoutAppend(SealedEditions(blocks), SealedEditions([block]), block.edition);
  }

  /** Every bump leaves the declared list in step with the tables it leaves. */
  lemma BumpKeepsTheListExact(m: Manifest, version: string, sha: string)
    ensures Bump(m, version, sha).supported == Listed(Bump(m, version, sha))
  {
    var block := NewBlock(m.base, version, sha);
    var at, was := Find(m.blocks, block.edition), Find(m.blocks, m.current);
    if at.Some? && block.Sealed? && m.blocks[at.value].Sealed? {
      DroppedSealed(m.blocks, m.current);
    } else if at.Some? {
      ReplacedSealed(m.blocks, at.value, block, block.edition);
    } else if was.Some? && m.blocks[was.value].Provisional? {
      ReplacedSealed(m.blocks, was.value, block, block.edition);
    } else {
      AppendedSealed(m.blocks, block);
    }
  }

  /** Every other sealed edition is listed exactly once, and the current one leads. */
  lemma ListedIsExact(m: Manifest)
    requires DistinctTables(m.blocks)
    ensures Listed(m)[0] == m.current && NoRepeats(Listed(m))
    ensures forall e :: e in Listed(m) <==> e == m.current || exists b :: b in m.blocks && b.Sealed? && b.edition == e
  {
    SealedNoRepeats(m.blocks);
    WithoutNoRepeats(SealedEditions(m.blocks), m.current);
    var rest := Without(SealedEditions(m.blocks), m.current);
    assert m.current !in rest && Listed(m)[1..] == rest;
    assert forall k :: 0 < k < |Listed(m)| ==> Listed(m)[k] == rest[k - 1];
    assert forall e :: e in Listed(m) <==> e == m.current || e in SealedEditions(m.blocks);
  }

  ghost predicate KeepsSealed(before: seq<Block>, after: seq<Block>) {
    forall b :: b in before && b.Sealed? ==> b in after
  }

  lemma DropKeepsSealed(blocks: seq<Block>, edition: string)
    ensures KeepsSealed(blocks, DropProvisional(blocks, edition))
  {
    var at := Find(blocks, edition);
    if at.Some? && blocks[at.value].Provisional? {
      var i := at.value;
      forall b | b in blocks && b.Sealed? ensures b in blocks[..i] + blocks[i + 1..] {
        var k :| 0 <= k < |blocks| && blocks[k] == b;
        assert if k < i then b == blocks[..i][k] else b == blocks[i + 1..][k - i - 1];
      }
    }
  }

  lemma ReplaceKeepsSealed(blocks: seq<Block>, i: nat, block: Block)
    requires i < |blocks| && blocks[i].Provisional?
    ensures KeepsSealed(blocks, blocks[i := block])
  {
    forall b | b in blocks && b.Sealed? ensures b in blocks[i := block] {
      var k :| 0 <= k < |blocks| && blocks[k] == b;
      assert blocks[i := block][k] == b;
    }
  }

  /** A bump leaves every sealed table as it was, if and only if it does not collide. */
  lemma SealedTablesSurviveIff(m: Manifest, version: string, sha: string)
    requires DistinctTables(m.blocks)
    ensures KeepsSealed(m.blocks, Bump(m, version, sha).blocks) <==> !Collides(m, version)
  {
    var block := NewBlock(m.base, version, sha);
    var at, was := Find(m.blocks, block.edition), Find(m.blocks, m.current);
    if at.Some? && block.Sealed? && m.blocks[at.value].Sealed? {
      DropKeepsSealed(m.blocks, m.current);
    } else if at.Some? && m.blocks[at.value].Sealed? {
      assert m.blocks[at.value] !in m.blocks[at.value := block];
      assert m.blocks[at.value] in m.blocks;
    } else if at.Some? {
      ReplaceKeepsSealed(m.blocks, at.value, block);
    } else if was.Some? && m.blocks[was.value].Provisional? {
      ReplaceKeepsSealed(m.blocks, was.value, block);
    }
  }

  /**
   * The failing family is not empty, and a run reaches it: seal an edition under a suffixed base, go back to the
   * plain base, and release the prerelease of the suffix.
   */
  lemma CollidingRunUnseals(base: string, stable: string, version: string, sha: string)
    requires !Prerelease(stable) && Prerelease(version)
    ensures var name := base + "-" + version;
            var m := Manifest(name, name, [name], []);
            var sealed := Sealed(name, "docs/editions/" + name + ".md", stable, sha);
            && Lineage(m) && m.supported == Listed(m)
            && Run(m, [Release(stable, sha)]).blocks == [sealed]
            && sealed !in Run(m, [Release(stable, sha), EditBase(base), Release(version, sha)]).blocks
  {
    var name := base + "-" + version;
    var m := Manifest(name, name, [name], []);
    var sealed := NewBlock(name, stable, sha);
    var events := [Release(stable, sha), EditBase(base), Release(version, sha)];
    var m1 := Bump(m, stable, sha);
    assert [] + [sealed] == [sealed] && m1.blocks == [sealed];
    assert [Release(stable, sha)][1..] == [];
    assert events[1..] == [EditBase(base), Release(version, sha)] && events[1..][1..] == [Release(version, sha)];
    assert [Release(version, sha)][1..] == [];
    var m2 := m1.(base := base);
    assert Run(m, events) == Run(m1, events[1..]) == Run(m2, [Release(version, sha)]);
    assert Run(m2, [Release(version, sha)]) == Run(Bump(m2, version, sha), []);
    assert Find([sealed], name) == Some(0);
  }

  lemma ReplaceKeepsDistinct(blocks: seq<Block>, i: nat, block: Block)
    requires DistinctTables(blocks) && i < |blocks|
    requires blocks[i].edition == block.edition || forall b :: b in blocks ==> b.edition != block.edition
    ensures DistinctTables(blocks[i := block])
    ensures forall b :: b in blocks[i := block] ==> b == block || (b in blocks && b.edition != blocks[i].edition)
  {
    forall b | b in blocks[i := block] && b != block ensures b in blocks && b.edition != blocks[i].edition {
      var k :| 0 <= k < |blocks| && blocks[i := block][k] == b;
      assert k != i && blocks[k] == b;
    }
  }

  lemma OneTable(blocks: seq<Block>, i: nat)
    requires DistinctTables(blocks) && i < |blocks|
    ensures forall b :: b in blocks && b.edition == blocks[i].edition ==> b == blocks[i]
  {
    forall b | b in blocks && b.edition == blocks[i].edition ensures b == blocks[i] {
      var k :| 0 <= k < |blocks| && blocks[k] == b;
    }
  }

  lemma DropKeepsDistinct(blocks: seq<Block>, edition: string)
    requires DistinctTables(blocks)
    ensures DistinctTables(DropProvisional(blocks, edition))
    ensures forall b :: b in DropProvisional(blocks, edition) ==> b in blocks && (b.Provisional? ==> b.edition != edition)
  {
    var at := Find(blocks, edition);
    if at.Some? && blocks[at.value].Provisional? {
      var i := at.value;
      var next := blocks[..i] + blocks[i + 1..];
      assert forall k :: 0 <= k < |next| ==> next[k] == blocks[if k < i then k else k + 1];
    } else if at.Some? {
      OneTable(blocks, at.value);
    }
  }

  lemma BumpKeepsLineage(m: Manifest, version: string, sha: string)
    requires Lineage(m) && !Collides(m, version)
    ensures Lineage(Bump(m, version, sha))
    ensures !Prerelease(version) ==> forall b :: b in Bump(m, version, sha).blocks ==> b.Sealed?
  {
    hide DropProvisional, DistinctTables;
    var block := NewBlock(m.base, version, sha);
    var at, was := Find(m.blocks, block.edition), Find(m.blocks, m.current);
    if at.Some? && block.Sealed? && m.blocks[at.value].Sealed? {
      DropKeepsDistinct(m.blocks, m.current);
    } else if at.Some? {
      ReplaceKeepsDistinct(m.blocks, at.value, block);
    } else if was.Some? && m.blocks[was.value].Provisional? {
      ReplaceKeepsDistinct(m.blocks, was.value, block);
    } else {
      AppendKeepsDistinct(m.blocks, block);
      if was.Some? {
        OneTable(m.blocks, was.value);
      }
    }
  }

  lemma AppendKeepsDistinct(blocks: seq<Block>, block: Block)
    requires DistinctTables(blocks) && forall b :: b in blocks ==> b.edition != block.edition
    ensures DistinctTables(blocks + [block])
  {
  }

  /** The table a bump writes: of the base's edition for a stable version, sealed in it; else provisional. */
  ghost predicate Writes(base: string, version: string, sha: string, b: Block) {
    && b.spec == "docs/editions/" + base + ".md"
    && if '-' in version then b.Provisional? && b.edition == base + "-" + version
       else b.Sealed? && b.edition == base && b.sealedIn == version && b.sha == sha
  }

  /**
   * The new current edition is the base's, or the prerelease's own, and has its
   * table; every table that was not there before is its, as the bump writes it.  Only
   * a stable bump that finds its edition sealed writes none.
   */
  lemma CurrentHasItsTable(m: Manifest, version: string, sha: string)
    ensures var next := Bump(m, version, sha);
            && next.base == m.base
            && next.current == (if '-' in version then m.base + "-" + version else m.base)
            && (forall b :: b in next.blocks ==> b in m.blocks || Writes(m.base, version, sha, b))
            && exists b :: b in next.blocks && b.edition == next.current
                 && (|| Writes(m.base, version, sha, b)
                     || (b in m.blocks && b.Sealed? && '-' !in version))
  {
    hide Without, SealedEditions;
    var next, block := Bump(m, version, sha), NewBlock(m.base, version, sha);
    assert Writes(m.base, version, sha, block);
    var at, was := Find(m.blocks, block.edition), Find(m.blocks, m.current);
    if at.Some? && block.Sealed? && m.blocks[at.value].Sealed? {
      DropKeepsSealed(m.blocks, m.current);
      assert m.blocks[at.value] in m.blocks && m.blocks[at.value] in next.blocks;
    } else if at.Some? {
      assert next.blocks[at.value] == block;
    } else if was.Some? && m.blocks[was.value].Provisional? {
      assert next.blocks[was.value] == block;
    } else {
      assert next.blocks[|m.blocks|] == block;
    }
  }

  /** A table the bump may write over: one of the new current edition, or the provisional one of the old. */
  ghost predicate GivesWay(m: Manifest, version: string, b: Block) {
    || b.edition == (if '-' in version then m.base + "-" + version else m.base)
    || (b.Provisional? && b.edition == m.current)
  }

  /**
   * A bump moves no table: its own is written over one that gives way, or comes last;
   * or it only takes out the provisional one of the old current edition.
   */
  lemma TablesStayInPlace(m: Manifest, version: string, sha: string)
    ensures var was, now := m.blocks, Bump(m, version, sha).blocks;
            || (&& |was| <= |now| <= |was| + 1
                && (forall i :: 0 <= i < |was| ==>
                      now[i] == was[i] || (Writes(m.base, version, sha, now[i]) && GivesWay(m, version, was[i])))
                && (|was| < |now| ==> now[..|was|] == was && Writes(m.base, version, sha, now[|was|])))
            || (exists i :: 0 <= i < |was| && was[i].Provisional? && was[i].edition == m.current
                  && now == was[..i] + was[i + 1..])
  {
    hide Without, SealedEditions;
    assert Writes(m.base, version, sha, NewBlock(m.base, version, sha));
  }

  // ----- Runs of bumps and base edits

  datatype Event =
    | Release(version: string, sha: string)
    | EditBase(base: string)

  function Apply(m: Manifest, event: Event): Manifest {
    match event
    case Release(version, sha) => Bump(m, version, sha)
    case EditBase(base) => m.(base := base)
  }

  function Run(m: Manifest, events: seq<Event>): Manifest
    decreases events
  {
    if events == [] then m else Run(Apply(m, events[0]), events[1..])
  }

  /** No bump of the run collides. */
  ghost predicate Clear(m: Manifest, events: seq<Event>)
    decreases events
  {
    events == [] || (
      && (events[0].Release? ==> !Collides(m, events[0].version))
      && Clear(Apply(m, events[0]), events[1..]))
  }

  /**
   * Over every run: each sealed table is left unchanged, only the current edition's
   * table may be provisional, and the declared list stays exact.
   */
  lemma {:induction false} LineageOverEveryRun(m: Manifest, events: seq<Event>)
    requires Lineage(m) && m.supported == Listed(m) && Clear(m, events)
    ensures var end := Run(m, events);
            && Lineage(end)
            && KeepsSealed(m.blocks, end.blocks)
            && end.supported == Listed(end)
    decreases events
  {
    hide Bump, Listed, Collides;
    if events != [] {
      var next := Apply(m, events[0]);
      StepKeeps(m, events[0]);
      LineageOverEveryRun(next, events[1..]);
    }
  }

  lemma StepKeeps(m: Manifest, event: Event)
    requires Lineage(m) && m.supported == Listed(m) && (event.Release? ==> !Collides(m, event.version))
    ensures var next := Apply(m, event);
            Lineage(next) && KeepsSealed(m.blocks, next.blocks) && next.supported == Listed(next)
  {
    hide Bump, Collides;
    match event
    case Release(version, sha) =>
      BumpKeepsLineage(m, version, sha);
      SealedTablesSurviveIff(m, version, sha);
      BumpKeepsTheListExact(m, version, sha);
    case EditBase(_) =>
  }

  /** At every step of the run the sealed tables stay as they were. */
  ghost predicate EveryStepKeepsSealed(m: Manifest, events: seq<Event>)
    decreases events
  {
    events == [] || (
      && KeepsSealed(m.blocks, Apply(m, events[0]).blocks)
      && EveryStepKeepsSealed(Apply(m, events[0]), events[1..]))
  }

  lemma BumpKeepsDistinct(m: Manifest, version: string, sha: string)
    requires DistinctTables(m.blocks)
    ensures DistinctTables(Bump(m, version, sha).blocks)
  {
    hide DropProvisional, DistinctTables;
    var block := NewBlock(m.base, version, sha);
    var at, was := Find(m.blocks, block.edition), Find(m.blocks, m.current);
    if at.Some? && block.Sealed? && m.blocks[at.value].Sealed? {
      DropKeepsDistinct(m.blocks, m.current);
    } else if at.Some? {
      ReplaceKeepsDistinct(m.blocks, at.value, block);
    } else if was.Some? && m.blocks[was.value].Provisional? {
      ReplaceKeepsDistinct(m.blocks, was.value, block);
    } else {
      AppendKeepsDistinct(m.blocks, block);
    }
  }

  /** Over every run: each step leaves every sealed table unchanged, if and only if no bump of the run collides. */
  lemma {:induction false} RunKeepsSealedIff(m: Manifest, events: seq<Event>)
    requires DistinctTables(m.blocks)
    ensures EveryStepKeepsSealed(m, events) <==> Clear(m, events)
    decreases events
  {
    hide Bump, Collides, DistinctTables;
    if events != [] {
      match events[0] {
        case Release(version, sha) =>
          SealedTablesSurviveIff(m, version, sha);
          BumpKeepsDistinct(m, version, sha);
        case EditBase(_) =>
      }
      RunKeepsSealedIff(Apply(m, events[0]), events[1..]);
    }
  }

  /** The k-th event of a run is the stable bump that wrote this sealed table. */
  ghost predicate SealedBy(m: Manifest, events: seq<Event>, k: nat, b: Block)
    requires k < |events|
  {
    && events[k].Release? && '-' !in events[k].version && b.Sealed?
    && b.edition == Run(m, events[..k]).base
    && b.spec == "docs/editions/" + b.edition + ".md"
    && b.sealedIn == events[k].version && b.sha == events[k].sha
  }

  /**
   * Over every run, colliding bumps included: a sealed table of the result was there
   * at the start, or names the version and the digest of the stable bump that sealed it.
   */
  lemma {:induction false} SealedTablesNameTheirBump(m: Manifest, events: seq<Event>, b: Block)
    requires b in Run(m, events).blocks && b.Sealed? && b !in m.blocks
    ensures exists k :: 0 <= k < |events| && SealedBy(m, events, k, b)
    decreases events
  {
    hide Bump, SealedBy;
    var next := Apply(m, events[0]);
    if b in next.blocks {
      SealedAtOnce(m, events, b);
    } else {
      SealedTablesNameTheirBump(next, events[1..], b);
      var k :| 0 <= k < |events| - 1 && SealedBy(next, events[1..], k, b);
      SealedLater(m, events, k, b);
    }
  }

  lemma SealedAtOnce(m: Manifest, events: seq<Event>, b: Block)
    requires events != [] && b in Apply(m, events[0]).blocks && b.Sealed? && b !in m.blocks
    ensures SealedBy(m, events, 0, b)
  {
    hide Bump;
    assert events[..0] == [];
    if events[0].Release? {
      CurrentHasItsTable(m, events[0].version, events[0].sha);
    }
  }

  lemma SealedLater(m: Manifest, events: seq<Event>, k: nat, b: Block)
    requires k + 1 < |events| && SealedBy(Apply(m, events[0]), events[1..], k, b)
    ensures SealedBy(m, events, k + 1, b)
  {
    hide Bump;
    assert events[..k + 1][1..] == events[1..][..k];
  }

  /** No stable release of any run ships a provisional table. */
  lemma StableReleaseShipsNoProvisional(m: Manifest, events: seq<Event>, version: string, sha: string)
    requires Lineage(m) && m.supported == Listed(m) && Clear(m, events) && !Prerelease(version)
    ensures forall b :: b in Bump(Run(m, events), version, sha).blocks ==> b.Sealed?
  {
    LineageOverEveryRun(m, events);
    BumpKeepsLineage(Run(m, events), version, sha);
  }

  /** Sealed tables, the base and every later base are named without a dash. */
  ghost predicate PlainNames(m: Manifest, events: seq<Event>) {
    && '-' !in m.base
    && (forall b :: b in m.blocks && b.Sealed? ==> '-' !in b.edition)
    && forall event :: event in events && event.EditBase? ==> '-' !in event.base
  }

  /** With dash-free base editions, no run can collide. */
  lemma {:induction false} PlainNamesNeverCollide(m: Manifest, events: seq<Event>)
    requires PlainNames(m, events)
    ensures Clear(m, events)
    decreases events
  {
    if events != [] {
      if events[0].Release? {
        assert Prerelease(events[0].version) ==> EditionName(m.base, events[0].version)[|m.base|] == '-';
        SealedStayPlain(m, events[0].version, events[0].sha);
      }
      PlainNamesNeverCollide(Apply(m, events[0]), events[1..]);
    }
  }

  lemma SealedStayPlain(m: Manifest, version: string, sha: string)
    requires '-' !in m.base && forall b :: b in m.blocks && b.Sealed? ==> '-' !in b.edition
    ensures forall b :: b in Bump(m, version, sha).blocks && b.Sealed? ==> '-' !in b.edition
  {
    CurrentHasItsTable(m, version, sha);
  }

  // ----- What a build offers

  datatype BuildError = ListsNoEditions | OutOfDate

  /** What the synced file lists, one edition per line. */
  function Sync(m: Manifest): seq<string> {
    [m.current] + Without(m.supported, m.current)
  }

  /** A name up to its first dash. */
  function BeforeDash(s: string): (p: string)
    ensures p <= s && '-' !in p && (p == s <==> '-' !in s)
  {
    if s == [] || s[0] == '-' then [] else [s[0]] + BeforeDash(s[1..])
  }

  function BuildBase(override: Option<string>, manifest: Option<Manifest>, packaged: string): string {
    match override
    case Some(base) => base
    case None => if manifest.Some? then manifest.value.base else BeforeDash(packaged)
  }

  /**
   * The editions a build offers. A checkout has the manifest, a published crate does
   * not; a dev build spells its own cohort.
   */
  function Offers(
      override: Option<string>, manifest: Option<Manifest>, retained: seq<string>, version: string, dev: Option<string>)
    : Result<seq<string>, BuildError>
  {
    if retained == [] then Err(ListsNoEditions)
    else if manifest.Some? && Sync(manifest.value) != retained then Err(OutOfDate)
    else
      var base := BuildBase(override, manifest, retained[0]);
      var current := if dev.Some? then base + "-dev." + dev.value else EditionName(base, version);
      Ok([current] + Without(retained[1..], current))
  }

  /** Right after a bump the synced file is the declared list. */
  lemma SyncedFileIsTheList(m: Manifest, version: string, sha: string)
    ensures Sync(Bump(m, version, sha)) == Bump(m, version, sha).supported
  {
    var next := Bump(m, version, sha);
    WithoutAbsent(next.supported[1..], next.current);
    assert next.supported == [next.current] + next.supported[1..];
    WithoutAppend([next.current], next.supported[1..], next.current);
  }

  /** A release build of a bumped checkout offers exactly the declared list. */
  lemma ReleaseBuildOffersTheList(m: Manifest, version: string, sha: string)
    ensures var next := Bump(m, version, sha);
            Offers(None, Some(next), Sync(next), version, None) == Ok(next.supported)
  {
    var next := Bump(m, version, sha);
    SyncedFileIsTheList(m, version, sha);
    WithoutAbsent(next.supported[1..], next.current);
  }

  /** A packaged build offers exactly the declared list, if and only if the base has no dash. */
  lemma PackagedBuildOffersTheListIff(m: Manifest, version: string, sha: string)
    ensures var next := Bump(m, version, sha);
            Offers(None, None, Sync(next), version, None) == Ok(next.supported) <==> '-' !in m.base
  {
    var next := Bump(m, version, sha);
    SyncedFileIsTheList(m, version, sha);
    WithoutAbsent(next.supported[1..], next.current);
    PackagedBase(m.base, version);
    var base := BeforeDash(next.current);
    assert base <= m.base;
    assert |EditionName(base, version)| - |base| == |EditionName(m.base, version)| - |m.base|;
  }

  lemma {:induction false} PackagedBase(base: string, version: string)
    ensures BeforeDash(EditionName(base, version)) == BeforeDash(base)
  {
    if base != [] && base[0] != '-' {
      PackagedBase(base[1..], version);
      assert EditionName(base, version)[1..] == EditionName(base[1..], version);
    }
  }

  /** The edition a build leads with: its own cohort, or the release's, under the base it builds for. */
  ghost function Lead(base: string, version: string, dev: Option<string>): string {
    match dev
    case Some(token) => base + "-dev." + token
    case None => if '-' in version then base + "-" + version else base
  }

  /**
   * Any build is refused exactly when its file is empty or is not the checkout's list;
   * else it leads with its own edition and offers the file's others after it, once.
   * The base is the one given, else the checkout's, else that of the file's first line.
   */
  lemma BuildOffersOrRefuses(
      override: Option<string>, manifest: Option<Manifest>, retained: seq<string>, version: string, dev: Option<string>,
      base: string)
    requires override.Some? ==> base == override.value
    requires override.None? && manifest.Some? ==> base == manifest.value.base
    requires override.None? && manifest.None? && retained != [] ==>
               '-' !in base && (base == retained[0] || base + "-" <= retained[0])
    ensures var r := Offers(override, manifest, retained, version, dev);
            && (r == Err(ListsNoEditions) <==> retained == [])
            && (r == Err(OutOfDate) <==>
                  && retained != [] && manifest.Some?
                  && retained != [manifest.value.current] + Without(manifest.value.supported, manifest.value.current))
            && (r.Ok? ==> r.value == [Lead(base, version, dev)] + Without(retained[1..], Lead(base, version, dev)))
  {
    hide Without;
    if retained != [] && override.None? && manifest.None? {
      BaseIsBeforeTheDash(retained[0], base);
    }
  }

  lemma {:induction false} BaseIsBeforeTheDash(name: string, base: string)
    requires '-' !in base && (base == name || base + "-" <= name)
    ensures BeforeDash(name) == base
  {
    if base == [] {
      assert name == [] || name[0] == '-';
    } else {
      assert name[0] == base[0] != '-';
      assert base[1..] == name[1..] || base[1..] + "-" <= name[1..] by {
        assert base + "-" <= name ==> (base + "-")[1..] <= name[1..];
        assert (base + "-")[1..] == base[1..] + "-";
      }
      BaseIsBeforeTheDash(name[1..], base[1..]);
    }
  }

  /** A dev build never claims the release it was cut from, unless it is named as one. */
  lemma DevBuildDropsTheRelease(m: Manifest, version: string, sha: string, token: string)
    requires '-' !in m.base && version != "dev." + token
    ensures var next := Bump(m, version, sha);
            var offered := Offers(None, Some(next), Sync(next), version, Some(token));
            && offered.Ok?
            && offered.value[0] == m.base + "-dev." + token
            && next.current !in offered.value
            && forall e :: e in offered.value[1..] <==> e in next.supported && e != next.current && e != offered.value[0]
  {
    var next := Bump(m, version, sha);
    var dev := m.base + "-dev." + token;
    SyncedFileIsTheList(m, version, sha);
    assert next.current !in next.supported[1..];
    assert dev[|m.base| + 1..] == "dev." + token && dev[|m.base|] == '-';
    if Prerelease(version) {
      assert EditionName(m.base, version)[|m.base| + 1..] == version;
    }
  }
}
