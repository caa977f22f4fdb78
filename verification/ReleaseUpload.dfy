/** Publishing distributions beside their checksums, retry after retry (scripts/release.py). */
module ReleaseUpload {
  import opened Wrappers
  import opened Texts

  /** What a release holds: asset names and their bytes. */
  type Assets = map<string, string>

  /** One build of the distributions: the bytes it made for each name. */
  type Build = string -> string

  /** The digest, as text. */
  type Hash = string -> string

  // ----- Checksum files


  predicate Word(w: string) {
    w != "" && forall i :: 0 <= i < |w| ==> !Space(w[i])
  }

  function ChecksumName(name: string): string {
    name + ".sha256"
  }

  function ChecksumText(digest: string, name: string): string {
    digest + "  " + name + "\n"
  }

  function TakeWord(s: string): string {
    if s == "" || Space(s[0]) then "" else [s[0]] + TakeWord(s[1..])
  }

  /** The first whitespace-separated word, if there is one. */
  function FirstWord(s: string): Option<string> {
    if s == "" then None else if Space(s[0]) then FirstWord(s[1..]) else Some(TakeWord(s))
  }

  lemma {:induction false} TakesTheWord(w: string, rest: string)
    requires (forall i :: 0 <= i < |w| ==> !Space(w[i])) && (rest == "" || Space(rest[0]))
    ensures TakeWord(w + rest) == w
  {
    if w == "" {
      assert w + rest == rest;
    } else {
      assert (w + rest)[1..] == w[1..] + rest;
      TakesTheWord(w[1..], rest);
    }
  }

  /** The first word stands after space alone and ends at space or the end; a text without one is all space. */
  lemma {:induction false} FirstWordIs(before: string, w: string, rest: string)
    requires Blank(before) && (w == "" ==> rest == "")
    requires (forall i :: 0 <= i < |w| ==> !Space(w[i])) && (rest == "" || Space(rest[0]))
    ensures FirstWord(before + w + rest) == if w == "" then None else Some(w)
  {
    if before == "" {
      assert before + w + rest == w + rest;
      if w != "" {
        TakesTheWord(w, rest);
      }
    } else {
      assert (before + w + rest)[1..] == before[1..] + w + rest;
      FirstWordIs(before[1..], w, rest);
    }
  }

  /** What a checksum file states reads back as its digest. */
  lemma ChecksumReadsBack(digest: string, name: string)
    requires Word(digest)
    ensures FirstWord(ChecksumText(digest, name)) == Some(digest)
  {
    var rest := "  " + name + "\n";
    assert ChecksumText(digest, name) == digest + rest;
    TakesTheWord(digest, rest);
  }

  lemma ChecksumNamesDiffer(a: string, b: string)
    ensures ChecksumName(a) == ChecksumName(b) <==> a == b
  {
    if ChecksumName(a) == ChecksumName(b) {
      assert a == ChecksumName(a)[..|a|] && b == ChecksumName(b)[..|b|];
    }
  }

  // ----- What an attempt uploads

  datatype Refused = Refused

  /** The missing half or halves of one distribution, or a refusal. */
  function DistributionUploads(hash: Hash, name: string, build: Build, present: Assets): Result<Assets, Refused> {
    var checksum := ChecksumName(name);
    if name in present && checksum in present then Ok(map[])
    else if name in present then Ok(map[checksum := ChecksumText(hash(present[name]), name)])
    else if checksum in present then
      if FirstWord(present[checksum]) == Some(hash(build(name))) then Ok(map[name := build(name)]) else Err(Refused)
    else Ok(map[name := build(name), checksum := ChecksumText(hash(build(name)), name)])
  }

  /** All the uploads of an attempt: one refusal refuses them all. */
  function Uploads(hash: Hash, names: seq<string>, build: Build, present: Assets): Result<Assets, Refused> {
    if names == [] then Ok(map[])
    else
      var before := Uploads(hash, names[..|names| - 1], build, present);
      var last := DistributionUploads(hash, names[|names| - 1], build, present);
      if before.Err? || last.Err? then Err(Refused) else Ok(before.value + last.value)
  }

  /** The names of a release's distributions: no two alike, none another's checksum. */
  ghost predicate GoodNames(names: seq<string>) {
    && (forall i, j :: 0 <= i < j < |names| ==> names[i] != names[j])
    && forall n, m :: n in names && m in names ==> n != ChecksumName(m)
  }

  /** The release has a checksum for `name` but no tarball, and the checksum is not this build's. */
  ghost predicate Mismatched(hash: Hash, name: string, build: Build, present: Assets) {
    var checksum := name + ".sha256";
    && name !in present && checksum in present
    && FirstWord(present[checksum]) != Some(hash(build(name)))
  }

  /** For `name`, exactly the missing halves are uploaded, derived from a published half where there is one. */
  ghost predicate Supplies(hash: Hash, name: string, build: Build, present: Assets, uploads: Assets) {
    var checksum := name + ".sha256";
    && (name in uploads <==> name !in present)
    && (name in uploads ==> uploads[name] == build(name))
    && (checksum in uploads <==> checksum !in present)
    && (checksum in uploads ==>
          uploads[checksum] == hash(if name in present then present[name] else build(name)) + "  " + name + "\n")
    && !Mismatched(hash, name, build, present)
  }

  /** The asset names of some distributions. */
  ghost function Halves(names: seq<string>): set<string> {
    (set n | n in names) + (set n | n in names :: ChecksumName(n))
  }

  /** An attempt is refused exactly when some orphan checksum is another build's; else it supplies every name. */
  lemma {:induction false} UploadsSupply(hash: Hash, names: seq<string>, build: Build, present: Assets)
    requires GoodNames(names)
    ensures var u := Uploads(hash, names, build, present);
            && (u.Err? <==> exists n :: n in names && Mismatched(hash, n, build, present))
            && (u.Ok? ==>
                  && u.value.Keys <= Halves(names)
                  && forall n :: n in names ==> Supplies(hash, n, build, present, u.value))
  {
    hide DistributionUploads, Mismatched, Supplies, Halves, GoodNames;
    if names != [] {
      var rest, last := names[..|names| - 1], names[|names| - 1];
      assert names == rest + [last];
      ApartFromTheRest(names);
      UploadsSupply(hash, rest, build, present);
      OneSupplies(hash, last, build, present);
      var before, one := Uploads(hash, rest, build, present), DistributionUploads(hash, last, build, present);
      if before.Ok? && one.Ok? {
        SuppliesBoth(hash, rest, last, build, present, before.value, one.value);
      }
    }
  }

  lemma SuppliesBoth(hash: Hash, rest: seq<string>, last: string, build: Build, present: Assets, before: Assets, one: Assets)
    requires Halves(rest) !! {last, ChecksumName(last)}
    requires before.Keys <= Halves(rest) && one.Keys <= {last, ChecksumName(last)}
    requires forall n :: n in rest ==> Supplies(hash, n, build, present, before)
    requires Supplies(hash, last, build, present, one)
    ensures forall n :: n in rest + [last] ==> Supplies(hash, n, build, present, before + one)
  {
    hide Supplies, Halves;
    assert before + one == one + before;
    SuppliesMerged(hash, last, build, present, one, before);
    forall n | n in rest ensures Supplies(hash, n, build, present, before + one) {
      HalvesOf(rest, n);
      SuppliesMerged(hash, n, build, present, before, one);
    }
  }

  lemma HalvesOf(names: seq<string>, n: string)
    requires n in names
    ensures n in Halves(names) && ChecksumName(n) in Halves(names)
  {
  }

  lemma ApartFromTheRest(names: seq<string>)
    requires GoodNames(names) && names != []
    ensures var rest, last := names[..|names| - 1], names[|names| - 1];
            && GoodNames(rest)
            && Halves(rest) !! {last, ChecksumName(last)}
            && Halves(names) == Halves(rest) + {last, ChecksumName(last)}
  {
    var rest, last := names[..|names| - 1], names[|names| - 1];
    assert names == rest + [last];
    assert last in names && last !in rest;
    forall n | n in rest ensures ChecksumName(n) != ChecksumName(last) && n != ChecksumName(last) && ChecksumName(n) != last {
      ChecksumNamesDiffer(n, last);
      assert n in names;
    }
  }

  lemma OneSupplies(hash: Hash, name: string, build: Build, present: Assets)
    ensures var u := DistributionUploads(hash, name, build, present);
            && (u.Err? <==> Mismatched(hash, name, build, present))
            && (u.Ok? ==> u.value.Keys <= {name, ChecksumName(name)} && Supplies(hash, name, build, present, u.value))
  {
    hide FirstWord;
  }

  /** Uploads that touch neither half of a distribution change nothing about its supply. */
  lemma SuppliesMerged(hash: Hash, name: string, build: Build, present: Assets, mine: Assets, others: Assets)
    requires Supplies(hash, name, build, present, mine) && name !in others && ChecksumName(name) !in others
    ensures Supplies(hash, name, build, present, mine + others)
  {
    hide FirstWord;
  }

  // ----- Attempts, interruptions and deletions

  /** Those uploads that arrived before any interruption. */
  function Landed(uploads: Assets, landed: set<string>): Assets {
    map k | k in uploads && k in landed :: uploads[k]
  }

  datatype Event =
    | Attempt(build: Build, created: bool, landed: set<string>)
    | DeleteOrphan(name: string)

  /** The release after an event; `None` until it has been created. */
  function Step(hash: Hash, names: seq<string>, release: Option<Assets>, event: Event): Option<Assets> {
    match event
    case Attempt(build, created, landed) => AfterAttempt(hash, names, release, build, created, landed)
    case DeleteOrphan(name) =>
      if release.Some? && name in names && name !in release.value then Some(release.value - {ChecksumName(name)}) else release
  }

  function AfterAttempt(
      hash: Hash, names: seq<string>, release: Option<Assets>, build: Build, created: bool, landed: set<string>)
    : Option<Assets>
  {
    if release.None? && !created then None
    else
      var present := if release.Some? then release.value else map[];
      match Uploads(hash, names, build, present)
      case Err(_) => release
      case Ok(uploads) => Some(present + Landed(uploads, landed))
  }

  function Run(hash: Hash, names: seq<string>, release: Option<Assets>, events: seq<Event>): Option<Assets> {
    if events == [] then release
    else Step(hash, names, Run(hash, names, release, events[..|events| - 1]), events[|events| - 1])
  }

  /** The release on the host, which only attempts and operators change. */
  class Release {
    var assets: Option<Assets>

    constructor ()
      ensures assets == None
    {
      assets := None;
    }

    /** Attach what is missing, or create the release; `landed` is what arrives. */
    method Attempt(hash: Hash, names: seq<string>, build: Build, created: bool, landed: set<string>) returns (refused: bool)
      modifies this
      ensures assets == AfterAttempt(hash, names, old(assets), build, created, landed)
      ensures refused <==> Uploads(hash, names, build, if old(assets).Some? then old(assets).value else map[]).Err?
      ensures refused ==> assets == old(assets)
    {
      var present := if assets.Some? then assets.value else map[];
      var uploads: Assets := map[];
      for i := 0 to |names|
        invariant assets == old(assets)
        invariant Uploads(hash, names[..i], build, present) == Ok(uploads)
      {
        assert names[..i + 1][..i] == names[..i];
        var one := DistributionUploads(hash, names[i], build, present);
        if one.Err? {
          RefusalStays(hash, names, i + 1, build, present);
          return true;
        }
        uploads := uploads + one.value;
      }
      assert names[..|names|] == names;
      refused := false;
      if assets.Some? || created {
        assets := Some(present + Landed(uploads, landed));
      }
    }
  }

  lemma {:induction false} RefusalStays(hash: Hash, names: seq<string>, i: nat, build: Build, present: Assets)
    requires i <= |names| && Uploads(hash, names[..i], build, present).Err?
    ensures Uploads(hash, names, build, present).Err?
    decreases |names| - i
  {
    if i < |names| {
      assert names[..i + 1][..i] == names[..i];
      RefusalStays(hash, names, i + 1, build, present);
    } else {
      assert names[..i] == names;
    }
  }

  // ----- Safety over every run

  /** Checksums are well formed, and describe the tarball beside them. */
  ghost predicate Consistent(hash: Hash, names: seq<string>, release: Option<Assets>) {
    release.Some? ==> forall n :: n in names ==> Describes(hash, n, release.value)
  }

  ghost predicate Describes(hash: Hash, name: string, present: Assets) {
    ChecksumName(name) in present ==>
      && (exists digest :: Word(digest) && present[ChecksumName(name)] == ChecksumText(digest, name))
      && (name in present ==> present[ChecksumName(name)] == ChecksumText(hash(present[name]), name))
  }

  ghost predicate HashesAreWords(hash: Hash) {
    forall bytes :: Word(hash(bytes))
  }

  /** One distribution after some of its uploads landed: its tarball is kept, its checksum describes it. */
  lemma LandingKeeps(hash: Hash, name: string, build: Build, present: Assets, uploads: Assets, landed: set<string>)
    requires HashesAreWords(hash) && Supplies(hash, name, build, present, uploads) && Describes(hash, name, present)
    ensures var after := present + Landed(uploads, landed);
            && Describes(hash, name, after)
            && (name in present ==> name in after && after[name] == present[name])
  {
    var checksum := ChecksumName(name);
    if name !in present && checksum in present {
      var digest :| Word(digest) && present[checksum] == ChecksumText(digest, name);
      ChecksumReadsBack(digest, name);
    }
    assert Word(hash(build(name)));
  }

  lemma StepKeeps(hash: Hash, names: seq<string>, release: Option<Assets>, event: Event)
    requires HashesAreWords(hash) && GoodNames(names) && Consistent(hash, names, release)
    ensures Consistent(hash, names, Step(hash, names, release, event))
    ensures release.Some? ==> Step(hash, names, release, event).Some?
    ensures forall n :: n in names && release.Some? && n in release.value ==>
                          var after := Step(hash, names, release, event).value;
                          n in after && after[n] == release.value[n]
  {
    hide Uploads, Supplies, Describes, ChecksumName;
    match event
    case Attempt(build, created, landed) =>
      var present := if release.Some? then release.value else map[];
      UploadsSupply(hash, names, build, present);
      var uploads := Uploads(hash, names, build, present);
      if uploads.Ok? && (release.Some? || created) {
        forall n | n in names
          ensures Describes(hash, n, present + Landed(uploads.value, landed))
          ensures n in present ==> var after := present + Landed(uploads.value, landed); n in after && after[n] == present[n]
        {
          NothingDescribes(hash, n);
          LandingKeeps(hash, n, build, present, uploads.value, landed);
        }
      }
    case DeleteOrphan(name) =>
      if release.Some? && name in names && name !in release.value {
        forall n | n in names ensures Describes(hash, n, release.value - {ChecksumName(name)}) {
          DeletionKeeps(hash, n, name, release.value);
        }
      }
  }

  lemma NothingDescribes(hash: Hash, name: string)
    ensures Describes(hash, name, map[])
  {
  }

  lemma DeletionKeeps(hash: Hash, n: string, name: string, present: Assets)
    requires Describes(hash, n, present)
    ensures Describes(hash, n, present - {ChecksumName(name)})
  {
  }

  /**
   * Over every sequence of retries, with any rebuilt bytes and any interruptions:
   * wherever tarball and checksum are both published, the checksum is the hash of
   * the published tarball, and a published tarball is never removed or replaced.
   */
  lemma {:induction false} UploadsAreSafe(hash: Hash, names: seq<string>, release: Option<Assets>, events: seq<Event>)
    requires HashesAreWords(hash) && GoodNames(names) && Consistent(hash, names, release)
    ensures var after := Run(hash, names, release, events);
            && Consistent(hash, names, after)
            && (release.Some? ==> after.Some?)
            && forall n :: n in names && release.Some? && n in release.value ==>
                             n in after.value && after.value[n] == release.value[n]
  {
    hide Step, Consistent;
    if events != [] {
      UploadsAreSafe(hash, names, release, events[..|events| - 1]);
      StepKeeps(hash, names, Run(hash, names, release, events[..|events| - 1]), events[|events| - 1]);
    }
  }

  /** Both halves of every distribution are published. */
  ghost predicate Complete(names: seq<string>, release: Option<Assets>) {
    release.Some? && forall n :: n in names ==> n in release.value && ChecksumName(n) in release.value
  }

  /** An attempt that is not refused and not interrupted leaves every distribution complete. */
  lemma FinishedAttemptCompletes(
      hash: Hash, names: seq<string>, release: Option<Assets>, build: Build, created: bool, landed: set<string>)
    requires GoodNames(names) && (release.Some? || created)
    requires var uploads := Uploads(hash, names, build, if release.Some? then release.value else map[]);
             uploads.Ok? && uploads.value.Keys <= landed
    ensures Complete(names, AfterAttempt(hash, names, release, build, created, landed))
  {
    UploadsSupply(hash, names, build, if release.Some? then release.value else map[]);
  }

  /** Once complete, no retry uploads anything and no event changes a thing. */
  lemma {:induction false} CompleteIsFinal(hash: Hash, names: seq<string>, release: Option<Assets>, events: seq<Event>)
    requires GoodNames(names) && Complete(names, release)
    ensures Run(hash, names, release, events) == release
    ensures forall build: Build :: Uploads(hash, names, build, release.value) == Ok(map[])
  {
    forall build: Build ensures Uploads(hash, names, build, release.value) == Ok(map[]) {
      UploadsSupply(hash, names, build, release.value);
    }
    if events != [] {
      CompleteIsFinal(hash, names, release, events[..|events| - 1]);
      var event := events[|events| - 1];
      if event.Attempt? {
        assert Landed(map[], event.landed) == map[];
        assert release.value + map[] == release.value;
      }
    }
  }

  /** Deleting the orphan checksums lifts any refusal, whatever the build. */
  lemma NoOrphanNoRefusal(hash: Hash, names: seq<string>, build: Build, present: Assets)
    requires GoodNames(names) && forall n :: n in names && n !in present ==> ChecksumName(n) !in present
    ensures Uploads(hash, names, build, present).Ok?
  {
    UploadsSupply(hash, names, build, present);
  }
}
