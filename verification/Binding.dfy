/**
 * Binding a sought role to an offered leaf
 * (crates/rlmesh-adapters/src/resolver.rs, `index_by_key`, `bind`, `check_provenance`).
 */
module Binding {
  import opened Wrappers
  import opened Sets
  import Texts

  /** The identity a leaf binds by, exactly as declared. */
  datatype LeafKey = LeafKey(role: string, part: Option<string>, provenance: Option<string>)

  datatype Offered<T> = Offered(key: LeafKey, leaf: T)

  datatype ErrorCode = Duplicate | MissingRole | Ambiguous | ProvenanceMismatch

  // ----- Indexing the offered leaves

  ghost predicate NoRepeats<T>(leaves: seq<Offered<T>>) {
    forall i, j :: 0 <= i < j < |leaves| ==> leaves[i].key != leaves[j].key
  }

  /** The map holds exactly the offered leaves. */
  ghost predicate Indexes<T>(m: map<LeafKey, T>, leaves: seq<Offered<T>>) {
    && (forall k :: k in m ==> Offered(k, m[k]) in leaves)
    && forall i :: 0 <= i < |leaves| ==> leaves[i].key in m && m[leaves[i].key] == leaves[i].leaf
  }

  method IndexByKey<T>(leaves: seq<Offered<T>>) returns (r: Result<map<LeafKey, T>, ErrorCode>)
    ensures r.Ok? <==> NoRepeats(leaves)
    ensures r.Ok? ==> Indexes(r.value, leaves)
    ensures r.Err? ==> r.error == Duplicate
  {
    var byKey: map<LeafKey, T> := map[];
    for i := 0 to |leaves|
      invariant NoRepeats(leaves[..i])
      invariant Indexes(byKey, leaves[..i])
    {
      var offered := leaves[i];
      if offered.key in byKey {
        assert Offered(offered.key, byKey[offered.key]) in leaves[..i];
        return Err(Duplicate);
      }
      forall j | 0 <= j < i ensures leaves[j].key != offered.key {
        assert Offered(leaves[j].key, leaves[j].leaf) in leaves[..i];
      }
      IndexOneMore(byKey, leaves, i);
      byKey := byKey[offered.key := offered.leaf];
    }
    assert leaves[..|leaves|] == leaves;
    return Ok(byKey);
  }

  lemma IndexOneMore<T>(m: map<LeafKey, T>, leaves: seq<Offered<T>>, i: nat)
    requires i < |leaves| && Indexes(m, leaves[..i]) && leaves[i].key !in m
    ensures Indexes(m[leaves[i].key := leaves[i].leaf], leaves[..i + 1])
  {
    assert leaves[..i + 1] == leaves[..i] + [leaves[i]];
  }

  /** What is indexed depends on which leaves are offered, not on their order. */
  lemma IndexIsUnique<T>(m: map<LeafKey, T>, n: map<LeafKey, T>, a: seq<Offered<T>>, b: seq<Offered<T>>)
    requires Indexes(m, a) && Indexes(n, b)
    requires (forall i :: 0 <= i < |a| ==> a[i] in b) && (forall i :: 0 <= i < |b| ==> b[i] in a)
    ensures m == n
  {
    forall k | k in m ensures k in n && n[k] == m[k] {
      var i :| 0 <= i < |a| && a[i] == Offered(k, m[k]);
      assert a[i] in b;
    }
    forall k | k in n ensures k in m {
      var i :| 0 <= i < |b| && b[i] == Offered(k, n[k]);
      assert b[i] in a;
    }
  }

  // ----- Binding

  /** The provenances a seeker accepts, in its own order of preference. */
  type AcceptSet = seq<string>

  datatype Bound = Bound(key: LeafKey, infos: nat)

  type BindResult = Result<Option<Bound>, ErrorCode>

  /** The candidates under one role and part. */
  function UnderPart<T>(m: map<LeafKey, T>, role: string, part: Option<string>): set<LeafKey> {
    set k | k in m && k.role == role && k.part == part
  }

  /** The parts a role is offered under. */
  function PartsOf<T>(m: map<LeafKey, T>, role: string): set<string> {
    set k | k in m && k.role == role && k.part.Some? :: k.part.value
  }

  /** The first accepted provenance that a candidate declares. */
  function FirstAccepted(candidates: set<LeafKey>, role: string, part: Option<string>, accepts: AcceptSet): (k: Option<LeafKey>)
    ensures k.Some? ==> k.value in candidates
  {
    if accepts == [] then None
    else if LeafKey(role, part, Some(accepts[0])) in candidates then Some(LeafKey(role, part, Some(accepts[0])))
    else FirstAccepted(candidates, role, part, accepts[1..])
  }

  /** The provenance rule: a preferred leaf, the only leaf, or an error. */
  ghost function Choose(
      candidates: set<LeafKey>, role: string, part: Option<string>, accepts: Option<AcceptSet>, infos: nat): BindResult
    requires candidates != {}
  {
    var preferred := if accepts.Some? then FirstAccepted(candidates, role, part, accepts.value) else None;
    if preferred.Some? then Ok(Some(Bound(preferred.value, infos)))
    else if |candidates| == 1 then Ok(Some(Bound(Pick(candidates), infos)))
    else Err(if accepts.Some? then ProvenanceMismatch else Ambiguous)
  }

  /** The part rule, then the provenance rule. */
  ghost function Bind<T>(m: map<LeafKey, T>, role: string, part: Option<string>, accepts: Option<AcceptSet>): BindResult {
    var candidates := UnderPart(m, role, part);
    if candidates != {} then Choose(candidates, role, part, accepts, 0)
    else if part.Some? || PartsOf(m, role) == {} then Ok(None)
    else if |PartsOf(m, role)| == 1 then
      var only := Some(Pick(PartsOf(m, role)));
      var k :| k in m && k.role == role && k.part == only;
      assert k in UnderPart(m, role, only);
      Choose(UnderPart(m, role, only), role, only, accepts, 1)
    else Err(MissingRole)
  }

  // ----- What a bind decides

  /** The candidates a seeker's part rule settles on, if it settles. */
  ghost predicate Settles<T>(m: map<LeafKey, T>, role: string, part: Option<string>, under: Option<string>) {
    && (exists k :: k in m && k.role == role && k.part == under)
    && (part.Some? ==> under == part)
    && (part.None? && under.Some? ==> forall k :: k in m && k.role == role ==> k.part == under)
  }

  lemma SingletonPick<X>(s: set<X>, x: X)
    requires |s| == 1 && x in s
    ensures s == {x} && Pick(s) == x
  {
    var y := Pick(s);
    if s != {x} {
      var z :| z in s && z != x;
      SubsetSize({x, z}, s);
    }
  }

  lemma SingletonIff<X>(s: set<X>)
    ensures |s| == 1 <==> s != {} && forall x, y :: x in s && y in s ==> x == y
  {
    if |s| == 1 {
      var p := Pick(s);
      forall x, y | x in s && y in s ensures x == y {
        SingletonPick(s, x);
      }
    } else if s != {} {
      var p := Pick(s);
      assert s != {p};
      var q :| q in s && q != p;
    }
  }

  lemma {:induction false} FirstAcceptedIsFirst(candidates: set<LeafKey>, role: string, part: Option<string>, accepts: AcceptSet)
    ensures var k := FirstAccepted(candidates, role, part, accepts);
            && (k.None? <==> forall i :: 0 <= i < |accepts| ==> LeafKey(role, part, Some(accepts[i])) !in candidates)
            && (k.Some? ==> Preferred(candidates, role, part, accepts, k.value))
  {
    if accepts != [] && LeafKey(role, part, Some(accepts[0])) !in candidates {
      FirstAcceptedIsFirst(candidates, role, part, accepts[1..]);
      var k := FirstAccepted(candidates, role, part, accepts);
      if k.Some? {
        var i :| 0 <= i < |accepts[1..]| && IsFirst(candidates, role, part, accepts[1..], i, k.value);
        assert IsFirst(candidates, role, part, accepts, i + 1, k.value);
      } else {
        forall i | 0 <= i < |accepts| ensures LeafKey(role, part, Some(accepts[i])) !in candidates {
          if i > 0 {
            assert accepts[i] == accepts[1..][i - 1];
          }
        }
      }
    } else if accepts != [] {
      assert IsFirst(candidates, role, part, accepts, 0, LeafKey(role, part, Some(accepts[0])));
    }
  }

  /** The key carries the i-th accepted provenance, and no candidate carries an earlier one. */
  ghost predicate IsFirst(
      candidates: set<LeafKey>, role: string, part: Option<string>, accepts: AcceptSet, i: nat, key: LeafKey)
    requires i < |accepts|
  {
    && key == LeafKey(role, part, Some(accepts[i]))
    && forall j :: 0 <= j < i ==> LeafKey(role, part, Some(accepts[j])) !in candidates
  }

  /** The key carries the accepted provenance preferred among the candidates'. */
  ghost predicate Preferred(
      candidates: set<LeafKey>, role: string, part: Option<string>, accepts: AcceptSet, key: LeafKey)
  {
    exists i :: 0 <= i < |accepts| && IsFirst(candidates, role, part, accepts, i, key)
  }

  /** What choosing among candidates of one role and part comes to. */
  lemma ChooseDecides(
      candidates: set<LeafKey>, role: string, part: Option<string>, accepts: Option<AcceptSet>, infos: nat)
    requires candidates != {} && forall k :: k in candidates ==> k.role == role && k.part == part
    ensures var r := Choose(candidates, role, part, accepts, infos);
            && (r.Ok? ==> r.value.Some? && r.value.value.infos == infos && r.value.value.key in candidates)
            && (r.Ok? ==> var key := r.value.value.key;
                  || (forall k :: k in candidates ==> k == key)
                  || (accepts.Some? && Preferred(candidates, role, part, accepts.value, key)))
            && (r.Err? <==>
                  && !(forall k, l :: k in candidates && l in candidates ==> k == l)
                  && (accepts.Some? ==> forall k :: k in candidates ==> !(k.provenance.Some? && k.provenance.value in accepts.value)))
            && (r.Err? ==> r.error == if accepts.Some? then ProvenanceMismatch else Ambiguous)
  {
    SingletonIff(candidates);
    if accepts.Some? {
      FirstAcceptedIsFirst(candidates, role, part, accepts.value);
      if FirstAccepted(candidates, role, part, accepts.value).Some? {
        var i :| 0 <= i < |accepts.value| && IsFirst(candidates, role, part, accepts.value, i, FirstAccepted(candidates, role, part, accepts.value).value);
        assert LeafKey(role, part, Some(accepts.value[i])) in candidates;
      } else {
        forall k, i | k in candidates && 0 <= i < |accepts.value| ensures k.provenance != Some(accepts.value[i]) {
          assert LeafKey(role, part, Some(accepts.value[i])) !in candidates;
        }
      }
    }
  }

  /** Leaves of the role are offered, but under several parts and none without one. */
  ghost predicate SeveralParts<T>(m: map<LeafKey, T>, role: string) {
    && (forall k :: k in m && k.role == role ==> k.part.Some?)
    && exists k, l :: k in m && l in m && k.role == role && l.role == role && k.part != l.part
  }

  /** The bind is decided by the provenance rule among the leaves of one part. */
  ghost predicate DecidedUnder<T>(
      m: map<LeafKey, T>, role: string, part: Option<string>, accepts: Option<AcceptSet>, under: Option<string>)
  {
    && Settles(m, role, part, under)
    && UnderPart(m, role, under) != {}
    && Bind(m, role, part, accepts)
       == Choose(UnderPart(m, role, under), role, under, accepts, if part != under then 1 else 0)
  }

  /** The part rule settles, finds nothing, or finds several parts; it never picks between parts. */
  lemma PartRule<T>(m: map<LeafKey, T>, role: string, part: Option<string>, accepts: Option<AcceptSet>)
    ensures var r := Bind(m, role, part, accepts);
            || (r == Ok(None) && forall k :: k in m && k.role == role ==> part.Some? && k.part != part)
            || (r == Err(MissingRole) && part.None? && SeveralParts(m, role))
            || exists under :: DecidedUnder(m, role, part, accepts, under)
  {
    var candidates := UnderPart(m, role, part);
    if candidates != {} {
      var k := Pick(candidates);
      assert DecidedUnder(m, role, part, accepts, part);
    } else if part.None? && PartsOf(m, role) != {} {
      NoPartRule(m, role, accepts);
    } else {
      forall k | k in m && k.role == role ensures part.Some? && k.part != part {
        assert k !in candidates && (k.part.Some? ==> k.part.value in PartsOf(m, role));
      }
    }
  }

  lemma NoPartRule<T>(m: map<LeafKey, T>, role: string, accepts: Option<AcceptSet>)
    requires UnderPart(m, role, None) == {} && PartsOf(m, role) != {}
    ensures var r := Bind(m, role, None, accepts);
            || (r == Err(MissingRole) && SeveralParts(m, role))
            || exists under :: DecidedUnder(m, role, None, accepts, under)
  {
    var parts := PartsOf(m, role);
    SingletonIff(parts);
    forall k | k in m && k.role == role ensures k.part.Some? && k.part.value in parts {
      assert k !in UnderPart(m, role, None);
    }
    var p := Pick(parts);
    var k :| k in m && k.role == role && k.part == Some(p);
    if |parts| == 1 {
      assert k in UnderPart(m, role, Some(p));
      assert DecidedUnder(m, role, None, accepts, Some(p));
    } else {
      var x, y :| x in parts && y in parts && x != y;
      var kx :| kx in m && kx.role == role && kx.part == Some(x);
      var ky :| ky in m && ky.role == role && ky.part == Some(y);
    }
  }

  /**
   * A bound leaf is never a guess: it has the sought role and any named part; if
   * the seeker named no part, either the leaf has none or every leaf of the role
   * has its part, with exactly one note; and it is the only leaf under that role
   * and part, or carries the accepted provenance the seeker prefers among those
   * offered there.
   */
  lemma BindNeverGuesses<T>(m: map<LeafKey, T>, role: string, part: Option<string>, accepts: Option<AcceptSet>)
    requires Bind(m, role, part, accepts).Ok? && Bind(m, role, part, accepts).value.Some?
    ensures var bound := Bind(m, role, part, accepts).value.value;
            var key := bound.key;
            && key in m && key.role == role
            && (part.Some? ==> key.part == part)
            && (part.None? && key.part.Some? ==> forall k :: k in m && k.role == role ==> k.part == key.part)
            && bound.infos == (if key.part != part then 1 else 0)
            && (|| (forall k :: k in m && k.role == role && k.part == key.part ==> k == key)
                || (accepts.Some? && Preferred(UnderPart(m, role, key.part), role, key.part, accepts.value, key)))
  {
    hide Bind, Choose, Preferred;
    PartRule(m, role, part, accepts);
    var under :| DecidedUnder(m, role, part, accepts, under);
    ChooseDecides(UnderPart(m, role, under), role, under, accepts, if part != under then 1 else 0);
    var key := Bind(m, role, part, accepts).value.value.key;
    if forall k :: k in UnderPart(m, role, under) ==> k == key {
      forall k | k in m && k.role == role && k.part == key.part ensures k == key {
        assert k in UnderPart(m, role, under);
      }
    }
  }

  /** Nothing binds exactly when the role, under any named part, is not offered at all. */
  lemma BindFindsNothingIff<T>(m: map<LeafKey, T>, role: string, part: Option<string>, accepts: Option<AcceptSet>)
    ensures Bind(m, role, part, accepts) == Ok(None)
            <==> forall k :: k in m && k.role == role ==> part.Some? && k.part != part
  {
    hide Bind, Choose;
    PartRule(m, role, part, accepts);
    if under :| DecidedUnder(m, role, part, accepts, under) {
      ChooseDecides(UnderPart(m, role, under), role, under, accepts, if part != under then 1 else 0);
    }
  }

  /** Several leaves under one role and part, none with an accepted provenance. */
  ghost predicate Contested<T>(m: map<LeafKey, T>, role: string, under: Option<string>, accepts: Option<AcceptSet>) {
    && (exists k, l :: k in m && l in m && k.role == role && l.role == role && k.part == under && l.part == under && k != l)
    && (accepts.Some? ==>
          forall k :: k in m && k.role == role && k.part == under ==>
            !(k.provenance.Some? && k.provenance.value in accepts.value))
  }

  lemma ContestedIff<T>(m: map<LeafKey, T>, role: string, under: Option<string>, accepts: Option<AcceptSet>, infos: nat)
    requires UnderPart(m, role, under) != {}
    ensures var r := Choose(UnderPart(m, role, under), role, under, accepts, infos);
            && (r.Err? <==> Contested(m, role, under, accepts))
            && (r.Err? ==> r.error == if accepts.Some? then ProvenanceMismatch else Ambiguous)
            && r != Ok(None)
  {
    hide Choose;
    ChooseDecides(UnderPart(m, role, under), role, under, accepts, infos);
    assert forall k :: k in m && k.role == role && k.part == under <==> k in UnderPart(m, role, under);
  }

  /**
   * A bind is refused exactly when the role is offered under several parts and the
   * seeker names none, or the part it settles on holds several leaves of the role
   * and none carries an accepted provenance.
   */
  lemma BindRefusesIff<T>(m: map<LeafKey, T>, role: string, part: Option<string>, accepts: Option<AcceptSet>)
    ensures Bind(m, role, part, accepts) == Err(MissingRole) <==> part.None? && SeveralParts(m, role)
    ensures Bind(m, role, part, accepts) == Err(if accepts.Some? then ProvenanceMismatch else Ambiguous)
            <==> exists under :: Settles(m, role, part, under) && Contested(m, role, under, accepts)
    ensures Bind(m, role, part, accepts).Err? ==>
              Bind(m, role, part, accepts).error in {MissingRole, if accepts.Some? then ProvenanceMismatch else Ambiguous}
  {
    hide Bind, Choose, Contested;
    PartRule(m, role, part, accepts);
    if under :| DecidedUnder(m, role, part, accepts, under) {
      ContestedIff(m, role, under, accepts, if part != under then 1 else 0);
      assert forall other :: Settles(m, role, part, other) ==> other == under;
    }
  }

  /** A bind depends on the offered leaves of its own role alone. */
  lemma BindIgnoresOtherRoles<T, U>(
      m: map<LeafKey, T>, n: map<LeafKey, U>, role: string, part: Option<string>, accepts: Option<AcceptSet>)
    requires forall k: LeafKey :: k.role == role ==> (k in m <==> k in n)
    ensures Bind(m, role, part, accepts) == Bind(n, role, part, accepts)
  {
    hide Choose;
    assert forall p :: UnderPart(m, role, p) == UnderPart(n, role, p);
    assert PartsOf(m, role) == PartsOf(n, role);
  }

  lemma Together<X>(s: seq<X>, x: X, y: X) returns (i: nat, j: nat)
    requires multiset{x, y} <= multiset(s)
    ensures i < |s| && j < |s| && i != j && s[i] == x && s[j] == y
  {
    assert x in multiset(s);
    i :| 0 <= i < |s| && s[i] == x;
    var rest := s[..i] + s[i + 1..];
    assert s == s[..i] + [x] + s[i + 1..];
    assert multiset(s) == multiset(rest) + multiset{x};
    assert y in multiset(rest);
    var k :| 0 <= k < |rest| && rest[k] == y;
    j := if k < i then k else k + 1;
  }

  lemma RepeatsMove<T>(a: seq<Offered<T>>, b: seq<Offered<T>>)
    requires multiset(a) == multiset(b) && NoRepeats(a)
    ensures NoRepeats(b)
  {
    forall i, j | 0 <= i < j < |b| ensures b[i].key != b[j].key {
      assert b == b[..i] + [b[i]] + b[i + 1..j] + [b[j]] + b[j + 1..];
      var k, l := Together(a, b[i], b[j]);
      assert k < l || l < k;
    }
  }

  /** Permuted declarations are refused alike. */
  lemma RefusalIgnoresOrder<T>(a: seq<Offered<T>>, b: seq<Offered<T>>)
    requires multiset(a) == multiset(b)
    ensures NoRepeats(a) <==> NoRepeats(b)
  {
    if NoRepeats(a) {
      RepeatsMove(a, b);
    } else if NoRepeats(b) {
      RepeatsMove(b, a);
    }
  }

  /** Declaration order does not matter: permuted declarations index and bind alike. */
  lemma BindIgnoresOrder<T>(
      a: seq<Offered<T>>, b: seq<Offered<T>>, m: map<LeafKey, T>, n: map<LeafKey, T>,
      role: string, part: Option<string>, accepts: Option<AcceptSet>)
    requires multiset(a) == multiset(b) && Indexes(m, a) && Indexes(n, b)
    ensures m == n && Bind(m, role, part, accepts) == Bind(n, role, part, accepts)
  {
    forall i | 0 <= i < |a| ensures a[i] in b {
      assert a[i] in multiset(a);
    }
    forall i | 0 <= i < |b| ensures b[i] in a {
      assert b[i] in multiset(b);
    }
    IndexIsUnique(m, n, a, b);
  }

  // ----- Provenance

  predicate Recognized(name: string) {
    name == "sensed" || name == "estimated" || name == "privileged"
  }

  function Joined(names: seq<string>): string {
    if |names| <= 1 then (if names == [] then "" else names[0]) else names[0] + "|" + Joined(names[1..])
  }

  datatype Checked = Checked(recorded: Option<string>, cautions: nat)

  /** The provenance table: agreement and env-only are silent, model-only is one caution. */
  function CheckProvenance(env: Option<string>, accepts: Option<AcceptSet>): Result<Checked, ErrorCode> {
    if env.Some? && !Recognized(env.value) then Err(ProvenanceMismatch)
    else if accepts.Some? && (forall i :: 0 <= i < |accepts.value| ==> !Recognized(accepts.value[i])) then Err(ProvenanceMismatch)
    else
      match (env, accepts)
      case (None, None) => Ok(Checked(None, 0))
      case (Some(_), None) => Ok(Checked(env, 0))
      case (None, Some(names)) => Ok(Checked(Some(Joined(names)), 1))
      case (Some(v), Some(names)) => if v in names then Ok(Checked(env, 0)) else Err(ProvenanceMismatch)
  }

  /**
   * Bound and checked against a declared accept set, success means the env's
   * provenance is one of the accepted ones, silently, or that it declares none and
   * was the only leaf there, with exactly one caution.
   */
  lemma BoundAndCheckedIsAccepted<T>(m: map<LeafKey, T>, role: string, part: Option<string>, names: AcceptSet)
    requires Bind(m, role, part, Some(names)).Ok? && Bind(m, role, part, Some(names)).value.Some?
    requires CheckProvenance(Bind(m, role, part, Some(names)).value.value.key.provenance, Some(names)).Ok?
    ensures var key := Bind(m, role, part, Some(names)).value.value.key;
            var checked := CheckProvenance(key.provenance, Some(names)).value;
            || (key.provenance.Some? && key.provenance.value in names && Recognized(key.provenance.value)
                && checked == Checked(key.provenance, 0))
            || (key.provenance.None? && checked.cautions == 1
                && forall k :: k in m && k.role == role && k.part == key.part ==> k == key)
  {
    hide Bind;
    BindNeverGuesses(m, role, part, Some(names));
  }

  /** The check refuses exactly what it cannot name or what disagrees. */
  lemma CheckRefusesIff(env: Option<string>, accepts: Option<AcceptSet>)
    ensures CheckProvenance(env, accepts).Err? <==>
              || (env.Some? && env.value !in {"sensed", "estimated", "privileged"})
              || (accepts.Some? && forall name :: name in accepts.value ==> name !in {"sensed", "estimated", "privileged"})
              || (env.Some? && accepts.Some? && env.value !in accepts.value)
  {
    hide Joined;
    assert forall name :: Recognized(name) <==> name in {"sensed", "estimated", "privileged"};
    if accepts.Some? {
      assert (forall i :: 0 <= i < |accepts.value| ==> !Recognized(accepts.value[i]))
          <==> forall name :: name in accepts.value ==> !Recognized(name);
    }
  }

  lemma {:induction false} JoinedSplitsBack(names: seq<string>)
    requires names != [] && forall i :: 0 <= i < |names| ==> '|' !in names[i]
    ensures Texts.SplitOn(Joined(names), '|') == names
  {
    if |names| == 1 {
      Texts.SplitNone(names[0], '|');
      assert names == [names[0]];
    } else {
      JoinedSplitsBack(names[1..]);
      Texts.SplitAt(names[0], '|', Joined(names[1..]));
      assert names[0] + "|" + Joined(names[1..]) == names[0] + ['|'] + Joined(names[1..]);
    }
  }

  /** What passes is recorded as the env declares it, silently; else as all that was accepted, with one caution. */
  lemma CheckRecords(env: Option<string>, accepts: Option<AcceptSet>)
    requires CheckProvenance(env, accepts).Ok?
    ensures var checked := CheckProvenance(env, accepts).value;
            if env.Some? || accepts.None? then checked == Checked(env, 0)
            else
              && checked.cautions == 1 && checked.recorded.Some?
              && ((forall i :: 0 <= i < |accepts.value| ==> '|' !in accepts.value[i]) ==>
                    Texts.SplitOn(checked.recorded.value, '|') == accepts.value)
  {
    hide Texts.SplitOn;
    if env.None? && accepts.Some? && forall i :: 0 <= i < |accepts.value| ==> '|' !in accepts.value[i] {
      JoinedSplitsBack(accepts.value);
    }
  }
}
