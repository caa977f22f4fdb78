/**
 * The largest elementwise drift between two model actions
 * (crates/rlmesh-adapters/src/stateful.rs, `value_max_abs_diff`), over exact reals.
 */
module ValueDiff {
  import opened Wrappers
  import opened Reals
  import opened Sets
  import opened Tensors
  import opened Values

  /** The drifts of the parts of two values, by position or key; None where a part does not line up. */
  type Parts<!K> = map<K, Option<real>>

  /** `w` is the greatest of the drifts, zero for none, and undefined if one of them is. */
  ghost predicate IsWorst<K>(parts: Parts<K>, w: Option<real>) {
    match w
    case None => exists k :: k in parts && parts[k].None?
    case Some(x) =>
      && 0.0 <= x
      && (x == 0.0 || exists k :: k in parts && parts[k] == w)
      && forall k :: k in parts ==> parts[k].Some? && parts[k].value <= x
  }

  ghost function Worst<K>(parts: Parts<K>): (w: Option<real>)
    ensures IsWorst(parts, w)
    decreases |parts|
  {
    if parts == map[] then Some(0.0)
    else
      var k :| k in parts;
      var rest := parts - {k};
      assert rest.Keys == parts.Keys - {k};
      assert forall l :: l in parts ==> l == k || (l in rest && rest[l] == parts[l]);
      var w := Worst(rest);
      if w.None? || parts[k].None? then None else Some(Max(w.value, parts[k].value))
  }

  lemma WorstIsUnique<K>(parts: Parts<K>, v: Option<real>, w: Option<real>)
    requires IsWorst(parts, v) && IsWorst(parts, w)
    ensures v == w
  {
  }

  function Elements(a: seq<real>, b: seq<real>): Parts<int>
    requires |a| == |b|
  {
    map i | 0 <= i < |a| :: Some(Abs(a[i] - b[i]))
  }

  /** What the drift of two values is, by structure. */
  ghost function Drift(a: Value, b: Value): Option<real>
    decreases a, 1
  {
    match (a, b)
    case (Dense(s), Dense(t)) => if s.shape == t.shape then Worst(Elements(s.data, t.data)) else None
    case (Null, Null) => Some(0.0)
    case (Boolean(p), Boolean(q)) => Some(if p == q then 0.0 else 1.0)
    case (Integer(m), Integer(n)) => Some(Abs((m - n) as real))
    case (Number(x), Number(y)) => Some(Abs(x - y))
    case (List(xs), List(ys)) => if |xs| == |ys| then Worst(ItemParts(a, b)) else None
    case (Tuple(xs), Tuple(ys)) => if |xs| == |ys| then Worst(ItemParts(a, b)) else None
    case (Map(m), Map(n)) => if |m| == |n| then Worst(FieldParts(a, b)) else None
    case _ => None
  }

  ghost function ItemParts(a: Value, b: Value): Parts<int>
    requires (a.List? && b.List?) || (a.Tuple? && b.Tuple?)
    requires |a.items| == |b.items|
    decreases a, 0
  {
    map i | 0 <= i < |a.items| :: Drift(a.items[i], b.items[i])
  }

  ghost function FieldParts(a: Value, b: Value): Parts<string>
    requires a.Map? && b.Map?
    decreases a, 0
  {
    map k | k in a.fields :: if k in b.fields then Drift(a.fields[k], b.fields[k]) else None
  }

  /** A number as a tensor of one element; a flag is 0 or 1. */
  ghost predicate Holds(t: Tensor, a: Value) {
    && t.shape == []
    && match a
       case Boolean(flag) => t.data == [if flag then 1.0 else 0.0]
       case Integer(whole) => t.data == [whole as real]
       case Number(number) => t.data == [number]
       case _ => false
  }

  /** Scalars of one kind drift as far as the tensors that hold them. */
  lemma ScalarsDriftAsTensors(a: Value, b: Value, s: Tensor, t: Tensor)
    requires Holds(s, a) && Holds(t, b)
    requires (a.Boolean? && b.Boolean?) || (a.Integer? && b.Integer?) || (a.Number? && b.Number?)
    ensures Drift(a, b) == Drift(Dense(s), Dense(t))
  {
    var parts := Elements(s.data, t.data);
    assert 0 in parts;
    assert IsWorst(parts, Drift(a, b));
    WorstIsUnique(parts, Worst(parts), Drift(a, b));
  }

  /** The drift of tensors of one shape is the greatest distance of two elements at one place; of others there is none. */
  lemma TensorDrift(s: Tensor, t: Tensor)
    ensures Drift(Dense(s), Dense(t)).Some? <==> s.shape == t.shape
    ensures s.shape == t.shape ==>
              var d := Drift(Dense(s), Dense(t)).value;
              && |s.data| == |t.data|
              && (forall i :: 0 <= i < |s.data| ==> -d <= s.data[i] - t.data[i] <= d)
              && (d == 0.0 || exists i :: 0 <= i < |s.data| && (s.data[i] - t.data[i] == d || t.data[i] - s.data[i] == d))
  {
    if s.shape == t.shape {
      var parts := Elements(s.data, t.data);
      var d := Worst(parts).value;
      forall i | 0 <= i < |s.data| ensures -d <= s.data[i] - t.data[i] <= d {
        assert i in parts && parts[i].value <= d;
      }
      if d != 0.0 {
        var i :| i in parts && parts[i] == Some(d);
        assert s.data[i] - t.data[i] == d || t.data[i] - s.data[i] == d;
      }
    }
  }

  /** Lists, or tuples, drift by their worst item: defined where they are as long as each other and every item's is. */
  lemma ItemsDrift(a: Value, b: Value)
    requires (a.List? && b.List?) || (a.Tuple? && b.Tuple?)
    ensures Drift(a, b).Some? <==>
              |a.items| == |b.items| && forall i :: 0 <= i < |a.items| ==> Drift(a.items[i], b.items[i]).Some?
    ensures Drift(a, b).Some? ==>
              && (forall i :: 0 <= i < |a.items| ==> Drift(a.items[i], b.items[i]).value <= Drift(a, b).value)
              && (Drift(a, b) == Some(0.0) || exists i :: 0 <= i < |a.items| && Drift(a.items[i], b.items[i]) == Drift(a, b))
  {
    if |a.items| == |b.items| {
      var parts := ItemParts(a, b);
      assert forall i :: 0 <= i < |a.items| ==> i in parts && parts[i] == Drift(a.items[i], b.items[i]);
      assert IsWorst(parts, Drift(a, b));
    }
  }

  lemma FieldPartsAre(a: Value, b: Value)
    requires a.Map? && b.Map? && |a.fields| == |b.fields|
    ensures IsWorst(FieldParts(a, b), Drift(a, b)) && FieldParts(a, b).Keys == a.fields.Keys
    ensures forall k :: k in a.fields ==>
              FieldParts(a, b)[k] == if k in b.fields then Drift(a.fields[k], b.fields[k]) else None
  {
  }

  /** Maps drift by their worst field: defined where they have the same keys and every field's is. */
  lemma FieldsDrift(a: Value, b: Value)
    requires a.Map? && b.Map?
    ensures Drift(a, b).Some? <==>
              a.fields.Keys == b.fields.Keys && forall k :: k in a.fields ==> Drift(a.fields[k], b.fields[k]).Some?
    ensures Drift(a, b).Some? ==>
              && (forall k :: k in a.fields ==> Drift(a.fields[k], b.fields[k]).value <= Drift(a, b).value)
              && (Drift(a, b) == Some(0.0) || exists k :: k in a.fields && Drift(a.fields[k], b.fields[k]) == Drift(a, b))
  {
    hide FieldParts, Worst;
    var m, n := a.fields, b.fields;
    if m.Keys == n.Keys {
      assert |m.Keys| == |n.Keys|;
      FieldPartsAre(a, b);
    } else if |m| == |n| {
      FieldPartsAre(a, b);
      if m.Keys <= n.Keys {
        SameKeys(m, n);
      }
      var k :| k in m && k !in n;
      assert FieldParts(a, b)[k].None?;
    }
  }

  /** Nothing else lines up: text and bytes never do, and values of two kinds do not. */
  lemma OnlyAlikeDrift(a: Value, b: Value)
    requires Drift(a, b).Some?
    ensures || (a.Null? && b.Null? && Drift(a, b) == Some(0.0)) || (a.Boolean? && b.Boolean?) || (a.Integer? && b.Integer?)
            || (a.Number? && b.Number?) || (a.Dense? && b.Dense?) || (a.List? && b.List?)
            || (a.Tuple? && b.Tuple?) || (a.Map? && b.Map?)
  {
  }

  /** Maps that line up have the same keys, though only one side's keys are looked up. */
  lemma SameKeys(m: map<string, Value>, n: map<string, Value>)
    requires |m| == |n| && m.Keys <= n.Keys
    ensures m.Keys == n.Keys
  {
    if k :| k in n.Keys && k !in m.Keys {
      SubsetSize(m.Keys, n.Keys - {k});
    }
  }

  /** Definedness and value are symmetric. */
  lemma {:induction false} DriftSymmetric(a: Value, b: Value)
    ensures Drift(a, b) == Drift(b, a)
    decreases a, 1
  {
    hide ItemParts, FieldParts, Worst, Elements;
    match (a, b) {
      case (Dense(s), Dense(t)) =>
        if s.shape == t.shape { ElementsSymmetric(s.data, t.data); }
      case (List(xs), List(ys)) =>
        if |xs| == |ys| { ItemPartsSymmetric(a, b); }
      case (Tuple(xs), Tuple(ys)) =>
        if |xs| == |ys| { ItemPartsSymmetric(a, b); }
      case (Map(m), Map(n)) =>
        FieldPartsSymmetric(a, b);
      case _ =>
    }
  }

  lemma ElementsSymmetric(a: seq<real>, b: seq<real>)
    requires |a| == |b|
    ensures Elements(a, b) == Elements(b, a)
  {
  }

  lemma {:induction false} ItemPartsSymmetric(a: Value, b: Value)
    requires (a.List? && b.List?) || (a.Tuple? && b.Tuple?)
    requires |a.items| == |b.items|
    ensures ItemParts(a, b) == ItemParts(b, a)
    decreases a, 0
  {
    forall i | 0 <= i < |a.items| ensures ItemParts(a, b)[i] == ItemParts(b, a)[i] {
      DriftSymmetric(a.items[i], b.items[i]);
    }
  }

  lemma {:induction false} FieldPartsSymmetric(a: Value, b: Value)
    requires a.Map? && b.Map?
    ensures Drift(a, b) == Drift(b, a)
    decreases a, 0
  {
    var m, n := a.fields, b.fields;
    if |m| == |n| {
      if m.Keys == n.Keys {
        forall k | k in m ensures FieldParts(a, b)[k] == FieldParts(b, a)[k] {
          DriftSymmetric(m[k], n[k]);
        }
        assert FieldParts(a, b) == FieldParts(b, a);
      } else {
        if m.Keys <= n.Keys { SameKeys(m, n); }
        if n.Keys <= m.Keys { SameKeys(n, m); }
        var k :| k in m && k !in n;
        var l :| l in n && l !in m;
        assert FieldParts(a, b)[k].None? && FieldParts(b, a)[l].None?;
      }
    }
  }

  /** Whatever lines up with anything has no drift from itself. */
  lemma {:induction false} DriftFromSelf(a: Value, b: Value)
    requires Drift(a, b).Some?
    ensures Drift(a, a) == Some(0.0)
    decreases a
  {
    match a {
      case List(xs) =>
        forall i | 0 <= i < |xs| ensures ItemParts(a, a)[i] == Some(0.0) {
          assert ItemParts(a, b)[i].Some?;
          DriftFromSelf(xs[i], b.items[i]);
        }
      case Tuple(xs) =>
        forall i | 0 <= i < |xs| ensures ItemParts(a, a)[i] == Some(0.0) {
          assert ItemParts(a, b)[i].Some?;
          DriftFromSelf(xs[i], b.items[i]);
        }
      case Map(m) =>
        forall k | k in m ensures FieldParts(a, a)[k] == Some(0.0) {
          assert FieldParts(a, b)[k].Some?;
          DriftFromSelf(m[k], b.fields[k]);
        }
      case _ =>
    }
  }

  lemma WorstTriangle<K>(xs: Parts<K>, ys: Parts<K>, zs: Parts<K>)
    requires xs.Keys == ys.Keys == zs.Keys
    requires Worst(xs).Some? && Worst(ys).Some?
    requires forall k :: k in zs ==> zs[k].Some? && zs[k].value <= xs[k].value + ys[k].value
    ensures Worst(zs).Some? && Worst(zs).value <= Worst(xs).value + Worst(ys).value
  {
  }

  /** Definedness is transitive and the drift satisfies the triangle inequality. */
  lemma {:induction false} DriftTriangle(a: Value, b: Value, c: Value)
    requires Drift(a, b).Some? && Drift(b, c).Some?
    ensures Drift(a, c).Some?
    ensures Drift(a, c).value <= Drift(a, b).value + Drift(b, c).value
    decreases a, 1
  {
    hide ItemParts, FieldParts, Worst, Elements;
    match a {
      case Dense(s) => ElementsTriangle(s.data, b.tensor.data, c.tensor.data);
      case List(xs) => ItemsTriangle(a, b, c);
      case Tuple(xs) => ItemsTriangle(a, b, c);
      case Map(m) => FieldsTriangle(a, b, c);
      case _ =>
    }
  }

  lemma ElementsTriangle(x: seq<real>, y: seq<real>, z: seq<real>)
    requires |x| == |y| == |z|
    ensures var d := Worst(Elements(x, z));
            d.Some? && Worst(Elements(x, y)).Some? && Worst(Elements(y, z)).Some?
            && d.value <= Worst(Elements(x, y)).value + Worst(Elements(y, z)).value
  {
    hide Worst;
    WorstTriangle(Elements(x, y), Elements(y, z), Elements(x, z));
  }

  lemma {:induction false} ItemsTriangle(a: Value, b: Value, c: Value)
    requires (a.List? && b.List? && c.List?) || (a.Tuple? && b.Tuple? && c.Tuple?)
    requires Drift(a, b).Some? && Drift(b, c).Some?
    ensures Drift(a, c).Some? && Drift(a, c).value <= Drift(a, b).value + Drift(b, c).value
    decreases a, 0
  {
    var xs, ys, zs := ItemParts(a, b), ItemParts(b, c), ItemParts(a, c);
    forall i | i in zs ensures zs[i].Some? && zs[i].value <= xs[i].value + ys[i].value {
      assert xs[i].Some? && ys[i].Some?;
      DriftTriangle(a.items[i], b.items[i], c.items[i]);
    }
    WorstTriangle(xs, ys, zs);
  }

  lemma {:induction false} FieldsTriangle(a: Value, b: Value, c: Value)
    requires a.Map? && b.Map? && c.Map?
    requires Drift(a, b).Some? && Drift(b, c).Some?
    ensures Drift(a, c).Some? && Drift(a, c).value <= Drift(a, b).value + Drift(b, c).value
    decreases a, 0
  {
    var xs, ys, zs := FieldParts(a, b), FieldParts(b, c), FieldParts(a, c);
    forall k | k in a.fields ensures k in b.fields {
      assert xs[k].Some?;
    }
    SameKeys(a.fields, b.fields);
    forall k | k in zs ensures zs[k].Some? && zs[k].value <= xs[k].value + ys[k].value {
      assert xs[k].Some? && ys[k].Some?;
      DriftTriangle(a.fields[k], b.fields[k], c.fields[k]);
    }
    WorstTriangle(xs, ys, zs);
  }

  /** The engine's loops compute the drift, and stop early exactly where it is undefined. */
  method ValueMaxAbsDiff(left: Value, right: Value) returns (r: Option<real>)
    ensures r == Drift(left, right)
    decreases left, 1
  {
    match (left, right) {
      case (Dense(s), Dense(t)) => r := TensorMaxAbsDiff(s, t);
      case (Null, Null) => r := Some(0.0);
      case (Boolean(p), Boolean(q)) => r := Some(if p == q then 0.0 else 1.0);
      case (Integer(m), Integer(n)) => r := Some(Abs((m - n) as real));
      case (Number(x), Number(y)) => r := Some(Abs(x - y));
      case (List(_), List(_)) => r := ItemsMaxAbsDiff(left, right);
      case (Tuple(_), Tuple(_)) => r := ItemsMaxAbsDiff(left, right);
      case (Map(_), Map(_)) => r := FieldsMaxAbsDiff(left, right);
      case _ => r := None;
    }
  }

  method TensorMaxAbsDiff(s: Tensor, t: Tensor) returns (r: Option<real>)
    ensures r == Drift(Dense(s), Dense(t))
  {
    if s.shape != t.shape {
      return None;
    }
    var worst := 0.0;
    ghost var parts := Elements(s.data, t.data);
    for i := 0 to |s.data|
      invariant 0.0 <= worst
      invariant worst == 0.0 || exists j :: 0 <= j < i && parts[j] == Some(worst)
      invariant forall j :: 0 <= j < i ==> parts[j].value <= worst
    {
      worst := Max(worst, Abs(s.data[i] - t.data[i]));
      assert parts[i] == Some(Abs(s.data[i] - t.data[i]));
    }
    WorstIsUnique(parts, Some(worst), Worst(parts));
    return Some(worst);
  }

  method ItemsMaxAbsDiff(left: Value, right: Value) returns (r: Option<real>)
    requires (left.List? && right.List?) || (left.Tuple? && right.Tuple?)
    ensures r == Drift(left, right)
    decreases left, 0
  {
    var xs, ys := left.items, right.items;
    if |xs| != |ys| {
      return None;
    }
    var worst := 0.0;
    ghost var parts := ItemParts(left, right);
    for i := 0 to |xs|
      invariant 0.0 <= worst
      invariant worst == 0.0 || exists j :: 0 <= j < i && parts[j] == Some(worst)
      invariant forall j :: 0 <= j < i ==> parts[j].Some? && parts[j].value <= worst
    {
      var d := ValueMaxAbsDiff(xs[i], ys[i]);
      assert parts[i] == d;
      if d.None? {
        return None;
      }
      worst := Max(worst, d.value);
    }
    WorstIsUnique(parts, Some(worst), Worst(parts));
    return Some(worst);
  }

  method FieldsMaxAbsDiff(left: Value, right: Value) returns (r: Option<real>)
    requires left.Map? && right.Map?
    ensures r == Drift(left, right)
    decreases left, 0
  {
    var m, n := left.fields, right.fields;
    if |m| != |n| {
      return None;
    }
    var worst := 0.0;
    var pending := m.Keys;
    ghost var parts := FieldParts(left, right);
    while pending != {}
      invariant pending <= m.Keys
      invariant 0.0 <= worst
      invariant worst == 0.0 || exists k :: k in parts && parts[k] == Some(worst)
      invariant forall k :: k in m.Keys - pending ==> parts[k].Some? && parts[k].value <= worst
      decreases |pending|
    {
      var key :| key in pending;
      if key !in n {
        assert parts[key].None?;
        return None;
      }
      var d := ValueMaxAbsDiff(m[key], n[key]);
      assert parts[key] == d;
      if d.None? {
        return None;
      }
      worst := Max(worst, d.value);
      pending := pending - {key};
    }
    WorstIsUnique(parts, Some(worst), Worst(parts));
    return Some(worst);
  }
}
