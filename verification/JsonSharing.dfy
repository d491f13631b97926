/** When merging nodes is merging values: exactly when no node that a merge can reach is reached by a
    second path. */
module JsonSharing {
  import opened JsonHeaps
  import opened JsonMerging
  import opened Wrappers

  // ---------------------------------------------------------------- paths

  datatype Step = Key(k: string) | Index(i: nat)

  function Take<Id>(h: Heap<Id>, r: Ref<Id>, s: Step): Option<Ref<Id>> {
    if r.Text? || r.id !in h then None
    else match (h[r.id], s)
      case (Fields(fs, _), Key(k)) => if k in fs then Some(fs[k]) else None
      case (Items(xs), Index(i)) => if i < |xs| then Some(xs[i]) else None
      case _ => None
  }

  /** Where a path leads. */
  function Walk<Id>(h: Heap<Id>, r: Ref<Id>, p: seq<Step>): Option<Ref<Id>>
    decreases |p|
  {
    if p == [] then Some(r)
    else match Take(h, r, p[0])
      case Some(next) => Walk(h, next, p[1..])
      case None => None
  }

  /** A path that a merge can take: through dictionaries, and past no comment. */
  predicate CanMerge(p: seq<Step>) {
    forall i | 0 <= i < |p| :: p[i].Key? && p[i].k != COMMENT
  }

  /** Some node that a merge can reach is reached by a second path, of whatever kind. */
  ghost predicate SharesTarget<Id>(h: Heap<Id>, r: Ref<Id>) {
    exists p, q :: CanMerge(p) && p != q && MeetAtNode(Walk(h, r, p), Walk(h, r, q))
  }

  predicate MeetAtNode<Id(==)>(a: Option<Ref<Id>>, b: Option<Ref<Id>>) {
    a == b && a.Some? && a.value.To?
  }

  /** What is walked to lies below, and what lies below can be walked to. */
  lemma {:induction false} WalkReaches<Id>(h: Heap<Id>, r: Ref<Id>, v: Json, p: seq<Step>, x: Id)
    requires Stands(h, r, v) && Walk(h, r, p) == Some(To(x))
    ensures x in Reach(h, r, v)
    ensures CanMerge(p) ==> x in Mergeable(h, r, v)
    decreases |p|
  {
    if p != [] {
      match v
      case Dict(vs) =>
        var k := p[0].k;
        WalkReaches(h, h[r.id].fields[k], vs[k], p[1..], x);
        assert CanMerge(p) ==> CanMerge(p[1..]) && k != COMMENT;
      case List(vs) =>
        var i := p[0].i;
        WalkReaches(h, h[r.id].items[i], vs[i], p[1..], x);
    } else {
      match v
      case Scalar(_) =>
      case _ =>
    }
  }

  lemma WalkOn<Id>(h: Heap<Id>, r: Ref<Id>, s: Step, p: seq<Step>)
    requires Take(h, r, s).Some?
    ensures Walk(h, r, [s] + p) == Walk(h, Take(h, r, s).value, p)
    ensures CanMerge([s] + p) <==> CanMerge(p) && s.Key? && s.k != COMMENT
  {
    assert ([s] + p)[1..] == p;
    if CanMerge([s] + p) {
      forall i | 0 <= i < |p|
        ensures p[i].Key? && p[i].k != COMMENT
      {
        assert ([s] + p)[i + 1] == p[i];
      }
    }
  }

  lemma {:induction false} ReachedByWalk<Id>(h: Heap<Id>, r: Ref<Id>, v: Json, x: Id)
    returns (p: seq<Step>)
    requires Stands(h, r, v) && x in Reach(h, r, v)
    ensures Walk(h, r, p) == Some(To(x))
    decreases v
  {
    p := [];
    if x != r.id {
      match v
      case Dict(vs) =>
        var k :| k in vs && x in Reach(h, h[r.id].fields[k], vs[k]);
        var rest := ReachedByWalk(h, h[r.id].fields[k], vs[k], x);
        WalkOn(h, r, Key(k), rest);
        p := [Key(k)] + rest;
      case List(vs) =>
        var i :| 0 <= i < |vs| && x in Reach(h, h[r.id].items[i], vs[i]);
        var rest := ReachedByWalk(h, h[r.id].items[i], vs[i], x);
        WalkOn(h, r, Index(i), rest);
        p := [Index(i)] + rest;
    }
  }

  lemma {:induction false} MergeableByWalk<Id>(h: Heap<Id>, r: Ref<Id>, v: Json, x: Id)
    returns (p: seq<Step>)
    requires Stands(h, r, v) && x in Mergeable(h, r, v)
    ensures Walk(h, r, p) == Some(To(x)) && CanMerge(p)
    decreases v
  {
    p := [];
    if x != r.id {
      match v
      case Dict(vs) =>
        var k :| k in vs && k != COMMENT && x in Mergeable(h, h[r.id].fields[k], vs[k]);
        var rest := MergeableByWalk(h, h[r.id].fields[k], vs[k], x);
        WalkOn(h, r, Key(k), rest);
        p := [Key(k)] + rest;
    }
  }

  // ---------------------------------------------------------------- where two paths part

  /** Path `p`, which a merge can take, leads to node `x`, and at some dictionary on the way there is
      another entry below which `x` lies, too. */
  ghost predicate Forks<Id>(h: Heap<Id>, r: Ref<Id>, v: Json, p: seq<Step>, x: Id)
    requires Stands(h, r, v)
    decreases |p|
  {
    && p != [] && v.Dict? && p[0].Key? && p[0].k in v.fields && p[0].k != COMMENT
    && var k, fs := p[0].k, h[r.id].fields;
       || Forks(h, fs[k], v.fields[k], p[1..], x)
       || (CanMerge(p) && Walk(h, fs[k], p[1..]) == Some(To(x))
           && exists k' :: k' in v.fields && k' != k && x in Reach(h, fs[k'], v.fields[k']))
  }

  lemma {:induction false} ForksLeads<Id>(h: Heap<Id>, r: Ref<Id>, v: Json, p: seq<Step>, x: Id)
    requires Stands(h, r, v) && Forks(h, r, v, p, x)
    ensures Walk(h, r, p) == Some(To(x)) && CanMerge(p)
    decreases |p|
  {
    var k, fs := p[0].k, h[r.id].fields;
    assert p == [p[0]] + p[1..];
    if Forks(h, fs[k], v.fields[k], p[1..], x) {
      ForksLeads(h, fs[k], v.fields[k], p[1..], x);
      WalkOn(h, r, p[0], p[1..]);
    }
  }

  /** What is not clear forks somewhere. */
  lemma {:induction false} FindFork<Id>(h: Heap<Id>, r: Ref<Id>, v: Json)
    returns (p: seq<Step>, x: Id)
    requires Stands(h, r, v) && !Clear(h, r, v)
    ensures Forks(h, r, v, p, x)
    decreases v
  {
    var vs, fs := v.fields, h[r.id].fields;
    if k :| k in vs && k != COMMENT && !Clear(h, fs[k], vs[k]) {
      var rest;
      rest, x := FindFork(h, fs[k], vs[k]);
      p := [Key(k)] + rest;
      assert p[1..] == rest;
    } else {
      var k, k' :| k in vs && k != COMMENT && k' in vs && k' != k
        && !(Mergeable(h, fs[k], vs[k]) !! Reach(h, fs[k'], vs[k']));
      x :| x in Mergeable(h, fs[k], vs[k]) && x in Reach(h, fs[k'], vs[k']);
      var rest := MergeableByWalk(h, fs[k], vs[k], x);
      WalkOn(h, r, Key(k), rest);
      p := [Key(k)] + rest;
      assert p[1..] == rest;
    }
  }

  /** And what forks is reached by a second path. */
  lemma {:induction false} ForkIsShared<Id>(h: Heap<Id>, r: Ref<Id>, v: Json, p: seq<Step>, x: Id)
    returns (q: seq<Step>)
    requires Stands(h, r, v) && Forks(h, r, v, p, x)
    ensures q != p && Walk(h, r, q) == Some(To(x))
    decreases |p|
  {
    var k, fs := p[0].k, h[r.id].fields;
    if Forks(h, fs[k], v.fields[k], p[1..], x) {
      var rest := ForkIsShared(h, fs[k], v.fields[k], p[1..], x);
      WalkOn(h, r, Key(k), rest);
      q := [Key(k)] + rest;
      assert q[1..] == rest;
    } else {
      var k' :| k' in v.fields && k' != k && x in Reach(h, fs[k'], v.fields[k']);
      var rest := ReachedByWalk(h, fs[k'], v.fields[k'], x);
      WalkOn(h, r, Key(k'), rest);
      q := [Key(k')] + rest;
    }
  }

  /** A clear node has no second path to anything a merge can reach. */
  lemma {:induction false} ClearHasOnePath<Id>(
      h: Heap<Id>, r: Ref<Id>, v: Json, p: seq<Step>, q: seq<Step>, x: Id)
    requires Stands(h, r, v) && Clear(h, r, v) && CanMerge(p)
    requires Walk(h, r, p) == Some(To(x)) == Walk(h, r, q)
    ensures p == q
    decreases |p|
  {
    if p == [] {
      if q != [] { NotBack(h, r, v, q, x); }
    } else if q == [] {
      NotBack(h, r, v, p, x);
    } else {
      var k := p[0].k;
      assert v.Dict? && q[0].Key?;
      var fs, k' := h[r.id].fields, q[0].k;
      assert p == [p[0]] + p[1..] && q == [q[0]] + q[1..];
      assert CanMerge(p[1..]);
      if k == k' {
        ClearHasOnePath(h, fs[k], v.fields[k], p[1..], q[1..], x);
      } else {
        WalkReaches(h, fs[k], v.fields[k], p[1..], x);
        WalkReaches(h, fs[k'], v.fields[k'], q[1..], x);
      }
    }
  }

  /** A path that leads back would go round. */
  lemma NotBack<Id>(h: Heap<Id>, r: Ref<Id>, v: Json, q: seq<Step>, x: Id)
    requires Stands(h, r, v) && r == To(x) && q != []
    ensures Walk(h, r, q) != Some(To(x))
  {
    if Walk(h, r, q) == Some(To(x)) {
      match v
      case Dict(vs) =>
        NotBelowItself(h, x, v, h[x].fields[q[0].k], vs[q[0].k]);
        WalkReaches(h, h[x].fields[q[0].k], vs[q[0].k], q[1..], x);
      case List(vs) =>
        NotBelowItself(h, x, v, h[x].items[q[0].i], vs[q[0].i]);
        WalkReaches(h, h[x].items[q[0].i], vs[q[0].i], q[1..], x);
    }
  }

  /** What the merge needs of `dst` is that no node a merge can reach is reached twice. */
  lemma ClearIffNotShared<Id>(h: Heap<Id>, r: Ref<Id>, v: Json)
    requires Stands(h, r, v)
    ensures Clear(h, r, v) <==> !SharesTarget(h, r)
  {
    if !Clear(h, r, v) {
      var p, x := FindFork(h, r, v);
      var q := ForkIsShared(h, r, v, p, x);
      ForksLeads(h, r, v, p, x);
      assert MeetAtNode(Walk(h, r, p), Walk(h, r, q));
    } else if SharesTarget(h, r) {
      var p, q :| CanMerge(p) && p != q && MeetAtNode(Walk(h, r, p), Walk(h, r, q));
      ClearHasOnePath(h, r, v, p, q, Walk(h, r, p).value.id);
    }
  }

  // ---------------------------------------------------------------- a merge that goes wrong

  /** Something that can be merged into a node: one more entry, or one more element. */
  function Bite<Id>(c: Content<Id>, key: string): Content<Id> {
    if c.Fields? then Fields(map[key := Text("")], [key]) else Items([Text("")])
  }

  function BiteValue<Id>(c: Content<Id>, key: string): Json {
    if c.Fields? then Dict(map[key := Scalar("")]) else List([Scalar("")])
  }

  function Bitten<Id>(c: Content<Id>, key: string): Content<Id> {
    match c
    case Fields(fs, order) => Fields(fs[key := Text("")], order + [key])
    case Items(xs) => Items(xs + [Text("")])
  }

  ghost predicate NewKey<Id>(c: Content<Id>, key: string) {
    c.Fields? ==> key !in c.fields
  }

  /** A chain of dictionaries with one entry each, along path `p`, with `c` at its end. */
  ghost predicate Chain<Id>(h: Heap<Id>, add: Ref<Id>, p: seq<Step>, c: Content<Id>)
    requires CanMerge(p)
    decreases |p|
  {
    && add.To? && add.id in h
    && if p == [] then h[add.id] == c
       else
         var k := p[0].k;
         && h[add.id].Fields? && h[add.id].order == [k] && h[add.id].fields.Keys == {k}
         && Chain(h, h[add.id].fields[k], p[1..], c)
  }

  function ChainValue(p: seq<Step>, v: Json): Json
    requires CanMerge(p)
    decreases |p|
  {
    if p == [] then v else Dict(map[p[0].k := ChainValue(p[1..], v)])
  }

  /** Merging a chain changes the node at the end of the path and no other, whatever is shared. */
  lemma {:induction false} ChainMerges<Id>(
      h: Heap<Id>, r: Ref<Id>, add: Ref<Id>, p: seq<Step>, x: Id, key: string)
    requires CanMerge(p) && Walk(h, r, p) == Some(To(x)) && x in h && NewKey(h[x], key)
    requires Chain(h, add, p, Bite(h[x], key))
    ensures MergeAt(h, r, add, |p| + 1) == Done(h[x := Bitten(h[x], key)])
    decreases |p|
  {
    if p == [] {
      if h[x].Fields? {
        OnePair(h, x, h[add.id].fields, key, 0);
        assert Hung(h, x, key, Text("")) == h[x := Bitten(h[x], key)];
      }
    } else {
      var k, rest := p[0].k, p[1..];
      assert p[0].k != COMMENT;
      ChainMerges(h, h[r.id].fields[k], h[add.id].fields[k], rest, x, key);
      OnePair(h, r.id, h[add.id].fields, k, |p|);
    }
  }

  lemma OnePair<Id>(h: Heap<Id>, d: Id, fs: map<string, Ref<Id>>, k: string, fuel: nat)
    requires k in fs
    ensures MergePairs(h, d, fs, [k], fuel) ==
      match MergeKey(h, d, k, fs[k], fuel) case Done(h') => Done(h') case other => other
  {
    assert [k][1..] == [];
    if MergeKey(h, d, k, fs[k], fuel).Done? {
      assert MergePairs(MergeKey(h, d, k, fs[k], fuel).heap, d, fs, [], fuel).Done?;
    }
  }

  /** As values, the two can be merged. */
  lemma {:induction false} ChainFits<Id>(
      h: Heap<Id>, r: Ref<Id>, v: Json, p: seq<Step>, x: Id, key: string)
    requires CanMerge(p) && Stands(h, r, v) && Walk(h, r, p) == Some(To(x)) && x in h
    requires NewKey(h[x], key)
    ensures Merge(v, ChainValue(p, BiteValue(h[x], key))).Some?
    decreases |p|
  {
    if p != [] {
      var k := p[0].k;
      ChainFits(h, h[r.id].fields[k], v.fields[k], p[1..], x, key);
    }
  }

  /** A node below which something has grown no longer stands for what it did. */
  lemma {:induction false} GrownIsOther<Id>(h: Heap<Id>, r: Ref<Id>, v: Json, x: Id, key: string)
    requires Stands(h, r, v) && x in Reach(h, r, v) && x in h && NewKey(h[x], key)
    ensures !Stands(h[x := Bitten(h[x], key)], r, v)
    decreases v
  {
    var h' := h[x := Bitten(h[x], key)];
    if r.id == x {
      match v
      case Dict(vs) => assert key in h'[x].fields && key !in vs;
      case List(vs) => assert |h'[x].items| == |vs| + 1;
    } else {
      match v
      case Dict(vs) =>
        var k :| k in vs && x in Reach(h, h[r.id].fields[k], vs[k]);
        GrownIsOther(h, h[r.id].fields[k], vs[k], x, key);
      case List(vs) =>
        var i :| 0 <= i < |vs| && x in Reach(h, h[r.id].items[i], vs[i]);
        GrownIsOther(h, h[r.id].items[i], vs[i], x, key);
    }
  }

  /** Merging a dictionary with one entry that is shared. */
  lemma MergeOne(vs: map<string, Json>, k: string, w: Json)
    requires k in vs && k != COMMENT && Merge(vs[k], w).Some?
    ensures Merge(Dict(vs), Dict(map[k := w])) == Some(Dict(vs[k := Merge(vs[k], w).value]))
  {
    var r := Merge(Dict(vs), Dict(map[k := w]));
    assert Shared(vs, map[k := w]) == {k};
    assert r.Some? && r.value.Dict?;
    assert r.value.fields == vs[k := Merge(vs[k], w).value];
  }

  /** Where the paths fork, the other entry changes as well, and the values do not foresee that. */
  lemma {:induction false} ForkSpoils<Id>(
      h: Heap<Id>, r: Ref<Id>, v: Json, p: seq<Step>, x: Id, key: string)
    requires Stands(h, r, v) && Forks(h, r, v, p, x) && CanMerge(p) && x in h && NewKey(h[x], key)
    ensures
      var w := Merge(v, ChainValue(p, BiteValue(h[x], key)));
      w.Some? && !Stands(h[x := Bitten(h[x], key)], r, w.value)
    decreases |p|
  {
    var k, fs, vs := p[0].k, h[r.id].fields, v.fields;
    var h', rest := h[x := Bitten(h[x], key)], ChainValue(p[1..], BiteValue(h[x], key));
    ForkIsBelow(h, r, v, p, x);
    if Forks(h, fs[k], vs[k], p[1..], x) {
      ForkSpoils(h, fs[k], vs[k], p[1..], x, key);
      MergeOne(vs, k, rest);
      var w := vs[k := Merge(vs[k], rest).value];
      assert h'[r.id] == h[r.id] && w[k] == Merge(vs[k], rest).value;
    } else {
      ChainFits(h, fs[k], vs[k], p[1..], x, key);
      MergeOne(vs, k, rest);
      var w := vs[k := Merge(vs[k], rest).value];
      var k' :| k' in vs && k' != k && x in Reach(h, fs[k'], vs[k']);
      GrownIsOther(h, fs[k'], vs[k'], x, key);
      assert h'[r.id] == h[r.id] && w[k'] == vs[k'];
    }
  }

  lemma ForkIsBelow<Id>(h: Heap<Id>, r: Ref<Id>, v: Json, p: seq<Step>, x: Id)
    requires Stands(h, r, v) && Forks(h, r, v, p, x)
    ensures x != r.id
  {
    ForksLeads(h, r, v, p, x);
    if x == r.id { NotBack(h, r, v, p, x); }
  }

  // ---------------------------------------------------------------- exactly when

  /** More nodes, and the others as they were. */
  ghost predicate Extends<Id>(h: Heap<Id>, h': Heap<Id>) {
    h.Keys <= h'.Keys && forall x | x in h :: h'[x] == h[x]
  }

  /** The outcome of the code is the one that the values have. */
  ghost predicate Right<Id>(h: Heap<Id>, dst: Ref<Id>, add: Ref<Id>, dv: Json, av: Json, fuel: nat) {
    match Merge(dv, av)
    case None => MergeAt(h, dst, add, fuel).Raised?
    case Some(w) => MergeAt(h, dst, add, fuel).Done? && Stands(MergeAt(h, dst, add, fuel).heap, dst, w)
  }

  /** Whatever is merged into `dst`, if only it shares nothing with it. */
  ghost predicate AlwaysRight(h: Heap<int>, dst: Ref<int>, dv: Json) {
    forall h': Heap<int>, add: Ref<int>, av: Json, fuel: nat |
      Extends(h, h') && WellKept(h') && Stands(h', dst, dv) && Stands(h', add, av)
      && Reach(h', dst, dv) !! Reach(h', add, av) && Enough(av, fuel) ::
      Right(h', dst, add, dv, av, fuel)
  }

  lemma {:induction false} StillForks<Id>(
      h: Heap<Id>, h': Heap<Id>, r: Ref<Id>, v: Json, p: seq<Step>, x: Id)
    requires Stands(h, r, v) && Forks(h, r, v, p, x) && Extends(h, h') && Stands(h', r, v)
    ensures Forks(h', r, v, p, x)
    decreases |p|
  {
    var k, fs := p[0].k, h[r.id].fields;
    assert h'[r.id] == h[r.id];
    if Forks(h, fs[k], v.fields[k], p[1..], x) {
      StillForks(h, h', fs[k], v.fields[k], p[1..], x);
    } else {
      var k' :| k' in v.fields && k' != k && x in Reach(h, fs[k'], v.fields[k']);
      StillWalks(h, h', fs[k], v.fields[k], p[1..]);
      ReachIsInHeap(h, fs[k'], v.fields[k']);
      Unchanged(h, h', fs[k'], v.fields[k']);
    }
  }

  lemma {:induction false} StillWalks<Id>(h: Heap<Id>, h': Heap<Id>, r: Ref<Id>, v: Json, p: seq<Step>)
    requires Stands(h, r, v) && Extends(h, h') && Walk(h, r, p).Some?
    ensures Walk(h', r, p) == Walk(h, r, p)
    decreases |p|
  {
    if p != [] {
      match v
      case Dict(vs) => StillWalks(h, h', h[r.id].fields[p[0].k], vs[p[0].k], p[1..]);
      case List(vs) => StillWalks(h, h', h[r.id].items[p[0].i], vs[p[0].i], p[1..]);
    }
  }

  lemma {:induction false} AboveAll(xs: set<int>) returns (b: int)
    ensures forall x | x in xs :: x < b
    decreases |xs|
  {
    b := 0;
    if x :| x in xs {
      var b' := AboveAll(xs - {x});
      b := if x < b' then b' else x + 1;
      assert forall y | y in xs :: y == x || y in xs - {x};
    }
  }

  lemma {:induction false} LongerThanAll(keys: set<string>) returns (key: string)
    ensures forall k | k in keys :: |k| < |key|
    decreases |keys|
  {
    key := "a";
    if keys != {} {
      var k :| k in keys;
      var key' := LongerThanAll(keys - {k});
      key := if |k| < |key'| then key' else k + "a";
    }
  }

  lemma BiteStands<Id>(c: Content<Id>, key: string, h: Heap<Id>, x: Id)
    requires x in h && h[x] == Bite(c, key)
    ensures Stands(h, To(x), BiteValue(c, key)) && Reach(h, To(x), BiteValue(c, key)) == {x}
  {
  }

  lemma LinkStands<Id>(
      h: Heap<Id>, h': Heap<Id>, next: Ref<Id>, p: seq<Step>, c: Content<Id>, v: Json, x: Id)
    requires p != [] && CanMerge(p) && x !in h && h' == h[x := Fields(map[p[0].k := next], [p[0].k])]
    requires CanMerge(p[1..]) && Chain(h, next, p[1..], c) && Stands(h, next, ChainValue(p[1..], v))
    ensures Chain(h', To(x), p, c) && Stands(h', To(x), ChainValue(p, v))
    ensures Reach(h', To(x), ChainValue(p, v)) == {x} + Reach(h, next, ChainValue(p[1..], v))
  {
    var w := ChainValue(p[1..], v);
    LinkChain(h, h', next, p, c, x);
    assert ChainValue(p, v) == Dict(map[p[0].k := w]);
    LinkValue(h, h', next, p[0].k, w, x);
  }

  lemma LinkChain<Id>(
      h: Heap<Id>, h': Heap<Id>, next: Ref<Id>, p: seq<Step>, c: Content<Id>, x: Id)
    requires p != [] && CanMerge(p) && x !in h && h' == h[x := Fields(map[p[0].k := next], [p[0].k])]
    requires CanMerge(p[1..]) && Chain(h, next, p[1..], c)
    ensures Chain(h', To(x), p, c)
  {
    StillChain(h, h', next, p[1..], c);
    assert h'[x].fields.Keys == {p[0].k};
  }

  lemma LinkValue<Id>(h: Heap<Id>, h': Heap<Id>, next: Ref<Id>, k: string, w: Json, x: Id)
    requires x !in h && h' == h[x := Fields(map[k := next], [k])] && Stands(h, next, w)
    ensures Stands(h', To(x), Dict(map[k := w]))
    ensures Reach(h', To(x), Dict(map[k := w])) == {x} + Reach(h, next, w)
  {
    ReachIsInHeap(h, next, w);
    Unchanged(h, h', next, w);
    OneEntry(h', x, next, k, w);
  }

  lemma OneEntry<Id>(h: Heap<Id>, x: Id, next: Ref<Id>, k: string, w: Json)
    requires x in h && h[x] == Fields(map[k := next], [k]) && Stands(h, next, w)
    ensures Stands(h, To(x), Dict(map[k := w]))
    ensures Reach(h, To(x), Dict(map[k := w])) == {x} + Reach(h, next, w)
  {
    var v := Dict(map[k := w]);
    assert h[x].fields.Keys == {k} == v.fields.Keys;
    assert Stands(h, To(x), v);
    assert v.fields[k] == w && h[x].fields[k] == next;
  }

  lemma AllInside(h: Heap<int>, h1: Heap<int>)
    requires Extends(h, h1)
    ensures h.Keys <= h1.Keys
  {
  }

  lemma LinkExtends(h: Heap<int>, h1: Heap<int>, next: Ref<int>, k: string, x: int)
    requires Extends(h, h1) && WellKept(h1) && x !in h1
    ensures
      var h' := h1[x := Fields(map[k := next], [k])];
      Extends(h, h') && WellKept(h')
  {
    var h' := h1[x := Fields(map[k := next], [k])];
    assert h'[x].fields.Keys == {k};
  }

  /** The chain can be built from new nodes. */
  lemma {:induction false} BuildChain(h: Heap<int>, p: seq<Step>, c: Content<int>, key: string)
    returns (h': Heap<int>, add: Ref<int>)
    requires CanMerge(p) && WellKept(h)
    ensures Extends(h, h') && WellKept(h') && Chain(h', add, p, Bite(c, key))
    ensures
      var v := ChainValue(p, BiteValue(c, key));
      Stands(h', add, v) && Reach(h', add, v) !! h.Keys
    decreases |p|
  {
    if p == [] {
      var x := AboveAll(h.Keys);
      add, h' := To(x), h[x := Bite(c, key)];
      BiteStands(c, key, h', x);
    } else {
      assert CanMerge(p[1..]);
      var h1, next := BuildChain(h, p[1..], c, key);
      var x := AboveAll(h1.Keys);
      add, h' := To(x), h1[x := Fields(map[p[0].k := next], [p[0].k])];
      hide Stands, Chain, ChainValue, Reach, CanMerge, Extends, WellKept;
      LinkExtends(h, h1, next, p[0].k, x);
      AllInside(h, h1);
      LinkStands(h1, h', next, p, Bite(c, key), BiteValue(c, key), x);
    }
  }

  lemma {:induction false} StillChain<Id>(
      h: Heap<Id>, h': Heap<Id>, add: Ref<Id>, p: seq<Step>, c: Content<Id>)
    requires CanMerge(p) && Chain(h, add, p, c) && Extends(h, h')
    ensures Chain(h', add, p, c)
    decreases |p|
  {
    if p != [] { StillChain(h, h', h[add.id].fields[p[0].k], p[1..], c); }
  }

  lemma {:induction false} ChainIsShallow(p: seq<Step>, v: Json)
    requires CanMerge(p) && Enough(v, 1)
    ensures Enough(ChainValue(p, v), |p| + 1)
    decreases |p|
  {
    if p != [] { ChainIsShallow(p[1..], v); }
  }

  /** The chain that ends at the node where two paths meet spoils the heap. */
  lemma ChainSpoils<Id>(
      h: Heap<Id>, h': Heap<Id>, dst: Ref<Id>, dv: Json, add: Ref<Id>, p: seq<Step>, x: Id, key: string)
    requires Stands(h, dst, dv) && Forks(h, dst, dv, p, x) && Extends(h, h') && Stands(h', dst, dv)
    requires CanMerge(p) && Walk(h, dst, p) == Some(To(x)) && x in h && NewKey(h[x], key)
    requires Chain(h', add, p, Bite(h[x], key))
    ensures !Right(h', dst, add, dv, ChainValue(p, BiteValue(h[x], key)), |p| + 1)
  {
    hide Stands, Forks, Chain, ChainValue, Walk, CanMerge, Merge, MergeAt;
    StillForks(h, h', dst, dv, p, x);
    StillWalks(h, h', dst, dv, p);
    ChainMerges(h', dst, add, p, x, key);
    ForkSpoils(h', dst, dv, p, x, key);
  }

  /** Something can be merged into what is not clear that spoils it. */
  lemma SharingSpoils(h: Heap<int>, dst: Ref<int>, dv: Json)
    requires WellKept(h) && Stands(h, dst, dv) && !Clear(h, dst, dv)
    ensures !AlwaysRight(h, dst, dv)
  {
    hide Stands, Forks, Chain, ChainValue, Walk, CanMerge, Merge, MergeAt, Clear, Reach, Right, Bite, BiteValue;
    var p, x := FindFork(h, dst, dv);
    ForksLeads(h, dst, dv, p, x);
    WalkReaches(h, dst, dv, p, x);
    ReachIsInHeap(h, dst, dv);
    var key := LongerThanAll(if h[x].Fields? then h[x].fields.Keys else {});
    var h', add := BuildChain(h, p, h[x], key);
    var av := ChainValue(p, BiteValue(h[x], key));
    Unchanged(h, h', dst, dv);
    ChainSpoils(h, h', dst, dv, add, p, x, key);
    BiteIsShallow(h[x], key);
    ChainIsShallow(p, BiteValue(h[x], key));
    assert !Right(h', dst, add, dv, av, |p| + 1);
  }

  lemma BiteIsShallow<Id>(c: Content<Id>, key: string)
    ensures Enough(BiteValue(c, key), 1)
  {
  }

  /** Merging nodes is merging values, whatever is merged into `dst` that shares nothing with it, if
      and only if no node that a merge can reach is reached by a second path from `dst`: not by
      another one through dictionaries, not through a list, and not past a comment. */
  lemma MergesAsValuesIff(h: Heap<int>, dst: Ref<int>, dv: Json)
    requires WellKept(h) && Stands(h, dst, dv)
    ensures AlwaysRight(h, dst, dv) <==> !SharesTarget(h, dst)
  {
    ClearIffNotShared(h, dst, dv);
    if Clear(h, dst, dv) {
      forall h': Heap<int>, add: Ref<int>, av: Json, fuel: nat |
        Extends(h, h') && WellKept(h') && Stands(h', dst, dv) && Stands(h', add, av)
        && Reach(h', dst, dv) !! Reach(h', add, av) && Enough(av, fuel)
        ensures Right(h', dst, add, dv, av, fuel)
      {
        ReachIsInHeap(h, dst, dv);
        Unchanged(h, h', dst, dv);
        MergeIsRight(h', dst, add, dv, av, fuel);
      }
    } else {
      SharingSpoils(h, dst, dv);
    }
  }

  // ---------------------------------------------------------------- a file that goes wrong

  /** The dictionary `{"b": d, "a": [d]}` with d = `{"y": "1"}`, written once and referred to twice,
      and the file `{"b": {"x": "2"}}`. */
  function Written(x: int): Content<int> {
    if x == 0 then Fields(map["b" := To(1), "a" := To(2)], ["b", "a"])
    else if x == 1 then Fields(map["y" := Text("1")], ["y"])
    else if x == 2 then Items([To(1)])
    else if x == 3 then Fields(map["b" := To(4)], ["b"])
    else Fields(map["x" := Text("2")], ["x"])
  }

  function TwiceInMemory(): Heap<int> {
    map x | 0 <= x < 5 :: Written(x)
  }

  function Inner(): map<string, Json> { map["y" := Scalar("1")] }

  function Outer(): map<string, Json> {
    map["b" := Dict(Inner()), "a" := List([Dict(Inner())])]
  }

  function File(): map<string, Json> { map["b" := Dict(map["x" := Scalar("2")])] }

  lemma TwiceStands()
    ensures WellKept(TwiceInMemory()) && Stands(TwiceInMemory(), To(0), Dict(Outer()))
    ensures Stands(TwiceInMemory(), To(3), Dict(File()))
  {
    var h := TwiceInMemory();
    assert Written(0).fields.Keys == {"a", "b"} == Outer().Keys;
    assert Written(1).fields.Keys == {"y"} == Inner().Keys;
    assert Written(3).fields.Keys == {"b"} == File().Keys;
    assert Written(4).fields.Keys == {"x"};
    assert Stands(h, To(1), Dict(Inner()));
    assert Stands(h, To(2), List([Dict(Inner())]));
    assert Stands(h, To(4), Dict(map["x" := Scalar("2")]));
  }

  lemma TwiceShares()
    ensures SharesTarget(TwiceInMemory(), To(0))
  {
    var h := TwiceInMemory();
    var p, q := [Key("b")], [Key("a"), Index(0)];
    assert Walk(h, To(0), p) == Some(To(1)) by { WalkOn(h, To(0), Key("b"), []); }
    assert Walk(h, To(0), q) == Some(To(1)) by {
      WalkOn(h, To(2), Index(0), []);
      WalkOn(h, To(0), Key("a"), [Index(0)]);
      assert q == [Key("a")] + [Index(0)];
    }
    hide Walk, TwiceInMemory, Written;
    assert CanMerge(p) && p[0] != q[0];
    assert MeetAtNode(Walk(h, To(0), p), Walk(h, To(0), q));
  }

  /** The memory after merging the file. */
  ghost function Spoilt(): Heap<int> {
    Hung(TwiceInMemory(), 1, "x", Text("2"))
  }

  lemma TwiceMerges()
    ensures MergeAt(TwiceInMemory(), To(0), To(3), 2) == Done(Spoilt())
  {
    var h := TwiceInMemory();
    assert h[0] == Written(0) && h[1] == Written(1) && h[3] == Written(3) && h[4] == Written(4);
    hide TwiceInMemory;
    OnePair(h, 1, h[4].fields, "x", 0);
    assert MergeKey(h, 1, "x", Text("2"), 0) == Done(Spoilt());
    assert MergeAt(h, To(1), To(4), 1) == Done(Spoilt());
    assert MergeKey(h, 0, "b", To(4), 1) == Done(Spoilt());
    OnePair(h, 0, h[3].fields, "b", 1);
  }

  lemma TwiceDiffers()
    ensures Merge(Dict(Outer()), Dict(File())).Some?
    ensures !Stands(Spoilt(), To(0), Merge(Dict(Outer()), Dict(File())).value)
  {
    var after, w := Spoilt(), Dict(map["x" := Scalar("2")]);
    assert after[0] == Written(0) && after[2] == Written(2) && "x" in after[1].fields;
    hide TwiceInMemory, Spoilt;
    assert Merge(Outer()["b"], w).Some?;
    MergeOne(Outer(), "b", w);
    assert !Stands(after, To(1), Dict(Inner()));
    assert !Stands(after, To(2), List([Dict(Inner())])) by { assert after[2].items[0] == To(1); }
    var merged := Outer()["b" := Merge(Outer()["b"], w).value];
    assert "a" in merged && merged["a"] == List([Dict(Inner())]) && after[0].fields["a"] == To(2);
    hide Merge;
    assert !Stands(after, To(0), Dict(merged));
  }

  /** Merging the file changes the element of the list, too, which the values do not foresee. */
  lemma ListElementChanges()
    ensures SharesTarget(TwiceInMemory(), To(0))
    ensures Stands(TwiceInMemory(), To(0), Dict(Outer())) && Stands(TwiceInMemory(), To(3), Dict(File()))
    ensures MergeAt(TwiceInMemory(), To(0), To(3), 2) == Done(Spoilt())
    ensures Merge(Dict(Outer()), Dict(File())).Some?
    ensures !Stands(Spoilt(), To(0), Merge(Dict(Outer()), Dict(File())).value)
  {
    hide *;
    TwiceStands();
    TwiceShares();
    TwiceMerges();
    TwiceDiffers();
  }
}
