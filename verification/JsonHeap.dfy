/** JSON values as they lie in memory: dictionaries and lists are nodes that refer to each other, and
    a node may be referred to from several places. `merge_json` as a function on such heaps, and
    exactly when it does to the nodes what merging does to the values. */
module JsonHeaps {
  import opened JsonMerging
  import opened Wrappers

  datatype Ref<Id> = To(id: Id) | Text(text: string)

  /** What a node holds; `order` is the order in which the items of a dictionary are given. */
  datatype Content<Id> =
    | Fields(fields: map<string, Ref<Id>>, order: seq<string>)
    | Items(items: seq<Ref<Id>>)

  type Heap<Id> = map<Id, Content<Id>>

  ghost predicate Listed(order: seq<string>, keys: set<string>) {
    && (forall k :: k in order <==> k in keys)
    && (forall i, j | 0 <= i < j < |order| :: order[i] != order[j])
  }

  ghost predicate WellKept<Id>(h: Heap<Id>) {
    forall x | x in h && h[x].Fields? :: Listed(h[x].order, h[x].fields.Keys)
  }

  // ---------------------------------------------------------------- merge_json on nodes

  /** How the code ends: with or without the exception. `Unfinished` says that the calls are nested
      deeper than `fuel`. */
  datatype Outcome<Id> = Done(heap: Heap<Id>) | Raised(heap: Heap<Id>) | Unfinished

  ghost function MergeAt<Id>(h: Heap<Id>, dst: Ref<Id>, add: Ref<Id>, fuel: nat): Outcome<Id>
    decreases fuel, 0
  {
    if dst.Text? || add.Text? || dst.id !in h || add.id !in h then Raised(h)
    else match (h[dst.id], h[add.id])
      case (Fields(_, _), Fields(fs, order)) =>
        if fuel == 0 then Unfinished else MergePairs(h, dst.id, fs, order, fuel - 1)
      case (Items(xs), Items(ys)) => Done(h[dst.id := Items(xs + ys)])
      case _ => Raised(h)
  }

  /** The loop over the items of `add`, which are taken before it begins. */
  ghost function MergePairs<Id>(
      h: Heap<Id>, d: Id, fs: map<string, Ref<Id>>, order: seq<string>, fuel: nat): Outcome<Id>
    decreases fuel, |order| + 2
  {
    if order == [] then Done(h)
    else if order[0] !in fs then MergePairs(h, d, fs, order[1..], fuel)
    else match MergeKey(h, d, order[0], fs[order[0]], fuel)
      case Done(h') => MergePairs(h', d, fs, order[1..], fuel)
      case other => other
  }

  /** dst[k] = r for a new key. */
  ghost function Hung<Id>(h: Heap<Id>, d: Id, k: string, r: Ref<Id>): Heap<Id>
    requires d in h && h[d].Fields?
  {
    h[d := Fields(h[d].fields[k := r], h[d].order + [k])]
  }

  ghost function MergeKey<Id>(h: Heap<Id>, d: Id, k: string, r: Ref<Id>, fuel: nat): Outcome<Id>
    decreases fuel, 1
  {
    if d !in h || !h[d].Fields? then Raised(h)
    else if k !in h[d].fields then Done(Hung(h, d, k, r))
    else if k == COMMENT then Done(h)
    else MergeAt(h, h[d].fields[k], r, fuel)
  }

  // ---------------------------------------------------------------- what a heap stands for

  ghost predicate Stands<Id>(h: Heap<Id>, r: Ref<Id>, v: Json)
    decreases v
  {
    match v
    case Scalar(t) => r == Text(t)
    case List(vs) =>
      && r.To? && r.id in h && h[r.id].Items? && |h[r.id].items| == |vs|
      && forall i | 0 <= i < |vs| :: Stands(h, h[r.id].items[i], vs[i])
    case Dict(vs) =>
      && r.To? && r.id in h && h[r.id].Fields? && h[r.id].fields.Keys == vs.Keys
      && forall k | k in vs :: Stands(h, h[r.id].fields[k], vs[k])
  }

  /** All nodes at and below `r`. */
  ghost function Reach<Id>(h: Heap<Id>, r: Ref<Id>, v: Json): set<Id>
    requires Stands(h, r, v)
    decreases v
  {
    match v
    case Scalar(_) => {}
    case List(vs) =>
      {r.id} + set i, x | 0 <= i < |vs| && x in Reach(h, h[r.id].items[i], vs[i]) :: x
    case Dict(vs) =>
      {r.id} + set k, x | k in vs && x in Reach(h, h[r.id].fields[k], vs[k]) :: x
  }

  /** Those that a merge into `r` can change: not the ones below a list, nor below a comment. */
  ghost function Mergeable<Id>(h: Heap<Id>, r: Ref<Id>, v: Json): set<Id>
    requires Stands(h, r, v)
    decreases v
  {
    match v
    case Scalar(_) => {}
    case List(_) => {r.id}
    case Dict(vs) =>
      {r.id} +
      set k, x | k in vs && k != COMMENT && x in Mergeable(h, h[r.id].fields[k], vs[k]) :: x
  }

  /** What can be changed below one entry does not lie below another one. */
  ghost predicate Clear<Id>(h: Heap<Id>, r: Ref<Id>, v: Json)
    requires Stands(h, r, v)
    decreases v
  {
    match v
    case Dict(vs) =>
      forall k | k in vs && k != COMMENT ::
        && Clear(h, h[r.id].fields[k], vs[k])
        && forall k' | k' in vs && k' != k ::
             Mergeable(h, h[r.id].fields[k], vs[k]) !! Reach(h, h[r.id].fields[k'], vs[k'])
    case _ => true
  }

  /** A reference stands for one value at most. */
  lemma {:induction false} StandsForOne<Id>(h: Heap<Id>, r: Ref<Id>, v: Json, w: Json)
    requires Stands(h, r, v) && Stands(h, r, w)
    ensures v == w
    decreases v
  {
    match (v, w)
    case (List(vs), List(ws)) =>
      forall i | 0 <= i < |vs|
        ensures vs[i] == ws[i]
      {
        StandsForOne(h, h[r.id].items[i], vs[i], ws[i]);
      }
    case (Dict(vs), Dict(ws)) =>
      forall k | k in vs
        ensures vs[k] == ws[k]
      {
        StandsForOne(h, h[r.id].fields[k], vs[k], ws[k]);
      }
    case _ =>
  }

  lemma {:induction false} MergeableIsReached<Id>(h: Heap<Id>, r: Ref<Id>, v: Json)
    requires Stands(h, r, v)
    ensures Mergeable(h, r, v) <= Reach(h, r, v)
    decreases v
  {
    match v
    case Dict(vs) =>
      forall k | k in vs
        ensures Mergeable(h, h[r.id].fields[k], vs[k]) <= Reach(h, h[r.id].fields[k], vs[k])
      {
        MergeableIsReached(h, h[r.id].fields[k], vs[k]);
      }
    case _ =>
  }

  /** Every node below stands for a part of the value. */
  lemma {:induction false} ReachStands<Id>(h: Heap<Id>, r: Ref<Id>, v: Json, x: Id) returns (w: Json)
    requires Stands(h, r, v) && x in Reach(h, r, v)
    ensures x in h && Stands(h, To(x), w) && (w == v || w < v)
    decreases v
  {
    w := v;
    if x != r.id {
      match v
      case List(vs) =>
        var i :| 0 <= i < |vs| && x in Reach(h, h[r.id].items[i], vs[i]);
        w := ReachStands(h, h[r.id].items[i], vs[i], x);
      case Dict(vs) =>
        var k :| k in vs && x in Reach(h, h[r.id].fields[k], vs[k]);
        w := ReachStands(h, h[r.id].fields[k], vs[k], x);
    }
  }

  /** No node lies below itself. */
  lemma NotBelowItself<Id>(h: Heap<Id>, d: Id, v: Json, r: Ref<Id>, w: Json)
    requires Stands(h, To(d), v) && Stands(h, r, w) && w < v
    ensures d !in Reach(h, r, w)
  {
    if d in Reach(h, r, w) {
      var u := ReachStands(h, r, w, d);
      StandsForOne(h, To(d), u, v);
    }
  }

  /** What lies below is all that matters. */
  lemma {:induction false} Unchanged<Id>(h: Heap<Id>, h': Heap<Id>, r: Ref<Id>, v: Json)
    requires Stands(h, r, v)
    requires forall x | x in Reach(h, r, v) :: x in h && x in h' && h'[x] == h[x]
    ensures Stands(h', r, v)
    ensures Reach(h', r, v) == Reach(h, r, v) && Mergeable(h', r, v) == Mergeable(h, r, v)
    ensures Clear(h', r, v) == Clear(h, r, v)
    decreases v
  {
    match v
    case Scalar(_) =>
    case List(vs) =>
      assert r.id in Reach(h, r, v);
      forall i | 0 <= i < |vs|
        ensures Stands(h', h[r.id].items[i], vs[i])
        ensures Reach(h', h[r.id].items[i], vs[i]) == Reach(h, h[r.id].items[i], vs[i])
      {
        Unchanged(h, h', h[r.id].items[i], vs[i]);
      }
    case Dict(vs) =>
      assert r.id in Reach(h, r, v);
      forall k | k in vs
        ensures Stands(h', h[r.id].fields[k], vs[k])
        ensures Reach(h', h[r.id].fields[k], vs[k]) == Reach(h, h[r.id].fields[k], vs[k])
        ensures Mergeable(h', h[r.id].fields[k], vs[k]) == Mergeable(h, h[r.id].fields[k], vs[k])
        ensures Clear(h', h[r.id].fields[k], vs[k]) == Clear(h, h[r.id].fields[k], vs[k])
      {
        Unchanged(h, h', h[r.id].fields[k], vs[k]);
      }
  }

  // ---------------------------------------------------------------- a merge that is right

  /** The calls for merging `v` are nested at most `n` deep. */
  ghost predicate Enough(v: Json, n: nat)
    decreases v
  {
    match v
    case Dict(vs) => n > 0 && forall k | k in vs :: Enough(vs[k], n - 1)
    case _ => true
  }

  /** The heap `h'` after merging `add` into `dst` in `h`, which makes it stand for `w`: only nodes
      that can be merged into have changed, and nothing has come in from elsewhere. */
  ghost predicate MergedTo<Id>(
      h: Heap<Id>, h': Heap<Id>, dst: Ref<Id>, add: Ref<Id>, dv: Json, av: Json, w: Json)
    requires Stands(h, dst, dv) && Stands(h, add, av)
  {
    && h'.Keys == h.Keys && WellKept(h')
    && (forall x | x in h && x !in Mergeable(h, dst, dv) :: h'[x] == h[x])
    && Stands(h', dst, w)
    && Reach(h', dst, w) <= Reach(h, dst, dv) + Reach(h, add, av)
    && Mergeable(h', dst, w) <= Mergeable(h, dst, dv) + Mergeable(h, add, av)
    && (Clear(h, add, av) ==> Clear(h', dst, w))
  }

  /** The moment before the loop: the heap, the dictionary node `d` with its entries and what they
      stand for, and the same for the entries to be merged into it. */
  datatype Scene<Id> = Scene(
    h: Heap<Id>, d: Id,
    fs: map<string, Ref<Id>>, vs: map<string, Json>, gs: map<string, Ref<Id>>, ws: map<string, Json>)
  {
    ghost predicate Set() {
      && fs.Keys == vs.Keys && (forall k | k in vs :: Stands(h, fs[k], vs[k]))
      && gs.Keys == ws.Keys && (forall k | k in ws :: Stands(h, gs[k], ws[k]))
    }

    ghost function Reached(k: string): set<Id>
      requires Set()
    {
      if k in vs then Reach(h, fs[k], vs[k]) else {}
    }

    ghost function Changeable(k: string): set<Id>
      requires Set()
    {
      if k in vs then Mergeable(h, fs[k], vs[k]) else {}
    }

    ghost function Added(k: string): set<Id>
      requires Set()
    {
      if k in ws then Reach(h, gs[k], ws[k]) else {}
    }

    ghost function Grafted(k: string): set<Id>
      requires Set()
    {
      if k in ws then Mergeable(h, gs[k], ws[k]) else {}
    }

    /** Nothing stands in the way of the loop. */
    ghost predicate Ready() {
      && Set()
      && (forall k | k in vs && k != COMMENT :: Clear(h, fs[k], vs[k]))
      && (forall k, k' | k != COMMENT && k != k' :: Changeable(k) !! Reached(k'))
      && (forall k, k' :: Reached(k) !! Added(k'))
      && (forall k :: d !in Reached(k) && d !in Added(k))
    }

    /** Of all nodes but `d`, only those have changed that could, below keys not in `todo`. */
    ghost predicate Confined(h': Heap<Id>, todo: set<string>)
      requires Set()
    {
      && h'.Keys == h.Keys
      && forall x | x in h && x != d && h'[x] != h[x] ::
           exists k :: k !in todo && k != COMMENT && x in Changeable(k)
    }

    ghost predicate AddIsClear()
      requires Set()
    {
      && (forall k | k in ws && k != COMMENT :: Clear(h, gs[k], ws[k]))
      && (forall k, k' | k != COMMENT && k != k' :: Grafted(k) !! Added(k'))
    }

    /** Entry `k` is now `r`, and stands for `v`; nothing has come in from elsewhere. */
    ghost predicate EntryOk(h': Heap<Id>, k: string, r: Ref<Id>, v: Json)
      requires Set()
    {
      && Stands(h', r, v)
      && Reach(h', r, v) <= Reached(k) + Added(k)
      && Mergeable(h', r, v) <= Changeable(k) + Grafted(k)
      && (AddIsClear() && k != COMMENT ==> Clear(h', r, v))
    }

    /** `m` has an entry for each of the node's. */
    ghost predicate Shaped(h': Heap<Id>, m: map<string, Json>) {
      && d in h' && h'[d].Fields? && h'[d].fields.Keys == m.Keys
      && vs.Keys <= m.Keys <= vs.Keys + ws.Keys
    }

    ghost predicate Untouched(h': Heap<Id>, todo: set<string>, m: map<string, Json>)
      requires Set() && Shaped(h', m)
    {
      forall k | k in todo && k in m :: k in vs && h'[d].fields[k] == fs[k] && m[k] == vs[k]
    }

    ghost predicate Entries(h': Heap<Id>, m: map<string, Json>)
      requires Set() && Shaped(h', m)
    {
      forall k | k in m :: EntryOk(h', k, h'[d].fields[k], m[k])
    }

    /** The loop while the keys in `todo` have still to be merged: `m` is what the entries stand
        for. */
    ghost predicate Midway(h': Heap<Id>, todo: set<string>, m: map<string, Json>)
      requires Set()
    {
      Confined(h', todo) && WellKept(h') && Shaped(h', m) && Untouched(h', todo, m) && Entries(h', m)
    }
  }

  /** What becomes of the entries when key `k` is merged. */
  function NextModel(m: map<string, Json>, ws: map<string, Json>, k: string): Option<map<string, Json>>
    requires k in ws
  {
    if k !in m then Some(m[k := ws[k]])
    else if k == COMMENT then Some(m)
    else match Merge(m[k], ws[k])
      case Some(v) => Some(m[k := v])
      case None => None
  }

  lemma ReachIsInHeap<Id>(h: Heap<Id>, r: Ref<Id>, v: Json)
    requires Stands(h, r, v)
    ensures forall x | x in Reach(h, r, v) :: x in h
  {
    forall x | x in Reach(h, r, v)
      ensures x in h
    {
      var _ := ReachStands(h, r, v, x);
    }
  }

  lemma ChangeableIsReached<Id>(c: Scene<Id>, k: string)
    requires c.Set()
    ensures c.Changeable(k) <= c.Reached(k) && c.Grafted(k) <= c.Added(k)
  {
    if k in c.vs { MergeableIsReached(c.h, c.fs[k], c.vs[k]); }
    if k in c.ws { MergeableIsReached(c.h, c.gs[k], c.ws[k]); }
  }

  /** A node other than `d` that has changed lies below no entry still to be merged, nor in `add`. */
  lemma ChangedIsDone<Id>(c: Scene<Id>, h': Heap<Id>, todo: set<string>, x: Id)
    requires c.Ready() && c.Confined(h', todo) && x in c.h && x != c.d && h'[x] != c.h[x]
    ensures forall k | k in todo :: x !in c.Reached(k)
    ensures forall k :: x !in c.Added(k)
  {
    var k' :| k' !in todo && k' != COMMENT && x in c.Changeable(k');
    ChangeableIsReached(c, k');
  }

  /** The entries of `add` are as they were. */
  lemma AddStillThere<Id>(c: Scene<Id>, h': Heap<Id>, todo: set<string>, k: string)
    requires c.Ready() && c.Confined(h', todo) && k in c.ws
    ensures Stands(h', c.gs[k], c.ws[k])
    ensures Reach(h', c.gs[k], c.ws[k]) == c.Added(k)
    ensures Mergeable(h', c.gs[k], c.ws[k]) == c.Grafted(k)
    ensures Clear(h', c.gs[k], c.ws[k]) == Clear(c.h, c.gs[k], c.ws[k])
  {
    ReachIsInHeap(c.h, c.gs[k], c.ws[k]);
    forall x | x in c.Added(k)
      ensures h'[x] == c.h[x]
    {
      if h'[x] != c.h[x] {
        ChangedIsDone(c, h', todo, x);
      }
    }
    Unchanged(c.h, h', c.gs[k], c.ws[k]);
  }

  /** So are the entries that have still to be merged. */
  lemma TodoStillThere<Id>(c: Scene<Id>, h': Heap<Id>, todo: set<string>, k: string)
    requires c.Ready() && c.Confined(h', todo) && k in todo && k in c.vs
    ensures Stands(h', c.fs[k], c.vs[k])
    ensures Reach(h', c.fs[k], c.vs[k]) == c.Reached(k)
    ensures Mergeable(h', c.fs[k], c.vs[k]) == c.Changeable(k)
    ensures Clear(h', c.fs[k], c.vs[k]) == Clear(c.h, c.fs[k], c.vs[k])
  {
    ReachIsInHeap(c.h, c.fs[k], c.vs[k]);
    forall x | x in c.Reached(k)
      ensures h'[x] == c.h[x]
    {
      if h'[x] != c.h[x] {
        ChangedIsDone(c, h', todo, x);
      }
    }
    Unchanged(c.h, h', c.fs[k], c.vs[k]);
  }

  /** An entry stays what it is when nothing below it changes. */
  lemma EntryStays<Id>(c: Scene<Id>, h1: Heap<Id>, h2: Heap<Id>, k: string, r: Ref<Id>, v: Json)
    requires c.Set() && c.EntryOk(h1, k, r, v) && h2.Keys == h1.Keys
    requires forall x | x in Reach(h1, r, v) && x in h1 :: h2[x] == h1[x]
    ensures c.EntryOk(h2, k, r, v)
  {
    ReachIsInHeap(h1, r, v);
    Unchanged(h1, h2, r, v);
  }

  lemma EntryParts<Id>(c: Scene<Id>, h': Heap<Id>, m: map<string, Json>, k: string)
    requires c.Set() && c.Shaped(h', m) && c.Entries(h', m) && k in m
    ensures c.EntryOk(h', k, h'[c.d].fields[k], m[k])
  {
  }

  lemma StillListed(order: seq<string>, keys: set<string>, k: string)
    requires Listed(order, keys) && k !in keys
    ensures Listed(order + [k], keys + {k})
  {
  }

  /** Changing the node itself, or what is below a key that is no longer to be merged. */
  lemma StillConfined<Id>(c: Scene<Id>, h: Heap<Id>, h': Heap<Id>, todo: set<string>, k: string)
    requires c.Set() && c.Confined(h, todo) && h'.Keys == h.Keys
    requires forall x | x in h && h'[x] != h[x] :: x == c.d || (k != COMMENT && x in c.Changeable(k))
    ensures h'.Keys == h.Keys && c.Confined(h', todo - {k})
  {
    forall x | x in c.h && x != c.d && h'[x] != c.h[x]
      ensures exists k' :: k' !in todo - {k} && k' != COMMENT && x in c.Changeable(k')
    {
      if h[x] != c.h[x] {
        var k' :| k' !in todo && k' != COMMENT && x in c.Changeable(k');
        assert k' !in todo - {k};
      } else {
        assert k !in todo - {k};
      }
    }
  }

  lemma SelfIsApart<Id>(c: Scene<Id>, h: Heap<Id>, k: string, r: Ref<Id>, v: Json)
    requires c.Ready() && c.EntryOk(h, k, r, v)
    ensures c.d !in Reach(h, r, v)
  {
  }

  lemma HungHeap<Id>(h: Heap<Id>, d: Id, k: string, r: Ref<Id>)
    requires WellKept(h) && d in h && h[d].Fields? && k !in h[d].fields
    ensures
      var h' := Hung(h, d, k, r);
      && WellKept(h') && h'.Keys == h.Keys && h'[d].Fields? && h'[d].fields == h[d].fields[k := r]
      && forall x | x in h && x != d :: h'[x] == h[x]
  {
    StillListed(h[d].order, h[d].fields.Keys, k);
    assert h[d].fields[k := r].Keys == h[d].fields.Keys + {k};
  }

  lemma HungShape<Id>(c: Scene<Id>, h: Heap<Id>, todo: set<string>, m: map<string, Json>, k: string)
    requires c.Set() && c.Shaped(h, m) && c.Untouched(h, todo, m) && k in c.ws && k !in m
    ensures
      var h', m' := Hung(h, c.d, k, c.gs[k]), m[k := c.ws[k]];
      c.Shaped(h', m') && c.Untouched(h', todo - {k}, m')
  {
    var h', m' := Hung(h, c.d, k, c.gs[k]), m[k := c.ws[k]];
    assert h'[c.d].fields.Keys == h[c.d].fields.Keys + {k};
    assert m'.Keys == m.Keys + {k};
  }

  lemma HungEntryAt<Id>(
      c: Scene<Id>, h: Heap<Id>, h': Heap<Id>, todo: set<string>, m: map<string, Json>, k: string,
      k': string)
    requires c.Ready() && c.Confined(h, todo) && c.Shaped(h, m) && c.Entries(h, m)
    requires k in c.ws && k !in m && c.Shaped(h', m[k := c.ws[k]]) && (k' == k || k' in m)
    requires h'.Keys == h.Keys && h'[c.d].fields == h[c.d].fields[k := c.gs[k]]
    requires forall x | x in h && x != c.d :: h'[x] == h[x]
    ensures c.EntryOk(h', k', h'[c.d].fields[k'], m[k := c.ws[k]][k'])
  {
    assert c.Set();
    hide Scene.EntryOk, Scene.Ready, Scene.Set, Scene.Confined, WellKept, Stands, Hung;
    if k' == k {
      HungEntry(c, h, h', todo, k);
    } else {
      assert c.EntryOk(h, k', h[c.d].fields[k'], m[k']);
      hide Scene.Entries;
      OtherEntry(c, h, h', k', h[c.d].fields[k'], m[k']);
    }
  }

  lemma HungEntries<Id>(c: Scene<Id>, h: Heap<Id>, todo: set<string>, m: map<string, Json>, k: string)
    requires c.Ready() && c.Confined(h, todo) && c.Shaped(h, m) && c.Entries(h, m)
    requires k in c.ws && k !in m && WellKept(h) && c.Shaped(Hung(h, c.d, k, c.gs[k]), m[k := c.ws[k]])
    ensures c.Entries(Hung(h, c.d, k, c.gs[k]), m[k := c.ws[k]])
  {
    var h', m' := Hung(h, c.d, k, c.gs[k]), m[k := c.ws[k]];
    HungHeap(h, c.d, k, c.gs[k]);
    forall k' | k' in m'
      ensures c.EntryOk(h', k', h'[c.d].fields[k'], m'[k'])
    {
      hide *;
      HungEntryAt(c, h, h', todo, m, k, k');
    }
    hide Scene.EntryOk, Scene.Ready, Scene.Set, Scene.Confined, WellKept, Stands, Hung;
  }

  /** A new entry refers to what `add` refers to. */
  lemma HangIsRight<Id>(c: Scene<Id>, h: Heap<Id>, todo: set<string>, m: map<string, Json>, k: string)
    requires c.Ready() && c.Midway(h, todo, m) && k in todo && k in c.ws && k !in m
    ensures c.Midway(Hung(h, c.d, k, c.gs[k]), todo - {k}, m[k := c.ws[k]])
  {
    assert c.Set() && c.d in h && h[c.d].Fields? && k !in h[c.d].fields && h.Keys == c.h.Keys;
    hide Scene.EntryOk, Scene.Ready, Scene.Set, Scene.Confined, Scene.Shaped, Scene.Untouched,
         Scene.Entries, WellKept, Stands, Hung;
    HungHeap(h, c.d, k, c.gs[k]);
    StillConfined(c, h, Hung(h, c.d, k, c.gs[k]), todo, k);
    HungShape(c, h, todo, m, k);
    HungEntries(c, h, todo, m, k);
  }

  lemma OtherEntry<Id>(c: Scene<Id>, h: Heap<Id>, h': Heap<Id>, k: string, r: Ref<Id>, v: Json)
    requires c.Ready() && c.EntryOk(h, k, r, v) && h'.Keys == h.Keys
    requires forall x | x in h && x != c.d :: h'[x] == h[x]
    ensures c.EntryOk(h', k, r, v)
  {
    SelfIsApart(c, h, k, r, v);
    EntryStays(c, h, h', k, r, v);
  }

  lemma HungEntry<Id>(c: Scene<Id>, h: Heap<Id>, h': Heap<Id>, todo: set<string>, k: string)
    requires c.Ready() && c.Confined(h, todo) && k in c.ws && c.d in h && h'.Keys == h.Keys
    requires forall x | x in h && x != c.d :: h'[x] == h[x]
    ensures c.EntryOk(h', k, c.gs[k], c.ws[k])
  {
    AddStillThere(c, h, todo, k);
    ReachIsInHeap(h, c.gs[k], c.ws[k]);
    Unchanged(h, h', c.gs[k], c.ws[k]);
  }

  /** The recursive call for a key that both have changes nothing but what is below the key. */
  lemma DescentIsConfined<Id>(
      c: Scene<Id>, h: Heap<Id>, h': Heap<Id>, todo: set<string>, k: string, w: Json)
    requires c.Ready() && c.Confined(h, todo) && k in todo && k in c.vs && k in c.ws && k != COMMENT
    requires Stands(h, c.fs[k], c.vs[k]) && Stands(h, c.gs[k], c.ws[k])
    requires MergedTo(h, h', c.fs[k], c.gs[k], c.vs[k], c.ws[k], w) && c.d in h
    ensures h'.Keys == h.Keys && c.Confined(h', todo - {k}) && h'[c.d] == h[c.d]
    ensures forall x | x in h && h'[x] != h[x] :: x in c.Changeable(k)
    ensures c.EntryOk(h', k, c.fs[k], w)
  {
    TodoStillThere(c, h, todo, k);
    AddStillThere(c, h, todo, k);
    ChangeableIsReached(c, k);
    assert c.d !in c.Reached(k);
    hide Stands, Reach, Mergeable, Clear, WellKept;
    forall x | x in h && h'[x] != h[x]
      ensures x in c.Changeable(k)
    {
    }
    StillConfined(c, h, h', todo, k);
  }

  lemma OtherThanMerged<Id>(
      c: Scene<Id>, h: Heap<Id>, h': Heap<Id>, k: string, k': string, r: Ref<Id>, v: Json)
    requires c.Ready() && k != k' && k != COMMENT && c.EntryOk(h, k', r, v) && h'.Keys == h.Keys
    requires forall x | x in h && h'[x] != h[x] :: x in c.Changeable(k)
    ensures c.EntryOk(h', k', r, v)
  {
    ChangeableIsReached(c, k);
    forall x | x in Reach(h, r, v) && x in h
      ensures h'[x] == h[x]
    {
      assert x in c.Reached(k') || x in c.Added(k');
      assert c.Changeable(k) !! c.Reached(k') && c.Reached(k) !! c.Added(k');
    }
    EntryStays(c, h, h', k', r, v);
  }

  lemma DescentEntryAt<Id>(
      c: Scene<Id>, h: Heap<Id>, h': Heap<Id>, m: map<string, Json>, k: string, w: Json, k': string)
    requires c.Ready() && c.Shaped(h, m) && c.Entries(h, m) && k in m && k' in m && k != COMMENT
    requires h'.Keys == h.Keys && h'[c.d] == h[c.d]
    requires forall x | x in h && h'[x] != h[x] :: x in c.Changeable(k)
    requires c.EntryOk(h', k, h[c.d].fields[k], w)
    ensures c.EntryOk(h', k', h'[c.d].fields[k'], m[k := w][k'])
  {
    if k' != k {
      EntryParts(c, h, m, k');
      assert m[k := w][k'] == m[k'];
      hide *;
      OtherThanMerged(c, h, h', k, k', h[c.d].fields[k'], m[k']);
    } else {
      hide *;
    }
  }

  lemma DescentShape<Id>(
      c: Scene<Id>, h: Heap<Id>, h': Heap<Id>, todo: set<string>, m: map<string, Json>, k: string, w: Json)
    requires c.Set() && c.Shaped(h, m) && c.Untouched(h, todo, m) && k in m
    requires h'.Keys == h.Keys && h'[c.d] == h[c.d]
    ensures c.Shaped(h', m[k := w]) && c.Untouched(h', todo - {k}, m[k := w])
  {
    assert m[k := w].Keys == m.Keys;
  }

  lemma DescentEntries<Id>(
      c: Scene<Id>, h: Heap<Id>, h': Heap<Id>, m: map<string, Json>, k: string, w: Json)
    requires c.Ready() && c.Shaped(h, m) && c.Entries(h, m) && k in m && k != COMMENT
    requires h'.Keys == h.Keys && h'[c.d] == h[c.d] && c.Shaped(h', m[k := w])
    requires forall x | x in h && h'[x] != h[x] :: x in c.Changeable(k)
    requires c.EntryOk(h', k, h[c.d].fields[k], w)
    ensures c.Entries(h', m[k := w])
  {
    var m' := m[k := w];
    forall k' | k' in m'
      ensures c.EntryOk(h', k', h'[c.d].fields[k'], m'[k'])
    {
      hide *;
      DescentEntryAt(c, h, h', m, k, w, k');
    }
    hide Scene.EntryOk, Scene.Ready, Scene.Set, Scene.Confined, WellKept, Stands;
  }

  lemma DescentIsRight<Id>(
      c: Scene<Id>, h: Heap<Id>, h': Heap<Id>, todo: set<string>, m: map<string, Json>, k: string,
      w: Json)
    requires c.Ready() && c.Midway(h, todo, m) && k in todo && k in c.vs && k in c.ws && k in m
    requires k != COMMENT && h[c.d].fields[k] == c.fs[k] && m[k] == c.vs[k]
    requires Stands(h, c.fs[k], c.vs[k]) && Stands(h, c.gs[k], c.ws[k])
    requires MergedTo(h, h', c.fs[k], c.gs[k], c.vs[k], c.ws[k], w)
    ensures c.Midway(h', todo - {k}, m[k := w])
  {
    assert c.Set() && c.d in h && h[c.d].Fields? && h.Keys == c.h.Keys && WellKept(h');
    DescentIsConfined(c, h, h', todo, k, w);
    hide Scene.EntryOk, Scene.Ready, Scene.Set, Scene.Confined, Scene.Shaped, Scene.Untouched,
         Scene.Entries, WellKept, Stands, MergedTo;
    DescentShape(c, h, h', todo, m, k, w);
    DescentEntries(c, h, h', m, k, w);
  }

  /** Nothing happens to the entry with the comments. */
  lemma KeepIsRight<Id>(c: Scene<Id>, h: Heap<Id>, todo: set<string>, m: map<string, Json>, k: string)
    requires c.Set() && c.Midway(h, todo, m)
    ensures c.Midway(h, todo - {k}, m)
  {
    StillConfined(c, h, h, todo, k);
    hide Scene.EntryOk, Scene.Set, Scene.Confined, WellKept, Stands;
  }

  /** One round of the loop. */
  lemma KeyIsRight<Id>(
      c: Scene<Id>, h: Heap<Id>, todo: set<string>, m: map<string, Json>, k: string, fuel: nat)
    requires c.Ready() && c.Midway(h, todo, m) && k in todo && k in c.ws && Enough(c.ws[k], fuel)
    ensures
      var out := MergeKey(h, c.d, k, c.gs[k], fuel);
      match NextModel(m, c.ws, k)
      case None => out.Raised?
      case Some(m') => out.Done? && c.Midway(out.heap, todo - {k}, m')
    decreases fuel, 1
  {
    assert c.Shaped(h, m) && c.Set() && c.Untouched(h, todo, m) && c.Confined(h, todo) && WellKept(h);
    if k !in m {
      HangIsRight(c, h, todo, m, k);
    } else if k == COMMENT {
      KeepIsRight(c, h, todo, m, k);
    } else {
      DescentOfKey(c, h, todo, m, k);
      assert k in c.vs && h[c.d].fields[k] == c.fs[k] && m[k] == c.vs[k];
      hide Scene.Ready, Scene.Set, Scene.Midway, Stands, Reach, Mergeable, Clear, MergedTo, MergeAt;
      MergeIsRight(h, c.fs[k], c.gs[k], c.vs[k], c.ws[k], fuel);
      var out := MergeAt(h, c.fs[k], c.gs[k], fuel);
      if out.Done? {
        DescentIsRight(c, h, out.heap, todo, m, k, Merge(m[k], c.ws[k]).value);
      }
    }
  }

  /** The recursive call finds what it needs. */
  lemma DescentOfKey<Id>(c: Scene<Id>, h: Heap<Id>, todo: set<string>, m: map<string, Json>, k: string)
    requires c.Ready() && c.Midway(h, todo, m) && k in todo && k in c.ws && k in m && k != COMMENT
    ensures k in c.vs && Stands(h, c.fs[k], c.vs[k]) && Stands(h, c.gs[k], c.ws[k])
    ensures Clear(h, c.fs[k], c.vs[k])
    ensures Reach(h, c.fs[k], c.vs[k]) !! Reach(h, c.gs[k], c.ws[k])
  {
    assert k in c.vs && c.Confined(h, todo);
    hide Scene.Midway;
    TodoStillThere(c, h, todo, k);
    AddStillThere(c, h, todo, k);
    assert c.Reached(k) !! c.Added(k);
  }

  /** `m` when the keys in `todo` have still to be merged. */
  ghost predicate Halfway(
      m: map<string, Json>, d: map<string, Json>, a: map<string, Json>, todo: set<string>)
  {
    forall k :: At(m, k) == if k in todo then At(d, k) else Pair(At(d, k), At(a, k), k)
  }

  lemma HalfwayStarts(d: map<string, Json>, a: map<string, Json>)
    ensures Halfway(d, d, a, a.Keys)
  {
  }

  lemma HalfwayStep(
      m: map<string, Json>, d: map<string, Json>, a: map<string, Json>, todo: set<string>, k: string)
    requires Halfway(m, d, a, todo) && k in todo && k in a
    ensures match NextModel(m, a, k)
      case Some(m') => Halfway(m', d, a, todo - {k})
      case None => Merge(Dict(d), Dict(a)).None?
  {
    assert At(m, k) == At(d, k);
    if NextModel(m, a, k).None? {
      assert k in Shared(d, a);
    }
  }

  lemma HalfwayEnds(m: map<string, Json>, d: map<string, Json>, a: map<string, Json>)
    requires Halfway(m, d, a, {})
    ensures Merge(Dict(d), Dict(a)) == Some(Dict(m))
  {
    hide Merge;
    MergeByKey(d, a);
    forall k
      ensures Pair(At(d, k), At(a, k), k) == At(m, k) != Broken
    {
      NeverBroken(m, k);
    }
    SameFields(m, Merge(Dict(d), Dict(a)).value.fields);
  }

  ghost predicate NoRepeats(order: seq<string>) {
    forall i, j | 0 <= i < j < |order| :: order[i] != order[j]
  }

  ghost function Keys(order: seq<string>): set<string> {
    set k | k in order
  }

  lemma KeysOfRest(order: seq<string>)
    requires order != [] && NoRepeats(order)
    ensures order[0] in Keys(order) && Keys(order[1..]) == Keys(order) - {order[0]}
    ensures NoRepeats(order[1..])
  {
    assert order == [order[0]] + order[1..];
  }

  /** The loop. */
  lemma PairsAreRight<Id>(
      c: Scene<Id>, h: Heap<Id>, order: seq<string>, m: map<string, Json>, fuel: nat)
    requires c.Ready() && NoRepeats(order) && Keys(order) <= c.ws.Keys
    requires c.Midway(h, Keys(order), m) && Halfway(m, c.vs, c.ws, Keys(order))
    requires forall k | k in c.ws :: Enough(c.ws[k], fuel)
    ensures
      var out := MergePairs(h, c.d, c.gs, order, fuel);
      match Merge(Dict(c.vs), Dict(c.ws))
      case None => out.Raised?
      case Some(v) => out.Done? && v.Dict? && c.Midway(out.heap, {}, v.fields)
    decreases fuel, |order| + 2
  {
    assert c.gs.Keys == c.ws.Keys && c.Set();
    hide Scene.Ready, Scene.Set, Scene.Midway, Halfway, Merge, NoRepeats, NextModel, Enough, Keys;
    if order == [] {
      NoKeys();
      HalfwayEnds(m, c.vs, c.ws);
    } else {
      var k := order[0];
      KeysOfRest(order);
      KeyIsRight(c, h, Keys(order), m, k, fuel);
      HalfwayStep(m, c.vs, c.ws, Keys(order), k);
      var next, out := NextModel(m, c.ws, k), MergeKey(h, c.d, k, c.gs[k], fuel);
      if next.Some? {
        PairsAreRight(c, out.heap, order[1..], next.value, fuel);
      }
    }
  }

  lemma NoKeys()
    ensures Keys([]) == {}
  {
  }

  lemma SceneIsReady<Id>(
      h: Heap<Id>, dst: Ref<Id>, add: Ref<Id>, vs: map<string, Json>, ws: map<string, Json>)
    requires Stands(h, dst, Dict(vs)) && Stands(h, add, Dict(ws)) && Clear(h, dst, Dict(vs))
    requires Reach(h, dst, Dict(vs)) !! Reach(h, add, Dict(ws))
    ensures
      var c := Scene(h, dst.id, h[dst.id].fields, vs, h[add.id].fields, ws);
      c.Ready()
  {
    var c := Scene(h, dst.id, h[dst.id].fields, vs, h[add.id].fields, ws);
    assert c.Set();
    forall k
      ensures c.Reached(k) <= Reach(h, dst, Dict(vs)) && c.Added(k) <= Reach(h, add, Dict(ws))
      ensures c.d !in c.Reached(k) && c.d !in c.Added(k)
    {
      if k in vs { NotBelowItself(h, dst.id, Dict(vs), c.fs[k], vs[k]); }
    }
  }

  lemma SceneBegins<Id>(c: Scene<Id>)
    requires c.Ready() && WellKept(c.h) && c.d in c.h && c.h[c.d].Fields? && c.h[c.d].fields == c.fs
    ensures c.Midway(c.h, c.ws.Keys, c.vs)
  {
  }

  lemma EndStands<Id>(c: Scene<Id>, h': Heap<Id>, m: map<string, Json>)
    requires c.Set() && c.Shaped(h', m) && c.Entries(h', m)
    ensures Stands(h', To(c.d), Dict(m))
  {
    forall k | k in m
      ensures Stands(h', h'[c.d].fields[k], m[k])
    {
      EntryParts(c, h', m, k);
    }
  }

  ghost predicate SceneOf<Id>(
      c: Scene<Id>, dst: Ref<Id>, add: Ref<Id>)
  {
    && Stands(c.h, dst, Dict(c.vs)) && Stands(c.h, add, Dict(c.ws))
    && c.d == dst.id && c.fs == c.h[dst.id].fields && c.gs == c.h[add.id].fields
  }

  lemma SceneParts<Id>(c: Scene<Id>, dst: Ref<Id>, add: Ref<Id>, k: string)
    requires SceneOf(c, dst, add)
    ensures c.Set() && dst == To(c.d)
    ensures Stands(c.h, dst, Dict(c.vs)) && Stands(c.h, add, Dict(c.ws))
    ensures c.Reached(k) <= Reach(c.h, dst, Dict(c.vs)) && c.Added(k) <= Reach(c.h, add, Dict(c.ws))
    ensures k != COMMENT ==> c.Changeable(k) <= Mergeable(c.h, dst, Dict(c.vs))
    ensures k != COMMENT ==> c.Grafted(k) <= Mergeable(c.h, add, Dict(c.ws))
    ensures c.d in Reach(c.h, dst, Dict(c.vs)) && c.d in Mergeable(c.h, dst, Dict(c.vs))
  {
  }

  lemma EndReach<Id>(c: Scene<Id>, h': Heap<Id>, m: map<string, Json>, dst: Ref<Id>, add: Ref<Id>)
    requires SceneOf(c, dst, add) && c.Set() && c.Shaped(h', m) && c.Entries(h', m)
    requires Stands(h', dst, Dict(m))
    ensures Reach(h', dst, Dict(m)) <= Reach(c.h, dst, Dict(c.vs)) + Reach(c.h, add, Dict(c.ws))
  {
    forall x | x in Reach(h', dst, Dict(m))
      ensures x in Reach(c.h, dst, Dict(c.vs)) + Reach(c.h, add, Dict(c.ws))
    {
      SceneParts(c, dst, add, "");
      if x != dst.id {
        var k :| k in m && x in Reach(h', h'[c.d].fields[k], m[k]);
        EntryParts(c, h', m, k);
        SceneParts(c, dst, add, k);
        hide Stands, Reach, Mergeable, Clear;
      }
    }
  }

  lemma EndMergeable<Id>(c: Scene<Id>, h': Heap<Id>, m: map<string, Json>, dst: Ref<Id>, add: Ref<Id>)
    requires SceneOf(c, dst, add) && c.Set() && c.Shaped(h', m) && c.Entries(h', m)
    requires Stands(h', dst, Dict(m))
    ensures
      Mergeable(h', dst, Dict(m)) <= Mergeable(c.h, dst, Dict(c.vs)) + Mergeable(c.h, add, Dict(c.ws))
  {
    forall x | x in Mergeable(h', dst, Dict(m))
      ensures x in Mergeable(c.h, dst, Dict(c.vs)) + Mergeable(c.h, add, Dict(c.ws))
    {
      SceneParts(c, dst, add, "");
      if x != dst.id {
        var k :| k in m && k != COMMENT && x in Mergeable(h', h'[c.d].fields[k], m[k]);
        EntryParts(c, h', m, k);
        SceneParts(c, dst, add, k);
        hide Stands, Reach, Mergeable, Clear;
      }
    }
  }

  lemma EndFrame<Id>(c: Scene<Id>, h': Heap<Id>, dst: Ref<Id>, add: Ref<Id>)
    requires SceneOf(c, dst, add) && c.Set() && c.Confined(h', {})
    ensures forall x | x in c.h && x !in Mergeable(c.h, dst, Dict(c.vs)) :: h'[x] == c.h[x]
  {
    forall x | x in c.h && h'[x] != c.h[x]
      ensures x in Mergeable(c.h, dst, Dict(c.vs))
    {
      SceneParts(c, dst, add, "");
      if x != c.d {
        var k :| k !in {} && k != COMMENT && x in c.Changeable(k);
        SceneParts(c, dst, add, k);
      }
    }
  }

  /** Two entries of the outcome share nothing that can be changed. */
  lemma EndApart<Id>(c: Scene<Id>, h': Heap<Id>, m: map<string, Json>, k: string, k': string)
    requires c.Ready() && c.AddIsClear() && c.Shaped(h', m) && c.Entries(h', m)
    requires k in m && k' in m && k != k' && k != COMMENT
    ensures c.EntryOk(h', k, h'[c.d].fields[k], m[k]) && c.EntryOk(h', k', h'[c.d].fields[k'], m[k'])
    ensures Clear(h', h'[c.d].fields[k], m[k])
    ensures Mergeable(h', h'[c.d].fields[k], m[k]) !! Reach(h', h'[c.d].fields[k'], m[k'])
  {
    EntryParts(c, h', m, k);
    EntryParts(c, h', m, k');
    ChangeableIsReached(c, k);
    hide Stands, Reach, Mergeable, Clear, Scene.Set, Scene.Reached, Scene.Changeable, Scene.Added,
         Scene.Grafted, Scene.Entries, Scene.Shaped;
    assert c.Changeable(k) !! c.Reached(k') && c.Reached(k) !! c.Added(k');
    assert c.Grafted(k) !! c.Added(k') && c.Reached(k') !! c.Added(k);
  }

  lemma EndClear<Id>(c: Scene<Id>, h': Heap<Id>, m: map<string, Json>)
    requires c.Ready() && c.AddIsClear() && c.Shaped(h', m) && c.Entries(h', m)
    requires Stands(h', To(c.d), Dict(m))
    ensures Clear(h', To(c.d), Dict(m))
  {
    forall k | k in m && k != COMMENT
      ensures Clear(h', h'[c.d].fields[k], m[k])
    {
      EntryParts(c, h', m, k);
    }
    forall k, k' | k in m && k != COMMENT && k' in m && k' != k
      ensures Mergeable(h', h'[c.d].fields[k], m[k]) !! Reach(h', h'[c.d].fields[k'], m[k'])
    {
      EndApart(c, h', m, k, k');
    }
    hide Scene.Ready, Scene.AddIsClear, Scene.Entries;
  }

  lemma ClearAdd<Id>(c: Scene<Id>, dst: Ref<Id>, add: Ref<Id>)
    requires SceneOf(c, dst, add) && c.Set() && Clear(c.h, add, Dict(c.ws))
    ensures c.AddIsClear()
  {
    forall k, k' | k != COMMENT && k != k'
      ensures c.Grafted(k) !! c.Added(k')
    {
      if k in c.ws && k' in c.ws {
        assert Mergeable(c.h, c.gs[k], c.ws[k]) !! Reach(c.h, c.gs[k'], c.ws[k']);
      }
    }
  }

  lemma MidwayParts<Id>(c: Scene<Id>, h': Heap<Id>, todo: set<string>, m: map<string, Json>)
    requires c.Ready() && c.Midway(h', todo, m)
    ensures c.Set() && c.Shaped(h', m) && c.Entries(h', m) && c.Confined(h', todo)
    ensures h'.Keys == c.h.Keys && WellKept(h')
  {
  }

  /** What the loop leaves behind is the merge. */
  lemma SceneEnds<Id>(c: Scene<Id>, h': Heap<Id>, dst: Ref<Id>, add: Ref<Id>, m: map<string, Json>)
    requires SceneOf(c, dst, add) && c.Ready() && c.Midway(h', {}, m)
    ensures MergedTo(c.h, h', dst, add, Dict(c.vs), Dict(c.ws), Dict(m))
  {
    hide Scene.Ready, Scene.Set, Scene.Midway, Scene.Entries, Scene.Confined, Scene.AddIsClear,
         Scene.Shaped, Stands, Reach, Mergeable, Clear, WellKept, SceneOf;
    MidwayParts(c, h', {}, m);
    SceneParts(c, dst, add, "");
    EndStands(c, h', m);
    EndReach(c, h', m, dst, add);
    EndMergeable(c, h', m, dst, add);
    EndFrame(c, h', dst, add);
    if Clear(c.h, add, Dict(c.ws)) {
      ClearAdd(c, dst, add);
      EndClear(c, h', m);
    }
  }

  /** merge_json does to a heap what `Merge` does to the values, and raises its exception exactly when
      there is no merge, provided that `dst` is clear and shares nothing with `add`. */
  lemma MergeIsRight<Id>(
      h: Heap<Id>, dst: Ref<Id>, add: Ref<Id>, dv: Json, av: Json, fuel: nat)
    requires WellKept(h) && Stands(h, dst, dv) && Stands(h, add, av)
    requires Clear(h, dst, dv) && Reach(h, dst, dv) !! Reach(h, add, av) && Enough(av, fuel)
    ensures
      var out := MergeAt(h, dst, add, fuel);
      match Merge(dv, av)
      case None => out.Raised?
      case Some(w) => out.Done? && MergedTo(h, out.heap, dst, add, dv, av, w)
    decreases fuel, 0
  {
    match (dv, av)
    case (Dict(vs), Dict(ws)) =>
      var c := Scene(h, dst.id, h[dst.id].fields, vs, h[add.id].fields, ws);
      var order := h[add.id].order;
      assert Keys(order) == ws.Keys && NoRepeats(order);
      SceneIsReady(h, dst, add, vs, ws);
      SceneBegins(c);
      HalfwayStarts(vs, ws);
      hide Scene.Ready, Scene.Midway, Halfway, Merge, NoRepeats, Keys, MergedTo, Reach, Clear, Mergeable;
      PairsAreRight(c, h, order, vs, fuel - 1);
      var merged, out := Merge(dv, av), MergePairs(h, c.d, c.gs, order, fuel - 1);
      if merged.Some? {
        SceneEnds(c, out.heap, dst, add, merged.value.fields);
      }
    case (List(vs), List(ws)) => ListsAreRight(h, dst, add, vs, ws);
    case _ =>
  }

  lemma ListsAreRight<Id>(h: Heap<Id>, dst: Ref<Id>, add: Ref<Id>, vs: seq<Json>, ws: seq<Json>)
    requires WellKept(h) && Stands(h, dst, List(vs)) && Stands(h, add, List(ws))
    requires Reach(h, dst, List(vs)) !! Reach(h, add, List(ws))
    ensures
      var h' := h[dst.id := Items(h[dst.id].items + h[add.id].items)];
      MergedTo(h, h', dst, add, List(vs), List(ws), List(vs + ws))
  {
    var xs, ys := h[dst.id].items, h[add.id].items;
    var h' := h[dst.id := Items(xs + ys)];
    forall i | 0 <= i < |vs + ws|
      ensures Stands(h', (xs + ys)[i], (vs + ws)[i])
      ensures Reach(h', (xs + ys)[i], (vs + ws)[i]) <= Reach(h, dst, List(vs)) + Reach(h, add, List(ws))
    {
      if i < |vs| {
        NotBelowItself(h, dst.id, List(vs), xs[i], vs[i]);
        ReachIsInHeap(h, xs[i], vs[i]);
        Unchanged(h, h', xs[i], vs[i]);
      } else {
        ReachIsInHeap(h, ys[i - |vs|], ws[i - |vs|]);
        assert Reach(h, ys[i - |vs|], ws[i - |vs|]) <= Reach(h, add, List(ws));
        Unchanged(h, h', ys[i - |vs|], ws[i - |vs|]);
      }
    }
  }
}
