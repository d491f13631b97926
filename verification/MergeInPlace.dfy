/** Merging JSON files in place: `merge_json` changes the nodes of `dst` and hangs nodes of `add` into
    it, which from then on belong to both. */
module InPlaceMerging {
  import opened JsonHeaps
  import opened JsonMerging
  import opened Wrappers

  /** A dictionary or a list, as an object. */
  class Node {
    var content: Content<Node>

    constructor (content: Content<Node>)
      ensures this.content == content
    {
      this.content := content;
    }
  }

  /** The nodes as a heap. */
  ghost function Memory(nodes: set<Node>): Heap<Node>
    reads nodes
  {
    map n | n in nodes :: n.content
  }

  ghost predicate RefIn(r: Ref<Node>, nodes: set<Node>) {
    r.To? ==> r.id in nodes
  }

  ghost predicate Within(c: Content<Node>, nodes: set<Node>) {
    match c
    case Fields(fs, order) =>
      (forall k | k in fs :: RefIn(fs[k], nodes)) && forall k | k in order :: k in fs
    case Items(xs) => forall i | 0 <= i < |xs| :: RefIn(xs[i], nodes)
  }

  /** The nodes refer to each other only. */
  ghost predicate Closed(nodes: set<Node>)
    reads nodes
  {
    forall n | n in nodes :: Within(n.content, nodes)
  }

  twostate predicate SameKinds(nodes: set<Node>)
    reads nodes
  {
    forall n | n in nodes :: n.content.Fields? == old(n.content.Fields?)
  }

  // ---------------------------------------------------------------- the code

  /** merge_json(dst, add), whatever the nodes share; false stands for the exception. */
  method MergeJson(dst: Ref<Node>, add: Ref<Node>, ghost nodes: set<Node>, ghost fuel: nat)
    returns (ok: bool)
    requires Closed(nodes) && RefIn(dst, nodes) && RefIn(add, nodes)
    requires !MergeAt(Memory(nodes), dst, add, fuel).Unfinished?
    modifies nodes
    ensures Closed(nodes) && SameKinds(nodes)
    ensures MergeAt(old(Memory(nodes)), dst, add, fuel) ==
      if ok then Done(Memory(nodes)) else Raised(Memory(nodes))
    decreases fuel, 0
  {
    match (dst, add)
    case (To(d), To(a)) =>
      match (d.content, a.content) {
        case (Fields(_, _), Fields(fs, order)) =>
          ok := MergeItems(d, fs, order, nodes, fuel - 1);
        case (Items(xs), Items(ys)) =>
          ghost var before := Memory(nodes);
          d.content := Items(xs + ys);
          assert Memory(nodes) == before[d := Items(xs + ys)];
          ok := true;
        case _ =>
          ok := false;
      }
    case _ =>
      ok := false;
  }

  /** The loop over the items of a dictionary `add`. */
  method MergeItems(
      d: Node, fs: map<string, Ref<Node>>, order: seq<string>, ghost nodes: set<Node>, ghost fuel: nat)
    returns (ok: bool)
    requires Closed(nodes) && d in nodes && d.content.Fields? && Within(Fields(fs, order), nodes)
    requires !MergePairs(Memory(nodes), d, fs, order, fuel).Unfinished?
    modifies nodes
    ensures Closed(nodes) && SameKinds(nodes)
    ensures MergePairs(old(Memory(nodes)), d, fs, order, fuel) ==
      if ok then Done(Memory(nodes)) else Raised(Memory(nodes))
    decreases fuel, |order| + 2
  {
    ghost var out := MergePairs(Memory(nodes), d, fs, order, fuel);
    assert order[0..] == order;
    for i := 0 to |order|
      invariant Closed(nodes) && SameKinds(nodes)
      invariant MergePairs(Memory(nodes), d, fs, order[i..], fuel) == out
    {
      var k := order[i];
      assert order[i..][0] == k && order[i..][1..] == order[i + 1..] && k in order;
      ok := MergeItem(d, k, fs[k], nodes, fuel);
      if !ok {
        return;
      }
    }
    ok := true;
  }

  /** The body of the loop. */
  method MergeItem(d: Node, k: string, r: Ref<Node>, ghost nodes: set<Node>, ghost fuel: nat)
    returns (ok: bool)
    requires Closed(nodes) && d in nodes && d.content.Fields? && RefIn(r, nodes)
    requires !MergeKey(Memory(nodes), d, k, r, fuel).Unfinished?
    modifies nodes
    ensures Closed(nodes) && SameKinds(nodes)
    ensures MergeKey(old(Memory(nodes)), d, k, r, fuel) ==
      if ok then Done(Memory(nodes)) else Raised(Memory(nodes))
    decreases fuel, 1
  {
    ok := true;
    if k !in d.content.fields {
      ghost var before := Memory(nodes);
      d.content := Fields(d.content.fields[k := r], d.content.order + [k]);
      assert Memory(nodes) == Hung(before, d, k, r);
    } else if k != COMMENT {
      ok := MergeJson(d.content.fields[k], r, nodes, fuel);
    }
  }

  // ---------------------------------------------------------------- what it is for

  lemma {:induction false} MoreIsEnough(v: Json, n: nat, m: nat)
    requires Enough(v, n) && n <= m
    ensures Enough(v, m)
    decreases v
  {
    match v
    case Dict(vs) =>
      forall k | k in vs
        ensures Enough(vs[k], m - 1)
      {
        MoreIsEnough(vs[k], n - 1, m - 1);
      }
    case _ =>
  }

  lemma {:induction false} EnoughForAll(vs: map<string, Json>, keys: set<string>, v: Json)
    returns (n: nat)
    requires keys <= vs.Keys && v == Dict(vs)
    ensures forall k | k in keys :: Enough(vs[k], n)
    decreases v, |keys|
  {
    n := 0;
    if k :| k in keys {
      var n1 := EnoughForAll(vs, keys - {k}, v);
      var n2 := EnoughFor(vs[k]);
      n := if n1 < n2 then n2 else n1;
      forall k' | k' in keys
        ensures Enough(vs[k'], n)
      {
        if k' == k { MoreIsEnough(vs[k], n2, n); } else { MoreIsEnough(vs[k'], n1, n); }
      }
    }
  }

  /** The calls for merging a value are nested to some depth only. */
  lemma {:induction false} EnoughFor(v: Json) returns (n: nat)
    ensures Enough(v, n)
    decreases v
  {
    n := 0;
    if v.Dict? {
      var m := EnoughForAll(v.fields, v.fields.Keys, v);
      n := m + 1;
    }
  }

  /** merge_json(dst, add) for a `dst` in which no node that can be merged into is shared: the nodes
      then stand for the merge of the values. `add` may share nodes within itself. */
  method MergeFile(
      dst: Ref<Node>, add: Ref<Node>, ghost nodes: set<Node>, ghost dv: Json, ghost av: Json)
    returns (ok: bool)
    requires Closed(nodes) && RefIn(dst, nodes) && RefIn(add, nodes) && WellKept(Memory(nodes))
    requires Stands(Memory(nodes), dst, dv) && Stands(Memory(nodes), add, av)
    requires Clear(Memory(nodes), dst, dv)
    requires Reach(Memory(nodes), dst, dv) !! Reach(Memory(nodes), add, av)
    modifies nodes
    ensures Closed(nodes)
    ensures ok <==> Merge(dv, av).Some?
    ensures ok ==>
      MergedTo(old(Memory(nodes)), Memory(nodes), dst, add, dv, av, Merge(dv, av).value)
  {
    hide Merge, MergeAt, MergedTo, Clear, Reach, Stands, WellKept;
    ghost var fuel := EnoughFor(av);
    MergeIsRight(Memory(nodes), dst, add, dv, av, fuel);
    ok := MergeJson(dst, add, nodes, fuel);
  }

  // ---------------------------------------------------------------- one file after the other

  /** `r` stands for `v`, all its nodes are among `nodes`, and none that can be merged into is
      shared. */
  ghost predicate Tidy(r: Ref<Node>, v: Json, nodes: set<Node>)
    reads nodes
  {
    && Closed(nodes) && RefIn(r, nodes) && WellKept(Memory(nodes))
    && Stands(Memory(nodes), r, v) && Clear(Memory(nodes), r, v)
  }

  lemma TidyReach(r: Ref<Node>, v: Json, nodes: set<Node>)
    requires Tidy(r, v, nodes)
    ensures Reach(Memory(nodes), r, v) <= nodes
  {
    ReachIsInHeap(Memory(nodes), r, v);
  }

  lemma ClosedTogether(nodes: set<Node>, more: set<Node>)
    requires Closed(nodes) && WellKept(Memory(nodes)) && Closed(more) && WellKept(Memory(more))
    ensures Closed(nodes + more) && WellKept(Memory(nodes + more))
  {
    forall n | n in nodes + more
      ensures Within(n.content, nodes + more)
    {
      assert if n in nodes then Within(n.content, nodes) else Within(n.content, more);
    }
    forall n | n in nodes + more && n.content.Fields?
      ensures Listed(n.content.order, n.content.fields.Keys)
    {
      assert if n in nodes then Memory(nodes)[n] == n.content else Memory(more)[n] == n.content;
    }
  }

  /** More nodes make no difference. */
  lemma TidyInMore(r: Ref<Node>, v: Json, nodes: set<Node>, more: set<Node>)
    requires Tidy(r, v, nodes) && Closed(more) && WellKept(Memory(more))
    ensures Tidy(r, v, nodes + more)
    ensures Reach(Memory(nodes + more), r, v) == Reach(Memory(nodes), r, v)
    ensures Mergeable(Memory(nodes + more), r, v) == Mergeable(Memory(nodes), r, v)
  {
    TidyReach(r, v, nodes);
    ClosedTogether(nodes, more);
    hide Closed, WellKept, Stands, Reach, Mergeable, Clear;
    Unchanged(Memory(nodes), Memory(nodes + more), r, v);
  }

  /** Entries that have been loaded one after the other, with the nodes of each. */
  ghost predicate Loaded(
      fs: map<string, Ref<Node>>, order: seq<string>, vs: map<string, Json>,
      own: map<string, set<Node>>, nodes: set<Node>)
    reads nodes
  {
    && fs.Keys == own.Keys && fs.Keys <= vs.Keys && Listed(order, fs.Keys)
    && Closed(nodes) && WellKept(Memory(nodes))
    && (forall k | k in fs :: Tidy(fs[k], vs[k], nodes))
    && (forall k | k in fs :: Reach(Memory(nodes), fs[k], vs[k]) <= own[k])
    && Apart(own, nodes)
  }

  ghost predicate Apart(own: map<string, set<Node>>, nodes: set<Node>) {
    && (forall k | k in own :: own[k] <= nodes)
    && (forall k, k' | k in own && k' in own && k != k' :: own[k] !! own[k'])
  }

  lemma OneMoreLoaded(
      fs: map<string, Ref<Node>>, order: seq<string>, vs: map<string, Json>,
      own: map<string, set<Node>>, nodes: set<Node>, k: string, r: Ref<Node>, more: set<Node>)
    requires Loaded(fs, order, vs, own, nodes) && k in vs && k !in fs
    requires Tidy(r, vs[k], more) && nodes !! more
    ensures Loaded(fs[k := r], order + [k], vs, own[k := more], nodes + more)
  {
    assert Closed(nodes) && WellKept(Memory(nodes)) && Closed(more) && WellKept(Memory(more));
    hide Tidy, Closed, WellKept, Listed, Reach, Stands;
    LoadedParts(fs, order, vs, own, nodes, k, r, more);
    forall k' | k' in fs[k := r]
      ensures Tidy(fs[k := r][k'], vs[k'], nodes + more)
      ensures Reach(Memory(nodes + more), fs[k := r][k'], vs[k']) <= own[k := more][k']
    {
      LoadedStays(fs, order, vs, own, nodes, k, r, more, k');
    }
  }

  lemma LoadedParts(
      fs: map<string, Ref<Node>>, order: seq<string>, vs: map<string, Json>,
      own: map<string, set<Node>>, nodes: set<Node>, k: string, r: Ref<Node>, more: set<Node>)
    requires Loaded(fs, order, vs, own, nodes) && k in vs && k !in fs
    requires Tidy(r, vs[k], more) && nodes !! more
    ensures Closed(nodes + more) && WellKept(Memory(nodes + more))
    ensures Listed(order + [k], fs[k := r].Keys) && own[k := more].Keys == fs[k := r].Keys <= vs.Keys
    ensures Apart(own[k := more], nodes + more)
  {
    hide Stands, Reach, Clear, Mergeable;
    ClosedTogether(nodes, more);
    StillListed(order, fs.Keys, k);
    assert fs[k := r].Keys == fs.Keys + {k};
  }

  lemma LoadedStays(
      fs: map<string, Ref<Node>>, order: seq<string>, vs: map<string, Json>,
      own: map<string, set<Node>>, nodes: set<Node>, k: string, r: Ref<Node>, more: set<Node>,
      k': string)
    requires Loaded(fs, order, vs, own, nodes) && k in vs && k !in fs && (k' == k || k' in fs)
    requires Tidy(r, vs[k], more)
    ensures
      var r' := if k' == k then r else fs[k'];
      Tidy(r', vs[k'], nodes + more)
      && Reach(Memory(nodes + more), r', vs[k']) <= if k' == k then more else own[k']
  {
    if k' == k {
      TidyInMore(r, vs[k], more, nodes);
      TidyReach(r, vs[k], more);
      assert more + nodes == nodes + more;
    } else {
      assert Tidy(fs[k'], vs[k'], nodes);
      TidyInMore(fs[k'], vs[k'], nodes, more);
    }
  }

  /** Reading a file: every dictionary and every list becomes a node of its own. */
  method Load(v: Json) returns (r: Ref<Node>, ghost nodes: set<Node>)
    ensures fresh(nodes) && Tidy(r, v, nodes)
    decreases v
  {
    match v
    case Scalar(t) =>
      r, nodes := Text(t), {};
    case List(vs) =>
      var items, below := LoadItems(vs, v);
      var node := new Node(Items(items));
      r, nodes := To(node), below + {node};
      ListIsTidy(node, items, vs, below);
    case Dict(vs) =>
      var fs, order, own, below := LoadFields(vs, v);
      var node := new Node(Fields(fs, order));
      r, nodes := To(node), below + {node};
      DictIsTidy(node, fs, order, vs, own, below);
  }

  method LoadFields(vs: map<string, Json>, ghost v: Json)
    returns (
      fs: map<string, Ref<Node>>, order: seq<string>, ghost own: map<string, set<Node>>,
      ghost nodes: set<Node>)
    requires v == Dict(vs)
    ensures fresh(nodes) && Loaded(fs, order, vs, own, nodes) && fs.Keys == vs.Keys
    decreases v, 0
  {
    hide Loaded, Tidy;
    fs, order, own, nodes := map[], [], map[], {};
    var todo := vs.Keys;
    NothingLoaded(vs);
    while todo != {}
      invariant todo <= vs.Keys && fs.Keys == vs.Keys - todo
      invariant fresh(nodes) && Loaded(fs, order, vs, own, nodes)
    {
      var k :| k in todo;
      var r, more := Load(vs[k]);
      OneMoreLoaded(fs, order, vs, own, nodes, k, r, more);
      fs, order, own, nodes := fs[k := r], order + [k], own[k := more], nodes + more;
      todo := todo - {k};
    }
  }

  lemma NothingLoaded(vs: map<string, Json>)
    ensures Loaded(map[], [], vs, map[], {})
  {
  }

  ghost predicate LoadedItems(items: seq<Ref<Node>>, vs: seq<Json>, nodes: set<Node>)
    reads nodes
  {
    && |items| <= |vs| && Closed(nodes) && WellKept(Memory(nodes))
    && forall i | 0 <= i < |items| :: Tidy(items[i], vs[i], nodes)
  }

  lemma OneMoreItem(
      items: seq<Ref<Node>>, vs: seq<Json>, nodes: set<Node>, r: Ref<Node>, more: set<Node>)
    requires LoadedItems(items, vs, nodes) && |items| < |vs| && Tidy(r, vs[|items|], more)
    ensures LoadedItems(items + [r], vs, nodes + more)
  {
    ClosedTogether(nodes, more);
    forall i | 0 <= i <= |items|
      ensures Tidy((items + [r])[i], vs[i], nodes + more)
    {
      if i < |items| {
        TidyInMore(items[i], vs[i], nodes, more);
      } else {
        TidyInMore(r, vs[i], more, nodes);
        assert more + nodes == nodes + more;
      }
    }
  }

  method LoadItems(vs: seq<Json>, ghost v: Json) returns (items: seq<Ref<Node>>, ghost nodes: set<Node>)
    requires v == List(vs)
    ensures fresh(nodes) && LoadedItems(items, vs, nodes) && |items| == |vs|
    decreases v, 0
  {
    items, nodes := [], {};
    for i := 0 to |vs|
      invariant fresh(nodes) && |items| == i && LoadedItems(items, vs, nodes)
    {
      hide LoadedItems, Tidy;
      var r, more := Load(vs[i]);
      OneMoreItem(items, vs, nodes, r, more);
      items, nodes := items + [r], nodes + more;
    }
  }

  lemma OneMoreNode(node: Node, below: set<Node>)
    requires Closed(below) && WellKept(Memory(below)) && Within(node.content, below)
    requires node.content.Fields? ==> Listed(node.content.order, node.content.fields.Keys)
    ensures Closed(below + {node}) && WellKept(Memory(below + {node}))
  {
    var nodes := below + {node};
    forall n | n in nodes
      ensures Within(n.content, nodes)
      ensures n.content.Fields? ==> Listed(n.content.order, n.content.fields.Keys)
    {
      if n in below {
        assert Within(n.content, below) && Memory(below)[n] == n.content;
      }
    }
  }

  lemma ListIsTidy(node: Node, items: seq<Ref<Node>>, vs: seq<Json>, below: set<Node>)
    requires LoadedItems(items, vs, below) && |items| == |vs| && node.content == Items(items)
    ensures Tidy(To(node), List(vs), below + {node})
  {
    var nodes := below + {node};
    forall i | 0 <= i < |vs|
      ensures RefIn(items[i], nodes) && Stands(Memory(nodes), items[i], vs[i])
    {
      assert Tidy(items[i], vs[i], below);
      TidyReach(items[i], vs[i], below);
      Unchanged(Memory(below), Memory(nodes), items[i], vs[i]);
    }
    OneMoreNode(node, below);
  }

  lemma DictIsTidy(
      node: Node, fs: map<string, Ref<Node>>, order: seq<string>, vs: map<string, Json>,
      own: map<string, set<Node>>, below: set<Node>)
    requires Loaded(fs, order, vs, own, below) && fs.Keys == vs.Keys
    requires node.content == Fields(fs, order)
    ensures Tidy(To(node), Dict(vs), below + {node})
  {
    var nodes := below + {node};
    var h := Memory(nodes);
    forall k | k in vs
      ensures RefIn(fs[k], nodes) && Stands(h, fs[k], vs[k]) && Clear(h, fs[k], vs[k])
      ensures Reach(h, fs[k], vs[k]) <= own[k] && Mergeable(h, fs[k], vs[k]) <= own[k]
    {
      assert Tidy(fs[k], vs[k], below);
      TidyReach(fs[k], vs[k], below);
      Unchanged(Memory(below), h, fs[k], vs[k]);
      MergeableIsReached(h, fs[k], vs[k]);
    }
    OneMoreNode(node, below);
  }

  /** The files given one after the other, merged into an empty dictionary; false when two of them do
      not fit. */
  method MergeFiles(files: seq<Json>) returns (ok: bool, dst: Node, ghost nodes: set<Node>)
    ensures ok <==> Fold(Dict(map[]), files).Some?
    ensures ok ==> Tidy(To(dst), Fold(Dict(map[]), files).value, nodes)
  {
    dst := new Node(Fields(map[], []));
    nodes := {dst};
    ghost var v := Dict(map[]);
    NothingMerged(dst);
    FoldNone(v);
    for i := 0 to |files|
      invariant fresh(nodes) && dst in nodes
      invariant Fold(Dict(map[]), files[..i]) == Some(v) && Tidy(To(dst), v, nodes)
    {
      hide Fold, Tidy;
      ghost var w;
      ok, nodes, w := MergeOneFile(dst, files[i], nodes, v);
      assert files[..i + 1] == files[..i] + [files[i]];
      FoldStep(Dict(map[]), files[..i], files[i]);
      if !ok {
        FoldInTwo(Dict(map[]), files[..i + 1], files[i + 1..]);
        assert files == files[..i + 1] + files[i + 1..];
        return;
      }
      v := w;
    }
    assert files[..|files|] == files;
    ok := true;
  }

  lemma NothingMerged(dst: Node)
    requires dst.content == Fields(map[], [])
    ensures Tidy(To(dst), Dict(map[]), {dst})
  {
  }

  /** A file that has just been read can be merged. */
  lemma MergeCanBegin(dst: Ref<Node>, v: Json, nodes: set<Node>, add: Ref<Node>, w: Json, more: set<Node>)
    requires Tidy(dst, v, nodes) && Tidy(add, w, more) && nodes !! more
    ensures Tidy(dst, v, nodes + more) && Tidy(add, w, nodes + more)
    ensures Reach(Memory(nodes + more), dst, v) !! Reach(Memory(nodes + more), add, w)
  {
    assert Closed(nodes) && WellKept(Memory(nodes)) && Closed(more) && WellKept(Memory(more));
    hide Closed, WellKept, Tidy;
    TidyInMore(dst, v, nodes, more);
    TidyInMore(add, w, more, nodes);
    TidyReach(dst, v, nodes);
    TidyReach(add, w, more);
    assert more + nodes == nodes + more;
  }

  lemma MergedIsTidy(
      before: Heap<Node>, dst: Ref<Node>, add: Ref<Node>, dv: Json, av: Json, w: Json, nodes: set<Node>)
    requires Stands(before, dst, dv) && Stands(before, add, av) && Clear(before, add, av)
    requires MergedTo(before, Memory(nodes), dst, add, dv, av, w)
    requires Closed(nodes) && RefIn(dst, nodes)
    ensures Tidy(dst, w, nodes)
  {
  }

  method MergeOneFile(dst: Node, file: Json, ghost nodes: set<Node>, ghost v: Json)
    returns (ok: bool, ghost all: set<Node>, ghost w: Json)
    requires Tidy(To(dst), v, nodes)
    modifies nodes
    ensures nodes <= all && fresh(all - nodes)
    ensures ok <==> Merge(v, file).Some?
    ensures ok ==> w == Merge(v, file).value && Tidy(To(dst), w, all)
  {
    var add, more := Load(file);
    all, w := nodes + more, v;
    MergeCanBegin(To(dst), v, nodes, add, file, more);
    ghost var before := Memory(all);
    hide Closed, WellKept, Stands, Reach, Clear, Mergeable, Merge, MergedTo, Memory;
    ok := MergeFile(To(dst), add, all, v, file);
    if ok {
      w := Merge(v, file).value;
      MergedIsTidy(before, To(dst), add, v, file, w, all);
    }
  }
}
