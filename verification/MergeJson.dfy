/** Merging the JSON files that configure the build generator. */
module JsonMerging {
  import opened Wrappers

  /** A parsed file: dictionaries, lists, and everything else. */
  datatype Json =
    | Dict(fields: map<string, Json>)
    | List(items: seq<Json>)
    | Scalar(text: string)

  /** The key whose value in `dst` is kept; it carries comments. */
  const COMMENT := "#"

  /** The keys whose values have to be merged. */
  function Shared(dst: map<string, Json>, add: map<string, Json>): set<string> {
    dst.Keys * add.Keys - {COMMENT}
  }

  /** What `add` makes of `dst`; None stands for the exception. */
  function Merge(dst: Json, add: Json): Option<Json>
    decreases dst
  {
    match (dst, add)
    case (Dict(d), Dict(a)) =>
      if forall k | k in Shared(d, a) :: Merge(d[k], a[k]).Some?
      then Some(Dict(map k | k in d.Keys + a.Keys ::
                     if k !in d then a[k]
                     else if k in Shared(d, a) then Merge(d[k], a[k]).value
                     else d[k]))
      else None
    case (List(d), List(a)) => Some(List(d + a))
    case _ => None
  }

  function MergeOption(dst: Option<Json>, add: Option<Json>): Option<Json> {
    if dst.Some? && add.Some? then Merge(dst.value, add.value) else None
  }

  // ---------------------------------------------------------------- one key at a time

  /** The value of a key, where there may be none, or none possible. */
  datatype Slot = Absent | Present(value: Json) | Broken

  function At(fields: map<string, Json>, k: string): Slot {
    if k in fields then Present(fields[k]) else Absent
  }

  function Pair(x: Slot, y: Slot, k: string): Slot {
    if x.Broken? || y.Broken? then Broken
    else if x.Absent? then y
    else if y.Absent? || k == COMMENT then x
    else match Merge(x.value, y.value)
      case Some(v) => Present(v)
      case None => Broken
  }

  /** Dictionaries merge key by key, and fail when some key fails. */
  lemma MergeByKey(d: map<string, Json>, a: map<string, Json>)
    ensures match Merge(Dict(d), Dict(a))
      case None => exists k :: Pair(At(d, k), At(a, k), k) == Broken
      case Some(m) => m.Dict? && forall k :: At(m.fields, k) == Pair(At(d, k), At(a, k), k)
  {
    var r := Merge(Dict(d), Dict(a));
    if r.None? {
      var k :| k in Shared(d, a) && Merge(d[k], a[k]).None?;
      assert Pair(At(d, k), At(a, k), k) == Broken;
    } else {
      forall k
        ensures At(r.value.fields, k) == Pair(At(d, k), At(a, k), k)
      {
      }
    }
  }

  lemma SameFields(m: map<string, Json>, n: map<string, Json>)
    requires forall k :: At(m, k) == At(n, k)
    ensures m == n
  {
    forall k
      ensures k in m <==> k in n
      ensures k in m ==> m[k] == n[k]
    {
      assert At(m, k) == At(n, k);
    }
  }

  /** A "#" that both have is kept as it is in `dst`, and never makes the merge fail: it is as if
      `add` had none. */
  lemma CommentIsKept(d: map<string, Json>, a: map<string, Json>)
    requires "#" in d
    ensures Merge(Dict(d), Dict(a)) == Merge(Dict(d), Dict(a - {"#"}))
    ensures Merge(Dict(d), Dict(a)).Some? ==>
      var m := Merge(Dict(d), Dict(a)).value;
      m.Dict? && "#" in m.fields && m.fields["#"] == d["#"]
  {
    var b := a - {"#"};
    forall k
      ensures Pair(At(d, k), At(a, k), k) == Pair(At(d, k), At(b, k), k)
    {
    }
    assert Pair(At(d, "#"), At(a, "#"), "#") == Present(d["#"]);
    hide Merge, Pair;
    MergeByKey(d, a);
    MergeByKey(d, b);
    var m, n := Merge(Dict(d), Dict(a)), Merge(Dict(d), Dict(b));
    if m.Some? && n.Some? {
      SameFields(m.value.fields, n.value.fields);
    } else if m.Some? {
      var k :| Pair(At(d, k), At(b, k), k) == Broken;
      NeverBroken(m.value.fields, k);
    } else if n.Some? {
      var k :| Pair(At(d, k), At(a, k), k) == Broken;
      NeverBroken(n.value.fields, k);
    }
    if m.Some? {
      assert At(m.value.fields, "#") == Present(d["#"]);
    }
  }

  /** An entry that only one of the two has is taken over; one that both have is merged. */
  lemma EntriesOfMerge(d: map<string, Json>, a: map<string, Json>, k: string)
    requires Merge(Dict(d), Dict(a)).Some?
    ensures
      var m := Merge(Dict(d), Dict(a)).value;
      && m.Dict? && (k in m.fields <==> k in d || k in a)
      && (k in d && k !in a ==> m.fields[k] == d[k])
      && (k in a && k !in d ==> m.fields[k] == a[k])
      && (k in d && k in a && k != "#" ==> Merge(d[k], a[k]) == Some(m.fields[k]))
  {
  }

  /** Lists are joined, the one that is merged into first; anything else does not fit. */
  lemma ListsAndOthers(v: Json, w: Json)
    ensures v.List? && w.List? ==> Merge(v, w) == Some(List(v.items + w.items))
    ensures !(v.List? && w.List?) && !(v.Dict? && w.Dict?) ==> Merge(v, w) == None
  {
  }

  // ---------------------------------------------------------------- associativity

  /** How files are merged does not depend on how they are grouped, and neither does whether they
      can be merged at all. */
  lemma {:induction false} MergeIsAssociative(a: Json, b: Json, c: Json)
    ensures MergeOption(Merge(a, b), Some(c)) == MergeOption(Some(a), Merge(b, c))
    decreases a
  {
    match (a, b, c)
    case (Dict(x), Dict(y), Dict(z)) =>
      forall k
        ensures Pair(Pair(At(x, k), At(y, k), k), At(z, k), k) == Pair(At(x, k), Pair(At(y, k), At(z, k), k), k)
      {
        if k in x && k in y && k in z && k != COMMENT {
          MergeIsAssociative(x[k], y[k], z[k]);
        }
      }
      DictsAssociate(x, y, z);
    case (List(x), List(y), List(z)) => assert (x + y) + z == x + (y + z);
    case _ =>
  }

  lemma DictsAssociate(x: map<string, Json>, y: map<string, Json>, z: map<string, Json>)
    requires forall k ::
      Pair(Pair(At(x, k), At(y, k), k), At(z, k), k) == Pair(At(x, k), Pair(At(y, k), At(z, k), k), k)
    ensures MergeOption(Merge(Dict(x), Dict(y)), Some(Dict(z)))
         == MergeOption(Some(Dict(x)), Merge(Dict(y), Dict(z)))
  {
    hide Merge, At;
    LeftGrouping(x, y, z);
    RightGrouping(x, y, z);
    var l := MergeOption(Merge(Dict(x), Dict(y)), Some(Dict(z)));
    var r := MergeOption(Some(Dict(x)), Merge(Dict(y), Dict(z)));
    if l.Some? && r.Some? {
      forall k
        ensures At(l.value.fields, k) == At(r.value.fields, k)
      {
        assert Pair(Pair(At(x, k), At(y, k), k), At(z, k), k) == Pair(At(x, k), Pair(At(y, k), At(z, k), k), k);
      }
      SameFields(l.value.fields, r.value.fields);
    } else if l.Some? {
      var k :| Pair(At(x, k), Pair(At(y, k), At(z, k), k), k) == Broken;
      NeverBroken(l.value.fields, k);
    } else if r.Some? {
      var k :| Pair(Pair(At(x, k), At(y, k), k), At(z, k), k) == Broken;
      NeverBroken(r.value.fields, k);
    }
  }

  lemma NeverBroken(m: map<string, Json>, k: string)
    ensures At(m, k) != Broken
  {
  }

  lemma LeftGrouping(x: map<string, Json>, y: map<string, Json>, z: map<string, Json>)
    ensures match MergeOption(Merge(Dict(x), Dict(y)), Some(Dict(z)))
      case None => exists k :: Pair(Pair(At(x, k), At(y, k), k), At(z, k), k) == Broken
      case Some(m) =>
        m.Dict? && forall k :: At(m.fields, k) == Pair(Pair(At(x, k), At(y, k), k), At(z, k), k)
  {
    hide Merge, At;
    MergeByKey(x, y);
    var xy := Merge(Dict(x), Dict(y));
    if xy.None? {
      var k :| Pair(At(x, k), At(y, k), k) == Broken;
      assert Pair(Pair(At(x, k), At(y, k), k), At(z, k), k) == Broken;
    } else {
      MergeByKey(xy.value.fields, z);
    }
  }

  lemma RightGrouping(x: map<string, Json>, y: map<string, Json>, z: map<string, Json>)
    ensures match MergeOption(Some(Dict(x)), Merge(Dict(y), Dict(z)))
      case None => exists k :: Pair(At(x, k), Pair(At(y, k), At(z, k), k), k) == Broken
      case Some(m) =>
        m.Dict? && forall k :: At(m.fields, k) == Pair(At(x, k), Pair(At(y, k), At(z, k), k), k)
  {
    hide Merge, At;
    MergeByKey(y, z);
    var yz := Merge(Dict(y), Dict(z));
    if yz.None? {
      var k :| Pair(At(y, k), At(z, k), k) == Broken;
      assert Pair(At(x, k), Pair(At(y, k), At(z, k), k), k) == Broken;
    } else {
      MergeByKey(x, yz.value.fields);
    }
  }

  // ---------------------------------------------------------------- many files

  /** Merging files one by one into what is there. */
  function Fold(start: Json, files: seq<Json>): Option<Json> {
    if files == [] then Some(start)
    else MergeOption(Fold(start, files[..|files| - 1]), Some(files[|files| - 1]))
  }

  lemma FoldStep(start: Json, files: seq<Json>, last: Json)
    ensures Fold(start, files + [last]) == MergeOption(Fold(start, files), Some(last))
  {
    assert (files + [last])[..|files|] == files;
  }

  /** Merging a group of files beforehand changes nothing. */
  lemma {:induction false} GroupCanBePremerged(start: Json, file: Json, more: seq<Json>)
    ensures MergeOption(Some(start), Fold(file, more)) == Fold(start, [file] + more)
    decreases |more|
  {
    hide Merge, Fold;
    if more == [] {
      FoldNone(start);
      FoldNone(file);
      FoldStep(start, [], file);
      assert [file] + more == [] + [file];
    } else {
      var front, last := more[..|more| - 1], more[|more| - 1];
      var before := Fold(file, front);
      GroupCanBePremerged(start, file, front);
      assert more == front + [last] && [file] + more == ([file] + front) + [last];
      FoldStep(file, front, last);
      FoldStep(start, [file] + front, last);
      if before.Some? {
        MergeIsAssociative(start, before.value, last);
      }
    }
  }

  lemma FoldNone(start: Json)
    ensures Fold(start, []) == Some(start)
  {
  }

  function FoldOn(start: Option<Json>, files: seq<Json>): Option<Json> {
    if start.Some? then Fold(start.value, files) else None
  }

  lemma {:induction false} FoldInTwo(start: Json, files: seq<Json>, more: seq<Json>)
    ensures Fold(start, files + more) == FoldOn(Fold(start, files), more)
    decreases |more|
  {
    hide Merge, Fold;
    var middle := Fold(start, files);
    if more == [] {
      assert files + more == files;
      if middle.Some? { FoldNone(middle.value); }
    } else {
      var front, last := more[..|more| - 1], more[|more| - 1];
      assert more == front + [last] && files + more == (files + front) + [last];
      FoldInTwo(start, files, front);
      FoldStep(start, files + front, last);
      if middle.Some? { FoldStep(middle.value, front, last); }
    }
  }

  function Flatten(groups: seq<seq<Json>>): seq<Json> {
    if groups == [] then [] else Flatten(groups[..|groups| - 1]) + groups[|groups| - 1]
  }

  /** Merging groups of files, each merged by itself beforehand. */
  function FoldGroups(start: Json, groups: seq<seq<Json>>): Option<Json>
    requires forall i | 0 <= i < |groups| :: groups[i] != []
  {
    if groups == [] then Some(start)
    else
      var last := groups[|groups| - 1];
      MergeOption(FoldGroups(start, groups[..|groups| - 1]), Fold(last[0], last[1..]))
  }

  /** However the files are grouped, merging the groups beforehand changes nothing. */
  lemma {:induction false} GroupsCanBePremerged(start: Json, groups: seq<seq<Json>>)
    requires forall i | 0 <= i < |groups| :: groups[i] != []
    ensures FoldGroups(start, groups) == Fold(start, Flatten(groups))
    decreases |groups|
  {
    hide Merge, Fold;
    if groups == [] {
      FoldNone(start);
    } else {
      var front, last := groups[..|groups| - 1], groups[|groups| - 1];
      GroupsCanBePremerged(start, front);
      FoldInTwo(start, Flatten(front), last);
      var before := Fold(start, Flatten(front));
      if before.Some? {
        GroupCanBePremerged(before.value, last[0], last[1..]);
        assert [last[0]] + last[1..] == last;
      }
    }
  }
}
