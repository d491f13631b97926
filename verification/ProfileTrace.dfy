/** What a profile log means: which blocks are open after a prefix of the log, and what each
    important mark ought to have heard of the closings after it. All functions read the log as a
    sequence of entries and name an entry by its position. */
module ProfileTrace {

  // '{', '}', '!' and '.'
  datatype Kind = Open | Close | Mark | Point

  datatype Entry = Entry(
    time: real, thread: string, kind: Kind, tag: nat, id: string, file: string, line: string)

  /** The group of a mark; the source builds the string `tag/thread@file:line`. */
  datatype Key = Key(tag: nat, thread: string, file: string, line: string)

  function KeyOf(e: Entry): Key {
    Key(e.tag, e.thread, e.file, e.line)
  }

  /** Two marks share a group exactly when tag, thread, file and line are the same. */
  lemma SameGroup(a: Entry, b: Entry)
    ensures KeyOf(a) == KeyOf(b) <==>
      a.tag == b.tag && a.thread == b.thread && a.file == b.file && a.line == b.line
  {
  }

  function Front<T>(s: seq<T>): seq<T>
    requires s != []
  {
    s[..|s| - 1]
  }

  function Last<T>(s: seq<T>): T
    requires s != []
  {
    s[|s| - 1]
  }

  predicate Positions(tr: seq<Entry>, s: seq<nat>) {
    forall i | 0 <= i < |s| :: s[i] < |tr|
  }

  function Entries(tr: seq<Entry>, s: seq<nat>): (r: seq<Entry>)
    requires Positions(tr, s)
    ensures |r| == |s|
  {
    seq(|s|, i requires 0 <= i < |s| => tr[s[i]])
  }

  // ---------------------------------------------------------------- open blocks

  /** The open blocks of a thread with one tag, oldest first. */
  function TagOpen(tr: seq<Entry>, t: string, g: nat): (s: seq<nat>)
    ensures Positions(tr, s)
    ensures forall i | 0 <= i < |s| :: tr[s[i]].thread == t && tr[s[i]].tag == g
    ensures forall i, j | 0 <= i < j < |s| :: s[i] < s[j]
  {
    if tr == [] then []
    else
      var s := TagOpen(Front(tr), t, g);
      var e := Last(tr);
      if e.thread != t || e.tag != g then s
      else if e.kind.Open? then s + [|tr| - 1]
      else if e.kind.Close? && s != [] then Front(s)
      else s
  }

  /** Openings minus closings. */
  function Depth(tr: seq<Entry>, t: string): int {
    if tr == [] then 0
    else
      var e := Last(tr);
      Depth(Front(tr), t) +
      if e.thread != t then 0 else if e.kind.Open? then 1 else if e.kind.Close? then -1 else 0
  }

  /** Every closing finds an open block of its own thread and tag: `pop` never fails. */
  ghost predicate Accepted(tr: seq<Entry>) {
    tr == [] ||
    (Accepted(Front(tr)) &&
     (Last(tr).kind.Close? ==> TagOpen(Front(tr), Last(tr).thread, Last(tr).tag) != []))
  }

  /** The open blocks of a thread, whatever their tags. */
  ghost function AllOpen(tr: seq<Entry>, t: string): set<nat> {
    set i | 0 <= i < |tr| && tr[i].thread == t && i in TagOpen(tr, t, tr[i].tag)
  }

  lemma FrontMembers(s: seq<nat>)
    requires s != [] && forall i, j | 0 <= i < j < |s| :: s[i] < s[j]
    ensures forall k :: k in Front(s) <==> k in s && k != Last(s)
  {
    forall k | k in s && k != Last(s)
      ensures k in Front(s)
    {
      var i :| 0 <= i < |s| && s[i] == k;
      assert Front(s)[i] == k;
    }
  }

  /** One entry changes one tag stack by one block, and the set of open blocks by the same. */
  lemma OpenStep(tr: seq<Entry>, t: string)
    requires tr != [] && Accepted(tr)
    ensures
      var f, e := Front(tr), Last(tr);
      AllOpen(tr, t) ==
        if e.thread == t && e.kind.Open? then AllOpen(f, t) + {|f|}
        else if e.thread == t && e.kind.Close? then AllOpen(f, t) - {Last(TagOpen(f, t, e.tag))}
        else AllOpen(f, t)
  {
    var f, e := Front(tr), Last(tr);
    var s := TagOpen(f, t, e.tag);
    if e.thread == t && e.kind.Close? {
      FrontMembers(s);
    }
    forall i: nat | i < |f|
      ensures i in AllOpen(tr, t) <==>
        i in AllOpen(f, t) && !(e.thread == t && e.kind.Close? && i == Last(s))
    {
      assert tr[i] == f[i];
      if tr[i].tag != e.tag {
        assert TagOpen(tr, t, tr[i].tag) == TagOpen(f, t, tr[i].tag);
      }
    }
    assert |f| !in s;
  }

  lemma TopIsOpen(tr: seq<Entry>, t: string, g: nat)
    requires TagOpen(tr, t, g) != []
    ensures Last(TagOpen(tr, t, g)) in AllOpen(tr, t)
  {
  }

  /** The per-thread counter is the number of open blocks, in whatever order blocks close. */
  lemma {:induction false} DepthCountsOpen(tr: seq<Entry>, t: string)
    requires Accepted(tr)
    ensures |AllOpen(tr, t)| == Depth(tr, t)
  {
    if tr != [] {
      var f, e := Front(tr), Last(tr);
      DepthCountsOpen(f, t);
      OpenStep(tr, t);
      hide TagOpen;
      if e.thread == t && e.kind.Close? {
        TopIsOpen(f, t, e.tag);
      }
    }
  }

  /** One stack per thread: the reading of the log in which blocks nest. */
  function NestOpen(tr: seq<Entry>, t: string): (s: seq<nat>)
    ensures Positions(tr, s)
    ensures forall i | 0 <= i < |s| :: tr[s[i]].thread == t
    ensures forall i, j | 0 <= i < j < |s| :: s[i] < s[j]
  {
    if tr == [] then []
    else
      var s := NestOpen(Front(tr), t);
      var e := Last(tr);
      if e.thread != t then s
      else if e.kind.Open? then s + [|tr| - 1]
      else if e.kind.Close? && s != [] then Front(s)
      else s
  }

  /** Every closing closes the innermost open block of its thread. */
  ghost predicate Nested(tr: seq<Entry>) {
    tr == [] ||
    (Nested(Front(tr)) &&
     (Last(tr).kind.Close? ==>
        var s := NestOpen(Front(tr), Last(tr).thread);
        s != [] && tr[Last(s)].tag == Last(tr).tag))
  }

  function WithTag(tr: seq<Entry>, s: seq<nat>, g: nat): (r: seq<nat>)
    requires Positions(tr, s)
  {
    if s == [] then []
    else
      WithTag(tr, Front(s), g) + if tr[Last(s)].tag == g then [Last(s)] else []
  }

  lemma {:induction false} WithTagOfPrefix(tr: seq<Entry>, s: seq<nat>, g: nat)
    requires tr != [] && Positions(Front(tr), s)
    ensures WithTag(tr, s, g) == WithTag(Front(tr), s, g)
  {
    if s != [] {
      WithTagOfPrefix(tr, Front(s), g);
    }
  }

  lemma LastWithTag(tr: seq<Entry>, s: seq<nat>, g: nat)
    requires Positions(tr, s) && s != [] && tr[Last(s)].tag == g
    ensures WithTag(tr, s, g) != [] && Last(WithTag(tr, s, g)) == Last(s)
    ensures Front(WithTag(tr, s, g)) == WithTag(tr, Front(s), g)
  {
  }

  /** On nested logs the tag stacks are the one nesting stack, filtered by tag. */
  lemma {:induction false} TagStacksRefineNesting(tr: seq<Entry>, t: string, g: nat)
    requires Nested(tr)
    ensures TagOpen(tr, t, g) == WithTag(tr, NestOpen(tr, t), g)
  {
    if tr != [] {
      var f, e := Front(tr), Last(tr);
      var s := NestOpen(f, t);
      TagStacksRefineNesting(f, t, g);
      WithTagOfPrefix(tr, s, g);
      if e.thread == t && e.kind.Open? {
        assert Front(s + [|f|]) == s;
      } else if e.thread == t && e.kind.Close? {
        WithTagOfPrefix(tr, Front(s), g);
        if e.tag == g { LastWithTag(f, s, g); }
      }
    }
  }

  /** So `pop` never fails on them, it pops the block the nesting stack would pop, and the counter
      is the height of the nesting stack. */
  lemma {:induction false} NestedIsAccepted(tr: seq<Entry>, t: string)
    requires Nested(tr)
    ensures Accepted(tr)
    ensures Depth(tr, t) == |NestOpen(tr, t)|
  {
    if tr != [] {
      NestedIsAccepted(Front(tr), t);
      ClosesInnermost(tr);
    }
  }

  lemma ClosesInnermost(tr: seq<Entry>)
    requires tr != [] && Nested(tr)
    ensures
      var f, e := Front(tr), Last(tr);
      e.kind.Close? ==>
        TagOpen(f, e.thread, e.tag) != [] &&
        Last(TagOpen(f, e.thread, e.tag)) == Last(NestOpen(f, e.thread))
  {
    var f, e := Front(tr), Last(tr);
    if e.kind.Close? {
      TagStacksRefineNesting(f, e.thread, e.tag);
      LastWithTag(f, NestOpen(f, e.thread), e.tag);
    }
  }

  /** On nested logs the open blocks are the nesting stack. */
  lemma OpenIsNest(tr: seq<Entry>, t: string)
    requires Nested(tr)
    ensures AllOpen(tr, t) == set i | i in NestOpen(tr, t)
  {
    var s := NestOpen(tr, t);
    forall i: nat | i < |tr| && tr[i].thread == t
      ensures i in TagOpen(tr, t, tr[i].tag) <==> i in s
    {
      TagStacksRefineNesting(tr, t, tr[i].tag);
      WithTagMembers(tr, s, tr[i].tag, i);
    }
  }

  lemma {:induction false} WithTagMembers(tr: seq<Entry>, s: seq<nat>, g: nat, i: nat)
    requires Positions(tr, s) && i < |tr| && tr[i].tag == g
    ensures i in WithTag(tr, s, g) <==> i in s
  {
    if s != [] {
      WithTagMembers(tr, Front(s), g, i);
      assert s == Front(s) + [Last(s)];
    }
  }

  /** The open blocks by depth alone: the block opened at `o` is open as long as the thread has never
      again been as shallow as before it. */
  ghost predicate StaysDeeper(tr: seq<Entry>, t: string, o: nat)
    requires o < |tr|
  {
    forall i | o < i <= |tr| :: Depth(tr[..i], t) > Depth(tr[..o], t)
  }

  /** The block at height j of the nesting stack was opened at depth j. */
  lemma {:induction false} HeightIsDepth(tr: seq<Entry>, t: string, j: nat)
    requires Nested(tr) && j < |NestOpen(tr, t)|
    ensures tr[NestOpen(tr, t)[j]].kind.Open? && tr[NestOpen(tr, t)[j]].thread == t
    ensures Depth(tr[..NestOpen(tr, t)[j]], t) == j
  {
    var f := Front(tr);
    if j < |NestOpen(f, t)| {
      HeightIsDepth(f, t, j);
      assert f[..NestOpen(tr, t)[j]] == tr[..NestOpen(tr, t)[j]];
    } else {
      NestedIsAccepted(f, t);
      assert tr[..|f|] == f;
    }
  }

  /** On nested logs the nesting stack holds exactly the blocks that depth alone calls open. */
  lemma {:induction false} OpenByDepth(tr: seq<Entry>, t: string, o: nat)
    requires Nested(tr) && o < |tr|
    ensures o in NestOpen(tr, t) <==>
      tr[o].kind.Open? && tr[o].thread == t && StaysDeeper(tr, t, o)
  {
    var f := Front(tr);
    NestedIsAccepted(tr, t);
    NestedIsAccepted(f, t);
    assert tr[..|tr|] == tr && tr[..|f|] == f;
    if o < |f| {
      OpenByDepth(f, t, o);
      DeeperStep(tr, t, o);
      if o in NestOpen(f, t) {
        var j :| 0 <= j < |NestOpen(f, t)| && NestOpen(f, t)[j] == o;
        HeightIsDepth(f, t, j);
        assert f[..o] == tr[..o];
        OneLess(tr, t, j);
      } else {
        NotBackAgain(tr, t, o);
      }
    } else {
      assert forall i | o < i <= |tr| :: tr[..i] == tr;
    }
  }

  lemma DeeperStep(tr: seq<Entry>, t: string, o: nat)
    requires o < |tr| - 1
    ensures StaysDeeper(tr, t, o) <==>
      StaysDeeper(Front(tr), t, o) && Depth(tr, t) > Depth(tr[..o], t)
  {
    var f := Front(tr);
    assert f[..o] == tr[..o] && tr[..|tr|] == tr;
    forall i | o < i <= |f|
      ensures f[..i] == tr[..i]
    {
    }
  }

  /** One entry takes at most the top of the nesting stack. */
  lemma OneLess(tr: seq<Entry>, t: string, j: nat)
    requires tr != [] && j < |NestOpen(Front(tr), t)|
    ensures NestOpen(Front(tr), t)[j] in NestOpen(tr, t) <==> j < |NestOpen(tr, t)|
  {
    var k, k' := NestOpen(Front(tr), t), NestOpen(tr, t);
    if j < |k'| {
      assert k'[j] == k[j];
    } else {
      assert forall i | 0 <= i < |k'| :: k'[i] == k[i] < k[j];
    }
  }

  lemma NotBackAgain(tr: seq<Entry>, t: string, o: nat)
    requires tr != [] && o < |tr| - 1 && o !in NestOpen(Front(tr), t)
    ensures o !in NestOpen(tr, t)
  {
  }
}
