/** The matching loop of the profile analyzer, with the containers it updates in place. */
module ProfileAnalyzer {
  import opened ProfileTrace
  import opened ProfileMarks

  // ---------------------------------------------------------------- default dictionaries

  function StackOf(threads: map<string, map<nat, seq<Entry>>>, t: string, g: nat): seq<Entry> {
    if t in threads && g in threads[t] then threads[t][g] else []
  }

  function CountOf(counts: map<string, int>, t: string): int {
    if t in counts then counts[t] else 0
  }

  function ListOf<K, V>(lists: map<K, seq<V>>, k: K): seq<V> {
    if k in lists then lists[k] else []
  }

  /** threads[t][g] = s, creating the inner dictionary when needed. */
  function SetStack(threads: map<string, map<nat, seq<Entry>>>, t: string, g: nat, s: seq<Entry>)
    : map<string, map<nat, seq<Entry>>>
  {
    threads[t := (if t in threads then threads[t] else map[])[g := s]]
  }

  // ---------------------------------------------------------------- what the containers hold

  ghost predicate StacksOk(threads: map<string, map<nat, seq<Entry>>>, log: seq<Entry>) {
    forall t, g :: StackOf(threads, t, g) == Entries(log, TagOpen(log, t, g))
  }

  ghost predicate DepthsOk(depths: map<string, int>, log: seq<Entry>) {
    forall t :: CountOf(depths, t) == Depth(log, t)
  }

  /** The times spent in the blocks with one tag, in the order in which they closed. */
  function Durations(tr: seq<Entry>, g: nat): seq<real> {
    if tr == [] then []
    else
      var f, e := Front(tr), Last(tr);
      var s := TagOpen(f, e.thread, g);
      Durations(f, g) +
      if e.kind.Close? && e.tag == g && s != [] then [e.time - tr[Last(s)].time] else []
  }

  ghost predicate TimesOk(times: map<nat, seq<real>>, log: seq<Entry>) {
    forall g :: ListOf(times, g) == Durations(log, g)
  }

  /** How one more entry changes one tag stack, as a list of entries. */
  lemma TagStackStep(log: seq<Entry>, e: Entry, t: string, g: nat)
    ensures
      var before := Entries(log, TagOpen(log, t, g));
      Entries(log + [e], TagOpen(log + [e], t, g)) ==
        if e.thread != t || e.tag != g then before
        else if e.kind.Open? then before + [e]
        else if e.kind.Close? && before != [] then Front(before)
        else before
  {
    assert Front(log + [e]) == log && Last(log + [e]) == e;
  }

  lemma PushKeepsStacks(threads: map<string, map<nat, seq<Entry>>>, log: seq<Entry>, e: Entry)
    requires StacksOk(threads, log) && e.kind.Open?
    ensures StacksOk(
              SetStack(threads, e.thread, e.tag, StackOf(threads, e.thread, e.tag) + [e]), log + [e])
  {
    hide TagOpen, Entries;
    var threads' := SetStack(threads, e.thread, e.tag, StackOf(threads, e.thread, e.tag) + [e]);
    forall t, g
      ensures StackOf(threads', t, g) == Entries(log + [e], TagOpen(log + [e], t, g))
    {
      assert StackOf(threads, t, g) == Entries(log, TagOpen(log, t, g));
      TagStackStep(log, e, t, g);
    }
  }

  lemma PopKeepsStacks(threads: map<string, map<nat, seq<Entry>>>, log: seq<Entry>, e: Entry)
    requires StacksOk(threads, log) && e.kind.Close? && StackOf(threads, e.thread, e.tag) != []
    ensures StacksOk(
              SetStack(threads, e.thread, e.tag, Front(StackOf(threads, e.thread, e.tag))), log + [e])
  {
    hide TagOpen, Entries;
    var threads' := SetStack(threads, e.thread, e.tag, Front(StackOf(threads, e.thread, e.tag)));
    forall t, g
      ensures StackOf(threads', t, g) == Entries(log + [e], TagOpen(log + [e], t, g))
    {
      assert StackOf(threads, t, g) == Entries(log, TagOpen(log, t, g));
      TagStackStep(log, e, t, g);
    }
  }

  lemma OtherKeepsStacks(threads: map<string, map<nat, seq<Entry>>>, log: seq<Entry>, e: Entry)
    requires StacksOk(threads, log) && !e.kind.Open? && !e.kind.Close?
    ensures StacksOk(threads, log + [e])
  {
    hide TagOpen, Entries;
    forall t, g
      ensures StackOf(threads, t, g) == Entries(log + [e], TagOpen(log + [e], t, g))
    {
      assert StackOf(threads, t, g) == Entries(log, TagOpen(log, t, g));
      TagStackStep(log, e, t, g);
    }
  }

  lemma CountKeepsDepths(depths: map<string, int>, log: seq<Entry>, e: Entry)
    requires DepthsOk(depths, log)
    ensures
      var d := if e.kind.Open? then 1 else if e.kind.Close? then -1 else 0;
      DepthsOk(depths[e.thread := CountOf(depths, e.thread) + d], log + [e])
      && (d == 0 ==> DepthsOk(depths, log + [e]))
  {
    var d := if e.kind.Open? then 1 else if e.kind.Close? then -1 else 0;
    var depths' := depths[e.thread := CountOf(depths, e.thread) + d];
    assert Front(log + [e]) == log && Last(log + [e]) == e;
    forall t
      ensures CountOf(depths', t) == Depth(log + [e], t)
      ensures d == 0 ==> CountOf(depths, t) == Depth(log + [e], t)
    {
      assert CountOf(depths, t) == Depth(log, t);
    }
  }

  lemma AcceptedStep(log: seq<Entry>, e: Entry)
    requires Accepted(log)
    ensures Accepted(log + [e]) <==> (e.kind.Close? ==> TagOpen(log, e.thread, e.tag) != [])
  {
    assert Front(log + [e]) == log && Last(log + [e]) == e;
  }

  /** How one more entry changes the list of times of one tag. */
  lemma DurationsStep(log: seq<Entry>, e: Entry, g: nat)
    ensures
      var s := TagOpen(log, e.thread, g);
      Durations(log + [e], g) == Durations(log, g) +
        if e.kind.Close? && e.tag == g && s != [] then [e.time - log[Last(s)].time] else []
  {
    hide TagOpen;
    assert Front(log + [e]) == log && Last(log + [e]) == e;
  }

  lemma OtherKeepsTimes(times: map<nat, seq<real>>, log: seq<Entry>, e: Entry)
    requires TimesOk(times, log) && !e.kind.Close?
    ensures TimesOk(times, log + [e])
  {
    hide TagOpen, Durations;
    forall g
      ensures ListOf(times, g) == Durations(log + [e], g)
    {
      DurationsStep(log, e, g);
    }
  }

  lemma CloseKeepsTimes(times: map<nat, seq<real>>, log: seq<Entry>, e: Entry)
    requires TimesOk(times, log) && e.kind.Close? && TagOpen(log, e.thread, e.tag) != []
    ensures
      var start := log[Last(TagOpen(log, e.thread, e.tag))];
      TimesOk(times[e.tag := ListOf(times, e.tag) + [e.time - start.time]], log + [e])
  {
    hide TagOpen, Durations;
    var s := TagOpen(log, e.thread, e.tag);
    var spent := e.time - log[Last(s)].time;
    var times' := times[e.tag := ListOf(times, e.tag) + [spent]];
    forall g
      ensures ListOf(times', g) == Durations(log + [e], g)
    {
      DurationsStep(log, e, g);
      assert ListOf(times, g) == Durations(log, g);
      assert ListOf(times', g) == ListOf(times, g) + if g == e.tag then [spent] else [];
    }
  }

  /** The closings of blocks with one tag, in the order of the log. */
  function ClosingsOf(tr: seq<Entry>, g: nat): (s: seq<nat>)
    ensures Positions(tr, s)
    ensures forall i | 0 <= i < |s| :: tr[s[i]].kind.Close? && tr[s[i]].tag == g
    ensures forall i, j | 0 <= i < j < |s| :: s[i] < s[j]
    ensures forall c: nat | c < |tr| && tr[c].kind.Close? && tr[c].tag == g :: c in s
  {
    if tr == [] then []
    else
      var s := ClosingsOf(Front(tr), g);
      if Last(tr).kind.Close? && Last(tr).tag == g then s + [|tr| - 1] else s
  }

  /** `spent` is the time between closing `c` and the opening of the block that it closes. */
  ghost predicate IsSpent(tr: seq<Entry>, c: nat, spent: real)
    requires c < |tr|
  {
    var stack := NestOpen(tr[..c], tr[c].thread);
    stack != [] && Closes(tr, c, Last(stack)) && spent == tr[c].time - tr[Last(stack)].time
  }

  lemma LastDuration(tr: seq<Entry>, g: nat)
    requires Nested(tr) && tr != []
    ensures
      var f, e := Front(tr), Last(tr);
      if e.kind.Close? && e.tag == g then
        && |Durations(tr, g)| == |Durations(f, g)| + 1
        && Front(Durations(tr, g)) == Durations(f, g)
        && IsSpent(tr, |f|, Last(Durations(tr, g)))
      else Durations(tr, g) == Durations(f, g)
  {
    var f, e := Front(tr), Last(tr);
    assert tr == f + [e] && tr[..|f|] == f;
    ClosesInnermost(tr);
    DurationsStep(f, e, g);
    hide Durations, TagOpen, NestOpen, Nested;
  }

  /** On nested logs the times kept for a tag are, closing by closing, the time of the closing less that
      of the block it closes. */
  lemma {:induction false} DurationsOfBlocks(tr: seq<Entry>, g: nat, i: nat)
    requires Nested(tr) && i < |ClosingsOf(tr, g)|
    ensures |Durations(tr, g)| == |ClosingsOf(tr, g)|
    ensures IsSpent(tr, ClosingsOf(tr, g)[i], Durations(tr, g)[i])
    decreases |tr|
  {
    var f := Front(tr);
    assert Nested(f);
    hide Durations, TagOpen, NestOpen, Nested, IsSpent;
    LastDuration(tr, g);
    DurationsCount(f, g);
    if i < |ClosingsOf(f, g)| {
      DurationsOfBlocks(f, g, i);
      StillSpent(tr, ClosingsOf(f, g)[i], Durations(f, g)[i]);
    }
  }

  lemma StillSpent(tr: seq<Entry>, c: nat, spent: real)
    requires tr != [] && c < |tr| - 1 && IsSpent(Front(tr), c, spent)
    ensures IsSpent(tr, c, spent)
  {
    assert Front(tr)[..c] == tr[..c];
  }

  lemma {:induction false} DurationsCount(tr: seq<Entry>, g: nat)
    requires Nested(tr)
    ensures |Durations(tr, g)| == |ClosingsOf(tr, g)|
  {
    if tr != [] {
      DurationsCount(Front(tr), g);
      ClosesInnermost(tr);
    }
  }

  // ---------------------------------------------------------------- important marks

  class ImportantMark {
    const entry: Entry
    const preStack: seq<Entry>
    var postStack: seq<Entry>
    var n: int
    ghost const at: nat             // the mark's position in the log
    ghost const openAt: seq<nat>    // the positions of `preStack`

    constructor (entry: Entry, stack: seq<Entry>, ghost at: nat, ghost openAt: seq<nat>)
      ensures this.entry == entry && preStack == stack && postStack == [] && n == |stack|
      ensures this.at == at && this.openAt == openAt
    {
      this.entry, preStack, postStack, n := entry, stack, [], |stack|;
      this.at, this.openAt := at, openAt;
    }

    method AppendPostEntry(e: Entry)
      modifies this
      ensures
        if old(n) > 0 && e.thread == entry.thread
        then postStack == old(postStack) + [e] && n == old(n) - 1
        else postStack == old(postStack) && n == old(n)
    {
      if n > 0 && e.thread == entry.thread {
        postStack := postStack + [e];
        n := n - 1;
      }
    }
  }

  ghost predicate Distinct(s: seq<nat>) {
    forall i, j | 0 <= i < j < |s| :: s[i] != s[j]
  }

  /** `stack` lists, in some order and each once, the blocks of thread `t` open after `tr`. */
  ghost predicate IsSnapshot(tr: seq<Entry>, t: string, stack: seq<Entry>, openAt: seq<nat>) {
    && Positions(tr, openAt)
    && stack == Entries(tr, openAt)
    && Distinct(openAt)
    && (forall p: nat :: p in openAt <==> p in AllOpen(tr, t))
  }

  /** The fixed part of a mark object: it stands for the mark at position `m`. */
  ghost predicate Anchored(mark: ImportantMark, log: seq<Entry>, m: nat) {
    && m == mark.at < |log| && log[m] == mark.entry && mark.entry.kind.Mark?
    && IsSnapshot(log[..m], mark.entry.thread, mark.preStack, mark.openAt)
    && |mark.preStack| == Height(log, m)
  }

  /** The changing part: it has recorded what mark `m` hears of the log. */
  ghost predicate UpToDate(mark: ImportantMark, log: seq<Entry>, m: nat)
    reads mark
  {
    && m < |log|
    && mark.postStack == Entries(log, Recorded(log, m))
    && mark.n == Height(log, m) - |Recorded(log, m)|
  }

  ghost predicate MarksOk(
      marks: map<Key, seq<ImportantMark>>, objects: set<ImportantMark>, log: seq<Entry>)
    reads objects
  {
    && (forall k :: |ListOf(marks, k)| == |MarksOf(log, k)|)
    && (forall k, j | k in marks && 0 <= j < |marks[k]| ::
          marks[k][j] in objects
          && Anchored(marks[k][j], log, MarksOf(log, k)[j])
          && UpToDate(marks[k][j], log, MarksOf(log, k)[j]))
  }

  /** No object is listed twice. */
  ghost predicate Separate(marks: map<Key, seq<ImportantMark>>) {
    && (forall k, j | k in marks && 0 <= j < |marks[k]| :: KeyOf(marks[k][j].entry) == k)
    && (forall k, i, j | k in marks && 0 <= i < j < |marks[k]| :: marks[k][i] != marks[k][j])
  }

  lemma {:induction false} YoungerByIndex(tr: seq<Entry>, k: Key, j: nat)
    requires j < |MarksOf(tr, k)|
    ensures Younger(tr, MarksOf(tr, k)[j]) == |MarksOf(tr, k)| - 1 - j
  {
    var m := MarksOf(tr, k)[j];
    if |tr| > m + 1 {
      assert j < |MarksOf(Front(tr), k)|;
      YoungerByIndex(Front(tr), k, j);
    } else {
      assert Last(MarksOf(tr, k)) >= m;
    }
  }

  lemma RecordedStep(log: seq<Entry>, e: Entry, m: nat)
    requires m < |log|
    ensures Height(log + [e], m) == Height(log, m) && (log + [e])[..m] == log[..m]
    ensures Recorded(log + [e], m) ==
      Recorded(log, m) + if Hears(log, m, |Recorded(log, m)|, e) then [|log|] else []
    ensures Positions(log + [e], Recorded(log, m))
    ensures Entries(log + [e], Recorded(log + [e], m)) ==
      Entries(log, Recorded(log, m)) + if Hears(log, m, |Recorded(log, m)|, e) then [e] else []
  {
    hide Hears, Depth;
    assert Front(log + [e]) == log && Last(log + [e]) == e;
    assert (log + [e])[..m] == log[..m];
  }

  /** Listing a mark under its key. */
  lemma JoinGroup(marks: map<Key, seq<ImportantMark>>, e: Entry, mark: ImportantMark)
    ensures KeyOf(e) == Key(e.tag, e.thread, e.file, e.line)
    ensures
      var k := Key(e.tag, e.thread, e.file, e.line);
      var marks' := marks[k := ListOf(marks, k) + [mark]];
      && ListOf(marks', k) != [] && Front(ListOf(marks', k)) == ListOf(marks, k)
      && Last(ListOf(marks', k)) == mark
      && forall k' | k' != k :: ListOf(marks', k') == ListOf(marks, k')
  {
  }

  lemma StaysAnchored(mark: ImportantMark, log: seq<Entry>, e: Entry, m: nat)
    requires Anchored(mark, log, m)
    ensures Anchored(mark, log + [e], m)
  {
    RecordedStep(log, e, m);
  }

  /** A mark before the window hears nothing of this closing. */
  lemma PassedOver(mark: ImportantMark, e: Entry, log: seq<Entry>, k: Key, j: nat)
    requires j < |MarksOf(log, k)| && |MarksOf(log, k)| - 1 - j >= Depth(log, e.thread)
    requires UpToDate(mark, log, MarksOf(log, k)[j])
    ensures UpToDate(mark, log + [e], MarksOf(log, k)[j])
  {
    YoungerByIndex(log, k, j);
    RecordedStep(log, e, MarksOf(log, k)[j]);
  }

  /** One round of the inner loop for mark j of group k. */
  method VisitMark(
      mark: ImportantMark, depth: int, e: Entry, ghost log: seq<Entry>, ghost k: Key, ghost j: nat)
    requires depth == Depth(log, e.thread) && e.kind.Close?
    requires j < |MarksOf(log, k)| && log[MarksOf(log, k)[j]] == mark.entry
    requires |MarksOf(log, k)| - 1 - j < depth
    requires UpToDate(mark, log, MarksOf(log, k)[j])
    modifies mark
    ensures UpToDate(mark, log + [e], MarksOf(log, k)[j])
  {
    if depth <= mark.n {
      mark.AppendPostEntry(e);
    }
    YoungerByIndex(log, k, j);
    RecordedStep(log, e, MarksOf(log, k)[j]);
  }

  /** The loop over `imarks_group[-depth:]`. */
  method VisitGroup(
      group: seq<ImportantMark>, depth: int, e: Entry, ghost log: seq<Entry>, ghost k: Key)
    requires depth == Depth(log, e.thread) > 0 && e.kind.Close?
    requires forall i, j | 0 <= i < j < |group| :: group[i] != group[j]
    requires |group| == |MarksOf(log, k)|
    requires forall j | 0 <= j < |group| :: log[MarksOf(log, k)[j]] == group[j].entry
    requires forall j | 0 <= j < |group| :: UpToDate(group[j], log, MarksOf(log, k)[j])
    modifies group
    ensures forall j | 0 <= j < |group| :: UpToDate(group[j], log + [e], MarksOf(log, k)[j])
  {
    hide UpToDate, Depth, MarksOf;
    var start := if |group| <= depth then 0 else |group| - depth;
    forall j | 0 <= j < start
      ensures UpToDate(group[j], log + [e], MarksOf(log, k)[j])
    {
      PassedOver(group[j], e, log, k, j);
    }
    for i := start to |group|
      invariant forall j | 0 <= j < i :: UpToDate(group[j], log + [e], MarksOf(log, k)[j])
      invariant forall j | i <= j < |group| :: UpToDate(group[j], log, MarksOf(log, k)[j])
    {
      VisitMark(group[i], depth, e, log, k, i);
    }
  }

  lemma MarksOfStep(log: seq<Entry>, e: Entry, k: Key)
    ensures MarksOf(log + [e], k) ==
      MarksOf(log, k) + if e.kind.Mark? && KeyOf(e) == k then [|log|] else []
  {
    assert Front(log + [e]) == log && Last(log + [e]) == e;
  }

  lemma NoNewMark(log: seq<Entry>, e: Entry, k: Key)
    requires !e.kind.Mark?
    ensures MarksOf(log + [e], k) == MarksOf(log, k)
  {
    assert Front(log + [e]) == log && Last(log + [e]) == e;
  }

  /** The loop over the groups, in any order. */
  method VisitAll(
      marks: map<Key, seq<ImportantMark>>, depth: int, e: Entry,
      ghost objects: set<ImportantMark>, ghost log: seq<Entry>)
    requires depth == Depth(log, e.thread) > 0 && e.kind.Close?
    requires Separate(marks)
    requires forall k | k in marks :: |marks[k]| == |MarksOf(log, k)|
    requires forall k, j | k in marks && 0 <= j < |marks[k]| ::
      marks[k][j] in objects && log[MarksOf(log, k)[j]] == marks[k][j].entry
    requires forall k, j | k in marks && 0 <= j < |marks[k]| ::
      UpToDate(marks[k][j], log, MarksOf(log, k)[j])
    modifies objects
    ensures forall k, j | k in marks && 0 <= j < |marks[k]| ::
      UpToDate(marks[k][j], log + [e], MarksOf(log, k)[j])
  {
    hide UpToDate, Depth, MarksOf;
    var todo := marks.Keys;
    while todo != {}
      invariant todo <= marks.Keys
      invariant forall k, j | k in marks && k !in todo && 0 <= j < |marks[k]| ::
        UpToDate(marks[k][j], log + [e], MarksOf(log, k)[j])
      invariant forall k, j | k in todo && 0 <= j < |marks[k]| ::
        UpToDate(marks[k][j], log, MarksOf(log, k)[j])
    {
      var key :| key in todo;
      assert forall k, j | k in marks && k != key && 0 <= j < |marks[k]| ::
          KeyOf(marks[k][j].entry) == k && marks[k][j] !in marks[key];
      VisitGroup(marks[key], depth, e, log, key);
      todo := todo - {key};
    }
  }

  lemma JoinDistinct(s: seq<nat>, more: seq<nat>)
    requires Distinct(s) && Distinct(more) && forall p | p in s :: p !in more
    ensures Distinct(s + more)
  {
    forall i, j | 0 <= i < j < |s + more|
      ensures (s + more)[i] != (s + more)[j]
    {
      if i < |s| <= j {
        assert s[i] in s && more[j - |s|] in more;
      }
    }
  }

  /** Adding the stack of one more tag to a snapshot in the making. */
  lemma JoinSnapshot(log: seq<Entry>, t: string, g: nat, openAt: seq<nat>)
    requires Positions(log, openAt) && Distinct(openAt)
    requires forall p | p in openAt :: log[p].tag != g
    ensures
      var s := openAt + TagOpen(log, t, g);
      && Positions(log, s) && Distinct(s)
      && Entries(log, s) == Entries(log, openAt) + Entries(log, TagOpen(log, t, g))
    ensures forall p: nat :: p in TagOpen(log, t, g) <==> p in AllOpen(log, t) && log[p].tag == g
  {
    var more := TagOpen(log, t, g);
    forall p | p in more
      ensures p < |log| && log[p].thread == t && log[p].tag == g
    {
    }
    JoinDistinct(openAt, more);
  }

  lemma SnapshotSize(log: seq<Entry>, t: string, openAt: seq<nat>)
    requires Accepted(log)
    requires Distinct(openAt)
    requires forall p: nat :: p in openAt <==> p in AllOpen(log, t)
    ensures |openAt| == Depth(log, t)
  {
    DepthCountsOpen(log, t);
    DistinctSize(openAt);
    assert AllOpen(log, t) == Elements(openAt);
  }

  ghost function Elements(s: seq<nat>): set<nat> {
    set p | p in s
  }

  lemma {:induction false} DistinctSize(s: seq<nat>)
    requires Distinct(s)
    ensures |Elements(s)| == |s|
  {
    if s != [] {
      var x, rest := s[0], s[1..];
      DistinctSize(rest);
      assert s == [x] + rest;
      assert Elements(s) == {x} + Elements(rest);
      assert x !in Elements(rest);
    }
  }

  // ---------------------------------------------------------------- the analyzer

  class Analyzer {
    var threads: map<string, map<nat, seq<Entry>>>
    var times: map<nat, seq<real>>
    var importantMarks: map<Key, seq<ImportantMark>>
    var stackDepth: map<string, int>
    ghost var log: seq<Entry>                  // the entries read so far
    ghost var objects: set<ImportantMark>      // the marks in `importantMarks`

    /** The containers are exactly what the entries read so far make of them. */
    ghost predicate Valid()
      reads this, objects
    {
      && Accepted(log)
      && StacksOk(threads, log)
      && DepthsOk(stackDepth, log)
      && TimesOk(times, log)
      && MarksOk(importantMarks, objects, log)
    }

    constructor ()
      ensures Valid() && log == [] && fresh(objects)
    {
      threads, times, importantMarks, stackDepth := map[], map[], map[], map[];
      log, objects := [], {};
    }

    method ReadOpen(e: Entry)
      requires Valid() && e.kind.Open?
      modifies this
      ensures Valid() && log == old(log) + [e] && objects == old(objects)
    {
      hide StacksOk, DepthsOk, TimesOk, MarksOk, Accepted, TagOpen, StackOf, CountOf, SetStack;
      PushKeepsStacks(threads, log, e);
      CountKeepsDepths(stackDepth, log, e);
      AcceptedStep(log, e);
      OtherKeepsTimes(times, log, e);
      MarksUntouched(e);
      threads := SetStack(threads, e.thread, e.tag, StackOf(threads, e.thread, e.tag) + [e]);
      stackDepth := stackDepth[e.thread := CountOf(stackDepth, e.thread) + 1];
      log := log + [e];
    }

    method ReadPoint(e: Entry)
      requires Valid() && e.kind.Point?
      modifies this
      ensures Valid() && log == old(log) + [e] && objects == old(objects)
    {
      hide StacksOk, DepthsOk, TimesOk, MarksOk, Accepted, TagOpen;
      OtherKeepsStacks(threads, log, e);
      CountKeepsDepths(stackDepth, log, e);
      AcceptedStep(log, e);
      OtherKeepsTimes(times, log, e);
      MarksUntouched(e);
      log := log + [e];
    }

    /** The list comprehension over the tags of one thread, in any order of the tags. */
    method Snapshot(t: string) returns (stack: seq<Entry>, ghost openAt: seq<nat>)
      requires Valid()
      ensures IsSnapshot(log, t, stack, openAt)
      ensures |stack| == Depth(log, t)
    {
      stack, openAt := [], [];
      var todo := if t in threads then threads[t].Keys else {};
      while todo != {}
        invariant t in threads ==> todo <= threads[t].Keys
        invariant t !in threads ==> todo == {}
        invariant Positions(log, openAt) && stack == Entries(log, openAt)
        invariant Distinct(openAt)
        invariant forall p: nat :: p in openAt <==>
          p in AllOpen(log, t) && t in threads && log[p].tag in threads[t].Keys - todo
      {
        var g :| g in todo;
        ghost var more := TagOpen(log, t, g);
        assert StackOf(threads, t, g) == Entries(log, more);
        JoinSnapshot(log, t, g, openAt);
        stack := stack + threads[t][g];
        openAt := openAt + more;
        todo := todo - {g};
      }
      EveryTagIsListed(t);
      SnapshotSize(log, t, openAt);
    }

    lemma EveryTagIsListed(t: string)
      requires Valid()
      ensures forall p | p in AllOpen(log, t) :: t in threads && log[p].tag in threads[t].Keys
    {
      forall p | p in AllOpen(log, t)
        ensures t in threads && log[p].tag in threads[t].Keys
      {
        assert StackOf(threads, t, log[p].tag) == Entries(log, TagOpen(log, t, log[p].tag));
      }
    }

    lemma MarksUntouched(e: Entry)
      requires Valid() && !e.kind.Close? && !e.kind.Mark?
      ensures MarksOk(importantMarks, objects, log + [e])
    {
      forall k
        ensures MarksOf(log + [e], k) == MarksOf(log, k)
        ensures |ListOf(importantMarks, k)| == |MarksOf(log, k)|
      {
        NoNewMark(log, e, k);
      }
      forall k, j | k in importantMarks && 0 <= j < |importantMarks[k]|
        ensures Anchored(importantMarks[k][j], log + [e], MarksOf(log, k)[j])
        ensures UpToDate(importantMarks[k][j], log + [e], MarksOf(log, k)[j])
      {
        OldMarkIsRight(e, k, j);
      }
    }

    /** The mark joins the group of its tag, thread, file and line, and no other group changes. */
    method ReadMark(e: Entry)
      requires Valid() && e.kind.Mark?
      modifies this
      ensures Valid() && log == old(log) + [e] && fresh(objects - old(objects))
      ensures
        var group := ListOf(importantMarks, Key(e.tag, e.thread, e.file, e.line));
        && group != [] && Front(group) == ListOf(old(importantMarks), Key(e.tag, e.thread, e.file, e.line))
        && Last(group).entry == e && Last(group).postStack == []
        && |Last(group).preStack| == Last(group).n == Depth(old(log), e.thread)
      ensures forall k | k != Key(e.tag, e.thread, e.file, e.line) ::
        ListOf(importantMarks, k) == ListOf(old(importantMarks), k)
    {
      hide StacksOk, DepthsOk, TimesOk, MarksOk, Accepted, TagOpen, IsSnapshot, Depth, MarksOf, ListOf, KeyOf;
      var stack, openAt := Snapshot(e.thread);
      var mark := new ImportantMark(e, stack, |log|, openAt);
      OtherKeepsStacks(threads, log, e);
      CountKeepsDepths(stackDepth, log, e);
      AcceptedStep(log, e);
      OtherKeepsTimes(times, log, e);
      NewMarkKeepsMarks(e, mark);
      JoinGroup(importantMarks, e, mark);
      importantMarks := importantMarks[KeyOf(e) := ListOf(importantMarks, KeyOf(e)) + [mark]];
      objects := objects + {mark};
      log := log + [e];
    }

    lemma NewMarkKeepsMarks(e: Entry, mark: ImportantMark)
      requires Valid() && e.kind.Mark?
      requires mark.at == |log| && mark.entry == e && mark.postStack == []
      requires IsSnapshot(log, e.thread, mark.preStack, mark.openAt)
      requires mark.n == |mark.preStack| == Depth(log, e.thread)
      ensures MarksOk(
                importantMarks[KeyOf(e) := ListOf(importantMarks, KeyOf(e)) + [mark]],
                objects + {mark}, log + [e])
    {
      hide UpToDate, Anchored, StacksOk, DepthsOk, TimesOk, Accepted, IsSnapshot, MarksOf;
      NewMarkIsRight(e, mark);
      var marks' := importantMarks[KeyOf(e) := ListOf(importantMarks, KeyOf(e)) + [mark]];
      forall k
        ensures |ListOf(importantMarks, k)| == |MarksOf(log, k)|
        ensures |ListOf(marks', k)| == |MarksOf(log + [e], k)|
        ensures MarksOf(log + [e], k) == MarksOf(log, k) + if k == KeyOf(e) then [|log|] else []
      {
        MarksOfStep(log, e, k);
      }
      forall k, j | k in marks' && 0 <= j < |marks'[k]|
        ensures marks'[k][j] in objects + {mark}
        ensures Anchored(marks'[k][j], log + [e], MarksOf(log + [e], k)[j])
        ensures UpToDate(marks'[k][j], log + [e], MarksOf(log + [e], k)[j])
      {
        if j < |MarksOf(log, k)| {
          OldMarkIsRight(e, k, j);
        }
      }
    }

    lemma NewMarkIsRight(e: Entry, mark: ImportantMark)
      requires Valid() && e.kind.Mark?
      requires mark.at == |log| && mark.entry == e && mark.postStack == []
      requires IsSnapshot(log, e.thread, mark.preStack, mark.openAt)
      requires mark.n == |mark.preStack| == Depth(log, e.thread)
      ensures Anchored(mark, log + [e], |log|) && UpToDate(mark, log + [e], |log|)
    {
      assert (log + [e])[..|log|] == log;
    }

    lemma OldMarkIsRight(e: Entry, k: Key, j: nat)
      requires Valid() && !e.kind.Close? && k in importantMarks && j < |importantMarks[k]|
      requires |importantMarks[k]| == |MarksOf(log, k)|
      ensures Anchored(importantMarks[k][j], log + [e], MarksOf(log, k)[j])
      ensures UpToDate(importantMarks[k][j], log + [e], MarksOf(log, k)[j])
    {
      RecordedStep(log, e, MarksOf(log, k)[j]);
      StaysAnchored(importantMarks[k][j], log, e, MarksOf(log, k)[j]);
    }

    lemma MarksAreSeparate()
      requires Valid()
      ensures Separate(importantMarks)
    {
      forall k, j | k in importantMarks && 0 <= j < |importantMarks[k]|
        ensures KeyOf(importantMarks[k][j].entry) == k
        ensures importantMarks[k][j].at == MarksOf(log, k)[j]
      {
        assert Anchored(importantMarks[k][j], log, MarksOf(log, k)[j]);
      }
    }

    lemma DepthIsPositive(e: Entry)
      requires Valid() && TagOpen(log, e.thread, e.tag) != []
      ensures CountOf(stackDepth, e.thread) == Depth(log, e.thread) > 0
    {
      DepthCountsOpen(log, e.thread);
      TopIsOpen(log, e.thread, e.tag);
    }

    /** The two loops over the marks. */
    method VisitMarks(e: Entry)
      requires Valid() && e.kind.Close? && Depth(log, e.thread) > 0
      modifies objects
      ensures MarksOk(importantMarks, objects, log + [e])
    {
      MarksAreSeparate();
      assert forall k | k in importantMarks :: |ListOf(importantMarks, k)| == |MarksOf(log, k)|;
      assert CountOf(stackDepth, e.thread) == Depth(log, e.thread);
      VisitAll(importantMarks, CountOf(stackDepth, e.thread), e, objects, log);
      forall k
        ensures MarksOf(log + [e], k) == MarksOf(log, k)
      {
        NoNewMark(log, e, k);
      }
      forall k, j | k in importantMarks && 0 <= j < |importantMarks[k]|
        ensures Anchored(importantMarks[k][j], log + [e], MarksOf(log, k)[j])
      {
        StaysAnchored(importantMarks[k][j], log, e, MarksOf(log, k)[j]);
      }
    }

    lemma PendingIsOpen(e: Entry)
      requires Valid()
      ensures
        var pending, s := StackOf(threads, e.thread, e.tag), TagOpen(log, e.thread, e.tag);
        |pending| == |s| && (s != [] ==> Last(pending) == log[Last(s)])
    {
      assert StackOf(threads, e.thread, e.tag) == Entries(log, TagOpen(log, e.thread, e.tag));
    }

    /** What popping the tag stack, noting the time and counting down amount to. */
    lemma CloseStep(e: Entry)
      requires Valid() && e.kind.Close? && StackOf(threads, e.thread, e.tag) != []
      ensures Accepted(log + [e]) && Depth(log, e.thread) > 0
      ensures
        var pending := StackOf(threads, e.thread, e.tag);
        && StacksOk(SetStack(threads, e.thread, e.tag, Front(pending)), log + [e])
        && TimesOk(times[e.tag := ListOf(times, e.tag) + [e.time - Last(pending).time]], log + [e])
        && DepthsOk(stackDepth[e.thread := CountOf(stackDepth, e.thread) - 1], log + [e])
    {
      hide StacksOk, DepthsOk, TimesOk, MarksOk, Accepted, TagOpen;
      PendingIsOpen(e);
      AcceptedStep(log, e);
      PopKeepsStacks(threads, log, e);
      CloseKeepsTimes(times, log, e);
      CountKeepsDepths(stackDepth, log, e);
      DepthIsPositive(e);
    }

    /** `pop` on an empty list raises an exception: the run stops with the log read so far. */
    method ReadClose(e: Entry) returns (ok: bool)
      requires Valid() && e.kind.Close?
      modifies this, objects
      ensures ok <==> Accepted(old(log) + [e])
      ensures ok ==> Valid() && log == old(log) + [e] && objects == old(objects)
    {
      hide StacksOk, DepthsOk, TimesOk, MarksOk, Accepted, TagOpen, StackOf, CountOf, SetStack;
      PendingIsOpen(e);
      AcceptedStep(log, e);
      var pending := StackOf(threads, e.thread, e.tag);
      if pending == [] {
        return false;
      }
      CloseStep(e);
      VisitMarks(e);
      threads := SetStack(threads, e.thread, e.tag, Front(pending));
      times := times[e.tag := ListOf(times, e.tag) + [e.time - Last(pending).time]];
      stackDepth := stackDepth[e.thread := CountOf(stackDepth, e.thread) - 1];
      log := log + [e];
      ok := true;
    }

    /** The loop over the entries of the log; false when the exception ended it. */
    method Read(entries: seq<Entry>) returns (ok: bool)
      requires Valid() && log == [] && objects == {}
      modifies this, objects
      ensures ok <==> Accepted(entries)
      ensures ok ==> Valid() && log == entries && fresh(objects)
    {
      for i := 0 to |entries|
        invariant Valid() && log == entries[..i] && fresh(objects)
      {
        var e := entries[i];
        assert entries[..i + 1] == entries[..i] + [e];
        match e.kind
        case Open => ReadOpen(e);
        case Mark => ReadMark(e);
        case Point => ReadPoint(e);
        case Close =>
          var popped := ReadClose(e);
          if !popped {
            RejectedStaysRejected(entries, i + 1);
            return false;
          }
      }
      assert entries[..|entries|] == entries;
      ok := true;
    }

    lemma MarkIsUpToDate(k: Key, j: nat)
      requires Valid() && k in importantMarks && j < |importantMarks[k]|
      ensures j < |MarksOf(log, k)|
      ensures Anchored(importantMarks[k][j], log, MarksOf(log, k)[j])
      ensures UpToDate(importantMarks[k][j], log, MarksOf(log, k)[j])
    {
      assert |ListOf(importantMarks, k)| == |MarksOf(log, k)|;
    }

    /** On a nested log, the snapshot of a mark is the nesting stack at the mark, in some order. */
    lemma SnapshotIsNest(k: Key, j: nat)
      requires Valid() && Nested(log) && k in importantMarks && j < |importantMarks[k]|
      ensures
        var mark := importantMarks[k][j];
        && IsMark(log, mark.at) && log[mark.at] == mark.entry
        && Positions(log[..mark.at], mark.openAt) && Distinct(mark.openAt)
        && mark.preStack == Entries(log[..mark.at], mark.openAt)
        && (forall p: nat :: p in mark.openAt <==> p in Around(log, mark.at))
        && |mark.preStack| == |Around(log, mark.at)|
    {
      hide StacksOk, DepthsOk, TimesOk, MarksOk, TagOpen;
      var mark := importantMarks[k][j];
      MarkIsUpToDate(k, j);
      HeightIsAround(log, mark.at);
      NestedPrefix(log, mark.at);
      OpenIsNest(log[..mark.at], mark.entry.thread);
    }

    /** And what it has collected: `n` counts the blocks it still waits for, and its i-th collected
        entry closed the i-th block of the nesting stack from the inside. */
    lemma CollectedAreClosings(k: Key, j: nat)
      requires Valid() && Nested(log) && k in importantMarks && j < |importantMarks[k]|
      ensures
        var mark := importantMarks[k][j];
        && IsMark(log, mark.at)
        && mark.n + |mark.postStack| == |mark.preStack| == |Around(log, mark.at)|
        && mark.postStack == Entries(log, Recorded(log, mark.at))
        && (forall i | 0 <= i < |mark.postStack| ::
              Closes(log, Recorded(log, mark.at)[i], Around(log, mark.at)[|mark.preStack| - 1 - i]))
    {
      hide StacksOk, DepthsOk, TimesOk, MarksOk, TagOpen, Closes, IsSnapshot;
      var mark := importantMarks[k][j];
      MarkIsUpToDate(k, j);
      HeightIsAround(log, mark.at);
      forall i | 0 <= i < |mark.postStack|
        ensures Closes(log, Recorded(log, mark.at)[i], Around(log, mark.at)[|mark.preStack| - 1 - i])
      {
        RecordsInnermostOutward(log, mark.at, i);
      }
    }
  }

  lemma {:induction false} RejectedStaysRejected(tr: seq<Entry>, i: nat)
    requires i <= |tr| && !Accepted(tr[..i])
    ensures !Accepted(tr)
  {
    if i < |tr| {
      assert Front(tr)[..i] == tr[..i];
      RejectedStaysRejected(Front(tr), i);
    } else {
      assert tr[..i] == tr;
    }
  }
}
