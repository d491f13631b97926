/** What an important mark has heard of the closings that follow it: the rule of the source, and
    what it amounts to on nested logs. */
module ProfileMarks {
  import opened ProfileTrace

  ghost predicate IsMark(tr: seq<Entry>, m: nat) {
    m < |tr| && tr[m].kind.Mark?
  }

  /** The marks of one group, in the order of the log. */
  function MarksOf(tr: seq<Entry>, k: Key): (s: seq<nat>)
    ensures Positions(tr, s)
    ensures forall i | 0 <= i < |s| :: tr[s[i]].kind.Mark? && KeyOf(tr[s[i]]) == k
    ensures forall i, j | 0 <= i < j < |s| :: s[i] < s[j]
  {
    if tr == [] then []
    else
      MarksOf(Front(tr), k) +
      if Last(tr).kind.Mark? && KeyOf(Last(tr)) == k then [|tr| - 1] else []
  }

  /** How many marks of the same group came after mark `m`. */
  function Younger(tr: seq<Entry>, m: nat): nat
    requires m < |tr|
  {
    if |tr| == m + 1 then 0
    else
      Younger(Front(tr), m) +
      if Last(tr).kind.Mark? && KeyOf(Last(tr)) == KeyOf(tr[m]) then 1 else 0
  }

  /** The number of blocks open at mark `m`. */
  function Height(tr: seq<Entry>, m: nat): int
    requires m < |tr|
  {
    Depth(tr[..m], tr[m].thread)
  }

  /** Whether mark `m`, which has recorded `heard` closings so far, records the entry after `tr`:
      the window holds the last `depth` marks of the group, and a closing deeper than the number
      of closings still awaited is ignored. */
  predicate Hears(tr: seq<Entry>, m: nat, heard: nat, e: Entry)
    requires m < |tr|
  {
    var depth, awaited := Depth(tr, e.thread), Height(tr, m) - heard;
    e.kind.Close? && e.thread == tr[m].thread
    && Younger(tr, m) < depth && depth <= awaited && awaited > 0
  }

  /** The closings mark `m` has recorded, in order. */
  function Recorded(tr: seq<Entry>, m: nat): (r: seq<nat>)
    requires m < |tr|
    ensures Positions(tr, r)
    ensures forall i | 0 <= i < |r| :: m < r[i] && tr[r[i]].kind.Close? && tr[r[i]].thread == tr[m].thread
    ensures forall i, j | 0 <= i < j < |r| :: r[i] < r[j]
    ensures |r| <= if Height(tr, m) > 0 then Height(tr, m) else 0
  {
    if |tr| == m + 1 then []
    else
      var r := Recorded(Front(tr), m);
      assert Front(tr)[..m] == tr[..m];
      if Hears(Front(tr), m, |r|, Last(tr)) then r + [|tr| - 1] else r
  }

  // ---------------------------------------------------------------- nested logs

  /** The blocks open at mark `m`, outermost first. */
  function Around(tr: seq<Entry>, m: nat): seq<nat>
    requires m < |tr|
  {
    NestOpen(tr[..m], tr[m].thread)
  }

  /** Entry `c` closes the block opened at `o`. */
  ghost predicate Closes(tr: seq<Entry>, c: nat, o: nat)
    requires c < |tr|
  {
    var s := NestOpen(tr[..c], tr[c].thread);
    tr[c].kind.Close? && s != [] && Last(s) == o
  }

  function Min(a: nat, b: nat): nat { if a < b then a else b }

  /** How many of the blocks around mark `m` have stayed open ever since. */
  function StillOpen(tr: seq<Entry>, m: nat): nat
    requires m < |tr|
  {
    if |tr| == m + 1 then |Around(tr, m)|
    else
      assert Front(tr)[..m] == tr[..m];
      Min(StillOpen(Front(tr), m), |NestOpen(tr, tr[m].thread)|)
  }

  lemma AroundOfPrefix(tr: seq<Entry>, m: nat)
    requires tr != [] && m < |tr| - 1
    ensures Around(Front(tr), m) == Around(tr, m) && Height(Front(tr), m) == Height(tr, m)
  {
    assert Front(tr)[..m] == tr[..m];
  }

  /** `k` is the first `p` elements of `s`, followed by positions after `m`. */
  ghost predicate Splits(k: seq<nat>, s: seq<nat>, p: nat, m: nat) {
    p <= |k| && p <= |s| && k[..p] == s[..p] && forall i | p <= i < |k| :: k[i] > m
  }

  lemma PushSplits(k: seq<nat>, s: seq<nat>, p: nat, m: nat, x: nat)
    requires Splits(k, s, p, m) && x > m
    ensures Splits(k + [x], s, p, m)
  {
    assert (k + [x])[..p] == k[..p];
  }

  lemma PopSplits(k: seq<nat>, s: seq<nat>, p: nat, m: nat)
    requires Splits(k, s, p, m) && k != []
    ensures Splits(Front(k), s, Min(p, |k| - 1), m)
  {
    var q := Min(p, |k| - 1);
    assert Front(k)[..q] == k[..p][..q] == s[..p][..q] == s[..q];
  }

  /** One entry pushes on the nesting stack, pops it or leaves it alone. */
  lemma NestStep(tr: seq<Entry>, t: string)
    requires tr != []
    ensures
      var k, e := NestOpen(Front(tr), t), Last(tr);
      NestOpen(tr, t) ==
        if e.thread == t && e.kind.Open? then k + [|tr| - 1]
        else if e.thread == t && e.kind.Close? && k != [] then Front(k)
        else k
  {
  }

  /** The nesting stack after mark `m` is what is left of the blocks around it, then younger ones. */
  lemma {:induction false} StackSplits(tr: seq<Entry>, m: nat)
    requires IsMark(tr, m)
    ensures Splits(NestOpen(tr, tr[m].thread), Around(tr, m), StillOpen(tr, m), m)
  {
    var t := tr[m].thread;
    NestStep(tr, t);
    hide NestOpen, Around;
    if |tr| == m + 1 {
      AroundLast(tr);
    } else {
      var f, e := Front(tr), Last(tr);
      AroundOfPrefix(tr, m);
      StackSplits(f, m);
      var k, p := NestOpen(f, t), StillOpen(f, m);
      if e.thread == t && e.kind.Open? {
        PushSplits(k, Around(tr, m), p, m, |tr| - 1);
      } else if e.thread == t && e.kind.Close? && k != [] {
        PopSplits(k, Around(tr, m), p, m);
      }
    }
  }

  lemma AroundLast(tr: seq<Entry>)
    requires tr != []
    ensures Around(tr, |tr| - 1) == NestOpen(Front(tr), Last(tr).thread)
  {
  }

  /** Either the mark has heard every closing of a block around it so far, or it has missed one,
      and then so many younger marks have joined its group that it never hears again. */
  lemma {:induction false} HeardOrLost(tr: seq<Entry>, m: nat)
    requires Nested(tr) && IsMark(tr, m)
    ensures
      var awaited, p := |Around(tr, m)| - |Recorded(tr, m)|, StillOpen(tr, m);
      awaited == p || (awaited > p && Younger(tr, m) >= awaited)
  {
    if |tr| > m + 1 {
      var f, e := Front(tr), Last(tr);
      AroundOfPrefix(tr, m);
      HeardOrLost(f, m);
      StackSplits(f, m);
      NestedIsAccepted(f, e.thread);
      HeightIsAround(f, m);
    }
  }

  lemma {:induction false} NestedPrefix(tr: seq<Entry>, i: nat)
    requires Nested(tr) && i <= |tr|
    ensures Nested(tr[..i])
  {
    if i < |tr| {
      NestedPrefix(Front(tr), i);
      assert Front(tr)[..i] == tr[..i];
    } else {
      assert tr[..i] == tr;
    }
  }

  lemma HeightIsAround(tr: seq<Entry>, m: nat)
    requires Nested(tr) && m < |tr|
    ensures Height(tr, m) == |Around(tr, m)|
  {
    NestedPrefix(tr, m);
    NestedIsAccepted(tr[..m], tr[m].thread);
  }

  lemma ClosesInPrefix(tr: seq<Entry>, c: nat, o: nat)
    requires tr != [] && c < |tr| - 1
    ensures Closes(Front(tr), c, o) <==> Closes(tr, c, o)
  {
    assert Front(tr)[..c] == tr[..c];
  }

  lemma TopSurvives(k: seq<nat>, s: seq<nat>, p: nat, m: nat, d: nat)
    requires Splits(k, s, p, m) && k != [] && 0 < d <= |s|
    requires forall i, j | 0 <= i < j < |s| :: s[i] < s[j]
    requires Last(k) == s[d - 1] <= m
    ensures d == p == |k|
  {
    assert k[..p][|k| - 1] == s[..p][|k| - 1];
  }

  /** If the next entry closes a block around the mark, that block is the innermost survivor. */
  lemma NextClosing(tr: seq<Entry>, m: nat, d: nat)
    requires Nested(tr) && IsMark(tr, m) && m < |tr| - 1
    requires 0 < d <= |Around(tr, m)| && Closes(tr, |tr| - 1, Around(tr, m)[d - 1])
    requires Last(tr).thread == tr[m].thread
    ensures d == StillOpen(Front(tr), m) == |NestOpen(Front(tr), tr[m].thread)|
  {
    hide NestOpen, StillOpen, Nested, Splits;
    var f := Front(tr);
    assert tr[..|tr| - 1] == f;
    AroundOfPrefix(tr, m);
    StackSplits(f, m);
    TopSurvives(NestOpen(f, tr[m].thread), Around(tr, m), StillOpen(f, m), m, d);
  }

  /** A block around a mark belongs to the mark's thread, and so does the closing of the block. */
  lemma ClosingIsOfThread(tr: seq<Entry>, m: nat, c: nat, d: nat)
    requires m < c < |tr| && 0 < d <= |Around(tr, m)| && Closes(tr, c, Around(tr, m)[d - 1])
    ensures tr[c].thread == tr[m].thread
  {
    var o := Around(tr, m)[d - 1];
    assert tr[..m][o].thread == tr[m].thread;
    assert tr[..c][o].thread == tr[c].thread;
  }

  /** A closing that is heard closes the innermost block the mark is still waiting for. */
  lemma HeardClosing(tr: seq<Entry>, m: nat)
    requires Nested(tr) && IsMark(tr, m) && m < |tr| - 1
    requires Hears(Front(tr), m, |Recorded(Front(tr), m)|, Last(tr))
    requires |Recorded(Front(tr), m)| < |Around(tr, m)|
    ensures Closes(tr, |tr| - 1, Around(tr, m)[|Around(tr, m)| - 1 - |Recorded(Front(tr), m)|])
  {
    var f := Front(tr);
    assert tr[..|tr| - 1] == f;
    AroundOfPrefix(tr, m);
    HeightIsAround(f, m);
    NestedIsAccepted(f, tr[m].thread);
    HeardOrLost(f, m);
    SurvivorOnTop(f, m);
  }

  /** When nothing younger is open, the top of the stack is the innermost block around the mark
      that is still open. */
  lemma SurvivorOnTop(tr: seq<Entry>, m: nat)
    requires IsMark(tr, m) && 0 < |NestOpen(tr, tr[m].thread)| <= StillOpen(tr, m)
    ensures |NestOpen(tr, tr[m].thread)| == StillOpen(tr, m) <= |Around(tr, m)|
    ensures Last(NestOpen(tr, tr[m].thread)) == Around(tr, m)[StillOpen(tr, m) - 1]
  {
    StackSplits(tr, m);
    var k, s, p := NestOpen(tr, tr[m].thread), Around(tr, m), StillOpen(tr, m);
    assert k[..p][p - 1] == s[..p][p - 1];
  }

  /** On a nested log, a mark records closings of the blocks that were open at the mark and of
      nothing else, from the innermost outward: its j-th record closes the j-th block from the
      inside. */
  lemma {:induction false} RecordsInnermostOutward(tr: seq<Entry>, m: nat, j: nat)
    requires Nested(tr) && IsMark(tr, m) && j < |Recorded(tr, m)|
    ensures |Recorded(tr, m)| <= |Around(tr, m)|
    ensures Closes(tr, Recorded(tr, m)[j], Around(tr, m)[|Around(tr, m)| - 1 - j])
    decreases |tr|
  {
    hide Hears, Around, Height, Closes;
    HeightIsAround(tr, m);
    if |tr| > m + 1 {
      var f := Front(tr);
      AroundOfPrefix(tr, m);
      if j < |Recorded(f, m)| {
        RecordsInnermostOutward(f, m, j);
        ClosesInPrefix(tr, Recorded(f, m)[j], Around(tr, m)[|Around(tr, m)| - 1 - j]);
      } else {
        HeardClosing(tr, m);
      }
    }
  }

  /** The later marks of the same tag and thread in the same line of the same file. */
  ghost function Rivals(tr: seq<Entry>, m: nat): set<nat>
    requires m < |tr|
  {
    set i | m < i < |tr| && tr[i].kind.Mark? && tr[i].tag == tr[m].tag
            && tr[i].thread == tr[m].thread && tr[i].file == tr[m].file && tr[i].line == tr[m].line
  }

  lemma {:induction false} YoungerAreRivals(tr: seq<Entry>, m: nat)
    requires m < |tr|
    ensures Younger(tr, m) == |Rivals(tr, m)|
  {
    if |tr| == m + 1 {
      assert Rivals(tr, m) == {};
    } else {
      hide Rivals;
      YoungerAreRivals(Front(tr), m);
      RivalsStep(tr, m);
    }
  }

  lemma RivalsStep(tr: seq<Entry>, m: nat)
    requires m < |tr| - 1
    ensures
      var f, e := Front(tr), Last(tr);
      |Rivals(tr, m)| ==
        |Rivals(f, m)| + if e.kind.Mark? && KeyOf(e) == KeyOf(tr[m]) then 1 else 0
  {
    var f, e := Front(tr), Last(tr);
    SameGroup(e, tr[m]);
    forall i: nat | i < |f|
      ensures i in Rivals(tr, m) <==> i in Rivals(f, m)
    {
      assert tr[i] == f[i];
    }
    var more := if e.kind.Mark? && KeyOf(e) == KeyOf(tr[m]) then {|f|} else {};
    assert Rivals(tr, m) == Rivals(f, m) + more;
    assert |f| !in Rivals(f, m);
  }

  /** The same in terms of the recording rule. */
  lemma {:induction false} RecordedIffFewYounger(tr: seq<Entry>, m: nat, c: nat, d: nat)
    requires Nested(tr) && IsMark(tr, m)
    requires m < c < |tr| && 0 < d <= |Around(tr, m)| && Closes(tr, c, Around(tr, m)[d - 1])
    ensures c in Recorded(tr, m) <==> Younger(tr[..c], m) < d
    decreases |tr|
  {
    var f, e := Front(tr), Last(tr);
    AroundOfPrefix(tr, m);
    if c < |tr| - 1 {
      ClosesInPrefix(tr, c, Around(tr, m)[d - 1]);
      RecordedIffFewYounger(f, m, c, d);
      assert f[..c] == tr[..c];
    } else {
      assert tr[..c] == f;
      ClosingIsOfThread(tr, m, c, d);
      NextClosing(tr, m, d);
      HeardOrLost(f, m);
      HeightIsAround(f, m);
      NestedIsAccepted(f, e.thread);
    }
  }

  /** And which ones: the closing of the d-th enclosing block, counted from the outside, is recorded
      if and only if fewer than d marks of the same tag, thread, file and line lie between the mark and
      that closing. */
  lemma {:induction false} RecordedIffFewRivals(tr: seq<Entry>, m: nat, c: nat, d: nat)
    requires Nested(tr) && IsMark(tr, m)
    requires m < c < |tr| && 0 < d <= |Around(tr, m)| && Closes(tr, c, Around(tr, m)[d - 1])
    ensures c in Recorded(tr, m) <==> |Rivals(tr[..c], m)| < d
  {
    RecordedIffFewYounger(tr, m, c, d);
    YoungerAreRivals(tr[..c], m);
  }

  /** Once more closings are awaited than blocks around the mark are left, the next entry is not
      recorded. */
  lemma LostNowLostNext(tr: seq<Entry>, m: nat)
    requires Nested(tr) && IsMark(tr, m) && m < |tr| - 1
    requires |Around(tr, m)| - |Recorded(Front(tr), m)| > StillOpen(Front(tr), m)
    ensures Recorded(tr, m) == Recorded(Front(tr), m)
    ensures |Around(tr, m)| - |Recorded(tr, m)| > StillOpen(tr, m)
  {
    var f, e := Front(tr), Last(tr);
    AroundOfPrefix(tr, m);
    HeardOrLost(f, m);
    HeightIsAround(f, m);
    hide Around, Height, Closes;
  }

  /** A mark that misses the closing of a block around it records nothing from there on, so it never
      takes a later, unrelated closing for the one it missed. */
  lemma {:induction false} MissedMarkStaysSilent(tr: seq<Entry>, m: nat, c: nat, d: nat)
    requires Nested(tr) && IsMark(tr, m)
    requires m < c < |tr| && 0 < d <= |Around(tr, m)| && Closes(tr, c, Around(tr, m)[d - 1])
    requires c !in Recorded(tr, m)
    ensures Recorded(tr, m) == Recorded(tr[..c], m)
    ensures |Around(tr, m)| - |Recorded(tr, m)| > StillOpen(tr, m)
    decreases |tr|
  {
    var f, e := Front(tr), Last(tr);
    AroundOfPrefix(tr, m);
    if c < |tr| - 1 {
      ClosesInPrefix(tr, c, Around(tr, m)[d - 1]);
      hide Hears, Around, Height, Closes, StillOpen, NestOpen;
      assert c !in Recorded(f, m) by { if c in Recorded(f, m) { StillRecorded(tr, m, c); } }
      MissedMarkStaysSilent(f, m, c, d);
      assert f[..c] == tr[..c];
      LostNowLostNext(tr, m);
    } else {
      MissedLast(tr, m, d);
    }
  }

  lemma MissedLast(tr: seq<Entry>, m: nat, d: nat)
    requires Nested(tr) && IsMark(tr, m) && m < |tr| - 1
    requires 0 < d <= |Around(tr, m)| && Closes(tr, |tr| - 1, Around(tr, m)[d - 1])
    requires |tr| - 1 !in Recorded(tr, m)
    ensures Recorded(tr, m) == Recorded(tr[..|tr| - 1], m)
    ensures |Around(tr, m)| - |Recorded(tr, m)| > StillOpen(tr, m)
  {
    var f := Front(tr);
    assert tr[..|tr| - 1] == f;
    AroundOfPrefix(tr, m);
    ClosingIsOfThread(tr, m, |tr| - 1, d);
    NextClosing(tr, m, d);
    HeardOrLost(f, m);
    hide Around, Height, Hears, Closes;
  }

  lemma StillRecorded(tr: seq<Entry>, m: nat, c: nat)
    requires m < |tr| - 1 && c in Recorded(Front(tr), m)
    ensures c in Recorded(tr, m)
  {
  }

  /** One block of one thread with two marks of one group in it: the log `{ ! ! }`. */
  ghost predicate Crowded(tr: seq<Entry>) {
    && |tr| == 4
    && tr[0].kind.Open? && tr[1].kind.Mark? && tr[2].kind.Mark? && tr[3].kind.Close?
    && (forall i | 0 <= i < 4 :: tr[i].thread == tr[0].thread && tr[i].tag == tr[0].tag)
    && tr[1].file == tr[2].file && tr[1].line == tr[2].line
  }

  lemma BlockStacks(tr: seq<Entry>)
    requires |tr| == 4
    requires tr[0].kind.Open? && tr[1].kind.Mark? && tr[2].kind.Mark? && tr[3].kind.Close?
    requires forall i | 0 <= i < 4 :: tr[i].thread == tr[0].thread && tr[i].tag == tr[0].tag
    ensures
      var t := tr[0].thread;
      && NestOpen(tr[..0], t) == [] && NestOpen(tr[..1], t) == [0] && NestOpen(tr[..2], t) == [0]
      && NestOpen(tr[..3], t) == [0]
      && Depth(tr[..0], t) == 0 && Depth(tr[..1], t) == 1 && Depth(tr[..2], t) == 1
      && Depth(tr[..3], t) == 1
    ensures Nested(tr)
  {
    assert tr[..1][..0] == tr[..0] && tr[..2][..1] == tr[..1];
    assert tr[..3][..2] == tr[..2] && tr[..4][..3] == tr[..3] && tr[..4] == tr;
    assert Nested(tr[..0]);
    assert Nested(tr[..1]);
    assert Nested(tr[..2]);
    assert Nested(tr[..3]);
  }

  /** Closings really are missed: on every such log the first mark never hears of the closing of the
      block around it, while the second one does. */
  lemma ClosingIsMissed(tr: seq<Entry>)
    requires Crowded(tr)
    ensures Nested(tr) && IsMark(tr, 1) && IsMark(tr, 2)
    ensures Around(tr, 1) == Around(tr, 2) == [0] && Closes(tr, 3, 0)
    ensures 3 !in Recorded(tr, 1) && 3 in Recorded(tr, 2)
  {
    BlockStacks(tr);
    SameGroup(tr[1], tr[2]);
    assert tr[..3][..2] == tr[..2];
    hide NestOpen, Nested;
    RecordedIffFewYounger(tr, 1, 3, 1);
    RecordedIffFewYounger(tr, 2, 3, 1);
    assert Younger(tr[..3], 2) == 0;
    assert Younger(tr[..2], 1) == 0;
    assert Younger(tr[..3], 1) == 1;
  }

  /** There are such logs. */
  lemma SomeLogIsCrowded() returns (tr: seq<Entry>)
    ensures Crowded(tr)
  {
    var mark := Entry(0.0, "t", Mark, 0, "", "f", "1");
    tr := [mark.(kind := Open), mark, mark, mark.(kind := Close)];
  }

  /** The same log with the marks in different lines. */
  ghost predicate Roomy(tr: seq<Entry>) {
    && |tr| == 4
    && tr[0].kind.Open? && tr[1].kind.Mark? && tr[2].kind.Mark? && tr[3].kind.Close?
    && (forall i | 0 <= i < 4 :: tr[i].thread == tr[0].thread && tr[i].tag == tr[0].tag)
    && (tr[1].file != tr[2].file || tr[1].line != tr[2].line)
  }

  /** Then both marks hear the closing. */
  lemma BothHear(tr: seq<Entry>)
    requires Roomy(tr)
    ensures Nested(tr) && IsMark(tr, 1) && IsMark(tr, 2)
    ensures Around(tr, 1) == Around(tr, 2) == [0] && Closes(tr, 3, 0)
    ensures 3 in Recorded(tr, 1) && 3 in Recorded(tr, 2)
  {
    BlockStacks(tr);
    assert tr[..3][..2] == tr[..2];
    hide NestOpen, Nested;
    RecordedIffFewRivals(tr, 1, 3, 1);
    RecordedIffFewRivals(tr, 2, 3, 1);
    assert Rivals(tr[..3], 1) == {} && Rivals(tr[..3], 2) == {};
  }

  lemma SomeLogIsRoomy() returns (tr: seq<Entry>)
    ensures Roomy(tr)
  {
    var mark := Entry(0.0, "t", Mark, 0, "", "f", "2");
    tr := [mark.(kind := Open), mark, mark.(line := "3"), mark.(kind := Close)];
  }
}
