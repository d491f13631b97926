/** Replacing substrings in place: `StringReplace` of the C++ generator, `Replace` and `ReplaceAll`
    of the Ruby generator. */
module StringReplacing {
  import opened Wrappers

  /** `pat` occurs in `s` at position `i`. */
  predicate OccursAt(s: string, pat: string, i: nat) {
    i + |pat| <= |s| && s[i..i + |pat|] == pat
  }

  /** std::string::find: the first occurrence at `pos` or later. */
  function Find(s: string, pat: string, pos: nat): (r: Option<nat>)
    ensures r.None? ==> forall i | i >= pos :: !OccursAt(s, pat, i)
    ensures r.Some? ==> pos <= r.value <= |s| - |pat| && OccursAt(s, pat, r.value)
    ensures r.Some? ==> forall i | pos <= i < r.value :: !OccursAt(s, pat, i)
    decreases |s| + 1 - pos
  {
    if pos > |s| then None
    else if OccursAt(s, pat, pos) then Some(pos)
    else Find(s, pat, pos + 1)
  }

  // ---------------------------------------------------------------- the specification

  /** The pieces between the leftmost, non-overlapping occurrences of `pat`. */
  function Split(s: string, pat: string): (parts: seq<string>)
    requires pat != ""
    ensures parts != []
  {
    match Find(s, pat, 0)
    case None => [s]
    case Some(i) => [s[..i]] + Split(s[i + |pat|..], pat)
  }

  function Join(parts: seq<string>, sep: string): string
    requires parts != []
  {
    if |parts| == 1 then parts[0] else parts[0] + sep + Join(parts[1..], sep)
  }

  ghost predicate Free(s: string, pat: string) {
    forall i: nat | i <= |s| :: !OccursAt(s, pat, i)
  }

  /** Scanning through a piece and the separator after it, one does not meet the separator before
      its place. */
  ghost predicate Piece(p: string, pat: string) {
    forall i: nat | i < |p| :: !OccursAt(p + pat, pat, i)
  }

  /** What it means to be that list of pieces, without saying how to find it. */
  ghost predicate IsSplit(s: string, pat: string, parts: seq<string>) {
    && parts != [] && Join(parts, pat) == s
    && (forall k | 0 <= k < |parts| - 1 :: Piece(parts[k], pat))
    && Free(parts[|parts| - 1], pat)
  }

  /** The text before an occurrence is a piece exactly when the occurrence is the first. */
  lemma FirstPiece(s: string, pat: string, i: nat)
    requires OccursAt(s, pat, i)
    ensures Piece(s[..i], pat) <==> forall k: nat | k < i :: !OccursAt(s, pat, k)
  {
    assert s[..i] + pat == s[..i + |pat|];
    forall k: nat | k < i
      ensures OccursAt(s[..i] + pat, pat, k) <==> OccursAt(s, pat, k)
    {
      assert s[..i + |pat|][k..k + |pat|] == s[k..k + |pat|];
    }
  }

  lemma {:induction false} SplitIsSplit(s: string, pat: string)
    requires pat != ""
    ensures IsSplit(s, pat, Split(s, pat))
    decreases |s|
  {
    match Find(s, pat, 0)
    case None =>
    case Some(i) =>
      var rest := s[i + |pat|..];
      var tail := Split(rest, pat);
      SplitIsSplit(rest, pat);
      FirstPiece(s, pat, i);
      assert s == s[..i] + pat + rest;
      ConsIsSplit(s[..i], rest, pat, tail);
  }

  lemma ConsIsSplit(p: string, rest: string, pat: string, tail: seq<string>)
    requires IsSplit(rest, pat, tail) && Piece(p, pat)
    ensures IsSplit(p + pat + rest, pat, [p] + tail)
  {
    assert ([p] + tail)[1..] == tail;
  }

  /** There is only one such list. */
  lemma {:induction false} SplitIsUnique(s: string, pat: string, parts: seq<string>)
    requires pat != "" && IsSplit(s, pat, parts)
    ensures parts == Split(s, pat)
    decreases |parts|
  {
    hide Find, Join, Piece, OccursAt;
    if |parts| > 1 {
      var i := |parts[0]|;
      IsSplitFront(s, pat, parts);
      SplitIsUnique(s[i + |pat|..], pat, parts[1..]);
      assert parts == [parts[0]] + parts[1..];
    } else {
      NoneFound(s, pat, parts);
    }
  }

  lemma NoneFound(s: string, pat: string, parts: seq<string>)
    requires IsSplit(s, pat, parts) && |parts| == 1
    ensures parts == [s] && Find(s, pat, 0) == None
  {
    assert forall i: nat | i > |s| :: !OccursAt(s, pat, i);
  }

  /** The first piece ends where the separator occurs first, and the others split the rest. */
  lemma IsSplitFront(s: string, pat: string, parts: seq<string>)
    requires pat != "" && IsSplit(s, pat, parts) && |parts| > 1
    ensures
      var i := |parts[0]|;
      && Find(s, pat, 0) == Some(i) && i + |pat| <= |s|
      && s[..i] == parts[0] && IsSplit(s[i + |pat|..], pat, parts[1..])
  {
    hide Find, OccursAt, Piece, Free;
    var i, tail := |parts[0]|, parts[1..];
    var rest := Join(tail, pat);
    assert s == parts[0] + pat + rest;
    Slices(parts[0], pat, rest);
    FirstPiece(s, pat, i);
    FirstFound(s, pat, i);
    assert forall k | 0 <= k < |tail| - 1 :: tail[k] == parts[k + 1];
  }

  lemma Slices(a: string, pat: string, rest: string)
    ensures
      var s, i := a + pat + rest, |a|;
      s[..i] == a && OccursAt(s, pat, i) && s[i + |pat|..] == rest
  {
  }

  lemma FirstFound(s: string, pat: string, i: nat)
    requires OccursAt(s, pat, i) && forall k: nat | k < i :: !OccursAt(s, pat, k)
    ensures Find(s, pat, 0) == Some(i)
  {
    var r := Find(s, pat, 0);
    assert r.Some? && r.value <= i;
  }

  function Replaced(s: string, from: string, to: string): string
    requires from != ""
  {
    Join(Split(s, from), to)
  }

  ghost predicate FirstAt(s: string, pat: string, i: nat) {
    OccursAt(s, pat, i) && forall k: nat | k < i :: !OccursAt(s, pat, k)
  }

  /** `str` is `s` with the first occurrence of `from` replaced, or `s` itself when there is none. */
  ghost predicate FirstReplaced(s: string, from: string, to: string, str: string) {
    || (Free(s, from) && str == s)
    || exists i: nat :: FirstAt(s, from, i) && str == s[..i] + to + s[i + |from|..]
  }

  // ---------------------------------------------------------------- the loops

  lemma OccursInTail(s: string, pat: string, pos: nat, i: nat)
    requires pos <= |s|
    ensures OccursAt(s[pos..], pat, i) <==> OccursAt(s, pat, pos + i)
  {
    if pos + i + |pat| <= |s| {
      assert s[pos..][i..i + |pat|] == s[pos + i..pos + i + |pat|];
    }
  }

  lemma {:induction false} FindFrom(s: string, pat: string, pos: nat)
    requires pos <= |s|
    ensures Find(s, pat, pos) ==
      match Find(s[pos..], pat, 0) case None => None case Some(i) => Some(pos + i)
  {
    hide Find, OccursAt;
    var r, q := Find(s, pat, pos), Find(s[pos..], pat, 0);
    if r.Some? {
      OccursInTail(s, pat, pos, r.value - pos);
    }
    if q.Some? {
      OccursInTail(s, pat, pos, q.value);
      if r.Some? && r.value - pos < q.value {
        assert false;
      }
    }
  }

  lemma JoinCons(p: string, tail: seq<string>, sep: string)
    requires tail != []
    ensures Join([p] + tail, sep) == p + sep + Join(tail, sep)
  {
    assert ([p] + tail)[1..] == tail;
  }

  lemma SplitAt(s: string, from: string, to: string, i: nat)
    requires from != "" && Find(s, from, 0) == Some(i)
    ensures i + |from| <= |s|
    ensures Replaced(s, from, to) == s[..i] + to + Replaced(s[i + |from|..], from, to)
  {
    hide Find, Join, OccursAt;
    JoinCons(s[..i], Split(s[i + |from|..], from), to);
  }

  lemma NoSplit(s: string, from: string, to: string)
    requires from != "" && Find(s, from, 0) == None
    ensures Replaced(s, from, to) == s
  {
    hide Find, OccursAt;
  }

  lemma ReplacedSplits(s: string, from: string, to: string)
    requires from != ""
    ensures match Find(s, from, 0)
      case None => Replaced(s, from, to) == s
      case Some(i) => Replaced(s, from, to) == s[..i] + to + Replaced(s[i + |from|..], from, to)
  {
    hide *;
    match Find(s, from, 0)
    case None => NoSplit(s, from, to);
    case Some(i) => SplitAt(s, from, to, i);
  }

  function Spliced(str: string, i: nat, n: nat, to: string): (r: string)
    requires i + n <= |str|
    ensures |r| == |str| - n + |to|
  {
    str[..i] + to + str[i + n..]
  }

  lemma SplicedSlices(str: string, pos: nat, k: nat, n: nat, to: string)
    requires pos + k + n <= |str|
    ensures
      var str', next := Spliced(str, pos + k, n, to), pos + k + |to|;
      && next <= |str'| && |str'| - next == |str| - (pos + k + n)
      && str'[next..] == str[pos..][k + n..]
      && str'[..next] == str[..pos] + str[pos..][..k] + to
  {
    var str' := Spliced(str, pos + k, n, to);
    assert str'[..pos + k + |to|] == str[..pos + k] + to;
    assert str[..pos + k] == str[..pos] + str[pos..][..k];
  }

  /** One round: what has been written, then what is still to be replaced in the original tail. */
  lemma Round(str: string, pos: nat, from: string, to: string)
    requires from != "" && pos <= |str|
    ensures match Find(str, from, pos)
      case None => Replaced(str[pos..], from, to) == str[pos..]
      case Some(i) =>
        var str', next := Spliced(str, i, |from|, to), i + |to|;
        && |str'| - next == |str| - (i + |from|)
        && str[..pos] + Replaced(str[pos..], from, to) ==
             str'[..next] + Replaced(str'[next..], from, to)
  {
    hide Replaced, Find, OccursAt, Spliced;
    FindFrom(str, from, pos);
    var rest := str[pos..];
    ReplacedSplits(rest, from, to);
    match Find(rest, from, 0)
    case None =>
    case Some(k) =>
      SplicedSlices(str, pos, k, |from|, to);
      Regroup(str[..pos], rest[..k], to, Replaced(rest[k + |from|..], from, to));
  }

  lemma Regroup(a: string, b: string, c: string, d: string)
    ensures a + (b + c + d) == a + b + c + d
  {
  }

  lemma WholeTail(s: string, from: string, to: string)
    ensures from != "" ==> s[..0] + Replaced(s[0..], from, to) == Replaced(s, from, to)
  {
    assert s[0..] == s;
  }

  lemma FirstIsReplaced(s: string, from: string, to: string)
    ensures match Find(s, from, 0)
      case None => FirstReplaced(s, from, to, s)
      case Some(i) => FirstReplaced(s, from, to, Spliced(s, i, |from|, to))
  {
    var found := Find(s, from, 0);
    if found.Some? {
      assert FirstAt(s, from, found.value);
    }
  }

  /** With an empty `from` the loop is never left, see `LoopEndsIffNonEmpty`. */
  method StringReplace(s: string, from: string, to: string, replaceAll: bool := true)
    returns (str: string)
    requires replaceAll ==> from != ""
    ensures if replaceAll then str == Replaced(s, from, to) else FirstReplaced(s, from, to, str)
  {
    hide Replaced, Find, OccursAt, Spliced, FirstReplaced;
    FirstIsReplaced(s, from, to);
    str := s;
    var pos: nat := 0;
    WholeTail(s, from, to);
    var again := true;
    while again
      invariant pos <= |str|
      invariant replaceAll && again ==>
        Replaced(s, from, to) == str[..pos] + Replaced(str[pos..], from, to)
      invariant replaceAll && !again ==> Replaced(s, from, to) == str
      invariant !replaceAll ==>
        if again then str == s && pos == 0 else FirstReplaced(s, from, to, str)
      decreases again, |str| - pos
    {
      if replaceAll {
        Round(str, pos, from, to);
      }
      var found := Find(str, from, pos);
      if found.None? {
        assert str == str[..pos] + str[pos..];
        break;
      }
      pos := found.value;
      str := Spliced(str, pos, |from|, to);
      pos := pos + |to|;
      again := replaceAll;
    }
  }

  method ReplaceAll(s: string, search: string, replace: string) returns (str: string)
    requires search != ""
    ensures str == Replaced(s, search, replace)
  {
    hide Replaced, Find, OccursAt, Spliced;
    str := s;
    var pos: nat := 0;
    WholeTail(s, search, replace);
    var found := Find(str, search, pos);
    while found.Some?
      invariant pos <= |str| && found == Find(str, search, pos)
      invariant Replaced(s, search, replace) == str[..pos] + Replaced(str[pos..], search, replace)
      decreases |str| - pos
    {
      Round(str, pos, search, replace);
      pos := found.value;
      str := Spliced(str, pos, |search|, replace);
      pos := pos + |replace|;
      found := Find(str, search, pos);
    }
    Round(str, pos, search, replace);
    assert str == str[..pos] + str[pos..];
  }

  method Replace(s: string, from: string, to: string) returns (str: string)
    ensures FirstReplaced(s, from, to, str)
  {
    hide FirstReplaced;
    FirstIsReplaced(s, from, to);
    var start := Find(s, from, 0);
    if start.None? {
      return s;
    }
    str := Spliced(s, start.value, |from|, to);
  }

  // ---------------------------------------------------------------- when the loop ends

  /** The loop of `StringReplace` with replace_all, one round at a time: None once it is left. */
  function Next(at: (string, nat), from: string, to: string): Option<(string, nat)> {
    match Find(at.0, from, at.1)
    case None => None
    case Some(i) => Some((Spliced(at.0, i, |from|, to), i + |to|))
  }

  function After(at: (string, nat), from: string, to: string, rounds: nat): Option<(string, nat)>
    decreases rounds
  {
    if rounds == 0 then Some(at)
    else match Next(at, from, to)
      case None => None
      case Some(next) => After(next, from, to, rounds - 1)
  }

  /** Every round uses up at least one character of the tail, unless there is nothing to look for. */
  lemma {:induction false} ShrinkingTail(at: (string, nat), from: string, to: string)
    requires from != "" && at.1 <= |at.0|
    ensures After(at, from, to, |at.0| - at.1 + 1) == None
    decreases |at.0| - at.1
  {
    match Next(at, from, to)
    case None =>
    case Some(next) =>
      var left := |next.0| - next.1;
      assert left < |at.0| - at.1;
      ShrinkingTail(next, from, to);
      AfterMore(next, from, to, left + 1, |at.0| - at.1);
  }

  lemma {:induction false} AfterMore(at: (string, nat), from: string, to: string, n: nat, m: nat)
    requires n <= m && After(at, from, to, n) == None
    ensures After(at, from, to, m) == None
    decreases n
  {
    if n > 0 {
      match Next(at, from, to)
      case None =>
      case Some(next) => AfterMore(next, from, to, n - 1, m - 1);
    }
  }

  lemma {:induction false} EmptyIsAlwaysFound(at: (string, nat), to: string, rounds: nat)
    requires at.1 <= |at.0|
    ensures After(at, "", to, rounds).Some?
    decreases rounds
  {
    if rounds > 0 {
      assert OccursAt(at.0, "", at.1);
      EmptyIsAlwaysFound(Next(at, "", to).value, to, rounds - 1);
    }
  }

  /** Replacing everywhere terminates exactly when the string to look for is not empty. */
  lemma LoopEndsIffNonEmpty(s: string, from: string, to: string)
    ensures (exists rounds :: After((s, 0), from, to, rounds) == None) <==> from != ""
  {
    if from != "" {
      ShrinkingTail((s, 0), from, to);
    } else {
      forall rounds: nat
        ensures After((s, 0), from, to, rounds).Some?
      {
        EmptyIsAlwaysFound((s, 0), to, rounds);
      }
    }
  }

  // ---------------------------------------------------------------- dots and colons

  /** Replacing from the front: an occurrence there is replaced, anything else is copied. */
  lemma ReplacedAtFront(s: string, from: string, to: string)
    requires from != "" && OccursAt(s, from, 0)
    ensures Replaced(s, from, to) == to + Replaced(s[|from|..], from, to)
  {
    ReplacedSplits(s, from, to);
    FirstFound(s, from, 0);
    assert s[..0] + to == to;
  }

  lemma TailSlices(s: string, i: nat, n: nat)
    requires 0 < i && i + n <= |s|
    ensures s[..i] == [s[0]] + s[1..][..i - 1]
    ensures s[1..][i - 1 + n..] == s[i + n..]
    ensures s == [s[0]] + s[1..]
  {
  }

  lemma Prepended(c: string, a: string, p: string, to: string, d: string, whole: string, part: string)
    requires a == c + p && whole == a + to + d && part == p + to + d
    ensures whole == c + part
  {
  }

  lemma CopiedBefore(s: string, from: string, to: string, i: nat)
    requires from != "" && 0 < i && i + |from| <= |s|
    requires Find(s, from, 0) == Some(i) && Find(s[1..], from, 0) == Some(i - 1)
    ensures Replaced(s, from, to) == [s[0]] + Replaced(s[1..], from, to)
  {
    hide *;
    var a, p := s[..i], s[1..][..i - 1];
    var d, d' := s[i + |from|..], s[1..][i - 1 + |from|..];
    assert a == [s[0]] + p && d == d' by { TailSlices(s, i, |from|); }
    var whole, part := Replaced(s, from, to), Replaced(s[1..], from, to);
    assert whole == a + to + Replaced(d, from, to) by { SplitAt(s, from, to, i); }
    assert part == p + to + Replaced(d', from, to) by { SplitAt(s[1..], from, to, i - 1); }
    Prepended([s[0]], a, p, to, Replaced(d, from, to), whole, part);
  }

  lemma CopiedAtFront(s: string, from: string, to: string)
    requires from != "" && s != "" && !OccursAt(s, from, 0)
    ensures Replaced(s, from, to) == [s[0]] + Replaced(s[1..], from, to)
  {
    FindShift(s, from);
    hide Replaced, OccursAt;
    var found := Find(s, from, 0);
    if found.Some? {
      CopiedBefore(s, from, to, found.value);
    } else {
      ReplacedSplits(s, from, to);
      ReplacedSplits(s[1..], from, to);
    }
  }

  lemma FindShift(s: string, pat: string)
    requires s != "" && !OccursAt(s, pat, 0)
    ensures match Find(s, pat, 0)
      case None => Find(s[1..], pat, 0) == None
      case Some(i) => i > 0 && Find(s[1..], pat, 0) == Some(i - 1)
  {
    FindFrom(s, pat, 1);
  }

  /** Neither a colon pair nor a colon in front of a dot. */
  predicate Reversible(s: string) {
    forall i | 0 <= i < |s| - 1 :: !(s[i] == ':' && (s[i + 1] == ':' || s[i + 1] == '.'))
  }

  function DotsToColons(s: string): string { Replaced(s, ".", "::") }

  function ColonsToDots(s: string): string { Replaced(s, "::", ".") }

  lemma DotsStep(s: string)
    requires s != ""
    ensures DotsToColons(s) == (if s[0] == '.' then "::" else [s[0]]) + DotsToColons(s[1..])
  {
    assert OccursAt(s, ".", 0) <==> s[0] == '.';
    if s[0] == '.' { ReplacedAtFront(s, ".", "::"); } else { CopiedAtFront(s, ".", "::"); }
  }

  lemma ColonsStep(s: string)
    requires s != ""
    ensures ColonsToDots(s) ==
      if |s| >= 2 && s[0] == ':' && s[1] == ':' then "." + ColonsToDots(s[2..])
      else [s[0]] + ColonsToDots(s[1..])
  {
    assert OccursAt(s, "::", 0) <==> |s| >= 2 && s[0] == ':' && s[1] == ':';
    if OccursAt(s, "::", 0) { ReplacedAtFront(s, "::", "."); } else { CopiedAtFront(s, "::", "."); }
  }

  lemma EmptyStep()
    ensures DotsToColons("") == "" && ColonsToDots("") == ""
  {
    ReplacedSplits("", ".", "::");
    ReplacedSplits("", "::", ".");
  }

  /** Turning dots into double colons and back gives the name again exactly when the name has no
      "::" and no ":." in it; all names without colons are among these. */
  lemma {:induction false} DotsRoundTrip(s: string)
    ensures ColonsToDots(DotsToColons(s)) == s <==> Reversible(s)
  {
    EmptyStep();
    if s != "" {
      hide DotsToColons, ColonsToDots;
      var c, rest := s[0], s[1..];
      var u := DotsToColons(rest);
      DotsRoundTrip(rest);
      DotsStep(s);
      assert s == [c] + rest;
      ReversibleStep(s);
      if c == '.' {
        assert ("::" + u)[2..] == u;
        ColonsStep("::" + u);
      } else {
        assert ([c] + u)[1..] == u;
        ColonsStep([c] + u);
        if rest != "" { DotsStep(rest); }
      }
    }
  }

  lemma ReversibleStep(s: string)
    requires s != ""
    ensures Reversible(s) ==
      (Reversible(s[1..]) && !(|s| >= 2 && s[0] == ':' && (s[1] == ':' || s[1] == '.')))
  {
    if Reversible(s[1..]) {
      forall i | 1 <= i < |s| - 1
        ensures !(s[i] == ':' && (s[i + 1] == ':' || s[i + 1] == '.'))
      {
        assert s[1..][i - 1] == s[i] && s[1..][i] == s[i + 1];
      }
    }
  }
}
