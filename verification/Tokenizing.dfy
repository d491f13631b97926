/** Cutting a text at delimiters, written twice: `tokenize` searches for the next delimiter, the
    Ruby generator's `Split` reads a string stream line by line. */
module Tokenizing {
  import opened Wrappers

  /** std::string::find_first_of. */
  function FindFirstOf(s: string, delimiters: string, pos: nat): (r: Option<nat>)
    requires pos <= |s|
    ensures r.None? ==> forall i | pos <= i < |s| :: s[i] !in delimiters
    ensures r.Some? ==> pos <= r.value < |s| && s[r.value] in delimiters
    ensures r.Some? ==> forall i | pos <= i < r.value :: s[i] !in delimiters
    decreases |s| - pos
  {
    if pos == |s| then None
    else if s[pos] in delimiters then Some(pos)
    else FindFirstOf(s, delimiters, pos + 1)
  }

  // ---------------------------------------------------------------- the specification

  /** The stretches between delimiters, from left to right. */
  function Tokens(s: string, delimiters: string): (tokens: seq<string>)
    ensures tokens != []
  {
    if s == "" then [""]
    else
      var rest := Tokens(s[1..], delimiters);
      if s[0] in delimiters then [""] + rest else [[s[0]] + rest[0]] + rest[1..]
  }

  /** The delimiters that occur in the text, in order. */
  function Delimiters(s: string, delimiters: string): (seps: string)
    ensures forall i | 0 <= i < |seps| :: seps[i] in delimiters
  {
    if s == "" then ""
    else (if s[0] in delimiters then [s[0]] else "") + Delimiters(s[1..], delimiters)
  }

  /** Tokens with separators put back between them. */
  function Weave(tokens: seq<string>, seps: string): string
    requires |tokens| == |seps| + 1
  {
    if seps == "" then tokens[0] else tokens[0] + [seps[0]] + Weave(tokens[1..], seps[1..])
  }

  ghost predicate Clean(token: string, delimiters: string) {
    forall i | 0 <= i < |token| :: token[i] !in delimiters
  }

  /** `tokens` and `seps` are the text taken apart: they give it back, no token contains a delimiter,
      and the separators are delimiters. */
  ghost predicate TakenApart(s: string, delimiters: string, tokens: seq<string>, seps: string) {
    && |tokens| == |seps| + 1
    && Weave(tokens, seps) == s
    && (forall i | 0 <= i < |tokens| :: Clean(tokens[i], delimiters))
    && (forall i | 0 <= i < |seps| :: seps[i] in delimiters)
  }

  lemma WeaveFront(c: char, tokens: seq<string>, seps: string)
    requires |tokens| == |seps| + 1
    ensures Weave([[c] + tokens[0]] + tokens[1..], seps) == [c] + Weave(tokens, seps)
    ensures Weave([""] + tokens, [c] + seps) == [c] + Weave(tokens, seps)
  {
    assert ([[c] + tokens[0]] + tokens[1..])[1..] == tokens[1..];
    assert ([""] + tokens)[1..] == tokens && ([c] + seps)[1..] == seps;
  }

  /** Taking apart is undone by weaving, and there is one token more than delimiters in the text. */
  lemma {:induction false} TokensTakeApart(s: string, delimiters: string)
    ensures TakenApart(s, delimiters, Tokens(s, delimiters), Delimiters(s, delimiters))
  {
    if s != "" {
      TokensTakeApart(s[1..], delimiters);
      var tokens, seps := Tokens(s[1..], delimiters), Delimiters(s[1..], delimiters);
      WeaveFront(s[0], tokens, seps);
      assert Clean(tokens[0], delimiters);
      assert "" + seps == seps;
      assert s == [s[0]] + s[1..];
    }
  }

  /** And there is no other way to take the text apart. */
  lemma {:induction false} TakenApartIsUnique(
      s: string, delimiters: string, tokens: seq<string>, seps: string)
    requires TakenApart(s, delimiters, tokens, seps)
    ensures tokens == Tokens(s, delimiters) && seps == Delimiters(s, delimiters)
    decreases |s|
  {
    assert Clean(tokens[0], delimiters);
    if s == "" {
      assert seps == "";
    } else if tokens[0] == "" {
      assert s == [seps[0]] + Weave(tokens[1..], seps[1..]);
      assert forall i | 0 <= i < |tokens[1..]| :: tokens[1..][i] == tokens[i + 1];
      TakenApartIsUnique(s[1..], delimiters, tokens[1..], seps[1..]);
      assert tokens == [""] + tokens[1..];
    } else {
      var c, t := tokens[0][0], tokens[0][1..];
      var shorter := [t] + tokens[1..];
      assert tokens[0] == [c] + t && tokens == [[c] + shorter[0]] + shorter[1..];
      WeaveFront(c, shorter, seps);
      assert c !in delimiters;
      assert s[1..] == Weave(shorter, seps);
      assert Clean(t, delimiters);
      TakenApartIsUnique(s[1..], delimiters, shorter, seps);
    }
  }

  function Join(parts: seq<string>, sep: char): string
    requires parts != []
  {
    if |parts| == 1 then parts[0] else parts[0] + [sep] + Join(parts[1..], sep)
  }

  function Occurrences(s: string, c: char): nat {
    if s == "" then 0 else (if s[0] == c then 1 else 0) + Occurrences(s[1..], c)
  }

  lemma {:induction false} JoinIsWeave(tokens: seq<string>, seps: string, c: char)
    requires |tokens| == |seps| + 1 && forall i | 0 <= i < |seps| :: seps[i] == c
    ensures Join(tokens, c) == Weave(tokens, seps)
    decreases |seps|
  {
    if seps != "" {
      JoinIsWeave(tokens[1..], seps[1..], c);
    }
  }

  lemma {:induction false} DelimitersAreCounted(s: string, c: char)
    ensures |Delimiters(s, [c])| == Occurrences(s, c)
  {
    if s != "" {
      DelimitersAreCounted(s[1..], c);
    }
  }

  /** With a single delimiter: joining the tokens gives the text back, and counting them counts the
      delimiter. */
  lemma {:induction false} JoinTokens(s: string, c: char)
    ensures Join(Tokens(s, [c]), c) == s
    ensures |Tokens(s, [c])| == 1 + Occurrences(s, c)
    ensures forall i | 0 <= i < |Tokens(s, [c])| :: c !in Tokens(s, [c])[i]
  {
    TokensTakeApart(s, [c]);
    JoinIsWeave(Tokens(s, [c]), Delimiters(s, [c]), c);
    DelimitersAreCounted(s, c);
    forall i | 0 <= i < |Tokens(s, [c])|
      ensures c !in Tokens(s, [c])[i]
    {
      assert Clean(Tokens(s, [c])[i], [c]);
    }
  }

  // ---------------------------------------------------------------- the loops

  /** The text up to the next delimiter is the first token, what follows gives the others. */
  lemma {:induction false} NextToken(s: string, delimiters: string, n: nat)
    requires n <= |s| && forall i | 0 <= i < n :: s[i] !in delimiters
    requires n < |s| ==> s[n] in delimiters
    ensures Tokens(s, delimiters) ==
      [s[..n]] + if n == |s| then [] else Tokens(s[n + 1..], delimiters)
    decreases n
  {
    if s != "" && n > 0 {
      NextToken(s[1..], delimiters, n - 1);
      assert s[..n] == [s[0]] + s[1..][..n - 1];
      if n < |s| { assert s[1..][n..] == s[n + 1..]; }
    }
  }

  lemma SubSlice(s: string, a: nat, n: nat)
    requires a + n <= |s|
    ensures s[a..][..n] == s[a..a + n] && s[a..][n..] == s[a + n..]
  {
  }

  /** The same in the middle of a text. */
  lemma TokenAt(s: string, delimiters: string, a: nat, b: nat)
    requires a <= b <= |s| && forall i | a <= i < b :: s[i] !in delimiters
    requires b < |s| ==> s[b] in delimiters
    ensures Tokens(s[a..], delimiters) ==
      [s[a..b]] + if b == |s| then [] else Tokens(s[b + 1..], delimiters)
  {
    NextToken(s[a..], delimiters, b - a);
    SubSlice(s, a, b - a);
    if b < |s| { SubSlice(s, a, b - a + 1); }
  }

  lemma Shift(done: seq<string>, x: string, rest: seq<string>)
    ensures done + ([x] + rest) == done + [x] + rest
  {
  }

  method Tokenize(input: string, delimiters: string) returns (tokens: seq<string>)
    ensures tokens == Tokens(input, delimiters)
  {
    hide Tokens, FindFirstOf;
    tokens := [];
    var lastPos := 0;
    assert input[0..] == input;
    while true
      invariant 0 <= lastPos <= |input|
      invariant tokens + Tokens(input[lastPos..], delimiters) == Tokens(input, delimiters)
      decreases |input| - lastPos
    {
      var found := FindFirstOf(input, delimiters, lastPos);
      var done := found.None?;
      var pos := if done then |input| else found.value;
      TokenAt(input, delimiters, lastPos, pos);
      Shift(tokens, input[lastPos..pos], if done then [] else Tokens(input[pos + 1..], delimiters));
      tokens := tokens + [input[lastPos..pos]];
      if done {
        return;
      }
      lastPos := pos + 1;
    }
  }

  /** std::stringstream, as far as getline uses it. */
  class StringStream {
    const text: string
    var pos: nat
    var eof: bool
    var fail: bool

    ghost predicate Valid()
      reads this
    {
      pos <= |text| && (eof ==> pos == |text|)
    }

    constructor (s: string)
      ensures Valid() && text == s && pos == 0 && !eof && !fail
    {
      text := s;
      pos, eof, fail := 0, false, false;
    }

    /** Reads up to the delimiter, which is taken from the stream, or to the end of the text, which
        is remembered. Taking nothing at all is a failure, and so is trying again after the end. */
    method GetLine(delim: char) returns (item: string, ok: bool)
      requires Valid()
      modifies this
      ensures Valid() && ok == !fail
      ensures old(eof || fail || pos == |text|) ==> !ok
      ensures !old(eof || fail || pos == |text|) ==>
        && ok && old(pos) < pos && delim !in item
        && (if eof then item == text[old(pos)..] else item + [delim] == text[old(pos)..pos])
    {
      item := "";
      if eof || fail {
        fail := true;
        return item, false;
      }
      var start := pos;
      while pos < |text| && text[pos] != delim
        invariant Valid() && start <= pos && !eof && !fail
        invariant item == text[start..pos] && delim !in item
      {
        item := item + [text[pos]];
        pos := pos + 1;
      }
      if pos < |text| {
        pos := pos + 1;
      } else {
        eof := true;
        fail := item == "";
      }
      ok := !fail;
    }
  }

  /** `tokenize` without its last token when that is empty. */
  function Lines(s: string, delim: char): seq<string> {
    var tokens := Tokens(s, [delim]);
    if tokens[|tokens| - 1] == "" then tokens[..|tokens| - 1] else tokens
  }

  lemma LastLine(s: string, delim: char)
    requires s != "" && delim !in s
    ensures Lines(s, delim) == [s]
  {
    NextToken(s, [delim], |s|);
    assert s[..|s|] == s && [s] + [] == [s];
    assert Tokens(s, [delim]) == [s];
  }

  lemma NextLine(s: string, delim: char, n: nat)
    requires n < |s| && delim !in s[..n] && s[n] == delim
    ensures Lines(s, delim) == [s[..n]] + Lines(s[n + 1..], delim)
  {
    forall i | 0 <= i < n
      ensures s[i] !in [delim]
    {
      assert s[i] == s[..n][i];
    }
    NextToken(s, [delim], n);
    DropLast(s[..n], Tokens(s[n + 1..], [delim]));
  }

  lemma DropLast(x: string, rest: seq<string>)
    requires rest != []
    ensures ([x] + rest)[|rest|] == rest[|rest| - 1]
    ensures ([x] + rest)[..|rest|] == [x] + rest[..|rest| - 1]
  {
  }

  lemma NoLine(delim: char)
    ensures Lines("", delim) == []
  {
  }

  lemma LineSlices(s: string, delim: char, item: string, a: nat, b: nat)
    requires a < b <= |s| && item + [delim] == s[a..b]
    ensures b == a + |item| + 1 && s[a..][..|item|] == item && s[a..][|item|] == delim
    ensures s[a..][|item| + 1..] == s[b..]
  {
    var n := |item|;
    assert |s[a..b]| == n + 1;
    SubSlice(s, a, n + 1);
    assert item == (item + [delim])[..n];
  }

  /** What a successful read from position `a` to position `b` of the stream has taken. */
  lemma LineTaken(s: string, delim: char, item: string, a: nat, b: nat, eof: bool)
    requires a < b <= |s| || (eof && a < |s|)
    requires delim !in item && if eof then item == s[a..] else item + [delim] == s[a..b]
    ensures Lines(s[a..], delim) == [item] + if eof then [] else Lines(s[b..], delim)
  {
    if eof {
      LastLine(s[a..], delim);
    } else {
      var n := |item|;
      LineSlices(s, delim, item, a, b);
      NextLine(s[a..], delim, n);
    }
  }

  /** Appends to the vector it is given; a trailing delimiter opens no further element. */
  method Split(s: string, delim: char, elems: seq<string>) returns (all: seq<string>)
    ensures all == elems + Lines(s, delim)
  {
    hide Lines;
    all := elems;
    var ss := new StringStream(s);
    var item, more := ss.GetLine(delim);
    ghost var from := 0;
    assert s[0..] == s && s[|s|..] == "";
    while more
      invariant ss.Valid() && fresh(ss) && ss.text == s && more == !ss.fail && from <= |s|
      invariant all + Lines(s[from..], delim) == elems + Lines(s, delim)
      invariant more ==> from < ss.pos && delim !in item
      invariant more ==> if ss.eof then item == s[from..] else item + [delim] == s[from..ss.pos]
      invariant !more ==> from == |s|
      decreases |s| - from, more
    {
      LineTaken(s, delim, item, from, ss.pos, ss.eof);
      Shift(all, item, if ss.eof then [] else Lines(s[ss.pos..], delim));
      all := all + [item];
      NoLine(delim);
      from := if ss.eof then |s| else ss.pos;
      item, more := ss.GetLine(delim);
    }
    NoLine(delim);
  }
}
