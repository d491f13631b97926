/** Turning a file name, any sequence of bytes, into an identifier for an include guard. */
module FilenameIdentifiers {
  import opened Wrappers

  type Byte = b: int | 0 <= b < 256

  // isalnum in the C locale
  predicate IsAlnum(c: char) {
    '0' <= c <= '9' || 'A' <= c <= 'Z' || 'a' <= c <= 'z'
  }

  predicate Plain(b: Byte) { IsAlnum(b as char) }

  /** A four-bit value as a hexadecimal digit, and back. */
  function HexDigit(d: int): (c: char)
    requires 0 <= d < 16
    ensures HexValue(c) == Some(d)
  {
    if d < 10 then ('0' as int + d) as char else ('a' as int + (d - 10)) as char
  }

  function HexValue(c: char): (d: Option<int>)
    ensures d.Some? ==> 0 <= d.value < 16
  {
    if '0' <= c <= '9' then Some(c as int - '0' as int)
    else if 'a' <= c <= 'f' then Some(c as int - 'a' as int + 10)
    else None
  }

  /** The digits are those of the table in the source. */
  lemma HexTable(d: int)
    requires 0 <= d < 16
    ensures HexDigit(d) == "0123456789abcdef"[d]
  {
  }

  lemma HexDigitOfValue(c: char)
    requires HexValue(c).Some?
    ensures HexDigit(HexValue(c).value) == c
  {
  }

  // (c >> 4) & 0xf and c & 0xf: the same for a signed char, whose bits are those of the byte
  function Escape(b: Byte): string {
    ['_', HexDigit(b / 16), HexDigit(b % 16)]
  }

  function Encode(name: seq<Byte>): string {
    if name == [] then ""
    else (if Plain(name[0]) then [name[0] as char] else Escape(name[0])) + Encode(name[1..])
  }

  /** The byte two digits stand for, unless it needs no escape. */
  function ReadEscape(h: char, l: char): (b: Option<int>)
    ensures b.Some? ==> 0 <= b.value < 256 && !Plain(b.value) && Escape(b.value) == ['_', h, l]
  {
    match (HexValue(h), HexValue(l))
    case (Some(x), Some(y)) =>
      TwoDigits(x, y);
      HexDigitOfValue(h);
      HexDigitOfValue(l);
      if Plain(16 * x + y) then None else Some(16 * x + y)
    case _ => None
  }

  lemma TwoDigits(h: int, l: int)
    requires 0 <= h < 16 && 0 <= l < 16
    ensures (16 * h + l) / 16 == h && (16 * h + l) % 16 == l
  {
  }

  lemma EscapeIsRead(b: Byte)
    requires !Plain(b)
    ensures ReadEscape(HexDigit(b / 16), HexDigit(b % 16)) == Some(b)
  {
  }

  /** Reads an identifier from the front; None where no file name leads to it. */
  function Decode(id: string): Option<seq<Byte>>
    decreases |id|
  {
    if id == "" then Some([])
    else if IsAlnum(id[0]) then Prepend(id[0] as int, Decode(id[1..]))
    else if id[0] == '_' && |id| >= 3 then
      match ReadEscape(id[1], id[2])
      case Some(b) => Prepend(b, Decode(id[3..]))
      case None => None
    else None
  }

  function Prepend(b: int, rest: Option<seq<Byte>>): Option<seq<Byte>>
    requires 0 <= b < 256
  {
    match rest
    case Some(name) => Some([b] + name)
    case None => None
  }

  lemma {:induction false} DecodeEncode(name: seq<Byte>)
    ensures Decode(Encode(name)) == Some(name)
  {
    if name != [] {
      var b, rest := name[0], Encode(name[1..]);
      DecodeEncode(name[1..]);
      assert name == [b] + name[1..];
      if Plain(b) {
        assert Encode(name) == [b as char] + rest && Encode(name)[1..] == rest;
      } else {
        EscapeIsRead(b);
        assert Encode(name) == Escape(b) + rest && Encode(name)[3..] == rest;
      }
    }
  }

  lemma {:induction false} EncodeDecode(id: string)
    requires Decode(id).Some?
    ensures Encode(Decode(id).value) == id
    decreases |id|
  {
    hide ReadEscape, Escape, HexDigit, HexValue;
    if id != "" {
      var name := Decode(id).value;
      if IsAlnum(id[0]) {
        EncodeDecode(id[1..]);
        assert name[1..] == Decode(id[1..]).value;
        assert id == [id[0]] + id[1..];
      } else {
        EncodeDecode(id[3..]);
        assert name[1..] == Decode(id[3..]).value;
        assert id == [id[0], id[1], id[2]] + id[3..];
      }
    }
  }

  /** The decoder undoes the encoding and accepts nothing else. */
  lemma DecodesExactly(id: string, name: seq<Byte>)
    ensures Decode(id) == Some(name) <==> id == Encode(name)
  {
    DecodeEncode(name);
    if Decode(id) == Some(name) { EncodeDecode(id); }
  }

  /** The macro that guards the header generated for a file. */
  function Guard(name: seq<Byte>): string {
    "GRPC_" + Encode(name) + "__INCLUDED"
  }

  /** Different files have different guards. */
  lemma GuardsDiffer(a: seq<Byte>, b: seq<Byte>)
    requires Guard(a) == Guard(b)
    ensures a == b
  {
    var n := |Guard(a)| - |"__INCLUDED"|;
    assert Encode(a) == Guard(a)[5..n] && Encode(b) == Guard(b)[5..n];
    DecodeEncode(a);
    DecodeEncode(b);
  }

  predicate IdentifierChar(c: char) { IsAlnum(c) || c == '_' }

  lemma {:induction false} EncodesToIdentifier(name: seq<Byte>)
    ensures forall i | 0 <= i < |Encode(name)| :: IdentifierChar(Encode(name)[i])
  {
    if name != [] {
      EncodesToIdentifier(name[1..]);
    }
  }

  /** Exactly the digits and letters of ASCII are copied; any other byte becomes an underscore and two
      digits, the higher one first. */
  lemma EncodeByte(b: Byte)
    ensures Encode([b]) ==
      if 48 <= b <= 57 || 65 <= b <= 90 || 97 <= b <= 122 then [b as char]
      else ['_', "0123456789abcdef"[b / 16], "0123456789abcdef"[b % 16]]
  {
    assert [b][1..] == [];
    HexTable(b / 16);
    HexTable(b % 16);
  }

  /** Byte by byte. */
  lemma {:induction false} EncodeInTwo(a: seq<Byte>, b: seq<Byte>)
    ensures Encode(a + b) == Encode(a) + Encode(b)
  {
    if a == [] {
      assert a + b == b;
    } else {
      assert (a + b)[1..] == a[1..] + b;
      EncodeInTwo(a[1..], b);
    }
  }

  lemma EncodeAppend(a: seq<Byte>, b: Byte)
    ensures Encode(a + [b]) == Encode(a) + if Plain(b) then [b as char] else Escape(b)
  {
    if a != [] {
      EncodeAppend(a[1..], b);
      assert (a + [b])[1..] == a[1..] + [b];
    }
  }

  method FilenameIdentifier(filename: seq<Byte>) returns (result: string)
    ensures result == Encode(filename)
  {
    result := "";
    for i := 0 to |filename|
      invariant result == Encode(filename[..i])
    {
      var c := filename[i];
      EncodeAppend(filename[..i], c);
      assert filename[..i + 1] == filename[..i] + [c];
      if Plain(c) {
        result := result + [c as char];
      } else {
        result := result + ['_'];
        result := result + [HexDigit(c / 16)];
        result := result + [HexDigit(c % 16)];
      }
    }
    assert filename[..|filename|] == filename;
  }
}
