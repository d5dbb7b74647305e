/**
 Text as the JSON code sees it: unsigned characters, C strings and their
 terminator. Characters are numbers here because the code compares and
 computes with them.
 */
module CText {

  newtype uchar = c: int | 0 <= c < 0x100

  type text = seq<uchar>

  datatype Option<+T> = None | Some(value: T)

  const NUL: uchar := 0
  const TAB: uchar := 0x09
  const NEWLINE: uchar := 0x0A
  const SPACE: uchar := 0x20
  const QUOTE: uchar := 0x22
  const COMMA: uchar := 0x2C
  const MINUS: uchar := 0x2D
  const COLON: uchar := 0x3A
  const OPEN_BRACKET: uchar := 0x5B
  const BACKSLASH: uchar := 0x5C
  const CLOSE_BRACKET: uchar := 0x5D
  const OPEN_BRACE: uchar := 0x7B
  const CLOSE_BRACE: uchar := 0x7D

  /** The text of a string literal. */
  function Lit(s: string): (t: text)
    requires forall i :: 0 <= i < |s| ==> s[i] < '\U{80}'
    ensures |t| == |s| && forall i :: 0 <= i < |s| ==> t[i] as int == s[i] as int
  {
    seq(|s|, i requires 0 <= i < |s| => s[i] as uchar)
  }

  /** The named characters are those of ASCII. */
  lemma NamedCharacters()
    ensures [TAB, NEWLINE, SPACE, QUOTE, COMMA, MINUS, COLON] == Lit("\t\n \",-:")
    ensures [OPEN_BRACKET, BACKSLASH, CLOSE_BRACKET, OPEN_BRACE, CLOSE_BRACE] == Lit("[\\]{}")
  {}

  /** A C string value: no terminator inside. */
  ghost predicate NulFree(s: text) {
    forall i :: 0 <= i < |s| ==> s[i] != NUL
  }

  /** The C string held by a buffer: everything in front of the first terminator. */
  function CStr(buf: text): (s: text)
    ensures NulFree(s) && s <= buf
    ensures |s| < |buf| ==> buf[|s|] == NUL
  {
    if buf == [] || buf[0] == NUL then [] else [buf[0]] + CStr(buf[1..])
  }

  /** `CStr` reads exactly the text in front of the first terminator, whatever follows it. */
  lemma {:induction false} CStrOfTerminated(s: text, rest: text)
    requires NulFree(s)
    ensures CStr(s) == s
    ensures CStr(s + [NUL] + rest) == s
  {
    if s != [] {
      CStrOfTerminated(s[1..], rest);
      assert (s + [NUL] + rest)[1..] == s[1..] + [NUL] + rest;
    }
  }

  /** `part` occurs in `whole` at position `at`. */
  ghost predicate At(whole: text, at: nat, part: text) {
    at + |part| <= |whole| && whole[at..at + |part|] == part
  }

  lemma AtSplit(whole: text, at: nat, a: text, b: text)
    requires At(whole, at, a + b)
    ensures At(whole, at, a) && At(whole, at + |a|, b)
    ensures |a| == 1 ==> whole[at] == a[0]
    ensures |b| == 1 ==> whole[at + |a|] == b[0]
  {
    var part := whole[at..at + |a + b|];
    assert part[..|a|] == a && part[|a|..] == b;
    assert whole[at..at + |a|] == part[..|a|];
    assert whole[at + |a|..at + |a| + |b|] == part[|a|..];
  }

  lemma AtJoin(whole: text, at: nat, a: text, b: text)
    requires At(whole, at, a) && At(whole, at + |a|, b)
    ensures At(whole, at, a + b)
  {
    assert whole[at..at + |a + b|] == whole[at..at + |a|] + whole[at + |a|..at + |a| + |b|];
  }
}
