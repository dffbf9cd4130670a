/**
  Python's text-mode read with the default `newline=None` ("universal
  newlines"): every "\r\n" pair and every lone "\r" reaches the caller as a
  single "\n". Writing in text mode on a POSIX system leaves characters as
  they are, so a write followed by a read is only exact for text without
  carriage returns.
 */
module Newlines {

  /** The text a universal-newlines read returns for the stored characters `s`. */
  function Universal(s: string): (r: string)
    ensures |r| <= |s|
    ensures '\r' !in r
  {
    if |s| == 0 then ""
    else if s[0] == '\r' then
      if |s| > 1 && s[1] == '\n' then "\n" + Universal(s[2..]) else "\n" + Universal(s[1..])
    else [s[0]] + Universal(s[1..])
  }

  /** Text without carriage returns reads back unchanged. */
  lemma {:induction false} UniversalKeepsPlainText(s: string)
    requires '\r' !in s
    ensures Universal(s) == s
  {
    if |s| > 0 {
      assert s[0] != '\r';
      assert '\r' !in s[1..] by {
        assert forall k :: 0 <= k < |s[1..]| ==> s[1..][k] == s[k + 1];
      }
      UniversalKeepsPlainText(s[1..]);
      assert s == [s[0]] + s[1..];
    }
  }

  /** The read is exact if and only if the stored text holds no carriage return. */
  lemma UniversalExactIff(s: string)
    ensures Universal(s) == s <==> '\r' !in s
  {
    if '\r' !in s {
      UniversalKeepsPlainText(s);
    }
  }

  /** Reading back what a read returned changes nothing more. */
  lemma UniversalIdempotent(s: string)
    ensures Universal(Universal(s)) == Universal(s)
  {
    UniversalKeepsPlainText(Universal(s));
  }

  /** What the character at position `i` of the stored text contributes to the
      read: a "\r" followed by "\n" is dropped, any other "\r" becomes "\n",
      and every other character is kept. */
  function ReadPiece(s: string, i: nat): string
    requires i < |s|
  {
    if s[i] == '\r' && i + 1 < |s| && s[i + 1] == '\n' then ""
    else if s[i] == '\r' then "\n"
    else [s[i]]
  }

  /** The read of the stored text from position `i` on, piece by piece. */
  function ReadFrom(s: string, i: nat): string
    requires i <= |s|
    decreases |s| - i
  {
    if i == |s| then "" else ReadPiece(s, i) + ReadFrom(s, i + 1)
  }

  /** The translation of a suffix equals its piecewise read. */
  lemma {:induction false} UniversalSuffixIsPiecewise(s: string, i: nat)
    requires i <= |s|
    ensures Universal(s[i..]) == ReadFrom(s, i)
    decreases |s| - i
  {
    if i < |s| {
      var t := s[i..];
      assert t[0] == s[i];
      assert t[1..] == s[i + 1..];
      UniversalSuffixIsPiecewise(s, i + 1);
      if s[i] == '\r' && i + 1 < |s| && s[i + 1] == '\n' {
        assert t[1] == '\n';
        assert t[2..] == s[i + 2..];
        UniversalSuffixIsPiecewise(s, i + 2);
        assert ReadPiece(s, i + 1) == "\n";
        assert ReadFrom(s, i + 1) == "\n" + ReadFrom(s, i + 2);
      } else if s[i] == '\r' {
        assert !(|t| > 1 && t[1] == '\n');
      }
    }
  }

  /** A universal-newlines read is, for every stored text, the piecewise read. */
  lemma UniversalIsPiecewise(s: string)
    ensures Universal(s) == ReadFrom(s, 0)
  {
    UniversalSuffixIsPiecewise(s, 0);
    assert s[0..] == s;
  }
}
