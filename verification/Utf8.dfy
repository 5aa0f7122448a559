/**
 UTF-8 as in sections 3 and 4 of RFC 3629: well-formed sequences, character boundaries, and the standard
 library's lossy decoding, which puts U+FFFD for every maximal ill-formed part.
 */
module Utf8 {
  import opened Basics

  type Bytes = seq<Byte>

  predicate IsContinuation(b: Byte) {
    0x80 <= b <= 0xBF
  }

  /** Length of the character announced by a lead byte, 0 for a byte that leads nothing. */
  function LeadLength(b: Byte): nat {
    if b <= 0x7F then 1
    else if 0xC2 <= b <= 0xDF then 2
    else if 0xE0 <= b <= 0xEF then 3
    else if 0xF0 <= b <= 0xF4 then 4
    else 0
  }

  /** The second byte fits the lead byte: no overlong forms, surrogates or values past U+10FFFF. */
  predicate SecondFits(lead: Byte, second: Byte) {
    && IsContinuation(second)
    && (lead == 0xE0 ==> second >= 0xA0) && (lead == 0xED ==> second <= 0x9F)
    && (lead == 0xF0 ==> second >= 0x90) && (lead == 0xF4 ==> second <= 0x8F)
  }

  /** How many leading bytes of `s` follow the pattern of one character. */
  function MatchedLength(s: Bytes): (n: nat)
    ensures n <= |s| && (s != [] ==> n <= LeadLength(s[0]))
  {
    if s == [] || LeadLength(s[0]) == 0 then 0
    else if LeadLength(s[0]) == 1 || |s| == 1 || !SecondFits(s[0], s[1]) then 1
    else if LeadLength(s[0]) == 2 || |s| == 2 || !IsContinuation(s[2]) then 2
    else if LeadLength(s[0]) == 3 || |s| == 3 || !IsContinuation(s[3]) then 3
    else 4
  }

  /** `s` starts with a complete character. */
  predicate StartsCharacter(s: Bytes) {
    s != [] && LeadLength(s[0]) > 0 && MatchedLength(s) == LeadLength(s[0])
  }

  predicate IsUtf8(s: Bytes)
    decreases |s|
  {
    s == [] || (StartsCharacter(s) && IsUtf8(s[LeadLength(s[0])..]))
  }

  const REPLACEMENT: Bytes := [0xEF, 0xBF, 0xBD]

  /** Length of the ill-formed part replaced at the front. */
  function BadLength(s: Bytes): (n: nat)
    requires s != []
    ensures 1 <= n <= |s|
  {
    if MatchedLength(s) == 0 then 1 else MatchedLength(s)
  }

  function Lossy(s: Bytes): Bytes
    decreases |s|
  {
    if s == [] then []
    else if StartsCharacter(s) then s[..LeadLength(s[0])] + Lossy(s[LeadLength(s[0])..])
    else REPLACEMENT + Lossy(s[BadLength(s)..])
  }

  /** A character boundary: an end of the text, or a byte that continues no character. */
  predicate IsBoundary(s: Bytes, i: nat) {
    i == 0 || i == |s| || (i < |s| && !IsContinuation(s[i]))
  }

  lemma LossyEmpty(s: Bytes)
    ensures Lossy(s) == [] <==> s == []
  {
  }

  lemma CharacterPrefix(character: Bytes, rest: Bytes)
    requires StartsCharacter(character) && LeadLength(character[0]) == |character|
    ensures StartsCharacter(character + rest) && (character + rest)[LeadLength(character[0])..] == rest
    ensures (character + rest)[0] == character[0]
  {
  }

  lemma CharacterAlone(s: Bytes)
    requires StartsCharacter(s)
    ensures StartsCharacter(s[..LeadLength(s[0])])
  {
  }

  /** Lossy decoding always gives valid text. */
  lemma {:induction false} LossyValid(s: Bytes)
    ensures IsUtf8(Lossy(s))
    decreases |s|
  {
    if s != [] {
      if StartsCharacter(s) {
        var n := LeadLength(s[0]);
        LossyValid(s[n..]);
        CharacterAlone(s);
        CharacterPrefix(s[..n], Lossy(s[n..]));
      } else {
        var rest := s[BadLength(s)..];
        LossyValid(rest);
        CharacterPrefix(REPLACEMENT, Lossy(rest));
      }
    }
  }

  lemma {:induction false} ValidUnchanged(s: Bytes)
    requires IsUtf8(s)
    ensures Lossy(s) == s
    decreases |s|
  {
    if s != [] {
      var n := LeadLength(s[0]);
      ValidUnchanged(s[n..]);
      assert s == s[..n] + s[n..];
    }
  }

  /** Lossy decoding changes exactly the text that is not valid. */
  lemma LossyFixed(s: Bytes)
    ensures Lossy(s) == s <==> IsUtf8(s)
  {
    LossyValid(s);
    if IsUtf8(s) {
      ValidUnchanged(s);
    }
  }

  /** Valid text cut at a character boundary is valid. */
  lemma {:induction false} BoundarySuffix(s: Bytes, i: nat)
    requires IsUtf8(s) && i <= |s| && IsBoundary(s, i)
    ensures IsUtf8(s[i..])
    decreases |s|
  {
    if i == 0 {
      assert s[i..] == s;
    } else if i < |s| {
      var n := LeadLength(s[0]);
      InsideCharacter(s, i);
      assert s[i..] == s[n..][i - n..];
      BoundarySuffix(s[n..], i - n);
    }
  }

  /** The bytes of a character after the first are continuation bytes. */
  lemma InsideCharacter(s: Bytes, i: nat)
    requires StartsCharacter(s) && 0 < i < |s| && !IsContinuation(s[i])
    ensures i >= LeadLength(s[0])
  {
  }

  /** In valid text every position is at most three bytes before a boundary. */
  lemma {:induction false} BoundaryNear(s: Bytes, i: nat)
    requires IsUtf8(s) && i <= |s|
    ensures exists j :: i <= j <= i + 3 && j <= |s| && IsBoundary(s, j)
    decreases |s|
  {
    if i == 0 || i == |s| {
      assert IsBoundary(s, i);
    } else {
      var n := LeadLength(s[0]);
      if i < n {
        NextCharacterBoundary(s);
        assert IsBoundary(s, n);
      } else {
        BoundaryNear(s[n..], i - n);
        var j :| i - n <= j <= i - n + 3 && j <= |s[n..]| && IsBoundary(s[n..], j);
        NextCharacterBoundary(s);
        assert IsBoundary(s, n + j);
      }
    }
  }

  lemma NextCharacterBoundary(s: Bytes)
    requires IsUtf8(s) && s != []
    ensures IsBoundary(s, LeadLength(s[0]))
  {
  }
}
