/** Escaping of Linux paths for NTFS: a character that NTFS forbids becomes the three-byte UTF-8
    sequence of U+F000 plus its code, with the code's bits packed into the last two bytes. */
module Escape {

  type Byte = bv8

  const NUL: Byte := 0
  const SLASH: Byte := 0x2f
  const BACKSLASH: Byte := 0x5c

  /** UtilEscapeCharBase. */
  const BASE0: Byte := 0xef
  const BASE1: Byte := 0x80
  const BASE2: Byte := 0x80

  /** The false entries of the table: control characters, `"`, `*`, `:`, `<`, `>`, `?`, `\`, `|`. */
  predicate Illegal(c: Byte) {
    c < 0x20 || c == 0x22 || c == 0x2a || c == 0x3a || c == 0x3c || c == 0x3e || c == 0x3f || c == 0x5c || c == 0x7c
  }

  /** EscapeCharNeedsEscape: the table covers the seven-bit characters only. */
  predicate NeedsEscape(c: Byte) {
    c <= 0x7f && Illegal(c)
  }

  function Second(c: Byte): Byte {
    BASE1 | (c >> 6)
  }

  function Third(c: Byte): Byte {
    BASE2 | (c & 0x3f)
  }

  function Triple(c: Byte): seq<Byte> {
    [BASE0, Second(c), Third(c)]
  }

  /** The character packed into the last two bytes; the shift drops all but two bits of the first. */
  function Unpack(b1: Byte, b2: Byte): Byte {
    (b1 << 6) | (b2 & 0x3f)
  }

  predicate Shares(b: Byte, base: Byte) {
    b & base != 0
  }

  /** The test of the unescape loop at one position. */
  predicate Decodes(b0: Byte, b1: Byte, b2: Byte) {
    b0 == BASE0 && Shares(b1, BASE1) && Shares(b2, BASE2) && NeedsEscape(Unpack(b1, b2))
  }

  predicate DecodesAt(s: seq<Byte>, i: nat) {
    i + 2 < |s| && Decodes(s[i], s[i + 1], s[i + 2])
  }

  // ---------------------------------------------------------------------
  // What the three loops compute
  // ---------------------------------------------------------------------

  function EscapeByte(c: Byte): seq<Byte> {
    if c == SLASH then [BACKSLASH] else if NeedsEscape(c) then Triple(c) else [c]
  }

  function EscapePath(s: seq<Byte>): seq<Byte> {
    if s == [] then [] else EscapeByte(s[0]) + EscapePath(s[1..])
  }

  function Unescape(s: seq<Byte>): seq<Byte> {
    if s == [] then []
    else if DecodesAt(s, 0) then [Unpack(s[1], s[2])] + Unescape(s[3..])
    else [s[0]] + Unescape(s[1..])
  }

  /** The caller's separator translation back to Linux. */
  function ToSlashes(s: seq<Byte>): seq<Byte> {
    if s == [] then [] else [if s[0] == BACKSLASH then SLASH else s[0]] + ToSlashes(s[1..])
  }

  // ---------------------------------------------------------------------
  // Bits
  // ---------------------------------------------------------------------

  lemma TripleDecodes(c: Byte)
    requires NeedsEscape(c)
    ensures Decodes(Triple(c)[0], Triple(c)[1], Triple(c)[2])
    ensures Unpack(Triple(c)[1], Triple(c)[2]) == c
    ensures Triple(c)[1] >= 0x80 && Triple(c)[2] >= 0x80
  {
  }

  /** An escape that follows a stray 0xef, directly or after one byte, does not complete a triple. */
  lemma NoStraddle(b: Byte, c: Byte)
    ensures !Decodes(BASE0, BASE0, b)
    ensures !Decodes(BASE0, b, BASE0)
    ensures NeedsEscape(c) ==> !Shares(c, BASE1) && c != BASE0
  {
  }

  // ---------------------------------------------------------------------
  // Round trip
  // ---------------------------------------------------------------------

  /** The escape with separators turned back: slashes stay, forbidden characters are triples. */
  function EscapeKeepSlash(s: seq<Byte>): seq<Byte> {
    if s == [] then []
    else (if NeedsEscape(s[0]) then Triple(s[0]) else [s[0]]) + EscapeKeepSlash(s[1..])
  }

  lemma {:induction false} ToSlashesAppend(s: seq<Byte>, t: seq<Byte>)
    ensures ToSlashes(s + t) == ToSlashes(s) + ToSlashes(t)
  {
    if s == [] {
      assert s + t == t;
    } else {
      assert (s + t)[1..] == s[1..] + t;
      ToSlashesAppend(s[1..], t);
    }
  }

  lemma ToSlashesOfByte(c: Byte)
    ensures ToSlashes(EscapeByte(c)) == if NeedsEscape(c) then Triple(c) else [c]
  {
    if NeedsEscape(c) && c != SLASH {
      TripleDecodes(c);
      var t := Triple(c);
      assert t[1..][1..] == [t[2]];
      assert ToSlashes([t[2]]) == [t[2]];
      assert ToSlashes(t[1..]) == [t[1], t[2]];
    }
  }

  lemma {:induction false} SlashesOfEscape(s: seq<Byte>)
    ensures ToSlashes(EscapePath(s)) == EscapeKeepSlash(s)
  {
    if s != [] {
      SlashesOfEscape(s[1..]);
      ToSlashesAppend(EscapeByte(s[0]), EscapePath(s[1..]));
      ToSlashesOfByte(s[0]);
    }
  }

  // ---------------------------------------------------------------------
  // What is written, character by character
  // ---------------------------------------------------------------------

  /** What NTFS forbids in a name: control characters and `"`, `*`, `/`, `:`, `<`, `>`, `?`, `\`, `|`. */
  predicate Forbidden(c: Byte) {
    || c < 0x20 || c == 0x22 || c == 0x2a || c == 0x2f || c == 0x3a || c == 0x3c || c == 0x3e || c == 0x3f
    || c == 0x5c || c == 0x7c
  }

  /** Three bytes that are the UTF-8 form of a code point from U+F000 on. */
  predicate IsUtf8Of(b0: Byte, b1: Byte, b2: Byte, point: bv16) {
    && b0 & 0xf0 == 0xe0 && b1 & 0xc0 == 0x80 && b2 & 0xc0 == 0x80
    && ((b0 & 0x0f) as bv16 << 12) | ((b1 & 0x3f) as bv16 << 6) | ((b2 & 0x3f) as bv16) == point
  }

  /** A character other than a separator is escaped exactly when NTFS forbids it, and then becomes the
      UTF-8 form of U+F000 plus its code. */
  lemma EscapeIsPrivateUse(c: Byte)
    ensures NeedsEscape(c) <==> Forbidden(c) && c != 0x2f
    ensures NeedsEscape(c) ==> IsUtf8Of(0xef, Second(c), Third(c), 0xf000 + (c as bv16))
  {
  }

  /** Where each character of a path ends up and what is written there: a backslash for a slash, the
      private-use form of a forbidden character, any other character itself. */
  lemma {:induction false} WritesEachCharacter(s: seq<Byte>, i: nat)
    requires i < |s|
    ensures var e, at, next := EscapePath(s), |EscapePath(s[..i])|, |EscapePath(s[..i + 1])|;
            && next <= |e|
            && (s[i] == 0x2f ==> next == at + 1 && e[at] == 0x5c)
            && (s[i] != 0x2f && !Forbidden(s[i]) ==> next == at + 1 && e[at] == s[i])
            && (s[i] != 0x2f && Forbidden(s[i]) ==>
                  next == at + 3 && IsUtf8Of(e[at], e[at + 1], e[at + 2], 0xf000 + (s[i] as bv16)))
  {
    hide EscapePath, EscapeByte, NeedsEscape, Forbidden, IsUtf8Of, Second, Third;
    EscapeAt(s, i);
    EscapeByteSize(s[i]);
    EscapeIsPrivateUse(s[i]);
    var e, at, b := EscapePath(s), |EscapePath(s[..i])|, EscapeByte(s[i]);
    assert forall j :: at <= j < at + |b| ==> e[j] == b[j - at];
  }

  /** The escaped path is legal for NTFS: it holds no forbidden byte but the separators, which are
      backslashes now. */
  lemma {:induction false} EscapedIsLegal(s: seq<Byte>, i: nat)
    requires i < |EscapePath(s)|
    ensures EscapePath(s)[i] == 0x5c || !Forbidden(EscapePath(s)[i])
  {
    var first, rest := EscapeByte(s[0]), EscapePath(s[1..]);
    if i >= |first| {
      EscapedIsLegal(s[1..], i - |first|);
    } else if NeedsEscape(s[0]) {
      TripleDecodes(s[0]);
    }
  }

  /** What the unescape loop takes for an escape: 0xef, then two bytes with their top bit set, whose low
      two and six bits make up a forbidden character other than the slash. */
  lemma DecodesExactly(b0: Byte, b1: Byte, b2: Byte)
    ensures Unpack(b1, b2) == (b1 & 0x03) * 64 + (b2 & 0x3f)
    ensures Decodes(b0, b1, b2) <==>
            && b0 == 0xef && b1 >= 0x80 && b2 >= 0x80
            && var c := (b1 & 0x03) * 64 + (b2 & 0x3f);
            && Forbidden(c) && c != 0x2f
  {
  }

  /** The first three bytes of the escaped text decode exactly when those of the text do. */
  lemma {:induction false} SameFirstTriple(s: seq<Byte>)
    requires s != [] && !NeedsEscape(s[0])
    ensures DecodesAt(EscapeKeepSlash(s), 0) <==> DecodesAt(s, 0)
    ensures DecodesAt(s, 0) ==>
              && EscapeKeepSlash(s)[..3] == s[..3]
              && EscapeKeepSlash(s)[3..] == EscapeKeepSlash(s[3..])
  {
    hide NeedsEscape, Shares, Unpack, Second, Third;
    var e := EscapeKeepSlash(s);
    if s[0] == BASE0 && |s| > 1 {
      var r := s[1..];
      assert e == [s[0]] + EscapeKeepSlash(r);
      if NeedsEscape(r[0]) {
        assert e[1] == BASE0;
        NoStraddle(e[2], r[0]);
      } else if |r| > 1 {
        var q := r[1..];
        assert q == s[2..];
        assert EscapeKeepSlash(r) == [r[0]] + EscapeKeepSlash(q);
        if NeedsEscape(q[0]) {
          assert e[2] == BASE0;
          NoStraddle(r[0], q[0]);
        } else {
          assert q[1..] == s[3..];
          assert EscapeKeepSlash(q) == [q[0]] + EscapeKeepSlash(q[1..]);
        }
      } else {
        assert r[1..] == [] && EscapeKeepSlash(r) == [r[0]] + EscapeKeepSlash(r[1..]);
        assert |e| == 2;
      }
    } else if |s| == 1 {
      assert s[1..] == [] && |e| == 1;
    }
  }

  /** Escaping first does not change what unescaping yields, on every byte string. */
  lemma {:induction false} UnescapeOfEscape(s: seq<Byte>)
    ensures Unescape(ToSlashes(EscapePath(s))) == Unescape(s)
    decreases |s|
  {
    SlashesOfEscape(s);
    if s != [] {
      var e := EscapeKeepSlash(s);
      if NeedsEscape(s[0]) {
        TripleDecodes(s[0]);
        assert e[3..] == EscapeKeepSlash(s[1..]);
        SlashesOfEscape(s[1..]);
        UnescapeOfEscape(s[1..]);
      } else {
        SameFirstTriple(s);
        if DecodesAt(s, 0) {
          assert e[1] == e[..3][1] && e[2] == e[..3][2];
          SlashesOfEscape(s[3..]);
          UnescapeOfEscape(s[3..]);
        } else {
          assert e[1..] == EscapeKeepSlash(s[1..]);
          SlashesOfEscape(s[1..]);
          UnescapeOfEscape(s[1..]);
        }
      }
    }
  }

  lemma {:induction false} UnescapeIsIdentity(s: seq<Byte>)
    ensures |Unescape(s)| <= |s|
    ensures Unescape(s) == s <==> forall i :: 0 <= i < |s| ==> !DecodesAt(s, i)
    decreases |s|
  {
    if s != [] {
      if DecodesAt(s, 0) {
        UnescapeIsIdentity(s[3..]);
      } else {
        var r := s[1..];
        UnescapeIsIdentity(r);
        assert forall i :: 0 <= i < |r| ==> (DecodesAt(r, i) <==> DecodesAt(s, i + 1));
        assert s == [s[0]] + r;
        if Unescape(s) == s {
          assert r == Unescape(s)[1..] == Unescape(r);
          forall i | 0 <= i < |s|
            ensures !DecodesAt(s, i)
          {
            if i > 0 {
              assert !DecodesAt(r, i - 1);
            }
          }
        }
      }
    }
  }

  /** The round trip gives the path back exactly when it held no decodable triple to begin with. */
  lemma {:induction false} RoundTrip(s: seq<Byte>)
    ensures Unescape(ToSlashes(EscapePath(s))) == s <==> forall i :: 0 <= i < |s| ==> !DecodesAt(s, i)
  {
    UnescapeOfEscape(s);
    UnescapeIsIdentity(s);
  }

  /** A path that already holds U+F03A, the escape of `:`, comes back as `:`. */
  lemma RoundTripExample()
    ensures Unescape(ToSlashes(EscapePath([0xef, 0x80, 0xba]))) == [0x3a]
  {
    var s: seq<Byte> := [0xef, 0x80, 0xba];
    UnescapeOfEscape(s);
    assert DecodesAt(s, 0) && Unpack(0x80, 0xba) == 0x3a;
    assert s[3..] == [];
  }

  // ---------------------------------------------------------------------
  // The loops
  // ---------------------------------------------------------------------

  /** A buffer that starts with `s` and a terminator. */
  ghost predicate HoldsPath(buffer: seq<Byte>, s: seq<Byte>) {
    && |s| < |buffer|
    && (forall i :: 0 <= i < |s| ==> s[i] == buffer[i] && s[i] != NUL)
    && buffer[|s|] == NUL
  }

  lemma {:induction false} EscapeAppend(s: seq<Byte>, t: seq<Byte>)
    ensures EscapePath(s + t) == EscapePath(s) + EscapePath(t)
  {
    hide EscapeByte;
    if s == [] {
      assert s + t == t;
    } else {
      assert (s + t)[1..] == s[1..] + t;
      EscapeAppend(s[1..], t);
    }
  }

  /** Where the escape of the character at `i` lies in the escape of the whole path. */
  lemma EscapeAt(s: seq<Byte>, i: nat)
    requires i < |s|
    ensures var at, b := |EscapePath(s[..i])|, EscapeByte(s[i]);
            && |EscapePath(s[..i + 1])| == at + |b| <= |EscapePath(s)|
            && forall j :: at <= j < at + |b| ==> EscapePath(s)[j] == b[j - at]
  {
    hide EscapeByte;
    assert s == s[..i] + s[i..];
    EscapeAppend(s[..i], s[i..]);
    assert s[i..][0] == s[i];
    assert s[..i + 1] == s[..i] + [s[i]];
    EscapeAppend(s[..i], [s[i]]);
    assert EscapePath([s[i]]) == EscapeByte(s[i]) + EscapePath([]);
  }

  lemma EscapeByteSize(c: Byte)
    ensures |EscapeByte(c)| == if NeedsEscape(c) then 3 else 1
    ensures c == SLASH ==> EscapeByte(c)[0] == BACKSLASH && !NeedsEscape(c)
    ensures c != SLASH && !NeedsEscape(c) ==> EscapeByte(c)[0] == c
    ensures NeedsEscape(c) ==> EscapeByte(c) == [BASE0, Second(c), Third(c)]
  {
  }

  /** EscapePathForNtLength: exactly the number of bytes the escape writes. */
  method EscapePathForNtLength(path: array<Byte>, ghost s: seq<Byte>) returns (length: nat)
    requires HoldsPath(path[..], s)
    ensures length == |EscapePath(s)|
  {
    hide EscapePath, NeedsEscape, EscapeByte;
    length := 0;
    var current := 0;
    EscapeNothing(s);
    while path[current] != NUL
      invariant current <= |s|
      invariant length == |EscapePath(s[..current])|
      decreases |s| - current
    {
      EscapeAt(s, current);
      EscapeByteSize(s[current]);
      if !NeedsEscape(path[current]) {
        length := length + 1;
      } else {
        length := length + 3;
      }
      current := current + 1;
    }
    assert s[..current] == s;
  }

  lemma EscapeNothing(s: seq<Byte>)
    ensures EscapePath(s[..0]) == []
  {
  }

  /** EscapePathForNt: fills the front of the output and touches nothing behind it; the text gets
      no terminator. */
  method EscapePathForNt(path: array<Byte>, escaped: array<Byte>, ghost s: seq<Byte>)
    requires HoldsPath(path[..], s) && path != escaped
    requires |EscapePath(s)| <= escaped.Length
    modifies escaped
    ensures escaped[..|EscapePath(s)|] == EscapePath(s)
    ensures forall i :: |EscapePath(s)| <= i < escaped.Length ==> escaped[i] == old(escaped[i])
  {
    hide EscapePath, NeedsEscape, EscapeByte, Second, Third;
    var current, insertion := 0, 0;
    ghost var all := EscapePath(s);
    EscapeNothing(s);
    while path[current] != NUL
      invariant current <= |s| && path[..] == old(path[..])
      invariant insertion == |EscapePath(s[..current])| <= |all|
      invariant forall i :: 0 <= i < insertion ==> escaped[i] == all[i]
      invariant forall i :: |all| <= i < escaped.Length ==> escaped[i] == old(escaped[i])
      decreases |s| - current
    {
      var c := path[current];
      assert c == path[..][current] == s[current];
      EscapeAt(s, current);
      EscapeByteSize(c);
      if c == SLASH {
        escaped[insertion] := BACKSLASH;
        insertion := insertion + 1;
      } else if !NeedsEscape(c) {
        escaped[insertion] := c;
        insertion := insertion + 1;
      } else {
        escaped[insertion] := BASE0;
        escaped[insertion + 1] := Second(c);
        escaped[insertion + 2] := Third(c);
        insertion := insertion + 3;
      }
      current := current + 1;
    }
    assert s[..current] == s;
  }

  /** What the byte at the scan position turns into; `goal` is the unescaped text. */
  lemma UnescapeStep(goal: seq<Byte>, current: nat, rest: seq<Byte>)
    requires rest != [] && current <= |goal| && goal[current..] == Unescape(rest)
    ensures current < |goal|
    ensures DecodesAt(rest, 0) ==>
              goal[current] == Unpack(rest[1], rest[2]) && goal[current + 1..] == Unescape(rest[3..])
    ensures !DecodesAt(rest, 0) ==> goal[current] == rest[0] && goal[current + 1..] == Unescape(rest[1..])
  {
    hide DecodesAt, Unpack;
    assert goal[current] == goal[current..][0];
    assert goal[current + 1..] == goal[current..][1..];
  }

  /** Loop invariant: the bytes before `current` are final, `rest` is still to be read. */
  ghost predicate UnescapeInv(buffer: seq<Byte>, original: seq<Byte>, s: seq<Byte>, current: nat, rest: seq<Byte>) {
    var goal := Unescape(s);
    && |buffer| == |original| && current + |rest| <= |s| < |buffer|
    && (forall i :: 0 <= i < |rest| ==> rest[i] == buffer[current + i] && rest[i] != NUL)
    && buffer[current + |rest|] == NUL
    && current <= |goal| && goal[current..] == Unescape(rest)
    && (forall i :: 0 <= i < current ==> buffer[i] == goal[i])
    && (forall i :: |s| < i < |buffer| ==> buffer[i] == original[i])
  }

  lemma UnescapeInvKeep(buffer: seq<Byte>, original: seq<Byte>, s: seq<Byte>, current: nat, rest: seq<Byte>)
    requires UnescapeInv(buffer, original, s, current, rest)
    requires rest != [] && !DecodesAt(rest, 0)
    ensures UnescapeInv(buffer, original, s, current + 1, rest[1..])
  {
    hide DecodesAt, Unescape;
    UnescapeStep(Unescape(s), current, rest);
    assert forall i :: 0 <= i < |rest[1..]| ==> rest[1..][i] == rest[i + 1];
  }

  lemma UnescapeInvDecode(buffer: seq<Byte>, moved: seq<Byte>, original: seq<Byte>, s: seq<Byte>, current: nat,
                          rest: seq<Byte>)
    requires UnescapeInv(buffer, original, s, current, rest)
    requires rest != [] && DecodesAt(rest, 0) && |moved| == |buffer|
    requires forall i :: 0 <= i < current ==> moved[i] == buffer[i]
    requires moved[current] == Unpack(rest[1], rest[2])
    requires forall i :: current + 1 <= i < current + |rest| - 1 ==> moved[i] == buffer[i + 2]
    requires forall i :: current + |rest| - 1 <= i < |buffer| ==> moved[i] == buffer[i]
    ensures UnescapeInv(moved, original, s, current + 1, rest[3..])
  {
    assert |rest| >= 3;
    hide DecodesAt, Unescape, Unpack;
    UnescapeStep(Unescape(s), current, rest);
    assert forall i :: 0 <= i < |rest[3..]| ==> rest[3..][i] == rest[i + 3];
  }

  lemma UnescapeInvInit(buffer: seq<Byte>, s: seq<Byte>)
    requires HoldsPath(buffer, s)
    ensures UnescapeInv(buffer, buffer, s, 0, s)
  {
    UnescapeIsIdentity(s);
  }

  lemma UnescapeInvDone(buffer: seq<Byte>, original: seq<Byte>, s: seq<Byte>, current: nat, rest: seq<Byte>)
    requires UnescapeInv(buffer, original, s, current, rest) && rest == []
    ensures current == |Unescape(s)| <= |s| < |buffer| == |original|
    ensures buffer[|Unescape(s)|] == NUL && buffer[..|Unescape(s)|] == Unescape(s)
    ensures forall i :: |s| < i < |buffer| ==> buffer[i] == original[i]
  {
    assert Unescape(s)[current..] == [];
  }

  lemma UnescapeInvRest(buffer: seq<Byte>, original: seq<Byte>, s: seq<Byte>, current: nat, rest: seq<Byte>)
    requires UnescapeInv(buffer, original, s, current, rest)
    ensures current + |rest| <= |s| < |buffer| == |original|
    ensures buffer[current] == NUL <==> rest == []
    ensures forall i :: 0 <= i < |rest| ==> rest[i] == buffer[current + i] && rest[i] != NUL
    ensures buffer[current + |rest|] == NUL
  {
    if rest != [] {
      assert rest[0] == buffer[current + 0] && rest[0] != NUL;
    }
  }

  lemma SharesNotNul(b: Byte, base: Byte)
    requires Shares(b, base)
    ensures b != NUL
  {
  }

  /** The three tests of the source on the bytes at the scan position. */
  method IsTriple(path: array<Byte>, current: nat, ghost rest: seq<Byte>) returns (r: bool)
    requires rest != [] && current + |rest| < path.Length && path[current + |rest|] == NUL
    requires forall i :: 0 <= i < |rest| ==> rest[i] == path[current + i] && rest[i] != NUL
    ensures r <==> |rest| > 2 && rest[0] == BASE0 && Shares(rest[1], BASE1) && Shares(rest[2], BASE2)
  {
    hide Shares;
    r := false;
    if path[current] == BASE0 {
      assert rest[0] == path[current + 0];
      if Shares(path[current + 1], BASE1) {
        SharesNotNul(path[current + 1], BASE1);
        assert |rest| > 1 && rest[1] == path[current + 1];
        if Shares(path[current + 2], BASE2) {
          SharesNotNul(path[current + 2], BASE2);
          assert |rest| > 2 && rest[2] == path[current + 2];
          r := true;
        }
      }
    } else {
      assert rest[0] == path[current + 0];
    }
  }

  /** Overwrites the triple at the scan position and moves the rest of the text down. */
  method ReplaceTriple(path: array<Byte>, current: nat, unescaped: Byte, ghost rest: seq<Byte>)
    requires |rest| > 2 && current + |rest| < path.Length && path[current + |rest|] == NUL
    requires forall i :: 0 <= i < |rest| ==> rest[i] == path[current + i] && rest[i] != NUL
    modifies path
    ensures forall i :: 0 <= i < current ==> path[i] == old(path[i])
    ensures path[current] == unescaped
    ensures forall i :: current + 1 <= i < current + |rest| - 1 ==> path[i] == old(path[i + 2])
    ensures forall i :: current + |rest| - 1 <= i < path.Length ==> path[i] == old(path[i])
  {
    path[current] := unescaped;
    var len := StrLenBehind(path, current, rest);
    ghost var before := path[..];
    MemMove(path, current + 1, current + 3, len + 1);
    assert forall i :: current + 1 <= i < current + |rest| - 1 ==> path[i] == before[i + 2];
  }

  /** The length of the text behind a triple. */
  method StrLenBehind(path: array<Byte>, current: nat, ghost rest: seq<Byte>) returns (len: nat)
    requires |rest| > 2 && current + |rest| < path.Length && path[current + |rest|] == NUL
    requires forall i :: 3 <= i < |rest| ==> rest[i] == path[current + i] && rest[i] != NUL
    ensures len == |rest| - 3
  {
    ghost var left := rest[3..];
    assert forall i :: 0 <= i < |left| ==> left[i] == rest[i + 3] == path[current + 3 + i];
    len := StrLenFrom(path, current + 3, left);
  }

  /** One turn of the loop. */
  method UnescapeByte(path: array<Byte>, current: nat, ghost original: seq<Byte>, ghost s: seq<Byte>,
                      ghost rest: seq<Byte>)
    returns (ghost left: seq<Byte>)
    requires UnescapeInv(path[..], original, s, current, rest) && rest != []
    modifies path
    ensures UnescapeInv(path[..], original, s, current + 1, left) && |left| < |rest|
  {
    hide UnescapeInv, NeedsEscape, Unpack, Shares;
    ghost var before := path[..];
    UnescapeInvRest(before, original, s, current, rest);
    assert forall i :: 0 <= i < |rest| ==> rest[i] == before[current + i] == path[current + i];
    var triple := IsTriple(path, current, rest);
    left := rest[1..];
    if triple {
      assert rest[1] == path[current + 1] && rest[2] == path[current + 2];
      var unescaped := Unpack(path[current + 1], path[current + 2]);
      if NeedsEscape(unescaped) {
        ReplaceTriple(path, current, unescaped, rest);
        left := rest[3..];
        UnescapeInvDecode(before, path[..], original, s, current, rest);
        return;
      }
    }
    UnescapeInvKeep(before, original, s, current, rest);
  }

  /** UnescapePathInplace: the text before the buffer's terminator becomes its unescaped form; every
      index read or written lies within the original text and its terminator. */
  method UnescapePathInplace(path: array<Byte>, ghost s: seq<Byte>)
    requires HoldsPath(path[..], s)
    modifies path
    ensures |Unescape(s)| <= |s| && path[|Unescape(s)|] == NUL
    ensures path[..][..|Unescape(s)|] == Unescape(s)
    ensures forall i :: |s| < i < path.Length ==> path[i] == old(path[i])
  {
    hide UnescapeInv, Unescape, HoldsPath, DecodesAt, Decodes, Unpack, Shares, NeedsEscape;
    var current: nat := 0;
    ghost var rest, original := s, path[..];
    UnescapeInvInit(original, s);
    UnescapeInvRest(original, original, s, current, rest);
    while path[current] != NUL
      invariant current < path.Length && UnescapeInv(path[..], original, s, current, rest)
      invariant path[..][current] == NUL <==> rest == []
      decreases |rest|
    {
      rest := UnescapeByte(path, current, original, s, rest);
      UnescapeInvRest(path[..], original, s, current + 1, rest);
      current := current + 1;
    }
    UnescapeInvDone(path[..], original, s, current, rest);
    assert forall i :: |s| < i < path.Length ==> path[i] == path[..][i] == original[i];
  }

  method StrLenFrom(a: array<Byte>, at: nat, ghost s: seq<Byte>) returns (n: nat)
    requires at + |s| < a.Length && a[at + |s|] == NUL
    requires forall i :: 0 <= i < |s| ==> s[i] == a[at + i] && s[i] != NUL
    ensures n == |s|
  {
    n := 0;
    while a[at + n] != NUL
      invariant n <= |s|
      invariant n < |s| ==> s[n] == a[at + n] && s[n] != NUL
      decreases |s| - n
    {
      n := n + 1;
    }
  }

  method MemMove(a: array<Byte>, dst: nat, src: nat, len: nat)
    requires dst + len <= a.Length && src + len <= a.Length
    modifies a
    ensures forall i :: 0 <= i < dst ==> a[i] == old(a[i])
    ensures forall i :: dst <= i < dst + len ==> a[i] == old(a[src + (i - dst)])
    ensures forall i :: dst + len <= i < a.Length ==> a[i] == old(a[i])
  {
    forall i | 0 <= i < len {
      a[dst + i] := a[src + i];
    }
  }
}
