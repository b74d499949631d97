// Markdown noise removal for chat labels, main/md_strip.c, as a function on bytes: what
// comes out of a text, and what that does to UTF-8.

module InlineText {
  import opened CString

  const LF := 0x0A
  const SPACE := 0x20
  const HASH := 0x23
  const STAR := 0x2A
  const DASH := 0x2D
  const UNDERSCORE := 0x5F
  const BULLET: seq<Byte> := [0xE2, 0x80, 0xA2, SPACE]
  const ELLIPSIS: seq<Byte> := [0xE2, 0x80, 0xA6]

  // ---------------------------------------------------------------- the specification

  function Hashes(s: seq<Byte>): (n: nat)
    ensures n <= |s| && forall i :: 0 <= i < n ==> s[i] == HASH
  {
    if s == [] || s[0] != HASH then 0 else 1 + Hashes(s[1..])
  }

  /** The ASCII stand-in for a typographic quote or dash whose third byte is b. */
  function Fold(b: Byte): seq<Byte> {
    if b == 0x98 || b == 0x99 then [0x27]
    else if b == 0x9C || b == 0x9D then [0x22]
    else if b == 0x93 || b == 0x94 then [DASH]
    else []
  }

  predicate IsHeading(rest: seq<Byte>, atLineStart: bool) {
    rest != [] && rest[0] == HASH && atLineStart && Hashes(rest) < |rest| && rest[Hashes(rest)] == SPACE
  }

  predicate IsBullet(rest: seq<Byte>, atLineStart: bool) {
    |rest| > 1 && (rest[0] == DASH || rest[0] == STAR) && atLineStart && rest[1] == SPACE
  }

  predicate IsFolded(rest: seq<Byte>) {
    |rest| > 2 && rest[0] == 0xE2 && rest[1] == 0x80 && Fold(rest[2]) != []
  }

  /** The bytes one round emits, and how many it consumes. */
  function Round(rest: seq<Byte>, atLineStart: bool): (r: (seq<Byte>, nat))
    requires rest != []
    ensures |r.0| <= 1 || r.0 == BULLET
    ensures 1 <= r.1 <= |rest|
  {
    if IsHeading(rest, atLineStart) then ([], Hashes(rest) + 1)
    else if IsBullet(rest, atLineStart) then (BULLET, 2)
    else if rest[0] == STAR || rest[0] == UNDERSCORE then ([], if |rest| > 1 && rest[1] == rest[0] then 2 else 1)
    else if IsFolded(rest) then (Fold(rest[2]), 3)
    else ([rest[0]], 1)
  }

  /** Everything that comes out of `rest` when space is no object. */
  function Clean(rest: seq<Byte>, atLineStart: bool): seq<Byte>
    decreases |rest|
  {
    if rest == [] then []
    else
      var (e, k) := Round(rest, atLineStart);
      e + Clean(rest[k..], rest[k - 1] == LF)
  }

  /** With room for that many bytes; a bullet that does not fit is left out. */
  function Inline(rest: seq<Byte>, atLineStart: bool, room: nat): (r: seq<Byte>)
    ensures |r| <= room
    decreases |rest|
  {
    if rest == [] || room == 0 then []
    else
      var (e, k) := Round(rest, atLineStart);
      if |e| <= room then e + Inline(rest[k..], rest[k - 1] == LF, room - |e|)
      else Inline(rest[k..], rest[k - 1] == LF, room)
  }

  predicate LineStart(t: seq<Byte>, i: nat)
    requires i <= |t|
  {
    i == 0 || t[i - 1] == LF
  }

  predicate LineStartAt(rest: seq<Byte>, atLineStart: bool, p: nat)
    requires p < |rest|
  {
    if p == 0 then atLineStart else rest[p - 1] == LF
  }

  /** A buffer with e written at oi. */
  function Overwrite(out: seq<Byte>, oi: nat, e: seq<Byte>): seq<Byte>
    requires oi + |e| <= |out|
  {
    out[..oi] + e + out[oi + |e|..]
  }

  // --------------------------------------------------------------------------- UTF-8

  predicate Tail(b: Byte) {
    0x80 <= b <= 0xBF
  }

  /** The length of the UTF-8 character at the head of s, by the grammar of section 4 of RFC 3629; 0 if there is none. */
  function CharLen(s: seq<Byte>): (n: nat)
    ensures n <= |s| && n <= 4
  {
    if s == [] then 0
    else if s[0] < 0x80 then 1
    else if |s| >= 2 && 0xC2 <= s[0] <= 0xDF && Tail(s[1]) then 2
    else if |s| >= 3 && Second3(s[0], s[1]) && Tail(s[2]) then 3
    else if |s| >= 4 && Second4(s[0], s[1]) && Tail(s[2]) && Tail(s[3]) then 4
    else 0
  }

  predicate Second3(a: Byte, b: Byte) {
    || (a == 0xE0 && 0xA0 <= b <= 0xBF)
    || (0xE1 <= a <= 0xEC && Tail(b))
    || (a == 0xED && 0x80 <= b <= 0x9F)
    || (0xEE <= a <= 0xEF && Tail(b))
  }

  predicate Second4(a: Byte, b: Byte) {
    || (a == 0xF0 && 0x90 <= b <= 0xBF)
    || (0xF1 <= a <= 0xF3 && Tail(b))
    || (a == 0xF4 && 0x80 <= b <= 0x8F)
  }

  predicate Utf8(s: seq<Byte>)
    decreases |s|
  {
    s == [] || (CharLen(s) > 0 && Utf8(s[CharLen(s)..]))
  }

  /** A whole character in front of valid text is valid text. */
  lemma Utf8Cons(c: seq<Byte>, s: seq<Byte>)
    requires CharLen(c) == |c| > 0 && Utf8(s)
    ensures Utf8(c + s)
  {
    assert CharLen(c + s) == |c|;
    assert (c + s)[|c|..] == s;
  }

  lemma {:induction false} Utf8DropAscii(s: seq<Byte>, k: nat)
    requires Utf8(s) && k <= |s| && forall i :: 0 <= i < k ==> s[i] < 0x80
    ensures Utf8(s[k..])
    decreases k
  {
    if k > 0 {
      Utf8DropAscii(s[1..], k - 1);
      assert s[1..][k - 1..] == s[k..];
    } else {
      assert s[0..] == s;
    }
  }

  lemma RoundCopies(rest: seq<Byte>, atLineStart: bool)
    requires rest != [] && rest[0] !in {HASH, DASH, STAR, UNDERSCORE} && !IsFolded(rest)
    ensures Round(rest, atLineStart) == ([rest[0]], 1)
  {
    hide IsFolded, Hashes, Fold;
  }

  lemma RoundOfAscii(rest: seq<Byte>, atLineStart: bool)
    requires rest != [] && rest[0] < 0x80
    ensures var (e, k) := Round(rest, atLineStart);
            && (forall i :: 0 <= i < k ==> rest[i] < 0x80)
            && (e == [] || e == BULLET || (|e| == 1 && e[0] < 0x80))
  {
    assert !IsFolded(rest);
    hide IsFolded, Fold;
  }

  lemma RoundOfFolded(rest: seq<Byte>, atLineStart: bool)
    requires IsFolded(rest)
    ensures Round(rest, atLineStart) == (Fold(rest[2]), 3) && |Fold(rest[2])| == 1 && Fold(rest[2])[0] < 0x80
    ensures CharLen(rest) == 3
  {
    assert !IsHeading(rest, atLineStart) && !IsBullet(rest, atLineStart);
    hide IsHeading, IsBullet, Hashes;
  }

  /** The six typographic characters that are folded, as the standard numbers them, and what comes out:
      an apostrophe for U+2018 and U+2019, a quote for U+201C and U+201D, a dash for U+2013 and U+2014. */
  lemma FoldedCharacters(t: seq<Byte>, atLineStart: bool)
    requires |t| > 2 && t[0] == 0xE2 && t[1] == 0x80
    ensures Clean(t, atLineStart) ==
              if t[2] in {0x98, 0x99} then ['\'' as int] + Clean(t[3..], false)
              else if t[2] in {0x9C, 0x9D} then ['"' as int] + Clean(t[3..], false)
              else if t[2] in {0x93, 0x94} then ['-' as int] + Clean(t[3..], false)
              else [0xE2] + Clean(t[1..], false)
  {
    if !IsFolded(t) { RoundCopies(t, atLineStart); } else { RoundOfFolded(t, atLineStart); }
    CleanUnrolls(t, atLineStart);
    hide Clean, Round;
  }

  lemma CleanCopies(rest: seq<Byte>, atLineStart: bool)
    requires rest != [] && Round(rest, atLineStart) == ([rest[0]], 1)
    ensures Clean(rest, atLineStart) == [rest[0]] + Clean(rest[1..], rest[0] == LF)
  {
    hide Round, Clean;
    CleanUnrolls(rest, atLineStart);
  }

  /** Continuation bytes are copied one by one, whatever line they are on. */
  lemma {:induction false} TailsAreCopied(s: seq<Byte>, n: nat)
    requires n <= |s| && forall i :: 0 <= i < n ==> Tail(s[i])
    ensures Clean(s, false) == s[..n] + Clean(s[n..], false)
    decreases n
  {
    if n > 0 {
      assert Tail(s[0]);
      RoundCopies(s, false);
      CleanCopies(s, false);
      hide Round, Clean, IsFolded;
      TailsAreCopied(s[1..], n - 1);
      assert s[1..][n - 1..] == s[n..];
      Reassociate(s, n, Clean(s[n..], false));
    } else {
      assert s[0..] == s;
    }
  }

  lemma Reassociate(s: seq<Byte>, n: nat, after: seq<Byte>)
    requires 0 < n <= |s|
    ensures [s[0]] + (s[1..][..n - 1] + after) == s[..n] + after
  {
    assert s[..n] == [s[0]] + s[1..][..n - 1];
  }

  /** One round, seen from a character boundary: it emits whole characters and stops at a boundary. */
  lemma RoundAtBoundary(rest: seq<Byte>, atLineStart: bool)
    requires rest != [] && Utf8(rest) && (rest[0] < 0x80 || IsFolded(rest))
    ensures var (e, k) := Round(rest, atLineStart);
            && Utf8(rest[k..])
            && (e == [] || e == BULLET || (|e| == 1 && e[0] < 0x80))
  {
    if IsFolded(rest) {
      RoundOfFolded(rest, atLineStart);
      hide Round, Fold, CharLen;
    } else {
      RoundOfAscii(rest, atLineStart);
      hide Round, Fold, IsFolded, Utf8;
      Utf8DropAscii(rest, Round(rest, atLineStart).1);
    }
  }

  lemma EmittedIsUtf8(e: seq<Byte>, s: seq<Byte>)
    requires Utf8(s) && (e == [] || e == BULLET || (|e| == 1 && e[0] < 0x80))
    ensures Utf8(e + s)
  {
    if e == [] {
      assert e + s == s;
    } else if e == BULLET {
      Utf8Cons([SPACE], s);
      Utf8Cons([0xE2, 0x80, 0xA2], [SPACE] + s);
      assert [0xE2, 0x80, 0xA2] + ([SPACE] + s) == e + s;
    } else {
      Utf8Cons(e, s);
    }
  }

  lemma TailsOfChar(rest: seq<Byte>)
    requires rest != [] && CharLen(rest) > 0 && rest[0] >= 0x80
    ensures rest[0] >= 0xC2 && CharLen(rest) > 1
    ensures forall i :: 0 <= i < CharLen(rest) - 1 ==> Tail(rest[1..][i])
    ensures CharLen(rest[..CharLen(rest)]) == CharLen(rest)
  {
  }

  /** A multi-byte character that is not folded comes out as it went in. */
  lemma WideIsCopied(rest: seq<Byte>, atLineStart: bool)
    requires rest != [] && CharLen(rest) > 0 && rest[0] >= 0x80 && !IsFolded(rest)
    ensures var n := CharLen(rest);
            Clean(rest, atLineStart) == rest[..n] + Clean(rest[n..], false)
  {
    var n := CharLen(rest);
    TailsOfChar(rest);
    RoundCopies(rest, atLineStart);
    CleanCopies(rest, atLineStart);
    hide Round, CharLen, Clean, IsFolded;
    TailsAreCopied(rest[1..], n - 1);
    assert rest[1..][n - 1..] == rest[n..];
    Reassociate(rest, n, Clean(rest[n..], false));
  }

  lemma {:induction false} CleanIsUtf8(rest: seq<Byte>, atLineStart: bool)
    requires Utf8(rest)
    ensures Utf8(Clean(rest, atLineStart))
    decreases |rest|
  {
    if rest != [] {
      if rest[0] < 0x80 || IsFolded(rest) {
        RoundAtBoundary(rest, atLineStart);
        var (e, k) := Round(rest, atLineStart);
        hide Round, Utf8;
        CleanIsUtf8(rest[k..], rest[k - 1] == LF);
        EmittedIsUtf8(e, Clean(rest[k..], rest[k - 1] == LF));
      } else {
        var n := CharLen(rest);
        WideIsCopied(rest, atLineStart);
        TailsOfChar(rest);
        assert Utf8(rest[n..]);
        hide Clean, CharLen;
        CleanIsUtf8(rest[n..], false);
        Utf8Cons(rest[..n], Clean(rest[n..], false));
      }
    }
  }

  lemma CleanUnrolls(rest: seq<Byte>, atLineStart: bool)
    requires rest != []
    ensures var (e, k) := Round(rest, atLineStart);
            Clean(rest, atLineStart) == e + Clean(rest[k..], rest[k - 1] == LF)
  {
    hide Round;
  }

  lemma InlineUnrolls(rest: seq<Byte>, atLineStart: bool, room: nat)
    requires rest != [] && |Round(rest, atLineStart).0| <= room
    ensures var (e, k) := Round(rest, atLineStart);
            Inline(rest, atLineStart, room) == if room == 0 then [] else e + Inline(rest[k..], rest[k - 1] == LF, room - |e|)
  {
    hide Round;
  }

  /** When it fits, nothing is lost to the size of the buffer. */
  lemma {:induction false} InlineIsClean(rest: seq<Byte>, atLineStart: bool, room: nat)
    requires |Clean(rest, atLineStart)| <= room
    ensures Inline(rest, atLineStart, room) == Clean(rest, atLineStart)
    decreases |rest|
  {
    hide *;
    if rest == [] {
      NothingOfNothing(atLineStart, room);
    } else {
      var (e, k) := Round(rest, atLineStart);
      var after := Clean(rest[k..], rest[k - 1] == LF);
      CleanUnrolls(rest, atLineStart);
      assert |e + after| == |e| + |after|;
      InlineUnrolls(rest, atLineStart, room);
      InlineIsClean(rest[k..], rest[k - 1] == LF, room - |e|);
      assert room == 0 ==> e + after == [];
    }
  }

  lemma NothingOfNothing(atLineStart: bool, room: nat)
    ensures Inline([], atLineStart, room) == Clean([], atLineStart) == []
  {
  }

  lemma {:induction false} CleanIsBounded(rest: seq<Byte>, atLineStart: bool)
    ensures |Clean(rest, atLineStart)| <= 2 * |rest|
    decreases |rest|
  {
    if rest != [] {
      var (e, k) := Round(rest, atLineStart);
      assert |e| <= 2 * k;
      hide Round;
      CleanIsBounded(rest[k..], rest[k - 1] == LF);
    }
  }

  lemma {:induction false} InlineHasNoMarks(rest: seq<Byte>, atLineStart: bool, room: nat)
    ensures STAR !in Inline(rest, atLineStart, room) && UNDERSCORE !in Inline(rest, atLineStart, room)
    decreases |rest|
  {
    if rest != [] && room > 0 {
      var (e, k) := Round(rest, atLineStart);
      assert STAR !in e && UNDERSCORE !in e;
      hide Round;
      InlineHasNoMarks(rest[k..], rest[k - 1] == LF, if |e| <= room then room - |e| else room);
    }
  }

  /** Any text, any buffer: no emphasis mark comes out.  Valid UTF-8 in a buffer that
      holds the result, which twice the input always does: valid UTF-8 comes out. */
  lemma LabelText(t: seq<Byte>, cap: nat)
    requires cap > 0
    ensures var r := Inline(t, true, cap - 1);
            && STAR !in r && UNDERSCORE !in r
            && |Clean(t, true)| <= 2 * |t|
            && (|Clean(t, true)| < cap ==> r == Clean(t, true) && (Utf8(t) ==> Utf8(r)))
  {
    InlineHasNoMarks(t, true, cap - 1);
    CleanIsBounded(t, true);
    if |Clean(t, true)| < cap {
      InlineIsClean(t, true, cap - 1);
      if Utf8(t) { CleanIsUtf8(t, true); }
    }
  }

  /** A bullet line doubles in size: the result need not be shorter than the input. */
  lemma BulletsGrow()
    ensures Clean([DASH, SPACE], true) == BULLET
  {
    assert Clean([], false) == [];
  }
}
