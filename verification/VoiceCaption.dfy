// The caption of a spoken reply: main/ui_voice.c scrubs the reply into a buffer of 256 bytes
// and then strips the markdown in that same buffer.

module VoiceCaption {
  import opened Basics
  import opened CString
  import opened ToolScrub
  import opened ToolScrubTwice
  import opened InlineText
  import opened InlineInPlace
  import opened InlineStrip

  const CAPTION_BUF: nat := 256

  predicate IsBytes(s: string) {
    forall i :: 0 <= i < |s| ==> s[i] as int < 256
  }

  function Bytes(s: string): (b: seq<Byte>)
    requires IsBytes(s)
    ensures |b| == |s| && forall i :: 0 <= i < |s| ==> b[i] == s[i] as int
  {
    seq(|s|, i requires 0 <= i < |s| => s[i] as int)
  }

  // ------------------------------------------------- what scrubbing keeps of the bytes

  predicate IsTail(c: char) {
    c as int < 256 && Tail(c as int)
  }

  /** No continuation byte stands right after an ASCII character, nor in front if `afterAscii`. */
  predicate Joined(s: string, afterAscii: bool) {
    s == [] || (!(afterAscii && IsTail(s[0])) && s[0] as int < 256 && Joined(s[1..], s[0] as int < 0x80))
  }

  lemma JoinedEitherWay(s: string, afterAscii: bool)
    requires Joined(s, true)
    ensures Joined(s, afterAscii)
  {
  }

  lemma {:induction false} JoinedFurtherOn(s: string, afterAscii: bool, k: nat)
    requires Joined(s, afterAscii) && 0 < k <= |s|
    ensures Joined(s[k..], s[k - 1] as int < 0x80)
    decreases k
  {
    if k > 1 {
      JoinedFurtherOn(s[1..], s[0] as int < 0x80, k - 1);
      assert s[1..][k - 1..] == s[k..];
    }
  }

  lemma {:induction false} JoinedPrefix(s: string, afterAscii: bool, p: string)
    requires Joined(s, afterAscii) && p <= s
    ensures Joined(p, afterAscii)
    decreases |s|
  {
    if p != [] { JoinedPrefix(s[1..], s[0] as int < 0x80, p[1..]); }
  }

  lemma {:induction false} TailsJoin(s: string, n: nat)
    requires n <= |s| && Joined(s[n..], true) && forall i :: 0 <= i < n ==> IsTail(s[i])
    ensures Joined(s, false)
    decreases n
  {
    if n > 0 {
      assert s[1..][n - 1..] == s[n..];
      assert IsTail(s[0]);
      TailsJoin(s[1..], n - 1);
    } else {
      assert s[0..] == s;
      JoinedEitherWay(s, false);
    }
  }

  lemma {:induction false} Utf8IsJoined(s: string)
    requires IsBytes(s) && Utf8(Bytes(s))
    ensures Joined(s, true)
    decreases |s|
  {
    var b := Bytes(s);
    if s != [] {
      var n := CharLen(b);
      assert b[n..] == Bytes(s[n..]);
      Utf8IsJoined(s[n..]);
      if b[0] >= 0x80 {
        TailsOfChar(b);
        assert forall i :: 0 <= i < n - 1 ==> s[1..][i] == s[i + 1] && b[1..][i] == s[1..][i] as int;
        assert s[1..][n - 1..] == s[n..];
        hide CharLen, Utf8;
        TailsJoin(s[1..], n - 1);
      }
    }
  }

  lemma RegionEndsInGt(t: string, i: nat, tag: string)
    requires i <= |t|
    ensures PastClose(t, i, tag) == |t| || (PastClose(t, i, tag) > 0 && t[PastClose(t, i, tag) - 1] == '>')
    decreases |t| - i
  {
    hide LowerAll;
  }

  lemma RoundEndsJoined(t: string, i: nat)
    requires i < |t|
    ensures var (c, j) := ToolScrub.Round(t, i);
            (c == t[i] && j == i + 1) || (c == ' ' && (j == |t| || t[j - 1] == '>'))
  {
    if Opens(t, i, "tool") || Opens(t, i, "args") {
      RegionEndsInGt(t, PastGt(t, i), "tool");
      RegionEndsInGt(t, PastGt(t, i), "args");
    }
    hide Opens, PastGt, PastClose;
  }

  lemma {:induction false} StripIsJoined(t: string, i: nat, room: nat, afterAscii: bool)
    requires i <= |t| && Joined(t[i..], afterAscii)
    ensures Joined(Strip(t, i, room), afterAscii)
    decreases |t| - i
  {
    if i < |t| && room > 0 {
      var (c, j) := ToolScrub.Round(t, i);
      RoundEndsJoined(t, i);
      StripUnrolls(t, i, room);
      hide ToolScrub.Round, Strip;
      JoinedFurtherOn(t[i..], afterAscii, j - i);
      assert t[i..][j - i..] == t[j..] && t[i..][j - i - 1] == t[j - 1] && t[i..][0] == t[i];
      StripIsJoined(t, j, room - 1, c as int < 0x80);
      assert ([c] + Strip(t, j, room - 1))[1..] == Strip(t, j, room - 1);
    }
  }

  lemma {:induction false} CollapseIsJoined(s: string, inSpace: bool, afterAscii: bool)
    requires Joined(s, afterAscii) && (inSpace ==> afterAscii)
    ensures Joined(Collapse(s, inSpace), afterAscii)
    decreases |s|
  {
    if s != [] {
      CollapseUnrolls(s, inSpace);
      CollapseIsJoined(s[1..], IsSpace(s[0]), s[0] as int < 0x80);
      var head, rest := CollapsedHead(s, inSpace), Collapse(s[1..], IsSpace(s[0]));
      hide Collapse;
      if head == [] { assert head + rest == rest; } else { assert (head + rest)[1..] == rest; }
    }
  }

  lemma ScrubIsJoined(t: string, cap: nat)
    requires cap > 0 && Joined(t, true)
    ensures Joined(Scrub(t, cap), true)
  {
    assert t[0..] == t;
    StripIsJoined(t, 0, cap - 1, true);
    var s := Strip(t, 0, cap - 1);
    CollapseIsJoined(s, true, true);
    JoinedPrefix(Collapse(s, true), true, Scrub(t, cap));
    hide Joined, Strip, Collapse, TrimEnd;
  }

  lemma {:induction false} StripIsBytes(t: string, i: nat, room: nat)
    requires i <= |t| && IsBytes(t)
    ensures IsBytes(Strip(t, i, room))
    decreases |t| - i
  {
    if i < |t| && room > 0 {
      var (c, j) := ToolScrub.Round(t, i);
      RoundEndsJoined(t, i);
      StripUnrolls(t, i, room);
      hide ToolScrub.Round, Strip;
      StripIsBytes(t, j, room - 1);
    }
  }

  lemma {:induction false} CollapseIsBytes(s: string, inSpace: bool)
    requires IsBytes(s)
    ensures IsBytes(Collapse(s, inSpace))
    decreases |s|
  {
    if s != [] {
      CollapseUnrolls(s, inSpace);
      CollapseIsBytes(s[1..], IsSpace(s[0]));
      hide Collapse;
    }
  }

  lemma ScrubIsBytes(t: string, cap: nat)
    requires cap > 0 && IsBytes(t)
    ensures IsBytes(Scrub(t, cap))
  {
    StripIsBytes(t, 0, cap - 1);
    CollapseIsBytes(Strip(t, 0, cap - 1), true);
    hide Strip, Collapse, TrimEnd;
  }

  // ------------------------------------------------- a scrubbed reply is a single line

  /** The scrubbed reply that the caption is made of. */
  function Scrubbed(reply: string): (b: seq<Byte>)
    requires IsBytes(reply)
  {
    ScrubIsBytes(reply, CAPTION_BUF);
    Bytes(Scrub(reply, CAPTION_BUF))
  }

  /** There is no line break in it, and it neither begins nor ends with a blank. */
  lemma ScrubbedIsOneLine(reply: string)
    requires IsBytes(reply)
    ensures var b := Scrubbed(reply);
            && |b| < CAPTION_BUF && LF !in b && (b != [] ==> b[0] != SPACE && b[|b| - 1] != SPACE)
            && forall i :: 0 < i < |b| && b[i] == SPACE ==> b[i - 1] != SPACE
  {
    ScrubIsBytes(reply, CAPTION_BUF);
    ScrubIsClean(reply, CAPTION_BUF);
    hide Scrub;
  }

  /** So a bullet can only stand in front of it. */
  lemma BulletOnlyInFront(b: seq<Byte>)
    requires LF !in b && !IsBullet(b, true)
    ensures NoBullets(b, true)
  {
    assert b != [] ==> b[0..] == b;
    forall p | 0 <= p < |b| ensures !BulletAt(b, true, p) {
      if p > 0 { assert b[p - 1] in b; }
    }
  }

  /** Marks taken out, what follows an ASCII character does not begin with a continuation byte. */
  lemma {:induction false} UnmarkedStartsNoTail(s: string)
    requires IsBytes(s) && Joined(s, true)
    ensures var u := Unmarked(Bytes(s)); u != [] ==> !Tail(u[0])
    decreases |s|
  {
    if s != [] && (s[0] == '*' || s[0] == '_') {
      assert Bytes(s)[1..] == Bytes(s[1..]);
      UnmarkedStartsNoTail(s[1..]);
    }
  }

  // ----------------------------------------------------------------- the whole pipeline

  /** The caption as the code makes it, and as it would be with a second buffer. */
  function Caption(reply: string, sameBuffer: bool): seq<Byte>
    requires IsBytes(reply)
  {
    Captioned(sameBuffer, Scrubbed(reply), CAPTION_BUF)
  }

  /** A reply that begins with a bullet: the bullet comes out, and the end of it once more for
      every byte that should have followed.  That is never UTF-8. */
  lemma CaptionOfBullet(reply: string)
    requires IsBytes(reply) && IsBullet(Scrubbed(reply), true)
    ensures |Scrubbed(reply)| > 2
    ensures Caption(reply, true) == BULLET + Smear(2, Min(|Scrubbed(reply)| - 2, 248))
    ensures !Utf8(Caption(reply, true))
  {
    var b := Scrubbed(reply);
    ScrubbedIsOneLine(reply);
    hide Scrubbed;
    assert b[1] == SPACE;
    BulletInFront(b, 252);
  }

  lemma BulletHarms(reply: string)
    requires IsBytes(reply) && Utf8(Bytes(reply)) && IsBullet(Scrubbed(reply), true)
    ensures !Right(Scrubbed(reply), true, 0, 252)
    ensures Caption(reply, true) != Caption(reply, false)
  {
    var r, b := Scrub(reply, CAPTION_BUF), Scrubbed(reply);
    CaptionOfBullet(reply);
    ScrubIsBytes(reply, CAPTION_BUF);
    Utf8IsJoined(reply);
    ScrubIsJoined(reply, CAPTION_BUF);
    JoinedFurtherOn(r, true, 2);
    assert b[2..] == Bytes(r[2..]);
    UnmarkedStartsNoTail(r[2..]);
    hide Scrub, Joined, Utf8, Scrubbed;
    BulletOvertakes(b);
    assert Smear(2, Min(|b| - 2, 248))[0] == 0xA2;
    InPlaceIsRightIff(b, true, 0, 252);
    CaptionInPlaceIff(b, CAPTION_BUF);
  }

  lemma BulletOvertakes(b: seq<Byte>)
    requires IsBullet(b, true) && |b| > 2
    ensures FirstOvertaking(b, true, 0, 252) == After(b[2..], 2, 248)
  {
    assert !IsHeading(b, true);
    assert InlineText.Round(b, true) == (BULLET, 2);
    OvertakingUnrolls(b, true, 0, 252, BULLET, 2);
    hide InlineText.Round, FirstOvertaking;
  }

  /** A reply in UTF-8, however long, cut in the middle of a character or not: its caption is
      what a second buffer would have given if and only if the scrubbed reply does not begin with
      a bullet, fits 252 bytes, and has nothing in it to remove or fold. */
  lemma CaptionIsRightIff(reply: string)
    requires IsBytes(reply) && Utf8(Bytes(reply))
    ensures var b := Scrubbed(reply);
            Caption(reply, true) == Caption(reply, false) <==>
              !IsBullet(b, true) && |b| <= CAPTION_BUF - 4 && Untouched(b, true)
  {
    var b := Scrubbed(reply);
    ScrubbedIsOneLine(reply);
    if IsBullet(b, true) {
      BulletHarms(reply);
    } else {
      BulletOnlyInFront(b);
      CaptionInPlaceWithoutBullets(b, CAPTION_BUF);
    }
    hide Scrubbed, IsBullet, Untouched;
  }

  /** The text of the caption, the ellipsis apart, is right if and only if the scrubbed reply does
      not begin with a bullet. */
  lemma CaptionTextIsRightIff(reply: string)
    requires IsBytes(reply) && Utf8(Bytes(reply))
    ensures Caption(reply, true) == Inline(Scrubbed(reply), true, CAPTION_BUF - 4) <==> !IsBullet(Scrubbed(reply), true)
  {
    var b := Scrubbed(reply);
    ScrubbedIsOneLine(reply);
    CaptionInPlaceIff(b, CAPTION_BUF);
    if IsBullet(b, true) {
      BulletHarms(reply);
    } else {
      BulletOnlyInFront(b);
      CaptionInPlaceWithoutBullets(b, CAPTION_BUF);
    }
    hide Scrubbed, IsBullet, Untouched;
  }

  // ------------------------------------------------------- which replies these are

  predicate BulletFirst(s: string) {
    s != [] &&
    if IsSpace(s[0]) then BulletFirst(s[1..])
    else (s[0] == '-' || s[0] == '*') && |s| > 1 && IsSpace(s[1]) && HasWord(s[2..])
  }

  lemma {:induction false} WordsBulletFirst(s: string)
    ensures var r := Words(s, true);
            |r| > 1 && (r[0] == '-' || r[0] == '*') && r[1] == ' ' <==> BulletFirst(s)
    decreases |s|
  {
    if s != [] {
      WordsUnroll(s, true);
      if IsSpace(s[0]) {
        WordsBulletFirst(s[1..]);
      } else if |s| > 1 {
        WordsUnroll(s[1..], false);
        assert s[1..][1..] == s[2..];
        WordsOrNothing(s[2..]);
      }
    }
    hide Words;
  }

  /** The first word written of the text is a lone dash or star, and there is another one. */
  predicate LeadsWithBullet(t: string, i: nat, room: nat)
    requires i <= |t|
    decreases |t| - i
  {
    i < |t| && room > 0 &&
    var (c, j) := ToolScrub.Round(t, i);
    if IsSpace(c) then LeadsWithBullet(t, j, room - 1)
    else
      && (c == '-' || c == '*') && j < |t| && room > 1
      && IsSpace(ToolScrub.Round(t, j).0) && WordFrom(t, ToolScrub.Round(t, j).1, room - 2)
  }

  lemma {:induction false} StripBulletFirst(t: string, i: nat, room: nat)
    requires i <= |t|
    ensures BulletFirst(Strip(t, i, room)) <==> LeadsWithBullet(t, i, room)
    decreases |t| - i
  {
    if i < |t| && room > 0 {
      var (c, j) := ToolScrub.Round(t, i);
      var s, rest := Strip(t, i, room), Strip(t, j, room - 1);
      StripUnrolls(t, i, room);
      assert s[1..] == rest && s[0] == c;
      if IsSpace(c) {
        StripBulletFirst(t, j, room - 1);
      } else if j < |t| && room > 1 {
        StripUnrolls(t, j, room - 1);
        WordFromIff(t, ToolScrub.Round(t, j).1, room - 2);
        assert s[1] == rest[0] && s[2..] == rest[1..] == Strip(t, ToolScrub.Round(t, j).1, room - 2);
      }
      hide ToolScrub.Round, Strip, HasWord, WordFrom;
    }
  }

  /** Seen from the reply: the caption is ruined if and only if its first word, markers apart, is
      a lone dash or star and another word follows within the room. */
  lemma BulletInReplyIff(reply: string)
    requires IsBytes(reply)
    ensures IsBullet(Scrubbed(reply), true) <==> LeadsWithBullet(reply, 0, CAPTION_BUF - 1)
  {
    ScrubIsBytes(reply, CAPTION_BUF);
    var s := Strip(reply, 0, CAPTION_BUF - 1);
    assert Scrub(reply, CAPTION_BUF) == Words(s, true);
    WordsBulletFirst(s);
    StripBulletFirst(reply, 0, CAPTION_BUF - 1);
    hide Scrub, Words, Strip, BulletFirst, LeadsWithBullet;
  }
}
