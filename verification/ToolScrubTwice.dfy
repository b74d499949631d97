// Scrubbing a text that has been scrubbed before: md_strip_tool_markers
// (main/md_strip.c) leaves some tags behind that it would remove another time.

module ToolScrubTwice {
  import opened CString
  import opened ToolScrub

  // ------------------------------------------------------------ which texts leave a tag

  /** The name of a tag after a `<`, whatever follows it. */
  predicate NameAt(t: string, i: nat) {
    i + 5 <= |t| && t[i] == '<' && LowerAll(t[i + 1..i + 5]) in TAGS
  }

  predicate TagAt(t: string, i: nat) {
    Opens(t, i, "tool") || Opens(t, i, "args")
  }

  /** Of what is read from i on, something other than a blank is written within the room. */
  predicate WordFrom(t: string, i: nat, room: nat)
    requires i <= |t|
    decreases |t| - i
  {
    i < |t| && room > 0 && (!IsSpace(Round(t, i).0) || WordFrom(t, Round(t, i).1, room - 1))
  }

  /** At i there is the name of a tag, then a line break or a region, and then a word. */
  predicate LeavesTagAt(t: string, i: nat, room: nat) {
    && NameAt(t, i) && i + 5 < |t| && room > 5
    && (t[i + 5] == '\n' || t[i + 5] == '\r' || TagAt(t, i + 5))
    && WordFrom(t, i + 5, room - 5)
  }

  /** There is such a place among those read from i on. */
  predicate LeavesTag(t: string, i: nat, room: nat)
    requires i <= |t|
    decreases |t| - i
  {
    i < |t| && room > 0 && (LeavesTagAt(t, i, room) || LeavesTag(t, Round(t, i).1, room - 1))
  }

  // ------------------------------------------- a scrubbed text that is scrubbed again

  lemma TagIff(t: string, i: nat)
    ensures TagAt(t, i) <==> NameAt(t, i) && i + 5 < |t| && t[i + 5] in {'>', ' ', '\t'}
  {
    hide LowerAll;
    assert |"tool"| == 4 && |"args"| == 4;
  }

  lemma TagIsLong(t: string, i: nat)
    requires i < |t| && TagAt(t, i)
    ensures Round(t, i).1 > i + 1
  {
    assert PastGt(t, i) == PastGt(t, i + 1);
    hide PastGt, PastClose, LowerAll;
  }

  /** Only a text without tags keeps its length. */
  lemma {:induction false} SameLengthIsPlain(t: string, i: nat, room: nat)
    requires i <= |t| && |Strip(t, i, room)| == |t| - i
    ensures NoTag(t, i, |t|)
    decreases |t| - i
  {
    hide Round, Opens, IsSpace;
    if i < |t| {
      StripUnrolls(t, i, room);
      hide Strip;
      if TagAt(t, i) { TagIsLong(t, i); } else { SameLengthIsPlain(t, i + 1, room - 1); }
    }
  }

  lemma {:induction false} SpacedIsKept(s: string, inSpace: bool)
    requires Spaced(s, inSpace)
    ensures Collapse(s, inSpace) == s
    decreases |s|
  {
    if s != [] {
      var rest := s[1..];
      assert forall k :: 0 <= k < |rest| ==> rest[k] == s[k + 1];
      SpacedIsKept(rest, IsSpace(s[0]));
    }
  }

  lemma ScrubbedAgain(text: string, cap: nat)
    requires cap > 0
    ensures var r := Scrub(text, cap); Scrub(r, cap) == r <==> NoTag(r, 0, |r|)
  {
    var r := Scrub(text, cap);
    ScrubIsClean(text, cap);
    assert TrimEnd(r) == r;
    hide Opens, LowerAll, Collapse, Strip, MarkerAt, Spaced, IsSpace, TrimEnd;
    if NoTag(r, 0, |r|) {
      PlainTextIsCopied(r, 0, |r|, cap - 1);
      assert Strip(r, 0, cap - 1) == r;
      SpacedIsKept(r, true);
    } else if Scrub(r, cap) == r {
      SameLengthIsPlain(r, 0, cap - 1);
    }
  }

  // ------------------------------------------------------- tags the second pass makes

  /** The second pass, on what the first one wrote. */
  function Words(s: string, inSpace: bool): string {
    TrimEnd(Collapse(s, inSpace))
  }

  predicate HasWord(s: string) {
    s != [] && (!IsSpace(s[0]) || HasWord(s[1..]))
  }

  lemma {:induction false} TrimEndUnrolls(c: char, s: string)
    ensures TrimEnd([c] + s) == if c == ' ' && TrimEnd(s) == [] then [] else [c] + TrimEnd(s)
    decreases |s|
  {
    var all := [c] + s;
    if s != [] {
      assert all[..|all| - 1] == [c] + s[..|s| - 1] && all[|all| - 1] == s[|s| - 1];
      TrimEndUnrolls(c, s[..|s| - 1]);
    } else {
      assert all[..0] == [];
    }
  }

  lemma {:induction false} WordsUnroll(s: string, inSpace: bool)
    requires s != []
    ensures !IsSpace(s[0]) ==> Words(s, inSpace) == [s[0]] + Words(s[1..], false)
    ensures IsSpace(s[0]) && (inSpace || !HasWord(s[1..])) ==> Words(s, inSpace) == Words(s[1..], true)
    ensures IsSpace(s[0]) && !inSpace && HasWord(s[1..]) ==> Words(s, inSpace) == [' '] + Words(s[1..], true)
  {
    WordsOrNothing(s[1..]);
    TrimEndUnrolls(if IsSpace(s[0]) then ' ' else s[0], Collapse(s[1..], IsSpace(s[0])));
    assert [] + Collapse(s[1..], true) == Collapse(s[1..], true);
    hide TrimEnd;
  }

  lemma {:induction false} WordsOrNothing(s: string)
    ensures Words(s, true) != [] <==> HasWord(s)
    decreases |s|
  {
    if s != [] {
      if IsSpace(s[0]) {
        WordsOrNothing(s[1..]);
        assert [] + Collapse(s[1..], true) == Collapse(s[1..], true);
      } else {
        TrimEndUnrolls(s[0], Collapse(s[1..], false));
      }
    }
    hide TrimEnd;
  }

  /** A tag stands at the head of the text once its blanks are collapsed. */
  predicate HeadsTag(s: string) {
    NameAt(s, 0) && |s| > 5 && (s[5] == '>' || (IsSpace(s[5]) && HasWord(s[6..])))
  }

  predicate MakesTag(s: string) {
    s != [] && (HeadsTag(s) || MakesTag(s[1..]))
  }

  lemma NameHasNoSpace(s: string)
    requires NameAt(s, 0)
    ensures NoSpace(s, 0, 5)
  {
    forall j | 0 <= j < 5 ensures !IsSpace(s[j]) {
      if 0 < j { assert LowerAll(s[1..5])[j - 1] == Lower(s[j]); }
    }
  }

  /** Characters at the head that are no blanks stay there. */
  lemma {:induction false} WordStays(s: string, inSpace: bool, m: nat)
    requires 0 < m && NoSpace(s, 0, m)
    ensures Words(s, inSpace) == s[..m] + Words(s[m..], false)
    decreases m
  {
    WordsUnroll(s, inSpace);
    HeadMoves(s, m, Words(s[m..], false));
    if m > 1 {
      assert forall j :: 0 <= j < m - 1 ==> s[1..][j] == s[j + 1];
      WordStays(s[1..], false, m - 1);
    }
    hide Words, IsSpace;
  }

  lemma HeadMoves(s: string, m: nat, after: string)
    requires 0 < m <= |s|
    ensures [s[0]] + (s[1..][..m - 1] + after) == s[..m] + after && s[1..][m - 1..] == s[m..]
    ensures m == 1 ==> s[1..] == s[m..] && [s[0]] + after == s[..m] + after
  {
    assert s[..m] == [s[0]] + s[1..][..m - 1];
  }

  /** And what stands there without blanks was there, behind blanks at most. */
  lemma {:induction false} WordWasThere(s: string, m: nat)
    requires NoSpace(Words(s, false), 0, m)
    ensures NoSpace(s, 0, m) && s[..m] == Words(s, false)[..m]
    decreases m
  {
    if m > 0 {
      assert s != [];
      WordsUnroll(s, false);
      hide Words;
      var r, rest := Words(s, false), Words(s[1..], false);
      assert !IsSpace(r[0]);
      assert r == [s[0]] + rest;
      forall j | 0 <= j < m - 1 ensures !IsSpace(rest[j]) { assert rest[j] == r[j + 1]; }
      WordWasThere(s[1..], m - 1);
      forall j | 0 <= j < m ensures !IsSpace(s[j]) && s[j] == r[j] {
        if j > 0 {
          assert s[1..][j - 1] == s[j];
          assert s[1..][..m - 1][j - 1] == rest[..m - 1][j - 1];
        }
      }
    }
  }

  predicate TagsIn(r: string) {
    r != [] && (TagAt(r, 0) || TagsIn(r[1..]))
  }

  lemma TagFurtherOn(r: string, i: nat)
    requires i < |r|
    ensures TagAt(r[i..], 0) <==> TagAt(r, i)
  {
    TagIff(r, i);
    TagIff(r[i..], 0);
    if i + 5 <= |r| { assert r[i..][1..5] == r[i + 1..i + 5]; }
  }

  lemma {:induction false} TagsInIff(r: string, i: nat)
    requires i <= |r|
    ensures TagsIn(r[i..]) <==> !NoTag(r, i, |r|)
    decreases |r| - i
  {
    hide Opens;
    if i < |r| {
      TagsInIff(r, i + 1);
      TagFurtherOn(r, i);
      assert r[i..][1..] == r[i + 1..];
    }
  }

  lemma NamesAgree(r: string, i: nat, s: string)
    requires i + 5 <= |r| && |s| >= 5 && r[i..i + 5] == s[..5]
    ensures NameAt(r, i) <==> NameAt(s, 0)
  {
    assert r[i + 1..i + 5] == r[i..i + 5][1..] && s[1..5] == s[..5][1..];
    assert r[i] == r[i..i + 5][0] && s[0] == s[..5][0];
    hide LowerAll;
  }

  lemma NoMarkerAfterName(s: string)
    requires NameAt(s, 0) && |s| > 5 && forall tag :: tag in TAGS ==> !MarkerAt(s, 0, tag)
    ensures s[5] != '>'
  {
    var tag := LowerAll(s[1..5]);
    assert tag in TAGS && |tag| == 4;
    assert !MarkerAt(s, 0, tag);
    hide LowerAll;
  }

  lemma NameStays(s: string, inSpace: bool)
    requires s != [] && !IsSpace(s[0])
    ensures var r := Words(s, inSpace);
            NameAt(r, 0) <==> NameAt(s, 0)
  {
    var r := Words(s, inSpace);
    WordsUnroll(s, inSpace);
    WordsUnroll(s, false);
    hide Words, IsSpace;
    if NameAt(r, 0) {
      NameHasNoSpace(r);
      WordWasThere(s, 5);
      NamesAgree(r, 0, s);
    }
    if NameAt(s, 0) {
      NameHasNoSpace(s);
      WordStays(s, inSpace, 5);
      NamesAgree(r, 0, s);
    }
  }

  /** What follows a name decides whether it is a tag once blanks are collapsed. */
  lemma HeadTagIff(s: string, inSpace: bool)
    requires s != [] && !IsSpace(s[0])
    ensures TagAt(Words(s, inSpace), 0) <==> HeadsTag(s)
  {
    var r := Words(s, inSpace);
    NameStays(s, inSpace);
    TagIff(r, 0);
    if NameAt(s, 0) {
      NameHasNoSpace(s);
      WordStays(s, inSpace, 5);
      var after := Words(s[5..], false);
      hide TagAt, NameAt, Words;
      assert |r| == 5 + |after| && (after != [] ==> r[5] == after[0]);
      if |s| > 5 {
        WordsUnroll(s[5..], false);
        assert s[5..][1..] == s[6..];
        WordsOrNothing(s[6..]);
      }
    }
  }

  /** The tags after the second pass, on what the first one wrote. */
  lemma {:induction false} WordsMakeTag(s: string, inSpace: bool)
    ensures TagsIn(Words(s, inSpace)) <==> MakesTag(s)
    decreases |s|
  {
    if s != [] {
      WordsUnroll(s, inSpace);
      WordsMakeTag(s[1..], IsSpace(s[0]));
      var rest := Words(s[1..], IsSpace(s[0]));
      if IsSpace(s[0]) {
        assert ([' '] + rest)[1..] == rest;
      } else {
        HeadTagIff(s, inSpace);
        assert ([s[0]] + rest)[1..] == rest;
      }
      hide Words, LowerAll;
    }
  }

  // ---------------------------------------------------------- tags the first pass makes

  lemma {:induction false} WordFromIff(t: string, i: nat, room: nat)
    requires i <= |t|
    ensures HasWord(Strip(t, i, room)) <==> WordFrom(t, i, room)
    decreases |t| - i
  {
    if i < |t| && room > 0 {
      StripUnrolls(t, i, room);
      WordFromIff(t, Round(t, i).1, room - 1);
      var rest := Strip(t, Round(t, i).1, room - 1);
      assert ([Round(t, i).0] + rest)[1..] == rest;
      hide Round, Strip;
    }
  }

  /** The five characters of a name that begins no tag are copied. */
  lemma NameIsCopied(t: string, i: nat, room: nat)
    requires NameAt(t, i) && !TagAt(t, i) && room >= 5
    ensures Strip(t, i, room) == t[i..i + 5] + Strip(t, i + 5, room - 5)
  {
    forall p | i < p < i + 5 ensures t[p] != '<' {
      assert LowerAll(t[i + 1..i + 5])[p - i - 1] == Lower(t[p]);
    }
    forall p | i <= p < i + 5 ensures !Opens(t, p, "tool") && !Opens(t, p, "args") {
      if i == p { assert !TagAt(t, p); } else { assert t[p] != '<'; }
    }
    hide Opens, LowerAll, Strip;
    PlainTextIsCopied(t, i, i + 5, room);
  }

  lemma NameWasThere(t: string, i: nat, room: nat)
    requires i <= |t| && NameAt(Strip(t, i, room), 0)
    ensures NameAt(t, i) && !TagAt(t, i) && room >= 5
  {
    var s := Strip(t, i, room);
    NameHasNoSpace(s);
    StripCopies(t, i, room, 5);
    hide Strip, Opens, NoSpace;
    NamesAgree(t, i, s);
  }

  lemma StripHeadIff(t: string, i: nat, room: nat)
    requires i < |t| && room > 0
    ensures HeadsTag(Strip(t, i, room)) <==> LeavesTagAt(t, i, room)
  {
    var s := Strip(t, i, room);
    TagIff(t, i);
    if NameAt(s, 0) { NameWasThere(t, i, room); }
    hide TagAt;
    if NameAt(t, i) && !TagAt(t, i) && room >= 5 { HeadsTagIff(t, i, room); }
    hide NameAt, WordFrom, HasWord, Strip;
    assert HeadsTag(s) ==> NameAt(s, 0);
    assert LeavesTagAt(t, i, room) ==> NameAt(t, i) && !TagAt(t, i);
  }

  lemma HeadsTagIff(t: string, i: nat, room: nat)
    requires NameAt(t, i) && !TagAt(t, i) && room >= 5
    ensures HeadsTag(Strip(t, i, room)) <==> LeavesTagAt(t, i, room)
  {
    var s, after := Strip(t, i, room), Strip(t, i + 5, room - 5);
    NameIsCopied(t, i, room);
    assert s[5..] == after;
    NamesAgree(t, i, s);
    TagIff(t, i);
    forall tag | tag in TAGS ensures !MarkerAt(s, 0, tag) { StripHeadIsNoMarker(t, i, room, tag); }
    WordFromIff(t, i + 5, room - 5);
    if i + 5 < |t| && room > 5 {
      NoMarkerAfterName(s);
      StripUnrolls(t, i + 5, room - 5);
      assert s[5] == after[0] == Round(t, i + 5).0;
      assert HasWord(after) <==> !IsSpace(s[5]) || HasWord(s[6..]) by { assert after[1..] == s[6..]; }
    }
    hide WordFrom, Strip, Opens, NameAt, MarkerAt, PastRegion;
  }

  lemma {:induction false} StripMakesTag(t: string, i: nat, room: nat)
    requires i <= |t|
    ensures MakesTag(Strip(t, i, room)) <==> LeavesTag(t, i, room)
    decreases |t| - i
  {
    if i < |t| && room > 0 {
      StripUnrolls(t, i, room);
      StripHeadIff(t, i, room);
      StripMakesTag(t, Round(t, i).1, room - 1);
      var rest := Strip(t, Round(t, i).1, room - 1);
      assert ([Round(t, i).0] + rest)[1..] == rest;
      hide Round, Strip, HeadsTag, LeavesTagAt;
    }
  }

  /** Scrubbing a scrubbed text changes nothing if and only if the text has no tag name, read
      as text, that is followed by a line break or a region and then by a word within the room. */
  lemma ScrubbingTwiceIsOnceIff(t: string, cap: nat)
    requires cap > 0
    ensures Scrub(Scrub(t, cap), cap) == Scrub(t, cap) <==> !LeavesTag(t, 0, cap - 1)
  {
    var s := Strip(t, 0, cap - 1);
    assert Scrub(t, cap) == Words(s, true);
    ScrubbedAgain(t, cap);
    TagsInIff(Scrub(t, cap), 0);
    assert Scrub(t, cap)[0..] == Scrub(t, cap);
    WordsMakeTag(s, true);
    StripMakesTag(t, 0, cap - 1);
    hide Scrub, Words, Strip, TagsIn, MakesTag, LeavesTag, NoTag;
  }

  // ------------------------------------------------------------ one text of each kind

  lemma {:induction false} CollapseWord(word: string, s: string, inSpace: bool)
    requires word != "" && NoSpace(word, 0, |word|)
    ensures Collapse(word + s, inSpace) == word + Collapse(s, false)
    decreases |word|
  {
    var all := word + s;
    assert all[1..] == word[1..] + s && all[0] == word[0] && !IsSpace(word[0]);
    CollapseUnrolls(all, inSpace);
    if |word| > 1 {
      assert forall j :: 0 <= j < |word[1..]| ==> word[1..][j] == word[j + 1];
      CollapseWord(word[1..], s, false);
      assert word == [word[0]] + word[1..];
    } else {
      assert word[1..] + s == s;
    }
    hide Collapse;
  }

  const SPLIT_TAG: string := "<tool" + ("\n" + "x>")
  const WHOLE_TAG: string := "<tool" + (" " + "x>")

  lemma BrokenTagIsText()
    ensures Strip(SPLIT_TAG, 0, 63) == SPLIT_TAG
  {
    var t := SPLIT_TAG;
    assert t[5] == '\n' && |t| == 8;
    PlainTextIsCopied(t, 0, 8, 63);
    assert t[0..8] == t && Strip(t, 8, 55) == [] && t + [] == t;
    hide Strip;
  }

  lemma BreakBecomesSpace()
    ensures Collapse(SPLIT_TAG, true) == WHOLE_TAG
  {
    var tail := "\n" + "x>";
    CollapseWord("<tool", tail, true);
    CollapseUnrolls(tail, false);
    assert tail[1..] == "x>" && CollapsedHead(tail, false) == " ";
    CollapseWord("x>", "", true);
    assert "x>" + "" == "x>" && Collapse("", false) == "";
    hide Collapse;
  }

  lemma OnceMakesATag()
    ensures Scrub(SPLIT_TAG, 64) == WHOLE_TAG
  {
    BrokenTagIsText();
    BreakBecomesSpace();
    hide Collapse, Strip;
    assert WHOLE_TAG[7] == '>' && |WHOLE_TAG| == 8;
    assert TrimEnd(WHOLE_TAG) == WHOLE_TAG;
  }

  /** A tag that takes the whole text with it. */
  lemma AgainRemovesIt(t: string)
    requires |t| > 5 && t[..6] == "<tool" + " " && PastGt(t, 0) == |t|
    ensures Scrub(t, 64) == ""
  {
    assert t[1..5] == t[..6][1..5] == "tool" && t[5] == t[..6][5] && t[0] == t[..6][0];
    assert LowerAll("tool") == "tool";
    assert Opens(t, 0, "tool");
    assert PastClose(t, |t|, "tool") == |t|;
    assert Round(t, 0) == (' ', |t|);
    StripUnrolls(t, 0, 63);
    assert Strip(t, |t|, 62) == [] && [' '] + [] == " ";
    assert Collapse(" ", true) == "";
    hide Strip, Collapse, Opens, PastClose;
  }

  /** A tag name followed by a line break, which the second pass turns into a space. */
  lemma ScrubbingTwiceDiffers()
    ensures Scrub(SPLIT_TAG, 64) == WHOLE_TAG && Scrub(Scrub(SPLIT_TAG, 64), 64) == ""
  {
    OnceMakesATag();
    var t := WHOLE_TAG;
    assert t[7] == '>' && |t| == 8 && t[..6] == "<tool" + " ";
    FirstGt(t, 0, 7);
    AgainRemovesIt(t);
    hide Scrub, PastGt;
  }

  const REGION_TAG: string := "<tool" + "<args>x</args>" + "y"
  const JOINED_TAG: string := "<tool" + (" " + "y")

  lemma RegionIsRead()
    ensures |REGION_TAG| == 20 && NameAt(REGION_TAG, 0) && !TagAt(REGION_TAG, 0)
    ensures IsRegion(REGION_TAG, 5, 10, 12, "args") && Strip(REGION_TAG, 19, 57) == "y"
  {
    var t := REGION_TAG;
    assert |t| == 20 && t[1..5] == "tool" && t[6..10] == "args" && t[14..18] == "args";
    assert LowerAll("tool") == "tool" && LowerAll("args") == "args";
    TagIff(t, 0);
    assert Round(t, 19) == (t[19], 20);
    StripUnrolls(t, 19, 57);
    assert Strip(t, 20, 56) == [] && [t[19]] + [] == "y";
    hide PastClose, PastGt;
  }

  lemma RegionBecomesSpace()
    ensures Strip(REGION_TAG, 0, 63) == JOINED_TAG
  {
    var t := REGION_TAG;
    RegionIsRead();
    NameIsCopied(t, 0, 63);
    RegionIsOneSpace(t, 5, 10, 12, "args", 58, "<tool");
    assert t[0..5] == "<tool";
    assert "<tool" + " " + "y" == "<tool" + (" " + "y");
    hide Strip, IsRegion, TagAt, NameAt;
  }

  lemma RegionMakesATag()
    ensures Scrub(REGION_TAG, 64) == JOINED_TAG
  {
    RegionBecomesSpace();
    JoinedIsSpaced();
    SpacedIsKept(JOINED_TAG, true);
    hide Collapse, Strip;
    assert TrimEnd(JOINED_TAG) == JOINED_TAG;
  }

  lemma JoinedIsSpaced()
    ensures Spaced(JOINED_TAG, true) && |JOINED_TAG| == 7 && JOINED_TAG[6] == 'y'
  {
    assert |JOINED_TAG| == 7;
  }

  /** A tag name followed by a region, whose space completes it. */
  lemma RegionCompletesATag()
    ensures Scrub(REGION_TAG, 64) == JOINED_TAG && Scrub(Scrub(REGION_TAG, 64), 64) == ""
  {
    RegionMakesATag();
    var t := JOINED_TAG;
    assert |t| == 7 && t[..6] == "<tool" + " ";
    assert PastGt(t, 7) == 7 && PastGt(t, 6) == 7 && PastGt(t, 5) == 7 && PastGt(t, 4) == 7;
    assert PastGt(t, 3) == 7 && PastGt(t, 2) == 7 && PastGt(t, 1) == 7;
    AgainRemovesIt(t);
    hide Scrub;
  }
}
