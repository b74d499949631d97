// A streamed answer on its way to the screen: the stream buffer of main/chat_msg_view.c
// and the text field of main/chat_msg_store.c that it is copied to after every piece.

module StreamedText {
  import opened Basics
  import opened ChatView
  import ChatStore

  /** A call of chat_msg_view_append_stream. */
  datatype Append = Append(text: string, heights: seq<nat>, visible: nat, scrollNow: int)

  /** What arrives in the first k pieces. */
  function Whole(parts: seq<Append>, k: nat): string
    requires k <= |parts|
  {
    if k == 0 then "" else Whole(parts, k - 1) + parts[k - 1].text
  }

  function CutToBuffer(text: string): string {
    text[..Min(|text|, 2047)]
  }

  /** The appends of one answer, each with the states the view goes through.  In between, the view
      may be refreshed, scrolled and invalidated; it is not begun anew nor ended. */
  ghost predicate Streams(parts: seq<Append>, runs: seq<seq<State>>) {
    && |runs| == |parts|
    && (forall k :: 0 <= k < |parts| ==>
          && runs[k] != []
          && IsRun(AppendCalls(runs[k][0], parts[k].text, parts[k].heights, parts[k].visible, parts[k].scrollNow), runs[k]))
    && (forall k :: 0 <= k < |parts| ==>
          if k == 0 then !runs[k][0].streaming
          else runs[k][0].streaming == End(runs[k - 1]).streaming && runs[k][0].buf == End(runs[k - 1]).buf)
  }

  function End(run: seq<State>): State
    requires run != []
  {
    run[|run| - 1]
  }

  /** What an append does to the buffer. */
  lemma AppendBuffers(s: State, part: Append, run: seq<State>)
    requires run != [] && run[0] == s
    requires IsRun(AppendCalls(s, part.text, part.heights, part.visible, part.scrollNow), run)
    ensures End(run).streaming
    ensures End(run).buf == Appended(if s.streaming then s.buf else "", part.text)
  {
    var calls := AppendCalls(s, part.text, part.heights, part.visible, part.scrollNow);
    var n := if s.streaming then 0 else 1;
    assert n == 1 ==> Step(run[0], run[1], calls[0]) && calls[0] == Beginning(|part.heights|);
    assert run[n].streaming && run[n].buf == if s.streaming then s.buf else "";
    if Fits(s, part.text) {
      assert calls[n] == Buffering(part.text) && calls[n + 1] == Invalidating(|part.heights| - 1);
      assert calls[n + 2] == Refreshing(part.heights, part.visible, part.scrollNow) && calls[n + 3] == Scrolling(false);
      assert Step(run[n], run[n + 1], calls[n]) && Step(run[n + 1], run[n + 2], calls[n + 1]);
      assert Step(run[n + 2], run[n + 3], calls[n + 2]) && Step(run[n + 3], run[n + 4], calls[n + 3]);
      assert |run| == n + 5;
      hide Refreshes, AppendCalls, Room, Invalidated;
    }
  }

  lemma AppendedIsCut(whole: string, text: string)
    ensures Appended(CutToBuffer(whole), text) == CutToBuffer(whole + text)
    ensures Room(CutToBuffer(whole), text) > 0 <==> text != "" && |whole| < STREAM_BUF - 1
  {
  }

  /** In whatever pieces an answer arrives: after each the buffer holds the whole of it so far, cut
      to its size; and there was room for some of a piece unless the buffer was full. */
  lemma {:induction false} StreamIsCut(parts: seq<Append>, runs: seq<seq<State>>, k: nat)
    requires Streams(parts, runs) && k < |parts|
    ensures End(runs[k]).streaming && End(runs[k]).buf == CutToBuffer(Whole(parts, k + 1))
    ensures Fits(runs[k][0], parts[k].text) <==> parts[k].text != "" && |Whole(parts, k)| < 2047
  {
    AppendBuffers(runs[k][0], parts[k], runs[k]);
    AppendedIsCut(Whole(parts, k), parts[k].text);
    assert CutToBuffer("") == "";
    hide IsRun, Appended, CutToBuffer, Room, Whole;
    WholeUnrolls(parts, k);
    if k > 0 { StreamIsCut(parts, runs, k - 1); }
  }

  lemma WholeUnrolls(parts: seq<Append>, k: nat)
    requires k < |parts|
    ensures Whole(parts, 0) == "" && Whole(parts, k + 1) == Whole(parts, k) + parts[k].text
  {
  }

  /** The store after the first k appends, if nothing else is done to it. */
  ghost function StoreAfter(m: ChatStore.Model, parts: seq<Append>, runs: seq<seq<State>>, k: nat): ChatStore.Model
    requires Streams(parts, runs) && k <= |parts|
  {
    if k == 0 then m
    else
      var before := StoreAfter(m, parts, runs, k - 1);
      if Fits(runs[k - 1][0], parts[k - 1].text) then ChatStore.UpdateLast(before, End(runs[k - 1]).buf) else before
  }

  /** The messages with the newest text replaced by the beginning of this one. */
  function WithText(msgs: seq<ChatStore.Message>, text: string): seq<ChatStore.Message>
    requires msgs != []
  {
    var n := |msgs| - 1;
    msgs[n := msgs[n].(text := text[..Min(|text|, 511)], height := -1)]
  }

  lemma OnlyTheBeginning(msgs: seq<ChatStore.Message>, whole: string, text: string)
    requires msgs != []
    ensures WithText(msgs, CutToBuffer(whole)) == WithText(msgs, whole)
    ensures |whole| >= STREAM_BUF - 1 ==> WithText(msgs, whole + text) == WithText(msgs, whole)
  {
    var cut := CutToBuffer(whole);
    assert cut[..Min(|cut|, 511)] == whole[..Min(|whole|, 511)];
    assert |whole| >= STREAM_BUF - 1 ==> (whole + text)[..511] == whole[..511];
  }

  function WithAnswer(m: ChatStore.Model, whole: string): ChatStore.Model
    requires m.msgs != []
  {
    if whole == "" then m else m.(msgs := WithText(m.msgs, whole))
  }

  /** The text that is stored, and then shown: the first 511 characters of what has arrived, in
      the newest message and in no other; and nothing until something arrives. */
  lemma {:induction false} StoredIsCut(m: ChatStore.Model, parts: seq<Append>, runs: seq<seq<State>>, k: nat)
    requires Streams(parts, runs) && k <= |parts| && m.msgs != []
    ensures StoreAfter(m, parts, runs, k) == WithAnswer(m, Whole(parts, k))
  {
    hide Streams, Fits, CutToBuffer, WithAnswer, ChatStore.UpdateLast;
    if k > 0 {
      StoredIsCut(m, parts, runs, k - 1);
      StreamIsCut(parts, runs, k - 1);
      OnePieceMore(m, Whole(parts, k - 1), parts[k - 1].text);
    } else {
      NothingYet(m);
    }
  }

  lemma NothingYet(m: ChatStore.Model)
    requires m.msgs != []
    ensures WithAnswer(m, "") == m
  {
  }

  lemma OnePieceMore(m: ChatStore.Model, whole: string, text: string)
    requires m.msgs != []
    ensures WithAnswer(m, whole).msgs != []
    ensures WithAnswer(m, whole + text) ==
              if text != "" && |whole| < STREAM_BUF - 1
              then ChatStore.UpdateLast(WithAnswer(m, whole), CutToBuffer(whole + text)) else WithAnswer(m, whole)
  {
    OnlyTheBeginning(m.msgs, whole + text, whole);
    OnlyTheBeginning(m.msgs, whole, text);
    assert text == "" ==> whole + text == whole;
    UpdatesLast(m, whole, CutToBuffer(whole + text));
    hide WithText, ChatStore.UpdateLast, CutToBuffer;
  }

  lemma UpdatesLast(m: ChatStore.Model, before: string, text: string)
    requires m.msgs != []
    ensures ChatStore.UpdateLast(m, text) == m.(msgs := WithText(m.msgs, text))
    ensures ChatStore.UpdateLast(m.(msgs := WithText(m.msgs, before)), text) == m.(msgs := WithText(m.msgs, text))
  {
    var size := ChatStore.TEXT_LEN;
    assert ChatStore.CopyStr(text, size) == text[..Min(|text|, 511)];
  }
}
