# Verification of TinkerTab's algorithms and protocols

TinkerTab is firmware for an ESP32-P4 tablet. Most of it is device glue, but
it contains a number of self-contained algorithms and crash or concurrency
protocols. This project models those in Dafny and proves what they promise:
for every input, every run, every interleaving and every point at which power
may fail. Where the code does not keep a promise made in its own comments or
headers, the exact condition under which it does is proved instead, together
with an input on which it fails.

    dafny verify dfyconfig.toml

checks everything.

## The modules

Code that works step by step is modelled in that form: objects with fields,
arrays updated in place, loops. Each such method is proved against a function
of its inputs or of the old state, and the theorems are about that function.
Protocols with crashes or concurrency are state machines, one store, load, NVS
write or statement per step.

| file | what it is about |
|---|---|
| `ImaAdpcm.dfy`, `ImaSteps.dfy` | The audio codec, and the law its step table follows. Round trip for every block and every output capacity; the quantisation bound; convergence on constant input from any state. |
| `SseStream.dfy` | The incremental server-sent-events parser. However the stream is chunked, it agrees with a whole-stream specification; printing then parsing gives the payloads back exactly when they are printable. |
| `EventSource.dfy` | The event stream interpretation of the WHATWG HTML Standard (sections 9.2.5 and 9.2.6), and the streams on which the parser agrees with it. |
| `MediaCache.dfy`, `MediaLru.dfy` | The image cache on its arrays, and what its slot table amounts to over a run: a recency list of at most five downloads. |
| `TouchSeqlock.dfy`, `TouchGesture.dfy` | The touch-injection seqlock under every interleaving, in the intended form and in the literal one; and the swipe published through it. |
| `OtaSchedule.dfy`, `OtaVerify.dfy` | Scheduling an update across reboots and crashes that may keep any part of the uncommitted writes; the digest check of the image. |
| `RollbackNotice.dfy` | The notice that an update was reverted, with a two-slot bootloader. |
| `ToolScrub.dfy`, `ToolScrubTwice.dfy` | The tool-call marker scrubber, on one buffer or two; and exactly which texts it leaves a tag in that it would remove another time. |
| `InlineText.dfy`, `InlineInPlace.dfy`, `InlineStrip.dfy` | The markdown stripper: what comes out of a text, UTF-8 included; what comes out on one buffer, and exactly when that is right; the code, and exactly when the ellipsis comes. |
| `VoiceCaption.dfy` | The two together, as captions of spoken replies are made: exactly which replies a caption gets wrong. |
| `ChatStore.dfy`, `ChatView.dfy`, `StreamedText.dfy` | The message ring against a bounded sequence, the recycled bubble slots, and a streamed answer on its way through both. |
| `LogRing.dfy` | The log ring and its tail. |
| `DailyBudget.dfy` | The daily spend in NVS with crashes between writes, and the day index. |
| `Basics.dfy`, `CString.dfy` | Small notions, and bytes, NUL-terminated text and letter case, used by several of these. |
| `UrlDecode.dfy` | The two in-place percent-decoders, one specification, and its inverse. |

## Where the code and its own documentation differ

The model follows the code in each case.

- `main/debug_server_input.c:85-92`: the comment says that the reader spins until the sequence word is even; the `continue` goes to the loop test, which compares with the `seq_after` of the previous pass. `LiteralCanTear` is an interleaving in which a tuple is returned that nobody published. A read that leaves on the word it began with is whole (`NotStaleIsWhole`); in general an interleaving never tears, whatever tuples are published, if and only if the four fields were loaded from one publish (`LiteralWholeIffSourcesAgree`): with one publish in flight, if and only if every field was loaded after its store, or every field before it (`OneInFlight`). Leaving on a stale word can be harmless (`StaleCanBeWhole`). While a swipe is injected, the intended loop sees nothing but the swipe (`ReaderSeesOnlyTheSwipe`); the literal one can see a lift at a point off the path (`LiteralReaderSeesMore`), but not when its fields come from one publish or all from points on the way (`LiteralReaderSees`, `EvenLiteralReaderSees`).
- `main/md_strip.h:15` promises that md_strip_inline works in place. A bullet takes two bytes and writes four; once the writing has overtaken the reading, the loop copies the end of its own bullet to the end of the text. On one buffer it gives what it gives on two if and only if no bullet overtakes while text and room are left, or what follows the first that does, marks taken out, begins with the very bytes put there (`InPlaceIsRightIff`; on UTF-8 text those can only be blanks, `InPlaceOnUtf8`). A text that starts with a bullet loses the rest and is not even UTF-8 any more (`BulletInFront`, `InPlaceDestroys`); a text without bullets is safe (`NoBulletNoOvertaking`).
- `main/md_strip.h:21-22` promises an ellipsis when the text was truncated. It comes if and only if more bytes are dropped than bullets add (`EllipsisIffMoreDropped`). A text longer than the room always gets one; a text that is cut though it was shorter than the room by three bytes or more never does; a text that comes out in full is told apart if and only if it does not come out shorter (`EllipsisTellsIff`). Without bullets the promise is kept exactly when the text is cut or nothing in it is removed or folded (`EllipsisWithoutBullets`). `CutWithoutEllipsis`, `EllipsisWithoutCut` and `MarkWithoutEllipsis` are texts for the ways it fails. On one buffer, which is how `main/ui_voice.c:609`, `1442` and `1518` call it, the length it compares with is that of the result, and no ellipsis ever comes: `CaptionInPlaceIff` says exactly when the caption is nevertheless what two buffers give. What they strip has been scrubbed before and is a single line, so a bullet can only stand in front: a caption is what it should be, the ellipsis apart, if and only if the reply does not begin with a bullet (`CaptionTextIsRightIff`, `BulletInReplyIff`), and with it if and only if it also fits and has nothing in it to remove or fold (`CaptionIsRightIff`). A reply that begins with a bullet gives a caption that is not UTF-8 (`CaptionOfBullet`).
- `main/chat_msg_view.c:536-537` takes stripped text to be no longer than the text. It is, if and only if its bullets add no more than is dropped (`NotLongerIff`); a lone bullet doubles in length (`BulletsGrow`).
- `main/md_strip.c:170-217` can leave a tag that scrubbing again would remove, with what follows it: one whose name was followed by a line break or by a region, both of which end up as the space that completes it (`ScrubbingTwiceIsOnceIff`, `ScrubbingTwiceDiffers`, `RegionCompletesATag`).
- `main/ota.c:456-459`: a sha that does not fit 64 characters would be dropped and the image applied unverified (`AppliedShaIffItFits`); a url that does not fit 255 would mean that the schedule is dropped (`UndisturbedBootAppliesIffUrlFits`, `CommittedThenBooted`). The callers' own buffers are of these sizes (`main/ota.h:13-18`, `main/ui_settings.c:295-296`), so none of them supplies such strings.
- `main/ota.c:400-441` writes the flag last and `main/ota.c:461-464` erases it first, so whatever part of the uncommitted writes survives, a new schedule is up only when it is complete. But a schedule may be made while the flag of another is up, after a boot without network (`main/main.c:521`). If commits are atomic that does no harm (`AtomicCommitsNeverMix`, `AtomicCommitsKeepKeys`). If a part of the writes can survive, the boot after an interruption applies, for the schedule whose flag is up, a job that is not its own if and only if the part kept makes that flag hand out something else (`InterruptedSafelyIff`): after one write, when the new url fits and, with the old sha, is not the old job; after two, when the new url fits and the new job is not the old one; never after none or all three (`MixesIff`). `OutOfOrderGoesStale` is such a run: the new url with the old sha.
- `main/ota.c:322-328` takes a difference between the recorded version and the running one for a rollback. The recorded name is the app descriptor's, the running one is `TAB5_FIRMWARE_VER` (`main/config.h:46`): an update that survives is announced as reverted exactly when its descriptor has a version and that differs from the other name (`AnnouncedIffNamesDiffer`). Even with one name, a power failure at one place, with a key left over from an earlier one, has the survivor announced (`MisfireHappens`, `MisfireAnnouncesSurvivor`).
- The rollback itself needs the bootloader option that `main/ota.c:346-369` relies on; `sdkconfig.defaults` does not set it. The model is of a bootloader that has it.
- `main/media_cache.c:207-211` truncates to the slot size, which never happens: the download buffer is smaller than a slot. A URL whose hash is 0 passes for an empty slot (`ZeroHashIsNotKept`).
- `main/openrouter_sse.h:11` speaks of a 4 KB line buffer; the code has 64 KB.
- `main/chat_msg_view.c:753-772` fills slots from the oldest message of the window. An unshown message is taken up if and only if fewer unshown ones come before it than slots are free (`TakenUpIffRoom`); so a view pinned to the bottom can leave out the newest (`NewestShownIffRoom`, `NewestCanMissOut`).

## Model

| member | source | states |
|---|---|---|
| `ImaAdpcm.Codec.EncodeSample` | main/ima_adpcm.c:37-66 | the sequential bit search, working on the object's own fields, picks the nibble of the specification and moves the state exactly as the decoder will on receiving it |
| `ImaAdpcm.Codec.DecodeSample` | main/ima_adpcm.c:68-81 | the state after a nibble and the sample returned |
| `ImaAdpcm.TableGrowth` | main/ima_adpcm.c:11-17 | the step table has 89 entries from 7 to 32767, strictly increasing, and each step exceeds the error its successor leaves behind |
| `ImaSteps.StepLaw` | main/ima_adpcm.c:11-17 | entry for entry: 7 to 14, then the whole part of 16 times 1.1 to the power of the number of the entry, in exact arithmetic, and 32767 last |
| `ImaSteps.IndexAfterNibble` | main/ima_adpcm.c:19-79 | for every state: a nibble without its weight of 4 takes the step index one down; one with it takes it up by two, by four more with its weight of 2 and by two more with its weight of 1; never off the table |
| `ImaSteps.IndexAfterSample` | main/ima_adpcm.c:37-66 | the same read off the error: one down below a whole step, then up by 2, 4, 6 or 8, at a quarter, a half and three quarters of a step more |
| `ImaAdpcm.TracksClosely` | main/ima_adpcm.c:37-66 | a sample whose error is below twice the step is reconstructed within step/8 + 2, clamping at the int16 limits included |
| `ImaAdpcm.OverloadApproaches` | main/ima_adpcm.c:37-66 | a sample out of reach: the error shrinks by exactly the weight of all bits, never overshooting, and the index climbs by 8 |
| `ImaAdpcm.LockedSettles` | main/ima_adpcm.c:37-66 | once the error is below what the next step leaves, a constant input is never overloaded again, and index + 2 samples later the predictor sits on it |
| `ImaAdpcm.ConstantInputConverges` | main/ima_adpcm.c:37-66 | from any predictor and any index, a constant input is overloaded at most 11 times, and from its 102nd sample on the encoder reproduces it exactly at the least step, for ever |
| `ImaAdpcm.EncodeBlock` | main/ima_adpcm.c:83-116 | nothing is written on a null buffer, no samples or too little room; otherwise exactly the encoded size in bytes, the header and the packed nibbles of the run, and not a byte beyond |
| `ImaAdpcm.DecodeBlock` | main/ima_adpcm.c:118-136 | the samples of the decoder's run over the block, cut at the capacity; nothing beyond them is written; short or null input gives none |
| `ImaAdpcm.UnpackPack` | main/ima_adpcm.c:97-113 | unpacking undoes packing, up to one zero nibble of padding after an odd number |
| `ImaAdpcm.LockStep` | main/ima_adpcm.c:37-81 | after any run of samples the decoder, fed what the encoder emitted, is in the encoder's own state |
| `ImaAdpcm.RoundTrip` | main/ima_adpcm.h:32-35 | an encoded block has the promised size; decoding it with any capacity gives as many samples as fit, one padding sample more only for an even count with room, each the encoder's predictor at that point |
| `ImaAdpcm.DecodedTracksOriginal` | main/ima_adpcm.c:83-136 | through whole blocks: the first sample is exact, and each later one is within the quantisation bound or strictly closer than its predecessor |
| `ImaAdpcm.SilenceIsExact` | main/ima_adpcm.c:83-136 | after 102 equal samples anywhere in a block, the decoded sample is the original |
| `SseStream.SseParser.EmitLine` | main/openrouter_sse.c:58-85 | on the line buffer, with no copy: what a finished line does to the parser |
| `SseStream.SseParser.Feed` | main/openrouter_sse.c:87-109 | a feed is the machine's step repeated for every byte, and the answer is the done flag; a null buffer changes nothing |
| `SseStream.ChunksDoNotMatter` | main/openrouter_sse.c:87-109 | feeding chunks one after the other is feeding their concatenation |
| `SseStream.FeedRefines` | main/openrouter_sse.c:58-109 | from any state in the middle of a line: the callbacks made and the done flag are those of the whole lines that get finished, overlong lines dropped |
| `SseStream.ChunkedFeedIsWholeStream` | main/openrouter_sse.c:58-109 | for every stream and every way of cutting it: the callbacks are the payloads of its lines in order without the end marker, and done means that the marker was among them |
| `SseStream.OverlongLineVanishes` | main/openrouter_sse.c:31-36 | a line of 65536 characters or more is dropped whole, and the lines after it are read as if it had not been there |
| `SseStream.PrintThenParse` | main/openrouter_sse.c:74-84 | printed as data lines and parsed, any list of printable payloads comes back |
| `SseStream.SurvivesIffPrintable` | main/openrouter_sse.c:58-109 | a payload survives the framing if and only if it has no line feed, does not end in a carriage return, and makes a line of at most 65535 characters with its field name |
| `EventSource.SameLines` | main/openrouter_sse.c:87-109 | on streams where CR occurs only before LF, trimming one CR from LF-ended lines gives the standard's lines |
| `EventSource.MessagesArePayloads` | main/openrouter_sse.c:58-85 | with at most one data line per event and none unfinished, the standard's messages are the parser's payloads |
| `EventSource.AgreesWithStandard` | main/openrouter_sse.c:58-109 | on such streams the parser calls back with what sections 9.2.5 and 9.2.6 dispatch, apart from the end marker, which makes it done |
| `MediaCache.Cache.constructor` | main/media_cache.c:51-84 | five empty slots with buffers of their own |
| `MediaCache.Cache.FindSlot` | main/media_cache.c:89-95 | the first slot that holds the hash and some bytes; -1 only if there is none |
| `MediaCache.Cache.FindLruSlot` | main/media_cache.c:100-112 | the first slot of hash 0, else the first of least tick, a full table of latest ticks included |
| `MediaCache.Cache.ParseDimensions` | main/media_cache.c:223-239 | height and width at the first SOF0 or SOF2 marker with room for them, the defaults if there is none or either is 0 |
| `MediaCache.Cache.Fetch` | main/media_cache.c:114-252 | a hit changes one tick; a failed download changes no slot; a download replaces the victim and no other; the descriptor's buffer holds the bytes and dimensions of the entry |
| `MediaCache.Cache.Clear` | main/media_cache.c:254-265 | every slot loses its hash, bytes and tick, and keeps its dimensions |
| `MediaCache.KeptIff` | main/media_cache.c:184-202 | nothing is kept of a response unless its status is 200 and it has a body, and then its first 512 KB |
| `MediaCache.DimensionsAreTheFirst` | main/media_cache.c:223-239 | width and height are read from the first start-of-frame header, high byte first, height before width; 660 by 440 if either is 0 |
| `MediaCache.DimensionsByDefault` | main/media_cache.c:235-239 | and if there is no such header |
| `MediaCache.FetchIsDetermined` | main/media_cache.c:114-252 | the table, the hash and the download leave a fetch no choice of slot |
| `MediaLru.HitsAgree` | main/media_cache.c:89-95 | the slot search finds a hash exactly when the recency list has it, in the one slot that stores it |
| `MediaLru.VictimAgrees` | main/media_cache.c:100-112 | the slot chosen for eviction is that of the last of a full list, or a free one |
| `MediaLru.FetchRefines` | main/media_cache.c:114-252 | a fetch on the slot table is move-to-front, insert-and-drop-last, or nothing, on the recency list |
| `MediaLru.RunRefines` | main/media_cache.c:114-265 | so it is over every run of fetches and clears with increasing ticks |
| `MediaLru.RecentIsModel` | main/media_cache.c:114-265 | the list is the distinct hashes answered since the last clear, most recent first, cut to five |
| `MediaLru.SlotsHoldMostRecent` | main/media_cache.c:89-265 | after every such run with non-zero hashes the occupied slots hold exactly the five most recent distinct hashes, one slot each |
| `MediaLru.ZeroHashIsNotKept` | main/media_cache.c:105 | an entry of hash 0 is replaced by the very next download, however recent it is |
| `MediaLru.EveryImageIsItsDownload` | main/media_cache.c:114-252 | what the recency list holds is what some fetch of the run downloaded for that hash on a miss, and it has been there ever since |
| `MediaLru.EverySlotIsItsDownload` | main/media_cache.c:114-265 | the same of the slots: in every run, what an occupied slot stores was downloaded for its hash by a fetch that found nothing, and kept since |
| `MediaLru.HandedOutIsItsDownload` | main/media_cache.c:122-134 | and so of what a fetch hands out, hit or not, for the hash asked for |
| `TouchSeqlock.RunKeepsInv` | main/debug_server_input.c:69-92 | in both forms of the loop, the shared tuple is halfway from the last publish to the one in flight, each field copied is that of the publish whose store came last before its load, and none is older than the call |
| `TouchSeqlock.NoTornReads` | main/debug_server_input.c:82-92 | with the intended retry, under every interleaving field by field, a finished read is one published tuple whole, not one that was superseded before the call began |
| `TouchSeqlock.PassEndsTheReadIff` | main/debug_server_input.c:86-92 | a pass that begins on an even word ends with its sixth load, whatever the writer does, and the read with it if and only if the sequence word is then what it was at the first |
| `TouchSeqlock.OddWordWaits` | main/debug_server_input.c:88 | on an odd word the intended loop tries again, and the literal one leaves if and only if its last pass ended on that word |
| `TouchSeqlock.QuietReadReturns` | main/debug_server_input.c:82-92 | with no publish under way a call returns after one pass with the tuple last published, in both forms of the loop |
| `TouchSeqlock.PublishedIsRead` | main/debug_server_input.c:69-92 | a tuple published between two calls is what the next call returns |
| `TouchSeqlock.SameRunUnlessStale` | main/debug_server_input.c:86-92 | a run in which the literal loop never leaves on a stale odd word is a run of the intended one |
| `TouchSeqlock.LiteralAgreesIffNeverStale` | main/debug_server_input.c:86-92 | step by step the literal loop is the intended one if and only if it never meets, mid-publish, the odd word its last pass ended on |
| `TouchSeqlock.NotStaleIsWhole` | main/debug_server_input.c:86-92 | a literal read that ends on the word it began with is one published tuple, all its fields from one publish |
| `TouchSeqlock.SourceIs` | main/debug_server_input.c:69-80 | with c stores of the publish in flight made, field n is the new one if and only if c > n |
| `TouchSeqlock.OneInFlight` | main/debug_server_input.c:69-92 | with one publish in flight, the four fields come from one publish if and only if each was loaded after its store, or each before it |
| `TouchSeqlock.RelabelledRun` | main/debug_server_input.c:69-92 | which stores and loads happen when does not depend on the tuples: with other tuples the run goes through the same states otherwise |
| `TouchSeqlock.LiteralWholeIffSourcesAgree` | main/debug_server_input.c:82-92 | an interleaving in which the literal loop finishes never tears its result, whatever tuples are published, if and only if the four fields were loaded from one publish |
| `TouchSeqlock.FieldsComeFrom` | main/debug_server_input.c:82-92 | even of a torn result each field is that of an actual publish, the last to have stored it before its load, not older than the call |
| `TouchSeqlock.LiteralCanTear` | main/debug_server_input.c:88 | eleven steps after which the literal loop returns a tuple that was never published, and the intended one goes round again |
| `TouchSeqlock.StaleCanBeWhole` | main/debug_server_input.c:88 | eight steps after which it leaves on a stale word and the result is whole |
| `TouchGesture.StaysBetween` | main/debug_server_input.c:152-156 | with division towards zero, the interpolated point never leaves the segment, never turns back, and ends where it should |
| `TouchGesture.Swipe` | main/debug_server_input.c:125-160 | whatever the end points and duration, the tuples published are a press, a monotone path to the end point, a lift there and the idle state; one step for every 20 ms of a duration between 50 ms and 3 s, at least five, the i-th point being exactly i of so many equal parts of the way, rounded towards the start |
| `TouchGesture.ReaderSeesOnlyTheSwipe` | main/debug_server_input.c:82-160 | with the intended retry: while a swipe is published, under every interleaving a read sees nothing, a finger on the path, or the lift at the end point |
| `TouchGesture.LiteralReaderSees` | main/debug_server_input.c:82-160 | with the literal loop: so does a read whose four fields come from one publish, or each from some point on the way |
| `TouchGesture.EvenLiteralReaderSees` | main/debug_server_input.c:86-92 | and so every literal read that leaves on an even word |
| `TouchGesture.LiteralReaderSeesMore` | main/debug_server_input.c:88 | a swipe and an interleaving in which the literal loop sees a lift at a point off the path |
| `OtaSchedule.PersistKeepsInv` | main/ota.c:412-424 | because the flag is written last and erased first, any number of the uncommitted writes may reach NVS: a flag stands for the newest schedule, not applied, and the keys hand out its job or none, unless what is kept of an interrupted call mixes two schedules |
| `OtaSchedule.RunKeepsInv` | main/ota.c:400-483 | over every run in which no interruption mixes two schedules, calls made while a flag is up included: whenever the flag is in NVS, what the keys hand out is the job of the newest schedule or nothing, and it has not been applied |
| `OtaSchedule.AtMostOnceAlways` | main/ota.c:400-483 | over every run whatever, with crashes and refused writes anywhere and whatever part of the last writes survives them, mixed or not: each schedule starts at most one apply, in the order of the schedules |
| `OtaSchedule.AppliedAtMostOnce` | main/ota.c:400-483 | and if no interruption mixes two schedules, that apply has its own url and its own sha |
| `OtaSchedule.AtomicCommitsNeverMix` | main/ota.c:400-483 | with atomic commits, crashes at any step and schedules made over pending ones: no run mixes anything, and every apply has its own url and sha |
| `OtaSchedule.AtomicCommitsKeepKeys` | main/ota.c:400-483 | and in every such run the keys behind a flag are those of its schedule, unspoilt |
| `OtaSchedule.InterruptedSafelyIff` | main/ota.c:408-424 | a call interrupted at any of its statements with any number of its writes kept: the next undisturbed boot keeps every apply with its own url and sha if and only if those writes do not make the flag that is up hand out something else |
| `OtaSchedule.HeldSurvivesIff` | main/ota.c:408-424 | the schedule whose flag is up is what that boot applies if and only if the writes kept leave what is handed out for it unchanged |
| `OtaSchedule.MixesIff` | main/ota.c:408-424 | which interruptions mix: never with none or all of the writes kept; with the url alone, when it fits and with the sha that was there is not the old job; with url and sha, when the url fits and the job is not the old one |
| `OtaSchedule.RefusedIsInterrupted` | main/ota.c:408-424 | a refused write leaves what a power failure in its place would |
| `OtaSchedule.OutOfOrderGoesStale` | main/ota.c:408-416 | a schedule with another url made while one is up, and a crash after its first write: the old schedule is applied with the new url and the old sha |
| `OtaSchedule.SchedulesWereRequested` | main/ota.c:400-441 | over every run, what is scheduled was asked for by some call, and has a url |
| `OtaSchedule.AppliedShaIffItFits` | main/ota.c:456-472 | in a run without mixing, the sha an image is verified against is the scheduled one if and only if it fits the buffer; otherwise the image is applied with none |
| `OtaSchedule.UndisturbedBoot` | main/ota.c:443-483 | a boot that is left alone applies what the keys hand out, or nothing, and leaves no flag up |
| `OtaSchedule.UndisturbedBootAppliesIffUrlFits` | main/ota.c:443-483 | it applies a schedule whose keys are unspoilt exactly when its url fits the buffer, and either way leaves nothing waiting |
| `OtaSchedule.CommittedThenBooted` | main/ota.c:400-483 | a schedule that commits, over whatever was pending, is what the next undisturbed boot applies, with its own url and sha, if and only if its url fits |
| `OtaSchedule.CallSchedules` | main/ota.c:400-441 | from every state of the device, pending update or not: a call with a url, left alone, ends in a boot with the flag up, this url and this sha or none, and the schedule added |
| `OtaSchedule.CallThenBoot` | main/ota.c:400-483 | and the boot after that starts exactly one more apply, of this url and sha, if and only if the url has at most 255 characters; a sha of more than 64 is lost |
| `OtaSchedule.FirstUpdate` | main/ota.c:400-483 | so a run from a blank device applies the first job it is given |
| `OtaSchedule.InterruptedBootKeepsIff` | main/ota.c:443-483 | power failing in a boot that found a flag leaves the schedule for the next one if and only if the erasing of the flag has not reached NVS |
| `OtaSchedule.AnyPartCanSurvive` | main/ota.c:408-424 | every number of the uncommitted writes is a possible outcome of a power failure or a refused write |
| `OtaVerify.UpdateAppends` | main/ota.c:282-300 | hashing in pieces is hashing the whole |
| `OtaVerify.FromHexOfHex` | main/ota.c:157-163 | the hex text of a digest denotes the digest |
| `OtaVerify.VerifyAndFinish` | main/ota.c:253-320 | for every streaming hash: the new image becomes bootable if and only if finishing succeeds and, when a digest was asked for, every 4 KB read succeeds and the expected text spells out the digest of the whole partition image |
| `OtaVerify.PassesIff` | main/ota.c:157-163 | digit by digit: the texts agree if and only if the expected one has two characters a byte, the higher half first, each the digit of that half, letters small or capital |
| `CString.SameIgnoringCaseIff` | main/ota.c:304 | texts agree in any letter case if and only if they have one length and at each place the same character, or the same letter small and capital |
| `OtaVerify.PassingMeansThisDigest` | main/ota.c:304-312 | passing the comparison of texts means having the digest the expected text denotes, of the full length |
| `RollbackNotice.OneToastPerFlash` | main/main.c:651-677 | over every run of flashes, boots, crashes and reverts no flash is announced twice, and none that did not happen |
| `RollbackNotice.RunKeepsNoticeInv` | main/ota.c:328-369 | the recorded version is that of the image about to boot, of the running one, or of one that will never boot again |
| `RollbackNotice.SurvivorsAreNotAnnounced` | main/main.c:797-802 | no flash that was ever marked valid is announced as reverted, if images carry one name and no crash falls into the window described below |
| `RollbackNotice.BootAnnouncesIff` | main/main.c:651-677 | every boot without a crash, whatever it boots, ends with no key left and with one notice more if and only if there was a key and it is not the name of the image that runs |
| `RollbackNotice.RollbackIsAnnouncedIff` | main/main.c:651-677 | an image booted and never confirmed is reverted by the next boot, stays unconfirmed, and is announced if and only if a key is there and is not the name of the image that is back |
| `RollbackNotice.FailedUpdateIsAnnouncedIff` | main/ota.c:316-336 | as a run, flashed, recorded, booted, crashed before it is marked valid, booted: the image that flashed it is back, and the update is announced if and only if its descriptor has a version and that is another name |
| `RollbackNotice.AnnouncedIffNamesDiffer` | main/ota.c:328-336 | an update that boots and is confirmed is announced exactly when its descriptor has a version and that is not its other name |
| `RollbackNotice.MisfireAnnouncesSurvivor` | main/ota.c:316-336 | power failing between making an image bootable and recording it, with the running image's own key still there: the next boot announces the confirmed image exactly when the versions differ |
| `RollbackNotice.MisfireHappens` | main/main.c:522 | a run of two updates and two power failures in which that comes about |
| `ToolScrub.TagMatchAt` | main/md_strip.c:133-142 | whether an opening tag stands at a position |
| `ToolScrub.OpensIff` | main/md_strip.c:133-151 | letter by letter what an opening and a closing tag are: each letter of the name small or capital, and what may follow it |
| `ToolScrub.CloseTagMatchAt` | main/md_strip.c:144-151 | whether a closing tag stands at a position |
| `ToolScrub.SkipToClose` | main/md_strip.c:153-168 | just past the first closing tag after the first `>`, or the end of the text |
| `ToolScrub.StripPass` | main/md_strip.c:179-199 | the first pass writes the specified text whether or not the two buffers are the same array |
| `ToolScrub.CompactPass` | main/md_strip.c:201-216 | collapsing and trimming in place gives what it gives out of place |
| `ToolScrub.MdStripToolMarkers` | main/md_strip.c:170-217 | in place or not, the result is the scrubbed text of the input as it was on entry, cut to the capacity and terminated; null and empty buffers as the code treats them |
| `ToolScrub.StripCopies` | main/md_strip.c:179-199 | a stretch of output without blanks stood in one piece in the input |
| `ToolScrub.StripLeavesNoMarker` | main/md_strip.c:179-199 | the first pass leaves no marker, truncated or not |
| `ToolScrub.CollapseKeepsMarker` | main/md_strip.c:201-216 | the second pass cannot make a marker out of fragments |
| `ToolScrub.ScrubIsClean` | main/md_strip.c:170-217 | for every text and capacity: no `<tool>` or `<args>`, each letter small or capital, no leading or trailing blank, no two adjacent blanks, never longer than the input or the buffer |
| `ToolScrub.FirstRegionBecomesBlank` | main/md_strip.c:153-199 | a region from its opening tag to its closing tag turns into one space, the text before it is kept character for character, and reading goes on right behind it |
| `ToolScrubTwice.ScrubbingTwiceIsOnceIff` | main/md_strip.c:133-217 | for every text and capacity, scrubbing again changes nothing if and only if no tag name read as text is followed by a line break or a region and then by a word within the room |
| `ToolScrubTwice.ScrubbedAgain` | main/md_strip.c:170-217 | that is, if and only if no opening tag is left |
| `ToolScrubTwice.WordsMakeTag` | main/md_strip.c:201-216 | collapsing and trimming leave a tag if and only if a name is followed by `>` or by a blank with a word after it |
| `ToolScrubTwice.StripMakesTag` | main/md_strip.c:179-199 | and what the first pass writes has that if and only if the text has such a place |
| `ToolScrubTwice.ScrubbingTwiceDiffers` | main/md_strip.c:141-142 | a text with a line break after the name: scrubbing leaves a tag, and scrubbing again takes everything |
| `ToolScrubTwice.RegionCompletesATag` | main/md_strip.c:184-192 | a text with a region after the name: so it does there |
| `InlineText.InlineIsClean` | main/md_strip.c:17-86 | nothing is lost to the size of a buffer that holds the result |
| `InlineText.WideIsCopied` | main/md_strip.c:60-83 | a multi-byte character that is not folded comes out whole and unchanged |
| `InlineText.FoldedCharacters` | main/md_strip.c:60-83 | U+2018 and U+2019 come out as an apostrophe, U+201C and U+201D as a quote, U+2013 and U+2014 as a dash, and no other character of that block is folded |
| `InlineText.CleanIsUtf8` | main/md_strip.c:17-86 | valid UTF-8 (section 4 of RFC 3629) stays valid |
| `InlineText.LabelText` | main/md_strip.c:17-86 | for every text and buffer no `*` or `_` comes out, the full result is at most twice the input, and in a buffer that holds it valid UTF-8 comes out as valid UTF-8 |
| `InlineText.BulletsGrow` | main/chat_msg_view.c:536-537 | an instance in which the result is longer than the text: a bullet alone |
| `InlineInPlace.EmittingRound` | main/md_strip.c:24-84 | one turn of the loop on one buffer: behind, it reads the text as it was and leaves the rest of it alone; ahead, it reads what it wrote one or two bytes ago |
| `InlineInPlace.InPlaceIsRightIff` | main/md_strip.h:15 | for every text and room: on one buffer the result is that on two if and only if no bullet overtakes while text and room are left, or the text after the first that does, marks taken out, begins with what is put in its place |
| `InlineInPlace.NoBulletNoOvertaking` | main/md_strip.h:15 | a text with no bullet at a line start is never overtaken |
| `InlineInPlace.OvertakenByBullet` | main/md_strip.c:41-53 | what overtakes is a bullet, by one byte or two |
| `InlineInPlace.InPlaceOnUtf8` | main/md_strip.h:15 | on UTF-8 text: if and only if no bullet overtakes, or the first to do so is one byte ahead and is followed, marks apart, by as many blanks as there is text or room for |
| `InlineInPlace.BulletInFront` | main/md_strip.h:15 | a bullet in front and text after it: all of the text is replaced by debris of the bullet, and the result is not UTF-8 |
| `InlineInPlace.InPlaceDestroys` | main/md_strip.h:15 | a text of four bytes for which it is so |
| `InlineStrip.OneRound` | main/md_strip.c:25-83 | what one turn of the loop emits and consumes, on whatever is in the buffer by then: heading, bullet, emphasis, folded punctuation or the byte itself |
| `InlineStrip.StripInto` | main/md_strip.c:22-85 | the loop, on one buffer or two, leaves the text each of the two specifications gives |
| `InlineStrip.MdStripInline` | main/md_strip.c:17-86 | on one buffer or two, null and empty ones as the code treats them: the result, terminated, within the size |
| `InlineStrip.MdStripInlineWithEllipsis` | main/md_strip.c:93-122 | on two buffers, an ellipsis behind the result when it is shorter than the text; on one, never one; below eight bytes none either way |
| `InlineStrip.LengthsBalance` | main/md_strip.c:24-84 | for every text and room, what comes out is as long as the text, plus two bytes a bullet written, less the bytes dropped |
| `InlineStrip.EllipsisIffMoreDropped` | main/md_strip.c:107-121 | for every text, cut or not, the ellipsis comes if and only if more bytes are dropped than bullets add |
| `InlineStrip.CutFills` | main/md_strip.c:24-84 | a text that does not come out in full fills all but three bytes of the room |
| `InlineStrip.EllipsisTellsIff` | main/md_strip.h:21-22 | by the length of the text: longer than the room, it always gets an ellipsis; cut though three bytes short of the room or more, never; and the ellipsis tells truly whether the text was cut if and only if one that comes out in full comes out no shorter, and one that is cut was too long or, for the three lengths between, drops more than bullets add |
| `InlineStrip.CleanLength` | main/md_strip.c:24-84 | with room enough the result is as long as the text, plus two bytes a bullet, less the bytes dropped |
| `InlineStrip.NotLongerIff` | main/chat_msg_view.c:536-539 | the result is no longer than the text if and only if bullets add no more than is dropped, and a label buffer holds it if and only if they add no more than that and what the buffer has to spare |
| `InlineStrip.EllipsisWithoutBullets` | main/md_strip.h:21-22 | without bullets it comes if and only if the text is longer than the room or something in it is removed or folded, and tells truly if and only if it was cut or nothing is |
| `InlineStrip.CaptionInPlaceIff` | main/ui_voice.c:609 | on one buffer a caption is what it is on two if and only if no bullet does harm and no more is dropped than bullets add |
| `InlineStrip.CaptionInPlaceWithoutBullets` | main/ui_voice.c:1442 | without bullets: if and only if the text fits and nothing in it is removed or folded |
| `InlineStrip.CutWithoutEllipsis` | main/md_strip.c:114-121 | a text that is cut and gets no ellipsis |
| `InlineStrip.EllipsisWithoutCut` | main/md_strip.c:114-121 | a text that is not cut and gets one |
| `InlineStrip.MarkWithoutEllipsis` | main/md_strip.c:114-121 | a text that loses a mark and gets none |
| `VoiceCaption.ScrubbedIsOneLine` | main/md_strip.c:201-216 | what a caption is made of has no line break, no blank at either end and no two in a row |
| `VoiceCaption.ScrubIsJoined` | main/md_strip.c:170-217 | scrubbing puts no UTF-8 continuation byte behind an ASCII character, even where it cuts a character in two |
| `VoiceCaption.CaptionIsRightIff` | main/ui_voice.c:608-609 | for every UTF-8 reply the caption made on one buffer is what a second buffer would give if and only if the scrubbed reply does not begin with a bullet, fits 252 bytes and has nothing in it to remove or fold |
| `VoiceCaption.CaptionTextIsRightIff` | main/ui_voice.c:1441-1442 | the ellipsis apart, if and only if it does not begin with a bullet |
| `VoiceCaption.CaptionOfBullet` | main/ui_voice.c:1517-1518 | if it does, the caption is the bullet and its own debris, as long as the text was or the room is, and not UTF-8 |
| `VoiceCaption.BulletInReplyIff` | main/ui_voice.c:1517-1518 | it does if and only if the first word of the reply, regions taken for blanks, is a lone dash or star with another word after it within the room |
| `ChatStore.Store.Add` | main/chat_msg_store.c:106-131 | appends to the sequence, dropping its oldest element and counting the drop when it is full |
| `ChatStore.Store.LogicalToReal` | main/chat_msg_store.c:141-146 | the slot of a message, -1 outside the range |
| `ChatStore.Store.Get` | main/chat_msg_store.c:148-153 | element i of the sequence, and nothing outside it |
| `ChatStore.Store.SetHeight` | main/chat_msg_store.c:165-171 | changes one height |
| `ChatStore.Store.UpdateLastText` | main/chat_msg_store.c:173-180 | replaces the newest text, cut to its field, and forgets its height |
| `ChatStore.Store.AttachReceipt` | main/chat_msg_store.c:191-225 | the backward scan finds the newest assistant text and stamps it alone |
| `ChatStore.Store.PopLast` | main/chat_msg_store.c:227-235 | removes the newest element |
| `ChatStore.Store.Clear` | main/chat_msg_store.c:237-243 | empties the sequence and keeps the eviction count and the session |
| `ChatStore.Store.SetSession` | main/chat_msg_store.c:56-92 | empties the sequence only when a session is closed or gives way to another id |
| `ChatStore.AddingMovesNothing` | main/chat_msg_store.c:106-146 | adding to a ring with room moves no message in the ring |
| `ChatStore.EvictingMovesNothing` | main/chat_msg_store.c:114-146 | adding to a full ring overwrites exactly the oldest message and moves no other |
| `ChatStore.PoppingMovesNothing` | main/chat_msg_store.c:227-235 | nor does popping |
| `ChatStore.RunIsAccounted` | main/chat_msg_store.c:56-243 | after every mix of calls the ring holds, in order and message for message, the newest end of what a store without a limit would hold, and the counter says how many were dropped |
| `ChatStore.DropsIffFull` | main/chat_msg_store.c:106-131 | adding drops a message, the oldest, if and only if the store holds a hundred |
| `ChatStore.ReceiptFindsItsAnswer` | main/chat_msg_store.c:191-225 | element by element: a receipt changes a message if and only if it is text in use the user did not write, no card, image, clip or notice, with none such newer; what it writes, with the model name cut to 15 characters |
| `ChatStore.OnlyThatMessageChanges` | main/chat_msg_store.c:165-180 | element by element: a new text changes the newest message alone and is cut to 511 characters, and a height changes the message it is for |
| `ChatStore.MessagesSurviveIffSameSession` | main/chat_msg_store.c:66-89 | messages survive a session call if and only if it opens the first session or the same one again |
| `ChatView.View.InvalidateIndex` | main/chat_msg_view.c:880-897 | frees the slots of that message and no other; a negative index frees none |
| `ChatView.View.BeginStreaming` | main/chat_msg_view.c:823-834 | the newest message is the streaming one, and the view is pinned to the tail |
| `ChatView.View.FreeSlots` | main/chat_msg_view.c:737-751 | a slot is freed exactly when its message is neither in the window nor streaming |
| `ChatView.View.FillSlots` | main/chat_msg_view.c:753-800 | nothing shown moves; free slots take window messages lowest first, each once; one is left out only when all slots are taken by lower ones or were before |
| `ChatView.View.Refresh` | main/chat_msg_view.c:684-801 | the three passes together: layout, scrolling, freeing and filling, or hiding everything when the store is empty |
| `ChatView.SceneIsPinnedIff` | main/chat_msg_view.c:717-733 | a refresh leaves the view where it is if and only if the user has scrolled up and nothing is streaming; otherwise it goes to the bottom |
| `ChatView.InWindowIff` | main/chat_msg_view.c:694-736 | a message is in the window if and only if it starts at most 480 below what is seen and ends at most 480 above it; where it starts |
| `ChatView.View.AppendStream` | main/chat_msg_view.c:836-858 | is the run begin if needed, add as much of the text as fits, invalidate, refresh, pin; and stops after the first when nothing fits |
| `StreamedText.StreamIsCut` | main/chat_msg_view.c:836-858 | over every run of appends, whatever refreshes come between: the stream buffer holds the whole answer so far cut to its size, and a piece is taken up if and only if it is not empty and the buffer not full |
| `StreamedText.StoredIsCut` | main/chat_msg_store.c:173-180 | and the text stored, which is what a bubble shows, is the first 511 characters of the answer, in the newest message and no other, from the first piece that is not empty on |
| `ChatView.View.EndStreaming` | main/chat_msg_view.c:860-868 | is the run end, refresh |
| `ChatView.RunKeepsPoolInv` | main/chat_msg_view.c:684-897 | over every run of these calls no message is shown by two slots |
| `ChatView.EveryRefreshShowsTheWindow` | main/chat_msg_view.c:684-801 | after every refresh of every run each slot is empty, in the window or streaming, and a window message is missing only when no slot is free |
| `ChatView.SparedStaysPut` | main/chat_msg_view.c:737-765 | a message keeps its slot through any run of calls that leave it in the window or streaming and do not invalidate it |
| `ChatView.NothingMissingIfItFits` | main/chat_msg_view.c:684-801 | with no more window messages, the streaming one included, than slots, every one of them is shown |
| `ChatView.StreamedIsShown` | main/chat_msg_view.c:836-858 | if the window at the tail fits the pool, the streamed message is shown after every append of text that still fits, wherever the user had scrolled to |
| `ChatView.TakenUpIffRoom` | main/chat_msg_view.c:753-800 | whatever the view showed before, an unshown message of the window is taken up if and only if fewer unshown ones come before it than slots are free |
| `ChatView.FreshViewShowsFirstTwelve` | main/chat_msg_view.c:753-800 | for a view that showed nothing: if and only if fewer than twelve of the window precede it |
| `ChatView.NewestShownIffRoom` | main/chat_msg_view.c:711-772 | pinned to the bottom, an unshown newest message is shown if and only if no more unshown ones of the window wait than slots are free |
| `ChatView.NewestShownIffTwelve` | main/chat_msg_view.c:711-772 | for a view that showed nothing: if and only if the window has at most twelve |
| `ChatView.NewestCanMissOut` | main/chat_msg_view.c:753-772 | twenty one-line messages in a container 918 high are too many |
| `LogRing.Ring.Append` | main/debug_obs.c:89-110 | the first 255 bytes of a line are added to everything ever written, and the ring holds the end of that |
| `LogRing.Ring.Linear` | main/debug_obs.c:276-302 | not yet wrapped, just wrapped or well wrapped: the last 32 KB ever written, in order |
| `LogRing.Ring.LogTail` | main/debug_obs.c:270-323 | the longest suffix of those with at most n newlines, 100 for n not positive |
| `LogRing.TailIsUnique` | main/debug_obs.c:304-313 | that describes one string only |
| `LogRing.LongerHasMore` | main/debug_obs.c:304-313 | a longer suffix has no fewer newlines, so stopping at the first one too many is right |
| `DailyBudget.DayIndexOrdersDates` | main/settings.c:781-799 | the day index orders dates as the calendar does and no two dates share one, leap years included |
| `DailyBudget.DayIndexIsU32` | main/settings.c:781-799 | from 1970 on it is neither 0 nor too large for 32 bits |
| `DailyBudget.MonthsAreGregorian` | main/settings.c:797-798 | the days before each month, in ordinary years and in leap years, centuries included |
| `DailyBudget.DayIndexCountsDays` | main/settings.c:797-798 | the index of the first of January is 366 times the year, and every next day of the year is one more |
| `DailyBudget.Budget.RollIfNewDay` | main/settings.c:801-811 | what is stored when power fails before, between or after the two writes |
| `DailyBudget.Budget.GetTodayMils` | main/settings.c:813-817 | the spend read and the state left, with power failing anywhere |
| `DailyBudget.Budget.Accumulate` | main/settings.c:829-837 | a saturating addition after any rollover, with power failing anywhere |
| `DailyBudget.Budget.ResetSpent` | main/settings.c:839-847 | the state left by a reset, with power failing anywhere |
| `DailyBudget.SpendIsSumKept` | main/settings.c:801-847 | after every run, whatever the clock says and wherever power fails, the stored spend is the smaller of 2^32 - 1 and the sum of the amounts accepted since a day change was seen or the spend reset |
| `DailyBudget.SpendAdds` | main/settings.c:801-837 | while the clock is not set, or on the day stored, a spend needs one write and adds, up to 2^32 - 1 |
| `DailyBudget.SpendStartsTheDay` | main/settings.c:801-837 | on a new day it needs three; what is stored when power lasts for fewer |
| `DailyBudget.TodayIsToday` | main/settings.c:801-847 | if the clock does not go back, asking for today's spend gives what was accepted today since the last reset, whatever crashes came before |
| `UrlDecode.UrlPctDecodeInplace` | main/debug_server_chat.c:54-81 | rewriting the buffer it reads, this decoder leaves the decoding of the text that stood there, terminated |
| `UrlDecode.UrlDecodeInplace` | main/debug_server_tinkeron.c:45-70 | so does the other one, written differently: the same text for every input; a null string is left alone |
| `UrlDecode.DecodeInvertsEncoding` | main/debug_server_chat.c:54-81 | whichever characters an encoder escapes and in whichever case (section 2.1 of RFC 3986, with `+` for a space), decoding gives the original back |
| `UrlDecode.HexValueIff` | main/debug_server_chat.c:54-81 | a character has a hex value if and only if it is that digit, small or capital |
| `UrlDecode.EscapeEncodes` | main/debug_server_tinkeron.c:54-62 | escaping any byte is such an encoding |
| `UrlDecode.DecodeIsOnto` | main/debug_server_chat.c:54-81 | every string of bytes is the decoding of its full escape |

The window in which a rollback notice misfires is `RollbackNotice.Misfires`:
power fails after the new image was made bootable and before its version was
recorded, while the NVS key still names the running image.

## Left out

- HTTP handlers, JSON, the HTTP client, StackFlow marshalling, LVGL widgets, fonts and styles: plumbing over libraries outside the repository.
- `main/mode_manager.c`, `main/service_registry.c`, `main/heap_watchdog.c`, quiet hours, the spending cap: small case analyses.
- `dragon_server.py`: asynchronous I/O with no algorithm of its own.
- ImaAdpcm.EncodeBlock: input and output are arrays of different element types, so the two cannot overlap.
- SseStream.SseParser.Feed: a null parser and failed allocations in init are not modelled; the callback is a list of the payloads it was given.
- EventSource.AgreesWithStandard: event types, identifiers, retry times and the byte order mark are outside; streams with several data lines in one event are excluded because the code does not join them.
- MediaCache.Cache.Fetch: the FNV-1a hash of the URL is an argument, the network is one result, the mutex is taken for granted; what happens to descriptors handed out before their slot is reused is not modelled.
- MediaLru.SlotsHoldMostRecent: assumes strictly increasing ticks and non-zero hashes; equal ticks leave the order of their slots to position, and the 32-bit tick may wrap.
- TouchSeqlock.NoTornReads: one writer, steps that interleave, an unbounded sequence counter; weak memory, several writers and a counter that wraps between two loads are not modelled.
- TouchGesture.Swipe: 32-bit overflow of the product in the interpolation, and delays.
- OtaSchedule.AppliedAtMostOnce: commits do not fail, NVS keeps writes in order, erasing does not fail, and no second caller schedules while one is at it.
- OtaVerify.VerifyAndFinish: the download itself, allocation failures, and SHA-256, for which any streaming hash stands.
- RollbackNotice.SurvivorsAreNotAnnounced: needs both of its conditions, which `AnnouncedIffNamesDiffer` and `MisfireHappens` show; the bootloader is two slots with the verdicts of the ESP-IDF, reading and clearing the key and marking an image valid do not fail.
- ToolScrub.MdStripToolMarkers: buffers that overlap without being the same.
- VoiceCaption.CaptionIsRightIff: one reply at a time; the label it is shown in.
- InlineStrip.MdStripInline: buffers that overlap without being the same; cutting at the capacity may split a character.
- ChatStore.Store.SetSession: chat_store_update_session_mode, a store that was never initialised, and null messages are not modelled.
- ChatView.View.Refresh: runs to the end without being re-entered; label contents are not modelled, and slots keep logical indices, which shift when the store evicts.
- ChatView.View.AppendStream: null text.
- StreamedText.StoredIsCut: the store is changed by the appends alone; a message added between two of them becomes the newest and takes the text from there on.
- LogRing.Ring.LogTail: failed allocations and the lock.
- DailyBudget.Budget.Accumulate: sequential calls only; the time zone's date is an argument.
- UrlDecode.UrlPctDecodeInplace: characters are bytes without a sign.
