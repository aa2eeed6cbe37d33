# TermDeck, verified

TermDeck is a server that keeps terminal sessions and coding agents running and shows them in browser
windows.  Behind its HTTP and pty plumbing are algorithms and state machines that must be right for every
input and every interleaving.  This project models those in Dafny and proves what they are for.

`dafny verify dfyconfig.toml` checks everything.  Each component has a file that follows the program's own
form (classes whose methods update their fields, loops with invariants, functions where the program only
computes) and, beside it, a file with what is proved about it:

- `EditScripts`, `EditDistance`, `FilenameMatcher`: fuzzy file-name matching.  The distance is defined by
  edit scripts, independently of the table; the piece filter and the early abort lose nothing.
- `TranscriptChunks`, `TranscriptTail`, `HistoryIndex`, `HistoryRetention`: the transcript index that
  re-reads only its last chunk, against what a chunking is, and the retention that must not fight the next
  scan.
- `MarkerScan`, `Transducer`, `SyncFrames`, `SyncReference`, `TitleCollapse`, `TitleReference`,
  `TitleStreams`: streams cut anywhere.  Each find-based loop is proved to do what an automaton does that
  reads one byte at a time; independence from the cuts follows, and what is left of a stream of frames or
  titles.
- `DraftTracker`, `DraftKeys`, `DraftStreams`: rebuilding a draft from keystrokes, what each key does to it,
  and typing it back.
- `ServiceWatchdog`, `WatchdogHistory`: restarts spaced by a file that may refuse every write, and due only
  after enough silence.
- `ReplayCheckpoint`: output, trimming and asynchronous flushes, one step per await.
- `TextPositions`, `TextEdits`: positions and simultaneous text edits of the Language Server Protocol 3.17
  (sections "Position" and "TextEdit[]").
- `RepaintFilter`, `RepaintPattern`, `RepaintTerminal`: rewriting newline runs as cursor moves, by the grammar
  of its regular expression and against a small terminal in the terms of ECMA-48 (sections 8.3.19 CUD and
  8.3.22 CUU).
- `FileHistory`, `FileHistoryRecording`, `FileHistoryRetention`, `DraftRevisions`: versions of texts under two
  caps, and drafts pushed from several windows.
- `PromptSubmission`, `PromptRuns`: prompts going in while a person types.
- `RateLimit`: the sliding window of the remote service.

`Wrappers` and `Bytes` hold the option and result types and the byte constants.

## Where the code does less than its documentation says

Each has a lemma with a concrete input that fails, and the lemma named beside it says when the promise holds.

- Indexing only the last chunk differs from indexing the whole file when the unfinished last line already
  had a payload and gets another scope once it is completed (`TranscriptTail.UnfinishedLineCanSplitChunk`,
  `TranscriptTail.ResumeEqualsRechunking`).
- A watermark of zero means none, so transcripts dated at the epoch are indexed again after they were given
  up (`HistoryRetention.EpochTranscriptComesBack`, `HistoryRetention.ProtectedIffWatermarkSet`).
- A chunk of keystrokes that ends in ESC is read as the Escape key, which is not how the same keystrokes
  are read at once (`DraftStreams.SeveredEnter`, `DraftStreams.HarmlessUnlessLoneEscape`).
- An eviction that a database error interrupts has deleted transcripts without moving the watermark, so
  those newer than the old one are indexed again (`HistoryRetention.InterruptedEvictionIsUndone`,
  `HistoryRetention.InterruptedComesBackIffNewer`).
- After 1025 restarts without recovery `2.0 ** n` raises, and the watchdog restarts nothing any more
  (`ServiceWatchdog.OverflowEndsRestarts`, `ServiceWatchdog.LastRestartBeforeOverflow`).
- A tick that cannot read the state file but can write it forgets the cooldown
  (`ServiceWatchdog.UnreadableFileForgetsCooldown`, `ServiceWatchdog.LastRestartIsRemembered`).
- A restart is meant to take three unanswered probes in a row; when the write that notes an answer in between
  is lost, they need not be (`WatchdogHistory.LostRecoveryIsCounted`,
  `WatchdogHistory.FirstRestartCountsFromNoted`).
- The CR in front of a rewritten run keeps the cursor only if the run had a CR or started in column 0; and a
  run inside a control string, which the terminal swallows, is rewritten to a move that it does not, unless
  the cursor is in the last row (`RepaintTerminal.BareLineFeedsLoseColumn`,
  `RepaintTerminal.WalkInStringMoves`, `RepaintTerminal.WalkIsKept`).
- Closing a paste before the first repeated Enter is said to cost nothing; with an escape sequence half
  typed it puts text into the tracked draft (`PromptRuns.UnfinishedSequenceIsSubmitted`,
  `PromptRuns.ClosingPasteKeepsDraft`).

## Model

| member | source | states |
|---|---|---|
| `FilenameMatching.FilenameMatcher.FuzzyDistance` | termdeck/search_service.py:68-75 | Behind the length, piece and table filters: with a nonzero budget it answers the true distance from the query to the closest stretch of the name, lowered unless case matters, when that is within the budget, and None exactly when no edit script of that cost exists |
| `FilenameMatching.FilenameMatcher.For` | termdeck/search_service.py:26-54 | A matcher keeps the query, lowered unless case matters, with the pieces that belong to it and no edit for up to three letters, one up to seven, two up to twelve and three beyond |
| `FilenameMatching.Pigeonhole` | termdeck/search_service.py:30-38 | An edit script that costs less than half the pieces leaves one piece letter for letter in what it produces, swaps across piece borders included |
| `FilenameMatching.PiecesCoverQuery` | termdeck/search_service.py:30-38 | Whenever the budget is nonzero the 2*budget+1 pieces are all nonempty and concatenate to the query |
| `FilenameMatching.PieceFilterIsLossless` | termdeck/search_service.py:68-75 | If none of the pieces occurs in a name, no stretch of the name is within the budget |
| `FilenameMatching.EmptyNameIsTooFar` | termdeck/search_service.py:68-75 | The empty name, given up without a table, is farther than any budget the query can have |
| `FilenameMatching.DistanceZeroIsContainment` | termdeck/search_service.py:56-66 | Distance zero is literal containment, so the literal pass and the fuzzy pass agree on exact hits |
| `EditDistance.ClosestSubstringDistance` | termdeck/search_service.py:77-99 | The three-row loop returns the least cost over all edit scripts from the needle to any stretch of the haystack, and None exactly when that is over the budget, early abort included |
| `EditDistance.FillRow` | termdeck/search_service.py:86-95 | One pass over the haystack fills exactly one row of the distance table |
| `EditDistance.FillCell` | termdeck/search_service.py:90-95 | From the two rows above and the cell to the left, the loop body computes exactly the cell of the table |
| `EditDistance.CellIsLowerBound` | termdeck/search_service.py:86-95 | No edit script, whatever its order of edits, undercuts the table |
| `EditDistance.CellIsAchieved` | termdeck/search_service.py:86-95 | Every cell of the table is the cost of some edit script ending there |
| `EditDistance.RowMinimaNeverFall` | termdeck/search_service.py:92-97 | If a whole row is at or above a bound, so is the next, although a swap reads two rows back |
| `EditDistance.AbandonedRowStaysAbandoned` | termdeck/search_service.py:96-97 | Once a whole row is over the budget every later row is, which justifies abandoning the table |
| `EditDistance.LastRowDecides` | termdeck/search_service.py:98-99 | The minimum of the last row is the distance of the closest stretch |
| `TranscriptChunks.ReadSource` | termdeck/history_index.py:615-685 | The scanning loop yields documents that take all lines with a payload in turn, each once: scope, line range, byte range and joined text are those of their lines, and a document ends only at CHUNK_LINES lines, a change of scope or the end of the file |
| `TranscriptChunks.ChunksAreAChunking` | termdeck/history_index.py:639-681 | So does the recursive reading of the file that the incremental results are about, from every line on |
| `TranscriptChunks.ChunkingIsDetermined` | termdeck/history_index.py:639-681 | The lines with a payload leave exactly one such list of documents |
| `TranscriptChunks.NothingOpenIsFresh` | termdeck/history_index.py:639-681 | With no chunk open, a scan goes on exactly as one started at that line |
| `TranscriptTail.FindTail` | termdeck/history_index.py:567-578 | The row the rescan starts from is the one with the greatest line number |
| `TranscriptTail.ChunksAreOrdered` | termdeck/history_index.py:615-685 | Documents come out in strictly ascending lines |
| `TranscriptTail.ScanAtDocument` | termdeck/history_index.py:556-577 | Where a document starts, the whole-file scan has closed exactly the documents before it and is about to change scope |
| `TranscriptTail.ScanSurvivesAppend` | termdeck/history_index.py:556-577 | Appending to the file changes nothing the scan did up to a line that had started |
| `TranscriptTail.Seam` | termdeck/history_index.py:556-577 | Closing the open chunk at a line and starting afresh equals going on if and only if no chunk is open or the next payload has another scope |
| `TranscriptTail.ResumeEqualsRechunking` | termdeck/history_index.py:556-613 | Re-reading only from the last document equals re-chunking the grown file if and only if no chunk open at its start runs on into it |
| `TranscriptTail.FinishedLineStopsChunk` | termdeck/history_index.py:556-577 | It does whenever the line the last document starts on keeps its scope when the append completes it |
| `TranscriptTail.UnfinishedLineCanSplitChunk` | termdeck/history_index.py:556-577 | A file and an append after which incremental and full indexing differ: an unfinished line that changes scope when it is completed |
| `HistoryIndex.RowsFollowTheFile` | termdeck/history_index.py:539-613 | Over every run of appends, syncs, failed reads and drops: that after every step the rows are the chunking of the whole file as last read, or a prefix of it after a failed read, and that every sync finding another size or time, or a new file past the watermark, stores them with the chunking of what it has just read, each hold if and only if no sync that resumes does so inside a chunk that runs on |
| `HistoryIndex.StepFollows` | termdeck/history_index.py:539-613 | The same for one step; a sync that finds nothing new changes nothing, and after a read that fails the rows before the last are left of a file that grew, and none of another |
| `HistoryIndex.CleanAppendResumesCleanly` | termdeck/history_index.py:556-577 | An append that leaves the scope of an unfinished last line alone, if that line indexed to anything, is always resumed cleanly |
| `HistoryIndex.SyncKeepsOrder` | termdeck/history_index.py:556-613 | Whatever is read, a sync leaves the rows of a transcript in line order, so the next one may rely on it |
| `HistoryIndex.Index.SyncPath` | termdeck/history_index.py:539-613 | Syncing one path that is known stores the size and time found, and leaves the rows alone if both are unchanged; an unknown one is indexed exactly past the watermark; the rows are the ones the run theorem is about, in line order, and no other path is touched |
| `HistoryIndex.Index.PruneVanished` | termdeck/history_index.py:488-502 | Exactly the transcripts no longer on disk lose their rows |
| `HistoryIndex.Index.ListOldestFirst` | termdeck/history_index.py:517-518 | The candidates are all the indexed paths, once each, in ascending modification time |
| `HistoryIndex.Index.EnforceSizeLimit` | termdeck/history_index.py:504-537 | Nothing goes at or under the cap; otherwise an mtime-prefix goes, no batch further than needed, the watermark becomes its newest time, and without a stop request the index ends at or under the keep level, or empty; a database error at any batch leaves the prefix deleted so far and the old watermark |
| `HistoryIndex.SizeLimits` | termdeck/history_index.py:58-77 | The cap is the configured megabytes or the default, keep is under it by the margin and at least half of it, or retention is off, which is exactly for a negative setting |
| `HistoryIndex.CutIsEviction` | termdeck/history_index.py:519-533 | Giving up the first candidates of the listing leaves nothing older than anything given up |
| `HistoryRetention.CutNeverMovesBack` | termdeck/history_index.py:403-424 | In every run of syncs, prunings and evictions every indexed transcript is at or past the watermark, and the watermark never decreases |
| `HistoryRetention.EvictedStaysOut` | termdeck/history_index.py:471-486 | A transcript given up under a nonzero watermark and not touched since is never indexed again |
| `HistoryRetention.ProtectedIffWatermarkSet` | termdeck/history_index.py:539-555 | The next scan passes an evicted, untouched transcript over if and only if the watermark is nonzero, that is if something given up was modified after the epoch |
| `HistoryRetention.EpochTranscriptComesBack` | termdeck/history_index.py:539-555 | A transcript dated at the epoch that retention gives up is indexed straight back |
| `HistoryRetention.InterruptedComesBackIffNewer` | termdeck/history_index.py:519-533 | After an eviction that a database error cut short, the next scan indexes an untouched transcript it deleted again if and only if that is newer than the watermark before, or there was none |
| `HistoryRetention.InterruptedEvictionIsUndone` | termdeck/history_index.py:504-533 | A state and an interrupted eviction whose deleted transcript the next scan indexes again |
| `MarkerScan.PartialLength` | termdeck/session_manager.py:1111-1116 | The held-back tail is the longest beginning of the marker the data ends in |
| `SyncFrames.ScrollbackFilter.DurableBytes` | termdeck/session_manager.py:1093-1125 | One read is stripped together with what was carried, and the carry and the inside flag are the ones left |
| `SyncFrames.StripAll` | termdeck/session_manager.py:1103-1125 | The find-based loop strips what the recursive reading of the stream strips |
| `SyncReference.StripIsRun` | termdeck/session_manager.py:1103-1125 | The loop and a byte-at-a-time automaton agree on output, side and carry for every input |
| `SyncReference.ChunkIsRun` | termdeck/session_manager.py:1093-1125 | A call with something carried does what the automaton does from the state the carry stands for, and leaves such a state |
| `SyncReference.CutIsHarmless` | termdeck/session_manager.py:1093-1125 | Splitting a read in two changes nothing kept, carried or remembered, if and only if the split is not between a closing marker and line breaks that follow it, in which case strictly more is kept |
| `SyncReference.ReadsAreHarmless` | termdeck/session_manager.py:1093-1125 | However a stream is cut into reads, the same is kept, carried and remembered as at once if and only if no read ends between a closing marker and line breaks that follow it; otherwise strictly more is kept |
| `SyncReference.FramesVanish` | termdeck/session_manager.py:1093-1125 | Of texts and frames in turn, exactly the texts are kept: frames, markers and the line breaks after a closing marker are gone |
| `SyncReference.UpdateFramesVanish` | termdeck/session_manager.py:1093-1125 | The same for the synchronized-update markers themselves, from a session just started |
| `TitleCollapse.TitleRecorder.CollapseTitles` | termdeck/replay_recorder.py:276-313 | One read is collapsed together with what was carried; output, carry, discard flag and kept title are the ones left |
| `TitleCollapse.CollapseAll` | termdeck/replay_recorder.py:282-313 | The position-driven loop collapses what the recursive reading of the data collapses |
| `TitleCollapse.PartialTitlePrefixLength` | termdeck/replay_recorder.py:267-274 | The held-back tail is the longest beginning of any of the title prefixes the data ends in |
| `TitleCollapse.FirstTitleIsFind` | termdeck/replay_recorder.py:283-292 | The earliest of the prefixes searched for one by one is the first place a title starts |
| `TitleCollapse.TitleEndIsFirst` | termdeck/replay_recorder.py:294-308 | BEL or ESC backslash, whichever comes first, ends a title, and nothing before it does |
| `TitleReference.CollapseIsRun` | termdeck/replay_recorder.py:276-313 | From a clean start one call outputs, keeps and carries what a byte-at-a-time reader does that never shortens a title |
| `TitleReference.CallIsRun` | termdeck/replay_recorder.py:276-313 | So does every later call, also while an over-long title is being discarded behind a shortened carry |
| `TitleReference.RecordIsRun` | termdeck/replay_recorder.py:276-313 | And so do whole runs of reads |
| `TitleReference.CuttingChangesNothing` | termdeck/replay_recorder.py:276-313 | However a stream is cut into reads: same output, same kept title, same discard flag, same carry unless discarding, and a carry never over MAX_TITLE_BYTES |
| `TitleStreams.TitlesVanishHoweverCut` | termdeck/replay_recorder.py:276-313 | Of texts and whole titles in turn, however cut into reads, exactly the texts are output, and the last title of at most MAX_TITLE_BYTES is kept |
| `DraftTracker.DraftInputTracker.FeedText` | termdeck/draft_tracker.py:39-78 | Feeding a chunk leaves the draft, paste flag and pending escape of the function that the laws about keys and about cuts are proved of |
| `DraftTracker.DraftInputTracker.ConsumeEscape` | termdeck/draft_tracker.py:90-128 | An escape sequence is taken only when complete and then has its effect; an unfinished one changes nothing |
| `DraftTracker.DraftInputTracker.PopLastWord` | termdeck/draft_tracker.py:80-84 | The loops pop trailing spaces and then a word back to a space or a new line |
| `DraftKeys.KeyIsRead` | termdeck/draft_tracker.py:54-128 | With nothing pending: a printable is added below the cap, Backspace takes the last character, Ctrl-U all back to the last new line, Ctrl-W and Alt-Backspace the spaces at the end and the whole word before them, Ctrl-C all; Enter empties the draft or adds a new line inside a paste, Alt-Enter adds one; other controls and whole escape sequences change nothing |
| `DraftKeys.KeyDoesOneThing` | termdeck/draft_tracker.py:54-88 | What a key is said to do determines the draft, the paste flag and what is pending |
| `DraftKeys.KeysAreRead` | termdeck/draft_tracker.py:39-78 | Any keys, however many come in one read, are read as just these keys pressed in turn |
| `DraftKeys.TypedThenErased` | termdeck/draft_tracker.py:69-77 | Backspace after a printable below the cap restores the draft |
| `DraftKeys.LoneEscapeAwaitsOpener` | termdeck/draft_tracker.py:40-52 | After a read that ends in a lone ESC the next goes on with the sequence exactly if it starts with one of the four openers |
| `DraftStreams.ScanInTwo` | termdeck/draft_tracker.py:39-78 | Scanning a concatenation is scanning the first part and then its pending text with the second |
| `DraftStreams.CutIsHarmless` | termdeck/draft_tracker.py:39-78 | Feeding in two parts equals feeding at once unless the first part leaves a lone ESC that the second does not continue |
| `DraftStreams.SeveredEscape` | termdeck/draft_tracker.py:43-53 | What each of the two readings does with the next key in that case |
| `DraftStreams.CutAtEscapeKey` | termdeck/draft_tracker.py:43-53 | Cutting there is still harmless for every continuation if and only if the key after Escape reads the same as the sequence would |
| `DraftStreams.HarmlessUnlessLoneEscape` | termdeck/draft_tracker.py:39-78 | All continuations are read the same as at once if and only if what is pending is not a lone ESC |
| `DraftStreams.SeveredEnter` | termdeck/draft_tracker.py:43-53 | A split after ESC that turns a new line into a submission |
| `DraftStreams.PutBackRebuilds` | termdeck/session_manager.py:1893-1899 | Typing Ctrl-U and a draft as one bracketed paste into an empty tracker rebuilds the draft if and only if every printable in it stands below the cap and nothing else but new lines is in it |
| `DraftStreams.TypedDraftsCanBePutBack` | termdeck/session_manager.py:1893-1899 | Every draft reachable by keystrokes from an empty tracker is such a draft, past the cap by new lines or not |
| `ServiceWatchdog.Watchdog.DoTick` | termdeck/service_watchdog.py:121-199 | One tick against a store that may refuse reads and writes leaves the persisted state, outcome and restart that the step function gives |
| `ServiceWatchdog.Watchdog.WriteState` | termdeck/service_watchdog.py:88-105 | A write either lands whole or leaves the file as it was |
| `ServiceWatchdog.AttemptRespectsCooldown` | termdeck/service_watchdog.py:148-199 | A restart is asked for only when the persisted cooldown is over, and only with the attempt and its time on disk; any other tick leaves the last restart in the file if and only if it could read the file, wrote nothing, or there was none |
| `ServiceWatchdog.LastRestartIsRemembered` | termdeck/service_watchdog.py:148-199 | Over every run without a restart the file still has the last one at the end if and only if no tick of the run forgets it in that way |
| `ServiceWatchdog.ConsecutiveAttemptsAreSpaced` | termdeck/service_watchdog.py:148-199 | Any two consecutive restarts with no forgetting tick between them are at least the cooldown apart that the file calls for at the second |
| `ServiceWatchdog.AttemptsFollowBackoff` | termdeck/service_watchdog.py:148-213 | With no reset persisted and nothing forgotten, the k-th restart from any state comes no sooner than the cooldowns up to it add up to |
| `ServiceWatchdog.BackoffSchedule` | termdeck/service_watchdog.py:148-213 | Counted from the first restart, whatever had been counted before it: the k-th after it comes at least the sum of min(300*2^(i-1), 3600) seconds later, and of the longer cooldowns that earlier restarts call for |
| `ServiceWatchdog.CooldownsDoubleToTheCap` | termdeck/service_watchdog.py:201-213 | The cooldowns are 300, 600, 1200 and 2400 seconds and 3600 from the fifth on |
| `ServiceWatchdog.NoMemoryNoRestart` | termdeck/service_watchdog.py:174-187 | With a file that refuses every write nothing is ever restarted |
| `ServiceWatchdog.OverflowEndsRestarts` | termdeck/service_watchdog.py:201-213 | Past 1025 restarts without recovery the cooldown overflows a float and no restart is asked for again while the deck stays silent |
| `ServiceWatchdog.LastRestartBeforeOverflow` | termdeck/service_watchdog.py:201-213 | Whether a due restart is still asked for is exactly whether the count is at most that bound |
| `ServiceWatchdog.UnreadableFileForgetsCooldown` | termdeck/service_watchdog.py:81-86 | One failed read lets a second restart happen with no cooldown in between |
| `WatchdogHistory.TickDoesWhatIsDue` | termdeck/service_watchdog.py:121-199 | With a file that can be read and written, from the ticks alone: a restart is asked for exactly by a silent tick that is at least the FAILURE_THRESHOLD-th in a row since a restart was reported, once the cooldown over the tries in vain has passed and its power has not overflowed; the outcome reported follows likewise |
| `WatchdogHistory.RestartEndsSilentRow` | termdeck/service_watchdog.py:141-150 | As long as every tick that finds the deck answering or stopped gets to write that down, a restart is asked for only by a tick that is silent as the FAILURE_THRESHOLD - 1 before it are |
| `WatchdogHistory.FirstRestartCountsFromNoted` | termdeck/service_watchdog.py:125-160 | Whichever of those writes are lost, the first restart is asked for if and only if enough silent ticks came since one that landed and the first cooldown has passed |
| `WatchdogHistory.LostRecoveryIsCounted` | termdeck/service_watchdog.py:141-146 | Two silent ticks, an answered one whose write is lost and a silent one make a restart |
| `WatchdogHistory.AnsweredRowEndsBackoff` | termdeck/service_watchdog.py:134-146 | FAILURE_THRESHOLD answered ticks in a row bring the cooldown back to its first value, whatever the file held |
| `ReplayCheckpoint.Scrollback.AppendDurable` | termdeck/session_manager.py:1127-1145 | Output extends the buffer and what is pending, trims the front to the limit and counts a compaction when it does |
| `ReplayCheckpoint.Scrollback.StartFlush` | termdeck/replay_recorder.py:146-183 | The shared flush, whichever session asked for it, copies what is due and decides between append and replacement |
| `ReplayCheckpoint.Scrollback.FinishFlush` | termdeck/replay_recorder.py:254-263 | A flush ends, and asks for the next one if some write landed and anything is due again |
| `ReplayCheckpoint.Scrollback.ArmFlush` | termdeck/replay_recorder.py:232-252 | Output asks for a flush unless one is waiting or writing |
| `ReplayCheckpoint.Scrollback.RecordSuccess` | termdeck/replay_recorder.py:185-194 | A landed write takes its bytes off what is pending, and a replacement of the current generation settles it |
| `ReplayCheckpoint.RestoredIsConsistent` | termdeck/replay_recorder.py:98-114 | A session restored from its file starts consistent, and its output is the file |
| `ReplayCheckpoint.StepKeepsConsistent` | termdeck/replay_recorder.py:145-263 | Output of this or another session, trimming and every step of the shared flush keep file, pending and buffer consistent |
| `ReplayCheckpoint.RunKeepsConsistent` | termdeck/replay_recorder.py:145-263 | So does every run of them |
| `ReplayCheckpoint.NothingLostNothingTwice` | termdeck/replay_recorder.py:145-263 | In every interleaving the file is a contiguous slice of all durable output, pending is exactly what follows it, and with equal generations file and pending make up the buffer |
| `ReplayCheckpoint.FileStaysWithinLimit` | termdeck/replay_recorder.py:162-183 | Only a file that was over SCROLLBACK_BYTES to begin with, and has not been written since, is ever over it |
| `ReplayCheckpoint.UnsavedOutputIsScheduled` | termdeck/replay_recorder.py:222-263 | Whenever something is due, a flush is waiting or writing, unless the last flush to end landed nothing, or none has ended yet |
| `ReplayCheckpoint.FlushMakesDurable` | termdeck/replay_recorder.py:201-263 | After an uninterrupted flush that any session asked for, a restart restores exactly the buffer and nothing is left to write |
| `ReplayCheckpoint.FittingOutputIsAppended` | termdeck/replay_recorder.py:146-160 | In every run whose output fits the buffer a flush writes just what is pending, but for the first of a missing file |
| `ReplayCheckpoint.FailedFlushWaitsForOutput` | termdeck/replay_recorder.py:254-263 | A flush in which every write failed is not repeated until output arrives somewhere; after one that landed a write, what is due is |
| `TextPositions.FindUtf16Offset` | termdeck/lsp_workspace_edit.py:119-132 | The counting loop finds the code-point offset of a UTF-16 position, or the error |
| `TextPositions.Utf16OffsetInverts` | termdeck/lsp_workspace_edit.py:119-132 | An offset is found if and only if the position is the UTF-16 length of the line up to it |
| `TextPositions.Utf16OffsetFails` | termdeck/lsp_workspace_edit.py:119-132 | It fails past the line exactly beyond its UTF-16 length and as a split pair exactly inside one |
| `TextPositions.UnitsAreOfEncoding` | termdeck/lsp_workspace_edit.py:119-132 | The lengths counted are those of an encoding into 16-bit units that can be read back |
| `TextPositions.PositionsInvert` | termdeck/lsp_workspace_edit.py:101-117 | A position has an offset if and only if it is the position of that offset, over LF, CR and CRLF lines, with only the inside of a CRLF left out |
| `TextEdits.PlanFileEdit` | termdeck/lsp_workspace_edit.py:67-92 | If every edit names two positions of the text in order, the plan is the simultaneous replacement of exactly those ranges by their texts, or refused if any two overlap; otherwise it is refused for what is wrong with the first edit that does not |
| `TextEdits.OffsetsAreTheRanges` | termdeck/lsp_workspace_edit.py:69-76 | Resolving finds the only ranges that start and end where the positions of the edits stand and bring their texts, or the fault of the first edit that has none |
| `TextEdits.SpliceBackToFront` | termdeck/lsp_workspace_edit.py:85-91 | The loop from the last range to the first splices each new text into the text so far |
| `TextEdits.SpliceIsInterleave` | termdeck/lsp_workspace_edit.py:85-91 | Splicing sorted disjoint ranges from the back is reading gaps and new texts from the front |
| `TextEdits.InterleaveIsSimultaneous` | termdeck/lsp_workspace_edit.py:77-92 | Which is replacing every range at once by original offsets |
| `TextEdits.SplicingIsSimultaneous` | termdeck/lsp_workspace_edit.py:77-92 | So sorting and splicing equals simultaneous replacement of the unsorted edits, same-point inserts in list order |
| `TextEdits.SortIsStable` | termdeck/lsp_workspace_edit.py:77 | Sorting by start and end keeps edits of the same range in list order |
| `TextEdits.SortedApartIffNoneOverlap` | termdeck/lsp_workspace_edit.py:78-84 | No two neighbours of the sorted ranges overlap if and only if no two ranges do |
| `TextEdits.ResultLength` | termdeck/lsp_workspace_edit.py:85-91 | The result is as long as the text less what is removed plus what is inserted |
| `TextEdits.OrderDoesNotMatter` | termdeck/lsp_workspace_edit.py:77-92 | For pairwise different ranges the order of the list is irrelevant |
| `RepaintFilter.Filter.Feed` | termdeck/repaint_filter.py:36-51 | One read is rewritten by the substitution, and the counter grows by the lines it collapsed |
| `RepaintFilter.Filter.SubstituteAll` | termdeck/repaint_filter.py:51 | The substitution replaces the leftmost walk and goes on after it |
| `RepaintFilter.WalkAndReturn` | termdeck/repaint_filter.py:29-30 | A walk is a maximal run of line breaks followed by moves and a cursor-up |
| `RepaintFilter.WithoutNewlinesUnchanged` | termdeck/repaint_filter.py:38-39 | A read without a newline has nothing to rewrite, so the early return is exact |
| `RepaintPattern.WalkIsThePattern` | termdeck/repaint_filter.py:24-30 | The scanning finds exactly what the regular expression, read as a grammar, matches at a place: line breaks, horizontal moves and cursor shows or hides, and a cursor-up |
| `RepaintPattern.RewriteOfWalk` | termdeck/repaint_filter.py:36-51 | Where it matches, a run of two lines or more becomes CR and a cursor-down by its lines, a shorter one stays, and the substitution goes on behind the match |
| `RepaintPattern.RewriteOfOther` | termdeck/repaint_filter.py:51 | Where it does not match, one byte is kept |
| `RepaintTerminal.RunWalksDown` | termdeck/repaint_filter.py:42-49 | Outside control strings, line breaks move the cursor down, scroll at the last row by exactly what is left over, and return to column 0 only if a CR is among them |
| `RepaintTerminal.CursorDownGoesDown` | termdeck/repaint_filter.py:47-49 | What replaces them reaches the same row without scrolling, in column 0 unless a control string swallows the CR |
| `RepaintTerminal.WalkIsKept` | termdeck/repaint_filter.py:41-49 | In every state of the terminal, a rewritten walk leaves the same cursor as the original, with exactly the scrolls saved, if and only if the run held a CR or started in column 0 or, inside a control string, the cursor is in the last row |
| `RepaintTerminal.RewriteIsAlike` | termdeck/repaint_filter.py:36-51 | For whole reads each of whose collapsed runs meets that condition: same cursor, same coordinates for everything written, and fewer lines scrolled by exactly what the runs would have scrolled |
| `RepaintTerminal.ScreenIsTheSame` | termdeck/repaint_filter.py:36-51 | The terminals, marks and scrolling included, are equal if and only if no collapsed run would have scrolled |
| `RepaintTerminal.BareLineFeedsLoseColumn` | termdeck/repaint_filter.py:47-49 | A run of bare line feeds starting in column 5 that the rewriting moves to column 0 |
| `RepaintTerminal.WalkInStringMoves` | termdeck/repaint_filter.py:41-49 | A walk inside a control string after which the cursor is in another row if the walk was rewritten |
| `FileHistory.FileHistoryService.RecordSnapshot` | termdeck/file_history_service.py:95-120 | Recording a text leaves the table as it is, folds the text into the latest version or inserts it, trims, and returns the id of the version that holds it |
| `FileHistory.FileHistoryService.Trim` | termdeck/file_history_service.py:79-93 | The deletion and the byte loop leave what dropping the crowded-out versions leaves |
| `FileHistory.FileHistoryService.ObserveFile` | termdeck/file_history_service.py:122-129 | A text seen on disk is recorded as external, or as opened if it is the first |
| `FileHistory.FileHistoryService.RecordWrite` | termdeck/file_history_service.py:131-133 | The text about to be replaced is recorded before the one replacing it |
| `FileHistoryRecording.RecordingActsOnNewest` | termdeck/file_history_service.py:95-120 | Recording leaves the newest version of a file that holds the text, gives it the text and the time if both are manual, less than ten seconds apart and the text begins with its text, and otherwise adds a version; of the others none is changed |
| `FileHistoryRecording.RecordingAddsFirst` | termdeck/file_history_service.py:110-120 | The first text of a file is added as a version |
| `FileHistoryRecording.ObservingNeverFolds` | termdeck/file_history_service.py:122-129 | A text seen on disk that the newest version does not hold is added as external, or as opened if it is the first |
| `FileHistoryRetention.TrimKeepsExactly` | termdeck/file_history_service.py:79-93 | A version survives trimming if and only if its file has fewer than the cap newer ones and it and the newer ones left of its root fit the bytes |
| `FileHistoryRetention.RecordedWithinCaps` | termdeck/file_history_service.py:95-120 | After every recording all files are within their versions and all roots within their bytes |
| `FileHistoryRetention.RunWithinCaps` | termdeck/file_history_service.py:95-120 | So they are after every run of recordings |
| `FileHistoryRetention.RecordedIsHeld` | termdeck/file_history_service.py:102-120 | The version returned holds exactly the text recorded, if and only if it and the newer ones of its root fit the bytes |
| `FileHistoryRetention.RecordedKeeps` | termdeck/file_history_service.py:63-120 | One more recording leaves every version with room under both caps in place, holding a text that starts with what it held |
| `FileHistoryRetention.TextStaysReadable` | termdeck/file_history_service.py:63-120 | Over every run, a text once held stays the beginning of the same version until as many newer versions or bytes as are kept can have come |
| `DraftRevisions.ManagedDraft.SetDraft` | termdeck/session_manager.py:1630-1659 | A push is acknowledged, refused or applied, and answered with the draft, revision and conflict flag that belong to it |
| `DraftRevisions.ManagedDraft.ApplyDraftChange` | termdeck/session_manager.py:1613-1628 | A change moves the draft and the revision and records the text replaced and the text brought |
| `DraftRevisions.SameRevisionSameText` | termdeck/session_manager.py:1613-1659 | Over every run, as long as the revision is the same the text is |
| `DraftRevisions.PushLandsIffCurrent` | termdeck/session_manager.py:1630-1659 | A push that changes the text lands if and only if it names no base, its base is the current revision or there is none yet; a refused one moves nothing, nor does one of the same text, and the window is told the draft there is |
| `DraftRevisions.PushReplacesWhatTheWindowSaw` | termdeck/session_manager.py:1630-1659 | A window pushing from the revision it was told replaces exactly the text it was told, or is refused because the draft changed since |
| `DraftRevisions.RefusedIsHeld` | termdeck/session_manager.py:1644-1655 | The history holds every refused text |
| `DraftRevisions.BothTextsAreHeld` | termdeck/session_manager.py:1619-1625 | After a change the history holds the text replaced and the text brought, if the root has room for the versions since the replaced one |
| `DraftRevisions.HistoryIsItsWrites` | termdeck/session_manager.py:1613-1659 | What a run of pushes and changes does to the history is recording its texts in order |
| `DraftRevisions.DraftTextStaysReadable` | termdeck/session_manager.py:1613-1659 | Over every run, with other sessions recording too, a held draft text stays readable until the caps can have reached it |
| `DraftRevisions.NoDraftTextIsLost` | termdeck/session_manager.py:1613-1659 | Every text the draft had, was given or refused anywhere in a run is held at its end, if the recordings after that leave room under the caps |
| `PromptSubmission.PromptComposer.WriteUserInput` | termdeck/session_manager.py:1550-1560 | Typing is held while a prompt goes in and written at once otherwise |
| `PromptSubmission.PromptComposer.ReleaseComposer` | termdeck/session_manager.py:1730-1745 | The earlier draft goes back when the prompt landed and nothing is in the composer, then the held typing in order, once; the run theorems say so by what is written |
| `PromptSubmission.PromptComposer.SubmitPrompt` | termdeck/session_manager.py:1706-1748 | Up to the first await: the hold starts and Ctrl-U with the paste is written |
| `PromptSubmission.PromptComposer.ResumeSettled` | termdeck/session_manager.py:1749-1775 | After the paste has settled: the draft is put back if a dialog blocks, or Enter or Tab is pressed |
| `PromptSubmission.PromptComposer.ResumePolled` | termdeck/session_manager.py:1848-1872 | After a poll: the submission ends, or the hold runs out and Enter is pressed again |
| `PromptSubmission.PromptComposer.Abandon` | termdeck/session_manager.py:1776-1777 | A submission that fails or is cancelled still gives the typing back |
| `PromptRuns.StepIsSound` | termdeck/session_manager.py:1706-1784 | Every step of every interleaving keeps typing complete and in order, pastes unbroken and retries in bounds |
| `PromptRuns.TypingArrivesOnceInOrder` | termdeck/session_manager.py:1550-1560 | Over every run what was typed is what reached the terminal followed by what is held, and nothing is held once no submission is under way |
| `PromptRuns.NoTypingBeforeSubmit` | termdeck/session_manager.py:1706-1784 | Between a prompt's paste and its Enter or Tab no typing is written |
| `PromptRuns.RetryPressesOnlyThePrompt` | termdeck/session_manager.py:1827-1872 | Enter is pressed again only with the tracked draft empty or the prompt, except right after a paste end that an unfinished escape sequence made into text |
| `PromptRuns.ClosingPasteKeepsDraft` | termdeck/session_manager.py:1861-1868 | The paste end leaves the tracked draft alone if and only if nothing is pending but Escape or a control string, or the draft is at the cap |
| `PromptRuns.UnfinishedSequenceIsSubmitted` | termdeck/session_manager.py:1827-1872 | A run in which the retry presses Enter on text that is neither empty nor the prompt |
| `PromptRuns.SubmissionKeepsDraft` | termdeck/session_manager.py:1706-1775 | A prompt without ESC that goes in undisturbed writes Ctrl-U and the prompt, then Enter, or Tab to queue it, then the draft that was there, and leaves the tracker holding just that |
| `PromptRuns.StepPutsBackIff` | termdeck/session_manager.py:1730-1777 | While a submission is under way an event puts its draft back if and only if the prompt lands by it, there was a draft, and nothing is left in the composer |
| `PromptRuns.PutBackIsWhatPasteCleared` | termdeck/session_manager.py:1730-1738 | Over every run a draft put back is the one the last paste cleared, after its Enter or Tab, into an empty composer, and once |
| `PromptRuns.WaitingGivesBackAndPresses` | termdeck/session_manager.py:1848-1872 | A prompt still waiting: the typing is given back exactly once the hold is over, and Enter is pressed again if and only if the draft is empty or the prompt, the first time with the paste closed before it |
| `PromptRuns.BlockedPasteIsTakenBack` | termdeck/session_manager.py:1752-1757 | If a dialog came up over the paste, nothing is pressed and the tracked draft is the earlier one with the typing since |
| `PromptRuns.MissingPromptStaysAsDraft` | termdeck/session_manager.py:1766-1772 | A prompt that nothing shows to have gone in becomes the tracked draft if nothing else is there, with the typing since |
| `RateLimit.SlidingWindowRateLimiter.Allow` | remote_service/rate_limit.py:12-21 | One request: times before the window are dropped, and the answer and the table follow from how many are left |
| `RateLimit.RunIsConsistent` | remote_service/rate_limit.py:12-21 | Over every run in clock order the table forgets nothing that a present or later window could count |
| `RateLimit.RefusedIffWindowIsFull` | remote_service/rate_limit.py:12-21 | A request is refused if and only if the limit of its key was already accepted in the closed hour that ends with it |
| `RateLimit.WindowHoldsAtMostLimit` | remote_service/rate_limit.py:12-21 | No closed window of an hour, wherever it starts, holds more than the limit accepted of one key |

## Left out

- HistoryIndex.RowsFollowTheFile: assumes, as the program does, that a file whose size grew was only appended to.
- HistoryRetention.EvictedStaysOut: needs a nonzero watermark and per-file modification times that never go back; at zero it is false, as HistoryRetention.EpochTranscriptComesBack shows.
- RepaintTerminal.RewriteIsAlike: is about reads each of whose collapsed runs may be replaced where it stands; RepaintTerminal.WalkIsKept says exactly which those are.
- ServiceWatchdog.AttemptsFollowBackoff: is about runs in which no tick forgets the last restart and no recovery is persisted; ServiceWatchdog.LastRestartIsRemembered says exactly which ticks forget it.
- PromptRuns.RetryPressesOnlyThePrompt: names the one case in which the code presses Enter on other text.
- DraftRevisions.BothTextsAreHeld: asks for room under the byte cap, because a version the caps reach is deleted in the same recording.
- HTTP, WebSockets, subprocesses, ptys, service managers, clocks and random choices: their results are parameters of the steps.
- SQL, full-text matching and JSON: tables are sequences and maps, payload extraction is an uninterpreted function of a line, hashes and document ids stand for what they are computed from, and case folding is an uninterpreted function on strings.
- Transcript titles and working directories in the index, which incremental and full scans may set differently.
- The ranking of search candidates and the literal score: sorting keys without a further property.
- The raw-replay flavour of checkpointing, which strips trailing wipes and adds the title; a failed append that wrote part of its bytes; deleting or ending a session during its flush: a session that no longer runs is never flushed again. Of the other sessions of a flush only their output, their landed writes and whether anything of theirs is due again are modelled.
- Floating point: cooldowns, clocks and intervals are real numbers, and only the overflow of a power of two is modelled.
- Lone surrogates and the line separators of `splitlines` other than LF, CR and CRLF in text edits; edits whose JSON has the wrong types.
- Margins, wrapping, wide characters, reverse index and saved cursors in the terminal; other control sequences may move the cursor in any way that does not depend on how far the screen has scrolled.
- A write to the pty that raises while held typing is being given back, and a session whose process is gone.
- The preserved-composer guard, which takes the same lock, holds typing in the same way and gives it back at its end; the Escape pressed to leave a search view counts as a direct write.
- In a prompt submission, which replies of the terminal count as typing: the model is told.
- Recording a write takes the time once, where the program asks the clock for each of its two recordings; another thread between the two parts of an observation is not modelled.
- Activity and attention heuristics, compaction rescue, bundles, settings, installers, remote pairing and the colour replies of the pty: they would add only easy members, or have no such property.
