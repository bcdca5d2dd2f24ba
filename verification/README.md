# Scrybe: verified models of its hardest logic

Scrybe records meetings on a desktop: it captures system audio and a microphone, transcribes and annotates them, and
ships as a Cargo workspace and a macOS bundle. This project models the parts of it whose correctness is hardest to see
by reading, and proves for every input, run or failure what their code and documentation promise.

`dafny verify dfyconfig.toml` checks everything (Dafny 4.11). Each module names the source file it follows.

| part | modules |
|---|---|
| the order in which the workspace's packages are published | `PublishOrder`, `Ordering` |
| installing the macOS bundle with a rollback | `MacosBundle`, `BundlePlist` |
| what the Core Audio streams acquire and give back | `CoreAudio`, `CoreAudioTap`, `NativeMic` |
| the one-shot frame channel of the capture adapters | `CaptureChannel`, `MacCapture`, `NativeMic`, `MicCapture` |
| frame counters, timestamps, the peak diagnostic, interleaving | `FrameClock`, `TapDiagnostics`, `Interleaving`, `Arithmetic` |
| transcript lines and generated titles | `Transcript`, `TranscriptForgery`, `Title`, `Text` |
| writing one version into every manifest | `VersionTemplates`, `VersionLines`, `VersionSites`, `VersionPlaces`, `VersionPins`, `VersionBreaks`, `VersionWitness`, `VersionProbe`, `VersionFiles`, `VersionSurfaces`, `VersionAgreement` |
| reading the shipped content security policies back | `PolicyExtractor` |
| the calibration chime and the status-bar frames | `ProbeChime`, `Tray` |
| session identities confined to a storage root | `Identity`, `Text` |

## How the parts are modelled

The contracts of the main operations speak of what comes in and goes out: manifest entries, bytes, characters, lines,
pixels, samples and calls, with the texts and numbers spelled out. The functions that the methods compute with have
lemmas that say the same of them.

**Publishing.** A workspace maps names to packages. The method `Order` follows the script's loop; the specification speaks
of the manifests' entries alone: an arrangement has whatever a package's own manifest requires before it, and the answer
is the first arrangement in alphabetical order. Refusal is tied in both directions to a round of packages each of which
requires the next, by a walk that must repeat a node.

**Bundle.** A disk is a map from paths to entries, and every call on it may fail; a failed recursive removal may leave
any part of the tree, and a failed write any content in its own file. The disk keeps the history of all its states, so
the transactional property is about every moment, not only the end. `exists` may miss an entry on a disk that is not
`reliable`; the safety clauses hold even then. On an `obliging` disk every call succeeds that can, which is how success is
stated and not only the harmlessness of failure. The names `.scrybe-install-…` and `.scrybe-backup-…` are the installer's
own: the theorem asks that the destination does not have such a name. `codesign` is an oracle: what it accepts is
recorded in `verified`, and what it was given to sign and what it left in `signings`. What is installed is what it left
of a bundle with the program, the rendered property list and the entitlements, each in its place.

**Core Audio.** `Hal` records the calls that took effect in a ghost trace and refuses any that would break discipline:
give back what is not held, is running, is initialized or is still used by something else, start what runs, stop what
does not. The contracts of the streams show that no code path asks for such a call, whatever fails; calls
about a `dependable` kind of resource do not fail, so that success is stated too. A stop is recorded with its answer,
which is what an adapter's `stop` answers. The lemmas of `CoreAudio` read the trace as counts and order.

**Channels.** `CaptureChannel.Next` is the state machine of an adapter seen by its user; the adapter classes hold the
fields of the source, and each method is proved to be one step of that machine. The machine's runs carry the
conservation and finality theorems. A callback may run between any two calls of the adapter, and during `stop`.

**Text.** The transcript has a reader that is not in the source: a line that reads as a head starts a chunk, any other
line goes on with the text above it. Whether any reader could tell a chunk from other chunks depends on its text alone:
it is forged if, behind a line feed that follows no white space, it goes on as a rendering would
(`TranscriptForgery.Forged`), and exactly the chunks whose text is not forged are the only ones with their transcript.
The policy extractor's pattern is a syntax tree with a backtracking matcher that lists every end in the order in which
Python's engine tries them; the answer is the first.

**Versions.** The script gives the version to `re.subn` inside a template, so a backslash in it is an escape.
`VersionTemplates` expands templates as Python does, into characters and references to the match, or refuses them; the
substitution writes what the expansion makes of each match. Four promises of the script fail at the edges, and the model
says exactly where, for whole files, with their reading and writing in between.

- A second rewriting changes nothing, on every file, if and only if the expansion has no quote and no reference to the
  match. `\042` and `\g<0>` have no quote in them and grow.
- A second repinning changes nothing, on every file and for all members, if and only if what the expansion writes over
  the pin that says `path = ` settles (`VersionBreaks.Settles`, a test on one short text). Without a line break that
  means no quote and no reference. With one, a quote may not close the pin before the break, no whole line of it may
  have both a path and a pin, and its last line may not be about to open a pin.
- Lines without a path into the workspace stay as they are and where they are, to the byte, if and only if no pin moves,
  or the expansion has no line break and none of those lines ends in a carriage return: reading turns these into line
  feeds. A pin moves if it shares a line with such a path and does not say what would be written over it.
- The host's manifest is written over line by line, so that only lines that begin with `version = "` change, if and only
  if each of these versions that is closed at all is closed on its own line: the pattern runs on over line feeds.

**Buffers.** The chime is over `real`, with the sine as a parameter that is bounded by one and repeats every turn. The
playback and the rasteriser work in place on arrays and are proved equal to functions of the old contents.

**Identities.** Paths are read and joined by two conventions, Unix and Windows with its drives and network prefixes. The
confinement is an equivalence: an accepted identity adds itself as one component exactly unless the root is, on Windows,
the name of a server without a share, such as `\\server`; then the identity becomes the share.

## Model

| member | source | states |
|---|---|---|
| `PublishOrder.Order` | scripts/publish-order.py:148-190 | Succeeds exactly when the set can be arranged so that whatever a manifest requires of it stands earlier, and exactly when no round of packages requires itself; then the answer is the alphabetically first arrangement. Otherwise the refusal names, sorted, exactly the largest set in which every package requires another of it, and that set contains such a round. |
| `PublishOrder.AssertClosed` | scripts/publish-order.py:148-169 | Succeeds exactly when no manifest of the set requires a package outside it; otherwise reports exactly these pairs, each once, by package and then by dependency. |
| `PublishOrder.Derive` | scripts/publish-order.py:341-349 | Over the manifests: which of the three refusals comes when, and otherwise the first arrangement of the publishable packages; all its prefixes resolve. |
| `PublishOrder.EveryPrefixResolves` | scripts/publish-order.py:172-190 | For a closed set every prefix of an arrangement contains whatever its members' manifests require of the workspace. |
| `PublishOrder.TopologicalIsArranged` | scripts/publish-order.py:135-154 | The topological orders of the blocker graph are exactly the arrangements that the manifests allow. |
| `Ordering.LessIsLexicographic` | scripts/publish-order.py:179 | The order of names compares the first characters that differ, and a text precedes its extensions. |
| `PublishOrder.StuckHasCycle` | scripts/publish-order.py:179-184 | A non-empty set in which every node has a blocker in the set contains a cycle, self-dependencies included. |
| `PublishOrder.OrderedIsAcyclic` | scripts/publish-order.py:181-184 | A graph that has any topological order has no cycle, so no refusal is unfounded. |
| `PublishOrder.GreedyStaysLeast` | scripts/publish-order.py:179-186 | Taking the alphabetically first ready package keeps the sequence level with or ahead of every topological order. |
| `PublishOrder.LeastOrderIsUnique` | scripts/publish-order.py:173-190 | The least order is a function of the graph alone, so iteration order cannot show. |
| `PublishOrder.DiscardEverywhere` | scripts/publish-order.py:188-189 | Discarding the chosen package removes it from every blocker set and changes nothing else. |
| `MacosBundle.InstallBundle` | scrybe-cli/src/macos_bundle.rs:201-228 | At every state of the run the old bundle stands at the destination or a backup, or a judged candidate at the destination; success leaves what one signing made of the program, the rendered list and the entitlements, each in its place, and no temporaries; an error leaves old or new in place, except that a failed restore leaves the old one at the backup; nothing else changes. Where no call fails and names are free, it succeeds exactly for the versions the template can say. |
| `MacosBundle.FillAndSwap` | scrybe-cli/src/macos_bundle.rs:217-227 | The same from the created candidate on; where every call succeeds that can, a failed installation leaves nothing of the candidate. |
| `MacosBundle.ReplaceVerifiedCandidate` | scrybe-cli/src/macos_bundle.rs:267-291 | The swap's outcome for every error, that each intermediate state is sound, and that it succeeds where no call fails. |
| `MacosBundle.SwapIn` | scrybe-cli/src/macos_bundle.rs:273-290 | The calls of the swap with its rollback, each with its answer; every state is sound, and the error tells which state is left. |
| `MacosBundle.PrepareCandidate` | scrybe-cli/src/macos_bundle.rs:230-265 | Filling and signing touch only the candidate; success means that exactly the built bundle was handed to signing, with the identity and the entitlements, and that what came back was judged ready at this version; where no call fails that happens exactly for the versions the template can say. |
| `MacosBundle.InspectBundle` | scrybe-cli/src/macos_bundle.rs:108-168 | `Ready` only for a well-formed bundle of the expected version that was verified, `Stale` only for one of another version; where no call fails, exactly for these, and `Missing` exactly when nothing is there. |
| `MacosBundle.UnusedSiblingPath` | scrybe-cli/src/macos_bundle.rs:293-309 | The name found is spelled as promised, is the first of the hundred siblings that is free, and none is found only if all are taken. |
| `BundlePlist.RenderedSaysIff` | scrybe-cli/src/macos_bundle.rs:346-348 | The rendered template reads back as saying the version if and only if that is not empty, is trimmed, has no closing string tag and, behind a version key of its own, no opening one. |
| `BundlePlist.RenderReplaces` | scrybe-cli/src/macos_bundle.rs:346-348 | The rendered list is the template's text with the version in place of both placeholders. |
| `BundlePlist.SaysIs` | scrybe-cli/src/macos_bundle.rs:129-140 | What is read for the two keys is the trimmed text of the first string behind the first such key. |
| `BundlePlist.SplitAtIsFirst` | scrybe-cli/src/macos_bundle.rs:170-175 | The text between plist tags is cut at the first occurrence, and missed only when there is none. |
| `MacosBundle.UnreservedIsApart` | scrybe-cli/src/macos_bundle.rs:293-303 | A destination with an ordinary name differs from the candidate and from every backup name. |
| `MacosBundle.Disk.Rename` | scrybe-cli/src/macos_bundle.rs:269-282 | Renaming is all or nothing, and replaces only a file or an empty directory. |
| `MacosBundle.Disk.RemoveDirAll` | scrybe-cli/src/macos_bundle.rs:219-288 | Removal may stop half-way but touches only its own tree in every state. |
| `CoreAudio.HoldingsAreBalances` | scrybe-capture-mac/src/coreaudio_tap.rs:159-194 | In a disciplined trace each resource is held exactly while taken once more than given back, and runs exactly while started once more than stopped. |
| `CoreAudio.StoppedBeforeGivenBack` | scrybe-capture-mac/src/coreaudio_tap.rs:475-512 | At each release every successful start had exactly one stop, and each initialization its undoing; a context is freed only after its unit is disposed of. |
| `CoreAudio.UsersGoFirst` | scrybe-capture-mac/src/coreaudio_tap.rs:489-510 | Resources are released in reverse: a used one only after its user. |
| `CoreAudio.Hal.Create` | scrybe-capture-mac/src/coreaudio_tap.rs:209-434 | A creating call yields a fresh resource or changes nothing. |
| `CoreAudioTap.TapStream.Create` | scrybe-capture-mac/src/coreaudio_tap.rs:209-434 | Whatever step fails, everything taken so far is given back in order and the sender is dropped; success holds tap, aggregate, block and IO proc, and comes when every call succeeds. |
| `CoreAudioTap.TapStream.Start` | scrybe-capture-mac/src/coreaudio_tap.rs:442-451 | Idempotent, and running only after a successful start. |
| `CoreAudioTap.TapStream.Stop` | scrybe-capture-mac/src/coreaudio_tap.rs:460-472 | Detaches the sender and marks the stream stopped whatever the device answers, and passes that answer on; without a running device there is no call and no error. |
| `CoreAudioTap.TapStream.Drop` | scrybe-capture-mac/src/coreaudio_tap.rs:475-512 | Returns exactly what the stream held, in this order: IO proc, aggregate, tap and block, behind one stop if it ran. |
| `CoreAudioTap.Life` | scrybe-capture-mac/src/coreaudio_tap.rs:209-512 | Any sequence of starts and stops between creation and drop ends holding what was held before and one sender fewer. |
| `NativeMic.MicLife` | scrybe-capture-mac/src/native_mic.rs:258-367 | The same for an ordinary microphone stream. |
| `NativeMic.VoiceLife` | scrybe-capture-mac/src/native_mic.rs:410-639 | And for a voice-processing one. |
| `CoreAudioTap.TapStream.Deliver` | scrybe-capture-mac/src/coreaudio_tap.rs:386-415 | The callback's frames go into the channel in order while the cell holds the sender, and nowhere otherwise. |
| `NativeMic.AcquireStream` | scrybe-capture-mac/src/native_mic.rs:224-241 | The voice path on request and if it works, otherwise the plain one if that works; a failed voice attempt holds nothing when the plain one begins; failure of both leaves nothing held and no sender. |
| `NativeMic.TryVoice` | scrybe-capture-mac/src/native_mic.rs:145-149 | A voice stream that runs and owns its sender, or nothing left of the attempt. |
| `NativeMic.TryPlain` | scrybe-capture-mac/src/native_mic.rs:150-154 | The same for the ordinary stream. |
| `NativeMic.MicStream.Create` | scrybe-capture-mac/src/native_mic.rs:258-321 | Block and IO proc are held together or not at all. |
| `NativeMic.MicStream.Stop` | scrybe-capture-mac/src/native_mic.rs:335-345 | Passes the device's answer on; after a stop error the sender stays until the drop; the device is never stopped twice. |
| `NativeMic.MicStream.Drop` | scrybe-capture-mac/src/native_mic.rs:348-367 | Returns exactly what the stream held and its sender. |
| `NativeMic.VoiceStream.Create` | scrybe-capture-mac/src/native_mic.rs:410-478 | An initialized unit with its context, or nothing, whichever of the seven property calls or other steps fails. |
| `NativeMic.VoiceStream.Stop` | scrybe-capture-mac/src/native_mic.rs:582-594 | As for the ordinary stream. |
| `NativeMic.VoiceStream.Halt` | scrybe-capture-mac/src/native_mic.rs:599-621 | Stops and uninitializes whatever state the unit is in. |
| `NativeMic.VoiceStream.Drop` | scrybe-capture-mac/src/native_mic.rs:597-639 | Stopped, uninitialized, disposed of, and only then the context freed. |
| `NativeMic.NativeMicCapture.Start` | scrybe-capture-mac/src/native_mic.rs:127-161 | One step of the adapter machine; a failure changes neither the adapter nor what is held. |
| `NativeMic.NativeMicCapture.Stop` | scrybe-capture-mac/src/native_mic.rs:163-172 | Answers what the one stop answered, and success where nothing ran; also after a teardown error no sender and no resource survives. |
| `NativeMic.NativeMicCapture.OnBlock` | scrybe-capture-mac/src/native_mic.rs:265-300 | A callback of either stream is one send of the adapter machine. |
| `CaptureChannel.ConsumerGetsExactlyWhatWasSent` | scrybe-capture-mac/src/lib.rs:147-245 | Over any run what was received and what is queued is exactly what was offered while its sender existed, in order; an ended stream has delivered all of it. |
| `CaptureChannel.StopIsFinal` | scrybe-capture-mac/src/lib.rs:193-234 | After any stop no later operation sends anything or brings a sender back, and every start fails. |
| `CaptureChannel.StoppedStreamEnds` | scrybe-capture-mac/src/lib.rs:219-245 | A consumer that polls a stopped stream drains the queue and reaches the end. |
| `CaptureChannel.StreamIsTakenOnce` | scrybe-capture-mac/src/lib.rs:236-245 | The receiver never comes back, so a second stream is empty. |
| `CaptureChannel.RunConserves` | scrybe-capture-mac/src/lib.rs:147-245 | Every run keeps sent equal to received plus queued, and counts as sent what was accepted. |
| `MacCapture.MacCapture.Start` | scrybe-capture-mac/src/lib.rs:181-209 | The answer and the new state are the machine's; a failed start changes nothing. |
| `MacCapture.MacCapture.Stop` | scrybe-capture-mac/src/lib.rs:219-234 | One step of the machine; the answer is that of the one stop of the device, or success without a tap; no sender and no Core Audio resource is left, also after a teardown error. |
| `MacCapture.MacCapture.Frames` | scrybe-capture-mac/src/lib.rs:236-245 | Hands out the real stream at most once. |
| `MacCapture.MacCapture.OnBlock` | scrybe-capture-mac/src/coreaudio_tap.rs:386-415 | One IO block is one send of the machine. |
| `MacCapture.MacCapture.InjectForTest` | scrybe-capture-mac/src/lib.rs:147-155 | Sends only while the adapter still has its sender. |
| `MacCapture.MacCapture.Poll` | scrybe-capture-mac/src/lib.rs:76-93 | Reports the end exactly when the machine's stream has ended, and otherwise the oldest item or nothing yet. |
| `MacCapture.Drive` | scrybe-capture-mac/src/lib.rs:147-245 | A life of the adapter, in calls and callbacks of any order, ends in the state of the machine's run of the same steps. |
| `NativeMic.Drive` | scrybe-capture-mac/src/native_mic.rs:126-186 | The same for the native microphone, with either stream behind it. |
| `MicCapture.MicCapture.Start` | scrybe-capture-mic/src/lib.rs:191-225 | The spawned thread owns a second sender; a start after stop fails, and a failed spawn changes nothing. |
| `MicCapture.MicCapture.Stop` | scrybe-capture-mic/src/lib.rs:234-258 | Joins the thread, which may still deliver first, and leaves no sender. |
| `MicCapture.MicCapture.ThreadOpens` | scrybe-capture-mic/src/lib.rs:295-360 | Opening either clones the sender for the callbacks or reports one error and ends the thread. |
| `MicCapture.CaptureThread.RunToEnd` | scrybe-capture-mic/src/lib.rs:362-373 | From any phase the thread ends with everything delivered and all of its senders dropped. |
| `MicCapture.Drive` | scrybe-capture-mic/src/lib.rs:128-373 | And for the default microphone and its thread, whose opening, failing and delivering may come between any two calls. |
| `Interleaving.InterleavedSamples` | scrybe-capture-mac/src/coreaudio_tap.rs:527-566 | None, one or many buffers, null or not: the copy loop computes the interleaving function. |
| `Interleaving.ChannelReadsBack` | scrybe-capture-mac/src/coreaudio_tap.rs:540-566 | De-interleaving returns every channel, cut or zero-padded to the first buffer's length. |
| `Interleaving.InterleavingChannels` | scrybe-capture-mac/src/coreaudio_tap.rs:540-566 | And interleaving the channels of any stream of whole frames returns the stream. |
| `Interleaving.CopyPlane` | scrybe-capture-mac/src/coreaudio_tap.rs:549-564 | One plane fills the places of its own channel and no other. |
| `FrameClock.FrameCounter.FetchAdd` | scrybe-capture-mac/src/coreaudio_tap.rs:333-340 | Returns the sum of all earlier additions modulo 2^64. |
| `FrameClock.BlocksTileTheTimeline` | scrybe-capture-mac/src/coreaudio_tap.rs:333-340 | Under any interleaving without wrap every frame below the total lies in exactly one block, and no other frame in any. |
| `FrameClock.TimestampsNeverDecrease` | scrybe-capture-mac/src/coreaudio_tap.rs:341-344 | A later frame never gets an earlier timestamp, also across saturation and at rate zero. |
| `FrameClock.TimestampsFollowTheAdditions` | scrybe-capture-mac/src/native_mic.rs:279-284 | Blocks get timestamps in the order of their additions. |
| `FrameClock.ExactUntilSaturation` | scrybe-capture-mac/src/coreaudio_tap.rs:341-344 | A timestamp is exact to the nanosecond if and only if the frame's time is below the first nanosecond past the saturated product. |
| `FrameClock.ExactForEveryRate` | scrybe-capture-mac/src/native_mic.rs:772-777 | Every frame up to (2^64 - 1) / 10^9 has an exact timestamp at every positive rate. |
| `FrameClock.RoundingDoesNotAccumulate` | scrybe-capture-mac/src/native_mic.rs:772-777 | The distance of two timestamps is within one nanosecond of the exact one, however many blocks lie between. |
| `FrameClock.TimeStopsWithinFiveDays` | scrybe-capture-mac/src/coreaudio_tap.rs:341-344 | At 48 kHz every frame from 106 hours and 46 minutes on gets one and the same, wrong, timestamp. |
| `TapDiagnostics.BitOrderIsValueOrder` | scrybe-capture-mac/src/coreaudio_tap.rs:305-309 | For non-negative binary32 the order of the bits is the order of the values, subnormals and infinity included. |
| `TapDiagnostics.PartsOfBits` | scrybe-capture-mac/src/coreaudio_tap.rs:305-309 | The bits are those of binary32: sign, eight bits of exponent, twenty-three of significand. |
| `TapDiagnostics.OneIs` | scrybe-capture-mac/src/coreaudio_tap.rs:305-309 | Plus and minus one have the magnitude of one. |
| `TapDiagnostics.IoBlock.OnBlock` | scrybe-capture-mac/src/coreaudio_tap.rs:327-375 | The window stays below a second of frames; a report comes exactly when a second is full and carries the largest absolute sample since the last one. |
| `TapDiagnostics.IoBlock.OnBlocks` | scrybe-capture-mac/src/coreaudio_tap.rs:327-375 | Over any run of callbacks each report falls at the first block with which the frames since the one before fill a second, and carries the peak of the samples since then; the rest is still waiting. |
| `TapDiagnostics.LocalPeak` | scrybe-capture-mac/src/coreaudio_tap.rs:352-356 | The fold finds the largest absolute value of the samples that are numbers. |
| `TapDiagnostics.PeakOfBoth` | scrybe-capture-mac/src/coreaudio_tap.rs:357 | The maximum of two peaks' bits is the peak of both stretches. |
| `TapDiagnostics.CrossingASecond` | scrybe-capture-mac/src/coreaudio_tap.rs:358-361 | The quotient test with its saturating addition fires exactly when the second is complete. |
| `Transcript.TranscriptRoundTrips` | scrybe-core/src/notes.rs:48-53 | An appended transcript reads back as every chunk's label, second and trimmed text, line breaks included, if no later line of a text reads as a head. |
| `TranscriptForgery.ChunkIsUniqueIff` | scrybe-core/src/notes.rs:48-70 | A chunk's transcript is that of no other list of chunks, up to label, second and trimmed text, if and only if the text is not forged. |
| `TranscriptForgery.TranscriptIsUniquelyDecodable` | scrybe-core/src/notes.rs:48-70 | Two lists without a forged text render alike if and only if they agree on those three, pointwise. |
| `TranscriptForgery.FoldableIsNotForged` | scrybe-core/src/notes.rs:48-70 | No text is forged that the reader can fold back, so the condition of the round trip is the stronger one. |
| `TranscriptForgery.LineBreakForgesAChunk` | scrybe-core/src/notes.rs:51-52 | Any two chunks with text pass for one whose text goes on with the second's line, and that text is forged. |
| `Transcript.TimestampRoundTrips` | scrybe-core/src/notes.rs:64-70 | The timestamp reads back as the whole second, for every start. |
| `Transcript.TimestampOrderIsTimeOrder` | scrybe-core/src/notes.rs:64-70 | Below one hundred hours text order is time order. |
| `Transcript.TimestampOrderEndsAtHundredHours` | scrybe-core/src/notes.rs:64-70 | One hundred hours are the exact limit: below a limit text order is time order if and only if the limit is not beyond them. |
| `Title.CleaningGivesATitle` | scrybe-core/src/notes.rs:236-251 | Every result has at most 80 characters, one of them alphanumeric, is spaced by single blanks, and is trimmed at both ends. |
| `Title.TitleIs` | scrybe-core/src/notes.rs:236-251 | The title is the first text of the input without decoration, its words one blank apart, cut behind eighty characters and bared again; none comes out exactly for lack of text or of anything alphanumeric. |
| `Text.TrimCuts` | scrybe-core/src/notes.rs:240-246 | Trimming cuts characters of the kind off both ends, and leaves none there. |
| `Text.WhitespaceIs` | scrybe-core/src/notes.rs:240 | The twenty-five characters that trimming takes for white space. |
| `Title.TitlesAreTheFixedPoints` | scrybe-core/src/notes.rs:236-251 | The texts cleaning returns unchanged are exactly those titles. |
| `Title.CleaningIsIdempotent` | scrybe-core/src/notes.rs:236-251 | A cleaned title is returned unchanged. |
| `Title.CollapsingKeepsWords` | scrybe-core/src/notes.rs:242 | Collapsing whitespace keeps the words and their order. |
| `VersionTemplates.TemplateOfASite` | scripts/check-version-agreement.py:320-325 | The template around a version expands to its own opening, the version's expansion and the closing quote, or is refused with the version. |
| `VersionTemplates.PlainTextExpandsToItself` | scripts/check-version-agreement.py:333 | A version without a backslash is written as it is. |
| `VersionTemplates.ExpandedQuote` | scripts/check-version-agreement.py:333 | An octal escape expands to a quote. |
| `VersionTemplates.ExpandedReference` | scripts/check-version-agreement.py:333 | `\g<0>` expands to the whole match. |
| `VersionTemplates.ZeroRefersToTheMatch` | scripts/check-version-agreement.py:333 | A reference is to the whole match, by zeros in angle brackets. |
| `VersionTemplates.OtherReferencesAreRefused` | scripts/check-version-agreement.py:333 | Any other reference refuses the template. |
| `VersionTemplates.LettersEscape` | scripts/check-version-agreement.py:333 | Eight letters and the backslash stand for one character each behind a backslash. |
| `VersionTemplates.OctalsEscape` | scripts/check-version-agreement.py:333 | Three octal digits up to 377 stand for the character with that code. |
| `VersionTemplates.OtherLettersAreRefused` | scripts/check-version-agreement.py:333 | Every other letter behind a backslash refuses the template. |
| `VersionTemplates.OtherDigitsAreRefused` | scripts/check-version-agreement.py:333 | So does a digit that refers to a group, as the patterns have none. |
| `VersionTemplates.OthersKeepTheBackslash` | scripts/check-version-agreement.py:333 | Behind any other character a backslash stays as it is. |
| `VersionSites.LastWriteWins` | scripts/check-version-agreement.py:331-337 | Writing a body over quote-free text that was written before equals writing its expansion over the original: no match appears, disappears or straddles a replacement. |
| `VersionSites.EveryBodyIsTheVersion` | scripts/check-version-agreement.py:354 | After quote-free text is written there are as many matches as before and each holds it. |
| `VersionSites.SubChangesNothingIff` | scripts/check-version-agreement.py:331-335 | A substitution leaves a text as it is if and only if every match already says what is written over it, for every expansion. |
| `VersionSites.RewritingIsIdempotentIff` | scripts/check-version-agreement.py:331-337 | On texts: a second substitution changes none if and only if the expansion has no quote and no reference. |
| `VersionPlaces.SubReplaces` | scripts/check-version-agreement.py:331-335 | Substitution writes over the leftmost places that do not overlap, each an opening, text without a quote and a quote, and at the start of a line if the pattern asks for it; it counts them. |
| `VersionPlaces.PlacesAreUnique` | scripts/check-version-agreement.py:331-335 | Which places these are is a matter of the text alone. |
| `VersionPlaces.LineByLineIff` | scripts/check-version-agreement.py:320-322 | The host's pattern is written over line by line, whatever is written, if and only if each of its openings that is closed at all is closed on its own line; then a line that does not begin with one stays. |
| `VersionLines.SplittingGivesLines` | scripts/check-version-agreement.py:348 | Splitting keeps line breaks and joins back to the text. |
| `VersionLines.BreaksAre` | scripts/check-version-agreement.py:348 | The ten characters at which lines are split. |
| `VersionLines.LineEndsRead` | scripts/check-version-agreement.py:332 | Reading makes one line feed of each of the three line ends and keeps every other character. |
| `VersionLines.SplittingTheRead` | scripts/check-version-agreement.py:348 | The lines of a file as read are its raw lines read one by one, and reading changes exactly those that end in a carriage return. |
| `VersionPins.RepinningIsLineByLine` | scripts/check-version-agreement.py:348-360 | When the expansion has no line break, whatever else it has, a rewritten manifest has the same lines, each rewritten on its own. |
| `VersionPins.RepinningIsFramed` | scripts/check-version-agreement.py:349-357 | When it has no quote and no reference either, a line without a workspace path is unchanged, and on the others every exact pin becomes the version and nothing else changes. |
| `VersionPins.RepinningIsIdempotent` | scripts/check-version-agreement.py:340-361 | Then repinning a text twice is repinning it once. |
| `VersionBreaks.RepinnedLinesAreFixed` | scripts/check-version-agreement.py:348-357 | A body with a line break that settles over every pin leaves only lines that another repinning does not change. |
| `VersionWitness.WitnessIsUnsettled` | scripts/check-version-agreement.py:348-357 | Where the condition fails, one and the same manifest line is left with a line that has both a path and a pin. |
| `VersionProbe.OnePinDecides` | scripts/check-version-agreement.py:354 | The expansion settles over every pin if and only if it does over the pin that says `path = `. |
| `VersionFiles.RewritingAFileIsIdempotentIff` | scripts/check-version-agreement.py:331-337 | On files: rewriting twice is rewriting once, for every file, if and only if the expansion has no quote and no reference. |
| `VersionFiles.EscapesGrow` | scripts/check-version-agreement.py:320-337 | `\042` and `\g<0>` each have a file on which a second rewriting changes the result. |
| `VersionFiles.RepinningIsIdempotentIff` | scripts/check-version-agreement.py:340-361 | On files: repinning twice is repinning once, for every file and all members, if and only if the expansion is stable. |
| `VersionFiles.StableInSimpleCases` | scripts/check-version-agreement.py:340-361 | Without a line break stable means no quote and no reference; without these it means no line break or not ending in a pin's key. |
| `VersionFiles.ReferenceBetweenBreaks` | scripts/check-version-agreement.py:348-357 | A reference between two line breaks is stable, so a reference alone is not the condition. |
| `VersionFiles.WrittenLineByLine` | scripts/check-version-agreement.py:348-360 | Whatever the version, a written file is its raw lines one after the other, each read and, if it carries a workspace path, substituted. |
| `VersionFiles.ForeignLinesStayIff` | scripts/check-version-agreement.py:341-359 | For every version, lines without a workspace path keep their place and every byte if and only if no pin moves, or the expansion has no line break and none of those lines ends in a carriage return. |
| `VersionFiles.ForeignLineChanges` | scripts/check-version-agreement.py:341-347 | A file in which such a line changes. |
| `VersionAgreement.Tree.Rewrite` | scripts/check-version-agreement.py:331-337 | The file is its text with every place written over, or stays when that changes nothing; the report counts the places, and is empty exactly when all of them already say the version; a refused template changes nothing. |
| `VersionAgreement.Tree.Repin` | scripts/check-version-agreement.py:340-361 | On a line whose first workspace path names a member every exact pin is written over, and no other line changes; the report counts the pins on changed lines and is empty exactly when no pin moves; which other lines stay, to the byte, is stated as an equivalence for every version; a template is refused exactly when a line would need it. |
| `VersionAgreement.RepinEveryLine` | scripts/check-version-agreement.py:348-357 | The loop that updates the line list in place rewrites each line by itself and counts what it changed. |
| `VersionSurfaces.HostIsRewritten` | scripts/check-version-agreement.py:320-322 | The host's manifest is written over at its line starts, and line by line where each version is closed on its line. |
| `VersionSurfaces.TouchedNamesMember` | scripts/check-version-agreement.py:351-353 | A line is touched exactly when the first path on it that leads into the workspace names a member. |
| `VersionAgreement.Tree.Propagate` | scripts/check-version-agreement.py:311-328 | In the host's manifest exactly the versions at line starts, in the bundle's configuration every version, and in the members' manifests the exact pins of members are written over, and nothing else; the changed files are listed in order; it fails exactly when a file is missing or the version is refused, and then exactly the files before the first missing one are written. |
| `VersionAgreement.PropagationIsIdempotentIff` | scripts/check-version-agreement.py:311-328 | Propagating twice is propagating once, for every plan and tree, if and only if the expansion has no quote and no reference and is stable. |
| `PolicyExtractor.PolicyMatches` | scripts/qualify-desktop-app.py:1006-1007 | The backtracking engine's first answer is what one pass from left to right finds. |
| `PolicyExtractor.ExtractionIsExact` | scripts/qualify-desktop-app.py:1006-1029 | Any policy, in terms of its characters, is extracted exactly if and only if what follows cannot carry it on, neither its last word nor the policy behind it. |
| `PolicyExtractor.ExtractionIsLongest` | scripts/qualify-desktop-app.py:1006-1007 | No policy at that place is longer than the answer. |
| `PolicyExtractor.ExtractionIsSound` | scripts/qualify-desktop-app.py:1006-1007 | Every answer is a policy of the grammar. |
| `PolicyExtractor.AppendedDirectiveShows` | scripts/qualify-desktop-app.py:1021-1024 | A directive appended to any policy makes the answer longer. |
| `PolicyExtractor.ShippedPolicies` | scripts/qualify-desktop-app.py:1026-1031 | For each marker among the bytes, in order of place and missing none, the longest policy that the window behind it starts with. |
| `PolicyExtractor.VerdictIsExact` | scripts/qualify-desktop-app.py:1021-1031 | The comparison with any expected policy holds exactly when the image has one marker, the policy stands there and is not carried on. |
| `PolicyExtractor.MarkersStandApart` | scripts/qualify-desktop-app.py:1028 | Markers cannot overlap, so the non-overlapping search sees all of them. |
| `ProbeChime.ChimePlayer.Fill` | scrybe-capture-mac/src/probe_chime.rs:120-136 | Sample k becomes the endless chime's frame k / channels from the carried position; the position advances by the frames begun and stays in range. |
| `ProbeChime.SplitsAtFrameBoundaries` | scrybe-capture-mac/src/probe_chime.rs:116-136 | Cutting a buffer at a frame boundary changes neither samples nor position. |
| `ProbeChime.CutsAreUnheardIff` | scrybe-capture-mac/src/probe_chime.rs:127-135 | A cut keeps the samples of every chime from every position if and only if it is at a frame boundary or at the end. |
| `ProbeChime.SplitInsideAFrameSkips` | scrybe-capture-mac/src/probe_chime.rs:127-135 | Behind a cut inside a frame the second part starts with the next frame's sample, where the uncut buffer goes on with the frame's own. |
| `ProbeChime.CallbacksPlayOneSignal` | scrybe-capture-mac/src/probe_chime.rs:116-136 | Callbacks of any sizes play one signal: sample k of call i is k / channels frames behind all frames that the earlier calls began. |
| `ProbeChime.WholeFramesAddUp` | scrybe-capture-mac/src/probe_chime.rs:116-136 | For calls of whole frames these are the frames asked for, so nothing is skipped. |
| `ProbeChime.SignalRepeats` | scrybe-capture-mac/src/probe_chime.rs:116-136 | The signal has the chime's length as its period. |
| `ProbeChime.IntegerPlayer.OnData` | scrybe-capture-mac/src/probe_chime.rs:247-256 | The scratch path plays the same signal, converted sample by sample. |
| `ProbeChime.BuildChimeBuffer` | scrybe-capture-mac/src/probe_chime.rs:82-114 | The nested loops with their carried oscillator compute the notes one after the other: each as long as its duration rounds to, and each sample the sine at its own time under a straight ramp of eight milliseconds, or half the note, at both ends. |
| `ProbeChime.NotesLandInPlace` | scrybe-capture-mac/src/probe_chime.rs:85-113 | The chime is as long as its notes together, and each note sounds at the sum of the earlier ones. |
| `ProbeChime.EnvelopeIsRamp` | scrybe-capture-mac/src/probe_chime.rs:96-104 | The envelope is the least of full volume and the two ramps. |
| `ProbeChime.NotesAreTempered` | scrybe-capture-mac/src/probe_chime.rs:60-67 | To a hundredth of a hertz the notes are E5, G5 and C6 in equal temperament. |
| `ProbeChime.ShippedChime` | scrybe-capture-mac/src/probe_chime.rs:60-67 | At 48 kHz the shipped chime repeats after 820 milliseconds and is silent in its three gaps. |
| `ProbeChime.ChimeIsQuiet` | scrybe-capture-mac/src/probe_chime.rs:105-106 | Every sample is within the amplitude. |
| `ProbeChime.SampleIsThePureTone` | scrybe-capture-mac/src/probe_chime.rs:93-110 | The wrapping oscillator gives the sine at the sample's own exact time: no phase is ever lost. |
| `ProbeChime.FadesNeverOverlap` | scrybe-capture-mac/src/probe_chime.rs:86-88 | No sample is in both fades, at any rate. |
| `ProbeChime.NoClicks` | scrybe-capture-mac/src/probe_chime.rs:96-104 | The envelope starts at silence, ends one step above it, and moves by at most one step. |
| `ProbeChime.NoRateNoChime` | scrybe-capture-mac/src/probe_chime.rs:83 | A rate of zero gives an empty chime. |
| `Tray.DrawWaveform` | scrybe-cli/src/tray.rs:239-253 | In bounds for all heights up to 18: the lit pixels get the colour and every other byte keeps its value. |
| `Tray.BlitBrand` | scrybe-cli/src/tray.rs:220-230 | Every row is copied exactly when the brand fits beside its offset, and the copy panics otherwise; then each covered byte is the brand's own and every other keeps its value. |
| `Tray.BrandFitsIff` | scrybe-cli/src/tray.rs:223-227 | All rows of the brand end on the canvas if and only if offset and brand together are no wider than it. |
| `Tray.LitPixelsAreTwiceTheHeights` | scrybe-cli/src/tray.rs:239-253 | The number of lit pixels is exactly twice the summed heights. |
| `Tray.DrawingsCommute` | scrybe-cli/src/tray.rs:173-188 | Waveform and brand touch different bytes, so their order does not matter. |
| `Tray.BuildStatusFrames` | scrybe-cli/src/tray.rs:155-195 | Fails exactly when there is nothing to draw or no brand; otherwise eight frames or one, each of them the image told pixel by pixel. |
| `Tray.FrameIsShown` | scrybe-widgets/src/status.rs:16-104 | Every byte of every frame: the bars' heights over time, centred, in a mix of foreground and red that rises and falls in quarters; the brand beside them; nothing elsewhere. |
| `Tray.WaveformIsOpaqueWhereLit` | scrybe-cli/src/tray.rs:155-195 | On every built frame a pixel of the waveform's square is opaque exactly where a bar is lit. |
| `Tray.OpaquePixelsAreTwiceTheHeights` | scrybe-cli/src/tray.rs:155-195 | So every frame shows twice its summed heights in opaque pixels there. |
| `Tray.BrandShowsUnchanged` | scrybe-cli/src/tray.rs:181-188 | From its offset on every byte is the brand's, and the gap before it stays blank. |
| `Tray.Blend` | scrybe-widgets/src/status.rs:91-104 | A blended level is the exact mix rounded down, and lies between the foreground's and the red's. |
| `Identity.ResolvesToADirectChild` | scrybe-application/src/identity.rs:252-254 | Under both conventions an accepted identity adds itself as the one last component, if and only if the root is not a Windows server without a share. |
| `Identity.DistinctIdentitiesDistinctChildren` | scrybe-application/src/identity.rs:252-254 | Two identities resolve to the same path, or the same components, only if they are the same. |
| `Identity.AcceptedNamesArePlain` | scrybe-application/src/identity.rs:130-164 | Whatever the platform calls absolute, the accepted texts are exactly the plain names. |
| `Identity.VerdictOf` | scrybe-application/src/identity.rs:130-164 | The verdict on each text in terms of its characters, with the reason that is reported when there are several. |
| `Identity.ReasonsDifferForRootedDrives` | scrybe-application/src/identity.rs:137-147 | The reported reason depends on the platform exactly for a drive with a root and no control character. |

## Left out

- The recording controller, its journal, the offline merge, the retention sweep, model download and the notes
  segmentation and reduction: their sources are not part of this model.
- The publish planner's registry record and rendered document, and the wording of its reports.
- `SckCapture`: the code does not check the refusal to restart after stop that its documentation promises.
- The Linux, Windows and Android adapters: their `start` always fails in this release.
- The suffix of partial files' names, the session's text form, and which frame is shown when: read off from the code.
- `strip_outer_markdown_fence`, the headers and prompts of notes, TOML, JSON and plist parsing, command-line output and
  error texts: easy members.
- The bodies of `codesign`, `cargo`, Core Audio, AppKit, cpal and PNG decoding: calls that succeed or fail, or
  parameters.
- Exact `f32` rounding: the chime is over `real`, and the peak compares exact values of binary32.
- Mutex poisoning; adapters dropped without `stop`; callbacks that run at the same moment as each other, except for the
  frame counter, whose additions may interleave in any way.
- InstallBundle: nothing is promised for a destination that itself has the name of one of the installer's temporary
  siblings, because then candidate and destination may be the same path; creating the destination's parent directories
  only succeeds or fails; other processes do not touch the same directory.
- UnusedSiblingPath: on a disk whose `exists` may miss an entry the name found may be taken; the calls after it then fail
  or replace an empty directory of that name.
- Expand: group numbers in a template are ASCII digits, as from Python 3.12 on; Python 3.11 also takes signs, spaces and
  underscores there, with a warning.
- Rewrite: line feeds are written as they are, as outside Windows.
- Propagate: the files of the plan are assumed to be different files, as they are in the repository.
- RepinningIsIdempotentIff: is about all members at once; for one given set of members a version may do no harm though
  its expansion is not stable.
- ForeignLinesStayIff: compares the file line by line; where a version with a line break moves them, WrittenLineByLine says
  what becomes of each line.
- BlitBrand: what a canvas holds after the panic is not stated.
- OnBlock: the report is the peak and not the log line made of it, nor its threshold for a silent tap.
- ResolvesToADirectChild: leaves out roots in Windows' verbatim form (`\\?\…`), which are joined by rules of their own.
- Render: the template is any text of the shipped one's shape, cut at its two placeholders.
- CleanGeneratedTitle: which characters are alphanumeric is a parameter.
