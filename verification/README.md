# Verified models of the UTF-7 codec, the pending-message queue and find as you type

Three parts of the mail and chat code, written in Dafny and proved against what they are for.

**The UTF-7 and IMAP modified UTF-7 codec** (`mailnews/intl`, and its callers in
`mailnews/base/src/nsMsgI18N.cpp`). Five layers:

- `Encoder.dfy`, `Decoder.dfy`: the two classes with their fields, their loops and the
  caller's buffer. Each method's contract gives the whole outcome of a call with any amount
  of room: result, units or bytes read, items written, every cell of the buffer, new state.
- `EncoderMachine.dfy`, `DecoderMachine.dfy`: the same on values. `Run` is one call with
  limited room, `EncodeAll` and `DecodeAll` the text without regard to room.
- `Reference.dfy` over `BitStrings.dfy`: what the encodings mean (Rules 1-3 of "UTF-7
  Definition" in RFC 2152, section 5.1.3 of RFC 3501), by runs and bit strings, with no
  accumulator, step or room. The state machines are proved to compute it.
- `PlainText.dfy`: the alphabets, shift characters and direct sets as literal characters, and what
  the codec makes of plain text and of unclosed runs, stated by those literals alone.
- `RoundTrip.dfy`, `Canonical.dfy`, `FolderNames.dfy`: the laws that span both directions, the
  grammar, and the callers. The main use is `FolderNames.CopyFolderNameToUTF16`: its test by
  decoding and re-encoding accepts exactly the encodings of names, which are the strings of the
  RFC 3501 grammar.

The two instantiations of the classes are the two values of `Variant`. Laws take the variant as
a parameter and hold for both, except `EncoderMachine.Utf7KeepsToRoom`, which is about UTF-7, and
`Canonical.CanonicalIsPrintable`, `Canonical.OutputIsPrintable` and the laws on folder names in
`FolderNames.dfy` and `PlainText.PrintableName`, which are about modified UTF-7. Code units are all of 0..65535, lone surrogates
and NUL included. Shifts and masks are divisions and remainders by powers of two; the accumulators
are natural numbers, proved below 64 in the encoder and below 2^16 in the decoder.

Room. The code writes the escape character of the modified encoder as two bytes after a test
for one, and the unit of an empty shift in the decoder without a test. Both are kept. The
room a method is given and the array it writes to are separate: `Run` writes what the code writes
for that room, and the methods require only that this falls into the array, which may go on behind
the room. `OverrunsRoom` (in each machine) says for every input and room exactly when a call writes
behind its room: the encoder by one byte, the decoder by any number of escape characters
(`PastRoomOnlyEscapes`, `EmptyShiftsIgnoreRoom`). The length bounds and `OneCallSuffices` say which
buffers are always large enough.

**The chunked display of pending messages** (`chat/content/conversation-browser.js`,
`PendingMessages.dfy`): a step relation over appends, replacements, activations, `init`, load
events and any number of outstanding idle callbacks, and the class whose methods make those steps.

**Find as you type** (`suite/browser/nsTypeAheadFind.js`, `TypeAheadFind.dfy`): key handling as
a state machine over the search string and the counter of bad keys, with the search as a fixed
oracle closed under prefixes, proved against a find that has no counter and always searches; and
the class whose methods follow it.

Where code and comments differ the code is followed: `nsUTF7ToUnicode.h` calls the UTF-7 decoder
one for modified UTF-7; the comment above `getNextPendingMessage` counts two methods that touch
the pending array while it is displayed, and `replaceMessage` is a third; the comment in the
constructor places the resets in `onStateChange`, and they are in the load listener of `init`.

## Model

| member | source | states |
|---|---|---|
| Alphabet.ValueToChar | mailnews/intl/nsUnicodeToUTF7.cpp:173-186 | below 64 the table gives a printable 7-bit character other than `-`, and the decoder's table inverts it; from 64 on it gives -1 |
| Alphabet.TablesInverse | mailnews/intl/nsUTF7ToUnicode.cpp:133-146 | the two tables are inverse bijections, and `-` is outside the alphabet |
| PlainText.AlphabetIs | mailnews/intl/nsUnicodeToUTF7.cpp:173-186 | value n stands for character n of `A-Za-z0-9+/` written out, in modified UTF-7 with `,` (nsUnicodeToMUTF7.cpp:11) for `/` (line 259) |
| PlainText.Base64Iff | mailnews/intl/nsUTF7ToUnicode.cpp:133-146 | a character is in base64 exactly if it occurs in that string, and its value is its place there |
| PlainText.ShiftCharacters | mailnews/intl/nsUnicodeToMUTF7.cpp:11 | `&` shifts in modified UTF-7, `+` in UTF-7 (nsUnicodeToUTF7.cpp:259), and `-` ends a run |
| PlainText.PlainIff | mailnews/intl/nsUnicodeToUTF7.cpp:261-302 | the units written as they are: in UTF-7 the characters of a literal string, in modified UTF-7 (lines 188-194) 0x20-0x7e but `&` |
| PlainText.UnchangedIff | mailnews/intl/nsUnicodeToUTF7.cpp:62-103 | a text is its own encoding exactly if all its units are in that literal set |
| PlainText.PrintableName | mailnews/intl/nsUnicodeToUTF7.cpp:62-103 | the encoding of a printable US-ASCII name is the name with each `&` followed by `-` |
| PlainText.ShiftedUnit | mailnews/intl/nsUnicodeToUTF7.cpp:105-171 | any other unit by itself is written as three characters of the literal alphabet between the shift characters |
| PlainText.UnshiftedBytes | mailnews/intl/nsUTF7ToUnicode.cpp:21-54 | bytes without the escape character stand for themselves, also outside the encoder's direct set |
| PlainText.EscapedEscape | mailnews/intl/nsUTF7ToUnicode.cpp:168-172 | `+-` stands for `+` in UTF-7 and `&-` for `&` in modified UTF-7 |
| PlainText.ClosingMinusOptional | mailnews/intl/nsUTF7ToUnicode.cpp:180-197 | the `-` after a run may be left out before any byte that cannot go on with the run, and at the end |
| PlainText.LoneEscape | mailnews/intl/nsUTF7ToUnicode.cpp:180-197 | an escape character before such a byte, or at the end, stands for nothing |
| Encoder.BasicUTF7Encoder.constructor | mailnews/intl/nsUnicodeToUTF7.cpp:18-22 | a new encoder is in the reset state |
| Encoder.BasicUTF7Encoder.Reset | mailnews/intl/nsUnicodeToUTF7.cpp:249-254 | direct mode, nothing pending |
| Encoder.BasicUTF7Encoder.ShiftEncoding | mailnews/intl/nsUnicodeToUTF7.cpp:24-60 | the outcome for any room, including the stop between the flushed bits and the shift character |
| Encoder.BasicUTF7Encoder.EncodeDirect | mailnews/intl/nsUnicodeToUTF7.cpp:62-103 | reads the leading direct units as far as room goes; result, counts, buffer and state are those of the machine on that prefix |
| Encoder.BasicUTF7Encoder.EncodeStep | mailnews/intl/nsUnicodeToUTF7.cpp:122-160 | a unit's characters are written whole or not at all, by step |
| Encoder.BasicUTF7Encoder.EncodeBase64 | mailnews/intl/nsUnicodeToUTF7.cpp:105-171 | reads the leading units outside the direct set as far as room goes, never past its room |
| Encoder.BasicUTF7Encoder.EncodeRun | mailnews/intl/nsUnicodeToUTF7.cpp:229-232 | the choice between the two loops |
| Encoder.BasicUTF7Encoder.EncodeNext | mailnews/intl/nsUnicodeToUTF7.cpp:212-237 | what one iteration has done and what is left of the call; past the room the encoder is in direct mode |
| Encoder.BasicUTF7Encoder.ConvertNoBuffNoErr | mailnews/intl/nsUnicodeToUTF7.cpp:199-242 | one call is exactly `EncoderMachine.Run`, for any room, also when it writes the byte behind the room |
| Encoder.BasicUTF7Encoder.FinishNoBuff | mailnews/intl/nsUnicodeToUTF7.cpp:244-247 | the closing shift, for any room |
| EncoderMachine.RunSplit | mailnews/intl/nsUnicodeToUTF7.cpp:199-242 | input-split independence with limited room: a call on a+b is a call on a and then one on b with the room left |
| EncoderMachine.EncodeAllSplit | mailnews/intl/nsUnicodeToUTF7.cpp:199-242 | encoding a and then b on one object writes what a+b writes, pending bits carried over |
| EncoderMachine.RunResumes | mailnews/intl/nsUnicodeToUTF7.cpp:199-242 | wherever a call stops, continuing at the first unread unit completes the one-shot text and state |
| EncoderMachine.RunProgresses | mailnews/intl/nsUnicodeToUTF7.cpp:24-171 | three free bytes always suffice to read a unit |
| EncoderMachine.RunFillsRoom | mailnews/intl/nsUnicodeToUTF7.cpp:24-171 | a call stops early only for want of room: at most two bytes stay unused |
| EncoderMachine.StopsAtPiece | mailnews/intl/nsUnicodeToUTF7.cpp:24-171 | a call that stops has written every piece that fits: fewer bytes are free than the next pending character, shift character or unit is tested for |
| EncoderMachine.ShiftFillsRoom | mailnews/intl/nsUnicodeToUTF7.cpp:24-60 | a shift, so a finish, stops only when its room is used up |
| EncoderMachine.FinishOverExact | mailnews/intl/nsUnicodeToUTF7.cpp:244-254 | finishing over any buffers writes the closing text and leaves exactly the reset state |
| EncoderMachine.AnyBuffersSameText | mailnews/intl/nsUnicodeToUTF7.cpp:199-247 | under any sequence of buffers the bytes are a prefix of the one-shot text, and that text when the conversation completes |
| EncoderMachine.BuffersOfThreeComplete | mailnews/intl/nsUnicodeToUTF7.cpp:199-247 | with buffers of three bytes or more the conversation completes within one call a unit and one to finish |
| EncoderMachine.OverrunsRoom | mailnews/intl/nsUnicodeToUTF7.cpp:78-86 | a call writes past its room, by one byte, exactly when the escape unit meets one free byte |
| EncoderMachine.Utf7KeepsToRoom | mailnews/intl/nsUnicodeToUTF7.cpp:259-302 | in UTF-7 every call keeps to every room |
| EncoderMachine.FittingTextKeepsToRoom | mailnews/intl/nsUnicodeToUTF7.cpp:199-242 | with room for the text one call is OK, reads everything and keeps to its room |
| EncoderMachine.FinishedLength | mailnews/intl/nsUnicodeToUTF7.cpp:24-247 | n units take at most floor((7n+3)/2) bytes in modified UTF-7 and 3n+2 in UTF-7, the finish included |
| EncoderMachine.OneCallSuffices | mailnews/intl/nsUnicodeToUTF7.cpp:199-247 | with room for that bound one call reads everything and one finishes, both OK, and together they write the text and keep to the room |
| EncoderMachine.OverrunIsDirect | mailnews/intl/nsUnicodeToUTF7.cpp:212-237 | a call that has written behind its room ends in direct mode, so that no pending bits meet the missing room |
| EncoderMachine.LengthBoundAttained | mailnews/intl/nsUnicodeToUTF7.cpp:24-247 | at every length but zero some input attains the bound |
| Decoder.BasicUTF7Decoder.constructor | mailnews/intl/nsUTF7ToUnicode.cpp:14-19 | a new decoder is in direct mode with nothing pending |
| Decoder.BasicUTF7Decoder.Reset | mailnews/intl/nsUTF7ToUnicode.cpp:207-212 | the freshness flag is left as it is |
| Decoder.BasicUTF7Decoder.DecodeDirect | mailnews/intl/nsUTF7ToUnicode.cpp:21-54 | copies the bytes before the first escape character as far as room goes; the three results told apart |
| Decoder.BasicUTF7Decoder.DecodeStep | mailnews/intl/nsUTF7ToUnicode.cpp:77-120 | the eight cases: what is written and what is kept |
| Decoder.BasicUTF7Decoder.DecodeBase64 | mailnews/intl/nsUTF7ToUnicode.cpp:56-131 | reads the leading base64 characters as far as room goes; the three results told apart |
| Decoder.BasicUTF7Decoder.DecodeInMode | mailnews/intl/nsUTF7ToUnicode.cpp:163-178 | what the first half of an iteration has done, and what is left of the call, when the inner result is each of the three |
| Decoder.BasicUTF7Decoder.DecodeNext | mailnews/intl/nsUTF7ToUnicode.cpp:162-200 | what an iteration has done and what is left of the call; it reads a byte or leaves base64 |
| Decoder.BasicUTF7Decoder.ConvertNoBuff | mailnews/intl/nsUTF7ToUnicode.cpp:151-205 | one call is exactly `DecoderMachine.Run` for any room, also when it writes behind the room; it ends, and never with the inner illegal-input result |
| DecoderMachine.AdditionIsDisjoint | mailnews/intl/nsUTF7ToUnicode.cpp:77-120 | the accumulator stays below 2^16 and every addition fills bits that were zero |
| DecoderMachine.RunSplit | mailnews/intl/nsUTF7ToUnicode.cpp:162-200 | input-split independence with limited room |
| DecoderMachine.RunResumes | mailnews/intl/nsUTF7ToUnicode.cpp:162-200 | wherever a call stops, continuing completes the one-shot units and state |
| DecoderMachine.RunFillsRoom | mailnews/intl/nsUTF7ToUnicode.cpp:42-115 | a call stops early only when its room is used up |
| DecoderMachine.FittingUnitsComplete | mailnews/intl/nsUTF7ToUnicode.cpp:151-205 | with one unit of room a byte a call is OK, reads all bytes, and writes at most one unit a byte |
| DecoderMachine.PiecesLikeWhole | mailnews/intl/nsUTF7ToUnicode.cpp:162-200 | bytes chopped at any points give the units and final state of one call |
| DecoderMachine.OverrunsRoom | mailnews/intl/nsUTF7ToUnicode.cpp:168-172 | a call writes past its room exactly when the `-` of an empty shift meets a full buffer |
| DecoderMachine.PastRoomOnlyEscapes | mailnews/intl/nsUTF7ToUnicode.cpp:168-172 | whatever a call writes behind its room are escape characters |
| DecoderMachine.EmptyShiftsIgnoreRoom | mailnews/intl/nsUTF7ToUnicode.cpp:168-172 | n empty shifts write n units whatever the room, so the overrun has no bound |
| DecoderMachine.StaleStateUnobservable | mailnews/intl/nsUTF7ToUnicode.cpp:160-212 | decoders in direct mode that differ in leftovers behave alike on every input and room |
| DecoderMachine.Reset | mailnews/intl/nsUTF7ToUnicode.cpp:207-212 | a reset decoder is indistinguishable from a new one |
| Reference.RunIsBase64Text | mailnews/intl/nsUnicodeToUTF7.cpp:122-165 | the characters of a run and its flush are the 6-bit groups, zero padded, of the concatenated 16-bit units |
| Reference.EncoderIsEncode | mailnews/intl/nsUnicodeToUTF7.cpp:199-247 | the finished output is the reference encoding, for every input |
| Reference.RunIsUnits | mailnews/intl/nsUTF7ToUnicode.cpp:77-125 | from any step, a run gives the 16-bit groups of the bits held and read, and the decoder holds the remainder |
| Reference.RunFromOpen | mailnews/intl/nsUTF7ToUnicode.cpp:56-131 | k characters after the escape character give floor(6k/16) units |
| Reference.DecoderIsDecode | mailnews/intl/nsUTF7ToUnicode.cpp:151-205 | from any direct state the units are the reference decoding, for every 7-bit input |
| RoundTrip.LockStep | mailnews/intl/nsUnicodeToUTF7.cpp:122-165 | encoder steps 0, 1, 2 go with decoder steps 0, 2, 5, and pending bits on both sides make up the one unit in flight |
| RoundTrip.RoundTrip | mailnews/intl/nsUTF7ToUnicode.cpp:151-205 | decoding a finished text gives back every sequence of units and ends in direct mode |
| RoundTrip.SelfSynchronising | mailnews/intl/nsUTF7ToUnicode.cpp:180-197 | concatenated finished texts decode to the concatenation |
| RoundTrip.ConcatenationIsTextIff | mailnews/intl/nsUnicodeToUTF7.cpp:212-247 | the concatenation is itself the text of a+b exactly when no base64 run spans the join |
| Canonical.EncodeIsCanonical | mailnews/intl/nsUnicodeToUTF7.cpp:199-247 | every finished text is in the grammar: maximal non-empty closed runs of length 0, 3 or 6 mod 8 with zero padding, no unit that can represent itself |
| Canonical.Base64TextIsCanonical | mailnews/intl/nsUnicodeToUTF7.cpp:105-171 | a run's text is a canonical run whose units are the run, of ceil(8m/3) characters |
| Canonical.CanonicalSurvives | mailnews/intl/nsUTF7ToUnicode.cpp:151-205 | decoding and re-encoding leaves every string of the grammar as it is |
| Canonical.SurvivesIffCanonical | mailnews/base/src/nsMsgI18N.cpp:142-158 | a 7-bit string survives decoding and re-encoding exactly when it is in the grammar |
| Canonical.CanonicalIffFinishedText | mailnews/intl/nsUnicodeToUTF7.cpp:199-247 | the grammar is exactly the set of finished texts |
| Canonical.NormalisingIsIdempotent | mailnews/base/src/nsMsgI18N.cpp:142-158 | encoding after decoding is idempotent and keeps the units, on every 7-bit input |
| Canonical.OutputIsPrintable | mailnews/intl/nsUnicodeToUTF7.cpp:173-247 | all modified UTF-7 output, under any buffers, lies in 0x20-0x7e |
| Canonical.RunLengthExact | mailnews/intl/nsUnicodeToUTF7.cpp:24-171 | a base64 run of m units costs exactly 2+ceil(8m/3) bytes |
| FolderNames.CopyUTF7toUTF16 | mailnews/base/src/nsMsgI18N.cpp:103-116 | the buffer of one unit a byte suffices and the result is the reference decoding |
| FolderNames.CopyMUTF7toUTF16 | mailnews/base/src/nsMsgI18N.cpp:160-172 | likewise for modified UTF-7 |
| FolderNames.CopyUTF16toMUTF7 | mailnews/base/src/nsMsgI18N.cpp:118-138 | for every name the loop over the 100-byte buffer ends and gives the reference encoding; it writes the byte behind the buffer exactly when `EscapesFit` does not hold |
| FolderNames.BufferSufficesIff | mailnews/base/src/nsMsgI18N.cpp:118-138 | every call of the loop keeps to the buffer exactly when at no call `&` meets one free byte, which a caller can evaluate beforehand |
| FolderNames.NamesWithoutEscapeFit | mailnews/base/src/nsMsgI18N.cpp:118-138 | the condition holds for every name without `&` |
| FolderNames.ShortNamesFit | mailnews/base/src/nsMsgI18N.cpp:118-138 | it holds for every name whose encoding fits the buffer, so for all of at most 28 units |
| FolderNames.NotAllNamesFit | mailnews/base/src/nsMsgI18N.cpp:118-138 | a name for which some call does not keep to the buffer |
| FolderNames.CopyFolderNameToUTF16 | mailnews/base/src/nsMsgI18N.cpp:140-158 | a string is taken as modified UTF-7 exactly when it is the encoding of some name, which is when it is ASCII and in the grammar, and the result is the one name with that encoding |
| PendingMessages.StepKeepsInv | chat/content/conversation-browser.js:225-580 | cursor equals counter; pending implies an outstanding callback and a message to show; outside the init-to-load window an active non-empty queue is pending |
| PendingMessages.RunKeepsInv | chat/content/conversation-browser.js:225-580 | the same in every reachable state, under every interleaving |
| PendingMessages.FifoExactlyOnce | chat/content/conversation-browser.js:401-580 | without a load, shown then waiting messages are the appended ones in order, each once, up to replacement; the calls of `displayMessage` only grow in number |
| PendingMessages.FifoSinceLoad | chat/content/conversation-browser.js:240-262 | from a load on, exactly the messages appended since, when none is replaced |
| PendingMessages.ReplaceExactly | chat/content/conversation-browser.js:428-442 | a replacement changes the first entry with its id in the array, and only if that entry is not shown yet |
| PendingMessages.SlotAfterRun | chat/content/conversation-browser.js:427-442 | which message stands in a slot after any run without a load: that of the last replacement that reached the slot while its message waited, else the one it had |
| PendingMessages.AppendedSlotAfterRun | chat/content/conversation-browser.js:411-442 | the same for a message from its append on |
| PendingMessages.RunShows | chat/content/conversation-browser.js:533-574 | a run shows as many messages as time allows and at least one, stays pending exactly if some wait, and requests auto-scroll for the one that was last when it began, and no other |
| PendingMessages.ActivationShows | chat/content/conversation-browser.js:401-409 | activating a browser with waiting messages and no pending display shows as many of them at once as time allows, at least one; any other change of activity shows none |
| PendingMessages.AppendShowsNothing | chat/content/conversation-browser.js:411-420 | an append shows nothing at once, and leaves the display pending if it was or the browser is active, loading or not |
| PendingMessages.SuspendedShowsNothing | chat/content/conversation-browser.js:533-536 | while no display is pending nothing is shown until an activation or an append to an active browser, whatever callbacks are outstanding |
| PendingMessages.InitSuspends | chat/content/conversation-browser.js:225-237 | the same from an `init` on |
| PendingMessages.FlagsAreLast | chat/content/conversation-browser.js:225-409 | over every run activity is as last set, and the browser is loading from `init` to the load event |
| PendingMessages.CallbacksConserved | chat/content/conversation-browser.js:484-580 | no callback is lost or requested twice: under every interleaving the stale ones are those that resets left behind, less those that ran in vain |
| PendingMessages.SinceStart | chat/content/conversation-browser.js:225-580 | from a new browser on; without resets a display has one callback while it is pending and none otherwise |
| PendingMessages.QueueDrains | chat/content/conversation-browser.js:533-580 | without appends or resets, under any interleaving of replacements, activations and callbacks, as many callbacks as messages wait drain the queue: all of it is shown, in order, up to replacement |
| PendingMessages.ConversationBrowser.GetNextPendingMessage | chat/content/conversation-browser.js:513-527 | the next entry; the array is emptied with the last one |
| PendingMessages.ConversationBrowser.DisplayNextMessage | chat/content/conversation-browser.js:540-550 | one round: nothing is left, or the next message is shown, without auto-scroll if fewer than `max` have been |
| PendingMessages.ConversationBrowser.DisplayPendingMessages | chat/content/conversation-browser.js:533-580 | the loop shows one message more than time remained, as far as there are messages, and ends or asks for another callback |
| PendingMessages.ConversationBrowser.StartDisplayingPendingMessages | chat/content/conversation-browser.js:484-504 | nothing if pending, else a request or an immediate run |
| PendingMessages.ConversationBrowser.AppendMessage | chat/content/conversation-browser.js:411-420 | the append step, invariant kept |
| PendingMessages.ConversationBrowser.ReplaceMessage | chat/content/conversation-browser.js:427-442 | the replacement step, invariant kept |
| PendingMessages.ConversationBrowser.SetIsActive | chat/content/conversation-browser.js:401-409 | the activation step, invariant kept |
| PendingMessages.ConversationBrowser.RunIdleCallback | chat/content/conversation-browser.js:491-492 | one of the outstanding callbacks runs, stale or not |
| PendingMessages.ConversationBrowser.InitConversation | chat/content/conversation-browser.js:225-237 | the display is suspended, the queue untouched |
| PendingMessages.ConversationBrowser.OnLoad | chat/content/conversation-browser.js:249-264 | the load-time resets |
| TypeAheadFind.ReportIsFreshSearch | suite/browser/nsTypeAheadFind.js:257-313 | one key: what is reported is what a fresh search would report, although the search may be skipped |
| TypeAheadFind.EveryReportIsFresh | suite/browser/nsTypeAheadFind.js:257-313 | the same over every run of keys, however many units they type, and for a find-again (lines 89-110) after it |
| TypeAheadFind.ReportsSinceStart | suite/browser/nsTypeAheadFind.js:257-388 | the same for every run of keys from the start of a find |
| TypeAheadFind.StaysExactIff | suite/browser/nsTypeAheadFind.js:293-312 | the counter stays the distance to the longest prefix that occurs exactly when the key adds one unit past it or none |
| TypeAheadFind.CounterIsDistance | suite/browser/nsTypeAheadFind.js:257-313 | with one unit a key: at most three, the exact distance, and the second instance highlights the longest prefix that occurs, exactly when a key has just gone past it |
| TypeAheadFind.DistanceSinceStart | suite/browser/nsTypeAheadFind.js:257-388 | the same for every run of one-unit keys from the start of a find |
| TypeAheadFind.KeyLikeFresh | suite/browser/nsTypeAheadFind.js:257-313 | one key of one unit: string, end of the find, report and highlight are those of a find that has no counter and always searches |
| TypeAheadFind.OutputsAreFresh | suite/browser/nsTypeAheadFind.js:257-313 | the same for the outputs of every run of such keys |
| TypeAheadFind.OutputsSinceStart | suite/browser/nsTypeAheadFind.js:257-388 | the same from the start of a find |
| TypeAheadFind.BackSpaceUndoes | suite/browser/nsTypeAheadFind.js:266-312 | BackSpace takes back a unit typed below the limit: string, counter and all |
| TypeAheadFind.KeyEdits | suite/browser/nsTypeAheadFind.js:257-312 | however many units a key types: what it adds to the string or takes off, when it is ignored, and when it ends the find |
| TypeAheadFind.FindAgainKeeps | suite/browser/nsTypeAheadFind.js:89-110 | find-again, like Escape, ends the find and keeps string and counter, and reports what a fresh search would, however often |
| TypeAheadFind.TwoUnitKeyBreaksDistance | suite/browser/nsTypeAheadFind.js:302 | one key whose lower case has two units makes the distance two and the counter one |
| TypeAheadFind.Finder.Process | suite/browser/nsTypeAheadFind.js:257-337 | one key is the machine's step, with at most one search, and none unless the counter is or comes down to zero |
| TypeAheadFind.Finder.Start | suite/browser/nsTypeAheadFind.js:338-388 | string and counter are reset and both invariants hold |
| TypeAheadFind.Finder.Stop | suite/browser/nsTypeAheadFind.js:389-411 | the string is cleared only on request; the counter stays |
| TypeAheadFind.Finder.Again | suite/browser/nsTypeAheadFind.js:100-109 | find-again stops the find and searches only if the counter is zero |

## Left out

- FolderNames.CopyUTF16toMUTF7: the byte behind the buffer is one more cell of the array, which nothing else uses; C++ leaves the write to it undefined.
- FolderNames.CopyFolderNameToUTF16: the conversion of names taken as UTF-8 is a library call, so only the decision is modelled.
- Encoder.BasicUTF7Encoder.ConvertNoBuffNoErr: buffers and inputs whose length exceeds `int32_t` are not modelled, lengths are unbounded.
- Decoder input outside 0..127, whose widening to `char16_t` depends on the compiler.
- `nsMsgI18NConvertToUnicode` and the charset manager: lookups in libraries and tables that are not part of this model.
- PendingMessages.FifoExactlyOnce: `displayMessage` is an entry in a log that appends nothing itself; the timing test is any number of further rounds.
- The second half of `replaceMessage` (conversation-browser.js:443-463): on an active browser it also rewrites the HTML of messages already displayed, so the log holds the calls of `displayMessage`, not the text of the document.
- Displaying, themes, scrolling, the unread ruler, the progress bar, `removeMessage` and `destroy` of the conversation browser; `isActive` without a browsing context.
- Event routing, focus, timers, selection listeners and status strings of find as you type; the page is taken not to change during a find.
