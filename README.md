# F5-TTS GUI bookkeeping, modelled in Dafny

This project models the plain-data logic of the F5-TTS Gradio front end
(`src/f5_tts/infer/infer/ifgjs.py`). That logic sits between the widgets and
the speech models. The project covers six parts:

- **The `{label}` script parser** (`parse_speechtypes_text`). `re.split(r"\{(.*?)\}")`
  is stated directly as `SpeechTypes.Split`. It is characterised completely:
  joining the tokens back with braces gives the input, and `SplitsTo` says what
  a left-to-right scan for the lazy, newline-free pattern yields. `Split` is the
  only token sequence that meets that description. The parser loop is a
  method, proved equal to a specification function (`Parse`). Lemmas prove
  that segment texts are trimmed and non-empty, where each segment comes from,
  and how many segments there can be.
- **The multi-style tab.** This covers three things:
  - the "Insert Label" button;
  - the check that switches the Generate button on and off;
  - the "Add Speech Type" / "Delete Type" row counter.
  It also covers the bookkeeping of `generate_multistyle_speech`:
  - the ordered table of speech types, with its `@i@` placeholder keys;
  - style resolution, with its fall-back to `"Regular"`;
  - threading each style's reference text through the synthesis calls.
- **The voice chat session.** This is the chatbot history and the model's
  message list. It covers appending a turn, resetting, and the guards on
  speaking the reply.
- **The model cache in `infer`.** The E2-TTS model is loaded lazily. The custom
  model is cached by checkpoint path.
- **The batch tab.** This is the chapter list built from a parsed JSON file, and
  the list of `chapter_N.wav` paths written.

State that the source changes in place becomes a Dafny class:
- the chat session (`VoiceChat.ChatSession`);
- the module-level model slots (`ModelCache.ModelSlots`);
- the global chapter list (`Chapters.ChapterStore`).

The class methods are proved equal to pure step functions. The lemmas are
stated about those step functions. The source's loops are methods with
invariants.

Everything the handlers call outside this logic is a function-typed
parameter, or is left out:
- the synthesis (the whole `infer` call, reference preprocessing and model
  choice included), in `Multistyle.Run` and `Chapters.FilePaths`;
- the Whisper transcription and the chat model, in `VoiceChat.Submit`;
- the model loaders: a `ModelCache.Model` value names what was loaded;
- reading and parsing the JSON file: `Chapters.JsonFile`.

Python's `str.strip`, `str(n)`, `"\n".join`, `str.split("\n")` and POSIX
`os.path.join` are modelled in `Strings`. The whitespace set is the exact set
of characters for which `str.isspace()` is true.

Three points about what the code does:
- A marker cannot contain a newline, because `.` does not match one. A `{`
  followed by a newline before its `}` stays in the text.
- The comment at `ifgjs.py:527` says a style that is not available defaults to
  `"Regular"`. That fall-back itself raises a `KeyError` when `"Regular"` is not
  a key of the table, which is exactly when no row is both named `"Regular"`
  and given audio. The regular row can be renamed, and another row can take
  the name (`Multistyle.RunRaises`, `Multistyle.RegularWithoutAudio`).
- A label such as `{}` or `{  }` gives the style `""`. `ValidateSpeechTypes`
  rejects that style. Generation speaks it in `"Regular"`.

## Model

| member | source | states |
|---|---|---|
| `Strings.Strip` | src/f5_tts/infer/infer/ifgjs.py:322 | `str.strip()`: the result is no longer than the input and, if non-empty, has no whitespace at either end |
| `Strings.OrDefault` | src/f5_tts/infer/infer/ifgjs.py:464-465 | `s or default` on an optional string: the string itself when it is non-empty, else the default |
| `Strings.StripBlank` | src/f5_tts/infer/infer/ifgjs.py:322-323 | a stripped text is empty exactly when every character of the input is whitespace (so `if text:` drops blank spans) |
| `Strings.StripIdempotent` | src/f5_tts/infer/infer/ifgjs.py:322 | stripping a stripped text changes nothing |
| `Strings.StripSpan` | src/f5_tts/infer/infer/ifgjs.py:322 | the stripped text is an infix `s[i..j]` of the input, and every character outside it is whitespace |
| `Strings.NatToString` | src/f5_tts/infer/infer/ifgjs.py:278 | `str(n)`: decimal digits, at least one, no leading zero, one digit exactly below 10 |
| `Strings.NatToStringValue` | src/f5_tts/infer/infer/ifgjs.py:278 | read back as a decimal number (`DecimalValue`), the digits of `str(n)` are n |
| `Strings.NatToStringInjective` | src/f5_tts/infer/infer/ifgjs.py:278 | different numbers print differently |
| `Strings.SplitJoinLines` | src/f5_tts/infer/infer/ifgjs.py:246 | splitting `"\n".join(lines)` on newlines gives the lines back when at least one line exists and none contains a newline |
| `Strings.JoinLines` | src/f5_tts/infer/infer/ifgjs.py:246 | `"\n".join(lines)`; a specification function with no contract of its own: `SplitJoinLines` states that the lines can be read back |
| `Strings.JoinPath` | src/f5_tts/infer/infer/ifgjs.py:279 | `os.path.join(dir, name)`: an absolute name replaces the directory; otherwise the result starts with the directory and ends with the name |
| `Strings.JoinPathInjective` | src/f5_tts/infer/infer/ifgjs.py:279 | in one directory, different relative names give different paths |
| `SpeechTypes.CloseFrom` | src/f5_tts/infer/infer/ifgjs.py:313 | the lazy `.*?\}`: the first `}` at or after k with no `}` or newline before it, or none, and then every later `}` has a newline before it |
| `SpeechTypes.FindMarker` | src/f5_tts/infer/infer/ifgjs.py:313-316 | the leftmost match of `\{(.*?)\}` at or after i, ending at the first `}`; none means no match starts anywhere after i |
| `SpeechTypes.Split` | src/f5_tts/infer/infer/ifgjs.py:316 | `re.split` with one group: an odd number of tokens, every odd token a possible label (no `}`, no newline) |
| `SpeechTypes.SplitJoin` | src/f5_tts/infer/infer/ifgjs.py:316 | putting the braces back around the labels gives exactly the input |
| `SpeechTypes.SplitCorrect` | src/f5_tts/infer/infer/ifgjs.py:313-316 | the split tokens meet `SplitsTo`: they rejoin to the input, labels are possible captures, and no match starts inside a text token |
| `SpeechTypes.SplitUnique` | src/f5_tts/infer/infer/ifgjs.py:313-316 | any token sequence meeting `SplitsTo` is the split itself |
| `SpeechTypes.SplitsToTail` | src/f5_tts/infer/infer/ifgjs.py:313-316 | past the first text token and marker, a split description of the whole describes the rest, and no match starts in that first text |
| `SpeechTypes.NoMarkerSplit` | src/f5_tts/infer/infer/ifgjs.py:316 | a text with no match is one token |
| `SpeechTypes.SplitCons` | src/f5_tts/infer/infer/ifgjs.py:316 | when no match starts in the text before a marker, the split takes that text and label and continues after the marker |
| `SpeechTypes.SegmentsOf` | src/f5_tts/infer/infer/ifgjs.py:311-333 | a specification function with no contract of its own: the segments the loop emits after the given tokens; `SegmentsStep`, `SegmentsTrimmed`, `SegmentsBound` and `SegmentsOrigin` state what they are |
| `SpeechTypes.Parse` | src/f5_tts/infer/infer/ifgjs.py:311-333 | a specification function with no contract of its own: the segments of a script, `SegmentsOf(Split(s))`; `ParseSpeechTypes` is proved to compute it |
| `SpeechTypes.ParseSpeechTypes` | src/f5_tts/infer/infer/ifgjs.py:311-333 | the loop emits `Parse(genText)`, every segment's text non-empty and trimmed |
| `SpeechTypes.SegmentsStep` | src/f5_tts/infer/infer/ifgjs.py:320-331 | one more token emits at most that token, stripped, with the style of the marker before it |
| `SpeechTypes.SegmentsTrimmed` | src/f5_tts/infer/infer/ifgjs.py:322-327 | every segment has non-empty text with no whitespace at either end |
| `SpeechTypes.SegmentsBound` | src/f5_tts/infer/infer/ifgjs.py:316-331 | at most one segment per text token |
| `SpeechTypes.ParseBound` | src/f5_tts/infer/infer/ifgjs.py:316-331 | at most (number of markers + 1) segments |
| `SpeechTypes.SegmentsOrigin` | src/f5_tts/infer/infer/ifgjs.py:316-331 | the segments are exactly the non-blank text tokens, stripped, in input order, each with the stripped label just before it or "Regular"; a whitespace-only gap between markers emits nothing |
| `SpeechTypes.ParseNoMarker` | src/f5_tts/infer/infer/ifgjs.py:313-327 | text without markers gives no segment if blank, else one "Regular" segment of the stripped text |
| `SpeechTypes.InsertLabel` | src/f5_tts/infer/infer/ifgjs.py:463-467 | the old text (None as "") unchanged, followed by `{name} ` (None as "None") |
| `SpeechTypes.JoinSnoc` | src/f5_tts/infer/infer/ifgjs.py:316 | rejoining tokens with a label and a text appended appends `{label}` and the text |
| `SpeechTypes.SnocSplitsTo` | src/f5_tts/infer/infer/ifgjs.py:313-316 | when the last text token of a split has no `{` and the appended text has none, the split of the longer text is the old split plus the label and the text |
| `SpeechTypes.InsertLabelSplit` | src/f5_tts/infer/infer/ifgjs.py:463-467 | when the last text token of the old text's split has no `{`, the name is a possible label and the continuation has no `{`, the result splits into the old split followed by the name and `" "` + continuation |
| `SpeechTypes.SegmentsPairStep` | src/f5_tts/infer/infer/ifgjs.py:320-331 | a label token followed by a text token emits at most that text, stripped, in the label's stripped style |
| `SpeechTypes.SegmentsOfLabelSnoc` | src/f5_tts/infer/infer/ifgjs.py:316-331 | appending a label and a text to a split appends the stripped text in the stripped label's style, or nothing when the text is blank |
| `SpeechTypes.InsertLabelStylesWhatFollows` | src/f5_tts/infer/infer/ifgjs.py:463-467 | under the same conditions, the parse of the old text is kept unchanged and text typed next is one more segment, in the style of the stripped name, unless it is blank |
| `SpeechTypes.ValidateSpeechTypes` | src/f5_tts/infer/infer/ifgjs.py:567-590 | the button is interactive exactly when every parsed style is a non-empty regular name or one of the first 100 names |
| `SpeechTypeRows.AddCount` | src/f5_tts/infer/infer/ifgjs.py:414-415 | a specification function with no contract of its own: the counter plus one below 100, else unchanged; `AddSpeechType` is proved to return it |
| `SpeechTypeRows.AddUpdates` | src/f5_tts/infer/infer/ifgjs.py:414-425 | a specification function with no contract of its own: below the cap a show for each loop position under the new count and no change for the rest, at the cap no change anywhere; `AddSpeechType` is proved to return it and `AddKeepsInSync` states what it shows |
| `SpeechTypeRows.AddSpeechType` | src/f5_tts/infer/infer/ifgjs.py:413-426 | the count grows by one only below 100; 99 updates, "show" for rows below the new count, "no change" otherwise and at the cap |
| `SpeechTypeRows.AddKeepsInSync` | src/f5_tts/infer/infer/ifgjs.py:413-426 | adding keeps the count at most 100 and the shown rows exactly the first count - 1 |
| `SpeechTypeRows.DeleteCount` | src/f5_tts/infer/infer/ifgjs.py:444 | a specification function with no contract of its own: `max(1, count)`; `DeleteSpeechType` and `DeleteSpeechTypeRow` are proved to return it |
| `SpeechTypeRows.DeleteUpdates` | src/f5_tts/infer/infer/ifgjs.py:436-442 | a specification function with no contract of its own: a hide at loop position `index` of `range(1, 100)`, no change elsewhere; `DeleteSpeechType` is proved to return it and `DeleteFirstRowHidesNothing`/`DeleteHidesRowAbove` state which row that is |
| `SpeechTypeRows.DeleteSpeechType` | src/f5_tts/infer/infer/ifgjs.py:433-448 | as written: count max(1, count), one hide at loop position `index` (none for `index` 0, which is no loop position), "no change" elsewhere |
| `SpeechTypeRows.DeleteFirstRowHidesNothing` | src/f5_tts/infer/infer/ifgjs.py:433-453 | the first row's delete button (index 0) changes no row |
| `SpeechTypeRows.DeleteHidesRowAbove` | src/f5_tts/infer/infer/ifgjs.py:433-453 | any other row's delete button leaves its own row and hides the row above |
| `SpeechTypeRows.DeleteRowUpdates` | src/f5_tts/infer/infer/ifgjs.py:433-453 | a specification function with no contract of its own: the corrected updates, a hide for row `index` alone; `DeleteSpeechTypeRow` is proved to return it and `DeleteRowHidesOwnRow` states it |
| `SpeechTypeRows.DeleteSpeechTypeRow` | src/f5_tts/infer/infer/ifgjs.py:433-453 | corrected handler: count max(1, count), one hide for row `index` |
| `SpeechTypeRows.DeleteRowHidesOwnRow` | src/f5_tts/infer/infer/ifgjs.py:433-453 | the corrected button hides exactly its own row |
| `SpeechTypeRows.AddShowsDeletedRowAgain` | src/f5_tts/infer/infer/ifgjs.py:413-446 | since delete never lowers the count, the next add shows a deleted row again |
| `Multistyle.RowKey` | src/f5_tts/infer/infer/ifgjs.py:507-510 | a specification function with no contract of its own: the key a row is stored under, its name when it has a name and audio, else `@i@`; `CollectKeys` and `PlaceholderCollision` state its consequences |
| `Multistyle.RowVoice` | src/f5_tts/infer/infer/ifgjs.py:507-510 | a specification function with no contract of its own: the stored `{"audio", "ref_text"}` value, the row's audio and reference text when it has a name and audio, else two empty strings; `CollectLastWins` states which row's value a key holds |
| `Multistyle.Put` | src/f5_tts/infer/infer/ifgjs.py:507-510 | OrderedDict assignment keeps keys distinct and in step with the map; a new key goes last, an existing one keeps its place |
| `Multistyle.Zip` | src/f5_tts/infer/infer/ifgjs.py:504-506 | as many rows as the shortest list, row i made of the i-th elements |
| `Multistyle.Collect` | src/f5_tts/infer/infer/ifgjs.py:501-511 | the table is well formed and has at most one key per row |
| `Multistyle.CollectSpeechTypes` | src/f5_tts/infer/infer/ifgjs.py:501-511 | the fill loop builds `Collect` of the zipped rows |
| `Multistyle.CollectIsPutAll` | src/f5_tts/infer/infer/ifgjs.py:501-511 | filling the table from the rows is storing, row after row, each row's voice under its key (`PutAll`) |
| `Multistyle.PutAllHasKey` | src/f5_tts/infer/infer/ifgjs.py:507-510 | every key stored is in the table |
| `Multistyle.PutAllKeysStored` | src/f5_tts/infer/infer/ifgjs.py:507-510 | every key in the table was stored |
| `Multistyle.PutAllLastWins` | src/f5_tts/infer/infer/ifgjs.py:507-510 | a key not stored again later holds the voice stored with it |
| `Multistyle.PutAllDistinct` | src/f5_tts/infer/infer/ifgjs.py:501-511 | keys that are all different are kept, in the order they were stored |
| `Multistyle.CollectKeys` | src/f5_tts/infer/infer/ifgjs.py:507-510 | a key is present exactly when some row is stored under it (its name if it has a name and audio, else `@i@`) |
| `Multistyle.CollectKeysFromRows` | src/f5_tts/infer/infer/ifgjs.py:507-510 | every key of the table is the key some row is stored under |
| `Multistyle.CollectHasRowKey` | src/f5_tts/infer/infer/ifgjs.py:507-510 | every row's key is in the table |
| `Multistyle.CollectLastWins` | src/f5_tts/infer/infer/ifgjs.py:507-510 | the last row stored under a key decides its voice |
| `Multistyle.CollectDistinctRows` | src/f5_tts/infer/infer/ifgjs.py:501-511 | with pairwise different row keys the table has one key per row, in row order |
| `Multistyle.PlaceholderCollision` | src/f5_tts/infer/infer/ifgjs.py:507-510 | a row named `@1@` with audio is overwritten by the placeholder of an empty second row |
| `Multistyle.Resolve` | src/f5_tts/infer/infer/ifgjs.py:524-528 | the resolved key is in the table exactly when the style or "Regular" is |
| `Multistyle.Step` | src/f5_tts/infer/infer/ifgjs.py:530-540 | a specification function with no contract of its own: one loop iteration, a KeyError on a missing key or one more chunk and the key's reference text replaced; `RunChunkVoice` states what it does to each segment |
| `Multistyle.SetRefText` | src/f5_tts/infer/infer/ifgjs.py:540 | a specification function with no contract of its own: the key's reference text replaced, its audio, the key list and every other key kept; `RunKeepsAudio`, `RunKeepsUnusedRefText` and `RunChunkVoice` state its effect on the loop |
| `Multistyle.Run` | src/f5_tts/infer/infer/ifgjs.py:520-540 | the loop keeps the key list, makes one chunk per segment, and has a sample rate exactly when a segment exists |
| `Multistyle.RunRaises` | src/f5_tts/infer/infer/ifgjs.py:524-530 | a KeyError exactly when "Regular" is not a key and some segment's style is not a key; the missing key is "Regular" |
| `Multistyle.RunKeepsAudio` | src/f5_tts/infer/infer/ifgjs.py:530-540 | no style's reference audio changes |
| `Multistyle.RunKeepsUnusedRefText` | src/f5_tts/infer/infer/ifgjs.py:540 | only a style some segment resolves to has its reference text replaced |
| `Multistyle.RunPrefixStep` | src/f5_tts/infer/infer/ifgjs.py:520-540 | after a prefix that did not raise, one more segment is one more loop iteration |
| `Multistyle.RunPrefixRunning` | src/f5_tts/infer/infer/ifgjs.py:520-540 | when the loop finishes, it also finishes on every prefix of the segments, with the chunks so far a prefix of the final chunks |
| `Multistyle.RunChunkVoice` | src/f5_tts/infer/infer/ifgjs.py:524-540 | segment k resolves to a key of the table; its chunk is the synthesis of its own text from that key's audio and the key's reference text as left by segments 0 to k-1, and afterwards that key's reference text is the one the synthesis returned |
| `Multistyle.RefTexts` | src/f5_tts/infer/infer/ifgjs.py:545-550 | one reference text per key, in key order |
| `Multistyle.SpeakSegments` | src/f5_tts/infer/infer/ifgjs.py:518-540 | the segment loop computes `Run` |
| `Multistyle.Concat` | src/f5_tts/infer/infer/ifgjs.py:543-544 | a specification function with no contract of its own: `np.concatenate`, the chunks' samples one after the other in segment order |
| `Multistyle.Finish` | src/f5_tts/infer/infer/ifgjs.py:543-550 | a specification function with no contract of its own: the KeyError, or the concatenated chunks (None when there are none) with one reference text per key; `GenerateShape` states its shape |
| `Multistyle.Generate` | src/f5_tts/infer/infer/ifgjs.py:492-550 | a specification function with no contract of its own: `Finish` of the collected table and the parsed script; `GenerateMultistyleSpeech` is proved to compute it |
| `Multistyle.GenerateMultistyleSpeech` | src/f5_tts/infer/infer/ifgjs.py:492-550 | the handler returns `Generate`: table, parse, loop, response |
| `Multistyle.GenerateShape` | src/f5_tts/infer/infer/ifgjs.py:543-550 | a response has one reference text per key, and audio exactly when the script has a segment |
| `Multistyle.RegularWithoutAudio` | src/f5_tts/infer/infer/ifgjs.py:501-530 | without a "Regular" row with audio, a segment whose style is not a key raises KeyError("Regular") |
| `VoiceChat.ChatSession.constructor` | src/f5_tts/infer/infer/ifgjs.py:679-686 | empty history, one default system message, in step |
| `VoiceChat.Submit` | src/f5_tts/infer/infer/ifgjs.py:690-718 | sending either changes nothing or appends exactly one chatbot entry, keeping the old ones |
| `VoiceChat.ChatSession.ProcessAudioInput` | src/f5_tts/infer/infer/ifgjs.py:690-718 | the in-place appends and the `history[-1]` update compute `Submit` |
| `VoiceChat.SubmitKeepsInStep` | src/f5_tts/infer/infer/ifgjs.py:706-714 | sending keeps the conversation equal to the system message followed by the history's messages, and keeps the system message |
| `VoiceChat.SubmitAppendOnly` | src/f5_tts/infer/infer/ifgjs.py:706-714 | old history and old conversation are prefixes of the new ones, growing by at most one entry and two messages |
| `VoiceChat.SubmitNoInput` | src/f5_tts/infer/infer/ifgjs.py:697-699 | no recording and blank text change nothing |
| `VoiceChat.SubmitAnswered` | src/f5_tts/infer/infer/ifgjs.py:702-714 | on success the conversation grows by exactly the user and the assistant message and the last entry is (text, reply) |
| `VoiceChat.ClearConversation` | src/f5_tts/infer/infer/ifgjs.py:743-750 | empty history, only the default system prompt; equal to resetting with the default prompt |
| `VoiceChat.UpdateSystemPrompt` | src/f5_tts/infer/infer/ifgjs.py:752-755 | empty history and the new prompt as the only message, in step |
| `VoiceChat.AudioResponse` | src/f5_tts/infer/infer/ifgjs.py:722-734 | nothing is spoken exactly when the history is empty, the reference audio is missing, or the last reply is missing or empty; otherwise the last reply is spoken |
| `VoiceChat.ClearedIsSilent` | src/f5_tts/infer/infer/ifgjs.py:722-755 | after a reset there is nothing to speak |
| `VoiceChat.AnswerIsSpoken` | src/f5_tts/infer/infer/ifgjs.py:702-729 | a non-empty answer is what the audio step then speaks; a failed answer leaves nothing to speak |
| `ModelCache.InitialCache` | src/f5_tts/infer/infer/ifgjs.py:79-80 | a specification function with no contract of its own: the E2 slot filled only in Spaces, no custom model, path `""`; `InitialCacheValid` states that it meets the slot invariants and the constructor is proved to start in it |
| `ModelCache.ModelSlots.constructor` | src/f5_tts/infer/infer/ifgjs.py:79-80 | E2 loaded at start only in Spaces, no custom model, empty path |
| `ModelCache.Select` | src/f5_tts/infer/infer/ifgjs.py:157-172 | a model that is loaded is the model selected; when nothing is loaded, and whenever an exception is raised, the slots are unchanged |
| `ModelCache.ModelSlots.SelectModel` | src/f5_tts/infer/infer/ifgjs.py:157-172 | the selection and the slot updates compute `Select` |
| `ModelCache.InitialCacheValid` | src/f5_tts/infer/infer/ifgjs.py:79-80 | the initial slots meet both slot invariants |
| `ModelCache.SelectKeepsInvariants` | src/f5_tts/infer/infer/ifgjs.py:157-172 | the cached custom model always matches `pre_custom_path`; a loaded model is never unloaded |
| `ModelCache.F5NeverLoads` | src/f5_tts/infer/infer/ifgjs.py:157-158 | "F5-TTS" selects the startup model and changes nothing |
| `ModelCache.E2LoadedLazily` | src/f5_tts/infer/infer/ifgjs.py:159-164 | "E2-TTS" selects the E2 model and loads it exactly when its slot is empty |
| `ModelCache.SelectE2Slot` | src/f5_tts/infer/infer/ifgjs.py:159-164 | one selection loads E2 only into an empty slot and never empties it |
| `ModelCache.E2LoadedAtMostOnce` | src/f5_tts/infer/infer/ifgjs.py:159-164 | over any run of selections E2 is loaded at most once, and never when loaded at start |
| `ModelCache.CustomReloadedOnPathChange` | src/f5_tts/infer/infer/ifgjs.py:165-172 | a custom model is loaded exactly when its path differs from `pre_custom_path`, which then becomes that path |
| `ModelCache.VocabChangeIgnored` | src/f5_tts/infer/infer/ifgjs.py:168-172 | the same checkpoint with another vocabulary keeps the model loaded with the old vocabulary |
| `ModelCache.EmptyCustomPathSelectsNothing` | src/f5_tts/infer/infer/ifgjs.py:165-172 | before any custom load, an empty checkpoint path selects no model |
| `ModelCache.SpacesRefusesCustom` | src/f5_tts/infer/infer/ifgjs.py:165-166 | in Spaces every custom choice fails the assertion and changes nothing |
| `Chapters.Paragraphs` | src/f5_tts/infer/infer/ifgjs.py:240-242 | one paragraph per chapter, `title + " " + content` |
| `Chapters.ChaptersFrom` | src/f5_tts/infer/infer/ifgjs.py:226-249 | a parsed file gives as many chapters as it holds |
| `Chapters.PreviewOf` | src/f5_tts/infer/infer/ifgjs.py:226-249 | a specification function with no contract of its own: the read error, the no-chapters error, or the paragraphs joined by newlines; `PreviewLines` and `ErrorLeavesNoChapters` state what it shows |
| `Chapters.ChapterStore.constructor` | src/f5_tts/infer/infer/ifgjs.py:223 | the chapter list starts empty |
| `Chapters.ChapterStore.ProcessJsonFile` | src/f5_tts/infer/infer/ifgjs.py:226-249 | the list is reset, then holds the paragraphs; the preview is the joined list or the error |
| `Chapters.BatchMessage` | src/f5_tts/infer/infer/ifgjs.py:259-288 | a specification function with no contract of its own: the no-chapters error, or the written paths joined by newlines; `BatchMessageLines` and `ErrorLeavesNoChapters` state what it shows |
| `Chapters.ChapterStore.BatchTtsSynthesize` | src/f5_tts/infer/infer/ifgjs.py:259-288 | the message is the no-chapters error, or the written paths joined by newlines |
| `Chapters.ErrorLeavesNoChapters` | src/f5_tts/infer/infer/ifgjs.py:228-261 | an unreadable or chapterless file leaves no chapters, previews an error, and the batch reports no chapters |
| `Chapters.PreviewLines` | src/f5_tts/infer/infer/ifgjs.py:240-246 | without newlines in titles and contents the preview lists exactly the chapters, one per line |
| `Chapters.ChapterFileName` | src/f5_tts/infer/infer/ifgjs.py:278 | `chapter_{idx+1}.wav`, a relative name |
| `Chapters.ChapterPath` | src/f5_tts/infer/infer/ifgjs.py:278-279 | a specification function with no contract of its own: `os.path.join(output_dir, f"chapter_{idx + 1}.wav")`; `ChapterPathInjective` states that different chapters get different paths |
| `Chapters.ChapterFileNameInjective` | src/f5_tts/infer/infer/ifgjs.py:278 | different chapters get different file names |
| `Chapters.ChapterPathInjective` | src/f5_tts/infer/infer/ifgjs.py:278-279 | different chapters are written to different paths in the output directory |
| `Chapters.FilePaths` | src/f5_tts/infer/infer/ifgjs.py:263-282 | at most one path per chapter |
| `Chapters.FilePathsSound` | src/f5_tts/infer/infer/ifgjs.py:263-282 | every path is the file of a chapter whose synthesis succeeded |
| `Chapters.FilePathsComplete` | src/f5_tts/infer/infer/ifgjs.py:263-282 | every chapter whose synthesis succeeded has its path listed |
| `Chapters.FilePathsDistinct` | src/f5_tts/infer/infer/ifgjs.py:263-282 | no path is listed twice |
| `Chapters.BatchMessageLines` | src/f5_tts/infer/infer/ifgjs.py:279-288 | when the output directory has no newline, the message lists exactly the written paths |

## Left out

- The Gradio widgets, the event wiring and `gr.update`. A row update is a token (`Keep`, `Show`, `Hide`). The Generate button's update is a boolean.
- The synthesis: the whole `infer` call, silence removal, spectrograms, the vocoder, cross-fade and speed (floating point). Samples are a type parameter. `np.concatenate` is sequence concatenation.
- `preprocess_ref_audio_text` inside `infer`: the reference text returned by the synthesis parameter stands for it.
- Whisper transcription, `generate_response` and `load_chat_model`: the transcriber and the chat model are parameters of `VoiceChat.Submit` that return None for an exception. `load_chat_model` sets the model and tokenizer states that `generate_response` reads; while no chat model is loaded, `generate_response` raises and `process_audio_input` catches it, which the chat parameter returning None covers.
- ModelCache.Select: the loaders never raise. In the source `load_e2tts()` (`ifgjs.py:163`) or `load_custom(...)` (`ifgjs.py:170`) can raise, for instance on a mistyped checkpoint path; the assignment to `E2TTS_ema_model`, or to `custom_ema_model` and `pre_custom_path`, then never happens and the exception leaves `infer` with the globals unchanged. The model instead selects the model and updates the slots, so the "exactly when" halves of `E2LoadedLazily` and `CustomReloadedOnPathChange` describe a loader that succeeds.
- The model loaders `load_f5tts`, `load_e2tts`, `load_custom` and `cached_path`. A `Model` value names what was loaded. The stripping and `hf://` resolution inside `load_custom` are not modelled.
- `switch_tts_model`, `set_custom_model` and the `last_used_custom.txt` file. They only reach the core through the choice passed to `infer`. `switch_tts_model` unpacks the file into exactly two parts and `set_custom_model` always builds `["Custom", ckpt, vocab]`, so `infer` only receives three-item custom lists. `Select` also handles lists of other lengths (the `IndexError` cases), a generalisation of what can arrive.
- Opening the uploaded file and `json.load`. The file arrives already parsed as (title, content) string pairs, or as the message of the exception that reading it raised. Non-string titles and contents formatted by the f-string are not modelled.
- `sf.write`, `os.makedirs` and the output directory `os.getcwd()/generated_audio`. The directory is a parameter. Success of one chapter (synthesis and write) is a parameter.
- `print`, `gr.Info`, `gr.Warning` and the `spaces.GPU` decorator.
- The argument slicing of `generate_multistyle_speech` and `validate_speech_types` (`args[:100]` and so on). The lists arrive already sliced, except that `ValidateSpeechTypes` applies the 100-name limit itself.
- The third return value `""` of `process_audio_input`. The event has only two outputs.
- `generate_audio_response` past its guards: `AudioResponse` says what would be spoken, not the audio.
- Multistyle.Run: the synthesis parameter always returns a result. In the source `infer` can raise inside the loop (`ifgjs.py:534-536`), for instance when a segment resolves to an `@i@` placeholder row whose audio is `""`; the exception aborts the handler with no output. The model does not capture that abort.
- InsertLabelStylesWhatFollows: it does not describe inserting a label after text whose last text token holds an unclosed `{`, or a name holding `}` or a newline. There the inserted braces join a longer or different marker.
- Windows path joining: `JoinPath` models POSIX `os.path.join`.
- A `None` text box in `process_audio_input`: text is always a string.
- The regular expression engine: `Split` states the split of `\{(.*?)\}` directly.

## Findings

| source | as written | input that shows it | evidently intended | confidence | as-written member | corrected member |
|---|---|---|---|---|---|---|
| src/f5_tts/infer/infer/ifgjs.py:433-453 | the delete button of extra row `i` is made with `index = i`, and its loop hides position `index` of `range(1, 100)`; that position is row `i - 1` | the delete button of the first extra row (`index = 0`) hides nothing; the button of row 5 hides row 4 and leaves row 5 shown | each delete button hides its own row (`i == index + 1`) | not executed | `SpeechTypeRows.DeleteSpeechType`, `SpeechTypeRows.DeleteFirstRowHidesNothing`, `SpeechTypeRows.DeleteHidesRowAbove` | `SpeechTypeRows.DeleteSpeechTypeRow`, `SpeechTypeRows.DeleteRowHidesOwnRow` |
