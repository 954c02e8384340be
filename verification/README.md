# Typing-speed trainer session model

A Dafny model of the client-side typing session of a browser typing-speed
trainer. The trainer shows a practice text drawn from a word bank. It
reconciles each edit of a hidden editable region with that text and keeps a
per-position error mask. It counts each mistyped position once, records start
and end times, and colours every character of the text when it renders.

The session is an immutable `Session` record. Each UI event is one pure
transition:

- `Text`: the `split(' ')` / `join(' ')` pair and the word-offset arithmetic of the renderer.
- `Generator`: `generateText`, with the random choices supplied as `draws`.
- `Normalise`: removal of line feeds from the edited buffer.
- `ErrorMask`: the error mask and the reconciliation loop of `handleInput`.
- `Render`: the per-character colour and the cursor marker.
- `Trainer`: the session record, the event transitions, traces and their invariants.

Clock readings are abstract integer timestamps (`now`). Every
`Math.floor(Math.random() * wordBank.length)` is an element of `draws`. The
word bank is the parameter `bank`. Usable banks (`WordBank`) are non-empty and
hold non-empty words without spaces.

The model keeps three behaviours of the code that a reader may not expect:

- The mask is not re-sized to the new text on restart. It takes the length of the previous text, and reconciliation can grow it past that length. In the page this mismatch does not outlast the regeneration effect's cascade: once a firing keeps the text's length, the clear mask is as long as the text shown, and only reconciliation lengthens it.
- A session ends as soon as the typed value is at least as long as the target, not only when the two are equal.
- A click outside the trainer always sets the end time and clears the start time, whether or not a session is in progress.

## Model

| member | source | states |
|---|---|---|
| Text.Split | components/text-to-type.tsx:19 | `split(' ')` never returns an empty list |
| Text.SplitSpaceFree | components/text-to-type.tsx:19 | no piece of a split contains a space |
| Text.Join | components/trainer.tsx:20 | a join of n ≥ 1 words is as long as the words together plus n − 1 separating spaces |
| Text.SplitJoin | components/trainer.tsx:20 | splitting a join of space-free words on ' ' gives back exactly those words |
| Text.JoinSplit | components/text-to-type.tsx:19 | joining the pieces of a split with ' ' gives back the text |
| Text.SplitCount | components/trainer.tsx:103 | the number of pieces (the words counted for WPM) is the number of spaces plus one |
| Text.WordStartIsSum | components/text-to-type.tsx:25-28 | the fold gives word k's start as the sum of the lengths of words 0..k−1 plus k, one for each separating space |
| Text.WordStartStep | components/text-to-type.tsx:26-28 | word k+1 starts one space after word k ends |
| Text.WordStartMonotone | components/text-to-type.tsx:26-28 | every later word starts past the end of every earlier word plus its space |
| Text.JoinCharAt | components/text-to-type.tsx:32-33 | in a join, the character at word k's start plus j is character j of word k |
| Text.JoinSpaceAt | components/trainer.tsx:20 | in a join, the position right after every word but the last holds a space |
| Text.JoinLocate | components/text-to-type.tsx:32-33 | every non-space position of a join is the global index of some (word, character) pair |
| Text.GlobalIndexInjective | components/text-to-type.tsx:33 | distinct (word, character) pairs have distinct global indices |
| Text.TextCharAt | components/text-to-type.tsx:19-33 | for the words of `text.split(' ')`, `text[wordStart(k) + j] == words[k][j]` |
| Text.TextLocate | components/text-to-type.tsx:19-33 | every non-space character of the text is reached by some (word, character) pair |
| Generator.GeneratedWords | components/trainer.tsx:12-21 | with n ≥ 1 draws and a usable bank, the generated text splits into exactly n parts; part k is the bank word of draw k |
| Generator.GeneratedTextNonEmpty | components/trainer.tsx:12-21 | a generated text of at least one word is non-empty |
| Normalise.StripNewlines | components/typing-area.tsx:8 | the normalised value holds no '\n'; its length is the input length minus the number of '\n' |
| Normalise.StripConcat | components/typing-area.tsx:8 | normalisation distributes over concatenation |
| Normalise.StripIsSubsequence | components/typing-area.tsx:8 | the normalised value is the input's non-'\n' characters, all of them, in input order |
| Normalise.StripIdentity | components/typing-area.tsx:8 | an input without '\n' is returned unchanged |
| Normalise.StripIdempotent | components/typing-area.tsx:8 | normalising twice equals normalising once |
| ErrorMask.AllClear | components/trainer.tsx:112 | `Array(n).fill(false)` has length n and flags nothing |
| ErrorMask.SetFlag | components/trainer.tsx:80 | setting entry i flags i and keeps every other flag; past the end it grows the mask to i + 1 |
| ErrorMask.CountTrueSetFlag | components/trainer.tsx:78-80 | flagging a clear position adds exactly one to the number of flagged positions |
| ErrorMask.Scan | components/trainer.tsx:76-83 | the loop flags exactly the mismatching positions from its start on; nothing else changes; its count is the number of newly set flags; the mask never shrinks and stays within max(mask length, value length) |
| ErrorMask.ScanCovered | components/trainer.tsx:78-81 | a mask that already flags every mismatch is returned unchanged with zero new errors |
| Render.ColourOf | components/text-to-type.tsx:34-44 | correct exactly when typed and equal; wrong exactly when typed, different and flagged; neutral when untyped |
| Render.MarkerOf | components/text-to-type.tsx:49-57 | a marker is present exactly at the typing position and shown exactly when also active |
| Render.RenderText | components/text-to-type.tsx:19 | one row per word of the split, one cell per character of that word |
| Render.RenderedCell | components/text-to-type.tsx:33-43 | each cell shows the text's character at its global index; its colour is decided against that target character |
| Render.RenderedIndicesDistinct | components/text-to-type.tsx:26-33 | no two cells share a global index |
| Render.RenderedCovers | components/text-to-type.tsx:19-33 | every non-space character of the text is rendered by some cell |
| Render.CursorUnique | components/text-to-type.tsx:49-57 | at most one cell carries the marker; it sits at the typed length; it is shown exactly when active |
| Render.CursorPlaced | components/text-to-type.tsx:49 | when the typing position holds a non-space character, some cell carries the marker |
| Render.CursorAbsent | components/text-to-type.tsx:49 | when the typing position is a space or past the end, no cell carries the marker |
| Trainer.Mount | components/trainer.tsx:24-32 | the initial session: ten words; a clear mask as long as the text; nothing typed; no timestamps; inactive; errors match the mask |
| Trainer.HandleInput | components/trainer.tsx:70-96 | the typed text becomes the value; the mask flags exactly the old flags plus the mismatches; errors grow by the newly set flags; a value at least as long as the target ends the session and disables input; nothing else changes |
| Trainer.StartEndEffect | components/trainer.tsx:54-67 | the clock starts exactly when one character is typed and no start time is set (both directions), and a start time is never overwritten; typed == target sets the end time and disables input |
| Trainer.Type | components/trainer.tsx:54-96 | an edit while input is disabled changes nothing. Otherwise: the typed text is the normalised buffer, unmodified. Mask entries only flip from clear to set, exactly at typed positions that mismatch the target; a position past the target's end counts as a mismatch. The error count grows by exactly the number of flips and never decreases. A buffer at least as long as the target, or equal to it, sets the end time and disables input; a shorter one changes neither. The clock starts only when exactly one character is typed and none is set, and a set start is never overwritten |
| Trainer.TypeTwiceAddsNothing | components/trainer.tsx:78-81 | typing the same buffer again adds no error and leaves the mask unchanged |
| Trainer.TypedCharactersColoured | components/text-to-type.tsx:36-43 | after an edit every typed character is rendered green when it matches the target and red when it does not, never neutral |
| Trainer.OneTypo | components/trainer.tsx:76-85 | on a mask with no flag set, whatever its length (a restarted session keeps the previous text's length), a same-length value with one differing position flags exactly that position and adds one error |
| Trainer.WorkedExample | components/trainer.tsx:76-85 | target "the cat sat", typed "the bat sat": mask is four clear, one set, six clear; one error |
| Trainer.Restart | components/trainer.tsx:109-126 | a new text of wordCount draws; empty typed text; 0 errors; a clear mask as long as the previous text; no timestamps; inactive; input enabled |
| Trainer.RestartIsFresh | components/trainer.tsx:109-116 | after a restart errors match the mask; the text has exactly wordCount bank words; WPM is 0; the start/end effect has nothing to do |
| Trainer.Regenerate | components/trainer.tsx:39-51 | like a restart, but the active flag is kept |
| Trainer.RegenerateIsFresh | components/trainer.tsx:39-51 | after a regeneration errors match the mask; the text has exactly wordCount bank words; WPM is 0; the start/end effect has nothing to do |
| Trainer.FirstSession | components/trainer.tsx:24-51 | the first firing of the regeneration effect on mount gives ten fresh bank words, a clear mask as long as the mount-time text, inactive with input accepted |
| Trainer.RegenerateSettles | components/trainer.tsx:39-51 | a firing whose new text keeps the replaced length does not re-fire the effect, and leaves a clear mask exactly as long as the text shown |
| Trainer.ChangeWordCount | components/controls.tsx:10-13 | a preset click sets the count, then restarts with a text of that many words: nothing typed, 0 errors, a mask with no flag set, no timestamps, inactive |
| Trainer.Activate | components/trainer.tsx:129-136 | a click on the text activates the trainer and re-enables input; nothing else changes |
| Trainer.ClickOutside | components/trainer.tsx:139-145 | abandoning clears the start, sets the end and deactivates; nothing else changes |
| Trainer.ClickOutsideAbandons | components/trainer.tsx:139-145 | after a click outside the session has ended, is inactive, and WPM reads 0 |
| Trainer.Wpm | components/trainer.tsx:99-106 | WPM is 0 whenever the start or the end time is unset |
| Trainer.Step | components/trainer.tsx:169-192 | dispatch of one event to its handler: a restart, preset or regeneration clears the session and its mask; any other event keeps text and word count and never lowers errors; only a preset changes the word count; a click outside ends and deactivates; a click on the text activates |
| Trainer.Run | components/trainer.tsx:169-192 | over any sequence of events the word count stays a preset; without a resetting event the text is kept and errors never fall |
| Trainer.StepKeepsErrorsMatchMask | components/trainer.tsx:78-86 | every event keeps the error count equal to the number of flagged positions |
| Trainer.RunKeepsErrorsMatchMask | components/trainer.tsx:78-86 | from a mounted or restarted state, errors equal the flagged count after any sequence of events |
| Trainer.StepStartTime | components/trainer.tsx:55-57 | only typing sets a start time, by the one-character rule; typing and activation never overwrite a set start |
| Trainer.ClickOutsideAsWritten | components/trainer.tsx:139-145 | as the page runs it, a click outside with one character typed and the clock running leaves a fresh start time |
| Trainer.ClickOutsideAsWrittenKeepsWpm | components/trainer.tsx:54-57 | in that case WPM is computed rather than 0; the corrected transition gives 0 |

## Findings

| source | as written | input that shows it | evidently intended | confidence | as-written member | corrected member |
|---|---|---|---|---|---|---|
| components/trainer.tsx:139-145 | `handleClickOutside` sets `startTime` to null. That change re-runs the effect at lines 54-57. With exactly one character typed, the effect sets `startTime` again. | type one character (the clock starts), then click outside the trainer | abandoning leaves no start time, so WPM reads 0 | medium; not executed | Trainer.ClickOutsideAsWritten, Trainer.ClickOutsideAsWrittenKeepsWpm | Trainer.ClickOutside, Trainer.ClickOutsideAbandons |

## Left out

- JSX, styling, `clsx` class strings and icons. Header, footer and layout are presentational only.
- The one-second fade-in flag set on restart. It is cosmetic.
- DOM effects: focus, blur, clearing `innerText`, and registering the document click listener. `contentEditable` is modelled only as the `inputEnabled` flag. A click outside is delivered directly as an event.
- The "Check the results" overlay. While an end time is set it catches clicks on the text and restarts; here a click on the text is always `Activate`.
- React scheduling. Each event is one atomic transition. The start/end effect is applied after every edit; after a restart or regeneration it provably does nothing. The regeneration effect fires on mount and again each time a firing changes the text's length; `FirstSession` covers its first firing on mount, `RegenerateSettles` the firing that ends the cascade.
- The regeneration effect (lines 39-51) is a separate event. Its cascade is not modelled: a restart that changes the text length would re-fire it with further random draws.
- `ChangeWordCount`: in the page, `handleRestart` still sees the old count through its closure, and the regeneration effect then draws a text of the new count. The model restarts directly with the new count.
- The renderer keeps the split words in state that an effect updates. The model splits the current text directly.
- Wpm: states only the zero guard. The floating-point formula `Math.round(words / minutes)`, including its Infinity at zero elapsed time, is the parameter `rate`.
- Trainer.FirstSession: covers only the first firing on mount. When that firing changes the text's length the page fires the effect again with new random draws, so the session shown can differ; the model does not chain those firings.
- Trainer.StepStartTime: it is stated over `Step`, which uses the corrected `ClickOutside`. In the page a click outside with exactly one character typed re-arms the clock (see Findings), so there a click outside can also set a start time.
- Characters: a `char` here stands for one UTF-16 code unit, which is what `value[i]`, `.length`, `split('')` and `typedText[globalIndex]` index. Input outside the Basic Multilingual Plane (surrogate pairs, such as emoji) is not represented: the page sees two units where the model would see one character.
- `Date` and `Math.random`: replaced by integer timestamps and the `draws` index sequence.
- The contents of the word bank: a parameter, with non-empty, space-free words where a property needs them.
