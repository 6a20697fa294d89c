# Plant page narration — a Dafny model

The plant page of the Plant-QR application opens on a route such as
`plant/PLANT001`, shows the catalog entry for that id, and reads its
description aloud, translated first unless the chosen language is Indian
English (`en-IN`). All of that logic lives in `PlantComponent`. This project
models it as pure functions over strings, small datatypes and a record of the
component's fields, and proves what the component does with them:

- **Text formatter** (`formatter.dfy`, on top of `strings.dfy`): the display
  form turns each line break into `<br>`. The narration form turns line
  breaks into `. ` and semicolons into commas, and rewrites the seven section
  labels (`Family:`, `Origin:`, `Growth Habit:`, `Light Required:`,
  `Water Required:`, `Soil Condition:`, `Uses:`) to end in a comma. The
  first two replacements are the punctuation pass `Formatter.Punctuate`,
  the other seven the label pass `Formatter.RewriteLabels`.
  `String.prototype.replace` with a global literal pattern is modelled by
  `Strings.ReplaceAll`: one left-to-right scan that replaces non-overlapping
  occurrences.
- **Catalog lookup and page opening** (`catalog.dfy`): the first record with
  the route's id, or the `Plant not found` outcome. Loading ends either way.
- **Language gate** (`language.dfy`): the tag-to-short-code switch, and the
  rule that only `en-IN` skips translation.
- **Voice choice** (`voices.dfy`): the first exact-language voice whose name
  contains `Neural`, else the first exact-language voice, else none.
- **Translation reassembly** (`translation.dfy`): the response is given
  already parsed. It is either a failure, or the list of segments. The text
  is the in-order join of each segment's first element, or the original text
  on failure.
- **Playback controls** (`playback.dfy`): `speak`, `pauseSpeech` and
  `stopSpeech` act on the fields `isPaused` and `utterance` and on a log of
  outside calls (`cancel`, `pause`, `resume`, `speak`, and the translation
  request). `speak` is split at its `await` into `BeginSpeak` and
  `FinishSpeak`, so that a request overlapping another can be stated.
  `Queued` replays the log to count the utterances the engine holds.

## Behaviour as written

The model follows the code. In these places the code does less than a reader
of the page might expect:

- Markup in a description is not stripped from the narration text; only the
  substitutions listed above happen.
- There is no fallback to a voice of the same base language (`en` for
  `en-IN`). Without an exact-tag voice, no voice is set and the engine's
  default applies.
- `stopSpeech` keeps the utterance. A later pause toggle still issues
  `pause` to an engine with nothing queued and sets `isPaused`
  (`Playback.ToggleAfterStop`).
- Nothing discards a translation that comes back late. If the user stops,
  or starts another narration, while a translation is awaited, the late
  utterance is still spoken. Two overlapping requests leave two utterances
  queued, and whichever translation arrives last sets the page's utterance:
  the older request's when the answers come back out of order, the newer
  one's when they come back in order
  (`Playback.StopBeforeTranslationArrives`, `Playback.OverlappingSpeaksQueueTwo`,
  `Playback.InOrderOverlapKeepsNewer`). Only a tag other than `en-IN` awaits,
  so only such a request can be overtaken.
- A colon is narrated as a comma only when one of the seven labels ends
  right before it; `Note: water weekly` keeps its colon
  (`Formatter.NarrationColon`).
- Only `en-IN` skips translation. Other English tags such as `en-US` are
  sent to the service with target `en` (`Language.OtherEnglishTranslated`).

## Model

| member | source | states |
|---|---|---|
| `Sequences.FindIndex` | src/app/plant/plant.component.ts:30 | the index of the first element satisfying the test, and None exactly when no element does |
| `Sequences.Find` | src/app/plant/plant.component.ts:75 | `find` returns the first satisfying element, and undefined exactly when none satisfies |
| `Strings.CountChar` | src/app/plant/plant.component.ts:38 | specification helper for the length and offset statements: the count of a character is at most the length, and zero exactly when the character is absent |
| `Strings.ContainsIff` | src/app/plant/plant.component.ts:75 | `includes` holds exactly when the pattern starts at some position of the text |
| `Strings.ReplaceAll` | src/app/plant/plant.component.ts:37-46 | a replacement as long as the pattern keeps the length; what the scan does position by position is stated by `Strings.ReplaceCharAt` and `Strings.ReplaceLastCharAt` |
| `Strings.ReplaceIntroduces` | src/app/plant/plant.component.ts:37-46 | every character of the result comes from the text or from the replacement |
| `Strings.ReplaceAtFront` | src/app/plant/plant.component.ts:40-46 | an occurrence at the front becomes the replacement and the scan resumes right after it |
| `Strings.ReplaceSkipsPrefix` | src/app/plant/plant.component.ts:40-46 | a prefix holding no first character of the pattern is copied unchanged |
| `Strings.ReplaceLastCharAt` | src/app/plant/plant.component.ts:40-46 | rewriting `name` + `y` into `name` + `x`: a `y` of the text becomes `x` exactly when `name` ends right before it, so the left-to-right scan misses no occurrence |
| `Strings.DemotedEndsAt` | src/app/plant/plant.component.ts:40-46 | turning some `y` into `x` neither creates nor destroys an occurrence of a word holding neither character |
| `Strings.ReplaceAbsent` | src/app/plant/plant.component.ts:37-46 | a pattern that does not occur leaves the text unchanged |
| `Strings.ReplaceCharLength` | src/app/plant/plant.component.ts:34 | replacing one character grows the text by the replacement's extra length per occurrence |
| `Strings.ReplaceCharRemoves` | src/app/plant/plant.component.ts:38 | replacing a character by text that lacks it removes every occurrence |
| `Strings.ReplaceCharAt` | src/app/plant/plant.component.ts:34 | each input character lands at its shifted offset: a match becomes the replacement, any other character is copied |
| `Strings.ReplaceClearsPattern` | src/app/plant/plant.component.ts:40-46 | turning a pattern's last character into one the pattern lacks leaves no occurrence of the pattern |
| `Strings.ReplaceDemotes` | src/app/plant/plant.component.ts:40-46 | such a rewrite changes only occurrences of that last character, into the new one |
| `Formatter.DisplayForm` | src/app/plant/plant.component.ts:34 | the display form has no line break, and each line break adds three characters (`<br>`) |
| `Formatter.DisplayPositions` | src/app/plant/plant.component.ts:34 | every non-break character is kept in order at its shifted place, and each break becomes `<br>` there |
| `Formatter.DisplayExample` | src/app/plant/plant.component.ts:34 | the two-line example displays as `Family: Rosaceae<br>Origin: Asia` |
| `Formatter.RewriteLabels` | src/app/plant/plant.component.ts:40-46 | the label pass keeps the length and adds no line break or semicolon; which characters it changes is stated by `Formatter.RewriteLabelsColon` |
| `Formatter.Punctuate` | src/app/plant/plant.component.ts:37-39 | after the first two replacements no line break or semicolon is left, and the text has grown by one character per line break |
| `Formatter.PunctuatePositions` | src/app/plant/plant.component.ts:37-39 | each description character lands at its place shifted by one per earlier line break: a line break as `. `, a semicolon as a comma, anything else copied |
| `Formatter.NarrationForm` | src/app/plant/plant.component.ts:37-46 | the narration text has no line break and no semicolon, and its length is the description's plus one per line break |
| `Formatter.NarrationPositions` | src/app/plant/plant.component.ts:37-46 | the narration character by character: a line break becomes `. `, a semicolon a comma, a colon a colon or a comma, and every other character is copied, at its place shifted by one per earlier line break |
| `Formatter.RewriteLabelsClears` | src/app/plant/plant.component.ts:40-46 | the label pass only turns colons into commas, and no `Label:` marker of its labels is left |
| `Formatter.RewriteLabelsColon` | src/app/plant/plant.component.ts:40-46 | a colon becomes a comma in the label pass exactly when one of the labels ends right before it, and otherwise stays a colon |
| `Formatter.NarrationColon` | src/app/plant/plant.component.ts:37-46 | a colon of the description is narrated as a comma exactly when one of the seven labels ends right before it after the punctuation pass, and otherwise stays a colon |
| `Formatter.LabelBeforeColon` | src/app/plant/plant.component.ts:40-46 | a label written right before a colon in the description is narrated followed by a comma |
| `Formatter.NarrationHasNoLabelMarkers` | src/app/plant/plant.component.ts:40-46 | none of the seven `Label:` markers occurs in the narration text |
| `Formatter.PlainTextNarratedVerbatim` | src/app/plant/plant.component.ts:37-46 | a description without line break, semicolon or colon is narrated exactly as written |
| `Formatter.NarrationExample` | src/app/plant/plant.component.ts:37-46 | `Family: Rosaceae\nOrigin: Asia` is narrated as `Family, Rosaceae. Origin, Asia` |
| `Formatter.LabelsWellFormed` | src/app/plant/plant.component.ts:40-46 | none of the seven labels holds a line break, semicolon, colon or comma |
| `Catalog.Lookup` | src/app/plant/plant.component.ts:29-30 | a record is found exactly when the route has an id some record carries, and it is the first such record |
| `Catalog.Open` | src/app/plant/plant.component.ts:29-52 | loading always ends; the error is `Plant not found` exactly when no plant is found; a found plant carries its display and narration forms |
| `Catalog.UnknownIdNotFound` | src/app/plant/plant.component.ts:48-51 | an id no record carries opens the not-found page, with no plant and loading ended |
| `Language.LanguageCode` | src/app/plant/plant.component.ts:104-112 | the code is one of five, and any code other than `en` comes from the tag's own entry in the table |
| `Language.LanguageCodeTable` | src/app/plant/plant.component.ts:104-112 | the four known tags map to `hi`, `de`, `fr`, `ru`, and every other tag maps to `en` |
| `Language.LanguageCodeInjective` | src/app/plant/plant.component.ts:104-112 | two tags sharing a code other than `en` are the same tag |
| `Language.TranslationTarget` | src/app/plant/plant.component.ts:64-68 | no translation exactly for `en-IN`; any other tag is translated into its table code (`hi-IN` into `hi`, and so on), and a tag outside the table into `en` |
| `Language.OtherEnglishTranslated` | src/app/plant/plant.component.ts:65-66 | an unknown tag other than `en-IN` is still translated, into `en` |
| `Voices.SelectVoice` | src/app/plant/plant.component.ts:74-78 | the voice speaks exactly the tag; it is the first preferred voice when one exists, else the first exact voice; none exactly when no voice has the tag |
| `Voices.SelectIgnoresOtherLanguages` | src/app/plant/plant.component.ts:74-78 | only voices of the exact tag matter: the choice is the first `Neural` one of them, else the first of them |
| `Voices.ExactVoices` | src/app/plant/plant.component.ts:75 | specification helper for `Voices.SelectIgnoresOtherLanguages`: the kept voices are exactly the voices of the requested tag, each as often as in the inventory and in inventory order (a subsequence of it) |
| `Translation.JoinFragments` | src/app/plant/plant.component.ts:118 | the joined text is empty for no segments and starts with the first segment's fragment |
| `Translation.Translated` | src/app/plant/plant.component.ts:114-122 | a failed translation yields the input text unchanged; a response yields the joined fragments, as long as they are together |
| `Translation.JoinAppend` | src/app/plant/plant.component.ts:118 | joining splits over any split of the segment list |
| `Translation.FragmentInPlace` | src/app/plant/plant.component.ts:118 | each fragment appears, in order, right after the fragments of the segments before it |
| `Translation.JoinLength` | src/app/plant/plant.component.ts:118 | the joined text is as long as all fragments together |
| `Playback.Init` | src/app/plant/plant.component.ts:14-19 | a fresh page has no utterance, is not paused and has made no calls |
| `Playback.BeginSpeak` | src/app/plant/plant.component.ts:55-68 | without a plant nothing changes; otherwise `cancel` is issued first and `isPaused` cleared, and a translation request follows exactly for a tag other than `en-IN` |
| `Playback.FinishSpeak` | src/app/plant/plant.component.ts:62-84 | the new utterance carries the tag and the chosen voice, and the original narration text for `en-IN` or on failure; it is the one call added |
| `Playback.SpeakIn` | src/app/plant/plant.component.ts:55-85 | without a plant nothing changes; otherwise `cancel` comes first, then the translation request for the narration text and the tag's code exactly when the tag is not `en-IN`, then `speak` of the new utterance, leaving it the one queued, unpaused; the utterance carries the tag, the chosen voice, and the original text for `en-IN` or a failed translation, the joined fragments otherwise |
| `Playback.PauseSpeech` | src/app/plant/plant.component.ts:87-97 | without an utterance nothing changes; otherwise `isPaused` flips, with `pause` when going to paused and `resume` when coming back |
| `Playback.StopSpeech` | src/app/plant/plant.component.ts:99-102 | `cancel` is issued, `isPaused` is false afterwards, and the utterance is kept |
| `Playback.QueuedAfter` | src/app/plant/plant.component.ts:59 | `cancel` empties the engine queue, `speak` adds one utterance, other calls leave it |
| `Playback.InitConsistent` | src/app/plant/plant.component.ts:14-19 | a freshly opened page satisfies the component invariant |
| `Playback.StepConsistent` | src/app/plant/plant.component.ts:55-102 | each control keeps the invariant: at most one queued utterance, `isPaused` exactly when the last call was `pause`, paused only with an utterance |
| `Playback.RunConsistent` | src/app/plant/plant.component.ts:55-102 | any sequence of controls, each finishing before the next, keeps the invariant |
| `Playback.ReachableConsistent` | src/app/plant/plant.component.ts:55-102 | from the opened page, every sequence of controls leaves at most one utterance queued |
| `Playback.PauseTwiceRestores` | src/app/plant/plant.component.ts:87-97 | two toggles restore `isPaused`, with `pause` and `resume` issued in the order the flag requires |
| `Playback.StopIdempotent` | src/app/plant/plant.component.ts:99-102 | stopping twice leaves the same fields as stopping once, with nothing queued |
| `Playback.ToggleAfterStop` | src/app/plant/plant.component.ts:87-102 | after a stop, the pause toggle still issues `pause` and sets `isPaused` while nothing is queued |
| `Playback.OverlappingSpeaksQueueTwo` | src/app/plant/plant.component.ts:55-85 | a narration in a tag other than `en-IN` overtaken by a second one whose answer comes back first: two utterances reach the engine, and the page keeps the older one |
| `Playback.InOrderOverlapKeepsNewer` | src/app/plant/plant.component.ts:55-85 | two overlapping translated narrations whose answers come back in order: two utterances reach the engine, and the page keeps the newer one |
| `Playback.StopBeforeTranslationArrives` | src/app/plant/plant.component.ts:55-102 | a stop while a translation is awaited does not prevent the late utterance from being spoken |

## Left out

- `speechSynthesis`, `SpeechSynthesisUtterance` and the `onvoiceschanged` handler (src/app/plant/plant.component.ts:24-27) are host browser objects. The engine appears only as the log of calls made to it. The voice list `speak` reads is a parameter, and the `voices` field filled by the handler is never read by the logic.
- The utterance's `rate` and `pitch` (src/app/plant/plant.component.ts:81-82) are floating-point delivery settings with no effect on the logic.
- `fetch`, the translation URL, `encodeURIComponent` and `res.json()` (src/app/plant/plant.component.ts:116-117) are network and foreign calls. The parsed response is a parameter: None stands for any thrown error, and a segment list for a well-formed body.
- Translation.Fragment: a segment whose first element is not a string (a `null`, say) is not modelled. An empty segment yields the empty text, as `join` does for `undefined`.
- `console.error` on a failed translation (src/app/plant/plant.component.ts:120) is logging only.
- Playback.Queued: utterances that finish on their own are not modelled, so the count is an upper bound on what is still to be heard.
- Playback.RunConsistent: the invariant is proved for controls that each finish before the next starts. Only a `speak` in a tag other than `en-IN` awaits, so only such a request can be interleaved with later controls; those interleavings can be built from `BeginSpeak` and `FinishSpeak`, and the code does not keep the invariant under them (see the overlap lemmas).
- The catalog entry object is extended in place with the two text forms. The model keeps them in `LoadedPlant` instead, and leaves out the catalog fields the component never reads.
- Angular wiring (`@Component`, `ActivatedRoute`, the JSON import, the template) and src/app/app.routes.ts are framework configuration with no logic of their own.
- generate_qr.py is a script that writes QR code images through the `qrcode` library.
