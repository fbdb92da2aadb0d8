# Landing page and AI tool layer: a Dafny model

This project models the three parts of the landing page and its content tools that hold
logic:

- **The 3D modules carousel** (`ModulesCarousel`, `modules_carousel.dfy`). It keeps an active
  index over the six course modules. `Next` and `Prev` move the index one step around the
  circle. The render step gives each card a signed circular offset. The integer layout
  (shift, depth, rotation, stacking order) is derived from that offset. A click on a card
  moves the index one step toward that card.
- **The animated sections of the page** (`LandingPage`, `landing_page.dfy`). The in-view flag
  follows the intersection observer. The typewriter types its text out, one character per
  interval tick, after a start delay, and clears it whenever its element enters or leaves view.
  The FAQ item toggles open and closed. The observer callbacks and timers are modelled as the
  events they deliver: `SetVisible`, `DelayElapsed`, `Tick` and `Click`.
- **Response post-processing in the AI service** (`GeminiService`, `gemini_service.dfy`).
  There are five tool functions (titles, script, tags, trends, thumbnail). Each receives the
  settled outcome of its remote call as an input value. Each returns a `Result` whose
  `Failure` stands for the rejected promise. Trend analysis returns a plain sequence, because
  it never rejects.

Two modules support these. `JsString` (`js_string.dfy`) models the JavaScript string
built-ins the service uses: ECMAScript white space, `trim`, and `split` on one character.
`Wrappers` (`wrappers.dfy`) holds `Option` and `Result`.

The state that the source updates in place is modelled as classes: `Carousel`, `InView`,
`Typewriter` and `FaqItem`. Each method's postcondition states the new state in terms of the
old one. Pure computations are modelled as functions, with lemmas about them.

## Model

| member | source | states |
|---|---|---|
| `ModulesCarousel.NextIndex` | components/blocks/modules-carousel.tsx:55-57 | the result stays in `[0, n)`; it is the next index, wrapping from `n-1` to `0` |
| `ModulesCarousel.PrevIndex` | components/blocks/modules-carousel.tsx:59-61 | the result stays in `[0, n)`; it is the previous index, wrapping from `0` to `n-1` |
| `ModulesCarousel.PrevAfterNext` | components/blocks/modules-carousel.tsx:55-61 | `prev(next(k)) == k` for every `k` in `[0, n)` |
| `ModulesCarousel.NextAfterPrev` | components/blocks/modules-carousel.tsx:55-61 | `next(prev(k)) == k` for every `k` in `[0, n)` |
| `ModulesCarousel.CircularOffset` | components/blocks/modules-carousel.tsx:117-120 | the offset lies in `[-n/2, n/2]` (comparisons on `2*offset`, as JavaScript divides exactly); it differs from `index - active` by at most one full turn; it is 0 exactly for the active card; `+n/2` only when `index > active`, `-n/2` only when `index < active` |
| `ModulesCarousel.OffsetCongruentModN` | components/blocks/modules-carousel.tsx:117-120 | the offset is congruent to `index - active` modulo `n` |
| `ModulesCarousel.OffsetUnique` | components/blocks/modules-carousel.tsx:117-120 | any value congruent to `index - active`, within the half-circle and breaking the even-`n` tie the same way, equals the offset |
| `ModulesCarousel.ExactlyOneActive` | components/blocks/modules-carousel.tsx:123 | the set of cards with offset 0 is exactly `{active}` |
| `ModulesCarousel.Layout` | components/blocks/modules-carousel.tsx:127-147 | a card is active exactly at offset 0; a `zIndex` of 100 and a depth of 0 belong to the active card alone, every other card is lower and further back; a positive offset shifts the card right and rotates it to negative angles, and a negative offset does the opposite, so cards face the centre |
| `ModulesCarousel.LayoutMirror` | components/blocks/modules-carousel.tsx:127-133 | opposite offsets flip shift and rotation and keep depth and `zIndex` |
| `ModulesCarousel.NearerCardInFront` | components/blocks/modules-carousel.tsx:130-147 | a card nearer the centre has a strictly greater `zIndex` and is less far back |
| `ModulesCarousel.Scene` | components/blocks/modules-carousel.tsx:112-147 | of all `n` cards, only the one at the active index is active, and it has the strictly greatest `zIndex` |
| `ModulesCarousel.AfterClick` | components/blocks/modules-carousel.tsx:157-162 | the index after a click on a card stays in `[0, n)` |
| `ModulesCarousel.ClickIsOneStep` | components/blocks/modules-carousel.tsx:157-162 | clicking the active card leaves the index unchanged; any other click performs exactly one `next` or one `prev`, never a jump; a card with positive offset gives `next` and one with negative offset gives `prev` |
| `ModulesCarousel.ClickOppositeCard` | components/blocks/modules-carousel.tsx:117-162 | on six cards the opposite card is reached forward when its index is the larger one and backward otherwise: card 3 from 0 moves to 1, card 0 from 3 moves to 2 |
| `ModulesCarousel.ClickApproaches` | components/blocks/modules-carousel.tsx:157-162 | each click on a non-active card lowers that card's distance from the centre by exactly one |
| `ModulesCarousel.ClickNeighbour` | components/blocks/modules-carousel.tsx:157-162 | clicking a card at offset `+1` or `-1` makes it the active card |
| `ModulesCarousel.ClicksReachCard` | components/blocks/modules-carousel.tsx:157-162 | clicking a card as many times as its distance from the centre makes it active |
| `ModulesCarousel.Carousel.constructor` | components/blocks/modules-carousel.tsx:52 | the carousel has one card per course module, and the initial index is 0 |
| `ModulesCarousel.Carousel.Next` | components/blocks/modules-carousel.tsx:55-57 | the new index is `NextIndex` of the old one and stays in range |
| `ModulesCarousel.Carousel.Prev` | components/blocks/modules-carousel.tsx:59-61 | the new index is `PrevIndex` of the old one and stays in range |
| `ModulesCarousel.Carousel.KeyDown` | components/blocks/modules-carousel.tsx:63-67 | `ArrowLeft` steps back, `ArrowRight` steps forward, any other key leaves the index unchanged |
| `ModulesCarousel.Carousel.Offset` | components/blocks/modules-carousel.tsx:117-120 | the offset, reassigned in two conditionals, equals `CircularOffset` of the card |
| `ModulesCarousel.Carousel.Click` | components/blocks/modules-carousel.tsx:157-162 | the new index is the one-step move toward the clicked card (`AfterClick`) |
| `LandingPage.InView.constructor` | App.tsx:12 | an element starts out of view |
| `LandingPage.InView.Report` | App.tsx:15-17 | the flag equals the most recent intersection report, in both directions |
| `LandingPage.Typewriter.constructor` | App.tsx:67-69 | the typewriter starts out of view, with nothing displayed and no timer |
| `LandingPage.Typewriter.SetVisible` | App.tsx:71-95 | the flag follows the report; a change of visibility abandons any typing, cancels both timers, resets the displayed text to `''`, and, on entering view, schedules the start delay; a report that does not change the flag changes nothing |
| `LandingPage.Typewriter.DelayElapsed` | App.tsx:78-80 | a pending delay starts the interval with `i = 0`, so `|text| + 1` ticks remain; without a pending delay nothing changes |
| `LandingPage.Typewriter.Tick` | App.tsx:80-84 | with the interval running, the displayed text becomes `text[..min(i+1, |text|)]`, `i` grows by one, the display only grows, one tick fewer remains, and the interval clears exactly when `i` passes `|text|`, with the full text shown; otherwise nothing changes |
| `LandingPage.Typewriter.DisplayedIsPrefix` | App.tsx:81 | the displayed text is always a prefix of the text |
| `LandingPage.RunInterval` | App.tsx:80-84 | a started interval clears itself after exactly `|text| + 1` ticks, leaving the whole text displayed |
| `LandingPage.FaqItem.constructor` | App.tsx:399 | a FAQ item starts closed |
| `LandingPage.FaqItem.Click` | App.tsx:406 | each click flips `isOpen` |
| `LandingPage.ClickTwice` | App.tsx:406 | two clicks restore the original state |
| `JsString.LeadingCount` | services/geminiService.ts:27 | the count is the length of the longest prefix whose characters satisfy the predicate |
| `JsString.Trim` | services/geminiService.ts:67 | the trimmed string is no longer than the input |
| `JsString.TrimSpec` | services/geminiService.ts:67 | `trim` removes white space at both ends and no more: the result sits inside the input between all-white-space margins, and it neither starts nor ends with white space |
| `JsString.TrimEmptyIff` | services/geminiService.ts:27 | `line.trim().length > 0` exactly when the line holds a character that is not white space |
| `JsString.TrimIdempotent` | services/geminiService.ts:67 | trimming twice is trimming once |
| `JsString.Split` | services/geminiService.ts:67 | `split` on one character gives one more piece than the number of separators |
| `JsString.SplitPiecesFree` | services/geminiService.ts:67 | no piece of a split holds the separator |
| `JsString.JoinSplit` | services/geminiService.ts:67 | joining the pieces with the separator gives back the text |
| `JsString.SplitJoin` | services/geminiService.ts:67 | splitting separator-free pieces joined by the separator gives back the pieces |
| `JsString.SplitAppend` | services/geminiService.ts:27 | the pieces of `a + sep + b` are the pieces of `a` followed by those of `b` |
| `GeminiService.OrElse` | services/geminiService.ts:50 | `text \|\| fallback` is the text when it is present and non-empty, and the fallback otherwise |
| `GeminiService.StripMarker` | services/geminiService.ts:27 | each title is a suffix of its line; when the line changes, the removed text is a run of at least one of `-`, `*`, `•`, ASCII digits or `.` followed by at least one white space character, and the title does not start with white space |
| `GeminiService.StripMarkerChangesIff` | services/geminiService.ts:27 | a line is changed exactly when a prefix of it matches `^[-*•\d.]+\s+` |
| `GeminiService.StripMarkerEdgeCases` | services/geminiService.ts:27 | `"1.Foo"` is unchanged and `"1. "` becomes `""` |
| `GeminiService.ParseTitles` | services/geminiService.ts:27 | the chain `split('\n')`, `filter`, `map(replace)` gives at most one title per line, and no title holds a line break |
| `GeminiService.ParseTitlesOneLine` | services/geminiService.ts:27 | a single line gives no title when it is blank and its stripped form otherwise |
| `GeminiService.ParseTitlesAppend` | services/geminiService.ts:27 | titles are produced line by line in the original order: those of `a + "\n" + b` are those of `a` followed by those of `b` |
| `GeminiService.ParseTitlesExample` | services/geminiService.ts:27 | `"1. Foo\n2. Bar\n\n"` gives `["Foo", "Bar"]` |
| `GeminiService.GenerateTitles` | services/geminiService.ts:26-30 | a remote error is rethrown unchanged; any answer resolves to `ParseTitles` of its text, read as `''` when absent; absent or empty text gives `[]` |
| `GeminiService.GenerateScript` | services/geminiService.ts:50-53 | a remote error is rethrown unchanged; non-empty text is returned as it is; absent or empty text gives `'Erro ao gerar roteiro.'` |
| `GeminiService.ParseTags` | services/geminiService.ts:67 | there is one tag per comma plus one, so no tag is dropped or merged |
| `GeminiService.ParseTagsSpec` | services/geminiService.ts:67 | the j-th tag is the j-th comma-separated piece with its surrounding white space trimmed; it holds no comma and neither starts nor ends with white space |
| `GeminiService.ParseTagsAppend` | services/geminiService.ts:67 | tags stay in order: those of `a + "," + b` are those of `a` followed by those of `b` |
| `GeminiService.ParseTagsExample` | services/geminiService.ts:66-67 | `"tag1, tag2 ,tag3"` gives `["tag1", "tag2", "tag3"]`, and `""` gives `[""]` |
| `GeminiService.GenerateTags` | services/geminiService.ts:66-70 | a remote error is rethrown unchanged; any answer resolves to `ParseTags` of its text, read as `''` when absent, so at least one tag; absent or empty text gives `[""]` |
| `GeminiService.AnalyzeTrends` | services/geminiService.ts:107-113 | a failed call gives `[]`, a text the parser rejects gives `[]`, and otherwise the result is the parsed array; it never fails |
| `GeminiService.AnalyzeTrendsEmptyText` | services/geminiService.ts:108-109 | absent or empty text is parsed as `'[]'` and gives `[]` |
| `GeminiService.FirstInlineData` | services/geminiService.ts:143-148 | the result is the data of the first part that carries inline data, whatever later parts hold; it is undefined when no part carries inline data |
| `GeminiService.ImageParts` | services/geminiService.ts:142 | no candidates means no parts to scan; an empty candidate list makes `candidates[0].content` throw a `TypeError`; a first candidate without content makes `.parts` throw a `TypeError`; otherwise the parts are those of the first candidate's content, possibly undefined |
| `GeminiService.ExtractImage` | services/geminiService.ts:141-149 | the `for` loop with `break` gives the same image data as `FirstInlineData`, and it propagates the `TypeError` of `ImageParts` |
| `GeminiService.ThumbnailConcept` | services/geminiService.ts:121-159 | a failure of either stage is rethrown unchanged; a `TypeError` of `ImageParts` rejects the whole call; on success the returned prompt is the text-stage answer, or `"A viral youtube thumbnail about " + topic` when that answer is absent or empty, and the image is undefined when there are no parts to scan and `FirstInlineData` of the parts otherwise |
| `GeminiService.GenerateThumbnailConcept` | services/geminiService.ts:121-159 | the two-stage pipeline settles to `ThumbnailConcept`; the image stage receives the prompt it returns |
| `GeminiService.ThumbnailFirstImage` | services/geminiService.ts:141-154 | the image is the data of the first part of the first candidate that carries inline data, whatever the other candidates hold |
| `GeminiService.ThumbnailNoCandidates` | services/geminiService.ts:142-158 | an image answer with an empty candidate list rejects with the `TypeError` of `candidates[0].content`, although the text stage succeeded |
| `GeminiService.ThumbnailWithoutImage` | services/geminiService.ts:141-154 | an image answer without inline data gives `imageBase64` undefined and the text-stage answer as prompt |
| `GeminiService.ErrorPolicy` | services/geminiService.ts:110-112 | on a remote error, titles (lines 28-30), script (51-53), tags (68-70) and thumbnail (156-158) reject with that same error, while trends resolves to `[]` |

## Left out

- The remote model calls, the client built from `process.env.API_KEY`, the prompt wording, the model identifiers and `console.error` are foreign calls and I/O. Each call's outcome is an input value. The image stage is a function from the prompt it is sent to its outcome.
- `JSON.parse` is a function parameter that accepts a text with `Some(records)` or rejects it with `None`. JSON grammar is not modelled. A text that parses to something other than an array of trend records is outside that parameter's range.
- `AnalyzeTrends`: the TypeScript result type is `any[]`; the model's result is a sequence of `TrendData` records.
- The `mimeType` of inline image data and the other fields of response parts are not modelled; only the presence of `inlineData` and its `data` are.
- The carousel's scale, opacity, blur and brightness are floating point, and the animation timing is left out. So are the `isHovering` flag, which the carousel sets on mouse enter and leave but never reads, and the module icons, which are component references.
- Tick and RunInterval: Dafny strings are sequences of Unicode scalar values, while `text.length` and `text.slice` count UTF-16 code units. For a text holding a character outside the Basic Multilingual Plane, such as an emoji, the component takes one extra tick per such character and briefly shows half a surrogate pair; the model does not. None of the page's three typewriter texts holds such a character.
- Trim: its own contract is only the length bound; what `trim` removes and keeps is stated by `TrimSpec`, as a lemma, so that the many uses of `Trim` inside the title and tag parsers do not carry that characterisation.
- AfterClick: its own contract is only the range bound; which step a click takes is stated by `ClickIsOneStep`, and what it achieves by `ClickApproaches` and `ClicksReachCard`.
- The typewriter's `speed` and `delay` values and real-time scheduling are reduced to the `DelayElapsed` and `Tick` events. A change of the `text`, `speed` or `delay` props, which would also re-run the effect, is not modelled: the text is a constant of each typewriter.
- `FadeSection` only styles its element from the `InView` flag; that styling is markup.
- Overlapping requests and stale responses are concurrency between independent promises; the service has no logic for them.
- The hero section, footer, layout, tool card, magic button and smooth scroll components, and `types.ts`, hold markup, declarations, floating-point effects or one-line toggles. They are not part of this model.
