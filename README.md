# Activity sign-up page: HTML escaping and participant markup

This project models the pure core of the browser client of an activity
sign-up application, `src/static/app.js`. The rest of that file is network
and DOM wiring. Two pieces are modelled:

- `escapeHtml` (module `HtmlEscape`, file `escape.dfy`). This helper turns
  `&`, `<`, `>`, `"` and `'` into `&amp;`, `&lt;`, `&gt;`, `&quot;` and
  `&#39;` with five global `.replace` calls. A missing argument (`undefined`
  or `null`) gives the empty string.
  - `ReplaceAll` models one `.replace(/c/g, rep)` pass.
  - `Passes` models the chain of five passes, in the source's order.
  - `EscapeHtml` models the whole helper, with its argument as an `Option<string>`.
  - `Escape` is a per-character reference definition. `Unescape` undoes it (a left inverse: `Unescape(Escape(s)) == s`).
- The spots-left number and the participants section of an activity card
  (module `ParticipantsMarkup`, file `markup.dfy`).
  - `SpotsLeft` is `max_participants - participants.length`.
  - `Items` is the `.map` that builds one `<li>` per participant. Each `<li>`
    has the escaped e-mail and a remove button. The button's `data-activity`,
    `data-email` and `aria-label` carry the escaped activity name and e-mail.
  - `Join` is `.join("")`.
  - `RenderParticipants` chooses between the list and the "No participants yet" block.
  - `ReadParticipants` is the partner of the rendering. It reads a section
    back into, for each item, the shown e-mail, the activity, the e-mail and
    the label text, and decodes the five character references. The click
    handler relies on this: it reads `data-email` and `data-activity` back
    from the button (up to the parser normalisation noted under "Left out").

Properties proved:
- The five sequential passes equal the per-character substitution.
- No `<`, `>`, `"` or `'` survives escaping.
- Every `&` of the output begins one of the five references.
- Escaping distributes over concatenation and goes character by character, in order.
- A string with none of the five characters is returned unchanged. A string
  with any of them is changed.
- The exact output length is known.
- Unescaping undoes escaping, so escaping is injective.
- A rendered section reads back exactly as the participant list, and a non-empty one also as the activity name.
- The empty block appears exactly when the list is empty.

The model follows the code. The length added per character is 4, 3, 3, 5
and 4 for `&`, `<`, `>`, `"` and `'`: `&#39;` is five characters long, so
`'` adds four.

## Model

| member | source | states |
|---|---|---|
| HtmlEscape.Passes | src/static/app.js:10-14 | definition: the five global replacements in the source's order, `&` first |
| HtmlEscape.EscapeHtml | src/static/app.js:8-15 | definition: a missing or empty argument gives the empty string, any other string goes through the five passes |
| HtmlEscape.ReplaceAll | src/static/app.js:10-14 | a global one-character replacement leaves a string without that character unchanged, and leaves no occurrence behind when the replacement does not contain it |
| HtmlEscape.ReplaceAllConcat | src/static/app.js:10-14 | a global replacement of a single character distributes over concatenation |
| HtmlEscape.PassesConcat | src/static/app.js:9-14 | the five-pass chain distributes over concatenation |
| HtmlEscape.PassesOnChar | src/static/app.js:10-14 | on one character the chain yields exactly that character's reference (or the character itself): a reference made by an earlier pass is never touched by a later one |
| HtmlEscape.PassesIsEscape | src/static/app.js:9-14 | the five sequential passes equal the single per-character substitution on every string |
| HtmlEscape.EscapeHtmlIsEscape | src/static/app.js:8-15 | `escapeHtml` of a present string is its per-character escape, and of a missing argument the escape of the empty string |
| HtmlEscape.EscapeHtmlEmpty | src/static/app.js:9 | the result is empty exactly when the argument is missing or the empty string |
| HtmlEscape.AmpersandPassFirst | src/static/app.js:10-11 | were `&` replaced after `<`, `<` would become `&amp;lt;`: the order of the passes matters |
| HtmlEscape.EscapeConcat | src/static/app.js:9-14 | escape(a + b) == escape(a) + escape(b) |
| HtmlEscape.EscapeAt | src/static/app.js:9-14 | the output is the escape of the prefix, then the substitution of character i, then the escape of the suffix: per character and in order |
| HtmlEscape.EscapeNoMarkup | src/static/app.js:11-14 | the output holds no `<`, `>`, `"` or `'` |
| HtmlEscape.EscapeAmpersands | src/static/app.js:10-14 | every `&` in the output begins `&amp;`, `&lt;`, `&gt;`, `&quot;` or `&#39;` |
| HtmlEscape.EscapeLength | src/static/app.js:10-14 | output length is the input length plus 4, 3, 3, 5, 4 per `&`, `<`, `>`, `"`, `'`, hence never shorter |
| HtmlEscape.EscapeIdentity | src/static/app.js:9-14 | a string is returned unchanged if and only if it contains none of the five characters |
| HtmlEscape.UnescapeOnePrefix | src/static/app.js:10-14 | decoding a character's substitution followed by any text gives that character followed by the decoding of the text |
| HtmlEscape.UnescapeEscape | src/static/app.js:10-14 | unescape(escape(s)) == s |
| HtmlEscape.EscapeInjective | src/static/app.js:10-14 | two strings with the same escape are equal |
| ParticipantsMarkup.SpotsLeft | src/static/app.js:34 | spots left plus the number of participants is the maximum, and it is negative exactly when the activity is over-subscribed (no clamping) |
| ParticipantsMarkup.ItemMarkup | src/static/app.js:47-49 | definition: the `<li>` template with `escapeHtml` of the e-mail, the activity name, the e-mail and the e-mail inserted, in that order |
| ParticipantsMarkup.Items | src/static/app.js:44-50 | definition: `participants.map(...)`, one item per participant in list order |
| ParticipantsMarkup.Join | src/static/app.js:51 | definition: `.join("")`, the items concatenated in order |
| ParticipantsMarkup.RenderParticipants | src/static/app.js:39-57 | definition: the list section when the list is non-empty, otherwise the "No participants yet" block |
| ParticipantsMarkup.ItemsCarry | src/static/app.js:44-50 | item i reads back as participant i shown, participant i in `data-email` and in the label, and the activity in `data-activity` |
| ParticipantsMarkup.ReadItemMarkup | src/static/app.js:47-49 | an item followed by any text reads back as (e-mail, activity, e-mail, e-mail) and leaves that text: no participant or activity name can end its field early |
| ParticipantsMarkup.ReadJoinedItems | src/static/app.js:44-51 | the joined items read back as the participants in order, each with the activity name |
| ParticipantsMarkup.RenderReadsBack | src/static/app.js:39-57 | the rendered section reads back as exactly the participant list, every remove button carrying its participant and the activity |
| ParticipantsMarkup.ListNotEmptyBlock | src/static/app.js:40-56 | a section that opens the participant list is never the "No participants yet" block |
| ParticipantsMarkup.RenderEmptyBlock | src/static/app.js:39-56 | the "No participants yet" block is rendered if and only if the list is empty |
| ParticipantsMarkup.RenderInjective | src/static/app.js:39-57 | different participant lists never render the same section, and a non-empty section also determines the activity |

## Left out

- Fetching `/activities`, parsing the JSON response, and the submit and remove-button click handlers (src/static/app.js:18-24, 82-122, 128-155). These are network I/O and asynchronous browser events.
- DOM updates: `innerHTML`, `appendChild`, `createElement`, class changes, and the select-option reset (src/static/app.js:24-27, 59-73). The card markup of lines 59-65 is left out with them.
- `setTimeout`, `confirm`, `alert` and `console.error`. These are timers, dialogs and logging.
- `encodeURIComponent` (src/static/app.js:90, 141). It is a browser library call.
- How `String(str || "")` coerces non-string values such as `0`, `false` or objects. The argument is modelled as either absent or a string.
- The `Array.isArray` guard of line 37. The model assumes the server sends the participants as an array of strings, which is how tests/test_app.py:25,55 read them. What the source does for a participants value that is not an array (line 34 then computes spots left from it, or throws, while line 37 renders no participants) is not modelled.
- `max_participants` is modelled as an unbounded integer. JavaScript number arithmetic (floats, `NaN`) is not modelled.
- Layout whitespace inside the template literals of lines 40-54. `RenderParticipants` joins the fixed pieces without it. The `<li>` template of lines 47-49 has no layout whitespace and is modelled character for character, with `✖` as U+2716.
- JavaScript strings are sequences of UTF-16 code units. The model uses Unicode scalar values. The five patterns are ASCII and the replacement strings contain no `$` patterns, so this makes no difference to the escape.
- `Unescape` decodes only the five references `escapeHtml` produces. A browser decodes every HTML character reference when it reads an attribute. The reader also leaves out the HTML parser's input normalisation: a browser turns CR and CRLF into LF, and U+0000 in an attribute value into U+FFFD, so for e-mails holding those characters `btn.dataset.email` differs from the participant the reader recovers.
