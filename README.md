# Boss page renderer: a verified model

`render-html.mjs` builds the daily page of a Tibia world that lists boss
sightings. It reads a report (a list of bosses, each with a display name, a
`killed` flag and an optional confidence `chance`, plus a timestamp). Then:

- It renders two HTML tables from the report: one for bosses recently killed and one for bosses still to check.
- Each row links to the boss's page on the Tibia fandom wiki and shows its thumbnail image.
- It ends the page with a "Last updated on" paragraph.
- It substitutes the world name and the rendered tables into an HTML template.

This project models that core in Dafny and proves what it does:

| file | module | models |
|---|---|---|
| `wrappers.dfy` | `Wrappers` | `Option` and `Result` |
| `ascii.dfy` | `Ascii` | character classes, `toUpperCase`/`toLowerCase` on ASCII |
| `js_string.dfy` | `JsString` | `String.prototype.replaceAll` / `replace` with a string pattern, including the `$` replacement patterns (`$$`, `` $& ``, `` $` ``, `$'`), and `Array.prototype.join` |
| `uri.dfy` | `Uri` | `encodeURIComponent` (UTF-8, upper-case hex, the ECMAScript unreserved set) and its inverse `decodeURIComponent` |
| `html_escape.dfy` | `Html` | lodash `escape` (imported as `escapeHtml`) and its inverse `unescape` |
| `number_format.dfy` | `NumberFormat` | `formatNumber`, on chances given in hundredths of a percent |
| `slug.dfy` | `Slug` | `slugify`, and the image-slug and nice-name chains of `render` |
| `render.dfy` | `Render` | `render`: a method with the source's loop, proved equal to the specification function `Page` |
| `template.dfy` | `Template` | the template substitution of lines 62-64, as written and as intended |

`render` works by pushing rows into two buffers and flipping two flags, so
`Render.Render` is a method with a `while` loop over the bosses. Its loop
invariants tie the buffers and flags to the pure `Page` function:
`Page` partitions the bosses with `Select`, maps each group to rows, and joins
the sections. The properties of the page are proved as lemmas about `Page`.
Everything else in the core is expression code and is modelled by functions.

Two details of the script shape the model:

- A pending (not killed) boss without a `chance` makes `formatNumber(undefined)` throw a `TypeError`, so `render` fails and no page is written. `Page` returns `Failure(ChanceMissing)` in that case.
- The image slug is derived from the percent-encoded wiki slug, not from the underscored slug before encoding. So a non-ASCII letter appears in the image slug as lower-case `%xx` escapes. An apostrophe is never encoded, so it is still removed.

## Model

| member | source | states |
|---|---|---|
| Ascii.LowerCase | render-html.mjs:30 | lower-cased text has the length of the input and no upper-case ASCII letter, and each character depends only on the one it replaces |
| Ascii.LowerCaseIdempotent | render-html.mjs:30 | lower-casing lower-cased text changes nothing |
| JsString.Expand | render-html.mjs:63-64 | a replacement string without `$` is inserted as it is |
| JsString.IndexOf | render-html.mjs:64 | the search returns the first occurrence at or after the start, or none when there is none |
| JsString.Replace | render-html.mjs:64 | `replace` leaves a string without the pattern unchanged, and otherwise rewrites only the first occurrence, keeping everything before and after it |
| JsString.ReplaceAllAbsent | render-html.mjs:11-13 | `replaceAll` leaves a string without the pattern unchanged |
| JsString.ScanSkipsTo | render-html.mjs:11-13 | the left-to-right scan of `replaceAll` copies everything before the first occurrence, replaces it, and resumes after it |
| JsString.ReplaceAllIsRepeatedReplace | render-html.mjs:63-64 | `replaceAll` with a verbatim replacement is `replace` of the first occurrence followed by `replaceAll` on the rest |
| JsString.PlainPatternIsLiteral | render-html.mjs:63 | a replacement string without `$` means the same as inserting it verbatim |
| JsString.SameLengthRewrite | render-html.mjs:12-13 | replacing a pattern by a text of the same length keeps the length and changes characters only inside matched occurrences |
| JsString.SingleCharMap | render-html.mjs:31 | replacing every `_` by `-` maps that one character and keeps every other one in place |
| JsString.SingleCharRemove | render-html.mjs:32-33 | removing every `'` or `.` removes exactly all copies of that character and nothing else |
| JsString.JoinPush | render-html.mjs:39-46 | pushing a part onto a buffer appends it to the joined text |
| Uri.EncodeShape | render-html.mjs:14 | `encodeURIComponent` output holds only unreserved characters and `%` escapes of two upper-case hex digits |
| Uri.EncodeLacks | render-html.mjs:14 | no reserved character other than `%` ever appears in the encoded text |
| Uri.DecodeEncode | render-html.mjs:14 | `decodeURIComponent(encodeURIComponent(s)) == s` for every string |
| Uri.EncodeInjective | render-html.mjs:14 | two different names never give the same encoded slug |
| Html.EscapeIsInert | render-html.mjs:39-50 | escaped text contains no `<`, `>`, `"` or `'` |
| Html.EscapePlain | render-html.mjs:2 | text without any of `& < > " '` is kept as it is |
| Html.EscapeAppend | render-html.mjs:2 | escaping distributes over concatenation |
| Html.EscapeKeepsOtherChars | render-html.mjs:2 | a character of the escaped text that is neither special nor part of an entity was in the input |
| Html.UnescapeEscape | render-html.mjs:2 | `unescape(escape(s)) == s` |
| NumberFormat.Decimal | render-html.mjs:19 | the integer part is a non-empty string of decimal digits without a leading zero |
| NumberFormat.DecimalValue | render-html.mjs:19 | the decimal digits read back to the number |
| NumberFormat.ParseFormat | render-html.mjs:18-20 | the formatted percentage reads back to the chance it came from |
| NumberFormat.FormatChanceShape | render-html.mjs:18-20 | a formatted chance ends in `%`, has a point three places before it, and holds no `?`, `<` or `&` |
| NumberFormat.FormatExamples | render-html.mjs:18-20 | 42 formats as `42.00%`, 0 as `0.00%` and 99.5 as `99.50%` |
| Slug.TitleCaseAt | render-html.mjs:8 | title-casing keeps the length and upper-cases exactly the lower-case letters at a word start |
| Slug.TitleCaseIdempotent | render-html.mjs:8 | title-casing a title-cased name changes nothing |
| Slug.CasedNameAt | render-html.mjs:7-9 | a name is title-cased only when it starts with a lower-case letter, and is otherwise kept unchanged |
| Slug.LowerWordFirst | render-html.mjs:12-13 | one connector rewrite keeps the text before the first `_The_` (or `_Of_`), turns that occurrence into `_the_` (or `_of_`), and carries on right after it |
| Slug.LowerWordAbsent | render-html.mjs:12-13 | a text without the connector is kept by its rewrite |
| Slug.LowerWordOnce | render-html.mjs:12-13 | a text with a single connector gets exactly that occurrence lowered and nothing else changed |
| Slug.LadyOfTheLakeLowered | render-html.mjs:10-13 | with `_` or a space between the words, "Lady Of The Lake" gets both `The` and `Of` lowered |
| Slug.LowerConnectorsAt | render-html.mjs:12-13 | the connector rewrites keep the length and change only the `T` of a `_The_` to `t` and the `O` of a `_Of_` to `o` |
| Slug.LowerConnectorsAbsent | render-html.mjs:12-13 | a slug without `_The_` and `_Of_` is kept by the connector rewrites |
| Slug.UnderscoredAt | render-html.mjs:10-13 | the underscored slug has the length of the name and no space; every character is the name's (a space as `_`) or a lowered connector letter |
| Slug.UnderscoredLadyOfTheLake | render-html.mjs:10-13 | "Lady Of The Lake" is underscored as "Lady_of_the_Lake" |
| Slug.WikiSlugDecodes | render-html.mjs:5-16 | decoding the wiki slug gives back the underscored, title-cased name |
| Slug.WikiSlugShape | render-html.mjs:5-16 | the wiki slug is percent-encoded with upper-case hex escapes |
| Slug.WikiSlugLacks | render-html.mjs:5-16 | a character outside the unreserved set and `%` never appears in a wiki slug |
| Slug.ImageSlugShape | render-html.mjs:29-33 | the image slug holds only lower-case letters, digits, `-`, `!`, `~`, `*`, `(`, `)` and `%` escapes in lower-case hex |
| Slug.ImageSlugOfName | render-html.mjs:28-33 | the image slug of any name has no upper-case letter, no `_`, no `'` and no `.` |
| Slug.ImageSlugLacks | render-html.mjs:29-33 | a character outside the image-slug alphabet never appears in an image slug |
| Slug.NiceNameAt | render-html.mjs:34-36 | the nice name has the length of the name and differs only at the `T` of ` The ` and the `O` of ` Of `, which become lower case |
| Slug.NiceNameOfLadyOfTheLake | render-html.mjs:34-36 | "Lady Of The Lake" is displayed as "Lady of the Lake" |
| Slug.NiceNameLacks | render-html.mjs:34-36 | the nice name introduces no character other than `t` and `o` |
| Render.KilledConfidence | render-html.mjs:39 | a killed row shows `?` exactly when the chance is missing or 0, and otherwise a percentage that reads back to the chance |
| Render.Render | render-html.mjs:22-54 | the loop over the bosses computes `Page`: the killed and check sections, or the failure when a pending boss has no chance |
| Render.SelectAppend | render-html.mjs:27-44 | the rows of a longer boss list extend the rows of its prefix, in input order |
| Render.SelectPartition | render-html.mjs:27-44 | every boss goes to exactly one buffer: the killed ones to the killed buffer, the rest to the check buffer, none lost or repeated |
| Render.SelectMember | render-html.mjs:37-43 | a boss is in a buffer exactly when it is in the list and its `killed` flag matches |
| Render.PageFails | render-html.mjs:43 | rendering fails exactly when some boss that is not killed has no chance |
| Render.OneRowPerBoss | render-html.mjs:27-44 | a rendered page has one row per boss, each killed boss's row in the killed section and each pending boss's row in the check section, in input order |
| Render.PageOfPartition | render-html.mjs:27-44 | the page depends only on the killed bosses and the pending bosses, each in input order |
| Render.PageEndsWithFooter | render-html.mjs:50-52 | a rendered page always ends with the escaped "Last updated on" paragraph |
| Render.PageOfNoBosses | render-html.mjs:45-52 | an empty boss list gives only the "Last updated on" paragraph |
| Render.PageStartsKilled | render-html.mjs:26-48 | when some boss was killed, the page starts with the killed section's heading |
| Render.PageStartsCheck | render-html.mjs:25-49 | when there are bosses and none was killed, the page starts with the check section's heading |
| Render.AllKilled | render-html.mjs:45-52 | when every boss was killed, the page is the killed section followed by the "Last updated on" paragraph, with no check table |
| Render.AllPending | render-html.mjs:42-52 | when no boss was killed, the page is the check section followed by the paragraph, with no killed table, or the missing-chance failure |
| Render.KilledBeforeCheck | render-html.mjs:45-52 | with both kinds of boss, the killed section (heading, rows, table end) comes first and the check section follows |
| Render.AnchorIsSafe | render-html.mjs:39-43 | the slugs cannot close the `href` or `src` attribute or open a tag, and the escaped name cannot open a tag |
| Template.DollarPatternsExpanded | render-html.mjs:64 | as written, a page of `$$` comes out as `$`; verbatim insertion keeps `$$` |
| Template.MatchPatternExpanded | render-html.mjs:63 | as written, a world named `$&` puts the world token back; verbatim insertion gives `$&` |
| Template.AsWrittenWithoutDollar | render-html.mjs:62-64 | when neither the world name nor the page holds a `$`, the script as written and the intended substitution agree |
| Template.WorldEverywhere | render-html.mjs:63 | every world token is replaced by the world name, left to right; a template without one is kept |
| Template.FirstDataTokenOnly | render-html.mjs:64 | the page replaces only the first data token; everything after it, including later data tokens, is kept |

## Left out

- File reads and writes, `process.argv` and the default world `Vunira`, and the data and output paths (render-html.mjs:56-61, 87). They are I/O. The template text, the world name and the report are parameters of `Template.Document`.
- The `html-minifier-terser` call and its options (render-html.mjs:65-86). It is a foreign library. `Template.Document` is the document before minifying.
- `async`/`await`: the script runs its steps in sequence, with no concurrency.
- `JSON.parse`: the report arrives already parsed, as a `Render.Report`.
- NumberFormat.FormatChance: a chance is a whole number of hundredths of a percent, so `toFixed(2)` is exact. The model does not cover rounding of other floating-point values, exponent notation at or above 1e21, `NaN` or `Infinity`.
- Render.KilledConfidence: a `NaN` chance, which JavaScript also treats as falsy, is not representable.
- Slug.CasedNameAt: `\p{Lowercase}` and `toUpperCase` are modelled on ASCII only. Non-ASCII lower-case letters, and upper-casings that change length (such as `ß`), are not covered.
- Slug.ImageSlugShape: `toLowerCase` on the wiki slug is modelled on ASCII. The encoded slug holds only ASCII, so nothing is lost.
- JsString.ReplaceAll: the pattern must be non-empty. Every pattern the script uses is a non-empty constant, so `replaceAll` with an empty pattern (insertion between characters) is not modelled.
- Uri.Encode: `encodeURIComponent` throws `URIError` on a lone surrogate. A Dafny `char` is a Unicode scalar value, so that case cannot arise.
- Html.Escape: lodash `escape` is modelled as its five-character map. Its coercion of non-string arguments is not modelled; the name and the timestamp are strings.
- Render.Page: the `includeKilledOutput`/`includeCheckOutput` flags become the test "this section has rows". `Render.Render` keeps the flags, and its invariants prove them equivalent to that test.
- Render.PageStartsKilled: where each section sits is stated as whole-page equalities (`Render.AllKilled`, `Render.AllPending`, `Render.PageOfNoBosses`) and as prefixes and boundaries (`Render.KilledBeforeCheck`). That a section heading never occurs inside a row is not stated as a lemma. It holds because the escaped name, the slugs and the chance text hold no `<` (`Render.AnchorIsSafe`, `NumberFormat.FormatChanceShape`), and no `<` of the row markup starts `<h2>`.
- Template.Document: substitution uses the intended verbatim insertion (`Template.Compose`). The `$`-expanding behaviour of the script as written is `Template.ComposeAsWritten`; see Findings.

## Findings

| source | as written | input that shows it | evidently intended | confidence | as-written member | corrected member |
|---|---|---|---|---|---|---|
| render-html.mjs:63-64 | the world name and the rendered page are passed to `replaceAll`/`replace` as replacement strings, so ECMAScript expands `$$`, `` $& ``, `` $` `` and `$'` inside them | a page of `$$` (e.g. a boss named `$$`) put into `%%%DATA%%%` comes out as `$`; a world named `$&` leaves `%%%WORLD%%%` in the page | both texts inserted verbatim (a replacer function, or `$` escaped as `$$`) | not executed; the expansion follows the ECMAScript GetSubstitution rules | Template.ComposeAsWritten (Template.DollarPatternsExpanded, Template.MatchPatternExpanded) | Template.Compose (Template.AsWrittenWithoutDollar, Template.WorldEverywhere, Template.FirstDataTokenOnly) |
