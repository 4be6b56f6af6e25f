# j-map03 build script, modelled in Dafny

`build.py` produces a one-page interactive map of Japan's prefectures in three steps. It reads the map SVG and removes a leading XML declaration. It then moves the Okinawa prefecture group to the bottom right by rewriting one literal `transform` attribute. Finally it writes `html_head + "\n" + svg + "\n" + html_tail` to `index.html`. The tail template embeds a click handler. The handler looks up the clicked prefecture's code in a table of five records and falls back to default texts, with names taken from the region's `<title>`, for every other code.

The model is a set of pure functions over `string` (`seq<char>`):

- `wrappers.dfy` (`Wrappers`): `Option` and `Result`.
- `text.dfy` (`Text`): the string primitives the script relies on:
  - prefix tests, substring occurrence and first-occurrence search;
  - Python's `str.strip()` and JavaScript's `trim()`, each with its own whitespace set;
  - JavaScript's `split('/')` and its inverse `Join`.
- `replace.dfy` (`Replace`): Python's `str.replace`, including the empty-pattern case. Also general conditions under which a replacement creates no new match, and under which it can be undone.
- `generator.dfy` (`Generator`): the build itself:
  - `StripDeclaration` removes the XML declaration; it fails when the text starts with `<?xml` but has no `?>`;
  - `MoveOkinawa` is the guarded replacement, with its console notice;
  - `Assemble` builds the page and `Build` is the whole pipeline;
  - `Run` takes the file read's result and the write's success as inputs and gives the page or an error, with the exit status as output.
- `guide.dfy` (`Guide`): the embedded click lookup:
  - the record table (`GuideData`) and the default texts;
  - title parsing (`TitleNames`) and the lookup with fallback (`Lookup`).

The HTML head and tail are a `Template` parameter rather than literals. Every property about the page holds for any head and tail.

Three facts about `build.py` shape the model:

- A text that starts with `<?xml` but has no `?>` is fatal. `split('?>', 1)[1]` raises inside the read's `try`, so the script prints the error and exits with status 1, as it does when the file cannot be read. This case is `UnterminatedDeclaration`.
- Only a text that begins with `<?xml` exactly is touched. A declaration after leading whitespace stays in the page.
- Each record in the guide table has six fields: `name`, `en`, `spot`, `food`, `hidden` and `desc`. `hidden` is `""` in the default texts.

## Model

| member | source | states |
|---|---|---|
| Text.StartsWith | build.py:8 | Python's `startswith`: the text's first characters are exactly the prefix |
| Text.Contains | build.py:15 | Python's `pat in s`: the pattern occurs at some index where it fits |
| Text.IndexOf | build.py:9 | finds `?>` as `split('?>', 1)` does: the result exists exactly when the pattern occurs, and it is the leftmost occurrence |
| Text.Trim | build.py:9 | stripped text has no whitespace at either end and is the input minus a whitespace-only prefix and suffix |
| Text.TrimCharacterization | build.py:9 | any whitespace padding around a core with no whitespace at either end trims to that core, so the trim result is unique |
| Text.TrimKeepsTightMatch | build.py:9 | for a pattern that does not start or end with whitespace, every occurrence survives stripping, shifted left by the leading whitespace removed, and every occurrence in the stripped text comes from one in the input |
| Text.PrefixBefore | build.py:331-332 | the text before the first `/`: a prefix of the title with no `/`, followed by `/` unless it is the whole title |
| Text.Split | build.py:331 | `split('/')` yields at least one part, no part contains `/`, and joining the parts with `/` gives back the title |
| Text.SplitJoin | build.py:331 | splitting a `/`-join of `/`-free parts returns exactly those parts |
| Text.SplitLeadingParts | build.py:331-333 | `parts[0]` is the text before the first `/`; `parts[1]` exists exactly when the title has a `/` and is the text between the first and second `/` |
| Replace.ReplaceAll | build.py:24 | `str.replace` leaves text unchanged when the pattern does not occur |
| Replace.ReplacementPresent | build.py:23-24 | if the pattern occurred, the result contains the replacement |
| Replace.NoTargetLeft | build.py:24 | for a pattern and replacement that cannot overlap into a new match, no occurrence of the pattern is left after replacing |
| Replace.ReplaceRoundTrip | build.py:24 | replacing the replacement back restores the original, if the original lacked the replacement and no proper suffix of the replacement starts it |
| Generator.StripDeclaration | build.py:8-9 | text not starting with `<?xml` (leading whitespace included) passes unchanged; with `<?xml` and no `?>` it is an error; otherwise the result is the stripped text after the first `?>` |
| Generator.StripKeepsLaterText | build.py:9 | a later `?>`, or any pattern without whitespace at its ends that follows the first `?>`, survives stripping |
| Generator.OkinawaTransformsSeparate | build.py:20-21 | the old and new transform literals cannot overlap into a new occurrence of the old one, and no proper suffix of the new one starts it |
| Generator.MoveOkinawa | build.py:13-29 | without the group marker, or without the exact old transform, the SVG is unchanged and a warning is issued; with both, the result holds the new transform and no old one |
| Generator.MoveOkinawaReversible | build.py:20-24 | the move changes only the transform: replacing the new transform back restores the map exactly, if the map lacked the new transform |
| Generator.MoveOkinawaIdempotent | build.py:13-29 | applying the move to its own output changes nothing further |
| Generator.Assemble | build.py:391 | the page starts with head and newline, ends with newline and tail, and holds the SVG exactly in between |
| Generator.Build | build.py:8-33 | the build fails exactly for `<?xml` without `?>`, with that error; otherwise the page starts with the head, ends with the tail, and holds in between the declaration-stripped map after the Okinawa move |
| Generator.BuildKeepsUntouchedMap | build.py:391 | a map with no declaration and without the marker or the old transform is embedded byte for byte |
| Generator.BuildMovesOkinawa | build.py:13-24 | a map with no declaration, with the marker and the old transform, yields a page whose map part holds the new transform and none of the old |
| Generator.BuildMovesOkinawaAfterDeclaration | build.py:8-24 | a map that opens with `<?xml … ?>` and has the marker and the old transform after the first `?>` yields a page whose map part holds the new transform and none of the old |
| Generator.Run | build.py:4-399 | exit status 0 exactly when the read succeeds, the build succeeds and the write succeeds; each failure gives its own error, and a written page is exactly the page the build produced from the text read |
| Guide.TitleNames | build.py:327-334 | no title gives `都道府県` and `""`; otherwise the name is the trimmed text before the first `/`, and the English name is the trimmed second segment if that segment is nonempty, else `""` |
| Guide.TitleNamesOfSegments | build.py:331-333 | a title `a/b...` gives the trimmed `a` and the trimmed `b`, whatever follows a second `/` |
| Guide.TitleNamesWithoutSlash | build.py:331-333 | a title without `/` gives its trimmed text as name and `""` as English name |
| Guide.Lookup | build.py:326-339 | a code in the table gives the stored record; any other code, or none, gives the default spot, food, hidden and description, with the names read from the title |
| Guide.StoredRecordsDiffer | build.py:255-303 | every record in the table has its own spot, food, hidden spot and description, none equal to the default text |
| Guide.LookupShowsOwnTexts | build.py:326-339 | the panel shows a spot and description other than the defaults exactly when the clicked code has an entry |
| Guide.GuideCodes | build.py:255-296 | the table has entries for exactly the codes 1, 13, 26, 27 and 47 |
| Guide.LookupIgnoresTitle | build.py:326 | for a code in the table the shown record does not depend on the title |
| Guide.LookupFallsBackToTitle | build.py:336-339 | for a code outside the table and a title `a/b`, the shown record is the default texts named by the trimmed `a` and `b` |

## Left out

- Reading `map-full.svg` and writing `index.html` (build.py:5-6, build.py:394-395) are inputs to `Run`: the text read, or none when reading or UTF-8 decoding fails, and whether the write succeeds. Python's newline translation on read is part of producing that input. The contents of a half-written file after a failed write are not modelled.
- Console messages and `exit(1)` are not printed or performed. The Okinawa step's message is the `Notice` value, and the exit status is `Outcome.ExitStatus`.
- The literal HTML, CSS and script text of `html_head` and `html_tail` (build.py:36-241, build.py:243-389) are not modelled. The page's head and tail are a `Template` parameter, and only the guide table and default texts are written out.
- Browser behaviour in the click handler is not modelled: event listeners, `preventDefault`, `stopPropagation`, the `active` class toggling, `updatePanel`'s `innerHTML` rendering and `encodeURIComponent` links (build.py:306-385). These are runtime effects of the page, not build logic.
- JavaScript's `parseInt(codeStr, 10)` (build.py:322) is not modelled; the code arrives already parsed as `Option<int>`, with `None` for `NaN`.
- `TitleNames` takes the title element's text content as a string, and how the browser computes `textContent` is not modelled.
- Whitespace sets: `PythonWhitespace` and `JsWhitespace` list the characters Python's `str.isspace()` and ECMAScript's WhiteSpace/LineTerminator accept under current Unicode. They are fixed sets, and no Unicode database is consulted.
- Whether the page holds the head's doctype and the tail's closing tag exactly once depends on the literal templates and on the map text, and neither is modelled. `Assemble` states instead that the page starts with the head and ends with the tail.
