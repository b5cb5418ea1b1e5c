# Zadi: a verified model of the dataset API, the card text rules and the page's state

Zadi serves Islamic remembrances (adhkar) and Quran verses. Two
interchangeable backends do this: a Go server (`main.go`) and a Node server
(`server.js`). A browser page (`static/app.js`) shows them, draws shareable
cards, and offers a tasbih counter, the 99 names, a Quran player and prayer
times. This Dafny project models the rule-bearing core of the three files and
proves what each rule promises:

- `common.dfy` (`Common`): `Option`, decimal digit strings, JavaScript's
  `padStart`, and `split`/`join` on one separator, with their round trips.
- `dataset.dfy` (`Dataset`): categories and items, the candidate pool for a
  random pick (optionally filtered by category id, each entry tagged with its
  category's label), the per-category summaries, and the first-match lookup by
  id. Both servers are proved against these definitions.
- `wrapping.dfy` (`Wrapping`): the greedy line-breaking loop that both card
  renderers share, for an arbitrary text-width function.
- `main_go.dfy` (`GoServer`): `pickRandom` and the three JSON handlers, which
  answer 200 with `success:false` on errors; `reverseRunes` (an in-place
  two-index swap); `strings.Fields`; `wrapTextRTL`; the card download
  filename; and the `wwwRedirect` decision.
- `server_js.dfy` (`NodeServer`): the same three endpoints, which answer
  404/400 on errors; the request dispatch; and static file serving with
  Node's `path.extname` and the MIME table.
- `app_text.dfy` (`AppText`): `wrapText` (words from `split(' ')`),
  `formatTime`, `parseTime`, `formatPrayerTime`, the next-prayer choice, and
  the everyayah.com audio URL.
- `app_state.dfy` (`AppState`): the page's mutable state as classes. These are
  the tasbih counter, the carousel over the 99 names, and the Quran player's
  position with repeat.

The random draws (`rand.Intn`, `Math.random`) are inputs: an index `k` into the
pool, with `k < |pool|` required whenever the pool is not empty, and a real
`r` in [0, 1) for the random name. The text-width measurement
(`dc.MeasureString`, `ctx.measureText`) is an arbitrary function
`string -> real`. No monotonicity or additivity is assumed of it. The current
time of day for the next prayer is a parameter. The dataset is a parameter of
every handler.

## Model

| member | source | states |
|---|---|---|
| Common.NatToString | static/app.js:767-768 | `String(n)` for a whole number: a non-empty digit string that denotes `n`, with no leading zero unless it is "0" itself |
| Common.NatToStringShort | static/app.js:767-768 | `String(n)` is one digit below 10, at most two below 100 and at most three below 1000 |
| Common.PadStart | static/app.js:768 | `padStart(width, fill)`: the length is the larger of the old length and `width`, the original string is the suffix, and only `fill` characters are added, in front |
| Common.ZeroPadValue | static/app.js:591-593 | zero padding keeps a digit string a digit string that denotes the same number, so padding never changes or truncates the value |
| Common.Split | static/app.js:449 | `split(sep)` always yields at least one piece, and no piece contains the separator |
| Common.JoinSplit | static/app.js:449 | joining the pieces of `split(sep)` with `sep` gives back the original string |
| Common.SplitJoin | static/app.js:879 | splitting pieces that contain no separator after joining them gives back exactly those pieces |
| Dataset.FindCategory | server.js:81 | `find` by id: when found, the index of a category with that id and of no earlier one; when not found, no category has that id |
| Dataset.Pool | main.go:94-103 | the candidate pool: every item of every category selected by the id ("" selects all), in dataset order, paired with its category label; its size and members are stated by the next two rows |
| Dataset.PoolSize | main.go:94-103 | the pool has exactly as many entries as the selected categories (all of them for "", else those whose id matches) have items |
| Dataset.PoolMembers | main.go:96-103 | an entry is in the pool if and only if it is an item of a selected category paired with that category's label |
| Dataset.UnfilteredPoolSize | main.go:151-159 | without a filter the pool size equals the sum of the `count` fields that the categories endpoint reports |
| Dataset.UnknownIdEmptyPool | main.go:105-107 | filtering on an id that no category has gives an empty pool, the same outcome as an empty category |
| Dataset.PoolOfKnownId | main.go:179-186 | with distinct ids, filtering on a known id pools exactly that category's items, in order, under its label, which is what the category endpoint returns |
| Wrapping.WrapFrom | main.go:356-366 | one step of the loop: the next word extends the current line while the trial line fits or the line is empty, else the line is emitted and the word starts a new one; the last line is emitted when the words run out |
| Wrapping.Wrap | main.go:352-367 | the loop from no lines and an empty current line; the rows below state what its result keeps |
| Wrapping.NoEmptyLine | main.go:352-367 | the greedy loop never emits an empty line |
| Wrapping.WideLinesAreWords | main.go:357-363 | a line wider than the limit is one of the input words on its own: the loop breaks only when the trial line is too wide and the current line is not empty |
| Wrapping.WrapKeepsText | main.go:352-367 | when no word is empty, the lines joined with spaces equal the words joined with spaces: nothing is lost, reordered or duplicated |
| Wrapping.FittingWordsFittingLines | main.go:357-363 | if every word fits on its own, every emitted line fits |
| GoServer.PickRandom | main.go:89-111 | `ok` holds if and only if the pool is non-empty; then the item and label are pool entry `k`, else the zero item and "" |
| GoServer.RandomDhikrHandler | main.go:117-145 | always status 200; OPTIONS gets an empty preflight reply; an empty pool gets `success:false` with the no-results text; otherwise the fields of pool entry `k` |
| GoServer.CategoriesHandler | main.go:147-164 | status 200 and one brief per category in dataset order, copying id, label and icon, with `count` the number of items; the counts add up to the unfiltered pool size |
| GoServer.CategoryItemsHandler | main.go:166-194 | status 200 always; an empty id gives the missing-id error; an unknown id gives the unknown-category error; otherwise the label and unchanged items of the first category with that id |
| GoServer.Reverse | main.go:331-337 | the runes of the string in reverse order; `ReverseAt` and `ReverseTwice` state its meaning |
| GoServer.ReverseAt | main.go:331-337 | rune reversal keeps the length and puts rune `len-1-k` at position `k` |
| GoServer.ReverseTwice | main.go:331-337 | reversing twice gives back the original string |
| GoServer.ReverseRunes | main.go:331-337 | the in-place two-index swap loop returns the reversal of its input: same length, rune `k` is input rune `len-1-k` |
| GoServer.IsSpace | main.go:348 | Go's `unicode.IsSpace`: the Latin-1 white space characters and the other Unicode White_Space characters, which `strings.Fields` splits on |
| GoServer.WordLength | main.go:348 | the length of the leading run of non-space characters: all of them are non-space, and the next character is a space |
| GoServer.Fields | main.go:348 | `strings.Fields`: every field is a non-empty run with no white space; with `FieldsAfterSpace`, `FieldsOfWord` and `FieldsAfterWord`, which cover every way a text can start, the fields are exactly its maximal such runs |
| GoServer.FieldsKeepText | main.go:348 | the fields put together are the text with its white space removed |
| GoServer.WordLengthOfWord | main.go:348 | a run of non-space runes followed by a space or the end of the text is measured whole |
| GoServer.FieldsOfWord | main.go:348 | a single word is one field |
| GoServer.FieldsAfterWord | main.go:348 | a word followed by a white space character is one whole field, never cut, followed by the fields of the rest: fields are maximal runs |
| GoServer.FieldsAfterSpace | main.go:348 | a white space character before the text starts no field, however many there are |
| GoServer.FieldsOfJoin | main.go:348 | splitting words joined with single spaces gives back exactly those words, so `wrapTextRTL` keeps every word whole |
| GoServer.WrapTextRTL | main.go:347-369 | the lines are the greedy wrap of `Fields(text)`; none is empty; joined with spaces they equal the fields joined with spaces; a line wider than the limit is a single field |
| GoServer.FilenameStem | main.go:527-532 | the first min(20, rune count) runes of the text, with each space replaced by `_` |
| GoServer.StemIsFinal | main.go:527-532 | the stem has at most 20 runes and no space, and computing the stem of a stem changes nothing |
| GoServer.CardFilename | main.go:535 | the download name is `zadi_`, then the stem, then `.png` |
| GoServer.WwwRedirect | main.go:577-592 | redirects (301) if and only if the host is non-empty and starts with none of `www.`, `localhost`, `127.`; the target is `https://www.` + host + path, followed by `?` + query only when the query is non-empty; otherwise it delegates |
| GoServer.RedirectTargetIsServed | main.go:580-590 | the host a redirect points to is served directly, so a redirect is never followed by another one |
| NodeServer.Param | server.js:37 | `searchParams.get(name) || ''`: a missing parameter reads as "" |
| NodeServer.HandleRandomDhikr | server.js:35-61 | a missing or empty `category` pools every item; an empty pool gives 404 with the no-results text; otherwise 200 with entry `k`'s label, type, text, source, and `full_ayah` defaulting to "" |
| NodeServer.HandleCategories | server.js:63-71 | status 200 with one summary per category in order, `count` the number of items; the counts add up to the unfiltered pool size |
| NodeServer.HandleCategoryItems | server.js:73-87 | 400 with the missing-id error if and only if the id is missing or empty; 404 with the unknown-category error if and only if no category has it; otherwise 200 with the first match's label and items |
| NodeServer.ItemsAgreeWithPool | server.js:81-86 | with distinct ids, an id the category endpoint rejects with 404 has an empty random-pick pool, and an id it accepts pools exactly the items it returns |
| NodeServer.Dispatch | server.js:107-125 | OPTIONS is answered before routing, with status 204 and an empty body; otherwise exact equality with one of the three API paths selects that handler, and every other path is served as a static file |
| NodeServer.StripTrailingSlashes | server.js:93 | a prefix of the path that does not end in `/` (or is empty), and every character removed is a `/` |
| NodeServer.Basename | server.js:93 | a suffix of the path with no `/` in it |
| NodeServer.LastDot | server.js:93 | the position of the last `.` of the name, after which no `.` follows; none when there is no `.` |
| NodeServer.Extname | server.js:93 | `path.extname`: empty, or a `.` followed by characters that are neither `.` nor `/` |
| NodeServer.BasenameOfName | server.js:93 | the base name of `dir/name` is `name` |
| NodeServer.LastDotOfName | server.js:93 | in a name followed by an extension, the last dot is the extension's dot |
| NodeServer.ExtnameOfName | server.js:93 | `dir/name.ext` has the extension `.ext` for every slash-free, non-empty name other than `.`, dotted ones such as `a.b` and `.x` included |
| NodeServer.ExtnameOfFile | server.js:93 | for a last segment other than `..`, the extension runs from its last dot, and is empty when that dot is the segment's first character |
| NodeServer.ExtnameNoDot | server.js:93 | a last segment with no `.` has an empty extension |
| NodeServer.ExtnameDotFile | server.js:93 | a last segment whose only `.` is its first character (`.env`, `.`) has an empty extension |
| NodeServer.ExtnameDotDot | server.js:93 | the segment `..` has an empty extension |
| NodeServer.ExtnameIgnoresTrailingSlash | server.js:93 | a trailing `/` does not change the extension |
| NodeServer.ContentType | server.js:94 | the MIME table's entry for a known extension, `application/octet-stream` for any other |
| NodeServer.KnownExtensionType | server.js:12-21 | a file named with one of the eight table extensions is served with that table entry's type |
| NodeServer.StaticPath | server.js:90 | the request URL `/` stands for `/index.html`; any other URL is itself |
| NodeServer.ServeStatic | server.js:89-105 | a file reply, with status 200 and the content type of the requested path's extension, if and only if the read succeeds; otherwise the 404 page |
| NodeServer.RootIsHtml | server.js:90-94 | `/` is served as `index.html`, with the HTML content type |
| Wrapping.WrapProperties | static/app.js:451-458 | from an empty start: no line is empty, a too-wide line is one of the words, and without empty words joining the lines with spaces gives the words joined with spaces |
| AppText.WrapText | static/app.js:448-460 | the lines are the greedy wrap of `text.split(' ')`; none is empty; a line wider than the limit contains no space; when the text has no empty piece (no doubled, leading or trailing space), the lines joined with spaces are the text itself |
| AppText.JsNumber | static/app.js:921 | `Number(s)` is a number exactly for a string of digits, and then it is the decimal value of those digits; "" is 0 |
| AppText.TimeOf | static/app.js:921-922 | hours * 60 + minutes from the first two `:`-separated fields, NaN when either is not a number or the minutes are missing |
| AppText.ParseTime | static/app.js:920-923 | `parseTime`: `TimeOf` of the `:`-split string; the next row gives its value on digit strings |
| AppText.ParseDigits | static/app.js:920-923 | `parseTime("H:M")` for digit strings is H * 60 + M |
| AppText.Clock | static/app.js:766-767 | `floor(s / 60)` and `floor(s % 60)`: the seconds are below 60 and minutes * 60 + seconds is the whole number of seconds |
| AppText.PaddedSeconds | static/app.js:768 | a seconds value below 60 pads to exactly two digits that denote it |
| AppText.DisplayParses | static/app.js:768 | minutes, `:` and two-digit seconds read back through `parseTime` as minutes * 60 + seconds |
| AppText.ClockDivMod | static/app.js:766-767 | the clock's minutes and seconds are the whole seconds divided by 60 and their remainder |
| AppText.DisplayShape | static/app.js:768 | the display is the minutes' shortest spelling, then `:`, then exactly two digits denoting the seconds |
| AppText.FormatTime | static/app.js:764-769 | `formatTime`: "0:00" for 0, else whole minutes, `:` and zero-padded seconds; the next row proves it reads back as the whole seconds |
| AppText.FormatTimeIsDisplay | static/app.js:764-769 | every time, 0 included, prints as the display of its whole seconds divided by 60 and their remainder |
| AppText.FormatTimeReadsBack | static/app.js:764-769 | the display of a time (with "0:00" for 0) reads back as its whole number of seconds; it is the whole minutes with no leading zero, `:`, and the remaining seconds as exactly two digits |
| AppText.FormatPrayerTime | static/app.js:878-881 | the result has exactly two `:`-separated fields: the first field of the input, then its second field or "undefined" |
| AppText.FormatPrayerTimeIdempotent | static/app.js:878-881 | formatting an already formatted time changes nothing |
| AppText.FormatKeepsParse | static/app.js:878-881 | parsing the formatted time gives the same minutes (or NaN) as parsing the original |
| AppText.NextPrayer | static/app.js:896-910 | `IsNext`: the chosen prayer is strictly after now with the smallest time among those after now, and the earliest listed one on a tie; "Fajr" when no prayer is after now |
| AppText.SoonestAfterUnique | static/app.js:896-910 | at most one prayer is the soonest later one, so the choice is determined |
| AppText.PrayerList | static/app.js:887-894 | the six prayers in the order of the timings, each with its parsed time |
| AppText.HighlightNextPrayer | static/app.js:883-916 | the highlighted prayer is one of the six: the soonest one later than now (the earliest listed on a tie), and Fajr once every time of the day has passed |
| AppText.Pad3 | static/app.js:591-592 | `padStart(3, '0')` of a number: at least three digits that denote it, and exactly three below 1000 |
| AppText.AudioUrl | static/app.js:617-620 | the everyayah.com URL of a verse; the next two rows state its shape and that it identifies the verse |
| AppText.AudioUrlShape | static/app.js:617-620 | the URL is the everyayah.com data path, the reciter, `/`, the surah and verse numbers as three digits each, and `.mp3` |
| AppText.AudioUrlIdentifiesVerse | static/app.js:591-593 | for one reciter, different verses never get the same audio URL |
| AppState.NoticeFor | static/app.js:958-963 | the notice a press gives for the new count: completion at the target, else a vibration on a multiple of 33, else none |
| AppState.NoticesAt | static/app.js:954-964 | the i-th press of a fresh counter reports the notice for the count i + 1 |
| AppState.CompletedExactlyAtTarget | static/app.js:958-960 | counting up from zero, the completion message is given at exactly one press, the one that reaches the target, and never for a target the count does not reach |
| AppState.AlertsEveryRound | static/app.js:958-963 | with a target that is a multiple of 33, the phone vibrates exactly at every 33rd press |
| AppState.Tasbih.constructor | static/app.js:943-945 | the counter starts at 0 with target 33 and no dhikr chosen |
| AppState.Tasbih.Increment | static/app.js:954-964 | the count goes up by exactly one; the notice is completion when the new count equals the target, else a vibration when it is a multiple of 33, else nothing |
| AppState.Tasbih.SetTarget | static/app.js:971-978 | changes the target and nothing else |
| AppState.Tasbih.Reset | static/app.js:980-983 | sets the count to 0 and keeps target and dhikr |
| AppState.Tasbih.SetDhikr | static/app.js:985-996 | sets the dhikr and resets the count to 0, keeping the target |
| AppState.NextName | static/app.js:1139 | one name on, wrapping from the last back to the first |
| AppState.PrevName | static/app.js:1144 | one name back, wrapping from the first to the last |
| AppState.PrevUndoesNext | static/app.js:1138-1146 | "previous" undoes "next" and "next" undoes "previous", and both stay in the list |
| AppState.ForwardMoves | static/app.js:1138-1141 | k presses of "next" move k places round the list, modulo 99 |
| AppState.NoEarlyReturn | static/app.js:1138-1141 | fewer than 99 presses of "next" never return to the starting name |
| AppState.FullRound | static/app.js:1138-1141 | 99 presses of "next" return to the starting name |
| AppState.NextReaches | static/app.js:1138-1141 | every name is reached from every other by (j - i) mod 99 presses of "next" |
| AppState.NamesCarousel.constructor | static/app.js:1108 | the carousel starts on the first name |
| AppState.NamesCarousel.Next | static/app.js:1138-1141 | the index moves to (i + 1) mod 99 and stays in the list |
| AppState.NamesCarousel.Prev | static/app.js:1143-1146 | the index moves to (i - 1 + 99) mod 99 and stays in the list |
| AppState.NamesCarousel.Show | static/app.js:1121-1136 | a position of the list becomes the current one; any other position changes nothing |
| AppState.NamesCarousel.Random | static/app.js:1148-1151 | `floor(r * 99)` for `r` in [0, 1), always a position of the list |
| AppState.NextAyah | static/app.js:688-696 | one verse on, unless already on the last |
| AppState.PrevAyah | static/app.js:698-706 | one verse back, unless already on the first |
| AppState.AfterEnded | static/app.js:720-727 | the verse after the current one ends: the next one; after the last, the first with repeat on, else the same |
| AppState.MovesStayInSurah | static/app.js:688-706 | next, previous and the end of a verse all keep the position on a verse of the surah; next and previous undo each other away from the ends |
| AppState.PlaysThrough | static/app.js:720-727 | without repeat, playing from the first verse visits the verses in order and stays on the last one |
| AppState.RepeatCycles | static/app.js:720-727 | with repeat on, after some whole passes and r more verses the player is on verse r |
| AppState.RepeatPosition | static/app.js:720-727 | with repeat on, after k verses the player is on verse k mod the verse count |
| AppState.QuranPlayer.constructor | static/app.js:511-514 | no verses, position 0, repeat off |
| AppState.QuranPlayer.LoadSurah | static/app.js:547-579 | the verses are replaced; the position goes back to the first verse, and is valid, and the navigator is rebuilt for the new verses, only when the translation fetch that follows does not fail; after a failure the old position and the old navigator stay, and the position is valid exactly when it is a verse of the new surah |
| AppState.QuranPlayer.Select | static/app.js:654-663 | a click on any item of the navigator, which may still list an earlier surah, makes that index the current one; it is valid exactly when it is a verse of the current surah |
| AppState.QuranPlayer.Next | static/app.js:688-696 | moves on one verse only when not on the last (and not at all from a stale position past the end), and keeps a valid position valid |
| AppState.QuranPlayer.Prev | static/app.js:698-706 | moves back one verse only when not on the first, also from a stale position past the end, and keeps a valid position valid |
| AppState.QuranPlayer.ToggleRepeat | static/app.js:708-712 | flips repeat and changes nothing else |
| AppState.QuranPlayer.Ended | static/app.js:720-727 | when a verse ends, the player moves to the next verse; after the last one (or from past the end) it goes back to the first with repeat on, and stays with repeat off; a valid position stays valid |

## Left out

- Drawing: the canvas and `gg` card rendering, the ornaments, colours (`hexToColor`), fonts and PNG encoding. These are floating-point pixel output through foreign libraries.
- HTTP and file plumbing: listening, CORS headers, JSON encoding, `loadData`/`readFileSync`, and the file read in `serveStatic` (its outcome is the `readOk` parameter).
- JSON encoding details: Go's `omitempty` drops an empty `category` or `full_ayah`; Go encodes an empty category list as `null`; Node omits `full_ayah` from an item that lacks it.
- `NodeServer.Dispatch` takes the request's pathname as given. `new URL(req.url, ...)` throws when the Host header is not a valid host, and the server callback does not catch it, so such a request is never routed; that error path is not modelled.
- `ServeStatic` and `Extname` apply `path.extname` to the request path itself. The `path.join` normalisation (`..`, `.` and doubled slashes) is not modelled, and neither is the query string that `req.url` may carry.
- `GoServer.WrapTextRTL`, `GoServer.ReverseRunes` and `GoServer.FilenameStem` work on runes, modelled as `char`s. The replacement of invalid UTF-8 by U+FFFD in `[]rune(s)` is not modelled.
- Go's `ServeMux` routing is not modelled. `wwwRedirect` wraps only the static file handler; the API paths bypass it.
- The card download name's `Date.now()` part on the page is not modelled. The Go filename is modelled.
- `AppText.JsNumber` treats every string other than "" and plain digits as NaN. JavaScript's `Number` also accepts surrounding white space, a sign, a decimal point, an exponent and hexadecimal; those inputs are not modelled.
- `AppText.FormatTime` requires a non-negative, finite time. NaN (which is falsy and prints "0:00") and Infinity (a stream's duration) are not modelled. Audio times are never negative.
- `AppText.NextPrayer` requires non-empty prayer names. `!nextPrayer` would also treat an empty name as "none found", but the names are the six fixed keys.
- `AppText.HighlightNextPrayer` takes the current minutes as a parameter instead of reading the clock. Updating the prayer cards' CSS classes is not modelled.
- Play/pause state (`isPlaying`, `togglePlay`, the `setTimeout` restarts) is not modelled. It is driven by the media element's events. Only the verse position and repeat flag are modelled.
- The contents of the 99 names and the hadith collection are not modelled; the navigation uses only the number of names. The hadith picker is not modelled either.
- Qibla direction, the compass, seeking and the progress bar are not modelled: they are floating-point trigonometry and percentages.
- Fetching surahs, translations and prayer times from third-party APIs, geolocation, clipboard, sharing, toasts and the DOM updates are not modelled. The vibration and the completion toast are the `Notice` result of `AppState.Tasbih.Increment`.
