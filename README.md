# Spicetify Marketplace extension, modelled in Dafny

This project models the string and state logic of `extension.js`, the
companion extension of the Spicetify Marketplace. The extension runs inside
the Spotify client and re-applies what the user installed from the
marketplace: snippets, extensions, a theme with its colour schemes, and an
optional loop that cycles the schemes every minute. In the background it also
searches GitHub for themes and extensions and caches their manifests in
session storage.

The modules follow the file's structure:

- `Wrappers`: `Option`, `Result`.
- `Strings`: the JavaScript string operations the file relies on:
  - `indexOf`;
  - `String.prototype.replace` with a string pattern, which replaces the first occurrence only and does `$` substitution;
  - how a non-negative integer is written in decimal.
- `HexColour`: `hexToRGB`. It covers the 3-digit doubling, the two thrown errors, `/.{1,2}/g`, and `parseInt(s, 16)`, including whitespace, sign, `0x` and NaN.
- `GithubRaw`: `getParamsFromGithubRaw`. It covers the raw-GitHub pattern searched anywhere in the text, the jsDelivr URL built from it, and the two script-src rewrites (extensions and theme includes).
- `Manifests`: the stored manifest records. A JSON object is a sequence of key/value pairs in key order.
- `CssText`: the text the extension writes into style tags:
  - the snippets `reduce`;
  - the `:root { ... }` scheme string, built by a loop that stops at the first `hexToRGB` error;
  - the `url(...)` rewrite loop of `parseCSS`.
- `ColourShift`: the counter of the colour-shift loop. JavaScript's `%` by zero gives NaN, and NaN is modelled as `None`.
- `Dom`: the document is a head and a body, each a sequence of tagged elements. It models:
  - `querySelector(...).remove()`, which removes the first match in document order;
  - `appendChild`;
  - the `Document` class, whose methods are the inject and initialize operations. Each method is proved equal to a function of the old document, and the lemmas about those functions give the single-instance properties.
- `SessionStorage`: `addToSessionStorage` as a class holding a map from keys to lists. A loop pushes one item at a time.
- `Search`: the blacklist filter of `storeThemes` and `storeExtensions`.

Where the code does less than its own comments and JSDoc suggest, the model
follows the code:

- A 3-character colour is not checked for hex digits. Its non-hex digits give `NaN` channels; they do not raise an error.
- The comment "Remove any existing marketplace snippets" (extension.js:103) suggests that every earlier tag goes. The single-instance properties hold only in the form "one tag if there was at most one before": `querySelector` finds only the first match, so older duplicates survive.
- A theme's included raw-GitHub script that does not match the pattern is loaded from a jsDelivr path of four `"null"`s.

## Model

| member | source | states |
|---|---|---|
| HexColour.HexToRGBVerdicts | extension.js:11-17 | hexToRGB throws the length error exactly when the length is neither 3 nor 6. It throws the non-hex error exactly when a 6-character input has a character outside [0-9a-fA-F]. A success holds three channels. The third error is given by HexColour.NoPiecesIff |
| HexColour.SixCharacterVerdict | extension.js:13-17 | a 6-character colour is accepted exactly when all its characters are hex digits |
| HexColour.SixDigitChannels | extension.js:19-25 | a valid 6-digit colour gives the base-16 values of character pairs 0-1, 2-3 and 4-5, in that order |
| HexColour.SixDigitPieces | extension.js:19-24 | the three `/.{1,2}/g` pieces of a 6-digit colour parse to those three pair values |
| HexColour.ChannelsOfPairs | extension.js:21-23 | three pieces of two hex digits each parse to their pair values |
| HexColour.ChannelsAreBytes | extension.js:19-25 | every channel of an accepted all-hex colour is a number in 0..255 |
| HexColour.ThreeCharacterChannels | extension.js:11-12 | a 3-character colour without line terminators is never rejected. Channel k is the value of character k doubled when that character is a hex digit, and NaN otherwise |
| HexColour.ThreeCharacterKept | extension.js:11-24 | for every 3-character colour, line terminators included: it is rejected exactly when `.` matches none of its characters; otherwise channel k is the k-th matched character doubled (its value, or NaN for a non-hex character), and NaN when fewer than k + 1 characters are matched |
| HexColour.DoubledPiecesOfKept | extension.js:12-19 | the pieces of a doubled string are the characters `.` matches, each written twice, in order |
| HexColour.ThreeDigitChannels | extension.js:11-12 | a 3-hex-digit colour gives the values of each digit doubled |
| HexColour.ThreeDigitIsDoubled | extension.js:11-12 | a 3-hex-digit colour gives the same result as its doubled 6-character form |
| HexColour.DoubleThree | extension.js:12 | the doubling of `abc` is `aabbcc` |
| HexColour.PiecesOfDoubled | extension.js:12-19 | the `/.{1,2}/g` pieces of a doubled string are the doubled characters, one piece each (line terminators are skipped) |
| HexColour.PiecesOfSix | extension.js:19 | the pieces of a 6-character string without line terminators are its three character pairs |
| HexColour.NoPiecesIff | extension.js:19-21 | the third error: `/.{1,2}/g` finds nothing and indexing the null match throws, exactly when the input is three line terminators |
| HexColour.ParseHexPair | extension.js:21-23 | `parseInt` of two hex digits in base 16 is their pair value |
| HexColour.ParseNonHexPair | extension.js:21-23 | `parseInt` of a doubled non-hex digit is NaN |
| HexColour.ParseNonNumeric | extension.js:21-23 | `parseInt` of text that starts with a character that is not whitespace, a sign or a hex digit is NaN |
| HexColour.ParseUndefined | extension.js:21-23 | `parseInt("undefined", 16)`, the parse of a missing piece, is NaN |
| HexColour.ChannelOfPair | extension.js:21-23 | the channel read from a two-hex-digit piece is its pair value |
| HexColour.HexDigitIsPlain | extension.js:21-23 | a hex digit is neither whitespace, a line terminator, a sign nor `x`, so `parseInt` reads it as a digit |
| HexColour.HexDigitChar | extension.js:15 | every value below 16 has a hex digit that reads back as it |
| HexColour.ByteToHex | extension.js:13-17 | every byte has a two-digit hex spelling that reads back as it |
| HexColour.RoundTrip | extension.js:10-26 | hexToRGB of the six hex digits of three bytes gives those three bytes |
| Strings.IndexOf | extension.js:88 | `indexOf` finds the first occurrence of the pattern, or reports that there is none |
| Strings.IndexOfFrom | extension.js:88 | the first occurrence at or after a position, or none after it |
| Strings.ReplaceFirst | extension.js:221 | replacement with a string pattern changes nothing when the pattern is absent; when the replacement has no `$`, the first occurrence is replaced by it literally |
| Strings.ReplaceFirstKeepsContext | extension.js:221 | whatever the replacement, `$` patterns included, only the first occurrence is rewritten: the text before it and the text after it are kept |
| Strings.ReplaceFirstTwice | extension.js:221 | two replacements with a `$`-free text that ends with the pattern keep the text after the first occurrence, and lengthen it by twice the difference |
| Strings.Substitute | extension.js:221 | a replacement without `$` is inserted literally |
| Strings.NatToDecimal | extension.js:140 | a non-negative integer is written as decimal digits, with no leading zero except for 0 itself |
| Strings.DecimalRoundTrip | extension.js:140 | the decimal text of a number reads back as that number |
| Strings.IntToDecimalValue | extension.js:140 | an integer's text reads back as it, with a minus sign before the digits when it is negative |
| Strings.DigitChar | extension.js:140 | each digit value has its decimal character |
| GithubRaw.TakeSegment | extension.js:35 | a `[^/]+` group ends at the first `/`: what it takes is a segment followed by `/` and the rest |
| GithubRaw.TakeSegmentUnique | extension.js:35 | a segment followed by `/` is split off exactly |
| GithubRaw.ParseAtSound | extension.js:35 | what the matcher reads at a position is a match there |
| GithubRaw.ParseAtComplete | extension.js:35 | every match at a position is what the matcher reads there, so the groups are unique |
| GithubRaw.FirstMatch | extension.js:35 | the search returns the first start position where the pattern matches, or none when no position at or after the start matches |
| GithubRaw.GetParamsFromGithubRaw | extension.js:33-46 | the four fields are all strings or all null. On a match, user, repo and branch are non-empty and slash-free, filePath is non-empty with no line terminator, and the raw URL they spell is a suffix of the input |
| GithubRaw.NoMatchMeansNulls | extension.js:38-43 | the fields are null exactly when the pattern matches at no position |
| GithubRaw.ParamsFromLeftmostMatch | extension.js:35 | the fields come from a match at some position, with no match at any earlier position |
| GithubRaw.ParamsRoundTrip | extension.js:33-46 | the fields read from the raw URL of well-formed fields are those fields |
| GithubRaw.RawUrlMentionsHost | extension.js:88 | every raw URL contains `raw.githubusercontent.com` |
| GithubRaw.ExtensionSrcCases | extension.js:85-92 | a URL without the raw host is used unchanged. One with it yields a script only when the pattern matches, and then its src is the jsDelivr URL of the four fields |
| GithubRaw.ExtensionSrcOfRawUrl | extension.js:88-91 | an extension at a raw URL is loaded from `https://cdn.jsdelivr.net/gh/{user}/{repo}@{branch}/{filePath}` |
| GithubRaw.IncludeSrcAgrees | extension.js:271-276 | a theme's included script gets the same src an extension with that URL would |
| GithubRaw.IncludeSrcUnmatched | extension.js:273-276 | an included raw-host script that does not match the pattern gets the jsDelivr URL of four "null"s |
| Manifests.Lookup | extension.js:242 | `schemes[activeScheme]` is the value of an entry with that key, and is undefined exactly when no entry has the key |
| CssText.SnippetsTextAppend | extension.js:108-112 | the snippet text of a concatenation is the concatenation of the snippet texts |
| CssText.SnippetBlockInPlace | extension.js:108-112 | snippet k's `/* title - description */` block and code appear in the text right after the blocks of the snippets before it |
| CssText.SnippetsStyleTextThrows | extension.js:108-112 | the `reduce` throws, and no style text is built, exactly when some snippet record is missing |
| CssText.SnippetRecordInPlace | extension.js:108-114 | with every record present, record k's `/* title - description */` block and code start right after the style text of records 0..k-1 |
| CssText.EntryTexts | extension.js:138-141 | one entry text per scheme key |
| CssText.EntryTextAt | extension.js:138-141 | entry k is the declaration pair of key k and its value |
| CssText.EntryTextsAppend | extension.js:138-141 | the entries of a concatenation are the concatenated entries |
| CssText.JoinPrefixFailure | extension.js:138-141 | once a prefix of the entries fails, the whole join fails with that error |
| CssText.JoinSucceedsIff | extension.js:138-141 | the join succeeds exactly when every entry does |
| CssText.JoinFirstFailure | extension.js:138-141 | the join fails with the error of the first failing entry |
| CssText.JoinAppend | extension.js:138-141 | successful joins concatenate |
| CssText.BuildSchemeText | extension.js:135-142 | the `+=` loop builds exactly the scheme text, or stops with the first hexToRGB error |
| CssText.SchemeStep | extension.js:138-141 | one turn of the loop either raises that key's error as the result of the whole string, or extends the text with `--spice-K: #V;--spice-rgb-K: r,g,b;` |
| CssText.SchemeSucceedsIff | extension.js:135-143 | the scheme string is built exactly when hexToRGB accepts every value |
| CssText.SchemeFirstError | extension.js:138-141 | a failed scheme reports the error of its first bad value |
| CssText.SchemeTextAppend | extension.js:135-142 | the scheme string is `:root {`, the declarations of every key in key order, then `}` |
| CssText.SingleEntryScheme | extension.js:135-142 | a one-key scheme succeeds when its value is accepted, and is `:root {` + that entry + `}` |
| CssText.ChannelsTextOfTwo | extension.js:140 | two channels are written as two decimal numbers joined by a comma |
| CssText.ChannelsTextOfNumbers | extension.js:140 | three channels are written as `r,g,b` in decimal, as an array in a template literal is |
| CssText.EntryOfSixDigitColour | extension.js:139-140 | a 6-digit value gives `--spice-K: #V;` and `--spice-rgb-K:` with its three pair values |
| CssText.CloseFrom | extension.js:213 | the lazy `.+?` ends at a quote followed by `)` with no line terminator before it |
| CssText.UrlMatchAt | extension.js:213 | a match at a position is `url(`, a quote, a non-empty path with no line terminator, a quote and `)` |
| CssText.CloseFromLeast | extension.js:213 | the lazy `.+?` takes the least end: no earlier position is a quote followed by `)`. None means no single-line path from the start is followed by a quote and `)` |
| CssText.UrlMatchIsLeast | extension.js:213 | a match ends at the first quote followed by `)` after the path's first character |
| CssText.UrlMatchFound | extension.js:213 | every `url(`, quote, non-empty single-line path, quote, `)` at a position is found there, ending at its closing quote or earlier |
| CssText.UrlPathsStep | extension.js:213-215 | after a match the search resumes right after its `)`, and the path found is the text between the quotes |
| CssText.UrlPathsAreQuoted | extension.js:213-216 | every path the loop visits is a non-empty, single-line text quoted in a `url(...)` of the fetched text |
| CssText.UrlPathsInOrder | extension.js:213-216 | the visited paths come from successive `url(...)` calls of the fetched text: path k is quoted in a call starting at the k-th match start, and each call ends before the next one starts |
| CssText.CloseFromSkips | extension.js:213 | the lazy match skips characters that are not quotes and stops at the first quote followed by `)` |
| CssText.SingleUrl | extension.js:213-216 | a stylesheet that is one quoted `url(p)`, with no quote character in the non-empty single-line p, yields the single path p |
| CssText.StripDotSlash | extension.js:220 | dropping `./` never lengthens the text and removes whole two-character pieces |
| CssText.StripShortensDotSlash | extension.js:220 | a path containing `./` loses at least one `./` |
| CssText.StripUnchangedIff | extension.js:220 | the path is left as it is exactly when it contains no `./` |
| CssText.StripWithoutDotSlash | extension.js:220 | text without `./` is unchanged |
| CssText.StripLeadingDotSlashes | extension.js:220 | any number of leading `./` is dropped |
| CssText.RewriteCss | extension.js:213-223 | the loop's result is the fetched text with each visited path rewritten in turn |
| CssText.AbsoluteUrlsUntouched | extension.js:219 | paths starting with `http` or `data` leave the stylesheet unchanged |
| CssText.RelativeUrlRewritten | extension.js:219-221 | a relative path's first occurrence in the text becomes the assets URL followed by the path without `./` |
| CssText.RepeatedPathRewritesFirstAgain | extension.js:213-223 | when a relative path with no `./` is found twice, both turns of the loop rewrite its first occurrence: the text gains the assets URL twice, and everything after the first occurrence, the second occurrence included, stays as fetched |
| CssText.AssetsUrl | extension.js:207 | the assets URL is the stylesheet URL with its first `/user.css` replaced by `/assets/`, or the URL itself |
| CssText.ParseCss | extension.js:200-228 | parseCSS returns the fetched text with its url paths rewritten against the assets directory of the stylesheet URL. The URL is the jsDelivr one for raw-GitHub themes |
| ColourShift.RemainderOf | extension.js:183 | `i % N` is a number below N when i is a number and N is positive, and NaN otherwise |
| ColourShift.CounterValue | extension.js:179-195 | with N schemes the counter after t ticks is `(t-1) % N + 1` (0 before the first tick). With none it is NaN from the first tick on |
| ColourShift.IndexCycles | extension.js:183-195 | tick t uses scheme `t % N`, cycling through the schemes in order. With no scheme every tick uses an undefined one |
| ColourShift.ShiftLoop.constructor | extension.js:179-180 | the loop starts with counter 0 and the scheme count |
| ColourShift.ShiftLoop.Tick | extension.js:183-195 | each tick hands out index `ticks % N`, or NaN without schemes, and keeps the counter in step |
| Dom.FirstIndex | extension.js:104 | the element `querySelector` finds matches, and no earlier one does |
| Dom.RemoveFirstUnmatched | extension.js:104-105 | with no match nothing is removed |
| Dom.RemoveFirstDeletes | extension.js:104-105 | `.remove()` deletes exactly the first matching element and keeps the order of the rest |
| Dom.RemoveFirstCount | extension.js:104-105 | removal lowers the number of matches by one when there was one |
| Dom.RemoveFirstOtherTag | extension.js:123-128 | removing one kind of element keeps the count of elements with another tag |
| Dom.CountAppend | extension.js:116 | appending counts the new element once when it matches |
| Dom.RemoveFirstAppend | extension.js:193-196 | removal commutes with an append that does not match or comes after a match |
| Dom.RemoveFirstInDocCount | extension.js:104-105 | a document-wide removal lowers the count by one when there is a match, and otherwise leaves the document unchanged |
| Dom.RemoveFirstInDocOtherTag | extension.js:123-128 | a document-wide removal keeps the count of another tag |
| Dom.ReplaceCount | extension.js:104-116 | remove-then-append leaves one tag if there was none, keeps the count otherwise, and the new tag is last in the head |
| Dom.IncludedScriptsAt | extension.js:269-281 | one marketplace script per included entry, in order, each loading the rewritten src of its entry |
| Dom.SchemeAtTickOfEntries | extension.js:194 | tick t injects the scheme of entry `t % N` in key order, and undefined when there are no schemes |
| Dom.SnippetsSingleInstance | extension.js:102-117 | with every record present, the head ends with the snippet style and the count of snippet styles is one when it was at most one. A missing record removes the old style and adds none |
| Dom.SchemeSingleInstance | extension.js:120-148 | an accepted scheme leaves its tag last in the head and the scheme tag count one when it was at most one. One colors.css link is removed |
| Dom.SchemeFailureAppendsNothing | extension.js:120-148 | an undefined scheme or a hexToRGB error leaves both removals done and nothing appended |
| Dom.UserCssSingleInstance | extension.js:154-173 | injectUserCSS leaves its stylesheet last in the head and a single tag if there was at most one. Calling it again keeps that count |
| Dom.ExtensionOfRawUrl | extension.js:76-95 | an extension at a raw URL appends one body script loading the jsDelivr URL of its fields |
| Dom.ExtensionOfUnmatchedUrl | extension.js:88-90 | a raw-host URL the pattern does not match appends nothing |
| Dom.ExtensionOfOtherUrl | extension.js:83-94 | any other non-empty URL is loaded unchanged |
| Dom.ExtensionsAppendScripts | extension.js:294-295 | initializing the installed extensions keeps the head and the old body, and adds at most one script per extension |
| Dom.ScriptsDomAt | extension.js:269-281 | the included scripts are appended to the body after its old elements, one per include, in order, each with its rewritten src; the head is unchanged |
| Dom.ThemeInjectsCssAndScripts | extension.js:230-283 | after initializeTheme, for every theme (with or without includes), the head ends with the theme's rewritten user.css, and the body ends with the included scripts in order |
| Dom.ThemeSchemeEndsWithTag | extension.js:241-243 | when the active scheme is found and hexToRGB accepts its values, the scheme step leaves the head ending with that scheme's tag |
| Dom.ThemeKeepsSchemeTag | extension.js:241-263 | a scheme tag ending the head after the scheme step outlives the theme link removal and injectUserCSS: after initializeTheme the head ends with the scheme tag followed by the user.css tag |
| Dom.ThemeWithoutManifest | extension.js:231-236 | without a manifest the document is unchanged |
| Dom.ShiftStyleLeavesNoTrace | extension.js:184-196 | the transition style added before a scheme swap and removed after it leaves exactly the effect of the swap |
| Dom.Document.RemoveFirstMatch | extension.js:104-105 | the live document loses its first match, head before body |
| Dom.Document.AppendToHead | extension.js:116 | `document.head.appendChild` |
| Dom.Document.AppendToBody | extension.js:94 | `document.body.appendChild` |
| Dom.Document.InitializeSnippets | extension.js:102-117 | it reports the thrown error exactly when a record is missing, and leaves the document described by the snippet operation |
| Dom.Document.InjectColourScheme | extension.js:120-148 | the removals, the loop-built scheme string and the caught error give the document of the scheme operation |
| Dom.Document.InjectUserCss | extension.js:154-173 | the document after injectUserCSS |
| Dom.Document.InitializeExtension | extension.js:76-95 | the document after one extension, including the early returns |
| Dom.Document.InitializeExtensions | extension.js:294-295 | the document after every installed extension in order |
| Dom.Document.InitializeTheme | extension.js:230-283 | the document after initializeTheme. A colour-shift loop is started exactly when the theme has schemes and the setting is on, with counter 0 and the scheme count |
| Dom.Document.IncludeScripts | extension.js:266-282 | the body gains the included scripts in order |
| Dom.Document.ColourShiftTick | extension.js:181-197 | tick t injects value `t % N` of the theme's schemes in key order (undefined when there are none), the transition style leaves no trace, and the counter advances |
| Search.WithoutBlacklisted | extension.js:307 | the kept hits are hits of the response not on the blacklist, every hit not on it is kept, and none is added |
| Search.FilteredResponse | extension.js:305-308 | the filter throws exactly when the response has no `items`. Otherwise only the items change, and a hit is kept exactly when it was in the response and its `html_url` is not on the blacklist (the same code is at 319-322) |
| Search.FilterAppend | extension.js:307 | filtering keeps order: it distributes over concatenation |
| Search.FilterTwice | extension.js:307 | filtering by two blacklists in turn is filtering by both at once |
| Search.FilterIdempotent | extension.js:307 | filtering twice with the same blacklist is filtering once |
| Search.FilterSameMembers | extension.js:307 | only the members of the blacklist matter |
| Search.FilterNothingListed | extension.js:307 | when no hit is on the blacklist nothing is dropped |
| SessionStorage.AddedAppends | extension.js:411-417 | the list's bucket holds its old list (or `[]`) followed by the items in order; every other key is unchanged and no key is lost |
| SessionStorage.AddedKeepsPrefix | extension.js:412-416 | nothing is overwritten: every bucket's old list is a prefix of its new one |
| SessionStorage.AddedTwice | extension.js:411-417 | two lists for the same repository accumulate as one list of both, in order |
| SessionStorage.BucketKeysCollide | extension.js:413 | repositories `a-b/c` and `a/b-c` share a bucket key |
| SessionStorage.SessionStore.AddToSessionStorage | extension.js:409-420 | the item-by-item read, push and write loop leaves the store of a single append. A null list, and an empty one, change nothing |

## Left out

- Network access is not modelled. This covers the `fetch` in parseCSS (extension.js:210), `Blacklist`, `storeThemes`, `storeExtensions` (extension.js:298-329), `getRepoManifest`, `fetchThemes` and `fetchExtensions` (extension.js:364-407). The fetched stylesheet text, the blacklist and the search response are parameters. The `(.+)/(.+)/contents` split of `fetchThemes` and `fetchExtensions` is left out because its user/repo boundary is ambiguous.
- Timers, promises and the two top-level async functions are not modelled. This covers:
  - the `setTimeout` retry (extension.js:52);
  - `setInterval` (extension.js:181): each run of its callback is one call of `Dom.Document.ColourShiftTick`;
  - `sleep` and `appendInformationToLocalStorage` (extension.js:339-362, 422-424);
  - `initializeTheme` runs to completion as one step, so its `await` does not interleave with the snippet and extension start-up.
- Spicetify's `LocalStorage`, `localStorage.getItem` and `JSON.parse` are not modelled (extension.js:68-74, 245, 287-292). Their results are given as parsed records: `None` stands for a missing key. The colour-shift setting is a boolean.
- `JSON.stringify` followed by `JSON.parse` in session storage is taken to give the list back unchanged.
- `console` output is not modelled. Neither is `script.defer` (extension.js:84).
- The browser resolves `script.src` against the page URL (extension.js:85-88). The model tests the host on the URL string as written.
- Manifest fields of other types than the model's are not modelled: a non-string snippet title, a `schemes` value that is not an object, an `include` that is not an array. Truthiness is modelled only for strings.
- The key order of a JSON object is taken to be the order of its entries. JavaScript lists integer-like keys first; that is not modelled. Property lookups do not see `Object.prototype` keys.
- A character is a Unicode scalar value, where JavaScript counts UTF-16 code units. Strings with characters outside the Basic Multilingual Plane, or with lone surrogates, are not modelled with their JavaScript lengths and indices. For example, `"😀a".length` is 3, so hexToRGB reads it as a 3-character colour, where the model sees 2 characters and throws the length error.
- `parseInt` precision beyond 2^53 is not modelled; hexToRGB only ever parses pieces of at most two characters.
- `Spicetify.showNotification` on a rate-limited search (extension.js:303, 317) is a user-visible side effect; it is not modelled. The TypeError that follows it is.
- `sessionStorage.setItem` can throw part-way through the `forEach` of addToSessionStorage, for example when the storage quota is exhausted (extension.js:416). The earlier items then stay appended and the rest are lost. The model's store never fails.
- Manifests.Lookup, CssText.EntryTexts: a parsed JSON object holds each key once, but the model's entry sequences are not required to. With a repeated key, `Object.keys` would list it once where EntryTexts emits it twice, and `JSON.parse` keeps the last value where Lookup returns the first.
- A failed blacklist fetch makes `jsonReturned.repos` throw (extension.js:327-328). That is not modelled; the blacklist is always a list.
- CssText.UrlPathsAreQuoted, CssText.UrlPathsInOrder: state that every path visited is a quoted `url(...)` path of the text, in order of position; they do not state that every such path is visited.
- CssText.RelativeUrlRewritten: states the rewrite only when the new URL has no `$`. With a `$` the substitution rules of `Strings.Substitute` apply.
- Dom.SnippetsSingleInstance, Dom.SchemeSingleInstance, Dom.UserCssSingleInstance: "exactly one tag" is stated only for a document that held at most one. `querySelector` removes only the first of several.
- Dom.ExtensionsAppendScripts: bounds the number of scripts added per extension; what each one is comes from `Dom.ExtensionOfRawUrl` and `Dom.ExtensionOfOtherUrl`.
