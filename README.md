# Daily inspiration: the quote and image handlers

The application serves one quote and one picture per day from two HTTP handlers:

- **`GET /api/quote`** reads a spreadsheet exported as CSV text.
  - It splits the text into lines and parses each line with a small quote-aware field splitter.
  - It keeps the rows that have a non-empty date key and a non-empty quote, and builds two things from them: a map from date key to quote, and a list of all quotes in row order.
  - It then picks the quote keyed by today's day of the month. Failing that, it picks the one keyed by the day of the year. Failing that, it picks a quote from the list at an index derived from a 32-bit rolling hash of today's `YYYY-MM-DD` string.
- **`GET /api/image`** reads a repository's file listing.
  - It keeps the entries whose lowercased extension is `jpg`, `jpeg`, `png`, `gif` or `webp`.
  - It picks one with the same daily hash.

This project models both handlers from the point where the remote text or listing has arrived. It proves what they compute. The modules are:

- `Outcomes`: `Option`, and `Response` (a 200 body or a 404 error message).
- `Text`: JavaScript's `split` with one separator and its inverse `Join`, `trim` (the ECMAScript white-space and line-terminator set), ASCII `toLowerCase`, and the decimal `toString` of a natural number.
- `DailyHash`: 32-bit truncation, the shift-and-subtract step, the loop that hashes a string, and the index `Math.abs(hash) % n`.
- `Csv`: the field splitter `parseCSVLine`. It is a `while` loop proved equal to a reference definition: the line is tokenised into separators and characters, the tokens are cut at separators, and each field is trimmed. It comes with an RFC 4180-style encoder. The splitter reads the encoder's output back as the original fields when two conditions hold. First, no field may have white space at either end, because the splitter trims every field and such white space would be lost. Second, every field that holds a comma or a quote must be written in quotes; the encoder is told per field whether to quote it and does not check this itself.
- `QuoteRoute`: the table builder (a loop), the selection chain, and the two 404 exits. It also has a spreadsheet export. The builder reads exported rows back unchanged when every key and quote is non-empty, has no white space at either end and no line break, and the quote does not itself start and end with `"`. The builder strips one pair of surrounding quotes even when they are part of the quote's own text. For example, the quote `"hi"` is exported as `1,"""hi"""`; the splitter returns `"hi"` for the second field, and the builder stores `hi`.
- `ImageRoute`: the extension filter, the empty-listing 404, and the selection.

The date string, the day of the month and the day of the year are inputs to the model. So are the fetched CSV text and the fetched file listing.

The second 404, "No quote available for today", is checked after the hash step and fires when the selected quote is falsy (`undefined` or the empty string). `QuoteRoute.SelectQuote` states when it is returned for an arbitrary table. `QuoteRoute.HandleQuoteRequest` proves it is never returned for a table the builder produced, because every stored quote is non-empty and every mapped quote is also listed.

## Model

| member | source | states |
|---|---|---|
| DailyHash.ShiftLeft5 | src/app/api/quote/route.ts:151 | `hash << 5`: the operand is truncated to 32 bits and shifted; the result is a signed 32-bit value congruent to `32 * x` modulo 2^32 |
| DailyHash.Step | src/app/api/quote/route.ts:150-152 | one loop iteration: `((h << 5) - h) + c` computed exactly, then `h & h`; the result is a signed 32-bit value (`StepIsTimes31` gives its value) |
| DailyHash.ToInt32 | src/app/api/quote/route.ts:152 | `hash & hash` yields a signed 32-bit value congruent to its input modulo 2^32, and leaves 32-bit values unchanged |
| DailyHash.ToInt32Congruent | src/app/api/quote/route.ts:151-152 | values congruent modulo 2^32 truncate to the same 32-bit value |
| DailyHash.ToInt32Periodic | src/app/api/quote/route.ts:151-152 | adding any multiple of 2^32 before truncating changes nothing |
| DailyHash.StepIsTimes31 | src/app/api/quote/route.ts:150-152 | one step `((h << 5) - h) + c` truncated to 32 bits equals `31*h + c` truncated to 32 bits, even though `<<` itself truncates |
| DailyHash.HashOf | src/app/api/quote/route.ts:148-153 | the hash of a string is always a signed 32-bit value |
| DailyHash.HashIsTruncatedPoly | src/app/api/quote/route.ts:148-153 | the hash equals the exact polynomial `sum c_i * 31^(n-1-i)` reduced to signed 32 bits |
| DailyHash.ComputeHash | src/app/api/image/route.ts:43-48 | the character loop computes exactly `HashOf(date)`, a 32-bit value |
| DailyHash.Abs | src/app/api/image/route.ts:51 | `Math.abs` is the value or its negation, never negative; it is not truncated, so the most negative hash stays positive |
| DailyHash.DailyIndex | src/app/api/image/route.ts:51 | `Math.abs(hash) % n` is a valid index into a non-empty list |
| Text.Split | src/app/api/quote/route.ts:63 | `split('\n')` returns one more part than there are separators, no part contains the separator, and joining the parts restores the text |
| Text.SplitJoin | src/app/api/quote/route.ts:63 | splitting the join of separator-free parts gives back exactly those parts |
| Text.IsSpace | src/app/api/quote/route.ts:87 | the characters `trim()` removes: ECMAScript WhiteSpace (tab, vertical tab, form feed, space, U+00A0, U+FEFF and the Unicode `Zs` characters U+1680, U+2000-U+200A, U+202F, U+205F, U+3000) and LineTerminator (LF, CR, U+2028, U+2029) |
| Text.Trim | src/app/api/quote/route.ts:87 | `trim()` returns a string with no leading or trailing white space; it is the identity on such strings, and it is empty exactly when the input is all white space |
| Text.TrimKeepsMiddle | src/app/api/quote/route.ts:87 | `trim()` removes the leading and trailing white space and nothing else: the result is a contiguous middle part of the input, starting where `trimStart()` stops, with only white space before and after it |
| Text.TrimStart | src/app/api/quote/route.ts:87 | removes exactly the leading white space, leaving a suffix of the input |
| Text.TrimEnd | src/app/api/quote/route.ts:87 | removes exactly the trailing white space, leaving a prefix of the input |
| Text.TrimmedJoin | src/app/api/quote/route.ts:106 | joining trimmed parts with a separator that is not white space gives a trimmed line, so the builder's `lines[i].trim()` leaves an encoded row unchanged |
| Text.ToLowerAscii | src/app/api/image/route.ts:30 | `toLowerCase()` keeps the length and lowers each character |
| Text.LowerKeepsDots | src/app/api/image/route.ts:30 | lowering neither creates nor removes dots, so the extension is cut at the same place |
| Text.DecimalString | src/app/api/quote/route.ts:135 | `toString()` of a day number is a non-empty string of digits with no leading zero |
| Text.DecimalRoundTrip | src/app/api/quote/route.ts:135 | reading the decimal string back gives the number |
| Text.DecimalStringInjective | src/app/api/quote/route.ts:135-142 | different day numbers give different map keys |
| Csv.Lex | src/app/api/quote/route.ts:72-94 | the loop's four branches as tokens: inside quotes `""` is one literal quote and skips two characters; any other `"` toggles quoted mode and is dropped, also when `line[i + 1]` is past the end; an unquoted comma is a separator; every other character is copied |
| Csv.Fields | src/app/api/quote/route.ts:66-99 | the reference splitter yields one more field than there are unquoted commas |
| Csv.FieldsTrimmed | src/app/api/quote/route.ts:87-97 | every field comes out trimmed |
| Csv.ParseCsvLine | src/app/api/quote/route.ts:66-99 | the `while` loop over the line returns exactly `Fields(line)` |
| Csv.ScanChar | src/app/api/quote/route.ts:78-79 | appending a character, or an escaped `""`, to the current field keeps the loop's account of the result |
| Csv.ScanSep | src/app/api/quote/route.ts:85-89 | an unquoted comma pushes the trimmed current field and starts a new one |
| Csv.ScanEnd | src/app/api/quote/route.ts:97-98 | at the end of the line the trimmed current field is pushed last |
| Csv.PlainLine | src/app/api/quote/route.ts:66-99 | on a line without quote characters, the fields are the comma-separated pieces, trimmed, and there is one more field than there are commas |
| Csv.PlainRawFields | src/app/api/quote/route.ts:85-93 | without quote characters, the untrimmed fields are exactly `split(',')` |
| Csv.SeparatorsAreCommas | src/app/api/quote/route.ts:85 | a line never yields more separators than it has commas, from either starting mode, so quoted commas can only reduce the number of fields |
| Csv.FieldCountBound | src/app/api/quote/route.ts:66-99 | a line yields at least one field, and at most one more than it has commas |
| Csv.ParseEncodedRow | src/app/api/quote/route.ts:66-99 | round trip: a non-empty list of trimmed fields, each written plain or quoted with doubled inner quotes, where every field that holds a comma or a quote is written quoted, is read back exactly |
| Csv.LexEncodedRow | src/app/api/quote/route.ts:75-93 | an encoded row tokenises to the fields' characters with one separator between fields |
| Csv.LexEscaped | src/app/api/quote/route.ts:76-79 | inside quotes, a doubled quote is read as one literal quote character |
| Csv.LexPlain | src/app/api/quote/route.ts:90-92 | characters other than quote and comma are copied unchanged |
| Csv.EscapeNoQuotes | src/app/api/quote/route.ts:76-79 | a field without quote characters needs no escaping |
| Csv.QuotedCommaStays | src/app/api/quote/route.ts:75-89 | a comma inside a quoted middle field does not split it: `a,"b",c` has exactly the three fields `a`, `b`, `c`, when all three are trimmed, `a` and `c` hold no comma or quote, and `b` holds no quote (commas allowed) |
| Csv.DoubledQuoteIsLiteral | src/app/api/quote/route.ts:76-79 | a quoted field with doubled quotes reads back as the original text |
| QuoteRoute.WrappedInQuotes | src/app/api/quote/route.ts:115 | `startsWith('"') && endsWith('"')`: at least one character, the first and the last being `"`, so a lone `"` qualifies |
| QuoteRoute.StripQuotes | src/app/api/quote/route.ts:115-117 | a quote wrapped in `"` loses exactly one pair; a lone `"` becomes empty; anything else is unchanged |
| QuoteRoute.AcceptLine | src/app/api/quote/route.ts:106-122 | an accepted line is non-blank, has at least two fields, and gives a trimmed, non-empty key and a non-empty quote |
| QuoteRoute.AcceptedRows | src/app/api/quote/route.ts:105-124 | at most one row per line |
| QuoteRoute.AcceptedRowsKept | src/app/api/quote/route.ts:107-122 | every accepted row has a non-empty key and a non-empty quote |
| QuoteRoute.ReadLine | src/app/api/quote/route.ts:106-122 | the loop body for one line (trim, skip blank, parse, check two non-empty columns, strip one pair of quotes, check non-empty) accepts exactly the row `AcceptLine` describes |
| QuoteRoute.QuotesOf | src/app/api/quote/route.ts:121 | `allQuotes` lists every accepted quote in row order |
| QuoteRoute.KeyMap | src/app/api/quote/route.ts:120 | `quoteMap.set(dateKey, quote)` applied to the accepted rows in order, a later row overwriting an earlier one with the same key; `KeyMapDomain`, `KeyMapLastWins`, `KeyMapValuesListed` and `KeyMapSize` state its meaning |
| QuoteRoute.KeyMapDomain | src/app/api/quote/route.ts:120 | a key is in `quoteMap` exactly when some accepted row carries it |
| QuoteRoute.KeyMapLastWins | src/app/api/quote/route.ts:120 | for a repeated key, the map holds the quote of the last row with that key |
| QuoteRoute.KeyMapValuesListed | src/app/api/quote/route.ts:120-121 | every mapped quote is in `allQuotes` |
| QuoteRoute.KeyMapSize | src/app/api/quote/route.ts:120-121 | `quoteMap.size <= allQuotes.length` |
| QuoteRoute.TableEmptyTogether | src/app/api/quote/route.ts:126 | the map is empty exactly when the list is, and that happens exactly when no row was accepted |
| QuoteRoute.BuildTable | src/app/api/quote/route.ts:63-124 | the loop over the lines produces exactly the map and the list of the accepted rows, so with the lemmas above: a key maps to the last quote with that key, every mapped quote is listed, and the list keeps row order |
| QuoteRoute.BuiltTableValid | src/app/api/quote/route.ts:119-121 | the built table has only non-empty quotes, and every mapped quote is listed |
| QuoteRoute.Lookup | src/app/api/quote/route.ts:136 | `quoteMap.get` returns a value exactly when the key is present, and that value is the mapped one |
| QuoteRoute.Truthy | src/app/api/quote/route.ts:139-160 | `!selectedQuote` is false exactly for a present, non-empty string: `undefined` and `""` are falsy |
| QuoteRoute.SelectQuote | src/app/api/quote/route.ts:134-170 | priority: a truthy day-of-month entry, then a truthy day-of-year entry, then `allQuotes[abs(hash) % n]`. A falsy result gives "No quote available for today". On a built table, the result is an existing entry or a listed quote, and the 404 happens only when the table is empty. The response carries the date, the day of the month, the total count and whether the day-of-month key is present |
| QuoteRoute.HandleQuoteRequest | src/app/api/quote/route.ts:102-170 | "No quotes found" exactly when no row is accepted. Otherwise the answer is the day-of-month entry if present, else the day-of-year entry if present, else the hash pick from all quotes. The quote is always one of the sheet's quotes, and `totalQuotes` is the number of accepted rows |
| QuoteRoute.AcceptEncodedRow | src/app/api/quote/route.ts:106-122 | a line that holds a key, a quote and further columns is accepted as that key and quote; the further columns are ignored |
| QuoteRoute.AcceptExportLine | src/app/api/quote/route.ts:106-122 | an `Exportable` row is accepted back as itself. `Exportable` means a non-empty, trimmed, single-line key and quote, with the quote not wrapped in `"` (the builder would strip such a pair) |
| QuoteRoute.AcceptExportedLines | src/app/api/quote/route.ts:105-124 | the exported lines of `Exportable` rows are accepted back as the same rows, in order |
| QuoteRoute.SheetRoundTrip | src/app/api/quote/route.ts:63-124 | round trip: for a sheet of `Exportable` rows, including the empty sheet, the rows read back from the export are exactly the exported rows |
| ImageRoute.IsImageExtension | src/app/api/image/route.ts:31 | `includes` on exactly the five lowercase extensions `jpg`, `jpeg`, `png`, `gif`, `webp`; the fallback to the empty string never applies, because `pop()` on the result of `split` always returns a string |
| ImageRoute.IsImageName | src/app/api/image/route.ts:29-31 | the filter's callback: the lowercased last dot-separated segment of the name is one of the five extensions |
| ImageRoute.Extension | src/app/api/image/route.ts:30 | the extension contains no dot |
| ImageRoute.ExtensionIsLastSegment | src/app/api/image/route.ts:30 | the extension is the lowercased text after the last dot, or the whole lowercased name when there is no dot |
| ImageRoute.ExtensionAt | src/app/api/image/route.ts:30 | when the last dot of a name is at position `p`, the extension is the lowercased text after `p` |
| ImageRoute.LowerAfter | src/app/api/image/route.ts:30 | lowering keeps a dot where it is and lowers the text after it on its own |
| ImageRoute.ExtensionAfterDot | src/app/api/image/route.ts:30 | for `base.ext` with a dot-free `ext`, the extension is `ext` lowercased, whatever `base` holds |
| ImageRoute.CaseInsensitive | src/app/api/image/route.ts:30-31 | a name and its lowercased form are judged alike |
| ImageRoute.UpperCaseExtension | src/app/api/image/route.ts:30-31 | `*.JPG` is accepted |
| ImageRoute.PlainImage | src/app/api/image/route.ts:30-31 | `*.png` is accepted |
| ImageRoute.OtherExtension | src/app/api/image/route.ts:30-31 | `*.txt` is rejected |
| ImageRoute.TrailingDot | src/app/api/image/route.ts:30-31 | a name ending in a dot has the empty extension and is rejected |
| ImageRoute.LastExtensionDecides | src/app/api/image/route.ts:30-31 | `*.png.md` is rejected: only the last extension counts |
| ImageRoute.BareExtension | src/app/api/image/route.ts:30-31 | a file named just `png` is accepted, because `pop()` returns the whole name |
| ImageRoute.FilterImages | src/app/api/image/route.ts:29-32 | the filter keeps exactly the image entries, each as often as in the listing, in listing order, and unchanged |
| ImageRoute.NoImagesIff | src/app/api/image/route.ts:29-36 | the filtered list is empty exactly when no entry is an image |
| ImageRoute.FilteredFromListing | src/app/api/image/route.ts:29-32 | every kept entry comes from the listing |
| ImageRoute.FilterExample | src/app/api/image/route.ts:29-32 | from a listing of `*.png` and `*.txt`, only the `*.png` entry is kept |
| ImageRoute.FilterConcat | src/app/api/image/route.ts:29-32 | filtering two listings one after the other gives the two filtered lists one after the other: the filter looks at each entry on its own and keeps the listing order |
| ImageRoute.FilterThreeExample | src/app/api/image/route.ts:29-32 | from `*.png`, `*.txt` and `*.JPG` entries the filter keeps two, the `*.png` and the `*.JPG` entry, in listing order |
| ImageRoute.HandleImageRequest | src/app/api/image/route.ts:29-59 | "No images found" exactly when no entry is an image. Otherwise the answer is the entry at `abs(hash) % n` among the images, with its name, download URL, size and the date; the chosen entry is an image from the listing |

## Left out

- Fetching: the Google Sheets requests, the three URL fallbacks, and the repository-contents request with its headers and token are not modelled. The fetched text and listing are inputs.
- Failures: the 500 answers for a failed fetch or a thrown error are not modelled, and neither are the console logging and the environment variables.
- Clock: `new Date()`, `toISOString().split('T')[0]`, `getDate()` and the day-of-year arithmetic are not modelled. The date string and both day numbers are inputs, so the model is deterministic for given inputs.
- HTTP: `NextResponse.json` and the status codes are not modelled. `Response` carries the JSON body of a 200 or the message of a 404.
- The page component `src/app/page.tsx` is not part of this model.
- Text.ToLowerAscii: lowers only the ASCII letters A-Z, whereas JavaScript's `toLowerCase` follows the full Unicode case mapping. Only two non-ASCII characters lower to ASCII letters: U+0130 (capital I with dot above) becomes `i` followed by the combining U+0307, and U+212A (Kelvin sign) becomes `k`. Neither changes the filter's decision. `k` occurs in none of `jpg`, `jpeg`, `png`, `gif`, `webp`. The `i` from U+0130 always carries U+0307 after it, so an extension containing it is never exactly `gif`. No character lowers to a dot, so the extension is cut at the same place.
- DailyHash.HashOf: uses Unicode code points where JavaScript's `charCodeAt` uses UTF-16 code units. The two agree on the ASCII date string the handlers hash.
- QuoteRoute.BuildTable: splits the text at every line break, as the source does. A quoted field that spans several lines is therefore cut apart, exactly as in the source; the round-trip lemmas require fields without line breaks.
- The image listing's JSON decoding is not modelled. An entry is a name, a download URL and an integer size.
