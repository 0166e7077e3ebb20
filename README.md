# Salary survey form: a verified model of its core logic

The salary survey page lets a visitor submit a salary for a job title, in US dollars or Iraqi dinars, and search the stored submissions for a title. Most of `script.js` wires up the page and talks to the database. A small core decides what the visitor sees:

- **Amount in words.** `numberToWords` spells an amount in English. It works in chunks of three digits, least significant first. `convertChunk` renders each chunk from the tables of units, teens and tens and the word "hundred". A non-zero chunk is followed by "thousand" or "million".
- **Salary range rules.** `validateSalary` gives live feedback under the salary field: a range error, or the amount in words. A second check runs when the form is submitted.
- **Sanitising.** `sanitizeInput` escapes `& < > " ' /` as HTML entities before text is stored.
- **Search.** Matching records are summed and averaged per currency. Fewer than three matches give a "not enough data" answer.

The Dafny project has seven modules:

- `Wrappers` holds `Option`.
- `Text` covers trimming and joining words with single spaces.
- `NumberWords` holds the two procedures `ConvertChunk` and `NumberToWords`, written with the script's own appends and loop. Each is proved equal to a word-list specification, `ChunkText` and `Words`. The lemmas about those specifications state what the output looks like.
- `NumberParse` reads English amounts back into numbers. It is the partner of `Words`: the words for every amount below one billion read back as that amount, so two amounts below one billion never share their words.
- `Salary` covers the salary feedback and the submit check.
- `Sanitize` covers the chain of six replaces. It is proved equal to character-by-character escaping, and that escaping is reversed by `Unescape`.
- `Search` covers the aggregation loop, proved against the recursive totals `Total` and `Count`, and the rounding of `Math.round`.

## Model

| member | source | states |
|---|---|---|
| NumberWords.ConvertChunk | script.js:140-160 | appending the hundreds words, then the remainder word, then trimming gives the chunk's words joined by single spaces (`ChunkText`) |
| NumberWords.NumberToWords | script.js:132-179 | the loop over chunks, least significant first, gives exactly `Words(num)`: "zero" for 0, and otherwise each non-zero chunk's words and scale word, joined by one space |
| NumberWords.ChunkPiecesTrim | script.js:145-159 | the trimmed appends of a chunk equal its word list joined by single spaces |
| NumberWords.RemainderPieceIsJoin | script.js:149-157 | the remainder piece is empty exactly for 0, and otherwise a single word |
| NumberWords.PrependChunk | script.js:168-172 | one loop step puts a chunk's words and its scale word, with one space, in front of the words so far |
| NumberWords.TableWords | script.js:135-137 | every entry the script can pick from the units, teens and tens tables is a single word, without a hyphen, and differs from "zero", "hundred", "thousand" and "million" |
| NumberWords.ChunkWords | script.js:140-160 | a non-zero chunk gives at least one word and never "zero" |
| NumberWords.NumberTokensWords | script.js:165-176 | the words of a number are whitespace-free, never "zero", and there is at least one for a non-zero number |
| NumberWords.HasTokens | script.js:165-178 | the word list is empty exactly for 0 |
| NumberWords.WordsShape | script.js:132-179 | the result is "zero" exactly for 0; it is never empty, has no whitespace at either end and never two spaces in a row |
| NumberWords.SingleChunk | script.js:165-178 | a number below 1000 reads as its single chunk |
| NumberWords.ThousandsChunk | script.js:166-172 | `1000*a + b` reads as a's chunk, "thousand", then b's chunk if b is not 0; a zero low chunk adds nothing |
| NumberWords.MillionsChunk | script.js:166-172 | `1000000*m + k` reads as m's chunk, "million", then the words of k if k is not 0 |
| NumberWords.ScaleByPosition | script.js:138 | chunk 1 gets "thousand", chunk 2 gets "million", and chunk 0 and every chunk from 3 up get no scale word |
| NumberWords.BillionReadsAsOne | script.js:138-171 | one billion reads "one", the same as 1, because the scale table ends at "million" |
| NumberWords.HundredIffHundredsDigit | script.js:145-147 | a chunk has the word "hundred" exactly when its hundreds digit is not 0 |
| NumberWords.HyphenIffCompound | script.js:153-156 | a chunk has a hyphen exactly when its last two digits are over 20 with a non-zero unit digit |
| NumberWords.ChunkTextShape | script.js:145-159 | a chunk's text is the hundreds words, then a space and the remainder word, each part present only when its digits are not 0 |
| NumberWords.RemainderHyphen | script.js:149-157 | the remainder word has a hyphen exactly for 21-99 with a non-zero unit digit; 10-19 read as their teens-table word, and a round ten as its tens word alone |
| NumberWords.CompoundIsWord | script.js:153-156 | a tens word with a hyphenated unit is still one word and not "zero" |
| NumberWords.ExampleZero | script.js:133 | 0 reads "zero" |
| NumberWords.ExampleTwentyOne | script.js:153-156 | 21 reads "twenty-one" |
| NumberWords.ExampleHundred | script.js:145-147 | 100 reads "one hundred" |
| NumberWords.ExampleThousand | script.js:166-172 | 1000 reads "one thousand", never "one thousand zero" |
| NumberWords.ExampleMillion | script.js:166-172 | 1000000 reads "one million" |
| NumberWords.ExampleNines | script.js:140-178 | 999999 reads "nine hundred ninety-nine thousand nine hundred ninety-nine" |
| Text.Trim | script.js:159 | the trimmed text has no whitespace at either end |
| Text.JoinWellSpaced | script.js:172 | words joined by single spaces have no space at either end and no two spaces in a row |
| Text.SplitJoin | script.js:172 | splitting the join of a word list at spaces gives that list back |
| NumberParse.WordsRoundTrip | script.js:132-179 | for every amount below one billion, reading its words gives the amount back |
| NumberParse.WordsInjective | script.js:132-179 | below one billion, different amounts never give the same words |
| NumberParse.EvalNumber | script.js:165-176 | the words of the three chunks, most significant first, add up to the number |
| NumberParse.RemainderValue | script.js:149-157 | the remainder word of a chunk reads as the value of its last two digits |
| NumberParse.LexChunk | script.js:140-160 | a chunk's words are its hundreds digit and "hundred" if present, then its remainder value |
| Salary.ValidateSalary | script.js:104-123 | no feedback for an empty currency, a non-numeric amount or another currency; otherwise too low exactly below the low bound and too high exactly above the high bound, each with its message, and the amount in words with the currency suffix in between |
| Salary.SubmitValid | script.js:221-229 | the submit check fails exactly when the amount is a number, the currency has a range, and the amount lies below its low bound or above its high bound |
| Salary.SubmitAgreesWithFeedback | script.js:225-229 | submitting is refused exactly when the live feedback shows a range error |
| Salary.SubmitWithinRange | script.js:225-229 | for USD and IQD, an amount is accepted exactly when it lies within the bounds |
| Salary.SubmitAcceptsNonNumeric | script.js:221-229 | a non-numeric amount passes the submit check and gets no live feedback |
| Salary.WordsNameTheAmount | script.js:107-122 | an amount shown in words lies within the range, the text ends with the currency suffix, and the rest reads back as the amount |
| Salary.WordsWellFormed | script.js:107-122 | the words shown are never "zero" and have no stray spaces |
| Salary.ExampleBoundsUSD | script.js:107-114 | 299 is too low, 50001 too high, and 300 and 50000 are spelled out |
| Salary.ExampleBoundsIQD | script.js:115-122 | 349999 is too low, 70000001 too high, and 70000000 is spelled out |
| Salary.ExampleSilent | script.js:104-123 | an empty currency, a non-numeric amount and an unknown currency show nothing |
| Sanitize.SanitizeInput | script.js:182-191 | a non-string is returned unchanged and a string is escaped character by character |
| Sanitize.SanitizeIsEscape | script.js:184-190 | the chain of six replaces, `&` first, equals character-by-character escaping |
| Sanitize.SanitizeChar | script.js:185-190 | on one character the chain inserts exactly that character's entity, and no later replace touches it |
| Sanitize.ReplaceAll | script.js:185-190 | a text without the replaced character comes back unchanged |
| Sanitize.ReplaceAllChars | script.js:185-190 | after a replace, every character is one of the original text other than the replaced one, or one of the replacement |
| Sanitize.ReplaceAllLength | script.js:185-190 | a replace by a non-empty text never shortens the text |
| Sanitize.SanitizeText | script.js:184-190 | the chain of six replaces leaves a text with none of the six characters unchanged and never shortens a text |
| Sanitize.ReplaceAllAppend | script.js:185-190 | a global replace of one character works piece by piece |
| Sanitize.NoMarkup | script.js:186-190 | escaped text contains no `<`, `>`, `"`, `'` or `/` |
| Sanitize.EscapedAmpersands | script.js:185-190 | every `&` in escaped text begins one of the six entities |
| Sanitize.EscapeUnchanged | script.js:184-190 | escaping leaves a text unchanged exactly when it has none of the six characters, and never shortens it |
| Sanitize.UnescapeEscape | script.js:184-190 | replacing the entities by their characters gives back the original text |
| Sanitize.SanitizeInjective | script.js:184-190 | different texts never sanitize to the same text |
| Sanitize.ExampleScript | script.js:186-187 | `<b>` becomes `&lt;b&gt;` |
| Search.Search | script.js:322-347 | fewer than 3 records give "not enough data" with their number; otherwise the loop's totals and counts are those of the USD and of the IQD records, each averaged with rounding |
| Search.RoundedMean | script.js:346-347 | 0 when the count is 0; otherwise the integer nearest to total/count, halves upwards |
| Search.RoundUnique | script.js:346-347 | the rounding condition determines the rounded average |
| Search.MeanOfEqual | script.js:346-347 | equal salaries average to that salary |
| Search.TotalAppend | script.js:335-344 | totals and counts of joined record lists add up |
| Search.TotalOrderFree | script.js:335-344 | swapping two runs of records does not change the totals or the counts |
| Search.TotalPermutation | script.js:335-344 | any reordering of the records, the same records with the same multiplicities, gives the same totals and counts |
| Search.OtherCurrency | script.js:337-343 | a record in another currency adds nothing to the total or the count |
| Search.CountsWithinFound | script.js:337-343 | each record is counted in at most one currency |
| Search.AverageWithinRange | script.js:335-347 | when every salary of a currency lies in a range, so does its average |
| Search.PositiveWhenPresent | script.js:346-351 | when the currency's salaries are positive, its average is positive exactly when it has a record |
| Search.ShownAverages | script.js:351-375 | both averages are shown exactly when both are positive, one alone exactly when only it is positive, and "no salary data" exactly when neither is |
| Search.ShownWhenPresent | script.js:351-375 | when the USD and IQD salaries are positive, "no salary data" is shown exactly when no record is in USD or IQD |
| Search.ExampleRounding | script.js:346-347 | 5/2 rounds to 3, −5/2 to −2, and 7/3 to 2 |

## Left out

- The page and the database: element lookups, event listeners, the modal, star ratings, benefit rows, spinners, templating, and the Firestore initialisation, writes and queries. The search model takes the records the query returned as its input.
- `parseInt` of the salary field: the amount is an input of type `Option<int>`, with `None` standing for NaN.
- The submission throttle, the re-enabling timeout and the auto-increment timer: they depend on the clock.
- The text of the result panel: `toLocaleString` formatting and the currency conversion by the floating-point exchange rate. `ShownAverages` models which of the four branches is taken, not the text.
- Search.Search: salaries are unbounded integers and the average is computed exactly, so precision loss on very large totals and NaN salaries in stored records are not modelled.
- NumberWords.NumberToWords: the amount is a natural number. The script only calls it with amounts in range, and the negative and fractional inputs it would also accept are not modelled.
- Text.Trim: only space, tab, line feed and carriage return count as whitespace, not the other Unicode whitespace that `trim` strips. Only spaces can occur in the text being trimmed.
- The job title check before a search, and the lower-casing and prefix range of the query.
- The survey builder and statistics code is not part of this model.
