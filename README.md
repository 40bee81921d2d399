# String utilities, modelled in Dafny

This project models `lib/@string/index.js`, a module of small string
helpers. It covers case conversion, capitalisation, trimming, literal
replacement, slugs, truncation, reversal, substring counting, number and URL
extraction, e-mail validation, removal of special characters, Base64 over
UTF-8, masking, title case, random strings, word wrapping and the
letters-only test. Each JavaScript helper is a Dafny function over `string`
(`seq<char>`) that does what the JavaScript code does. Regular expressions
are written out as scanners that follow the pattern's own matching order:
leftmost match first, greedy quantifiers, backtracking where the pattern
needs it. The helpers are then proved against independent characterisations.
These include the round trips of Base64 and UTF-8, `join` after `split`,
idempotence of `trim`, `slugify`, `capitalize` and title case, and
concatenation laws for the scanners. Each documented example is also proved,
except those of `toCurrency`, which is not modelled, and of `random`, whose
output depends on `Math.random()`.

The modules follow the JavaScript helpers:

| module | file | helpers |
|---|---|---|
| `Seqs` | seqs.dfy | generic sequence facts used by the proofs |
| `Chars` | chars.dfy | `\s`, `\w`, `\d`, ASCII case mapping (`toUpperCase`, `toLowerCase`) |
| `Results` | results.dfy | `Option`, and `Result` for the calls that throw |
| `Slicing` | slicing.dfy | `capitalize`, `truncate`, `reverse`, `mask` |
| `Trimming` | trim.dfy | `trim` |
| `SplitJoin` | splitjoin.dfy | `replaceAll`, `countOccurrences` |
| `Filters` | filters.dfy | `removeSpecialChars`, `isAlpha` |
| `Slugs` | slugify.dfy | `slugify` |
| `TitleCase` | titlecase.dfy | `toTitleCase` |
| `Numbers` | numbers.dfy | `extractNumbers` |
| `Urls` | urls.dfy | `extractUrls` |
| `Email` | email.dfy | `isValidEmail` |
| `WordWrap` | wordwrap.dfy | `wordWrap` |
| `Utf8` | utf8.dfy | the UTF-8 layer of `Buffer` (RFC 3629) |
| `Base64` | base64.dfy | `toBase64`, `fromBase64` (section 4 of RFC 4648) |
| `RandomString` | random.dfy | `random` |

Inputs the code reads from its environment become parameters. The values of
`Math.random()` in `random` are passed in as a sequence of reals in `[0, 1)`.

Where the documentation comments and the code disagree, the model follows
the code:

- The comment for `mask` (line 210) gives `mask('password', 1, -1)` as
  `'p******d'`. The code clamps `end` to `-1` and calls `'*'.repeat(-2)`, which
  throws a `RangeError`. `Slicing.MaskExamples` proves the `RangeError`.
- The comment for `toTitleCase` (line 245) gives `toTitleCase('hello_world')`
  as `'Hello_World'`. `_` is a word character and not whitespace, so `\w\S*`
  matches the whole string and the code returns `'Hello_world'`.
  `TitleCase.TitleCaseExampleUnderscore` proves that.

## Model

| member | source | states |
|---|---|---|
| Chars.NonSpacePrefix | lib/@string/index.js:250-253 | what `\S*` matches: the longest whitespace-free prefix, ending at whitespace or at the end |
| Chars.ToUpper | lib/@string/index.js:8-13 | same length; every character is mapped by the ASCII upper-case mapping |
| Chars.ToLower | lib/@string/index.js:22-27 | same length; every character is mapped by the ASCII lower-case mapping |
| Chars.CaseMappingKeepsClasses | lib/@string/index.js:8-27 | case mapping keeps `\w`, `\s` and `\d` membership, and each mapping absorbs the other |
| Chars.CaseMappingComposes | lib/@string/index.js:8-27 | `toUpperCase(toLowerCase(s)) == toUpperCase(s)` and the other way round |
| Chars.CaseMappingIdempotent | lib/@string/index.js:8-27 | both mappings are idempotent and leave every character that is not an ASCII letter alone |
| Chars.ToLowerNoUpper | lib/@string/index.js:22-27 | a string without upper-case letters is its own lower-case form |
| Chars.CaseMappingConcat | lib/@string/index.js:8-27 | both mappings distribute over concatenation |
| Chars.CaseMappingExamples | lib/@string/index.js:1-27 | the documented examples of `toUpperCase` and `toLowerCase` |
| Slicing.Capitalize | lib/@string/index.js:36-41 | same length; first character upper-cased, the rest unchanged |
| Slicing.CapitalizeProperties | lib/@string/index.js:36-41 | `capitalize` is `toUpperCase` on the first character followed by the rest, and it is idempotent |
| Slicing.CapitalizeExamples | lib/@string/index.js:29-41 | the documented examples, and the empty string |
| Trimming.TrimStart | lib/@string/index.js:50-55 | a suffix of the input; what it drops is all whitespace; it does not start with whitespace |
| Trimming.TrimEnd | lib/@string/index.js:50-55 | a prefix of the input; what it drops is all whitespace; it does not end with whitespace |
| Trimming.Trim | lib/@string/index.js:50-55 | the result neither starts nor ends with whitespace |
| Trimming.TrimIsMiddle | lib/@string/index.js:50-55 | the result occurs in the input with only whitespace before and after it |
| Trimming.TrimSlice | lib/@string/index.js:50-55 | the result starts where the leading whitespace ends |
| Trimming.TrimOf | lib/@string/index.js:50-55 | whitespace around a string without outer whitespace is removed exactly |
| Trimming.TrimIdempotent | lib/@string/index.js:50-55 | a string without outer whitespace is unchanged, and trimming twice is trimming once |
| Trimming.TrimExample | lib/@string/index.js:43-55 | the documented example with tabs and newlines |
| Trimming.TrimExamplesSpaces | lib/@string/index.js:43-55 | the documented examples with spaces around the word and with none |
| SplitJoin.Split | lib/@string/index.js:66 | the empty separator gives the single characters; any other separator gives at least one piece |
| SplitJoin.SplitFirstCut | lib/@string/index.js:66 | a non-empty separator is cut at its leftmost occurrence: the first piece is the text before it and splitting resumes right after it |
| SplitJoin.Join | lib/@string/index.js:66 | one separator between neighbouring pieces: the length is the pieces' total plus one separator fewer than there are pieces; one piece joins to itself |
| SplitJoin.ReplaceAll | lib/@string/index.js:64-69 | replacing a string by itself changes nothing |
| SplitJoin.ReplaceAllLength | lib/@string/index.js:64-69 | each replaced occurrence changes the length by the replacement's length minus the search string's |
| SplitJoin.JoinSplitFrom | lib/@string/index.js:66 | joining the pieces of the scan with the separator rebuilds the scanned text |
| SplitJoin.JoinSplit | lib/@string/index.js:66 | `split(sep).join(sep)` is the identity |
| SplitJoin.JoinSingletons | lib/@string/index.js:66 | joining the single characters with nothing between them rebuilds the string |
| SplitJoin.SplitPiecesFree | lib/@string/index.js:66 | no piece of `split` contains the separator |
| SplitJoin.ReplaceAbsent | lib/@string/index.js:64-69 | text without the search string is one piece and is returned unchanged |
| SplitJoin.ReplaceAllExampleDots | lib/@string/index.js:62-66 | `replaceAll('a.b.c', '.', '-') == 'a-b-c'` |
| SplitJoin.ReplaceAllExampleWords | lib/@string/index.js:60-66 | `replaceAll('hello hello', 'hello', 'hi') == 'hi hi'` |
| SplitJoin.ReplaceAllExampleEnds | lib/@string/index.js:61-66 | `replaceAll('abc123abc', 'abc', 'xyz') == 'xyz123xyz'` |
| SplitJoin.ReplaceAllExampleOverlap | lib/@string/index.js:64-66 | a separator that overlaps itself is cut leftmost first: `replaceAll('aaa', 'aa', 'b') == 'ba'` |
| SplitJoin.SplitFromCount | lib/@string/index.js:130 | the scan yields one piece more than there are leftmost non-overlapping occurrences |
| SplitJoin.Count | lib/@string/index.js:130 | the occurrences, which do not overlap, are together no longer than the text |
| SplitJoin.CountZero | lib/@string/index.js:130 | the count is zero exactly when the string does not occur |
| SplitJoin.CountOccurrences | lib/@string/index.js:128-133 | the empty pattern counts the positions, end included; otherwise one fewer than the pieces of `split` |
| SplitJoin.CountOccurrencesZero | lib/@string/index.js:128-133 | the count is zero exactly when the search string does not occur |
| SplitJoin.CountOccurrencesExampleWords | lib/@string/index.js:124-130 | `countOccurrences('hello hello', 'hello') == 2` |
| SplitJoin.CountOccurrencesExampleBanana | lib/@string/index.js:125-130 | `countOccurrences('banana', 'na') == 2` |
| SplitJoin.CountOccurrencesExampleAbsent | lib/@string/index.js:126-130 | `countOccurrences('abc', 'xyz') == 0` |
| SplitJoin.CountOccurrencesExampleAdjacent | lib/@string/index.js:128-133 | adjacent occurrences each count: `countOccurrences('aaa', 'a') == 3` |
| Slicing.Truncate | lib/@string/index.js:97-105 | a string within the limit is unchanged; a longer one becomes its first `max(0, maxLength)` characters followed by `...` |
| Slicing.TruncateBound | lib/@string/index.js:97-105 | for a non-negative limit the text before the ellipsis is at most `maxLength` long, and truncation is idempotent |
| Slicing.TruncateExamples | lib/@string/index.js:93-105 | the documented examples, and the results for the limit 0 and a negative limit |
| Slicing.Reverse | lib/@string/index.js:114-119 | same length; character `i` of the result is character `n - 1 - i` of the input |
| Slicing.ReverseInvolution | lib/@string/index.js:114-119 | reversing twice gives the input |
| Slicing.ReverseConcat | lib/@string/index.js:114-119 | the reverse of `a + b` is the reverse of `b` followed by the reverse of `a` |
| Slicing.ReverseExampleHello | lib/@string/index.js:110-119 | `reverse('hello') == 'olleh'` |
| Slicing.ReverseExampleWords | lib/@string/index.js:111-119 | `reverse('Hello World') == 'dlroW olleH'` |
| Slicing.ReverseExampleDigits | lib/@string/index.js:112-119 | `reverse('12345') == '54321'` |
| Slicing.Repeat | lib/@string/index.js:217 | `count` copies of `c`: `count` times its length, and character `i` is character `i mod len(c)` of `c` |
| Slicing.Mask | lib/@string/index.js:212-220 | `RangeError` exactly when the clamped end lies before the clamped start; otherwise the prefix, `end - start` mask copies and the suffix |
| Slicing.MaskPointwise | lib/@string/index.js:212-220 | with a one-character mask and an in-range window the length is kept and only the window is masked |
| Slicing.MaskDefault | lib/@string/index.js:212-220 | `mask` without `maskChar` masks with `*`: `RangeError` exactly when the clamped window is reversed, otherwise the length is kept and exactly the clamped window is starred |
| Slicing.MaskExamples | lib/@string/index.js:208-220 | two documented examples, and the `RangeError` that the third documented call raises |
| Numbers.DigitPrefix | lib/@string/index.js:144 | what `\d+` takes at a position: the longest prefix of digits |
| Numbers.DigitRuns | lib/@string/index.js:144 | the matches of `/\d+/g`: each non-empty and all digits |
| Numbers.ExtractNumbers | lib/@string/index.js:142-147 | one number per digit run, in order, each the decimal value of its run |
| Numbers.DigitsOfConcat | lib/@string/index.js:144 | the digit filter distributes over concatenation |
| Numbers.DigitsOfDigits | lib/@string/index.js:144 | a string of digits passes the filter unchanged |
| Numbers.DigitRunsFlatten | lib/@string/index.js:144 | the runs, put together, are exactly the digits of the input, in order |
| Numbers.NoDigitsNoNumbers | lib/@string/index.js:142-147 | the result is empty exactly when the input has no digit |
| Numbers.DigitRunsConcat | lib/@string/index.js:144 | the runs of `x + y` are the runs of `x` then those of `y` when no run spans the join |
| Numbers.DigitPrefixOf | lib/@string/index.js:144 | a digit run followed by a non-digit or by the end is exactly what `\d+` takes |
| Numbers.DigitRunsOfRun | lib/@string/index.js:144 | a non-empty run of digits is one match |
| Numbers.NoDigitRuns | lib/@string/index.js:144 | text without digits has no match |
| Numbers.TwoRuns | lib/@string/index.js:144 | two digit runs separated by non-digits are the two matches |
| Numbers.TwoNumbers | lib/@string/index.js:142-147 | two digit runs separated by non-digits give their two values |
| Numbers.ExtractNumbersExamplePrice | lib/@string/index.js:139-147 | `extractNumbers('Price: $19.99') == [19, 99]` |
| Numbers.ExtractNumbersExampleLetters | lib/@string/index.js:138-147 | `extractNumbers('abc123def456') == [123, 456]` |
| Numbers.ExtractNumbersExampleNone | lib/@string/index.js:140-147 | `extractNumbers('no numbers') == []` |
| Email.FirstAt | lib/@string/index.js:158 | the index of the first `@`, or the length when there is none |
| Email.IsValidEmail | lib/@string/index.js:156-161 | a valid address has at least five characters and begins and ends with neither whitespace nor `@` |
| Email.IsValidEmailMatches | lib/@string/index.js:156-161 | valid exactly when the string splits as `local@domain.tld` with non-empty parts free of whitespace and `@` |
| Email.ValidEmailOneAt | lib/@string/index.js:156-161 | a valid address has no whitespace and exactly one `@`, neither first nor last |
| Email.IsValidEmailExampleValid | lib/@string/index.js:152-161 | `test@example.com` is valid |
| Email.IsValidEmailExampleNoAt | lib/@string/index.js:153-161 | `invalid.email` is not valid |
| Email.IsValidEmailExampleNoDot | lib/@string/index.js:154-161 | `test@domain` is not valid |
| Filters.RemoveSpecialChars | lib/@string/index.js:170-175 | no longer than the input, and only ASCII letters and digits |
| Filters.RemoveSpecialCharsConcat | lib/@string/index.js:170-175 | the filter distributes over concatenation, so it keeps the order of what it keeps |
| Filters.RemoveSpecialCharsExtremes | lib/@string/index.js:170-175 | letters and digits are kept whole, everything else is dropped, and filtering is idempotent |
| Filters.RemoveSpecialCharsExampleWords | lib/@string/index.js:165-175 | `removeSpecialChars('Hello@World!') == 'HelloWorld'` |
| Filters.RemoveSpecialCharsExampleEmail | lib/@string/index.js:166-175 | `removeSpecialChars('user.name@email.com') == 'usernameemailcom'` |
| Filters.RemoveSpecialCharsExampleDigits | lib/@string/index.js:167-175 | `removeSpecialChars('123-456-789') == '123456789'` |
| Filters.AllLetters | lib/@string/index.js:311 | true exactly when every character is an ASCII letter |
| Filters.IsAlpha | lib/@string/index.js:309-314 | true exactly when the string is non-empty and made of ASCII letters |
| Filters.IsAlphaKeptByFilters | lib/@string/index.js:309-314 | a letters-only string survives `removeSpecialChars` unchanged and stays letters-only under case mapping |
| Filters.IsAlphaExamples | lib/@string/index.js:303-314 | the documented examples, and the empty string |
| Slugs.KeepSlugInput | lib/@string/index.js:83 | only `\w`, `\s` and `-` remain, and no upper-case letter is introduced |
| Slugs.KeepSlugInputAll | lib/@string/index.js:83 | a string made of kept characters passes unchanged |
| Slugs.KeepSlugInputConcat | lib/@string/index.js:83 | the filter distributes over concatenation |
| Slugs.KeepSlugInputChar | lib/@string/index.js:83 | one character is kept exactly when it is `\w`, `\s` or `-`, and dropped otherwise |
| Slugs.KeepSlugInputNone | lib/@string/index.js:83 | a string without kept characters is dropped entirely |
| Slugs.CollapseSeparators | lib/@string/index.js:84 | empty exactly when the input is empty, and never longer |
| Slugs.CollapseEnds | lib/@string/index.js:84 | the result starts (ends) with `-` exactly when the input starts (ends) with a separator |
| Slugs.CollapseShape | lib/@string/index.js:84 | on filtered lower-case text the result holds only slug characters and no `--` |
| Slugs.CollapseSlug | lib/@string/index.js:84 | a slug-shaped string without `--` is left unchanged |
| Slugs.CollapseConcat | lib/@string/index.js:84 | collapsing distributes over a join where no separator run spans the join |
| Slugs.CollapseRun | lib/@string/index.js:84 | a run of separators becomes one `-` |
| Slugs.CollapseWord | lib/@string/index.js:84 | text without separators is unchanged |
| Slugs.DropLeadingHyphens | lib/@string/index.js:85 | a suffix of the input that does not start with `-` |
| Slugs.DropTrailingHyphens | lib/@string/index.js:85 | a prefix of the input that does not end with `-` |
| Slugs.StripHyphens | lib/@string/index.js:85 | the result neither starts nor ends with `-` and occurs in the input |
| Slugs.StripHyphensOf | lib/@string/index.js:85 | hyphens around a word that neither starts nor ends with `-` are removed exactly |
| Slugs.DropLeadingOf | lib/@string/index.js:85 | `^-+` removes exactly a leading run of hyphens before a word that does not start with `-` |
| Slugs.DropTrailingOf | lib/@string/index.js:85 | `-+$` removes exactly a trailing run of hyphens after a word that does not end with `-` |
| Slugs.SlugInputLowered | lib/@string/index.js:80-83 | after lower-casing, trimming and filtering there is no upper-case letter |
| Slugs.StrippedIsSlug | lib/@string/index.js:84-85 | stripping a hyphen-collapsed string gives a slug |
| Slugs.Slugify | lib/@string/index.js:78-88 | every result is a slug: lower-case letters, digits and single inner hyphens |
| Slugs.SlugifyIdempotent | lib/@string/index.js:78-88 | a slug is its own slug, so `slugify` is idempotent |
| Slugs.SlugFixed | lib/@string/index.js:78-88 | every stage leaves a slug unchanged |
| Slugs.SlugifyTwoWords | lib/@string/index.js:78-88 | two alphanumeric words between runs of `_` and `-` become `word-word` in lower case |
| Slugs.SlugifySpaced | lib/@string/index.js:78-88 | alphanumeric words separated by single spaces, followed by dropped characters, become the lower-cased words joined by `-` |
| Slugs.SlugifyExample | lib/@string/index.js:76-88 | `slugify('__Hello--World__') == 'hello-world'` |
| Slugs.SlugifyExampleSpaces | lib/@string/index.js:74-88 | `slugify('Hello World!') == 'hello-world'` |
| Slugs.SlugifyExampleTitle | lib/@string/index.js:75-88 | `slugify('My Article Title 123') == 'my-article-title-123'` |
| TitleCase.ToTitleCase | lib/@string/index.js:247-255 | the length is kept |
| TitleCase.TitleCaseWord | lib/@string/index.js:247-255 | a whitespace-free word that starts with a word character becomes its capitalised form with the rest lower-cased |
| TitleCase.TitleCaseLead | lib/@string/index.js:250-253 | a word at the start followed by whitespace or the end is capitalised on its own and the scan resumes after it |
| TitleCase.TitleCaseSkip | lib/@string/index.js:250-253 | a leading character that is not a word character is kept and the scan resumes at the next one |
| TitleCase.TitleCaseConcat | lib/@string/index.js:250-253 | title case distributes over a join next to whitespace |
| TitleCase.TitleCaseOnlyChangesCase | lib/@string/index.js:247-255 | the result differs from the input only in letter case |
| TitleCase.TitleWordLower | lib/@string/index.js:252 | a capitalised word differs from the word only in case |
| TitleCase.TitleCaseKeepsSpaces | lib/@string/index.js:247-255 | whitespace stays exactly where it was |
| TitleCase.TitleCaseIdempotent | lib/@string/index.js:247-255 | title-casing twice is title-casing once |
| TitleCase.TitleWordFixed | lib/@string/index.js:250-253 | a capitalised word is its own title case |
| TitleCase.TitleCaseTwoWords | lib/@string/index.js:247-255 | two words around whitespace are each capitalised |
| TitleCase.TitleCaseExampleLower | lib/@string/index.js:243-255 | `toTitleCase('hello world') == 'Hello World'` |
| TitleCase.TitleCaseExampleUpper | lib/@string/index.js:244-255 | `toTitleCase('HELLO WORLD') == 'Hello World'` |
| TitleCase.TitleCaseExampleUnderscore | lib/@string/index.js:247-255 | `toTitleCase('hello_world') == 'Hello_world'` |
| TitleCase.TitleCaseExampleParen | lib/@string/index.js:247-255 | a match starts only at a word character: `toTitleCase('(hELLO') == '(Hello'` |
| Urls.ExtractUrls | lib/@string/index.js:264-270 | every extracted string is a URL: `http://` or `https://`, at least one more character, no whitespace |
| Urls.ExtractedAreUrls | lib/@string/index.js:264-270 | every extracted string is a URL that occurs in the input as a maximal match, ending at whitespace or at the end |
| Urls.ExtractedMatches | lib/@string/index.js:264-270 | at the scan's positions each URL is a maximal match beginning where a URL starts; the matches come from left to right without overlap; every position where a URL starts lies inside one of them |
| Urls.UrlPrefix | lib/@string/index.js:266 | at a URL start, the whitespace-free prefix is a URL |
| Urls.UrlStartConcat | lib/@string/index.js:266 | whether a URL starts at a position does not depend on text after whitespace |
| Urls.ExtractUrlsConcat | lib/@string/index.js:264-270 | extraction distributes over a join next to whitespace |
| Urls.NoColonNoUrls | lib/@string/index.js:264-270 | text without `:` has no URL |
| Urls.SingleUrl | lib/@string/index.js:264-270 | a URL on its own is extracted whole |
| Urls.UrlLead | lib/@string/index.js:264-270 | a URL at the start is the first match and the scan resumes right after it |
| Urls.UrlSkip | lib/@string/index.js:264-270 | where no URL starts, the character is passed over |
| Urls.TwoUrls | lib/@string/index.js:264-270 | two URLs set off by whitespace in colon-free text are exactly the two matches, in order |
| Urls.ExtractUrlsExample | lib/@string/index.js:260-270 | the documented two-URL example |
| Urls.ExtractUrlsExampleNone | lib/@string/index.js:262-270 | `extractUrls('No URLs here') == []` |
| Urls.ExtractUrlsExampleParen | lib/@string/index.js:264-270 | a URL in parentheses takes the closing parenthesis along |
| WordWrap.LineRun | lib/@string/index.js:296 | how far `[^\n]*` runs: to the first line feed or to the end |
| WordWrap.BreakFrom | lib/@string/index.js:296 | the backtracking of the greedy group: the largest whitespace position at or below the bound |
| WordWrap.BreakAt | lib/@string/index.js:296 | where `([^\n]{1,n})\s` matches: a group of 1 to `n` non-newlines followed by whitespace, and no longer group would do |
| WordWrap.WordWrap | lib/@string/index.js:294-300 | a bound of 0 throws `SyntaxError`; otherwise only whitespace characters turn into line feeds |
| WordWrap.WrapBreaksOnly | lib/@string/index.js:294-300 | the length is kept and every character is kept or is whitespace turned into a line feed |
| WordWrap.WrapNoSpace | lib/@string/index.js:294-300 | text without whitespace is unchanged |
| WordWrap.WrapLastLine | lib/@string/index.js:296 | a last line of at most `n` characters is never broken |
| WordWrap.WrapFullWord | lib/@string/index.js:296-297 | a word of exactly `n` characters followed by a blank and more text is broken after the word |
| WordWrap.WordWrapExampleLong | lib/@string/index.js:290-300 | `wordWrap('Long text here', 4) == 'Long\ntext\nhere'` |
| WordWrap.WordWrapExampleShort | lib/@string/index.js:291-300 | `wordWrap('Short', 10) == 'Short'` |
| WordWrap.WordWrapExampleLongWord | lib/@string/index.js:292-300 | `wordWrap('VeryLongWord', 4) == 'VeryLongWord'` |
| Utf8.EncodeChar | lib/@string/index.js:186 | 1 to 4 bytes, one byte exactly for ASCII, the others continuation bytes |
| Utf8.Encode | lib/@string/index.js:186 | between one and four bytes per character |
| Utf8.Decode | lib/@string/index.js:200 | a decoded string has no more characters than there are bytes |
| Utf8.DecodeChar | lib/@string/index.js:200 | a decoded character takes as many bytes as its leading byte announces |
| Utf8.EncodeCharCodePoint | lib/@string/index.js:186 | a character's bytes carry its code point, within the range its length allows |
| Utf8.DecodeEncodeChar | lib/@string/index.js:186-200 | a character's bytes decode to that character whatever follows |
| Utf8.EncodeDecodeChar | lib/@string/index.js:186-200 | a well-formed byte sequence is the encoding of the character it decodes to |
| Utf8.DecodeEncode | lib/@string/index.js:186-200 | decoding the UTF-8 bytes of a string gives the string |
| Utf8.EncodeDecode | lib/@string/index.js:186-200 | well-formed UTF-8 is the encoding of what it decodes to |
| Utf8.EncodeAscii | lib/@string/index.js:186 | ASCII text is its own UTF-8 form |
| Base64.Value | lib/@string/index.js:200 | an alphabet character's 6-bit value, inverse to the alphabet |
| Base64.DigitValue | lib/@string/index.js:186-200 | every 6-bit value's character maps back to the value |
| Base64.EncodeChunk | lib/@string/index.js:186 | four characters per chunk of one to three bytes |
| Base64.Encode | lib/@string/index.js:186 | the text is a whole number of four-character groups, and empty exactly for no bytes |
| Base64.EncodeLength | lib/@string/index.js:186 | the text has `4 * ceil(n / 3)` characters for `n` bytes |
| Base64.DecodeQuad | lib/@string/index.js:200 | a group decodes to one to three bytes, fewer than three only as the last group |
| Base64.Decode | lib/@string/index.js:200 | text that decodes has a whole number of four-character groups, one group per three bytes or part of three |
| Base64.DecodeEncodeChunk | lib/@string/index.js:186-200 | a chunk's characters decode back to the chunk |
| Base64.EncodeDecodeQuad | lib/@string/index.js:186-200 | a group that decodes is the encoding of its bytes |
| Base64.DecodeEncode | lib/@string/index.js:186-200 | decoding the Base64 text of any bytes gives those bytes |
| Base64.EncodeDecode | lib/@string/index.js:186-200 | canonical Base64 text is the encoding of what it decodes to |
| Base64.ToBase64 | lib/@string/index.js:184-189 | the output length is `4 * ceil(n / 3)` for the `n` UTF-8 bytes |
| Base64.FromToBase64 | lib/@string/index.js:184-203 | `fromBase64(toBase64(s)) == s` for every string |
| Base64.FromBase64 | lib/@string/index.js:193-203 | whatever `fromBase64` decodes, `toBase64` turns back into the same text |
| Base64.Base64ExampleHello | lib/@string/index.js:180-203 | `toBase64('Hello') == 'SGVsbG8='` and back |
| Base64.Base64ExampleDigits | lib/@string/index.js:182-203 | `toBase64('12345') == 'MTIzNDU='` and back |
| Base64.Base64ExampleHelloWorld | lib/@string/index.js:181-203 | `toBase64('Hello World') == 'SGVsbG8gV29ybGQ='` and back |
| RandomString.Index | lib/@string/index.js:282 | `Math.floor(roll * n)` is a valid index for a non-empty charset, and 0 for an empty one |
| RandomString.IndexInterval | lib/@string/index.js:282 | a roll picks index `k` exactly when it lies in `[k/n, (k+1)/n)`, so every index is equally likely |
| RandomString.Pick | lib/@string/index.js:282 | one character of a non-empty charset, the empty string for an empty one |
| RandomString.Picks | lib/@string/index.js:279-285 | one character per roll from a non-empty charset, none otherwise, all from the charset |
| RandomString.PicksAt | lib/@string/index.js:279-285 | character `k` is the one that roll `k` selects |
| RandomString.Random | lib/@string/index.js:279-285 | the loop builds the picks of the first `max(0, length)` rolls: that many characters of the charset, or none for an empty charset |
| RandomString.RandomDefault | lib/@string/index.js:279-285 | `random(length)` without a charset: `max(0, length)` characters, all from the default letters and digits |

## Left out

- `toCurrency` (lines 229-238) is not modelled. It formats through
  `Intl.NumberFormat` with locale data and floating-point numbers.
- Chars.ToUpper: only ASCII letters are mapped. Unicode case mapping is not modelled; it covers other scripts and special cases such as `ß` becoming `SS`.
- Chars.ToLower: only ASCII letters are mapped, for the same reason.
- Strings are sequences of Unicode scalar values, while JavaScript counts UTF-16 code units. Lengths, indices, `reverse` and `mask` agree only for text in the Basic Multilingual Plane. Lone surrogates cannot be represented.
- Every helper's pass-through of a non-string argument is left out, because the model is typed. These returns are `data` itself, `0` from `countOccurrences`, `[]` from the extractors and `false` from the predicates.
- SplitJoin.CountOccurrences: requires a search string without regular-expression operators. The source compiles the search string as a pattern, where such operators change the match or make `new RegExp` throw.
- SplitJoin.ReplaceAll: only string search and replacement values are modelled. A `RegExp` separator, or a value that `split` or `join` converts to a string, is not. A missing `replaceValue` makes `join` use its default separator `,`; that call is `ReplaceAll(s, search, ",")` and has no member of its own.
- Base64.FromBase64: returns `None` for text that is not canonical Base64 of well-formed UTF-8. Node's lenient decoder is not modelled; it skips foreign characters, accepts missing padding and the URL-safe alphabet, and substitutes U+FFFD for bad bytes.
- Numbers.ExtractNumbers: values are exact naturals. JavaScript `Number` rounds digit runs beyond 2^53.
- WordWrap.WordWrap: `maxLength` is a natural number. A negative or fractional bound makes `{1,…}` a literal text in the pattern, which is not modelled.
- RandomString.Random: `length` is an integer and the rolls are exact reals in `[0, 1)`. The floating-point rounding of `roll * charset.length` is not modelled, and neither is the distribution of `Math.random()`.
- Slicing.Truncate: `maxLength` is an integer. A fractional `maxLength`, truncated by `substring`, is not modelled, and neither is a `maxLength` that is not a number, for which the input is returned unchanged.
- Slicing.Mask: `start` and `end` are integers, and `maskChar` is a string. `NaN` and fractional positions are not modelled.
- `test/test.js` exercises another package (`camelToSnake`), so there is nothing in it to model.
