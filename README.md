# UberScrapr, modelled in Dafny

UberScrapr crawls Flickr for photos under licence 4 (Creative Commons
attribution) or licence 7 (no known copyright), one search word at a time. For each search result it builds the photo's small-square URL and skips
URLs it has seen. It validates the photo's metadata and builds a
dictionary-filtered tag string. It then downloads the file into a randomly
drawn directory, analyses the image into a packed mean colour and a standard
deviation, and skips colours that are already over-represented in the
database. Finally it inserts a row into the `palette` table.
`flickrScraprUtil.py` holds the helpers:

- the date stamp;
- metadata validation;
- quote escaping;
- the URL and attribute lookup;
- the tag string;
- the image analysis.

The model has four modules:

- `Wrappers` (`wrappers.dfy`): `Option`, for Python's "a value or None".
- `PyStr` (`pystr.dfy`): the parts of Python's string behaviour the source relies on.
  - `str(n)` for naturals.
  - `split`, `join` and `strip`.
  - ASCII `lower`.
  - `replace(pat, '')`, which deletes a literal substring.
  - `sorted` on strings, which is code-point lexicographic order.
- `ScraprUtil` (`scraprutil.dfy`): the helpers of `flickrScraprUtil.py`.
  - Functions and lemmas model the pure helpers.
  - Methods with loops model the helpers that build a value step by step: `unixTimeToMySQLTime`, `makeQuotesSafeForSQL`, `getPhotoInfo`, `getPhotoTags` and the histogram sums of `analyzePhoto`.
- `UberScrapr` (`uberscrapr.dfy`): the crawler itself.
  - The start-up queries `getPhotoList` and `getDBHistogram`.
  - The path that `downloadPhoto` stores.
  - The specification `Step`, covering one pass of the body of `main`'s per-photo loop.
  - The class `Scraper`. Its fields are the seen-URL list, the colour histogram and the two photo counters. Its method `ProcessCandidate` updates them in place exactly as `Step` says.

Everything outside the program is an input:

- What the Flickr API returns.
- Whether UTF-8 decoding raises. This is the `decode` oracle: `None` where Python 2 raises `UnicodeEncodeError`.
- Whether `grep` finds a word in the system dictionary. This is the `isWord` oracle.
- Which directory `genRandomLocalURL` draws.
- What the image library reports.
- Whether the file is on disk.
- Whether the insert succeeds.

For one candidate photo, these answers are gathered in `UberScrapr.Candidate`.

The process and the database are not modelled.

`ProcessCandidate` follows the code as written, including two quirks:

- An over-represented colour whose file is already gone is not skipped. The `continue` at `UberScrapr.py:173` sits inside the file test.
- The `safeInfo` loop never escapes anything. The values come out of `checkStr` as `unicode`, and the loop only escapes `str`.

Both quirks are recorded under "Findings", together with the corrected behaviour, which is proved separately.

The tag string also follows the code:

- Tags keep document order.
- Only the stubs of one tag are sorted.
- Repeated words are kept.

## Model

| member | source | states |
|---|---|---|
| PyStr.NatToString | flickrScraprUtil.py:17 | `str(n)` of a natural is a non-empty run of digits |
| PyStr.NatToStringLength | flickrScraprUtil.py:17-25 | `str(n)` has a leading '0' only for 0, is one digit exactly below 10, and two digits from 10 to 99 |
| PyStr.DecimalValueOfNatToString | flickrScraprUtil.py:17 | reading the digits of `str(n)` back gives n |
| PyStr.Split | flickrScraprUtil.py:119 | `split(sep)` always yields at least one piece |
| PyStr.SplitPiecesLackSeparator | flickrScraprUtil.py:119 | no piece of `split(sep)` holds the separator |
| PyStr.LastPiece | UberScrapr.py:70 | `split('/')[-1]` holds no '/' |
| PyStr.LastPieceAfterSeparator | UberScrapr.py:75 | `split('/')[-1]` is exactly what follows the last '/' |
| PyStr.SplitAround | flickrScraprUtil.py:119 | splitting `a + sep + b` gives the pieces of a followed by the pieces of b |
| PyStr.JoinSplit | flickrScraprUtil.py:119 | joining the pieces of a split with the same separator gives back the string |
| PyStr.SplitJoin | flickrScraprUtil.py:119 | splitting a join of separator-free pieces gives back the pieces |
| PyStr.SplitLength | flickrScraprUtil.py:119 | the pieces' lengths plus one per separator add up to the string's length plus one |
| PyStr.JoinEnds | flickrScraprUtil.py:125 | a join starts with its first piece and ends with its last |
| PyStr.Lower | flickrScraprUtil.py:117 | `lower()` keeps the length |
| PyStr.LowerFoldsCase | flickrScraprUtil.py:117 | after `lower()` no 'A'..'Z' remains, each capital becomes its own small letter (32 code points on), every other character is kept, and lowering twice is lowering once |
| PyStr.RemoveAll | flickrScraprUtil.py:117 | `replace(pat, '')` never lengthens the string |
| PyStr.RemoveAllWithoutOccurrence | flickrScraprUtil.py:117 | a string in which the literal pattern does not occur comes back unchanged |
| PyStr.RemoveAllFirstOccurrence | flickrScraprUtil.py:117 | at the first occurrence of the pattern, wherever it starts, everything before it is kept, the occurrence is deleted, and the rest is processed on its own |
| PyStr.RemoveAllLeading | flickrScraprUtil.py:117 | an occurrence of the pattern at the front is deleted and the rest is processed as if it stood alone |
| PyStr.StripLeading | flickrScraprUtil.py:125 | the result is a suffix of the input that does not start with the stripped character |
| PyStr.StripTrailing | flickrScraprUtil.py:125 | the result is a prefix of the input that does not end with the stripped character |
| PyStr.Strip | flickrScraprUtil.py:125 | `strip(',')` is no longer than its input and neither end is a comma |
| PyStr.StripLeadingDropsOnly | flickrScraprUtil.py:125 | every character the leading strip drops is the stripped character |
| PyStr.StripTrailingDropsOnly | flickrScraprUtil.py:125 | every character the trailing strip drops is the stripped character |
| PyStr.StripKeepsMiddle | flickrScraprUtil.py:125 | `strip(c)` is a contiguous slice of its input with only c before it and only c after it |
| PyStr.StripShortens | flickrScraprUtil.py:125 | a string ending in the stripped character gets strictly shorter |
| PyStr.LexLeTotal | flickrScraprUtil.py:119 | any two strings are ordered one way or the other |
| PyStr.LexLeTransitive | flickrScraprUtil.py:119 | string order is transitive |
| PyStr.LexLeAntisymmetric | flickrScraprUtil.py:119 | two strings ordered both ways are equal |
| PyStr.Insert | flickrScraprUtil.py:119 | inserting adds exactly one occurrence of the element and nothing else |
| PyStr.Sort | flickrScraprUtil.py:119 | `sorted` returns a permutation of its input |
| PyStr.InsertSorted | flickrScraprUtil.py:119 | inserting into a sorted list keeps it sorted |
| PyStr.SortSorted | flickrScraprUtil.py:119 | `sorted` returns a sorted list |
| PyStr.SortSumLen | flickrScraprUtil.py:119 | sorting keeps the total length of the strings |
| ScraprUtil.UnixTimeToMySQLTime | flickrScraprUtil.py:13-27 | the string the padding branches build is the stamp `MySQLStamp` of the date |
| ScraprUtil.MySQLStampIsStamp | flickrScraprUtil.py:13-27 | the stamp is the year's digits followed by '-', two digits that read back as the month, '-', two digits that read back as the day, and " 00:00:00" |
| ScraprUtil.Padded | flickrScraprUtil.py:18-25 | a month or day, padded with '0' when it has one digit, is two digits that read back as the number |
| ScraprUtil.MakeQuotesSafeForSQL | flickrScraprUtil.py:40-46 | the loop produces the input with a backslash inserted before every quote character |
| ScraprUtil.EscapedLength | flickrScraprUtil.py:40-46 | the escaped string is longer by exactly the number of quote characters |
| ScraprUtil.EscapedWithoutQuotes | flickrScraprUtil.py:40-46 | a string without quote characters is left unchanged |
| ScraprUtil.UnescapeEscaped | flickrScraprUtil.py:40-46 | removing the inserted backslashes gives back the original string |
| ScraprUtil.EscapedQuotesArePrefixed | flickrScraprUtil.py:40-46 | when the backslash is not itself a quote character, every quote in the result has a backslash right before it |
| ScraprUtil.PhotoURLSegments | flickrScraprUtil.py:48-61 | with '/'-free parts, the URL `GetPhotoURL` builds splits on '/' into "http:", "", the farm host, the server and the file `id_secret_size.jpg` |
| ScraprUtil.FirstChildAttribFirst | flickrScraprUtil.py:75-78 | None exactly when no child has the key; otherwise the value of the first child that has it |
| ScraprUtil.FindAttribPriority | flickrScraprUtil.py:63-78 | `FindAttrib` gives None for a missing or empty key; otherwise the photo's attribute, else the info's, else the first child's, else None |
| ScraprUtil.CheckStr | flickrScraprUtil.py:29-38 | `(True, decoded)` exactly when there is text and it decodes; otherwise `(False, '')` |
| ScraprUtil.GetPhotoInfo | flickrScraprUtil.py:80-95 | None exactly when some requested attribute is missing or fails to decode; otherwise a map whose keys are the requested attributes and whose values are their decoded texts |
| ScraprUtil.CollectedMeaning | flickrScraprUtil.py:88-95 | the map built attribute by attribute exists exactly when every attribute checks, has exactly the requested keys, and holds each one's checked value |
| ScraprUtil.DefaultInfoHasInsertFields | flickrScraprUtil.py:80-95 | with the default attributes, a map that `getPhotoInfo` returns holds the licence, user name, real name, date taken and date posted that the insert reads |
| ScraprUtil.KeepWords | flickrScraprUtil.py:121-122 | every kept stub is a non-empty dictionary word |
| ScraprUtil.KeepWordsCounts | flickrScraprUtil.py:121-122 | each non-empty dictionary word is kept exactly as often as it occurs among the stubs, and no other string is kept |
| ScraprUtil.KeepWordsComplete | flickrScraprUtil.py:121-122 | the kept words are a sub-multiset of the stubs, and every non-empty dictionary stub is kept |
| ScraprUtil.CleanTagKeepsScatteredPunctuation | flickrScraprUtil.py:117 | `replace` deletes only the literal run of all the punctuation characters: a lowered tag without that run is left as it is |
| ScraprUtil.ApostropheSurvives | flickrScraprUtil.py:117 | so `Don't!` becomes `don't!`, keeping its apostrophe and exclamation mark |
| ScraprUtil.GetPhotoTags | flickrScraprUtil.py:97-127 | the nested loops build the comma-terminated words of the admitted tags, and the result is that string with its end commas stripped |
| ScraprUtil.AppendWords | flickrScraprUtil.py:119-122 | the inner loop appends each non-empty dictionary stub followed by a comma |
| ScraprUtil.TerminatedLength | flickrScraprUtil.py:122 | the appended text is as long as the words plus one comma each |
| ScraprUtil.TerminatedConcat | flickrScraprUtil.py:122 | appending two word lists in turn is appending their concatenation |
| ScraprUtil.KeepWordsLength | flickrScraprUtil.py:121-122 | the kept words with their commas are no longer than all stubs with theirs |
| ScraprUtil.TagWordsLength | flickrScraprUtil.py:112-122 | with a decode that never lengthens, one tag adds at most its own length plus one |
| ScraprUtil.DefaultTagStringLength | flickrScraprUtil.py:97-127 | with the default `maxlen` of 300, which the crawler uses, the tag string is at most 300 characters long |
| ScraprUtil.AccumulatedBound | flickrScraprUtil.py:105-122 | the string before the strip is at most `maxlen + 1` long and, when non-empty, ends in a comma |
| ScraprUtil.TagStringLength | flickrScraprUtil.py:97-127 | the returned tag string is at most `maxlen` long |
| ScraprUtil.AccumulatedIsTerminatedPieces | flickrScraprUtil.py:105-122 | the string before the strip is the words of the admitted tags, in document order, each followed by a comma |
| ScraprUtil.PiecesAreWords | flickrScraprUtil.py:121 | every word in the tag string is a non-empty dictionary word |
| ScraprUtil.PiecesSorted | flickrScraprUtil.py:119 | the words contributed by one tag are in sorted order |
| ScraprUtil.KeepWordsSorted | flickrScraprUtil.py:119-122 | filtering a sorted stub list keeps it sorted and keeps only stubs from it |
| ScraprUtil.TerminatedIsJoinPlusComma | flickrScraprUtil.py:122-125 | a non-empty comma-terminated word list is the comma join plus one comma |
| ScraprUtil.StripTerminated | flickrScraprUtil.py:125 | with comma-free words, stripping the terminated list gives the comma join |
| ScraprUtil.TagStringShape | flickrScraprUtil.py:97-127 | with comma-free dictionary words, the tag string is the comma join of the admitted words and splits back on ',' into exactly them |
| ScraprUtil.PySlice | flickrScraprUtil.py:174-178 | a slice `h[lo:hi]` holds `hi - lo` buckets when `hi` is within `h`, `len(h) - lo` when only `lo` is, and none otherwise, each equal to the bucket of `h` at the same offset |
| ScraprUtil.ChannelSums | flickrScraprUtil.py:174-179 | the three loops compute the weighted sums of the slices `[0:255]`, `[256:511]` and `[512:767]` |
| ScraprUtil.ChannelSum | flickrScraprUtil.py:174-175 | one loop adds count times intensity over the buckets of its slice |
| ScraprUtil.WeightedSumBound | flickrScraprUtil.py:174-179 | a weighted sum is at most the top intensity times the pixel count |
| ScraprUtil.ChannelMeanBelow255 | flickrScraprUtil.py:174-179 | as written, every channel mean is at most 254 |
| ScraprUtil.SingleBucketWeightedSum | flickrScraprUtil.py:174-179 | a histogram with all n pixels in bucket v sums to n·v when v is inside the slice, else to 0 |
| ScraprUtil.UniformChannelSum | flickrScraprUtil.py:174-179 | as written, a uniform channel of value v sums to n·v below 255 and to 0 at 255 |
| ScraprUtil.WhiteReadsAsBlack | flickrScraprUtil.py:174 | as written, an all-white channel sums to 0, not 255 per pixel |
| ScraprUtil.IntendedUniformChannelSum | flickrScraprUtil.py:174-179 | summed over all 256 buckets, a uniform channel of value v sums to n·v |
| ScraprUtil.PackColor | flickrScraprUtil.py:185 | the colour code is below 2^24 and gives back each channel by division and remainder |
| ScraprUtil.PackColorInjective | flickrScraprUtil.py:185 | distinct channel triples get distinct colour codes |
| ScraprUtil.AnalyzePhoto | flickrScraprUtil.py:145-202 | None exactly when the image does not open or is not a JPEG; otherwise the packed means and the deviation |
| UberScrapr.GetPhotoList | UberScrapr.py:40-47 | one URL per stored row, in row order |
| UberScrapr.CountColorOccurs | UberScrapr.py:49-59 | a colour is counted exactly when some row has it |
| UberScrapr.GetDBHistogram | UberScrapr.py:49-59 | the keys are exactly the stored colours, each mapped to its row count, which is at least 1 |
| UberScrapr.JoinPathLayout | UberScrapr.py:65-75 | `os.path.join(a, b)` is b when b is absolute; otherwise a, then one '/' exactly when a is non-empty and does not end in '/', then b |
| UberScrapr.GenRandomLocalURLSegments | flickrScraprUtil.py:129-135 | the drawn directory splits on '/' into "img", `str(a)`, `str(a)+str(b)` and `str(a)+str(b)+str(c)` |
| UberScrapr.DirectorySegments | flickrScraprUtil.py:135 | a directory built from three digit strings splits on '/' into its four segments |
| UberScrapr.LastPieceOfJoin | UberScrapr.py:75 | joining a directory with a '/'-free name ends the path with that name |
| UberScrapr.DownloadPhoto | UberScrapr.py:61-77 | the stored path starts with the drawn directory and ends in the URL's file name |
| UberScrapr.DownloadedPhotoPath | UberScrapr.py:64-75 | a photo lands at `img/a/ab/abc/id_secret_s.jpg` |
| UberScrapr.Admit | UberScrapr.py:170-178 | an over-represented colour keeps its count, any other gains exactly one, no other colour changes, and no count passes 11 |
| UberScrapr.Step | UberScrapr.py:140-210 | a seen URL changes nothing; a new URL is appended once; only a reached insert touches the histogram; both counters grow by one exactly when the insert succeeds; no colour count decreases or passes the larger of its old value and 11 |
| UberScrapr.NewURLIsRecorded | UberScrapr.py:143-146 | a new URL is recorded whatever happens to the photo afterwards |
| UberScrapr.EarlyRejectKeepsCounts | UberScrapr.py:152-163 | rejected metadata or a failed analysis records only the URL |
| UberScrapr.ColourGate | UberScrapr.py:168-178 | an over-represented colour whose file is present is rejected; a colour that is not over-represented gains exactly one |
| UberScrapr.OverRepresentedWithoutFileFallsThrough | UberScrapr.py:170-173 | an over-represented colour whose file is absent reaches the insert, with the histogram unchanged |
| UberScrapr.InsertOutcome | UberScrapr.py:189-210 | the insert yields the record of the candidate's tags, metadata, upload stamp of its posting date, URL, word, colour, deviation and path; only a success counts the photo, and the histogram is `Admit` of the colour |
| UberScrapr.StepReachesInsert | UberScrapr.py:140-210 | a new candidate that reaches the insert appends its URL, admits its colour, yields its record, and counts it in both counters exactly when the insert succeeds |
| UberScrapr.RunCounts | UberScrapr.py:106-114 | over a run, both counters grow by exactly the number of photos stored |
| UberScrapr.RunHistogramBound | UberScrapr.py:168-178 | over a run, no colour count ends above the larger of its start and 11 |
| UberScrapr.RunURLsGrow | UberScrapr.py:140-146 | over a run, the URL list it starts with stays a prefix of the list |
| UberScrapr.RunURLsCoverCandidates | UberScrapr.py:140-146 | after a run, every candidate's URL is in the list, whatever its outcome |
| UberScrapr.RunURLsDistinct | UberScrapr.py:140-146 | a URL list without repeats never gains one over a run |
| UberScrapr.AdmitTimesCount | UberScrapr.py:170-178 | from an unseen colour, n admissions leave min(n, 11); the colour is over-represented from the eleventh on |
| UberScrapr.OverRepresentedColourStillStored | UberScrapr.py:170-173 | as written, a twelfth photo of a colour already counted 11 times is stored |
| UberScrapr.IntendedStep | UberScrapr.py:170-178 | with the corrected gate, a stored photo's colour was not over-represented and its count rose by one |
| UberScrapr.IntendedRunColourBound | UberScrapr.py:168-178 | with the corrected gate, a colour starting with n stored photos ends with at most max(n, 11) |
| UberScrapr.AsWrittenLeavesQuotes | UberScrapr.py:180-187 | as written, `SafeInfoAsWritten` passes every value through unchanged, so a value holding a quote differs from its escaped form |
| UberScrapr.QuoteReachesInsertUnescaped | UberScrapr.py:180-187 | as written, a real name `a"b` reaches the insert unescaped; escaping gives `a\"b` |
| UberScrapr.EscapedInfo | UberScrapr.py:182-187 | escaping keeps the metadata keys |
| UberScrapr.SafeInfo | UberScrapr.py:182-187 | the corrected loop escapes every value with the default quote characters |
| UberScrapr.EscapedInfoIsSafe | UberScrapr.py:180-187 | every quote in an escaped value has a backslash before it, and unescaping gives back the value |
| UberScrapr.Scraper.constructor | UberScrapr.py:106-109 | the URL list and the histogram are seeded from the stored rows, and the counters start at 0 |
| UberScrapr.Scraper.StartWord | UberScrapr.py:112-114 | a new word resets its own counter and nothing else |
| UberScrapr.Scraper.ProcessCandidate | UberScrapr.py:140-210 | the in-place update and its outcome are exactly `Step` of the old state |

## Left out

- The Flickr API is left out: authentication, search paging, `photos_getInfo`, the quit file, the one-minute sleep and the commits. Their results are inputs.
- The SQL command text is left out, including how it is built and what `sqlite3` does with it. The insert's success is an input (`Candidate.insertOk`). The model keeps the fields of the row (`PhotoRecord`): the tags, the metadata after the `safeInfo` loop, `date_uploaded` as `MySQLStamp` of the posting date, the URL, the word, the colour, the deviation and the path. The fixed width and height of 75 are not kept.
- File handling is left out: downloading, `makedirs`, `isfile` and `unlink`. Whether the file is present at the colour test is an input.
- `download` (`flickrScraprUtil.py:139-143`, called at `UberScrapr.py:71`) raises when the URL cannot be opened or the file cannot be written, and that ends `main`. `Step` and `ProcessCandidate` assume the download does not raise.
- Random numbers are left out. The directory `genRandomLocalURL` draws is an input, and `GenRandomLocalURL` builds the path from three given integers.
- `float(posted)`, `datetime.fromtimestamp` and time zones are left out. `UnixTimeToMySQLTime` starts from the calendar date, which is an input (`Candidate.posted`). A `posted` value that `float` rejects or `fromtimestamp` cannot convert raises at `flickrScraprUtil.py:16` and ends `main`. `Step` and `ProcessCandidate` assume it does not.
- Floating point is left out: the division by the pixel count, the rounding of the channel means and the standard deviation. The model covers the integer sums, the packing of rounded means, and the JPEG test. `AnalyzePhoto` takes the rounded means as given. The standard deviation at `flickrScraprUtil.py:191-193` is taken around the already-rounded means of lines 181-183, not the unrounded ones.
- ScraprUtil.AnalyzePhoto: it returns a result for every JPEG that opens. For a single-band (grayscale) JPEG, `im.getdata()` yields plain integers, so `pixel[0]` at `flickrScraprUtil.py:191` raises `TypeError`. The call at `UberScrapr.py:158` is not inside a `try`, so `main` ends. The band count is not modelled.
- PyStr.Lower: it lowers only 'A'..'Z'. The tag text is `unicode` after decoding, and `unicode.lower()` at `flickrScraprUtil.py:117` also lowers non-ASCII capitals. Case mapping beyond ASCII is not modelled.
- `maxTagLen = 200` at `UberScrapr.py:93` is never used. `getPhotoTags` is called at `UberScrapr.py:148` with its default `maxlen` of 300, which is the bound `DefaultTagStringLength` states.
- UTF-8 decoding is left out (the `decode` oracle), and so is the dictionary `grep` (the `isWord` oracle). Lengths are counted in characters, whereas Python 2 counts the bytes of a `str`.
- `info.find('tags')` returning None, which makes the loop at `flickrScraprUtil.py:105` raise, is left out: the tags are a given list.
- `photo.get` returning None in `getPhotoURL`, which makes the concatenation raise, is left out: the URL parts are strings.
- `localURL.replace(baseDir + '/', '')` at `UberScrapr.py:195` is left out. The stored path is relative, so the replace does not change it unless `baseDir` occurs inside it.
- The `print` at `UberScrapr.py:207` is left out. As written it is a syntax error. The model reads the failed-insert branch as it evidently means: nothing is counted, and the histogram keeps the count already made.
- `flickrScraprUtil.py` does not import `random`, `math`, `urllib` or `Image`. The model assumes they are available.
- UberScrapr.Candidate: the tag string and the metadata are taken as already computed. The loop computes them with `getPhotoTags` and `getPhotoInfo`, which `ScraprUtil` models on their own.
- UberScrapr.EscapedInfo: it does not state the length of the escaped values. `ScraprUtil.EscapedLength` states it for each value.

## Findings

| source | as written | input that shows it | evidently intended | confidence | as-written member | corrected member |
|---|---|---|---|---|---|---|
| flickrScraprUtil.py:174-179 | the slices `h[0:255]`, `h[256:511]` and `h[512:767]` skip the top bucket of each channel | an all-white (or solid red) image: its red sum is 0, so it reads as black in that channel | sum over all 256 buckets of each channel | high, not executed | ScraprUtil.WhiteReadsAsBlack | ScraprUtil.IntendedUniformChannelSum |
| UberScrapr.py:170-173 | the `continue` sits inside `if os.path.isfile(localURL)`, so an over-represented colour whose file is gone falls through to the insert | a store with 11 photos of colour 0, and a new photo of colour 0 whose file is absent and whose insert succeeds: it is stored as the twelfth | skip every over-represented colour | medium, not executed | UberScrapr.OverRepresentedColourStillStored | UberScrapr.IntendedRunColourBound |
| UberScrapr.py:182-187 | values are escaped only when `type(...) == str`, but `checkStr` returns `unicode`, so nothing is escaped | a real name `a"b` reaches the insert as `a"b` | escape every value | high, not executed | UberScrapr.QuoteReachesInsertUnescaped | UberScrapr.EscapedInfoIsSafe |
