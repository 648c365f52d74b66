# Megumi Download, modelled in Dafny

Megumi Download fetches new anime episodes from a seedbox. It lists a remote SFTP directory and keeps the files tagged with a
known release group (`[Group]` or `【Group】`). It downloads each file into a local staging directory, either
as one stream or in parallel byte ranges (chunks) that are joined afterwards. It removes the remote copy once the local
copy is non-empty. Each episode goes into the library under `LOCALPATCH/<folder>/Season <n>`, optionally renamed
to `SxxEyy.ext` and logged in `info.txt`. When a season directory holds a `replace.txt`, the subtitle track of
every episode placed there is extracted, rewritten (fixed stutter spellings and line breaks, then user word
substitutions) and remuxed into the container.

The model describes the file systems as maps:
- the remote directory maps names to byte strings;
- the staging directory maps names to files or directories;
- the library maps paths to media or text files.

The network and the external tools are inputs:
- a read oracle answers each SFTP read;
- a set of chunk tasks whose SFTP open fails;
- the order in which the thread pool's tasks complete;
- how many bytes the single stream delivers and whether it raises;
- the success and output of `mkvextract` and `mkvmerge`.

Every step the program takes is a function. Where the program loops or changes files step by step, a method
(a `while` or `for` loop with invariants) is proved equal to that function, and lemmas state what the
function guarantees.

The modules follow the program:
- `Text` and `Paths`: the Python string and `pathlib` operations the program relies on.
- `Files`: the file-system values.
- `Chunking`: the chunk plan.
- `ChunkCopy`: `download_chunk`.
- `Transfer`: `download_file`.
- `Listing`: the stale-file removal, the group filter and the batch of downloads in `download_files`.
- `Episode`: the episode regular expression.
- `Subtitles`: `apply_standard_replacements`, `replace.txt` and the word substitutions.
- `Patch`: `process_subtitles`.
- `Placement`: `move_files`.
- `Loaders`: the line parsers of the three configuration files.

The commit rule follows the code. A download is kept, and the remote file removed, when the local file is
non-empty (line 214). The local size is never compared with the size the SFTP `stat` reported.
`Transfer.ShortStreamStillCommits` proves the consequence: a stream that delivers only part of the file still
deletes the remote original.

## Model

| member | source | states |
|---|---|---|
| Text.TrimStart | chou-megumi-download.py:102 | the leading characters `strip` drops are all white space in the sense of `str.isspace`, and what remains is a suffix of the input that starts with a non-space |
| Text.TrimEnd | chou-megumi-download.py:102 | the trailing characters `strip` drops are all white space, and what remains is a prefix of the input that ends with a non-space |
| Text.StripShape | chou-megumi-download.py:102-103 | `strip` gives the input with its leading and trailing white-space runs cut: a slice whose ends are non-space, everything outside it white space |
| Text.StripIdempotent | chou-megumi-download.py:122 | stripping a stripped line changes nothing |
| Text.ContainsIffOccurs | chou-megumi-download.py:260 | the substring test `t in s` holds exactly when `t` occurs in `s` at some index |
| Text.ContainsInfix | chou-megumi-download.py:286 | a string contains every string it is built around |
| Text.ContainsChar | chou-megumi-download.py:260 | every character of a contained string occurs in the containing string |
| Text.Split | chou-megumi-download.py:143 | `str.split(sep)` yields at least one field, no field holds the separator, and joining the fields with it gives back the input |
| Text.SplitJoin | chou-megumi-download.py:143 | splitting the join of separator-free fields gives back exactly those fields |
| Text.FirstIndex | chou-megumi-download.py:102 | the index found holds the character, and no earlier index does |
| Text.SplitFirst | chou-megumi-download.py:102 | `split('=', 1)` gives a key with no `=` and a value such that key, `=` and value make the line |
| Text.ReplaceAllAbsent | chou-megumi-download.py:369 | `str.replace` of a pattern that does not occur returns the text unchanged |
| Text.ReplaceAllFirst | chou-megumi-download.py:369 | `str.replace` of a non-empty pattern keeps the text before its first occurrence, puts the replacement in its place and goes on after it, so occurrences never overlap |
| Text.ReplaceAllSame | chou-megumi-download.py:369 | replacing a non-empty pattern by itself gives the text back |
| Text.UniversalNewlinesNoReturn | chou-megumi-download.py:327-334 | no carriage return survives reading a file in text mode |
| Text.UniversalNewlinesPlain | chou-megumi-download.py:327-328 | text without carriage returns reads back unchanged in text mode |
| Text.UniversalNewlinesFront | chou-megumi-download.py:327-328 | a `\r\n` line end, and a lone `\r`, each read as one `\n` |
| Text.DecimalString | chou-megumi-download.py:195 | the decimal rendering of a number is a non-empty string of digits |
| Text.ParseDecimalString | chou-megumi-download.py:195 | reading back the decimal rendering of a number gives the number |
| Text.DecimalStringInjective | chou-megumi-download.py:195 | different numbers have different decimal renderings |
| Text.ParseDecimalZeros | chou-megumi-download.py:296 | leading zeros do not change a decimal string's value |
| Text.ZFillDigits | chou-megumi-download.py:296 | `zfill` pads a digit string with zeros to the width (never shortening it), keeps its value and keeps the original digits at the end |
| Paths.JoinInjective | chou-megumi-download.py:300 | two names joined to the same directory give the same path only if the names are equal |
| Paths.LastIndex | chou-megumi-download.py:195 | the index found holds the character and no later index does; -1 when it does not occur |
| Paths.StemSuffix | chou-megumi-download.py:344 | `stem` followed by `suffix` is the name; a suffix is empty or a dot and at least one character with no further dot; a name with a suffix has a non-empty stem |
| Paths.WithSuffixRoundTrip | chou-megumi-download.py:319 | after `with_suffix(s)` the suffix is `s` and the stem is unchanged |
| Paths.PartNameInjective | chou-megumi-download.py:195 | the part files of one download have pairwise different names |
| Paths.PartNameIgnoresSuffix | chou-megumi-download.py:195 | two names with the same stem get the same part file names |
| Paths.PartNameSelfExample | chou-megumi-download.py:195 | `Show 01.part1` writes its chunk 1 to itself |
| Paths.PartNameCollisionExample | chou-megumi-download.py:195 | `Show 01.mkv` and `Show 01.mp4` both use the part file `Show 01.part0` |
| Files.FlattenLength | chou-megumi-download.py:201-205 | the concatenation of the parts is as long as the parts together |
| Chunking.ChunkWidth | chou-megumi-download.py:187 | the chunk width is `ceil(size / n)`: `n` widths cover the size, one width less per chunk does not, and the widths overshoot by less than `n` |
| Chunking.LastStartFits | chou-megumi-download.py:193 | when `(n-1)^2 <= size`, the last chunk starts inside the file |
| Chunking.PlanEnds | chou-megumi-download.py:192-194 | the first segment starts at 0 and the last ends at the file size |
| Chunking.PlanContiguous | chou-megumi-download.py:192-194 | when `(n-1)^2 <= size`, no segment ends before it starts and each segment ends where the next begins |
| Chunking.ChunkedPlanContiguous | chou-megumi-download.py:186-194 | on the chunked path (over 1 MiB) with at most 1025 chunks the segments are well formed and contiguous |
| Chunking.PlanSize | chou-megumi-download.py:192-194 | the segment lengths (an empty segment counting 0) add up to the file size, for any chunk count |
| Chunking.PlanPrefixSize | chou-megumi-download.py:192-194 | the first `k` segments cover `min(k * width, size)` bytes |
| Chunking.PlanCoversFile | chou-megumi-download.py:192-194 | the bytes of the segments, in index order, are exactly the file |
| Chunking.PlanCoversPrefix | chou-megumi-download.py:192-194 | the bytes of the first `k` segments are the file's first `min(k * width, size)` bytes |
| ChunkCopy.ReadAt | chou-megumi-download.py:164 | one SFTP read returns at most the bytes asked for: empty, or the file's bytes at the read offset |
| ChunkCopy.DownloadChunk | chou-megumi-download.py:156-171 | the copy loop writes exactly what the copy specification gives for `[start, end)`, and every request asks for between 1 and 1048576 bytes |
| ChunkCopy.CopiedIsPrefix | chou-megumi-download.py:160-169 | what a chunk copy writes is a prefix of the remote bytes `[start, min(end, size))`: never more than `end - start` bytes, the file's bytes from `start` on, in order; an empty range or one past the end of the file gets nothing |
| ChunkCopy.CopiedStopsOnEmptyRead | chou-megumi-download.py:164-166 | a copy that writes less than its range reached the end of the file or met a read the server answered with nothing |
| ChunkCopy.CopiedComplete | chou-megumi-download.py:160-169 | when no read is cut short by the server, the copy is the remote slice `[start, min(end, size))` |
| ChunkCopy.CopiedSegment | chou-megumi-download.py:192-197 | with complete reads a chunk task writes exactly its segment's bytes |
| Transfer.StagedAnyOrder | chou-megumi-download.py:191-198 | the directory after the chunk tasks depends only on which tasks ran, not on the order they finished |
| Transfer.PartKeyInjective | chou-megumi-download.py:195 | different chunk tasks write different part files |
| Transfer.RunChunks | chou-megumi-download.py:191-198 | running the chunk tasks one by one in completion order gives the directory the part-writing specification describes |
| Transfer.PartsAfterOrderIrrelevant | chou-megumi-download.py:191-198 | any two completion orders of all the chunk tasks leave the same staging directory |
| Transfer.Reassembly | chou-megumi-download.py:195-205 | while no exception has occurred and the output has not been unlinked, the output file holds the bytes appended so far |
| Transfer.ReassemblyStuck | chou-megumi-download.py:202-205 | once a part file fails to open, the rest of the join does nothing more |
| Transfer.Reassemble | chou-megumi-download.py:200-205 | the join loop (truncate the output, then append and delete the parts in index order) ends in the state the reassembly specification gives |
| Transfer.ReassemblySelfCopy | chou-megumi-download.py:195-205 | when a file's own name is the part name of its chunk `k`, the join raises while copying the file into itself: the file is left holding what the full disk allowed, the parts before `k` are gone and every other entry, the later parts included, is as it was |
| Transfer.ReassemblyOfParts | chou-megumi-download.py:200-205 | when all part files exist as files, the output is their concatenation in index order, every part file is gone, and nothing else changes |
| Transfer.Commit | chou-megumi-download.py:214-227 | the remote file is removed exactly when the local copy is a non-empty file; an empty copy is deleted and the remote kept; a missing one raises and changes nothing |
| Transfer.Download | chou-megumi-download.py:173-227 | a download removes the remote file exactly when it commits, and then the local copy is non-empty; a discarded download leaves no local copy; otherwise the remote side is untouched |
| Transfer.DownloadFile | chou-megumi-download.py:173-227 | download_file, step by step, ends in the state and outcome the download specification gives |
| Transfer.DownloadOrderIrrelevant | chou-megumi-download.py:191-198 | the result of a download does not depend on the order in which its chunk tasks complete |
| Transfer.PartsAfterAllWritten | chou-megumi-download.py:191-198 | when no chunk task fails to open, every part file holds its chunk's bytes and no other entry changes |
| Transfer.HealthyParts | chou-megumi-download.py:186-198 | with complete reads and no failed opens, the part files hold the file's segments in index order |
| Transfer.HealthyReassembly | chou-megumi-download.py:186-205 | with complete reads and no failed opens, reassembly rebuilds the remote file under its own name and deletes every part |
| Transfer.ChunkedDownloadComplete | chou-megumi-download.py:173-227 | a healthy chunked download commits: the local copy equals the remote file, the part files are gone and the remote file is removed |
| Transfer.StreamDownload | chou-megumi-download.py:206-227 | the single stream stores the bytes delivered; non-empty, they are committed and the remote file removed; empty, the local copy is deleted and the remote kept |
| Transfer.ShortStreamStillCommits | chou-megumi-download.py:206-227 | a stream that delivers some but not all bytes still commits and deletes the remote file |
| Listing.RemoveStale | chou-megumi-download.py:254-258 | the stale-file loop ends in the state the cleanup specification gives |
| Listing.CleanedStuck | chou-megumi-download.py:255-257 | once an unlink raises, the rest of the loop does nothing more |
| Listing.CleanedPrefix | chou-megumi-download.py:254-258 | over distinct staged names, the cleanup succeeds exactly when every listed one is a file, and then exactly the listed ones are removed |
| Listing.RemoveStaleRemovesListed | chou-megumi-download.py:254-258 | iterating the whole staging directory deletes a staged file exactly when its name is in the remote listing, and fails exactly when such a name is a directory |
| Listing.AnyGroup | chou-megumi-download.py:260 | a name is wanted exactly when some group's `[g]` or `【g】` tag occurs in it |
| Listing.SelectMembers | chou-megumi-download.py:260 | a name is selected exactly when it is listed and carries a group tag |
| Listing.SelectAppend | chou-megumi-download.py:260 | selection keeps listing order: selecting from two listings in a row is selecting from each |
| Listing.SelectNoGroups | chou-megumi-download.py:260 | an empty group list selects nothing |
| Listing.ExampleTagged | chou-megumi-download.py:260 | `[GroupA] Show 01 (WEB).mkv` is wanted with the group `GroupA` |
| Listing.UntaggedWithoutLetter | chou-megumi-download.py:260 | a name with no `A` is not wanted with the group `GroupA` |
| Listing.DownloadAll | chou-megumi-download.py:262-265 | downloading the selected files one after the other ends in the state the batch specification gives |
| Listing.DownloadAllKeepsUnselected | chou-megumi-download.py:262-265 | the batch leaves every remote file it was not asked to download as it was, and adds or changes no remote file |
| Episode.LineEnd | chou-megumi-download.py:287 | the end of the line from a position: the first newline at or after it, or the end of the name |
| Episode.FirstOnLine | chou-megumi-download.py:287 | the lazy `.*?` stops at the first closer on the line, or there is none |
| Episode.LastOnLine | chou-megumi-download.py:287 | the greedy `.*` before `\.` reaches the last dot on the line, or there is none |
| Episode.LineEndSame | chou-megumi-download.py:287 | every position up to a line's end lies on the same line |
| Episode.FirstHit | chou-megumi-download.py:287 | the scan returns a position where the pattern holds, or -1 |
| Episode.SearchFrom | chou-megumi-download.py:287 | `re.search` returns a position where the expression matches, or -1 |
| Episode.FirstHitLeftmost | chou-megumi-download.py:287 | the scan finds nothing exactly when no position holds, and otherwise none before the one found does |
| Episode.SearchLeftmost | chou-megumi-download.py:287 | the search fails exactly when the expression matches at no position, and otherwise returns the leftmost match |
| Episode.MatchShape | chou-megumi-download.py:287-290 | a match yields a two-digit episode and an extension that starts with `.` and stays on one line; the annotated form's extension has no further dot |
| Episode.EpisodeOfSpec | chou-megumi-download.py:287-290 | a name has an episode exactly when the expression matches at some position, and the episode is two digits and the extension starts with `.` |
| Episode.AnnotatedExample | chou-megumi-download.py:287-290 | `[GroupA] Show 01 (WEB).mkv` gives episode `01`, extension `.mkv` |
| Episode.PlainExample | chou-megumi-download.py:287-290 | `Show 07.mp4` gives episode `07`, extension `.mp4` |
| Episode.NoEpisodeExample | chou-megumi-download.py:287-290 | `Show-01.mkv` has no episode: the number must follow white space |
| Subtitles.ReplaceEachAppend | chou-megumi-download.py:368-369 | replacing by a list of pairs is replacing by its first part, then by the rest |
| Subtitles.ReplaceEachAbsent | chou-megumi-download.py:368-369 | text holding none of the patterns is unchanged |
| Subtitles.StandardShape | chou-megumi-download.py:359-367 | the fixed list has 30 pairs: 28 stutter patterns, each with a hyphen, then the `\N` and `\h` spacings |
| Subtitles.StandardFixAbsent | chou-megumi-download.py:358-370 | text holding none of the standard patterns comes back unchanged |
| Subtitles.StutterSkipped | chou-megumi-download.py:359-365 | text without a hyphen is untouched by the stutter fixes |
| Subtitles.StandardFixNoHyphen | chou-megumi-download.py:358-370 | for text without a hyphen or `h`, the standard fixes are just the `\N` spacing |
| Subtitles.StandardFixLineBreak | chou-megumi-download.py:358-370 | a text that is `\N` followed only by spaces gains exactly one space after the `\N` |
| Subtitles.StandardFixNotIdempotent | chou-megumi-download.py:366-369 | applying the standard fixes again adds another space after `\N`: they are not idempotent |
| Subtitles.Find | chou-megumi-download.py:335 | finds the position of a key in the rule list, -1 when it is absent, and with distinct keys no other position holds it |
| Subtitles.InsertSpec | chou-megumi-download.py:335 | a dict assignment keeps the keys distinct, keeps an existing key's position or appends a new key, maps the key to the new value and leaves every other key alone |
| Subtitles.ParseRules | chou-megumi-download.py:334-335 | the parsed rules have pairwise different keys |
| Subtitles.ParseRulesFails | chou-megumi-download.py:334-335 | `replace.txt` raises exactly when some line with a bar does not split into two fields |
| Subtitles.LaterRuleWins | chou-megumi-download.py:335 | a repeated key takes the later value and keeps the position of its first occurrence |
| Subtitles.RuleLine | chou-megumi-download.py:335 | `key|value` with no bar in either part splits into exactly those two fields |
| Subtitles.WordSubNoMatch | chou-megumi-download.py:338 | where no whole-word occurrence of the key starts, the substitution copies the text |
| Subtitles.InsideWordKept | chou-megumi-download.py:338 | a key that occurs only inside longer words is not replaced |
| Subtitles.WholeWordReplaced | chou-megumi-download.py:338 | a text that is the key as one whole word becomes the replacement |
| Subtitles.WordSubFirst | chou-megumi-download.py:338 | the first whole-word occurrence of a non-empty key is replaced, the text before it is kept, and substitution goes on after it |
| Subtitles.WordSubOnly | chou-megumi-download.py:338 | a text with exactly one whole-word occurrence of the key gets just that occurrence replaced and the rest copied |
| Subtitles.ApplyRulesNoMatch | chou-megumi-download.py:337-338 | when no rule's key occurs as a whole word, the custom rules change nothing |
| Patch.RemuxedNameLength | chou-megumi-download.py:344 | the remux output's name (`_remuxed` put between stem and suffix) is eight characters longer than the original |
| Patch.LayoutDistinct | chou-megumi-download.py:316-344 | the remux output is neither the container nor the sidecar nor `replace.txt`, and the sidecar is not `replace.txt` |
| Patch.PatchEarlyExits | chou-megumi-download.py:316-324 | without `replace.txt` nothing happens; with it, a failed extraction returns and a missing `mkvextract` raises, and neither changes anything |
| Patch.RewrittenSpec | chou-megumi-download.py:326-338 | the rules raise exactly when `replace.txt` is not text or holds a bad rule line; otherwise the subtitles, read in text mode, get the standard fixes and then each rule in order |
| Patch.Rewrite | chou-megumi-download.py:330-338 | the rule loop computes the rewriting specification's result |
| Patch.PatchAt | chou-megumi-download.py:315-355 | process_subtitles, step by step on the run's paths, ends in the state and outcome the patch specification gives |
| Patch.ProcessSubtitles | chou-megumi-download.py:315-355 | process_subtitles for a container in a season directory ends as the patch specification gives on that container's paths |
| Patch.PatchCrashOnRules | chou-megumi-download.py:327-335 | when the rules raise, the extracted subtitles stay beside the container untransformed and nothing else changes |
| Patch.PatchRemuxFailed | chou-megumi-download.py:343-350 | a failed remux returns, and a missing `mkvmerge` raises; both leave the container as it was and the rewritten subtitles in the sidecar |
| Patch.PatchSucceeded | chou-megumi-download.py:352-355 | after success the container's path holds the remuxed bytes, the sidecar and the output are gone, and no other path changes |
| Patch.PatchSucceedsIff | chou-megumi-download.py:315-355 | the container is replaced exactly when `replace.txt` exists, both tools succeed and the rules can be read |
| Patch.PatchFrame | chou-megumi-download.py:315-355 | a run changes no path but the container, the sidecar and the remux output |
| Placement.Classify | chou-megumi-download.py:285-289 | a match names an entry of the series table, and the name has an episode |
| Placement.ClassifySpec | chou-megumi-download.py:285-313 | a file is classified exactly when it has an episode and some token occurs in its name, and then the first such series in table order wins |
| Placement.EpisodeNameHasSpace | chou-megumi-download.py:287 | a name with an episode contains white space |
| Placement.MoveOneSkips | chou-megumi-download.py:279-288 | a missing, non-file, empty or unclassified staged entry stays where it is and nothing changes |
| Placement.NewNameNotRuleFile | chou-megumi-download.py:295-298 | an episode file is never named `replace.txt` or `info.txt`, renamed or not |
| Placement.PlacedKeepsRuleFile | chou-megumi-download.py:300-310 | placing an episode puts its bytes at the destination and neither creates nor removes the season's `replace.txt` |
| Placement.LedgerApart | chou-megumi-download.py:308 | the ledger `info.txt` is none of the container, sidecar and remux output paths of an episode not itself named `info.txt` |
| Placement.ClaimLogs | chou-megumi-download.py:307-312 | with SAVEINFO `ON` the season's ledger ends up holding its old text followed by `name (newName)` and a newline, even after the subtitles are processed; otherwise it is left as it was |
| Placement.ClaimWithoutRules | chou-megumi-download.py:300-312 | without `replace.txt`, the episode leaves staging and is placed (and logged) with no subtitle work |
| Placement.MoveOnePlaces | chou-megumi-download.py:285-313 | an eligible, classified episode in a season without `replace.txt` leaves staging and lands at its destination with its bytes |
| Placement.PlaceFile | chou-megumi-download.py:279-313 | handling one staged file ends in the state the placement specification gives |
| Placement.MoveFiles | chou-megumi-download.py:278-313 | the loop over the staging directory ends in the state the placement specification gives for that order |
| Placement.MovedStuck | chou-megumi-download.py:278-313 | once handling a file raises, the rest of the loop does nothing more |
| Placement.MovedAllKeeps | chou-megumi-download.py:278-313 | staging only loses entries, and a file that is not an eligible, classified episode is never moved |
| Placement.MovedAllQuiet | chou-megumi-download.py:278-313 | when no staged file is a classified episode, the run changes nothing |
| Placement.ExampleDestination | chou-megumi-download.py:292-298 | episode `01` of series `Show` season `1` goes to `LOCALPATCH/Show/Season 1/S01E01.mkv` |
| Placement.ExamplePlacement | chou-megumi-download.py:285-298 | `[GroupA] Show 01 (WEB).mkv` goes to `LOCALPATCH/Show/Season 1/S01E01.mkv` |
| Loaders.StripKeeps | chou-megumi-download.py:102 | `strip` keeps every non-space character of a line |
| Loaders.AssignKeys | chou-megumi-download.py:100-103 | a key is set exactly when some line assigns it |
| Loaders.AssignLast | chou-megumi-download.py:100-103 | a key takes the value of the last line that assigns it |
| Loaders.AssignIgnores | chou-megumi-download.py:100-101 | lines that assign nothing change nothing |
| Loaders.ConfigLastWins | chou-megumi-download.py:99-104 | a config key is set exactly when some line with `=` names it, and its value is that of the last such line |
| Loaders.ConfigIgnoresPlainLines | chou-megumi-download.py:100-101 | lines without `=` do not change the config |
| Loaders.ParseIntDecimal | chou-megumi-download.py:66 | `int` reads a decimal number and its negation back |
| Loaders.NoOuterSpace | chou-megumi-download.py:66 | `strip` leaves a string alone whose ends are not white space |
| Loaders.DefaultSettings | chou-megumi-download.py:66-67 | without `CHUNKS` and `USE_CHUNKS`, three chunks are used and chunking is on |
| Loaders.KeptMembers | chou-megumi-download.py:122 | a group is kept exactly when it is the non-empty cleaned form of some line |
| Loaders.KeptAppend | chou-megumi-download.py:122 | keeping preserves line order |
| Loaders.GroupsSpec | chou-megumi-download.py:122 | the groups are exactly the non-empty stripped lines, each its own strip |
| Loaders.GroupsAppend | chou-megumi-download.py:122 | the groups keep the order of the file's lines |
| Loaders.SeriesLinesMembers | chou-megumi-download.py:143 | the series lines, kept in file order, are exactly the lines holding a bar |
| Loaders.RowsSpec | chou-megumi-download.py:141-148 | the table fails exactly when a line with a bar does not have three fields; otherwise row `j` is the fields of the `j`-th line with a bar, so the table keeps file order |
| Loaders.SeriesSpec | chou-megumi-download.py:141-148 | the series list raises exactly when a line with a bar does not split into three fields; otherwise entry `j` is the stripped, split `j`-th such line, and no field contains a bar |
| Loaders.SeriesLineRule | chou-megumi-download.py:141-148 | a well-formed `token|folder|season` line appends exactly that entry |

## Left out

- Network, SSH and SFTP sessions, directory listing errors, `sftp.stat` and exceptions outside the modelled steps. The remote directory is a map and the reads are an oracle (`ChunkCopy.Grant`).
- `sftp.get` is modelled by what it leaves behind: a prefix of the remote file, plus whether it raises. Its internal block sizes and its check against the bytes it transferred are not modelled.
- Concurrency. The file-level pool of five downloads runs the downloads one after the other (`Listing.DownloadAll`), so interleavings between files are not modelled. This includes two releases with the same stem that write the same part files at once (`Paths.PartNameCollisionExample` shows that the names collide). Chunk tasks are modelled as running in any completion order.
- `threading.Lock`, progress bars, logging, `SingleInstanceChecker`, `find_executable`, `sys.exit`, the `MOVELOCAL` switch, the creation of the staging directory and `run`: process setup and user interface.
- `mkvextract` and `mkvmerge`: the command lines, track numbers and flags are not modelled. Only the outcome (success, a non-zero exit, or a missing executable, which raises), the extracted text and the remuxed bytes are inputs (`Patch.ToolRun`). Extracted subtitles that are not valid UTF-8 are not modelled.
- Text encodings. The loaders' fallback through four encodings, and reading `replace.txt` as UTF-8, are not modelled. The three configuration files are taken as already-decoded lines. A `replace.txt` held as media stands for one that does not decode, and it raises.
- Text-mode writes use POSIX line ends: a written `\n` stays `\n`. On Windows it would become `\r\n`. Reads do translate `\r\n` and `\r` to `\n` (`Text.UniversalNewlines`).
- Chunking.ChunkWidth: uses exact integer ceiling division. The program's float division `math.ceil(size / n)` rounds differently for sizes beyond 2^53 bytes.
- Subtitles.WordSub: the word-character class behind `\b` is an abstract predicate, because Python's `\w` depends on the Unicode database. `re.escape` is modelled as matching the key literally. Backslash escapes in the replacement template are not processed.
- Episode.EpisodeOf: `\d` is ASCII digits only (Python also accepts other Unicode decimal digits). White space is `str.isspace` over the ASCII and common Unicode space characters.
- Loaders.ParseInt: accepts an optional sign and ASCII digits around white space. Underscores between digits and non-ASCII digits, which Python's `int` accepts, are not.
- Chunking.ChunkedPlanContiguous: proved for up to 1025 chunks, where the plan is known to be contiguous on the chunked path. With more chunks the trailing segments may start past the end of the file. That is harmless, and `Chunking.PlanCoversFile` holds for every chunk count.
- Transfer.Reassembly: when a part file is the output itself, what the output holds once the disk is full (`spill`) is an input. The model does not derive it from write buffering and free space. An empty `spill` stands for a self-copy that finds nothing on disk yet, which ends at once and then unlinks the open output.
- Paths: no normalisation of `pathlib` paths (absolute components, `..`, trailing slashes). Paths are joined with `/`. `shutil.move` onto an existing directory is not modelled.
- Placement.Logged: an `info.txt` that is held as media (not text) is modelled as starting a fresh text ledger. Appending to a binary file is not modelled.
- Placement.MoveOnePlaces: stated only for seasons without `replace.txt`. With one, the result is the patch specification applied after placing, as `Patch.PatchSucceedsIff` and its neighbours describe.
