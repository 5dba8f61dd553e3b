# Conversor TTS — a verified model of its core

Conversor TTS turns a long text (usually extracted from a PDF) into spoken
audio. The text is cleaned and split into pieces, and each piece is handed
to a speech engine with a bounded number of retries. The pieces' audio
files are then merged in order, and the merged file may be repackaged:
sped up, split into parts of at most 12 hours, and written as mp3 or mp4.
Around this pipeline sit string utilities: filename sanitisers, Roman
numeral decoding, and passes that repair spacing, paragraphs, punctuation,
page furniture, hyphenation and chapter headings.

This project models that core in Dafny and proves what each step promises.

- **Engine and tools.** The speech engine, ffmpeg and ffprobe are
  parameters: functions from the call number (or the command and the disk)
  to what the call does.
- **Disk.** The disk is a value, a map from paths to bytes, threaded
  through every step.
- **Cancellation.** The cancel and interrupt flags are functions from the
  number of the check to its answer.
- **Durations.** Durations are whole seconds, as the ffmpeg arguments
  truncate them with `int()`.
- **Regular expressions.** Each is a hand-written matcher that follows
  Python's backtracking order for that one pattern.

Modules:

- `Strings`: Python string built-ins (strip, split, join, replace, find,
  case mapping, `str(int)`, `int(str)`, `f"{i:03d}"`).
- `Config`: the constants.
- `FileSystem`: the disk, path helpers, and text-mode encoding.
- `Segmenter`: sentence splitting and fixed-width chunking.
- `Synthesis`: the per-text conversion with its size floor and retries.
- `Scheduler`: the per-chunk retry loop and the merge gate of the main
  converter.
- `Progress`: the progress file.
- `Merger`: `unificar_audio`.
- `LiteConverter`: the resumable loop of the lite converter.
- `Repackager`: speed, format, naming and the duration plan.
- `FileNames`: sanitisers, listing, and the `_formatado` rule.
- `Roman`: Roman-numeral decoding.
- `TextFormat`: `textFormat`.
- `TextParser`: spacing, paragraphs, punctuation, headers, and chapter
  renaming.
- `TextCleanup`: the inner passes of `melhorar_texto_corrigido` in
  `src/textParser.py`.

Much of the logic exists in three copies in the repository:

- `Conversor_TTS_com_MP4_09.04.2025.py`
- `src/audio.py`, `src/files_utils.py` and `src/textParser.py`
- `src/formatText.py` and `src/__init__.py`

Each shared operation is modelled once, and its other copies are cited
below. Where the copies of an operation differ, the difference is
modelled: `Synthesis.ConvertOnce` covers the single-attempt converter of
`src/audio.py`, and `Repackager.OutputBase` covers the underscore
collapse.

`melhorar_texto_corrigido` is not shared: the two functions of that name
run different passes.

- In `src/textParser.py` it removes page footers, joins hyphenated words,
  removes bibliography lines, renames chapters, punctuates paragraphs and
  expands abbreviations. `TextCleanup.ImprovedText` models that pipeline.
- In `Conversor_TTS_com_MP4_09.04.2025.py` it runs five passes: NFKC
  normalisation, `corrigir_espacamento_corrigir`,
  `ajustar_titulo_e_capitulos_corrigir`, `inserir_quebra_apos_ponto_corrigir`
  and `formatar_paragrafos_corrigir`. Its last four passes are modelled
  one by one in `TextParser`. `FileNames.VerifyAndFix` takes the
  improvement as a parameter, so it holds for either pipeline.

Behaviour of the code a reader may not expect:

- The main converter's `finally` clause removes every temp file, even
  after a failed run.
- The lite converter skips a part whose five attempts all fail, and still
  merges and returns True.
- The lite chunks are cut at a fixed width, in the middle of words, not at
  sentence ends.
- `standardize_chapters` falls back to the title, not to the chapter word.

## Model

| member | source | states |
|---|---|---|
| Segmenter.DivideText | Conversor_TTS_com_MP4_09.04.2025.py:1080-1094 | the while loop over `start` returns exactly `Sentences(text)`, the stripped slices ending at each '.' with the empty ones dropped |
| Segmenter.SegmentsCover | Conversor_TTS_com_MP4_09.04.2025.py:1086-1093 | the raw slices between consecutive periods, concatenated in order, give back the text from `start` on |
| Segmenter.SentencesShape | src/formatText.py:99-109 | every part holds a '.' only as its last character, and every part but the last ends with '.' |
| Segmenter.SentencesStripped | Conversor_TTS_com_MP4_09.04.2025.py:1089-1094 | every part is non-empty and equals its own strip |
| Segmenter.SentencesKeepText | Conversor_TTS_com_MP4_09.04.2025.py:1086-1094 | the parts hold exactly the text's non-whitespace characters in order, with none lost, duplicated or reordered |
| Segmenter.SentencesEmptyIff | Conversor_TTS_com_MP4_09.04.2025.py:1086-1094 | the result is empty if and only if the text is empty or all whitespace |
| Segmenter.ChunkSize | conversor_tts_lite.py:495 | the chunk size is a tenth of the length clamped to [2000, 5000], and always lies in that range |
| Segmenter.ChunksCover | conversor_tts_lite.py:496 | concatenating the chunks reproduces the text from the start index exactly |
| Segmenter.ChunksLengths | conversor_tts_lite.py:496 | every chunk but the last has exactly `size` characters; the last is non-empty and at most `size` |
| Segmenter.ChunksCount | conversor_tts_lite.py:496 | the number of chunks is the ceiling of the remaining length divided by `size` |
| Synthesis.ConvertTextToAudio | Conversor_TTS_com_MP4_09.04.2025.py:1096-1123 | the retry loop computes `Convert`: the result, the new disk and the number of engine calls |
| Synthesis.ConvertBlank | Conversor_TTS_com_MP4_09.04.2025.py:1101-1103 | whitespace-only text returns False with no engine call and the disk unchanged |
| Synthesis.ConvertBounded | Conversor_TTS_com_MP4_09.04.2025.py:1099 | at most `MaxAttempts` (3) engine calls, and no file but the output path changes |
| Synthesis.ConvertResult | Conversor_TTS_com_MP4_09.04.2025.py:1109-1120 | True only if the output exists and is larger than 1024 bytes; after a failure on non-blank text the output is gone |
| Synthesis.ConvertOkIff | Conversor_TTS_com_MP4_09.04.2025.py:1099-1123 | success if and only if the text is not blank and some remaining attempt returns a file larger than 1024 bytes after every earlier call raised |
| Synthesis.MainConverterHonest | Conversor_TTS_com_MP4_09.04.2025.py:1096-1123 | the converter keeps its promises for every text and disk: success means a large enough file, at most 3 calls, and only the output path changes |
| Synthesis.ConvertOnceSpec | src/audio.py:18-50 | blank text is refused untouched; success means a file larger than 1024 bytes; a too-small result is deleted; an engine exception propagates, leaving the output as the engine left it; only the output path changes |
| Scheduler.TempNameInjective | Conversor_TTS_com_MP4_09.04.2025.py:1302 | different chunk numbers get different `_temp_NNN.mp3` files |
| Scheduler.FinalNotTemp | Conversor_TTS_com_MP4_09.04.2025.py:1335 | the merged file is never one of the temp files |
| Scheduler.ProcessChunk | Conversor_TTS_com_MP4_09.04.2025.py:1297-1323 | the chunk's flag test and retry loop compute `Chunk`: the result and the new run state |
| Scheduler.Retry | Conversor_TTS_com_MP4_09.04.2025.py:1305-1323 | the retry loop computes `Attempts` from the first attempt: the flag read before each attempt, up to `MaxAttempts` converter calls, stopping at the first success |
| Scheduler.ChunkSpec | Conversor_TTS_com_MP4_09.04.2025.py:1299-1323 | a set flag gives None with nothing recorded; otherwise the temp file is appended; at most 3 converter calls (exactly 3 on failure); success leaves a temp file over 1024 bytes; no other file is touched |
| Scheduler.RunConversion | Conversor_TTS_com_MP4_09.04.2025.py:1293-1360 | the chunks in order, the gate, the merge and the clean-up compute `Run` |
| Scheduler.RunChunksTemps | Conversor_TTS_com_MP4_09.04.2025.py:1302-1303 | when every chunk succeeds, `temp_files` gains their temp files in index order |
| Scheduler.RunChunksAudio | Conversor_TTS_com_MP4_09.04.2025.py:1311-1316 | when every chunk succeeds, each of their temp files is larger than 1024 bytes after the last chunk |
| Scheduler.RunGate | Conversor_TTS_com_MP4_09.04.2025.py:1329-1360 | the run reports a merge if and only if every chunk succeeded, there was at least one chunk, the flag was clear at the gate and the merge succeeded; every temp file is gone afterwards |
| Scheduler.RunWithoutFfmpeg | Conversor_TTS_com_MP4_09.04.2025.py:1329-1340 | without ffmpeg the merged file holds the temp files of chunks 1 to n in index order, each over 1024 bytes, exactly when all chunks succeeded and the flag was clear |
| Progress.WriteProgress | Conversor_TTS_com_MP4_09.04.2025.py:462-465 | the progress file is rewritten with `str(index)` and no other file changes |
| Progress.ReadProgress | Conversor_TTS_com_MP4_09.04.2025.py:467-473 | the stored integer, or 0 when the file is missing, does not decode or does not parse |
| Progress.ReadAfterWrite | src/files_utils.py:51-63 | reading gives back the integer last written, for every integer |
| Progress.ReadAfterOtherWrite | conversor_tts_lite.py:197-208 | writing any other file does not change what the progress file reads |
| Progress.ReadFailure | conversor_tts_lite.py:202-208 | a missing, undecodable or unparsable progress file reads as 0 |
| Merger.MergeAudio | Conversor_TTS_com_MP4_09.04.2025.py:481-500 | the list-file/ffmpeg branch or the binary-copy branch computes `Merge`: the result and the new disk |
| Merger.MergeFallbackOrder | src/audio.py:338-343 | without ffmpeg the final file holds exactly the temp files' bytes in list order, nothing else changes, and the result is True |
| Merger.FallbackConcatenates | src/audio.py:339-342 | the copy loop appends each temp file's bytes to what the final file already holds, in list order |
| Merger.FallbackOkIff | src/audio.py:338-346 | the fallback returns True if and only if every temp file can be opened, and touches no file but the final one |
| Merger.MergeWithFfmpeg | src/audio.py:314-336 | through ffmpeg the result is ffmpeg's status; on success the list file is removed, on failure it stays; nothing else changes |
| FileSystem.RemovePaths | Conversor_TTS_com_MP4_09.04.2025.py:1357-1360 | the existence-guarded removal loop computes `RemoveAll` |
| LiteConverter.PartNameInjective | conversor_tts_lite.py:524 | different part numbers get different `.partNNN.mp3` files |
| LiteConverter.PartNameDistinct | conversor_tts_lite.py:501-524 | no part file is the output file or the progress file |
| LiteConverter.PartAttemptsCalls | conversor_tts_lite.py:519-539 | the attempts make at least one and at most the remaining engine calls, all for this part, pause after each failed call but the last, and read no flag |
| LiteConverter.PartAttemptsSaved | conversor_tts_lite.py:525-530 | the part is saved if and only if one remaining attempt's engine call returns; otherwise `temp_files` is unchanged |
| LiteConverter.PartAttemptsDisk | conversor_tts_lite.py:529 | after a saved part the progress file reads its number; only the part file and the progress file change |
| LiteConverter.FailedPartWaits | conversor_tts_lite.py:533-539 | a part whose five calls all raise is not saved, after pauses of 2, 4, 8 and 16 seconds |
| LiteConverter.AttemptPart | conversor_tts_lite.py:519-539 | the attempts loop computes `PartAttempts` |
| LiteConverter.RunLoop | conversor_tts_lite.py:510-539 | the loop over the parts computes `RunParts` |
| LiteConverter.StreamMerge | conversor_tts_lite.py:546-556 | the streaming merge computes `Stream` |
| LiteConverter.FinishRun | conversor_tts_lite.py:541-565 | the final flag test, the merge and the removal of the progress file compute `Finish` |
| LiteConverter.ProcessAudio | conversor_tts_lite.py:494-565 | the whole run computes `ProcessAudioResumed`, the corrected form of the loop (see Findings) |
| LiteConverter.ResumeSkipsEarlier | conversor_tts_lite.py:502-510 | every engine call is for a part numbered above the stored index and no higher than the number of parts |
| LiteConverter.InterruptKeepsPlace | conversor_tts_lite.py:511-512 | an interrupted loop leaves the progress file naming the part before the one it stopped at, which got no engine call |
| LiteConverter.InterruptedRunFails | conversor_tts_lite.py:511-515 | an interrupted run returns False |
| LiteConverter.LoopTemps | conversor_tts_lite.py:526 | `temp_files` ends as the seed followed by the saved parts' files, numbered above the stored index in increasing order |
| LiteConverter.LoopFrame | conversor_tts_lite.py:510-539 | the loop writes no file but the progress file and its own parts' files |
| LiteConverter.StreamContent | conversor_tts_lite.py:546-554 | with no file listed twice and the output not listed, the output holds the listed files that exist, in list order |
| LiteConverter.StreamFrame | conversor_tts_lite.py:547-555 | every listed file is removed, and no other file but the output changes |
| LiteConverter.MergeOutcome | conversor_tts_lite.py:546-559 | the merged output holds the existing listed files in order; every listed file and the progress file are gone |
| LiteConverter.EarlierKept | conversor_tts_lite.py:510 | the loop leaves the files of parts 1 to the stored index as they were |
| LiteConverter.ResumedRunMergesAll | conversor_tts_lite.py:502-565 | corrected: a resumed, uninterrupted, unified run returns True and merges the earlier parts' files, then the newly saved ones, in increasing part order, removing all of them and the progress file |
| LiteConverter.AsWrittenResumeDropsEarlier | conversor_tts_lite.py:507-559 | as written: a resumed run merges only the parts it saved itself, and leaves part 1's file from the earlier run neither merged nor removed |
| Repackager.ParseFormatName | Converter_MP3_para_MP4.py:126-128 | "mp3" and "mp4" are read as their formats |
| Repackager.AskSpeed | Converter_MP3_para_MP4.py:116-123 | the returned speed is the first answer that parses and lies in [0.5, 2.0]; every earlier answer was rejected; with no such answer every answer was read |
| Repackager.AskFormat | Converter_MP3_para_MP4.py:125-130 | the returned format is the first answer that strips and lower-cases to "mp3" or "mp4"; every earlier answer was rejected |
| Repackager.CollapseUnderscoresSpec | src/audio.py:255-257 | collapsing leaves no two adjacent underscores, keeps every other character in order and adds nothing |
| Repackager.CollapseUnderscoresIdempotent | src/audio.py:255-257 | collapsing twice is collapsing once |
| Repackager.OutputBaseShape | Converter_MP3_para_MP4.py:80 | the output base holds no '.', and once collapsed it holds no double underscore |
| Repackager.PartCountIsCeiling | Converter_MP3_para_MP4.py:53 | the part count is the ceiling of total / max: its parts hold the total and one fewer would not |
| Repackager.PlanBounds | Converter_MP3_para_MP4.py:54-58 | part i starts at i*max, lasts between 1 second and max, and is named `_parte{i+1}` |
| Repackager.PlanContiguous | src/audio.py:115-120 | the first part starts at 0, each part ends where the next begins, and the last ends at the total |
| Repackager.PlanSumsToTotal | Conversor_TTS_com_MP4_09.04.2025.py:824-827 | the part durations add up to the total |
| Repackager.LongFileHasParts | Converter_MP3_para_MP4.py:101-109 | a duration over the maximum is cut into at least two parts |
| Repackager.PartNamesDistinct | Conversor_TTS_com_MP4_09.04.2025.py:829 | different parts get different names |
| Repackager.PartNameNotTemp | Converter_MP3_para_MP4.py:81-104 | no part name is the temporary audio or the full video |
| Repackager.SplitIntoParts | Converter_MP3_para_MP4.py:52-70 | the loop issues one cut per planned part, in order, stopping at the first ffmpeg failure |
| Repackager.RunCutsWrites | src/audio.py:116-135 | cutting writes only the parts' paths, and on success every part is on disk |
| Repackager.IgnoredIff | Converter_MP3_para_MP4.py:73-78 | a file is ignored if and only if its lower-cased extension is unsupported, and then the disk is unchanged |
| Repackager.KeepWholeOneOutput | Converter_MP3_para_MP4.py:92-100 | within 43200 s there is exactly one output, base plus the format's extension; the temp audio is gone, and an mp3 output holds the sped-up audio |
| Repackager.CutIntoPartsOutputs | Converter_MP3_para_MP4.py:101-111 | over 43200 s the outputs are the ceil(duration/43200) parts, all on disk, and neither the temp audio nor the full video remains |
| Repackager.PackageRemovesTemp | src/audio.py:273-299 | on either branch a finished run leaves its outputs on disk and the temp audio removed |
| Repackager.RepackageFile | Converter_MP3_para_MP4.py:72-111 | the step-by-step processing of one file computes `Repackage` |
| Repackager.KeepWholeFile | Converter_MP3_para_MP4.py:92-100 | the within-limit steps compute `KeepWhole` |
| Repackager.CutIntoPartsFile | Converter_MP3_para_MP4.py:101-111 | the over-limit steps compute `CutIntoParts` |
| FileNames.CleanNameIsClean | Conversor_TTS_com_MP4_09.04.2025.py:475-479 | no character of `<>:"/\|?*` and no space remains; every character is '_' or comes from the name |
| FileNames.CleanNameFixedIff | src/files_utils.py:66-70 | a name is unchanged if and only if it is already clean |
| FileNames.CleanNameIdempotent | src/files_utils.py:66-70 | cleaning twice is cleaning once |
| FileNames.CleanNameLite | conversor_tts_lite.py:215-218 | the replacement loop computes `LiteCleanName` |
| FileNames.LiteCleanNameSpec | conversor_tts_lite.py:210-218 | no replaced character remains, the ends are not whitespace, nothing is added, and a clean name survives whole |
| FileNames.LiteCleanNamePlaces | conversor_tts_lite.py:210-218 | the result is the name with its leading and trailing whitespace cut, every other character in its place and each forbidden one turned into '-' |
| FileNames.LiteCleanNameIdempotent | conversor_tts_lite.py:210-218 | the lite cleaning is idempotent |
| FileNames.ListFiles | src/files_utils.py:10-22 | the result is sorted and holds exactly the listed regular files whose lower-cased extension passes the filter (all of them for an empty filter); a failing listing gives [] |
| FileNames.SelectedMembers | src/files_utils.py:14-18 | a name is selected if and only if it is listed, is a regular file and passes the filter |
| FileNames.VerifyAndFixOutcome | src/files_utils.py:25-48 | a `_formatado` stem is returned as is; otherwise the result is the original path with the disk untouched (read or write failed), or `base + "_formatado" + ext` holding the improved text as the only file written |
| FileNames.VerifyAndFixSettles | Conversor_TTS_com_MP4_09.04.2025.py:754-779 | running the rule again on its own result and disk changes neither |
| Roman.RomanToDecimal | conversor_tts_lite.py:223-234 | the right-to-left loop with `decimal` and `prev_value` computes `RomanValue` |
| Roman.DecodesStandardNumerals | conversor_tts_lite.py:230-233 | for every n, decoding the standard numeral of n, in upper or lower case, gives n |
| TextFormat.CleanTextSpec | src/formatText.py:62-65 | the cleaned text has no control character, no whitespace but single plain spaces, and the same visible characters |
| TextFormat.CleanTextLayout | src/formatText.py:62-65 | a run of whitespace between two visible characters becomes exactly one space, and the text on each side is cleaned on its own |
| TextFormat.CleanTextDropsControl | src/formatText.py:62 | a control character is removed wherever it stands, and nothing else changes |
| Strings.CollapseLayout | src/formatText.py:65 | `\s+` to one space: a whitespace run between non-whitespace characters becomes one space |
| TextFormat.CleanTextIdempotent | src/formatText.py:62-65 | cleaning twice is cleaning once |
| TextFormat.DropControlFixedIff | src/formatText.py:62 | removing control characters changes a text if and only if it has one |
| TextFormat.NormalizeText | src/formatText.py:27-36 | the line loop computes the "\n" join of the normalised lines |
| TextFormat.NormalizeLineSpec | src/formatText.py:31-35 | a line changes only in letter case, only when it is all upper case with a stripped length over 3, and is then no longer all upper case if it has a second letter |
| TextFormat.NormalizeLineIdempotent | src/__init__.py:26-30 | normalising a line twice is normalising it once |
| TextFormat.OrdinalHeadingKept | src/formatText.py:32 | "2º CAPÍTULO" is not all upper case, since º is a lower-case letter, and is kept |
| TextFormat.NormalizeTextLines | src/__init__.py:22-31 | the text keeps its number of lines (last line non-empty), each normalised in place |
| TextFormat.SplitLinesOfJoin | src/formatText.py:28 | splitting a "\n" join of break-free lines gives the lines back, unless the last is empty |
| TextFormat.SeparateChapterSpec | src/formatText.py:38-39 | exactly two characters per chapter mark are added, and they are newlines |
| TextFormat.SeparateChapterLayout | src/formatText.py:38-39 | the first chapter mark gets "\n\n" right before it; the text before it and the mark are kept, and the rest is processed on its own |
| TextFormat.SeparateNoMarks | src/formatText.py:39 | a text without chapter marks is unchanged |
| TextFormat.StandardizeNoHeadings | src/__init__.py:17-18 | a text without the word "capítulo" in any case is unchanged |
| TextFormat.HeadingAtLine | src/formatText.py:20-22 | the pattern reads a heading line back into its chapter and its title, up to the end of the line |
| TextFormat.StandardizeHeadingLine | src/formatText.py:14-23 | a heading line is rewritten as "CAPÍTULO {number}: {title.title()}" |
| TextFormat.KnownChapterWord | src/formatText.py:15-18 | a known chapter word becomes its number: "CAPÍTULO umi: o começo" reads "CAPÍTULO 2: O Começo" |
| TextFormat.NumberedHeadingAsWritten | src/formatText.py:17 | as written: "CAPÍTULO 1: Introdução" becomes "CAPÍTULO Introdução: Introdução" |
| TextFormat.NumberedHeadingKept | src/__init__.py:14 | corrected: a numbered heading keeps its number, and a standard heading is a fixed point |
| TextParser.CorrectSpacingSpec | src/textParser.py:14-19 | no two adjacent whitespace characters, none at either end, only plain spaces, and the same visible characters |
| TextParser.CorrectSpacingIdempotent | src/textParser.py:17-18 | correcting twice is correcting once |
| TextParser.BreakSpec | src/textParser.py:80 | each period followed by whitespace is followed by exactly "\n\n", and the visible characters are kept |
| TextParser.InsertBreaksLayout | src/textParser.py:80 | a period and the whitespace run after it become ".\n\n", and the text on each side is processed on its own |
| TextParser.BreakAppend | src/textParser.py:80 | a text cut before a visible character is processed piece by piece |
| TextParser.InsertBreaksFixedIff | src/textParser.py:77-81 | a text is unchanged if and only if every period followed by whitespace is already followed by exactly "\n\n" |
| TextParser.InsertBreaksIdempotent | src/textParser.py:77-81 | inserting the breaks twice is inserting them once |
| TextParser.SplitJoin | src/textParser.py:87-88 | splitting a "\n\n" join of pieces on "\n\n" gives the pieces back |
| TextParser.FormattedParagraphs | src/textParser.py:84-88 | the result splits into exactly the kept paragraphs: each stripped and non-empty, one blank line between two |
| TextParser.FormatParagraphsIdempotent | Conversor_TTS_com_MP4_09.04.2025.py:733-737 | formatting twice is formatting once |
| TextParser.PunctuateParagraphs | src/textParser.py:173-181 | the paragraph loop computes the "\n\n" join of the punctuated paragraphs |
| TextParser.PunctuateParagraphSpec | src/textParser.py:177-179 | a paragraph is stripped, and gets a '.' if and only if it is non-empty without a final mark; it is then empty or ends in `.!?…` |
| TextParser.PunctuateKeepsParagraphs | src/textParser.py:174-181 | the paragraph count is kept, and every paragraph is empty or ends in `.!?…` |
| TextParser.ConvertChapterNumerals | src/textParser.py:169-171 | the replacement loop computes `RenameChapters` |
| TextParser.RenamedHeadings | src/textParser.py:157-170 | applied in order, "CAPÍTULO II" becomes "CAPÍTULO UMI", "CAPÍTULO IV" becomes "CAPÍTULO UMV", and so on for I to X |
| TextParser.FourthChapterReadsSix | src/configs/__init__.py:2 | as written: "CAPÍTULO IV: O fim", renamed and standardised, reads "CAPÍTULO 6: O Fim" |
| TextParser.RenamedNumeralsReadBack | src/textParser.py:158-167 | corrected: with the corrected table, every renamed heading from 1 to 10 reads back its own number |
| TextParser.CorrectedTableReadsRenamed | src/configs/__init__.py:1-5 | the corrected table maps every renamed numeral to its number |
| TextParser.FindAuthorSpec | src/textParser.py:28-31 | the lazy title is the shortest one after which the rest of the pattern matches, and there is no match only when no title length works |
| TextParser.AuthorShape | src/textParser.py:29 | the author found is two capitalised ASCII words separated by whitespace, with whitespace on both sides |
| TextParser.TitleAuthorShape | src/textParser.py:28-35 | a match has the author's shape, and no shorter title lets the pattern match |
| TextParser.TitleAuthorLines | src/textParser.py:33-40 | the title and author lines end with `.`, `!` or `?`, and the author line is the author as found |
| TextParser.SplitHeader | src/textParser.py:42-55 | the line loop gives the first two non-blank lines stripped as header, and every line after the second non-blank one as body |
| TextParser.AdjustTitleAndAuthor | src/textParser.py:22-72 | the method computes `AdjustTitle` |
| TextParser.FallbackHeader | src/textParser.py:42-72 | with at least two non-blank lines, they are the header, stripped, each ending in `.`, `!` or `?` |
| TextParser.FallbackSingleLine | src/textParser.py:56-68 | with a single non-blank line, the header is that line or its title and author, and every header line ends in `.`, `!` or `?` |
| TextCleanup.NameThenStampFound | src/textParser.py:145 | the lazy file name stops at the first `.indd` on the same line after which the date stamp follows |
| TextCleanup.NameThenStampMissing | src/textParser.py:145 | when it fails, no `.indd` followed by a stamp is on the same line |
| TextCleanup.RemovePageFootersNoMarker | src/textParser.py:143-148 | text without `cda_pr_` is unchanged |
| TextCleanup.RemovesPageFooter | src/textParser.py:143-148 | a footer at the start (whitespace, the page number, whitespace, `cda_pr_`, a file name on one line holding no `.indd`, `.indd`, then the page count, date and time) is removed whole, and the rest is processed on its own |
| TextCleanup.PageFooterIn | src/textParser.py:145 | such a footer is matched from the start of the text exactly up to the end of its stamp, whatever follows it |
| TextCleanup.FooterRemoved | src/textParser.py:143-148 | a footer matched at the start is dropped and the substitution goes on right after it |
| TextCleanup.NameThenStampAt | src/textParser.py:145 | the lazy file name ends at a `.indd` followed by a stamp when no line break and no earlier `.indd` come before it |
| TextCleanup.FileNameStartPrefix | src/textParser.py:145 | where the file name starts depends only on the text up to there |
| TextCleanup.MatchStepsPrefix | src/textParser.py:145 | greedy steps that end before the end of a text match the same way whatever is appended |
| TextCleanup.MatchStepsIn | src/textParser.py:145 | a pattern that ends on one character matches inside a longer text as it does alone |
| TextCleanup.DehyphenateKeepsLetters | src/textParser.py:150-151 | hyphenation repair only removes hyphens and whitespace: every other character stays, in order |
| TextCleanup.DehyphenateNoHyphen | src/textParser.py:151 | text without hyphens is unchanged |
| TextCleanup.JoinsBrokenWord | src/textParser.py:151 | a word broken by a hyphen at a line end is joined again, and the rest is repaired on its own |
| TextCleanup.RemoveBibliographyNoMarker | src/textParser.py:153-154 | text without `cda_pr_` is unchanged |
| TextCleanup.RemovesBibliographyLine | src/textParser.py:154 | a line naming a layout file is removed up to its line break, and the line break stays |
| TextCleanup.AbbreviationsWellFormed | src/textParser.py:92-133 | the table has 40 entries, each a word character first and a period last |
| TextCleanup.ExpandAbbreviations | src/textParser.py:134-136 | the loop over the table computes `ExpandAll` of the whole table |
| TextCleanup.ExpandedOnlyBeforeSpace | src/textParser.py:93 | an abbreviation followed by a character is expanded if and only if that character is whitespace; at the end of the text it stays |
| TextCleanup.NotExpandedInsideWord | src/textParser.py:93 | an abbreviation that ends a longer word is not expanded |
| TextCleanup.ExpandFromNoMatch | src/textParser.py:135 | with no occurrence followed by whitespace, nothing changes |
| TextCleanup.ExpandAllNoPeriod | src/textParser.py:91-136 | a text without a period is unchanged by the expansion |
| TextCleanup.ImproveText | src/textParser.py:139-189 | the passes in order compute `ImprovedText` |
| TextCleanup.PipelineWithoutMarkup | src/textParser.py:183-188 | a text without form feeds, hyphens, underscores or "CAPÍTULO" is only punctuated and then expanded |
| TextCleanup.ExpansionUndoesFinalStop | src/textParser.py:187-188 | expansion after punctuation drops a paragraph's final stop: "etc.\n\nFim" becomes "etcétera\n\nFim." |

## Left out

- The speech engine, ffmpeg and ffprobe are parameters. Their output
  formats, and the `-ss`/`-t` and `atempo` arguments, are only passed
  along.
- Network access and `shutil.which` are parameters too.
- The asyncio concurrency is modelled as a sequential loop in chunk index
  order. This covers the semaphore of 5 and `asyncio.gather`. An order in
  which a later chunk appends to `temp_files` before an earlier one is
  not represented.
- SIGINT handlers and `tratar_interrupcao` are left out. The interrupt is
  a flag parameter, and what the handler does with the parts is not
  modelled.
- Pauses (`asyncio.sleep`) are recorded as a list of durations, not taken.
- Clocks, progress bars and printing are left out.
- Dependency installers, OS detection, Poppler, self-update, PDF
  extraction, encoding detection, menus, banners, file pickers, help and
  voice testing are left out: they are I/O and UI around the core.
- num2words, langdetect and NFKC normalisation are left out: their results
  come from libraries that are not part of this model.
  - This drops the number and money expansions of `processar_texto` and
    `otimizar_texto_tts`, and `validar_texto_pt_br`.
  - `processar_texto`'s own `\b...\.\b` abbreviation table is also dropped.
    It is a different table from `expandir_abreviacoes`.
- The `(?i)\bcapítulo\s*\d+\b` substitution at the end of
  `ajustar_titulo_e_capitulos_corrigir` is left out. Its replacement
  happens after the header logic, which the model covers.
- `index_gen` and `apply_format` are left out. `index_gen` iterates over
  the pattern object instead of the text, so it is not a meaningful
  operation.
- Float values and their printed form are left out.
  - The speed is a real number, and its `str()` is a parameter of the
    output name.
  - The ffprobe duration is a natural number of seconds.
- Strings.ToUpperChar: case mapping covers ASCII, the Latin-1 letters
  (ª, º and µ included) and the Greek mu. `str.isupper`, `capitalize`
  and `title` on other letters are not modelled.
- Strings.ToUpperChar: 'ß' is kept as it is. Python upper-cases it to the
  two letters "SS" and title-cases it to "Ss", which changes the length.
- TextCleanup.IsWordChar: `\w` is modelled on Latin-1 characters only.
- Strings.IsDigit: `\d` is modelled on the ASCII digits. Python's `\d`
  is `str.isdecimal`, which also takes the decimal digits of other
  scripts. `\s` is `str.isspace` over all of Unicode, as Python has it.
- StreamMerge: an I/O error while writing the output or removing a part
  file is not modelled. The lite converter catches every exception
  around its merge, so such an error would leave some parts merged or
  removed, and the run still returns True. The disk here cannot fail a
  write.
- Merger.Fallback: an I/O error other than a missing temp file is not
  modelled, for the same reason.
- FileSystem.AsciiText: reading a file back in text mode decodes ASCII
  only. A non-ASCII progress file reads as a decoding failure, which
  `ler_progresso` turns into 0.
- `os.path` is modelled only as far as the names used here need it.
  Symbolic links, `abspath` (a parameter) and Windows separators are left
  out.
- The five-pass `melhorar_texto_corrigido` of
  `Conversor_TTS_com_MP4_09.04.2025.py` is not composed into one function.
  Only its separate passes are modelled, because its first pass is NFKC
  normalisation, which is left out above.
- TextFormat.CapituloAt, TextFormat.IsChapterChar: the case-insensitive
  pattern is modelled with ASCII case pairs and 'Í'/'í'. Under
  `re.IGNORECASE`, Python also matches four more characters: 'İ'
  (U+0130) and 'ı' (U+0131) as `I`, 'ſ' (U+017F) as `S` and the Kelvin
  sign (U+212A) as `K`. A text such as "CAPıTULO 1: X" is a heading to
  `src/formatText.py` but not to the model.
- TextFormat.NormalizeTextLines: the line count is stated for texts whose
  last line is not empty. Python's `splitlines` drops a final empty line,
  so a text ending in a newline loses it.

## Findings

| source | as written | input that shows it | evidently intended | confidence | as-written member | corrected member |
|---|---|---|---|---|---|---|
| conversor_tts_lite.py:507 | a resumed run starts `temp_files` empty, then merges it into the output opened with `'wb'` | a run interrupted after part 1 and then resumed: the merged file lacks part 1, whose file is left on disk | the merge takes in the parts saved by the earlier run too | not executed | LiteConverter.AsWrittenResumeDropsEarlier | LiteConverter.ResumedRunMergesAll |
| src/formatText.py:17 | `manual_converser.get(chapter, title)` falls back to the title | "CAPÍTULO 1: Introdução" becomes "CAPÍTULO Introdução: Introdução" | an unknown chapter word is kept as the number | not executed | TextFormat.NumberedHeadingAsWritten | TextFormat.NumberedHeadingKept |
| src/configs/__init__.py:2 | 'UMV' maps to 6 | "CAPÍTULO IV: O fim", renamed to "CAPÍTULO UMV" by the sequential replacements, reads as chapter 6 | 'UMV' (the renamed IV) maps to 4 | not executed | TextParser.FourthChapterReadsSix | TextParser.RenamedNumeralsReadBack |
