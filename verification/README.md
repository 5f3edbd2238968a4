# Verified models of the Tegra flashing tools

This project models five Python tools that prepare and flash images for a Tegra board, and proves what
they promise of their data:

- **`BUP_generator.py`**, the writer, inspector, checker and extractor of bootloader update blobs. The
  writer makes two passes over one file: a draft with empty sizes and entries, then two patches. The
  model keeps the file as an object with contents and a position (`BupWriter.BlobFile`) and the payload
  as an object whose fields the methods update (`BupWriter.Payload`). The finished blob is proved equal to
  a one-pass description; its layout, the frame of both patches and the round trip through the inspector,
  the checker and the extractor are proved about that description (`BupParse`, `BupLayout`, `BupReader`,
  `BupCheck`, `BupExtract`).
- **`tegraflash_internal.py`, BPMP device-tree trimming**, a source-to-source transformation on lines.
  `DtbDetect` relates the brace-counting loop to bracket matching character by character, `DtbTrimmer` is
  the code, `DtbTrimProof` and `DtbTrimResult` prove by simulation that the filtered text is well-formed
  and holds exactly the selected tables, `DtbStrap` treats the substring substitution on the strap line,
  and `DtbTrimTheorem` puts it together, including that trimming twice is trimming once; `DtbExample` has
  a text that meets its assumptions, and texts on which the trimmer goes wrong.
- **`tegrasign_v3_internal.py` and `tegrasign_v3_util.py`**, the signer: windows and splicing
  (`SignWindow`), the self-describing argument frames of six functions (`SignFrames`), AES key files
  (`AesKey`), little-endian integers (`Bytes`).
- **`tegraflash_internal.py`, smaller cores**: RAM dumps split at 4 GB (`RamDump`), the search for an unused
  temporary name (`TempName`) and the one-shot `--skipuid` flag over whole sessions (`SkipUid`).
- **`nvptparser.py`**: numbering and rotation of partitions (`PartTable`).

`Options` and `Text` hold the optional value and Python's string operations. A loop or an object that the
tools update is a method or a class here, proved against a function; the properties are lemmas about that
function. `None` stands for a Python exception, an error return or `sys.exit`. `exit_routine` is taken to
end the run, as it does when the signer is started as a program. File contents, the foreign cipher, text
decoding and `int(text, base)` are parameters.

Where the code does less than it seems to promise, a lemma gives the exact condition or an input that
shows it:

- Table detection is bracket matching exactly when no line directly inside a table closes it and opens
  another node (`DtbDetect.DetectionIsBracketMatching`, `DtbDetect.ReopenIsMissed`).
- The closed interval of the line filter also drops the line behind a dropped table
  (`DtbTrimmer.FilterExact`). When that is the line closing the root, the result is not balanced
  (`DtbExample.RootCloseIsLost`); the exact condition is `DtbTrimResult.TrimmedWellFormedExact`, and for the
  last dropped table it comes down to the braces on that one line (`DtbTrimResult.LastLostDecides`).
- The strap rewrite substitutes inside longer ids: with `0xa` unselected, the selected `0xa1` becomes `0x01`
  (`DtbStrap.PartOfIdBreaks`). On a line without a `0x0` outside the angle brackets, and for ids that do not
  hold `0x0` and more, it is the masking exactly when no substituted id occurs outside the brackets, nor is part
  of the selected id, of an id that first appears behind it, or of a `0x0` written before
  (`DtbStrap.StrapRewriteExact`).
- The flags of the tables stand in one list. Every table is decided on by a flag of its own exactly
  when every table but the last has one phandle line, and the last one or more (`DtbTrimTheorem.FlagsAlign`,
  `DtbExample.FlagsShift`); with too few flags the text is cut off, and compiled all the same
  (`DtbTrimmer.FilterStops`).
- A second trim has nothing to work on when no table was selected (`DtbTrimTheorem.TrimTwice`).
- The three window normalisations differ for a negative offset without a length (`SignWindow.WindowsAgree`),
  and a skipped encryption repeats the bytes behind the last whole block (`SignWindow.SkipIsIdentity`).
- A size table is right exactly when every name is ASCII and every size is below 2^32: a buffer of 4 GB gets
  the size 0 (`SignFrames.TableExact`, `SignFrames.LargeBufferWraps`). A reader of the frame always notices
  (`SignFrames.DecodeFrame`).
- Extraction keeps all images exactly when entries that share a file name have equal images
  (`BupExtract.AllSurvive`).
- A raw key is accepted as it is exactly when it has no byte 0x30 (`AesKey.RawKey`).
- `--skipuid` is sent at most once for every time it is given, on the command line or to flash, secureflash or
  export (`SkipUid.AtMostOnce`, `SkipUid.GivenTwiceSendsTwice`), but for two cases: fuse commands never clear
  it, and a command that fails right after its boot request leaves it set, even in a batch run
  (`SkipUid.SentMoreThanOnce`, `SkipUid.FailedReadSendsTwice`, `SkipUid.FuseCommandsSendTwice`).

## Model

| member | source | states |
|---|---|---|
| `BupParse.SplitEntryList` | Linux_for_Tegra/bootloader/BUP_generator.py:257-263 | the argument is cut at semicolons, stripped and cut at blanks; there is always at least one tuple |
| `BupParse.StripWhiteIs` | Linux_for_Tegra/bootloader/BUP_generator.py:261 | strip takes blanks, tabs and line breaks away at both ends, and nothing else |
| `BupParse.FieldsExact` | Linux_for_Tegra/bootloader/BUP_generator.py:257-263 | the result is the only list of fields that, joined by blanks and semicolons again, gives the argument |
| `BupParse.ParseEntryList` | Linux_for_Tegra/bootloader/BUP_generator.py:324-362 | the entries up to the first tuple that has not five fields and the tuples from there on unparsed, or the exit on a field that is too long; names have at most 36 and specs at most 64 bytes |
| `BupParse.TuplesParsed` | Linux_for_Tegra/bootloader/BUP_generator.py:327-362 | every tuple becomes an entry exactly when all have five fields, a name of at most 36 and a spec of at most 64 bytes |
| `BupParse.ArgumentRoundTrip` | Linux_for_Tegra/bootloader/BUP_generator.py:257-263 | every list of plain tuples, rendered with any padding, is split back into its fields |
| `BupWriter.OverwriteIs` | Linux_for_Tegra/bootloader/BUP_generator.py:283-288 | writing at a position replaces the bytes there and no others |
| `BupWriter.Payload.FillHeader` | Linux_for_Tegra/bootloader/BUP_generator.py:265-281 | writes a 40-byte header with both sizes zero and the accessory, and remembers the header size |
| `BupWriter.Payload.FillEntry` | Linux_for_Tegra/bootloader/BUP_generator.py:290-293 | appends one placeholder per entry |
| `BupWriter.EmptyEntryIs` | Linux_for_Tegra/bootloader/BUP_generator.py:290-293 | a placeholder is 120 or 52 zero bytes |
| `BupWriter.Payload.FillImage` | Linux_for_Tegra/bootloader/BUP_generator.py:295-310 | appends every image in order, records where each went, and takes the end as the blob size |
| `BupWriter.Payload.UpdateBlobSize` | Linux_for_Tegra/bootloader/BUP_generator.py:283-288 | replaces both size fields of the header |
| `BupWriter.Payload.UpdateEntry` | Linux_for_Tegra/bootloader/BUP_generator.py:364-377 | replaces the placeholders behind the header by the packed entries, for update and bmp payloads |
| `BupWriter.PatchSizes` | Linux_for_Tegra/bootloader/BUP_generator.py:283-288 | after the size patch bytes 20-23 and 36-39 hold the size and every other part of the file is as before |
| `BupWriter.GenerateBup` | Linux_for_Tegra/bootloader/BUP_generator.py:176-183 | two passes over one file give the blob that one pass with all sizes known in advance would write |
| `BupWriter.PatchDraft` | Linux_for_Tegra/bootloader/BUP_generator.py:176-183 | patching the draft of the first pass gives the one-pass blob |
| `BupLayout.PatchesAreFramed` | Linux_for_Tegra/bootloader/BUP_generator.py:283-288 | the two patches keep the length and change only bytes 20-23, 36-39 and the entry table, for 120- and 52-byte entries |
| `BupLayout.HeaderIs` | Linux_for_Tegra/bootloader/BUP_generator.py:228-288 | the header of every finished blob byte range by byte range: magic text, version fields, both sizes, header size, number of entries, and type 0 or 1 |
| `BupLayout.Tiling` | Linux_for_Tegra/bootloader/BUP_generator.py:236-310 | header, accessory, table and images tile the blob without gap or overlap; both size fields hold the real length |
| `BupLayout.PlacementTiles` | Linux_for_Tegra/bootloader/BUP_generator.py:295-310 | each image starts where the previous one ended, the first behind the table, the last ends the file |
| `BupLayout.ImageInBlob` | Linux_for_Tegra/bootloader/BUP_generator.py:295-310 | the window recorded for an entry holds exactly its image |
| `BupLayout.EntryInBlob` | Linux_for_Tegra/bootloader/BUP_generator.py:364-377 | the i-th record of the table is the packed i-th entry with its image's place |
| `BupLayout.BmpReadsBack` | Linux_for_Tegra/bootloader/BUP_generator.py:422-433 | record i of every bmp blob reads back as type, offset, length and resolution, 36 zeros behind; the window it names is the image |
| `BupReader.InspectUpdatePayload.Load` | Linux_for_Tegra/bootloader/BUP_generator.py:437-479 | succeeds exactly where no unpack raises, and then holds the parsed header, accessory and as many entries as the header counts, up to the limit |
| `BupWriter.ReadAtIs` | Linux_for_Tegra/bootloader/BUP_generator.py:447-503 | reading gives the bytes from the position on, fewer at the end of the file |
| `BupReader.InspectUpdatePayload.GenerateEntryList` | Linux_for_Tegra/bootloader/BUP_generator.py:487-503 | reads consecutive 120-byte records; those cut short by the end of the file stay unparsed |
| `BupReader.ParsePacked` | Linux_for_Tegra/bootloader/BUP_generator.py:375-376 | unpacking a packed entry gives its fields, the strings with their padding |
| `BupReader.ParsePackedHeader` | Linux_for_Tegra/bootloader/BUP_generator.py:447-460 | unpacking a packed header gives its fields, also when the two sizes differ |
| `BupReader.RoundTrip` | Linux_for_Tegra/bootloader/BUP_generator.py:447-503 | the inspector reads back every written blob that has an entry or an accessory of 8 bytes or none: sizes, accessory, and all entries in order, as many as there are, up to the limit |
| `BupReader.EntryRoundTrip` | Linux_for_Tegra/bootloader/BUP_generator.py:662-667 | versions, modes, names and specs come back, the name with zeros behind it in its 40 bytes, and part_size bytes at offset are the image; names unchanged exactly when they have no outer blanks |
| `Bytes.StripIs` | Linux_for_Tegra/bootloader/BUP_generator.py:635-637 | strip takes blanks, tabs, line feeds and zero bytes away at both ends, and nothing else |
| `BupParse.ArgumentReadsBack` | Linux_for_Tegra/bootloader/BUP_generator.py:167-184 | whatever argument parses, the blob written for it is inspected without exception for every accessory, and shows every tuple up to the limit: its name, numbers (0 where there is none), spec (none for "common") and file contents |
| `BupCheck.AppendNew` | Linux_for_Tegra/bootloader/BUP_generator.py:577-586 | the hand-written search appends a name exactly when it is not yet in the list |
| `BupCheck.FirstSeenIs` | Linux_for_Tegra/bootloader/BUP_generator.py:568-597 | the collected lists have no duplicates, the same elements, and the order of first appearance |
| `BupCheck.CheckPart` | Linux_for_Tegra/bootloader/BUP_generator.py:601-615 | search-and-remove reports exactly the specs that the part lacks |
| `BupCheck.RemovalIsLocal` | Linux_for_Tegra/bootloader/BUP_generator.py:607-612 | deleting a matched entry changes no later answer |
| `BupCheck.CheckEntryTable` | Linux_for_Tegra/bootloader/BUP_generator.py:563-620 | raises exactly on unparsed slots, and otherwise prints exactly the missing pairs in order |
| `BupCheck.CheckMeaning` | Linux_for_Tegra/bootloader/BUP_generator.py:599-620 | the check succeeds exactly when every part with a spec has an entry for every spec of the table |
| `BupCheck.MissingIs` | Linux_for_Tegra/bootloader/BUP_generator.py:599-620 | a part and a spec are reported exactly when both occur with a spec and no entry has both; each once, in the order of first appearance of the part, then of the spec |
| `BupExtract.ExtractBinaries` | Linux_for_Tegra/bootloader/BUP_generator.py:622-685 | each file holds the window of the last selected entry saved under its name, other files stay, missing names are the requested ones no entry has |
| `BupExtract.OutNameIs` | Linux_for_Tegra/bootloader/BUP_generator.py:639-656 | the file name is part name, _dev or _prod for modes 1 and 2, and the spec unless empty or "common", joined by underscores, and .raw.bin; modes above 2 raise |
| `BupExtract.SelectedIs` | Linux_for_Tegra/bootloader/BUP_generator.py:623-653 | an argument selects the parts named between its semicolons, outer blanks aside, and every part if it names "all" |
| `BupExtract.TwoSelected` | Linux_for_Tegra/bootloader/BUP_generator.py:623-653 | "a; b" selects the parts a and b |
| `BupExtract.ExtractionRoundTrip` | Linux_for_Tegra/bootloader/BUP_generator.py:634-667 | writing, inspecting and extracting gives the source images back |
| `BupExtract.AllSurvive` | Linux_for_Tegra/bootloader/BUP_generator.py:634-667 | all selected images are found under their names exactly when entries that share a name have equal images |
| `DtbDetect.SaveTablePos` | Linux_for_Tegra/bootloader/tegraflash_internal.py:3603-3640 | the loop computes the scan; no result when starts and ends do not pair up |
| `DtbDetect.MarkerIs` | Linux_for_Tegra/bootloader/tegraflash_internal.py:3620 | a table starts on a line that holds external-memory- |
| `DtbDetect.CountIsDepth` | Linux_for_Tegra/bootloader/tegraflash_internal.py:3606-3633 | at every line count is the nesting depth minus one, and starts minus ends is 0 or 1 |
| `DtbDetect.DetectionIsBracketMatching` | Linux_for_Tegra/bootloader/tegraflash_internal.py:3608-3640 | the intervals are all tables, ordered, disjoint, each ending one past its matching brace, exactly when no line inside a table closes it and reopens |
| `DtbDetect.DetectFinds` | Linux_for_Tegra/bootloader/tegraflash_internal.py:3635-3640 | tables are returned exactly when some line carries the marker |
| `DtbDetect.ReopenIsMissed` | Linux_for_Tegra/bootloader/tegraflash_internal.py:3625-3633 | a text on which the condition fails and the intervals are not bracket-matched |
| `DtbTrimmer.GetStrapHandles` | Linux_for_Tegra/bootloader/tegraflash_internal.py:3655-3676 | the ids on the line behind the first emc-strap line, with that line's number |
| `DtbTrimmer.EmcStrapIs` | Linux_for_Tegra/bootloader/tegraflash_internal.py:3656 | the strap node is on a line that holds emc-strap |
| `Text.AngleGroupIs` | Linux_for_Tegra/bootloader/tegraflash_internal.py:3663 | the ids are the text of the first bracket that closes on its line behind at least one character, up to its first closing bracket |
| `DtbTrimmer.UpdateValidEntries` | Linux_for_Tegra/bootloader/tegraflash_internal.py:3586-3600 | one flag per phandle line of each table, in order |
| `DtbTrimmer.PhandleIs` | Linux_for_Tegra/bootloader/tegraflash_internal.py:3593 | a line tells a phandle exactly when it holds phandle and does not hold linux |
| `DtbTrimmer.RemoveUnusedPhandles` | Linux_for_Tegra/bootloader/tegraflash_internal.py:3550-3582 | rewrites the strap line only, and writes the lines the filter keeps, up to a table without a flag |
| `DtbTrimmer.SubstituteIs` | Linux_for_Tegra/bootloader/tegraflash_internal.py:3557-3562 | an id is substituted leftmost first without overlap, an empty one in front of every character and at the end |
| `DtbTrimmer.FilterExact` | Linux_for_Tegra/bootloader/tegraflash_internal.py:3567-3578 | line j is dropped exactly when start <= j <= end for some table that is not selected, despite the single flag |
| `DtbTrimmer.FilterStops` | Linux_for_Tegra/bootloader/tegraflash_internal.py:3567-3581 | with too few flags the text is cut off at the first line that lies in a table without one |
| `DtbTrimmer.TrimDts` | Linux_for_Tegra/bootloader/tegraflash_internal.py:3714-3741 | the four steps in sequence give the text that is compiled, cut off or not |
| `DtbTrimProof.KeptScan` | Linux_for_Tegra/bootloader/tegraflash_internal.py:3567-3578 | detection on the kept lines runs in step with detection on all lines |
| `DtbTrimProof.DroppedIs` | Linux_for_Tegra/bootloader/tegraflash_internal.py:3569-3571 | a line is dropped exactly when it starts, lies in, or directly follows a table that is not selected |
| `DtbTrimResult.KeptDepth` | Linux_for_Tegra/bootloader/tegraflash_internal.py:3564-3578 | the nesting depth in the written text is the one in the input less what the lost lines contributed |
| `DtbTrimResult.TrimmedWellFormedExact` | Linux_for_Tegra/bootloader/tegraflash_internal.py:3564-3578 | for all texts and flags: the written text is well-formed exactly when the lines lost behind dropped tables leave the rest balanced |
| `DtbTrimResult.LastLostDecides` | Linux_for_Tegra/bootloader/tegraflash_internal.py:3567-3578 | when the lines lost before it are level, the text is well-formed exactly when the line behind the last dropped table is level: it holds braces of both kinds or none |
| `DtbTrimResult.TrimmedWellFormed` | Linux_for_Tegra/bootloader/tegraflash_internal.py:3564-3578 | with level lines behind the dropped tables the written text is balanced, with markers only on lines that open children of the root |
| `DtbExample.RootCloseIsLost` | Linux_for_Tegra/bootloader/tegraflash_internal.py:3714-3736 | trimming a balanced text writes an unbalanced one, because the root's closing line follows the dropped table |
| `DtbTrimResult.TrimmedTables` | Linux_for_Tegra/bootloader/tegraflash_internal.py:3564-3578 | detection on the written text finds exactly the selected tables |
| `DtbTrimResult.LinesKept` | Linux_for_Tegra/bootloader/tegraflash_internal.py:3567-3578 | every line of a selected table stays, and every line outside the tables except those directly behind a dropped one |
| `DtbTrimResult.BlankSetting` | Linux_for_Tegra/bootloader/tegraflash_internal.py:3567-3578 | with a blank line behind every table the assumptions hold, and only blank lines are lost outside the tables |
| `DtbTrimResult.TableKept` | Linux_for_Tegra/bootloader/tegraflash_internal.py:3567-3578 | a selected table stands in the written text line for line |
| `DtbStrap.StrapRewrite` | Linux_for_Tegra/bootloader/tegraflash_internal.py:3557-3562 | under that condition, one substring substitution after the other maps the selected id to itself and every other token to 0x0 |
| `DtbStrap.StrapIds` | Linux_for_Tegra/bootloader/tegraflash_internal.py:3663-3664 | the ids written between the angle brackets are read back |
| `DtbStrap.RewriteAgain` | Linux_for_Tegra/bootloader/tegraflash_internal.py:3557-3562 | a second rewrite changes nothing |
| `DtbStrap.StrapRewriteExact` | Linux_for_Tegra/bootloader/tegraflash_internal.py:3557-3562 | substitution is masking exactly when no substituted id occurs outside the brackets, nor is part of the selected id, of an id that first appears behind it, or of a 0x0 written before |
| `DtbStrap.LabelBreaks` | Linux_for_Tegra/bootloader/tegraflash_internal.py:3557-3562 | an unselected id in front of the brackets, on which the line goes wrong although the tokens do not |
| `DtbStrap.PartOfIdBreaks` | Linux_for_Tegra/bootloader/tegraflash_internal.py:3557-3562 | 0xa turns the selected 0xa1 into 0x01 |
| `DtbStrap.PartOfZeroBreaks` | Linux_for_Tegra/bootloader/tegraflash_internal.py:3557-3562 | ids that do not contain each other, on which the rewrite goes wrong |
| `DtbTrimTheorem.FlagsAre` | Linux_for_Tegra/bootloader/tegraflash_internal.py:3591-3600 | with one phandle line per table, flag i tells whether table i has the selected phandle |
| `DtbTrimTheorem.FlagsInCharacters` | Linux_for_Tegra/bootloader/tegraflash_internal.py:3591-3600 | with one line in every table that holds phandle and not linux, and any number that hold linux, there is one flag for each table, which compares its handle with the selected id |
| `DtbTrimTheorem.FlagsStand` | Linux_for_Tegra/bootloader/tegraflash_internal.py:3591-3600 | the flags of table i stand behind those of the tables before it, one for each of its phandle lines |
| `DtbTrimTheorem.FlagsAlign` | Linux_for_Tegra/bootloader/tegraflash_internal.py:3569-3572 | flag i is one of table i's own for all tables exactly when every table but the last has one phandle line, and the last one or more |
| `DtbExample.FlagsShift` | Linux_for_Tegra/bootloader/tegraflash_internal.py:3591-3600 | two tables, of which the second has the selected phandle and is decided on by a flag of the first |
| `DtbTrimTheorem.TrimKeepsRightTables` | Linux_for_Tegra/bootloader/tegraflash_internal.py:3714-3736 | the written text is the kept lines with the masked strap line, well-formed, and holds exactly the tables with the selected phandle |
| `DtbTrimTheorem.TrimTwice` | Linux_for_Tegra/bootloader/tegraflash_internal.py:3714-3736 | a second trim leaves the text unchanged if some table was selected, and stops otherwise |
| `DtbExample.ExampleFits` | Linux_for_Tegra/bootloader/tegraflash_internal.py:3714-3736 | a text with two tables, their handles written twice, and a strap node meets the assumptions of the two lemmas above |
| `DtbExample.ExampleTrimmed` | Linux_for_Tegra/bootloader/tegraflash_internal.py:3714-3736 | its trim, written out: the selected table stays, with its linux,phandle line |
| `SignWindow.SignFilesWindow` | Linux_for_Tegra/bootloader/tegrasign_v3_internal.py:45-67 | accepts exactly the windows inside the file; a negative offset counts as 0 only with a length |
| `SignWindow.SignSingleWindow` | Linux_for_Tegra/bootloader/tegrasign_v3_internal.py:261-273 | accepts exactly the windows inside the file; a negative offset counts as 0 |
| `SignWindow.Sha256Window` | Linux_for_Tegra/bootloader/tegrasign_v3_internal.py:832-845 | accepts the same windows as the list signer |
| `SignWindow.Select` | Linux_for_Tegra/bootloader/tegrasign_v3_internal.py:261-273 | a window is chosen exactly when one with the asked-for offset and length lies in the file |
| `SignWindow.WindowsAsk` | Linux_for_Tegra/bootloader/tegrasign_v3_internal.py:45-61 | for an offset of 0 or more, exactly the asked-for window is chosen |
| `SignWindow.WindowsAtStart` | Linux_for_Tegra/bootloader/tegrasign_v3_internal.py:45-61 | for a negative offset with a length, exactly the window of that length at the start |
| `SignWindow.WindowsAgree` | Linux_for_Tegra/bootloader/tegrasign_v3_internal.py:45-61 | the three normalisations agree exactly when the offset is not negative or a length is given |
| `SignWindow.Splice` | Linux_for_Tegra/bootloader/tegrasign_v3_internal.py:277-291 | same size and only whole blocks of the window changed when encrypting; the tail twice when skipping |
| `SignWindow.SkipIsIdentity` | Linux_for_Tegra/bootloader/tegrasign_v3_internal.py:81-95 | a skipped encryption gives the input exactly when the length is a multiple of 16, else it is longer by the remainder |
| `SignWindow.EncryptIsLocal` | Linux_for_Tegra/bootloader/tegrasign_v3_internal.py:119-133 | every byte outside the whole blocks of the window is unchanged |
| `SignFrames.DoAesCmac` | Linux_for_Tegra/bootloader/tegrasign_v3_internal.py:421-457 | the file is the frame: size table, then the fields in the same order |
| `SignFrames.DoAesCbc` | Linux_for_Tegra/bootloader/tegrasign_v3_internal.py:529-567 | the file is the frame: size table, then the fields in the same order |
| `SignFrames.DoRsaPss` | Linux_for_Tegra/bootloader/tegrasign_v3_internal.py:632-680 | the file is the frame; names that are not given have size 0 and no field |
| `SignFrames.DoEcc` | Linux_for_Tegra/bootloader/tegrasign_v3_internal.py:705-745 | the file is the frame; a key-hash name that is not given has size 0 and no field |
| `SignFrames.DoEd25519` | Linux_for_Tegra/bootloader/tegrasign_v3_internal.py:770-810 | the file is the frame; a key-hash name that is not given has size 0 and no field |
| `SignFrames.DoSha256` | Linux_for_Tegra/bootloader/tegrasign_v3_internal.py:845-877 | the file is the frame: size table, then the fields in the same order |
| `SignFrames.ResultIsBlank` | Linux_for_Tegra/bootloader/tegrasign_v3_internal.py:632-680 | the field for the result is filled with the digit 0, in the size of the result |
| `SignFrames.CStringEnds` | Linux_for_Tegra/bootloader/tegrasign_v3_internal.py:641-678 | a name field ends at its first zero byte |
| `SignFrames.Utf8Two` | Linux_for_Tegra/bootloader/tegrasign_v3_internal.py:641-678 | names are written in UTF-8: characters of two bytes |
| `SignFrames.Utf8Three` | Linux_for_Tegra/bootloader/tegrasign_v3_internal.py:641-678 | characters of three bytes |
| `SignFrames.Utf8Four` | Linux_for_Tegra/bootloader/tegrasign_v3_internal.py:641-678 | characters of four bytes |
| `SignFrames.SizesDescribeFields` | Linux_for_Tegra/bootloader/tegrasign_v3_internal.py:632-639 | the numbers computed for the size table are the field lengths exactly when all names are ASCII |
| `SignFrames.TableExact` | Linux_for_Tegra/bootloader/tegrasign_v3_internal.py:641-647 | the table in the file tells the field lengths exactly when all names are ASCII and all sizes are below 2^32 |
| `SignFrames.LargeBufferWraps` | Linux_for_Tegra/bootloader/tegrasign_v3_internal.py:845-877 | a buffer of 2^32 bytes is given the size 0 |
| `SignFrames.FrameCuts` | Linux_for_Tegra/bootloader/tegrasign_v3_internal.py:641-678 | cutting a frame by its own table gives its fields exactly when all names are ASCII and all sizes fit, and fails otherwise |
| `SignFrames.DecodeFrame` | Linux_for_Tegra/bootloader/tegrasign_v3_internal.py:641-678 | for all six functions and every request: a reader recovers every argument, including whether the optional names were given, or notices that the table is wrong, the latter exactly when a name is not ASCII or a size does not fit |
| `SignFrames.FramesInjective` | Linux_for_Tegra/bootloader/tegrasign_v3_internal.py:641-678 | a frame that can be read comes from one request only |
| `AesKey.ExtractAesKey` | Linux_for_Tegra/bootloader/tegrasign_v3_internal.py:889-941 | sets mode, size and key on success; leaves the key alone when it is no AES key; where unhexlify raises, the mode is already set and nothing else |
| `AesKey.CleanedIs` | Linux_for_Tegra/bootloader/tegrasign_v3_internal.py:911-916 | splitting, replacing and joining removes exactly the blanks, line breaks and 0x prefixes |
| `AesKey.KeyTextRoundTrip` | Linux_for_Tegra/bootloader/tegrasign_v3_internal.py:910-941 | every 16- or 32-byte key printed in groups of hex digits, each in either case, with any blanks and line breaks is parsed back |
| `AesKey.UnhexlifyIs` | Linux_for_Tegra/bootloader/tegrasign_v3_internal.py:932-933 | a text reads as a key exactly when it prints it, digit by digit, in either case |
| `AesKey.StripTextIs` | Linux_for_Tegra/bootloader/tegrasign_v3_internal.py:918 | strip takes white space away at both ends, and nothing else |
| `AesKey.HexlifyReadsBack` | Linux_for_Tegra/bootloader/tegrasign_v3_internal.py:932-933 | every key can be printed in hex digits that read back |
| `AesKey.RawKey` | Linux_for_Tegra/bootloader/tegrasign_v3_internal.py:891-908 | a raw key of 16 or 32 bytes is taken unchanged exactly when it has no byte 0x30 |
| `Bytes.Int2Bytes` | Linux_for_Tegra/bootloader/tegrasign_v3_util.py:271-281 | fills the array with the n low-order bytes, least significant first; raises for n < 1 |
| `Bytes.LeRoundTrip` | Linux_for_Tegra/bootloader/tegrasign_v3_util.py:271-281 | decoding gives the value modulo 256^n, for negative values too |
| `Bytes.Int2ByteCnt` | Linux_for_Tegra/bootloader/tegrasign_v3_util.py:286-294 | half the hex digits, rounded up, is the least n >= 1 with v < 256^n |
| `Bytes.ByteCntLossless` | Linux_for_Tegra/bootloader/tegrasign_v3_util.py:271-294 | encoding with that count loses nothing |
| `RamDump.DumpRam` | Linux_for_Tegra/bootloader/tegraflash_internal.py:1509-1595 | the requests cover the range once in order, none crosses 4 GB, and the file is the range |
| `RamDump.CopyBlocks` | Linux_for_Tegra/bootloader/tegraflash_internal.py:1572-1578 | the block copy ends and appends the whole file |
| `TempName.FreshName` | Linux_for_Tegra/bootloader/tegraflash_internal.py:788-792 | the search ends for every finite directory with the least unused number |
| `TempName.TempSplits` | Linux_for_Tegra/bootloader/tegraflash_internal.py:800-801 | splitting a temporary name at its first underscore gives the name back |
| `TempName.DecimalIs` | Linux_for_Tegra/bootloader/tegraflash_internal.py:788-792 | the number is written in decimal digits without a leading zero |
| `SkipUid.Session.GiveSkipUid` | Linux_for_Tegra/bootloader/tegraflash.py:205-208 | options on flash and secureflash, and export, set the flag in exports |
| `SkipUid.Session.SendTboot` | Linux_for_Tegra/bootloader/tegraflash_internal.py:2454-2466 | passes a set flag on and clears it in values |
| `SkipUid.Session.RunCommand` | Linux_for_Tegra/bootloader/tegraflash.py:204-219 | a command does its steps, from the options it is given on, up to where it ends or raises |
| `SkipUid.ScriptBoots` | Linux_for_Tegra/bootloader/tegraflash_internal.py:2454-2466 | which finished commands boot |
| `SkipUid.ScriptEnds` | Linux_for_Tegra/bootloader/tegraflash_internal.py:269-271 | all that boot clear the flag, but the fuse commands |
| `SkipUid.ScriptGives` | Linux_for_Tegra/bootloader/tegraflash.py:204-219 | what a command is given takes effect first |
| `SkipUid.Session.RunAll` | Linux_for_Tegra/bootloader/tegraflash.py:1149-1155 | a session is its commands in sequence over one shared state |
| `SkipUid.ExactCount` | Linux_for_Tegra/bootloader/tegraflash_internal.py:2464-2466 | the flag is sent once for every command that boots while the flag is on: given at the beginning or by a command, and neither cleared nor given otherwise since |
| `SkipUid.SentMoreThanOnce` | Linux_for_Tegra/bootloader/tegraflash_internal.py:269-271 | sent more than once exactly when two commands boot while the flag is on |
| `SkipUid.AtMostOnce` | Linux_for_Tegra/bootloader/tegraflash_internal.py:1355-1379 | sent at most once for every time it was given, in any run in which every command but the last finishes, fuse commands aside |
| `SkipUid.BatchAtMostOnce` | Linux_for_Tegra/bootloader/tegraflash.py:1149-1155 | the same for a batch run of commands that end it on errors |
| `SkipUid.GivenTwiceSendsTwice` | Linux_for_Tegra/bootloader/tegraflash.py:204-219 | two finished flash commands that both carry the flag send it twice |
| `SkipUid.FailedReadSendsTwice` | Linux_for_Tegra/bootloader/tegraflash.py:363-366 | a failing read lets a batch run go on and send the flag again |
| `SkipUid.FuseCommandsSendTwice` | Linux_for_Tegra/bootloader/tegraflash_internal.py:1734-1746 | two fuse readings send the flag twice |
| `PartTable.DoParse` | Linux_for_Tegra/tools/nvptparser.py:20-53 | the result is the internal list numbered and rotated; raises exactly when nothing is kept |
| `PartTable.Conservation` | Linux_for_Tegra/tools/nvptparser.py:31-45 | ordinary and APP partitions are kept as often as they occur, GP1, GPT, primary_gpt and secondary_gpt are not, and of the master_boot_record partitions only the last |
| `PartTable.PrintedNumbers` | Linux_for_Tegra/tools/nvptparser.py:47-53 | the printed numbers are 2, ..., n, 1 |
| `PartTable.LastAppIsFirst` | Linux_for_Tegra/tools/nvptparser.py:39-52 | the last-seen APP is number 1 and printed last |
| `PartTable.MbrIsLast` | Linux_for_Tegra/tools/nvptparser.py:35-53 | the last master boot record has number n, and is printed last but for number 1 |
| `PartTable.OthersInOrder` | Linux_for_Tegra/tools/nvptparser.py:39-49 | ordinary partitions are numbered in input order |

## Left out

- DtbStrap.StrapRewriteExact: ids that hold 0x0 and more, such as 0x0a, and a 0x0 outside the brackets are excluded, because there a later substitution can undo the damage of an earlier one; StrapRewrite covers them too.
- DtbTrimmer.RemoveUnusedPhandles: ids are taken as literal text; an id with regular-expression metacharacters is not modelled.
- DtbTrimmer.TrimDts: None also covers positions (-1, -1), which the caller compares with the string "-1": it goes on and raises.
- DtbTrimTheorem.TrimKeepsRightTables: states the result for texts with one phandle line per table, level lines behind the dropped tables and a ramcode in range; other texts are covered by FilterExact, FilterStops, FlagsAlign and TrimmedWellFormedExact.
- BupWriter.GenerateBup: numbers of 2^32 and more, on which struct.pack raises, are excluded.
- BupParse.ParseEntryList: the bmp type and resolution tables are left out. Tuples that stay unparsed make update_entry raise, so GenerateBup is given entries only.
- BupReader.InspectUpdatePayload.Load: column widths and warnings of the display are left out.
- BupExtract.ExtractBinaries: files are named relative to the output directory, and opening them always succeeds.
- AesKey.ExtractAesKey: of bytes.decode only its value on ASCII and a length bound are known.
- SignWindow.Splice: the cipher is a parameter that returns as many bytes as it is asked for.
- SkipUid.Session.RunCommand: a command is reduced to its steps that touch the flag.
- Signing modes without splicing, hardware security modules and everything run as a foreign program.
- GPT file naming, BCT, MB1 and RCM command lines, magic ids and ratchet lists: flat branching.
- swapbytes, version bit fields and the readable version.
- XML reading and writing: partitions are given as sequences.
- Register headers and the other generated files of the repository.
