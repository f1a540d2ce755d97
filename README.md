# ext2 and mkfs commands of the libguestfs daemon, in Dafny

This project models the parts of the libguestfs appliance daemon that turn
filesystem-tool output into results, or that build command lines for
filesystem tools:

- `do_tune2fs_l` turns the listing printed by `tune2fs -l` into a flat list
  `key0, value0, key1, value1, ...`. It drops the version banner, splits each
  line at its first colon and skips the blanks before the value. It maps the
  placeholders `<none>`, `<not available>` and `(none)` to the empty string.
  It stops at the first empty line. The daemon works in place on the output
  buffer: it writes NULs over newlines and colons and advances a cursor.
  The model does the same on an `array<char>` (`Tune2fsListing`).
- `do_get_e2uuid` finds `"\nFilesystem UUID:"` in the same listing. It skips
  whitespace, then takes the run of hex digits and `-` that follows. Either
  scan reaching the end of the text is an error (`E2Uuid`).
- `do_get_e2label` strips one trailing newline from the label. `get_mke2fs`
  prefers `/sbin/mke4fs` over `/sbin/mke2fs`. Also modelled: the `-J` option
  of `do_mke2fs_J`/`_JL`/`_JU`, and the command lines of those three
  functions and of `do_mke2journal`/`_L`/`_U` (`Ext2Commands`).
- `do_mkfs_opts` fills a 16-slot `argv` array with:
  - `mkfs -t fstype`;
  - the flags for that type;
  - when the optional block size is given, a block size option (`-s` with
    sectors per cluster for vfat/msdos, `-c` for ntfs, `-b` otherwise);
  - the device and a NULL.

  It validates the block size first. `do_mkfs` and `do_mkfs_b` call it with
  the block-size bit clear or set (`Mkfs`).

`Outcome` holds the result and error types. `CText` holds the C library
behaviour the code relies on:

- NUL-terminated strings, `strlen`, `strchrnul` and `strstr`;
- `c_isspace` and `c_isxdigit`;
- `snprintf("%d")` into a fixed buffer, read back by a decimal parser.

Each daemon routine that loops or writes into a buffer is a `method` over
arrays. It is proved equal to a specification function: `ListingOf`,
`UuidAfterMarker`, `Label`, `Mke2fs` or `MkfsArgs`. The properties the daemon
promises are proved as lemmas about those functions:

- every line gives one key and one value;
- parsing stops at an empty line;
- the banner is dropped;
- a value is its text without leading blanks, or `""` for a placeholder;
- the UUID is made of hex digits and `-` only;
- one newline is removed from a label;
- the journal option reads back as the device it names;
- the printed numbers read back as the numbers given;
- the `mkfs` command line stays within 16 slots.

Running a tool is not modelled. What a tool printed, or that it failed, is an
input of type `ToolRun`.

## Model

| member | source | states |
|---|---|---|
| `CText.Strchrnul` | daemon/ext2.c:63 | the result is the first position from the start holding the character or the terminating NUL; nothing before it is either |
| `CText.Strlen` | daemon/ext2.c:151 | the result is the position of the first NUL, and the C string of the buffer is exactly the characters before it |
| `CText.OutputBuffer` | daemon/ext2.c:39 | the buffer holds the tool's output followed by one NUL |
| `CText.IndexOfFirst` | daemon/ext2.c:52 | `IndexOf` (strchr/strchrnul) returns the first occurrence: no earlier character matches, and the character at the index does |
| `CText.IndexOfIs` | daemon/ext2.c:63 | the first index satisfying the strchrnul contract is the one `IndexOf` returns |
| `CText.SpanLongest` | daemon/ext2.c:75 | `Span` is the longest prefix in the class: every character before it is in the class, and the next is not |
| `CText.SpanIs` | daemon/ext2.c:205-206 | a prefix in the class that is followed by a character outside it (or by the end) is exactly `Span` |
| `CText.CStrAt` | daemon/ext2.c:153 | a buffer whose first NUL is at `n` holds the C string of its first `n` characters |
| `CText.CStr` | daemon/ext2.c:151-155 | the C string in a buffer is a prefix of it without a NUL, followed in the buffer by a NUL unless it is all of it |
| `CText.IndexOf` | daemon/ext2.c:63 | the index of the first occurrence is within the text (with `IndexOfFirst` it is the first occurrence, or the end) |
| `CText.Span` | daemon/ext2.c:215-216 | the length of the run at the start of the text is at most the text's length (with `SpanLongest` it is the longest such run) |
| `CText.IsSpace` | daemon/ext2.c:75 | c_isspace: space, tab, newline, vertical tab, form feed and carriage return |
| `CText.IsXDigit` | daemon/ext2.c:215 | c_isxdigit: the ASCII digits and the letters a-f and A-F |
| `CText.NatToDecimal` | daemon/ext2.c:383 | the decimal text of a natural number is non-empty, all digits, and has no leading zero unless the number is 0 |
| `CText.FormatInt` | daemon/ext2.c:277 | `"%d"` text is non-empty and starts with `-` exactly for a negative number |
| `CText.Strstr` | daemon/ext2.c:197 | the result is an occurrence of the needle and no earlier position holds one; `None` means there is none anywhere |
| `CText.FormatIntRoundTrip` | daemon/ext2.c:277 | reading back what `"%d"` prints for any integer gives that integer |
| `CText.DecimalRoundTrip` | daemon/ext2.c:277 | the digits printed for a natural number denote that number |
| `CText.FormatIntLength` | daemon/ext2.c:276 | a C `int` prints in at most 11 characters |
| `CText.FormatIntFits` | daemon/ext2.c:276-277 | `snprintf` of any C `int` into a 32-byte buffer is never truncated |
| `CText.Snprintf` | daemon/ext2.c:387 | the buffer keeps a prefix of the text shorter than its size: all of the text when it fits, otherwise exactly `size - 1` characters |
| `Tune2fsListing.IsPlaceholder` | daemon/ext2.c:81-83 | the three texts tune2fs prints for a field with no value: `<none>`, `<not available>` and `(none)` |
| `Tune2fsListing.Shown` | daemon/ext2.c:81-93 | a placeholder is shown as `""`, any other value as itself |
| `Tune2fsListing.ShownValue` | daemon/ext2.c:81-93 | the value shown is either empty or the value itself, and it is empty exactly for an empty value or a placeholder |
| `Tune2fsListing.ValueOf` | daemon/ext2.c:75 | the value is no longer than the text after the colon |
| `Tune2fsListing.ValueSkipsBlanks` | daemon/ext2.c:75 | the value is a suffix of the text after the colon; everything dropped before it is whitespace, and it does not start with whitespace |
| `Tune2fsListing.ParseBody` | daemon/ext2.c:62-107 | the pairs of the lines of the text, in order, up to the first empty line or the end |
| `Tune2fsListing.ParseBodyEmpty` | daemon/ext2.c:62-69 | nothing is read exactly when the text is empty or starts with an empty line |
| `Tune2fsListing.Entry` | daemon/ext2.c:71-104 | every line that is read yields exactly two strings, a key and a value |
| `Tune2fsListing.ParseBodyCons` | daemon/ext2.c:62-106 | a non-empty first line contributes its pair, and parsing continues after its newline |
| `Tune2fsListing.ParseBodyLength` | daemon/ext2.c:62-106 | an empty first line adds nothing; any other line adds exactly two strings to what follows |
| `Tune2fsListing.ParseBodyEven` | daemon/ext2.c:77-104 | the parsed listing always has an even number of strings |
| `Tune2fsListing.ListingOf` | daemon/ext2.c:48-107 | the result is even in length; it is `TruncatedOutput` exactly when the text starts with the banner and has no newline; without a banner the whole text is parsed |
| `Tune2fsListing.Listing` | daemon/ext2.c:39-48 | a failed tune2fs gives `ToolFailed` with its error text; a listing comes only from a successful run and has an even number of strings; the only other error is `TruncatedOutput` |
| `Tune2fsListing.ListingOfText` | daemon/ext2.c:48 | output without a NUL is parsed whole |
| `Tune2fsListing.ParseBodyByLines` | daemon/ext2.c:62-107 | parsing lines joined by newlines yields each line's pair in order, up to the first empty line |
| `Tune2fsListing.ParseStopsAtBlankLine` | daemon/ext2.c:62-69 | lines after an empty line contribute nothing |
| `Tune2fsListing.EntriesUntilBlankStops` | daemon/ext2.c:69 | pairs are taken only from the lines before the first empty line |
| `Tune2fsListing.ParseEveryLine` | daemon/ext2.c:62-107 | with no empty line, line `i` gives strings `2i` and `2i+1`, and there are exactly two per line |
| `Tune2fsListing.EntriesLength` | daemon/ext2.c:77-104 | lines without an empty one give two strings each |
| `Tune2fsListing.EntriesAt` | daemon/ext2.c:77-104 | the key and the value of line `i` are at positions `2i` and `2i+1` |
| `Tune2fsListing.EntriesCons` | daemon/ext2.c:106 | a non-empty first line gives its pair followed by the pairs of the remaining lines |
| `Tune2fsListing.EntryOfKeyValue` | daemon/ext2.c:71-93 | for `key:<blanks>value`, the key is the text before the first colon; the value has its leading blanks dropped and the rest kept; a placeholder value gives `""` |
| `Tune2fsListing.EntryParts` | daemon/ext2.c:71-93 | a line whose first colon is at `c`, followed by `w` blanks, gives the text before `c` and the (placeholder-mapped) text after the blanks |
| `Tune2fsListing.ValueAt` | daemon/ext2.c:75 | the value starts right after the blanks that follow the colon |
| `Tune2fsListing.EntryWithoutColon` | daemon/ext2.c:95-104 | a line without a colon gives the whole line and `""` |
| `Tune2fsListing.BannerDiscarded` | daemon/ext2.c:50-59 | text made of the banner line, a newline and a body is parsed as the body alone |
| `Tune2fsListing.FirstNewline` | daemon/ext2.c:52-53 | in a first line without a newline followed by `"\n"` and a body, the first newline is at the end of that line and the body follows it |
| `Tune2fsListing.NoNulCStr` | daemon/ext2.c:48 | text without a NUL is its own C string |
| `Tune2fsListing.SplitLine` | daemon/ext2.c:71-104 | the pair produced for the cut line is `Entry` of that line; only the line's cells of the buffer change |
| `Tune2fsListing.SplitAtColon` | daemon/ext2.c:72-93 | with a NUL written over the first colon, the pair produced is `Entry` of the line; only the colon's cell changes |
| `Tune2fsListing.SkipBlanks` | daemon/ext2.c:75 | the do-while loop stops past the colon, after only blanks, at a non-blank character or the line's NUL |
| `Tune2fsListing.ColonFound` | daemon/ext2.c:71-72 | where strchr stopped in the buffer is where `IndexOf` stops in the line, and it found a colon exactly when it stopped before the line's end |
| `Tune2fsListing.EntryOfSplit` | daemon/ext2.c:73-93 | a line with its first colon at `c` followed by `w` blanks gives the key before `c` and the mapped value after the blanks |
| `Tune2fsListing.SpanAfterColon` | daemon/ext2.c:75 | the blanks counted by the loop are the blanks `Span` counts after the colon |
| `Tune2fsListing.ParseBodyStep` | daemon/ext2.c:62-106 | parsing from a non-empty line gives its pair and then the parse from after its newline, or that pair alone at the end of the text |
| `Tune2fsListing.LineEndInSlice` | daemon/ext2.c:63 | from the cursor, the first newline is at the line's end; the line and the rest of the text are the slices on either side |
| `Tune2fsListing.ParseBodyBlank` | daemon/ext2.c:69 | at an empty line or at the end of the text nothing more is parsed |
| `Tune2fsListing.CutLine` | daemon/ext2.c:63-69 | finds the line's end and replaces its newline with a NUL; the cursor's cell becomes NUL exactly for an empty line, which ends the listing |
| `Tune2fsListing.LineEntry` | daemon/ext2.c:71-106 | appending the line's pair keeps what has been read a prefix of the whole listing, with parsing resuming at the next line |
| `Tune2fsListing.ReadLines` | daemon/ext2.c:61-107 | the loop's output is exactly `ParseBody` of the text from the cursor, including the stop at an empty line |
| `Tune2fsListing.SkipBanner` | daemon/ext2.c:50-59 | a banner without a newline gives `TruncatedOutput`; otherwise the listing is the parse from the returned start |
| `Tune2fsListing.ReadListing` | daemon/ext2.c:48-107 | the listing of the buffer is `ListingOf` the output text |
| `Tune2fsListing.Tune2fsL` | daemon/ext2.c:30-115 | the result of `do_tune2fs_l` is `Listing` of the tool run |
| `E2Uuid.IsUuidChar` | daemon/ext2.c:215 | a character the UUID loop accepts: a hexadecimal digit (c_isxdigit) or `-` |
| `E2Uuid.UuidAfterMarker` | daemon/ext2.c:204-223 | the result is a UUID or `MalformedUuid`, and a UUID consists of hex digits and `-` only |
| `E2Uuid.UuidOf` | daemon/ext2.c:196-223 | `NoFilesystemUuid` exactly when the marker occurs nowhere; otherwise a UUID or `MalformedUuid` |
| `E2Uuid.E2Uuid` | daemon/ext2.c:186-202 | a failed tune2fs gives `ToolFailed`; a UUID comes only from a successful run and consists of hex digits and `-`; `NoFilesystemUuid` exactly when tune2fs succeeded and strstr finds no marker in its output; no other errors than these and `MalformedUuid` |
| `E2Uuid.UuidFound` | daemon/ext2.c:204-223 | blanks, then a run of UUID characters ended by another character, give that run (possibly empty) |
| `E2Uuid.UuidRunsToEnd` | daemon/ext2.c:205-221 | when only blanks and UUID characters follow the marker up to the end, the UUID is malformed |
| `E2Uuid.UuidAfterFirstMarker` | daemon/ext2.c:197-204 | the UUID is read after the first occurrence of the marker |
| `E2Uuid.GetE2uuid` | daemon/ext2.c:175-234 | the result of `do_get_e2uuid` is `E2Uuid` of the tool run |
| `E2Uuid.ReadUuid` | daemon/ext2.c:204-223 | the two scans and the NUL written after the run give `UuidAfterMarker` of the text after the marker |
| `E2Uuid.SkipSpace` | daemon/ext2.c:205-206 | the loop stops after only whitespace, at the first other character or at the end |
| `E2Uuid.SkipUuidChars` | daemon/ext2.c:214-216 | the loop stops after only hex digits and `-`, at the first other character or at the end |
| `E2Uuid.UuidLoops` | daemon/ext2.c:204-221 | where the two loops stop decides the answer: either reaching the end is `MalformedUuid`, otherwise the run between them |
| `E2Uuid.SkippedSpace` | daemon/ext2.c:205-206 | the whitespace loop stops where `Span` over the text after the marker does |
| `E2Uuid.SkippedRun` | daemon/ext2.c:214-216 | the UUID loop stops where `Span` over the text after the whitespace does |
| `Ext2Commands.Label` | daemon/ext2.c:150-153 | the label is a prefix of the output, at most one character shorter, and shorter exactly when the output ends in a newline |
| `Ext2Commands.E2Label` | daemon/ext2.c:140-155 | a label comes exactly from a successful e2label run; it is a prefix of the output without a NUL, equal to the output up to its first NUL, minus one final newline if the output ends in one |
| `Ext2Commands.LabelOfOutput` | daemon/ext2.c:150-155 | the label lies within the output buffer, holds no NUL, and is the C string less one final newline when it ends in one |
| `Ext2Commands.LabelRoundTrip` | daemon/ext2.c:150-153 | one newline printed after a label is removed; output without a trailing newline is returned unchanged |
| `Ext2Commands.GetE2label` | daemon/ext2.c:134-156 | the result of `do_get_e2label` is `E2Label` of the tool run |
| `Ext2Commands.ChopNewline` | daemon/ext2.c:150-155 | strlen and the NUL written over a final newline leave `Label` of the output as the C string in the buffer, which is what the daemon returns |
| `Ext2Commands.OutputLength` | daemon/ext2.c:151 | strlen of the buffer holding the output is the output's length |
| `Ext2Commands.FirstExisting` | daemon/ext2.c:364-366 | the index returned names an existing program and no earlier one exists; `None` means none exists |
| `Ext2Commands.Mke2fs` | daemon/ext2.c:358-370 | the program chosen is one of the two candidates and exists |
| `Ext2Commands.Mke2fsPreference` | daemon/ext2.c:361-369 | `/sbin/mke4fs` when it exists, else `/sbin/mke2fs` when that exists, else `NoMke2fsBinary` |
| `Ext2Commands.GetMke2fs` | daemon/ext2.c:358-370 | the loop returns `Mke2fs` of the existence predicate |
| `Ext2Commands.FirstExistingIs` | daemon/ext2.c:364-366 | the first existing program found by the loop is the one `FirstExisting` names |
| `Ext2Commands.JournalPrefix` | daemon/ext2.c:387-447 | the format prefix of the `-J` option: `device=` for a journal device, `device=LABEL=` for a label, `device=UUID=` for a UUID |
| `Ext2Commands.JournalOption` | daemon/ext2.c:385-387 | the `-J` option is `device=`, `device=LABEL=` or `device=UUID=` followed by the argument, never truncated |
| `Ext2Commands.JournalOptionRoundTrip` | daemon/ext2.c:385-447 | an option reads back as the device it was made from, except a journal path that itself starts with `LABEL=` or `UUID=` |
| `CText.DecimalArg` | daemon/ext2.c:276-277 | a C `int` printed with `"%d"` into a 32-byte buffer is exactly its decimal text, untruncated, and reads back as that number |
| `Ext2Commands.Mke2fsJournalArgs` | daemon/ext2.c:382-451 | the command line is `prog -t fstype -J <option> -b <blocksize> device`, and the block size argument is exactly its `"%d"` text, which reads back as the block size |
| `Ext2Commands.Mke2fsJournal` | daemon/ext2.c:373-460 | no program gives `NoMke2fsBinary`; with a program, a failed run gives `ToolFailed` and a successful run gives exactly `Mke2fsJournalArgs` with the chosen program |
| `Ext2Commands.Mke2journalArgs` | daemon/ext2.c:276-327 | the command line starts with `/sbin/mke2fs -O journal_dev -b` and the exact `"%d"` text of the block size, then `-L label` or `-U uuid` for the named variants, and ends with the device |
| `Ext2Commands.Mke2journal` | daemon/ext2.c:270-336 | a success exactly when the tool succeeds, having run `Mke2journalArgs`; otherwise `ToolFailed` |
| `Mkfs.Log2` | daemon/mkfs.c:78 | the exponent of a power of two raises 2 to that number |
| `Mkfs.Pow2IsPowerOf2` | daemon/mkfs.c:78 | every power of 2 passes the power-of-two test |
| `Mkfs.PowerOf2Exactly` | daemon/mkfs.c:78 | the power-of-two test holds exactly of the numbers `2^k` |
| `Mkfs.ValidBlockSize` | daemon/mkfs.c:78 | the block sizes the guard lets through: positive powers of two |
| `Mkfs.IsPowerOf2` | daemon/mkfs.c:78 | `is_power_of_2`: 1, or an even number whose half is a power of two |
| `Mkfs.HasBlockSize` | daemon/mkfs.c:77 | the block size bit is set in the optional-argument mask |
| `Mkfs.IsFat` | daemon/mkfs.c:83-84 | vfat and msdos, whose block size is given in sectors per cluster |
| `Mkfs.CDiv` | daemon/mkfs.c:93 | C division truncates toward zero: the quotient's magnitude is the magnitude of the dividend divided by that of the divisor, rounded down, and the quotient is negative only when the operands' signs differ |
| `Mkfs.TypeFlags` | daemon/mkfs.c:52-74 | at most five flags come before the block size option |
| `Mkfs.TypeFlagsTable` | daemon/mkfs.c:48-74 | ntfs gets `-Q`, reiserfs and jfs get `-f`, gfs and gfs2 get `-p lock_nolock -j 1 -O`, every other type gets nothing |
| `Mkfs.BlockSizeOption` | daemon/mkfs.c:77-116 | a block size that is not a positive power of 2 is `BadBlockSize`; FAT gets `-s` with 1..128 sectors per cluster, ntfs `-c`, others `-b`, each followed by the exact `"%d"` text of its number, which reads back; for a valid block size only FAT can fail, and an unreadable sector size fails it |
| `Mkfs.ClusterSizeRange` | daemon/mkfs.c:93-98 | with a usable sector size, FAT succeeds exactly when blocksize/sectorsize lies in 1..128, and otherwise reports that quotient |
| `Mkfs.MkfsArgs` | daemon/mkfs.c:44-122 | a command line has 4 to 15 arguments (with the NULL, at most 16), starts `mkfs -t fstype` and ends with the device; without the bit it always exists; with the bit it exists exactly when the block size option does |
| `Mkfs.MkfsWithoutBlockSize` | daemon/mkfs.c:77 | without the block size bit the command line is `mkfs -t fstype`, the type's flags and the device, with no block size option |
| `Mkfs.MkfsWithBlockSize` | daemon/mkfs.c:77-119 | with the bit, the block size option goes between the flags and the device, and a refused block size refuses the command before anything runs |
| `Mkfs.ArgumentsOfSlots` | daemon/mkfs.c:118-119 | the arguments read from the slots up to the NULL are the ones written |
| `Mkfs.Push` | daemon/mkfs.c:44 | `argv[i++] = arg` appends one argument to the slots written so far |
| `Mkfs.PushNull` | daemon/mkfs.c:119 | `argv[i++] = NULL` ends the arguments written so far |
| `Mkfs.PushTypeFlags` | daemon/mkfs.c:52-74 | the slots hold the arguments so far followed by the type's flags |
| `Mkfs.PushSingleNode` | daemon/mkfs.c:66-74 | the gfs flags `-p lock_nolock -j 1 -O` are appended |
| `Mkfs.PushBlockSize` | daemon/mkfs.c:77-116 | fails exactly as `BlockSizeOption` does; otherwise it appends that option and its number |
| `Mkfs.PushHead` | daemon/mkfs.c:44-74 | the slots hold `mkfs -t fstype` and the type's flags |
| `Mkfs.PushTail` | daemon/mkfs.c:118-119 | after the device and the NULL, the arguments read back are those written followed by the device |
| `Mkfs.MkfsOpts` | daemon/mkfs.c:35-133 | the result of `do_mkfs_opts` is running `MkfsArgs`; the `abort()` for more than 16 slots is unreachable |
| `Mkfs.Mkfs` | daemon/mkfs.c:135-140 | `do_mkfs` runs `mkfs -t fstype`, the type's flags and the device |
| `Mkfs.MkfsB` | daemon/mkfs.c:142-147 | `do_mkfs_b` is `do_mkfs_opts` with the block size bit set |

## Left out

- Running external programs (`command`, `commandv`): a run is an input, either its standard output or a failure with its error text. The argument vectors the daemon passes are modelled; the tool names and arguments of `tune2fs -l` and `e2label` are not.
- `access()` in `get_mke2fs` is a parameter `fileExists`. `do_blockdev_getss` is a parameter `blockdevGetss`, where -1 stands for its failure; the failure itself is reported by that routine, so the model carries only `SectorSizeUnavailable`.
- Memory management (`free`, `strdup`) and `add_string` running out of memory. The wording of `reply_with_error` messages is also left out; errors are tagged with a reason only.
- The NULL that `add_string` appends to end the `tune2fs -l` list.
- `do_set_e2label`, `do_set_e2uuid`, `do_resize2fs` and `do_e2fsck_f` are left out. They only run a tool with fixed arguments.
- `is_power_of_2` lives in the daemon's utilities, which are not part of this model. It is modelled by its meaning (`IsPowerOf2`, with `PowerOf2Exactly`).
- `GUESTFS_MKFS_OPTS_BLOCKSIZE_BITMASK` comes from a generated header that is not part of this model. It is taken as bit 0, since the block size is the first optional argument.
- The global `optargs_bitmask` is a parameter, not shared state.
- `MkfsOpts`: requires a nonzero sector size when a FAT type gets a valid block size. The C code would divide by zero there.
- `MkfsB`: requires the same nonzero sector size, for the same reason.
- `MkfsArgs`: requires the same nonzero sector size, for the same reason.
- `BlockSizeOption`: requires the same nonzero sector size, for the same reason.
- `PushBlockSize`: requires the same nonzero sector size, for the same reason.
- `ChopNewline`: `len` is a C `int`, and output longer than 2^31-1 bytes would overflow it; lengths are unbounded here.
- `JournalOption`: the buffer size `strlen(journal) + 32` is a C `int` as well; its overflow for journal names near 2^31 bytes is not modelled.

