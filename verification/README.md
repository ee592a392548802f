# ios2macosversion, modelled in Dafny

`ios2macosversion` marks an iOS-built 64-bit Mach-O binary as a macOS binary.
It maps the file and checks the header. It then walks the load commands and
overwrites the first `LC_VERSION_MIN_IPHONEOS` (0x25) command with an
`LC_VERSION_MIN_MACOSX` (0x24) command. The new command carries a minimum OS
version and an SDK version. Both versions come from `calc_version`, which packs
a dotted string "X.Y.Z" into the word `(X << 16) | (Y << 8) | Z`. When that word
is 0, `calc_version` returns 657930 (10.10.10) instead.

The project has four modules:

- `Bytes` (`bytes.dfy`): bytes, 32-bit words, and little-endian reads and
  writes of a word at a byte offset. There is a read from an array and a
  store/read round trip.
- `Version` (`version.dfy`): `calc_version`, in two layers.
  - The string layer splits the argument into pieces as `getline(…, '.')`
    does. It then parses each piece as stream extraction into a `uint32_t`
    does for an unsigned decimal piece with at least one non-blank
    character. An empty or
    blank piece leaves the variable unassigned in the program; the model
    reads it as 0 (see "Left out").
  - The packing layer runs the loop with its `uint8_t` piece counter.
  - `CalcVersion` is the loop itself, as a method. It is proved against the
    functions `Pack` and `VersionOf`.
- `VersionExamples` (`version_examples.dfy`): concrete encodings and parses.
- `MachO` (`macho.dfy`): the validation, load-command walk and in-place rewrite
  of `replacemachheader`.
  - `ReplaceMachHeader` is a method over the mapped file, an `array<byte>`.
    It is proved to produce the outcome `Walk` of the old bytes. It leaves the
    file equal to `Rewrite` of the old bytes.
  - Lemmas about `Walk` and `Rewrite` state which command is rewritten, when
    none is, what changes and what does not, and when a second run changes
    nothing.

The outcome of a run is a value, not a process exit:

| outcome | meaning | exit code |
|---|---|---|
| `FatUnsupported` | fat (multi-architecture) image | 4 |
| `WrongMagic` | magic is not `MH_MAGIC_64` | 5 |
| `NoMatch` | walk finished without finding the command | 0 |
| `Rewritten(offset)` | command at `offset` was rewritten | 0 |
| `OutOfBounds` | model addition (see below) | none |

`OutOfBounds` stands where the program would read or write past the end of
the mapped file, which it never checks.

Two consequences of the code's integer arithmetic are stated as lemmas:

- The comment on `version_min_command` (ios2macosversion.cpp:34-35) calls the
  encoding "nibbles xxxx.yy.zz". `calc_version` shifts by 16 and 8 bits and
  combines with OR, so the groups are 16/8/8 bits and can overlap. See
  `MinorSpillsIntoMajor` and `MajorKeepsLow16Bits`.
- `calc_version` counts pieces in a `uint8_t`. Pieces after the third are
  ignored only up to piece 255: the counter then wraps, and piece 256 starts
  a new encoding. See `PackRestartsAfterCounterWrap` and `PackIsLastRound`.

## Model

| member | source | states |
|---|---|---|
| Version.CalcVersion | ios2macosversion.cpp:56-87 | The result equals `VersionFromString(arg)` and is never 0. It is the encoding `c0 << 16` OR `c1 << 8` OR `c2` of the components read since the 8-bit counter last returned to 0, or 657930 when that encoding is 0. |
| Version.PackIndexCounts | ios2macosversion.cpp:60-80 | After n pieces the `uint8_t` counter holds n mod 256. |
| Version.PackIgnoresLaterPieces | ios2macosversion.cpp:66-79 | Pieces 3 to 255 leave the word as the first three made it. |
| Version.PackIsDottedValue | ios2macosversion.cpp:61-81 | With at most 256 pieces, the word is `c0 << 16` OR `c1 << 8` OR `c2`. A missing piece counts as 0 and later pieces are ignored. |
| Version.PackRestartsAfterCounterWrap | ios2macosversion.cpp:60-80 | With more than 256 pieces, the loop state is the one left by the pieces from index 256 on. The counter wraps, and everything read before is forgotten. |
| Version.LastRoundStart | ios2macosversion.cpp:60-80 | The start of the last counter round is a multiple of 256, leaves at most 256 pieces after it, and leaves at least one when there is any piece. This pins it down uniquely. |
| Version.PackIsLastRound | ios2macosversion.cpp:60-81 | For any number of pieces, the word is the dotted encoding of the pieces read since the counter last came back to 0. |
| Version.VersionOf | ios2macosversion.cpp:82-86 | The result is never 0. It equals the loop's word whenever that word is not 0. |
| Version.VersionOfDotted | ios2macosversion.cpp:61-86 | With at most 256 pieces, the result is the dotted encoding when that is not 0, and 657930 when it is 0. |
| Version.MinorSpillsIntoMajor | ios2macosversion.cpp:69-75 | Because the pieces are combined with OR, the bits of a minor above 255 land in the major: the encoding of M.m equals that of (M OR (m >> 8)).(m & 0xff). For example "1.512" encodes like "3" and "1.256" like "1". |
| Version.MajorKeepsLow16Bits | ios2macosversion.cpp:69-86 | Only the low 16 bits of the major survive the 32-bit shift. A major of 65536 therefore encodes as 0 and comes back as 657930. |
| Version.SplitOnDots | ios2macosversion.cpp:61 | Splitting on '.' always yields at least one piece. |
| Version.SplitOnDotsHasNoDots | ios2macosversion.cpp:61 | No piece delivered by the split contains a '.'. |
| Version.JoinSplitOnDots | ios2macosversion.cpp:61 | Joining the split pieces with '.' gives back the original string, so the split loses nothing but the delimiters. |
| Version.PiecesRule | ios2macosversion.cpp:58-61 | The pieces `getline` delivers for `s + "."` are exactly the split of `s`, so an empty last piece is dropped. For a non-empty `s` not ending in '.', every piece of the split is delivered. |
| Version.PiecesEmptyIff | ios2macosversion.cpp:58-61 | `getline` delivers no piece exactly when the argument is empty. |
| Version.ThreePieces | ios2macosversion.cpp:58-61 | Three dot-free pieces joined by '.', the last non-empty, come back as exactly those three pieces. |
| Version.ParseComponent | ios2macosversion.cpp:62-65 | A parsed component never exceeds 0xFFFFFFFF. |
| Version.ParseComponentValue | ios2macosversion.cpp:62-65 | A piece made of white space, the decimal numeral of n, and a rest that does not start with a digit extracts as n, or as 0xFFFFFFFF when n exceeds 32 bits. This covers " 12", "12abc" and "12 ". |
| Version.ParseNoDigits | ios2macosversion.cpp:62-65 | A piece whose first non-blank character is not a digit extracts as 0, the value a failed conversion stores. The model also gives 0 for a blank piece (see "Left out"). |
| Version.ParseDecimal | ios2macosversion.cpp:62-65 | Parsing the decimal numeral of any 32-bit number gives that number back. |
| Version.VersionOfDottedString | ios2macosversion.cpp:56-87 | For 32-bit numbers x, y, z, the string "x.y.z" of their decimal numerals encodes as `x << 16` OR `y << 8` OR `z` in 32 bits, or 657930 when that is 0. |
| VersionExamples.PackedExamples | ios2macosversion.cpp:66-86 | Components 13,0,0 give 851968. Components 1,2,3 give 66051. Components 0,0,0 give 657930. |
| VersionExamples.PiecesExample | ios2macosversion.cpp:58-61 | "13.0.0" is read as the pieces "13", "0", "0". |
| VersionExamples.ParseExamples | ios2macosversion.cpp:62-65 | "12abc" parses as 12. "abc" parses as 0. The model also reads "" as 0 (see "Left out"). |
| VersionExamples.VersionExampleEmpty | ios2macosversion.cpp:82-85 | The empty argument gives 657930. |
| MachO.ScanFrom | ios2macosversion.cpp:147-166 | A walk ends with no match, out of bounds, or a rewrite. A rewrite is at or after the start, lies wholly in the image, and is at an `LC_VERSION_MIN_IPHONEOS` command. |
| MachO.Walk | ios2macosversion.cpp:119-167 | Fat magic (either byte order) gives `FatUnsupported` exactly. Any other magic except `MH_MAGIC_64` gives `WrongMagic` exactly. No match and a rewrite both imply an accepted 64-bit header. A rewrite lies after the header, at an `LC_VERSION_MIN_IPHONEOS` command, and fits 16 bytes. |
| MachO.ExitStatus | ios2macosversion.cpp:119-137 | Exit 0 exactly for no match or a rewrite, 4 exactly for a fat image, 5 exactly for a wrong magic. |
| MachO.MacVersionMinCommand | ios2macosversion.cpp:155-161 | The 16 new bytes read back as cmd 0x24, cmdsize 16, version = minversion, sdk = sdk. |
| MachO.Patched | ios2macosversion.cpp:155-161 | The patched image has the same length and differs only in the 16 bytes at the offset. Those bytes read back as the macOS command. |
| MachO.WriteCommand | ios2macosversion.cpp:155-161 | The byte-by-byte copy leaves the array equal to `Patched` of its old contents. |
| MachO.ReplaceMachHeader | ios2macosversion.cpp:119-167 | The outcome is `Walk` of the old image. The file afterwards is `Rewrite` of the old image: changed only on a rewrite, and then as `Patched`. |
| MachO.OffsetsIncrease | ios2macosversion.cpp:164-165 | The offsets the walk visits never decrease. |
| MachO.ScanFromStopsAtMatch | ios2macosversion.cpp:151-165 | A rewrite happens at the k-th visited command for some k below the count. Every command visited before it is in the image and is not 0x25. |
| MachO.ScanFromFindsMatch | ios2macosversion.cpp:151-165 | Conversely, if commands 0..k-1 pass, command k is 0x25, k is below the count, and 16 bytes fit at command k, then the walk rewrites command k. |
| MachO.ScanFromNoMatch | ios2macosversion.cpp:151-165 | A walk ends without a match exactly when every one of its commands is in the image and is not 0x25. |
| MachO.ScanFromOutOfBounds | ios2macosversion.cpp:150-165 | A walk runs off the image only at a visited command whose 8-byte header does not fit, or which is 0x25 and whose 16 bytes do not fit. Every earlier command passes. |
| MachO.RewritesFirstIPhoneCommand | ios2macosversion.cpp:147-166 | A rewrite is at the first `LC_VERSION_MIN_IPHONEOS` command among the first `ncmds` commands, counted from the end of the header. |
| MachO.FirstIPhoneCommandIsRewritten | ios2macosversion.cpp:147-166 | If command k (k < ncmds) is the first 0x25 command and fits, the run rewrites exactly that command. |
| MachO.NoMatchIff | ios2macosversion.cpp:144-167 | A run ends normally without a change exactly when the header is accepted and each of the first `ncmds` commands is in the image and not 0x25. This includes `ncmds` = 0. |
| MachO.OutOfBoundsAt | ios2macosversion.cpp:150-165 | With an accepted header, the walk leaves the image only at a command whose header or whose 16 rewritten bytes do not fit. |
| MachO.RewriteLeavesUnmatchedImage | ios2macosversion.cpp:119-167 | A fat image, a wrong magic, an image without a match, and a truncated image are all left byte for byte unchanged. |
| MachO.RewriteChangesOnlyMatchedCommand | ios2macosversion.cpp:153-162 | A rewrite keeps the length, the 32-byte header and `ncmds`, and every byte outside the matched command. The matched command then reads 0x24 / 16 / minversion / sdk. |
| MachO.PatchKeepsOffsets | ios2macosversion.cpp:160-165 | Suppose commands before the match are at least 8 bytes and the matched command already had cmdsize 16. Then the patched image's walk visits the same offsets. |
| MachO.PatchLeavesNoIPhoneCommand | ios2macosversion.cpp:153-165 | Under the same layout, and with no later 0x25 command, no command of the patched image is 0x25. |
| MachO.SecondRunChangesNothing | ios2macosversion.cpp:147-166 | Under that layout, a second run with any versions leaves the rewritten image unchanged. In particular, rewriting twice equals rewriting once. |
| Bytes.LeBytes | ios2macosversion.cpp:28-36 | Storing a 32-bit field gives 4 bytes that read back as that field. |
| Bytes.ReadStoredWord | ios2macosversion.cpp:28-36 | Bytes stored for a word, read at any offset, give that word. |
| Bytes.StoreReadWord | ios2macosversion.cpp:28-36 | Re-storing the word read at an offset reproduces exactly the 4 bytes there. |
| Bytes.LoadU32 | ios2macosversion.cpp:150-153 | Reading a `uint32_t` field from the mapped array gives the little-endian word at that offset. |

## Left out

- `main` and `print_usage` are not part of this model. This covers argument parsing and the usage message.
- The file is not opened, stat'ed, mapped, synced, unmapped or closed here. `ReplaceMachHeader` receives the mapped bytes as an array. Exit codes 1 to 3 and all console messages are left out with that I/O.
- Host byte order is fixed to little-endian, the order of the Mach-O images the tool targets.
- OutOfBounds is a model addition. The program reads the magic, the header, each visited command and the 16 rewritten bytes without checking the file size. The model reports `OutOfBounds` where those reads would leave the image. It counts the 32-byte header as part of the check.
- ExitStatus has no code for `OutOfBounds`, because the program's behaviour there is undefined.
- ReplaceMachHeader counts commands with an unbounded `nat`. The source's `int i` would overflow, with undefined behaviour, once `ncmds` exceeds 2^31 - 1.
- ParseComponent, ParseNoDigits, ParseExamples: an empty or white-space-only piece (as in "13..0", ".5" or "13.0. ") makes the extraction at ios2macosversion.cpp:65 fail before it stores anything, so `_versionnum`, declared without an initializer at line 64, is combined into the word with an indeterminate value. That is undefined behaviour; the model reads such a piece as 0.
- ParseComponent does not model a leading '+' or '-'. Stream extraction into an unsigned type accepts a sign and negates modulo 2^32. The model reads such a piece as having no digits, giving 0.
- SecondRunChangesNothing is proved only for images laid out as the format intends: every command before the match is at least 8 bytes, the matched command is 16 bytes, and no later command among the first `ncmds` is 0x25. Without these conditions a second run can differ, because the rewrite sets `cmdsize` to 16. That changes where the walk goes next.
