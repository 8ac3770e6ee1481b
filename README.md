# mdcorrupt, modelled in Dafny

mdcorrupt corrupts game ROMs and Nintendo game assets for glitch art. It
changes bytes at regular intervals and tries to avoid changes that would
stop the game from loading. This project models its core and proves
properties of that model:

- **The corruption loop** (`corrupt.cpp`, module `Engine`). It walks
  `i = start, start + step, …` below a limit and applies one of eleven
  operations at each `i`: Shift, Swap, Add, Set, Random, the two
  rotations, And, Or, Xor and Complement. Before each write it asks the
  console's `valid_byte`. Random draws come from an oracle indexed by the
  number of bytes drawn so far, and a draw is retried at most 100 times.
  The NES PRG-ROM pass and the NDS per-file pass use variants of this
  loop.
- **The Nintendo corrupter** (`extensions/nintendo`):
  - the Yaz0 codec, as a decoder and an encoder with a round-trip proof (module `Yaz0`);
  - the Yay0 decoder (`Yay0`);
  - the RARC and U8 archive parsers (`Rarc`, `U8`);
  - the J3D block windows of BMD, BMT, BCK and BTP files (`J3d`);
  - the dispatcher `NintendoFile::start` (`Nintendo`). It decompresses a buffer, dispatches on its magic, and recurses into archive entries.
- **The consoles' validity predicates and passes:**
  - NES PRG and CHR passes with their options (`Nes`, `NesConfig`);
  - SNES header scoring and the 65816 guard (`Snes`);
  - Game Boy (`Gbc`), GBA and NDS ARM (`Arm`), N64 (`N64`);
  - the Genesis branch guard, checksum and vector patch (`Genesis`).
- **The file-system tables:**
  - the NDS FNT/FAT file system and its per-file corruption (`Nds`);
  - the GameCube FST (`GameCube`);
  - the ISO 9660 path-table and directory records of the IMG extension (`Img`).
- **The command line:** `split_args` (`Args`), and the generic options of `CorruptionInfo` (`Config`).
- **The helpers of `include/util.h` and `include/helpers.h`:** endian readers, the C-string reader, rotations, `subset` and `split` (`Util`, `Helpers`, `Strings`).

Fixed-width integers are subset types of `int` (module `Bytes`). Wherever
the C++ relies on `uint32_t` wrap-around, the model calls `Wrap32`
explicitly. The outcome type `Res` has two cases besides `Ok`:

- `Undefined` is an unchecked read or copy past a buffer, which is undefined
  behaviour in C++. The model follows these to that point in a few places:
  - a corruption pass whose NES PRG-ROM Add reads `rom[i + value]` past the end;
  - an NDS per-file pass, for a FAT entry that runs past the ROM's end, whose
    operation other than Shift or Swap reads `rom[i]` past the end, or whose
    Shift or Swap index `i + value` wraps back below the ROM's size (Shift and
    Swap otherwise skip such an index, `extensions/nds/nds.cpp:77` and `:86`);
  - the SNES reset-opcode read;
  - the NDS name-table walk;
  - the RARC and U8 entry copies;
  - a Yaz0 or Yay0 stream that runs past its source, or a Yaz0 `throw;` with no active exception (the decoders give `None`, and `Nintendo.Start` turns that into `Undefined`).
- `Unmodelled` is behaviour the model does not follow to its end:
  - a corruption loop whose step is 0 or whose 32-bit index would wrap;
  - an NDS name-table length byte of 0x80, which never moves the cursor;
  - an NDS name-table cursor or per-file window that would pass 2^32;
  - a RARC directory offset that would pass 2^32;
  - a dispatcher whose fuel runs out.

Other unchecked reads are modelled another way: as a precondition, as a
guarded read that gives 0, or as no match. Each is listed under
"## Left out".

Where "## Findings" shows the code going wrong, the members that model the
program follow the code as written. The corrected behaviour is kept beside
it, as a separate member or as a flag on the same member, and its rows say
so.

In the Swap operation the code and its own comments disagree, and the model
follows the code. The comments on the guard in `Corruption::corrupt`
(`corrupt.cpp:78-79`) ask whether each byte may go to the other's position,
as an exchange would need. Both `Corruption::corrupt` and
`NintendoFile::corrupt` instead write the byte at `i + value` into both
places. `Engine.SwapCopies` states this, and the NDS per-file pass copies in
the same way. The NES PRG-ROM and CHR-ROM passes are written separately,
and they do exchange the two bytes.

## Model

| member | source | states |
|---|---|---|
| Util.ReadLe | include/util.h:60-77 | 0 when offset + width passes the end of the buffer; otherwise the value whose little-endian encoding is exactly the bytes at offset |
| Util.Read | include/util.h:60-77 | the accumulating read<T> loop returns ReadLe |
| Util.ReadBe | include/util.h:79-96 | 0 when the window passes the end; otherwise the value whose big-endian encoding is exactly the bytes at offset |
| Util.ReadBig | include/util.h:79-96 | the read_big<T> loop, last byte first, returns ReadBe |
| Util.BeAt | include/util.h:79-96 | a field holding the big-endian encoding of v reads back as v |
| Util.LeAt | include/util.h:60-77 | a field holding the little-endian encoding of v reads back as v |
| Util.TrimRight | include/util.h:117 | the result is a prefix of the input, ends in a non-blank, and only " \n\r\t" was removed |
| Util.NulFrom | include/util.h:108-114 | the first NUL at or after the start, or none when no byte up to the end is NUL |
| Util.ReadString | include/util.h:98-119 | "" when offset + size passes the end; size 0 reads up to the next NUL; trailing blanks trimmed; a scan running off the end is reported |
| Util.ReadTextTag | include/util.h:98-119 | a fixed-width read equals a tag not ending in a blank iff the raw bytes spell it |
| Util.RorUndoesRol | include/util.h:169-181 | rotation by n mod 8 in either direction is undone by the other, for every n |
| Util.Subset | include/util.h:183-186 | the count elements starting at start, in order |
| Helpers.Read | include/helpers.h:40-52 | with no bounds guard the caller must keep offset + width in range, and the loop then returns the little-endian value |
| Helpers.ReadBig | include/helpers.h:54-66 | same unchecked precondition; returns the big-endian value |
| Helpers.ReadString | include/helpers.h:68-84 | with the window in range: a sized read is the trimmed text, size 0 scans to the NUL and trims |
| Strings.Find | include/util.h:139 | std::search: the first index at or after i where the delimiter occurs, or the end |
| Strings.FindFirst | include/util.h:139 | no occurrence starts before the index search returns |
| Strings.SplitLoop | include/util.h:125-156 | the split loop returns exactly Split: [s] for an empty delimiter, else the pieces between delimiters |
| Strings.JoinSplit | include/util.h:125-156 | keeping empty pieces, joining the pieces with the delimiter gives back the input |
| Strings.PiecesAvoidDelim | include/util.h:137-153 | no piece contains the delimiter |
| Strings.SplitDropsEmpty | include/util.h:142-145 | without keep_empty the result is the full split with empty pieces filtered out, order kept |
| Args.SplitArgs | main.cpp:126-161 | the character loop returns the arguments Tokens defines |
| Args.StepKeeps | main.cpp:134-151 | one character: '"' flips quoting and is dropped, an unquoted space ends the argument, anything else is appended |
| Args.RunKeeps | main.cpp:132-153 | over any input the scan ends inside quotes iff it saw an odd number of '"', and what it wrote is the kept text |
| Args.TokensKept | main.cpp:126-161 | no argument is empty or holds '"', and the arguments concatenated are the input with every '"' and every unquoted space removed |
| Args.SpaceSeparates | main.cpp:140-147 | an unquoted space splits: the arguments of a + " " + b are those of a followed by those of b |
| Args.Word | main.cpp:148-158 | a non-empty word with no quote or space is one argument |
| Args.QuotedWord | main.cpp:134-151 | a quoted text keeps its spaces and loses its quotes: one argument |
| Config.Lookup | corruptioninfo.cpp:34-145 | the flag an argument selects is that of a listed spelling equal to it, or Unknown |
| Config.FileRun | corruptioninfo.cpp:106 | the number of arguments after -f before the first one starting with '-' stays within the list |
| Config.FileRunStops | corruptioninfo.cpp:106-109 | every argument -f takes is not an option, and the argument after them, if any, is one |
| Config.FilesAfter | corruptioninfo.cpp:106-109 | the inner -f loop stops at the index FileRun gives |
| Config.Step | corruptioninfo.cpp:30-146 | one loop pass always moves the index forward and stays within the arguments |
| Config.ReadArg | corruptioninfo.cpp:32-145 | the loop body: value flags read the next argument, -r/--logical-complement set only the type, --list sets list, -f takes the following file names, anything else changes nothing; a value flag given last is reported |
| Config.ParseArgs | corruptioninfo.cpp:17-147 | the constructor's loop returns Parse of the arguments |
| Config.NoArgsDefaults | corruptioninfo.cpp:20-28 | the defaults: type None, step 0, start 0, end UINT32_MAX, value 0, list false, empty out-file |
| Config.ParseConcat | corruptioninfo.cpp:30-146 | parsing composes: a completely read prefix leaves the options the rest starts from |
| Config.LastFlagWins | corruptioninfo.cpp:34-103 | a value flag appended last sets exactly its own field (type and value for operation flags), so the last one wins |
| Config.UnknownIgnored | corruptioninfo.cpp:141-145 | an unrecognised flag changes no field |
| Config.FilesComeFromArgs | corruptioninfo.cpp:104-110 | every file recorded was an argument that does not start with '-' |
| Config.StepFiles | corruptioninfo.cpp:104-110 | the files one pass adds are non-option arguments after the flag |
| Engine.RandomTry | corrupt.cpp:105-120 | at most 100 draws; a value it returns is the last byte drawn and is one valid_byte accepted |
| Engine.Apply | corrupt.cpp:63-176 | one loop body keeps the ROM length, writes only rom[i] (and rom[i+value] for Swap), breaks out exactly when no corruption type is set, and, with the bounds guard, skips a Shift or Swap whose partner is past the end before reading anything |
| Engine.Run | corrupt.cpp:61-177 | the whole loop keeps the ROM length; the corruption count and the number of bytes drawn only grow |
| Engine.RunFrame | corrupt.cpp:61-63 | a position the loop never visits (below start, at or past end, or off the step grid) comes out unchanged |
| Engine.RunPointwise | corrupt.cpp:121-172 | with every byte accepted, Rotate/And/Or/Xor/Complement rewrite exactly the positions start, start+step, ... below end, each with the byte operator applied once |
| Engine.RunAcceptAll | corrupt.cpp:187-190 | a valid_byte that accepts every byte yields the same pass as the default one |
| Engine.RunUndo | corrupt.cpp:121-172 | rotating left then right by the same amount, or xor-ing twice or complementing twice, over the same positions restores the ROM |
| Engine.Visits | corrupt.cpp:61 | the loop visits ceil((end - i) / step) positions from i on |
| Engine.NoFault | corrupt.cpp:74-86 | with the bounds guard on the swap partner the pass never reads past the ROM |
| Engine.MovesNoFault | extensions/nds/nds.cpp:72-95 | a guarded Shift or Swap pass never reads past the ROM, even when its bound runs past the end, as long as i + value does not wrap |
| Engine.EveryVisitCounts | corrupt.cpp:105-179 | every visit of a byte-operator or Random pass counts one corruption, and Random draws exactly one byte per visit when every byte is accepted |
| Engine.RunAccepted | corrupt.cpp:96-172 | every byte the pass changes is one that valid_byte promised to accept at its position |
| Engine.RunShielded | corrupt.cpp:96-172 | a region whose bytes valid_byte refuses to change comes out of the pass unchanged |
| Engine.SwapCopies | corrupt.cpp:74-86 | Swap copies rom[i+value] into rom[i] and leaves the partner as it was: 10 20 30 40 with value 1 becomes 20 30 40 40 |
| Engine.Corruption.constructor | corrupt.cpp:8-26 | the object holds the ROM, the options and the random draws used so far |
| Engine.Corruption.TryRandom | corrupt.cpp:105-120 | the retry loop over the random generator returns what RandomTry does and advances the draw count to match |
| Engine.Corruption.CorruptAt | corrupt.cpp:63-176 | the in-place loop body leaves the ROM as Apply says (a guarded Shift or Swap whose partner is past the end is skipped unread), or untouched when it breaks or skips |
| Engine.Corruption.RunPass | corrupt.cpp:61-177 | the in-place loop leaves the ROM, count and draws as Run says |
| Engine.Corruption.Corrupt | corrupt.cpp:55-180 | corrupt() runs the configured pass from start to end (the ROM size when end is past it) and leaves the ROM as Run says |
| Nintendo.Corrupt | extensions/nintendo/nintendo.cpp:126-224 | the Nintendo corruption loop never reads out of bounds, keeps the length, and terminates exactly when the step is positive and the index cannot wrap |
| Nintendo.CorruptFrame | extensions/nintendo/nintendo.cpp:140-142 | bytes before start, at or past end, or off the step grid are kept |
| Nintendo.CorruptPointwise | extensions/nintendo/nintendo.cpp:180-213 | the byte operators rewrite exactly the visited positions (no valid_byte in this loop) |
| Nintendo.CorruptDraws | extensions/nintendo/nintendo.cpp:175-179 | a Random pass draws exactly one byte per visited position |
| Nintendo.CorruptWindow | extensions/nintendo/bmd_file.cpp:181-183 | copying [begin, end) out, corrupting it and copying it back throws (as libstdc++ does) when begin > end, is undefined when end passes the data, and otherwise changes nothing outside the window |
| Nintendo.CorruptWindows | extensions/nintendo/bmd_file.cpp:176-212 | the section windows in order: nothing outside every window changes, and undefined behaviour comes only from a window that ends past the data |
| Nintendo.Bck | extensions/nintendo/bck_file.cpp:21-32 | BCK corruption keeps the fixed 0x60-byte header it assumes, and is undefined exactly when the data is shorter than the 0x28 bytes its header parse reads |
| Nintendo.Btp | extensions/nintendo/btp_file.cpp:5-11 | BTP corruption keeps the first 0x20 header bytes and never misbehaves |
| Nintendo.BmdOutside | extensions/nintendo/bmd_file.cpp:176-212 | a byte outside all eight section windows survives a BMD corruption |
| Nintendo.Decompress | extensions/nintendo/nintendo.cpp:37-48 | a buffer without a Yaz0 or Yay0 tag is passed through unchanged |
| Nintendo.EncodedStart | extensions/nintendo/nintendo.cpp:37-48 | starting on the Yaz0 encoding of a buffer corrupts as starting on the buffer itself |
| Nintendo.Start | extensions/nintendo/nintendo.cpp:17-124 | start keeps the length of an uncompressed file and only consumes random draws |
| Nintendo.Dispatch | extensions/nintendo/nintendo.cpp:50-92 | every handler the magic selects keeps the file's length |
| Nintendo.RarcLoop | extensions/nintendo/rarc_file.cpp:149-171 | the loop over archive entries keeps the archive's length, whether its bounds check is the uint32_t sum as written or the corrected one |
| Nintendo.RarcStep | extensions/nintendo/rarc_file.cpp:152-170 | in a run that does not fail, the check as written skips exactly the entries whose data passes the end; such an entry, or one tagged Yaz0/Yay0 or of 4 bytes or fewer, is skipped, and any other is started and copied back at its offset |
| Nintendo.RarcOutside | extensions/nintendo/rarc_file.cpp:149-171 | with either bounds check, a byte outside every entry's data survives the archive corruption |
| Nintendo.RarcWrapUndefined | extensions/nintendo/rarc_file.cpp:152-169 | an entry past the end whose offset + size wraps past 2^32 passes the check as written, so the run copies past the buffer and is undefined; the corrected run skips it |
| Nintendo.RarcFile.constructor | extensions/nintendo/rarc_file.cpp:79-102 | the object holds a copy of the data and the parsed header and entry map |
| Nintendo.RarcFile.Corrupt | extensions/nintendo/rarc_file.cpp:120-174 | the in-place entry loop leaves the data as RarcLoop with the check as written says |
| Nintendo.RarcFile.CorruptEntry | extensions/nintendo/rarc_file.cpp:151-170 | one in-place iteration, with the check as written, advances RarcLoop by one entry |
| Nintendo.U8Loop | extensions/nintendo/u8_file.cpp:53-73 | the loop over U8 files keeps the archive's length |
| Nintendo.U8Step | extensions/nintendo/u8_file.cpp:55-72 | a file tagged Yaz0 is skipped; any other is started and copied back at its data start |
| Nintendo.U8Outside | extensions/nintendo/u8_file.cpp:53-73 | a byte outside every file's data survives the U8 corruption |
| Nintendo.U8FileInPlace | extensions/nintendo/u8_file.cpp:55-72 | one in-place iteration advances U8Loop by one file |
| Nintendo.U8InPlace | extensions/nintendo/u8_file.cpp:47-76 | the in-place corruption leaves the data as U8Corrupt says |
| Nintendo.CopyInto | extensions/nintendo/rarc_file.cpp:169 | std::copy into the buffer is Splice |
| Nintendo.CopyOut | extensions/nintendo/rarc_file.cpp:159 | the vector built from [begin, end) holds exactly those bytes |
| Nintendo.CorruptInPlace | extensions/nintendo/nintendo.cpp:126-224 | the in-place Nintendo loop leaves the buffer as Corrupt says |
| Nintendo.WindowInPlace | extensions/nintendo/bmd_file.cpp:181-183 | one in-place section corruption leaves the buffer as CorruptWindow says |
| Nintendo.BmdInPlace | extensions/nintendo/bmd_file.cpp:176-212 | the in-place BMD corruption leaves the buffer as Bmd says |
| J3d.Chain | extensions/nintendo/bmd_file.cpp:139-162 | the section headers start at 0x20 and there is one per section |
| J3d.Windows | extensions/nintendo/bmd_file.cpp:139-162 | the eight windows are read at the chained header offsets, in order INF, VTX, EVP, DRW, JNT, SHP, MAT, TEX |
| J3d.ChainSum | extensions/nintendo/bmd_file.cpp:139-162 | section i's header is at 0x20 plus the sizes of the sections before it, modulo 2^32 |
| J3d.JntSpan | extensions/nintendo/bmd_file.h:203-213 | the joint window is count * 0x40 bytes long, modulo 2^32 |
| Rarc.EntryLayout | extensions/nintendo/rarc_file.cpp:8-17 | a 0x14-byte record with id at 0, name offset at 6, data offset at 8 and size at 12 (big-endian) parses back to those fields, and is a directory exactly when its id is 0xFFFF |
| Rarc.ParseHeader | extensions/nintendo/rarc_file.cpp:19-39 | the header parse is defined exactly when the archive has the 32 bytes it reads unchecked |
| Rarc.ValidMagic | extensions/nintendo/rarc_file.h:95-98 | valid() holds exactly when the archive begins with "RARC" |
| Rarc.NodeLayout | extensions/nintendo/rarc_file.cpp:41-57 | a node's entry count and first-entry index are the big-endian fields at 10 and 12, and its i-th entry sits at file_table() + (first + i) * 0x14, modulo 2^32 |
| Rarc.EntriesRecorded | extensions/nintendo/rarc_file.cpp:54-75 | the node parser never records "." or "..", and records every entry under its own path, which ends in "/" + its name |
| Rarc.RecordRecorded | extensions/nintendo/rarc_file.cpp:62-74 | recording one entry (file or directory) keeps every recorded entry under its own path |
| Rarc.FileRecorded | extensions/nintendo/rarc_file.cpp:62-68 | recording a file keeps every recorded entry under its own path |
| Rarc.DirRecorded | extensions/nintendo/rarc_file.cpp:62-74 | recording a directory, and the sub-node parsed for it, keeps every recorded entry under its own path |
| Rarc.RecordDir | extensions/nintendo/rarc_file.cpp:69-73 | a directory entry makes the parser read a sub-node at offset + (subdirs + 1) * 0x10 under the path so far, and go on with one more directory counted |
| Rarc.PutRecorded | extensions/nintendo/rarc_file.cpp:64-67 | m_files[path] = entry with path = parent + name + "/" + entry name keeps every entry recorded |
| Rarc.CompactKeeps | extensions/nintendo/rarc_file.cpp:104-118 | compact's std::map insert keeps the first entry for a path: one already in files stays, and one only the node itself recorded comes from the node |
| Rarc.CompactAllKeeps | extensions/nintendo/rarc_file.cpp:107-111 | merging the sub-nodes never replaces an entry already present |
| Rarc.Parse | extensions/nintendo/rarc_file.cpp:79-102 | a parsed archive had at least the 32 header bytes and holds their parse |
| Rarc.GuardsAgree | extensions/nintendo/rarc_file.cpp:152-157 | the uint32_t bounds check and the intended one agree whenever offset + size does not wrap |
| Rarc.GuardWraps | extensions/nintendo/rarc_file.cpp:152-157 | a 0x40-byte archive with an entry of 0xFFFFFFF0 bytes at 0x20 passes the check as written though its data lies past the end |
| U8.EntryLayout | extensions/nintendo/u8_file.h:17-35 | an entry's type is its first byte and its string offset the next three bytes; it is a file when the type is 0 and a directory when it is 1 |
| U8.EntryAt | extensions/nintendo/u8_file.cpp:7-12 | util::subset of the 12 entry bytes yields an entry exactly when they lie inside the data, and that entry reads the data in place |
| U8.SubsetEntry | extensions/nintendo/u8_file.cpp:16-20 | parsing the 12-byte copy gives the same entry as parsing the data at its offset |
| U8.ParseFst | extensions/nintendo/u8_file.cpp:14-27 | the FST holds data_size() - 1 entries after the root, none when the root's size is 0 |
| U8.FstFrom | extensions/nintendo/u8_file.cpp:18-26 | the k-th FST entry is the one parsed at offset + (k + 1) * 12, modulo 2^32 |
| U8.Files | extensions/nintendo/u8_file.h:83-96 | files() holds exactly the entries whose type is 0 |
| U8.FilesAppend | extensions/nintendo/u8_file.h:83-96 | filtering files distributes over concatenation, so their order is kept |
| U8.FilesOf | extensions/nintendo/u8_file.h:83-96 | the push_back loop returns Files |
| U8.ReadFst | extensions/nintendo/u8_file.cpp:14-27 | the FST constructor loop returns ParseFst |
| Yaz0.PackTop | extensions/nintendo/yaz0.cpp:101 | the decoder's (code & 0x80) != 0 test reads the first pending flag of the control byte |
| Yaz0.PackShift | extensions/nintendo/yaz0.cpp:149 | code <<= 1 on a uint8_t moves on to the next flag |
| Yaz0.OrFlag | extensions/nintendo/yaz0.cpp:210 | currCodeByte \|= 0x80 >> validBitCount sets exactly the next flag |
| Yaz0.ExpandGrows | extensions/nintendo/yaz0.cpp:91-150 | every well-formed literal or run adds at least one byte to the output |
| Yaz0.Consume | extensions/nintendo/yaz0.cpp:101-147 | one unit (literal or run) grows dst and uses up one control bit, shifting the code byte |
| Yaz0.Inflate | extensions/nintendo/yaz0.cpp:91-151 | the loop stops only once dst holds at least uncompressedSize bytes |
| Yaz0.InflateWithin | extensions/nintendo/yaz0.cpp:83-154 | decodeYaz0 never reports having read past the end of src |
| Yaz0.DecodeYaz0 | extensions/nintendo/yaz0.cpp:83-154 | decodeYaz0 on the dst array aborts where Inflate does, otherwise returns its cursors and leaves its output in dst |
| Yaz0.InflateBody | extensions/nintendo/yaz0.cpp:91-151 | groups of a control byte and up to eight units decode to the expansion of their tokens and consume exactly their bytes |
| Yaz0.FindMagic | extensions/nintendo/yaz0.cpp:297-301 | the search stops at the first position holding "Yaz0", or where fewer than four bytes remain, and passes only positions without the magic |
| Yaz0.MagicText | extensions/nintendo/yaz0.cpp:298 | util::read(src, i, 4) == "Yaz0" exactly at the magic bytes |
| Yaz0.SeekMagic | extensions/nintendo/yaz0.cpp:297-301 | the search loop returns FindMagic |
| Yaz0.Decode | extensions/nintendo/yaz0.cpp:289-326 | decode's outer loop returns DecodeFrom: the blocks found one after the other, concatenated |
| Yaz0.CommonSame | extensions/nintendo/yaz0.cpp:29-33 | the inner while loop measures exactly how far the data at i repeats the data at pos |
| Yaz0.LongestAtLeast | extensions/nintendo/yaz0.cpp:26-42 | no start in the window matches further than the one the for loop keeps |
| Yaz0.LongestFirst | extensions/nintendo/yaz0.cpp:36-40 | the loop keeps the first of the longest starts, since it only replaces on a strictly longer match |
| Yaz0.SimpleEncResult | extensions/nintendo/yaz0.cpp:18-45 | simpleEnc answers 1, or a length of at least 3 that the data at matchPos really repeats |
| Yaz0.SimpleEncLongest | extensions/nintendo/yaz0.cpp:18-45 | simpleEnc finds the first longest match in the 0x1000-byte window; a best length of 2 is reported as 1 |
| Yaz0.SimpleEnc | extensions/nintendo/yaz0.cpp:18-45 | the loop method returns SimpleEncResult |
| Yaz0.WindowStart | extensions/nintendo/yaz0.cpp:22 | std::max(0, pos - 0x1000) starts the window at most 0x1000 bytes back |
| Yaz0.Choose | extensions/nintendo/yaz0.cpp:48-81 | nintendoEnc answers 1 or a real match; a look-ahead it saves is a real match at the next position, and it never saves one twice in a row |
| Yaz0.Encoder.NintendoEnc | extensions/nintendo/yaz0.cpp:48-81 | the method on the encoder's fields answers and updates them as Choose says |
| Yaz0.EmitSound | extensions/nintendo/yaz0.cpp:196-245 | the literal or run encode emits for nintendoEnc's answer is well formed and reproduces the next bytes of the input |
| Yaz0.EncodeTokensExpand | extensions/nintendo/yaz0.cpp:196-268 | the tokens encode emits are well formed and expand to the whole input |
| Yaz0.RunUnits | extensions/nintendo/yaz0.cpp:214-241 | a run is written as three bytes (dist >> 8, dist & 0xFF, n - 0x12) from 0x12 bytes on, else as two ((n - 2) << 4 \| dist >> 8, dist & 0xFF) |
| Yaz0.SizeBytes | extensions/nintendo/yaz0.cpp:176-179 | the four size bytes encode pushes are the size in big-endian order |
| Yaz0.Encode | extensions/nintendo/yaz0.cpp:167-287 | encode returns the 16-byte header followed by the groups of the tokens it chose |
| Yaz0.HeaderFields | extensions/nintendo/yaz0.cpp:170-185 | decode finds the header encode writes at offset 0 and reads back the size it stored |
| Yaz0.EncodedBlock | extensions/nintendo/yaz0.cpp:303-322 | the one block encode writes decodes to the input and consumes the whole body |
| Yaz0.RoundTrip | extensions/nintendo/yaz0.cpp:289-326 | decode(encode(x)) == x for every input shorter than 2^31 bytes |
| Yay0.CountFields | extensions/nintendo/yay0.cpp:41-61 | the two count bytes of a run hold its 12-bit distance and, in the high nibble, its length less 2, or 0 when the length (from 0x12 on) comes from the data stream |
| Yay0.FlagShift | extensions/nintendo/yay0.cpp:29-74 | the top bit of the code byte is the flag of the next token, and code <<= 1 moves on to the one after |
| Yay0.Consume | extensions/nintendo/yay0.cpp:29-74 | one literal or run grows dst within its capacity and uses up one control bit |
| Yay0.Inflate | extensions/nintendo/yay0.cpp:19-75 | the loop stops only once dst holds at least uncompressedSize bytes, never past its capacity |
| Yay0.DecodeYay0 | extensions/nintendo/yay0.cpp:9-78 | decodeYay0 on the dst array aborts where Inflate does, otherwise writes its output at the front of dst and leaves the rest untouched |
| Yay0.InflateTokens | extensions/nintendo/yay0.cpp:19-75 | three streams laid out for a token list (flags, count pairs, literal and long-length bytes) decode to that list's expansion |
| Yay0.Decode | extensions/nintendo/yay0.cpp:81-99 | decode returns an empty vector without the "Yay0" magic, and otherwise a buffer of decodedSize + 0x1000 bytes (modulo 2^32) |
| Yay0.DecodeIs | extensions/nintendo/yay0.cpp:88-98 | decode returns what decodeYay0 wrote followed by zeros up to the buffer's size |
| Yay0.MagicText | extensions/nintendo/yay0.cpp:83 | util::read(src, 0, 4) == "Yay0" exactly when the file begins with the magic bytes |
| Yay0.DecodeFile | extensions/nintendo/yay0.cpp:81-99 | the method with the decodeYay0 array loop returns Decode |
| Yay0.PackedHeader | extensions/nintendo/yay0.cpp:88-90 | a file packed from a token list holds the magic, the size and both stream offsets where decode reads them |
| Yay0.DecodePacked | extensions/nintendo/yay0.cpp:81-99 | decoding a packed token list gives back its expansion followed by the 0x1000 zero bytes of slack |
| Yay0.DecodeHeadered | extensions/nintendo/yay0.cpp:81-99 | any file whose header and streams spell a token list decodes to its expansion plus 0x1000 zeros |
| Yay0.DecodeFull | extensions/nintendo/yay0.cpp:88-98 | when decodeYay0 produces exactly decodedSize bytes, decode returns them followed by 0x1000 zeros |
| Snes.IsRegisterByPage | extensions/snes/snes.h:85-102 | is_register's ranges hold exactly the write registers page by page: $21xx, $4016, $420x and the DMA channels $43x0-$43xA |
| Snes.OpcodeScore | extensions/snes/snes_header.cpp:132-169 | the reset opcode scores +8, +4, -4 or -8 by the one list holding it, else 0 |
| Snes.ChecksumBonus | extensions/snes/snes_header.cpp:172-175 | 4 exactly when checksum and complement add up to 0xFFFF and neither is 0 |
| Snes.FieldBonus | extensions/snes/snes_header.cpp:198-204 | the extended-header and range checks add at most 6 |
| Snes.LayoutBonusAtMostTwo | extensions/snes/snes_header.cpp:177-195 | the fall-through switch rewards a layout at most once, and never at an address other than the three candidates |
| Snes.Score | extensions/snes/snes_header.cpp:122-208 | score_header, with the layout read as written (or, flagged, as intended), is 0 for a header past the end or a reset vector below $8000, undefined when the reset opcode's address is past the ROM, and otherwise the clamped sum of the opcode, checksum, layout and field scores, at most 20 |
| Snes.ScoreHeader | extensions/snes/snes_header.cpp:160-169 | the loop over the opcode map returns Score |
| Snes.LayoutBonusNeedsZeroType | extensions/snes/snes_header.cpp:152 | as written the layout word includes the type byte, so the layout bonus needs a type byte of 0 |
| Snes.LoRomWithBattery | extensions/snes/snes_header.cpp:152 | a LoROM header with type 0x02 gets no layout bonus as written and 2 as intended |
| Snes.LayoutOfMapMode | extensions/snes/snes_header.cpp:152 | the intended layout depends on the map-mode byte alone, FastROM bit cleared |
| Snes.ScoreCorrectionNeedsType | extensions/snes/snes_header.cpp:122-208 | with a zero cartridge type byte, the score as written equals the corrected score |
| Snes.DetectCorrectionNeedsType | extensions/snes/snes_header.cpp:18-57 | when all three candidates have a zero type byte, detection as written and as intended find the same header |
| Snes.FirstMax | extensions/snes/snes_header.cpp:32 | std::max_element: a largest score, and the first one |
| Snes.MaxElement | extensions/snes/snes_header.cpp:32 | the scan returns FirstMax |
| Snes.Scores | extensions/snes/snes_header.cpp:24-30 | the three candidates' scores, each shifted by 0x200 when there is a copier header |
| Snes.ScoreAll | extensions/snes/snes_header.cpp:27-30 | the push_back loop returns Scores |
| Snes.Detect | extensions/snes/snes_header.cpp:18-57 | initialize, with the scores as written (or, flagged, as intended), records the copier header, and a found header's 64 bytes are the ROM's bytes at its offset |
| Snes.DetectFindsBest | extensions/snes/snes_header.cpp:32-47 | the offset is 0 exactly when every candidate scores 0; otherwise it is the first best-scoring candidate |
| Snes.Initialize | extensions/snes/snes_header.cpp:18-57 | the method returns Detect |
| Snes.RomSize | extensions/snes/snes_header.cpp:80-83 | rom_size() is 0x400 << the size byte |
| Snes.RamSize | extensions/snes/snes_header.cpp:85-88 | ram_size() is 0 exactly for a size byte of 0, else 0x400 << the byte |
| Snes.RomSizeDoubles | extensions/snes/snes_header.cpp:80-83 | each step of the size byte doubles the size |
| Snes.Begin | extensions/snes/snes_header.cpp:210-226 | begin() is 0x200 past a copier header, and a further 64 KiB past on SuperFX carts |
| Snes.ReadWord | extensions/snes/snes.cpp:117 | read<uint16_t> of two ROM bytes takes the first as the low byte |
| Snes.StaCheckAsWritten | extensions/snes/snes.cpp:108-124 | as written the STA check only fires for STA $xxxx,Y (0x99) whose operand's low byte is 0x43 |
| Snes.StaRomNoBranch | extensions/snes/snes.cpp:91-105 | no branch opcode reaches the low operand byte of the sample STA $2118 |
| Snes.StaStoreAccepted | extensions/snes/snes.cpp:42-127 | as written valid_byte lets a write hit the operand of STA $2118 |
| Snes.StaStoreRefused | extensions/snes/snes.cpp:42-127 | as intended valid_byte refuses that write |
| Snes.StaOperandProtected | extensions/snes/snes.cpp:108-124 | as intended no byte of an STA to a register is ever rewritten |
| Snes.RunKeepsHeader | extensions/snes/snes.cpp:65-75 | a corruption pass with the SNES valid_byte as written never changes the header (or the byte after it) and never writes BRK, COP, STP, WAI, REP or SEP |
| Gbc.Initialize | extensions/gbc/gbc_header.cpp:13-17 | the header copy holds ROM bytes 0x100 .. 0x14E, in order |
| Gbc.Entry | extensions/gbc/gbc_header.cpp:19-22 | entry() is the little-endian word at local offset 2 |
| Gbc.Name | extensions/gbc/gbc_header.cpp:39-55 | name() is the 11-byte title when the Color flag is set, else the 15-byte one |
| Gbc.Manufacturer | extensions/gbc/gbc_header.cpp:57-67 | manufacturer() is 0 without the Color flag, else the little-endian word at local 0x3F |
| Gbc.HeaderInRom | extensions/gbc/gbc_header.cpp:13-67 | the header's fields are the cartridge's fields at their absolute addresses: the entry at 0x102, the logo at 0x104, the Color flag at 0x143, the title at 0x134 |
| Gbc.NearBranchIff | extensions/gbc/gbc.cpp:94-108 | the branch loop refuses exactly a new byte that is a jump or call opcode, or a location inside a jump or call instruction |
| Gbc.ValidByteIff | extensions/gbc/gbc.cpp:52-111 | valid_byte accepts exactly a location past the header, neither the old nor the new byte a return, the new byte no branch, and the location inside no jump or call |
| Gbc.RunKeepsHeader | extensions/gbc/gbc.cpp:55-91 | a corruption pass with the GBC valid_byte leaves the first 0x150 bytes alone and never writes a return or branch opcode |
| Gbc.InsideBranch | extensions/gbc/gbc.cpp:94-108 | valid_byte refuses every byte of a jump or call instruction |
| Gbc.RunKeepsBranch | extensions/gbc/gbc.cpp:94-108 | a jump or call present when the pass begins, opcode and operands, is still there when it ends |
| Gbc.RunKeepsReturn | extensions/gbc/gbc.cpp:86-91 | a return present when the pass begins is still there when it ends |
| Gbc.PushRom | extensions/gbc/gbc.cpp:70-72 | a sample ROM with PUSH BC just past the header |
| Gbc.PushOverwritten | extensions/gbc/gbc.cpp:70-72 | the stack list is never consulted: a PUSH may be overwritten |
| Arm.Opcode1 | extensions/gba/gba.cpp:51 | opcode1 is bits 27..20 of the instruction word |
| Arm.Opcode2 | extensions/gba/gba.cpp:52 | opcode2 is bits 7..4 of the instruction word |
| Arm.MaskedNibble | extensions/gba/gba.cpp:75-84 | opcode2 & 0x0B == 0x0B holds exactly for 0x0B and 0x0F, & 0x0D == 0x0D for 0x0D and 0x0F |
| Arm.AcceptsIff | extensions/gba/gba.cpp:35-88 | valid_byte accepts a word exactly when it is not a branch or load/store by its opcode fields |
| Arm.FieldsOfBytes | extensions/gba/gba.cpp:38-52 | opcode1 comes from the high nibble of byte 2 and the low nibble of byte 3, opcode2 from the high nibble of byte 0 |
| Arm.ShieldsRefused | extensions/nds/nds.cpp:203-256 | while an aligned word is refused, every write into it is refused |
| Arm.RunKeepsTransfers | extensions/nds/nds.cpp:203-256 | a branch or load/store word present when a pass begins comes out of it unchanged |
| N64.Funct | extensions/n64/n64.cpp:91-100 | the function field of a SPECIAL instruction is below 0x40 |
| N64.FormatAsWritten | extensions/n64/n64.cpp:108-110 | instruction & 0x3E00000 stored in a uint8_t is a byte value |
| N64.Format | extensions/n64/n64.cpp:105-130 | the coprocessor format field is below 0x20 |
| N64.FormatIsZero | extensions/n64/n64.cpp:108-110 | as written the format byte is always 0, so the COP0 and COP1 format tests never fire |
| N64.AsWrittenIff | extensions/n64/n64.cpp:66-137 | as written a word is refused exactly when its top byte is below 4 and its function field is at most 0x0F |
| N64.TopIsOpcode | extensions/n64/n64.cpp:69-71 | the high six bits of the top byte are the primary opcode |
| N64.CorrectedRefusesMore | extensions/n64/n64.cpp:66-137 | every word refused as written is also refused by the tests on the real opcode field |
| N64.Cop2Accepted | extensions/n64/n64.cpp:131-135 | a COP2 instruction, which the code means to refuse, is accepted as written and refused when corrected |
| N64.RegimmAccepted | extensions/n64/n64.cpp:101-104 | a REGIMM branch is accepted as written and refused when corrected |
| N64.Cop2Rom | extensions/n64/n64.cpp:60-66 | a ROM whose first word past the header is a COP2 instruction |
| N64.Cop2Overwritten | extensions/n64/n64.cpp:57-137 | on that ROM the as-written guard lets a byte of the COP2 word be overwritten, the corrected one does not |
| N64.ValidatorPromises | extensions/n64/n64.cpp:60-63 | every byte valid_byte accepts, as written and as corrected, lies past the 0x1000-byte header |
| N64.RunKeepsHeader | extensions/n64/n64.cpp:60-63 | a corruption pass with the N64 valid_byte as written leaves every header byte unchanged |
| N64.RunKeepsRefused | extensions/n64/n64.cpp:66-137 | an aligned word valid_byte as written refuses (a SPECIAL instruction with function code 0x00..0x0F) when a pass begins comes out of it unchanged |
| N64.RunKeepsRefusedCorrected | extensions/n64/n64.cpp:66-137 | with the corrected check, every aligned word it refuses when a pass begins (COP2 and REGIMM among them) comes out unchanged |
| Genesis.MaskFFC0 | extensions/genesis/genesis.cpp:55-60 | w & 0xFFC0 keeps the top ten bits of the word |
| Genesis.MaskFF00 | extensions/genesis/genesis.cpp:55 | w & 0xFF00 keeps the high byte |
| Genesis.MaskF000 | extensions/genesis/genesis.cpp:55-60 | w & 0xF000 keeps the top nybble |
| Genesis.MaskF0F8 | extensions/genesis/genesis.cpp:55-66 | w & 0xF0F8 keeps the top nybble and bits 3 to 7 |
| Genesis.AsWrittenIff | extensions/genesis/genesis.cpp:53-67 | as written is_branch recognises exactly Bcc/BSR/BRA, JSR, JMP and DBcc |
| Genesis.IsBranchIff | extensions/genesis/genesis.cpp:53-67 | corrected, is_branch recognises those and the returns RTS, RTR and RTD |
| Genesis.ReturnMissed | extensions/genesis/genesis.cpp:53-67 | RTS, listed as a branch, is not recognised as written because an 8-bit value is compared with a 16-bit word |
| Genesis.ValidByte | extensions/genesis/genesis.cpp:42-51 | valid_byte accepts every byte |
| Genesis.CorruptUnguarded | extensions/genesis/genesis.cpp:42-51 | the Genesis pass is the unguarded corruption pass |
| Genesis.ChecksumAppend | extensions/genesis/genesis.cpp:159-172 | appending a big-endian word adds it to the checksum modulo 2^16 |
| Genesis.WordSumSame | extensions/genesis/genesis.cpp:159-172 | the word sum depends only on the bytes it covers |
| Genesis.ChecksumIgnoresHead | extensions/genesis/genesis.cpp:159-172 | the checksum does not depend on anything below 0x200 |
| Genesis.PatchFrom | extensions/genesis/genesis.cpp:109-134 | the vector-table loop keeps the ROM's length |
| Genesis.PatchFromBytes | extensions/genesis/genesis.cpp:109-134 | the loop from slot i rewrites each byte of i..0xFF to its patched value and leaves every other byte |
| Genesis.HandlerSlot | extensions/genesis/genesis.cpp:113-124 | writing the handler sets 0x40..0x47 to the handler bytes |
| Genesis.RedirectSlot | extensions/genesis/genesis.cpp:125-132 | redirecting a slot sets its four bytes to the vector 0x00000040 |
| Genesis.SavedBytes | extensions/genesis/genesis.cpp:93-134 | save leaves the checksum at 0x18E/0x18F, the patched vectors at 0x08..0xFF and every other byte as it was |
| Genesis.SavedChecksum | extensions/genesis/genesis.cpp:93-134 | everything save writes is below 0x200, so the checksum of the saved ROM is the old one |
| Genesis.SaveStoresChecksum | extensions/genesis/genesis.cpp:104-106 | a saved ROM carries its own checksum at 0x18E |
| Genesis.SaveIdempotent | extensions/genesis/genesis.cpp:93-134 | saving a saved ROM changes nothing |
| Genesis.GenesisCorruption.constructor | extensions/genesis/genesis.cpp:8-11 | the object holds the given ROM |
| Genesis.GenesisCorruption.ComputeChecksum | extensions/genesis/genesis.cpp:159-172 | the byte-by-byte uint16_t loop returns the checksum |
| Genesis.GenesisCorruption.Save | extensions/genesis/genesis.cpp:93-134 | save turns the ROM into the saved ROM |
| Genesis.GenesisCorruption.PatchVectors | extensions/genesis/genesis.cpp:109-134 | the vector-table loop sets every byte of 0x08..0xFF to its patched value and keeps the rest |
| Genesis.HandlerBytes | extensions/genesis/genesis.cpp:113-124 | the patch leaves 54 8F 54 97 55 8F 4E 73 at 0x40..0x47 whatever was there |
| Genesis.RedirectBytes | extensions/genesis/genesis.cpp:125-132 | a redirected slot reads 00 00 00 40 whatever was there |
| Nds.InsertAt | extensions/nds/nds_filesystem.cpp:90 | inserting a path at pos keeps the paths before pos, puts the new path at pos and shifts the rest up by one |
| Nds.AddSubdir | extensions/nds/nds_filesystem.cpp:88-93 | a subdirectory of a non-root directory is inserted as parent + "/" + name, the files unchanged |
| Nds.AddRootDir | extensions/nds/nds_filesystem.cpp:94-97 | a subdirectory of the root is appended as "./" + name, the other paths and the files unchanged |
| Nds.Record | extensions/nds/nds_filesystem.cpp:51-108 | each pass of the loop that goes on moves strictly forward from a length byte inside the ROM |
| Nds.ChildRooted | extensions/nds/nds_filesystem.cpp:61 | the path of a file or subdirectory of any recorded directory lies under the root |
| Nds.AddFileKeeps | extensions/nds/nds_filesystem.cpp:60-69 | recording a file keeps every path under the root |
| Nds.AddSubdirKeeps | extensions/nds/nds_filesystem.cpp:88-93 | inserting a subdirectory keeps directory 0 as "." and every path under the root |
| Nds.AddRootDirKeeps | extensions/nds/nds_filesystem.cpp:94-97 | appending a root subdirectory keeps the walk well formed |
| Nds.RecordFileKeeps | extensions/nds/nds_filesystem.cpp:58-75 | the file case of the loop body keeps the walk well formed |
| Nds.RecordDirKeeps | extensions/nds/nds_filesystem.cpp:77-100 | the directory case of the loop body keeps the walk well formed |
| Nds.RecordKeeps | extensions/nds/nds_filesystem.cpp:51-108 | every case of the loop body keeps the walk well formed |
| Nds.SubTableKeeps | extensions/nds/nds_filesystem.cpp:51-108 | the loop over a sub-table keeps the walk well formed |
| Nds.DirectoryKeeps | extensions/nds/nds_filesystem.cpp:40-112 | walking one main table entry keeps the walk well formed |
| Nds.TablesKeep | extensions/nds/nds_filesystem.cpp:40-112 | the loop over the main table entries keeps the walk well formed |
| Nds.LoadWellFormed | extensions/nds/nds_filesystem.cpp:20-118 | every path initialize records starts with "./" and directory 0 stays "." |
| Nds.RootFile | extensions/nds/nds_filesystem.cpp:58-69 | a file record of the root sub-table is recorded under "./" + its name with its FAT start and size |
| Nds.ReservedLengthDiverges | extensions/nds/nds_filesystem.cpp:101-107 | a length byte of 0x80 does not advance the offset, so the loop never ends |
| Nds.Quoted | extensions/nds/nds_filesystem.cpp:127-133 | the quoted paths are the map's keys in order, each between quotes |
| Nds.ListingJoin | extensions/nds/nds_filesystem.cpp:127-133 | the loop's output is the comma-joined quoted paths plus one trailing comma |
| Nds.JsonAgrees | extensions/nds/nds_filesystem.cpp:120-136 | with at least one path, to_json gives the JSON array of the paths |
| Nds.EmptyJson | extensions/nds/nds_filesystem.cpp:120-136 | with no path, to_json cuts the opening bracket and returns {"entries":]} |
| Nds.ListingSnoc | extensions/nds/nds_filesystem.cpp:127-133 | one more entry adds its quoted path and a comma at the end |
| Nds.FileSystem.constructor | extensions/nds/nds_filesystem.cpp:5-8 | a new filesystem holds no entries |
| Nds.FileSystem.Get | extensions/nds/nds_filesystem.h:28-36 | get finds an entry exactly when some recorded path equals the name |
| Nds.FileSystem.RecordAt | extensions/nds/nds_filesystem.cpp:51-108 | one pass of the loop body computes the modelled step and leaves m_entries as that step says |
| Nds.FileSystem.FileAt | extensions/nds/nds_filesystem.cpp:58-75 | a file record adds its path and FAT entry to m_entries |
| Nds.FileSystem.DirAt | extensions/nds/nds_filesystem.cpp:77-100 | a directory record inserts the subdirectory's path and leaves m_entries alone |
| Nds.FileSystem.ReadSubTable | extensions/nds/nds_filesystem.cpp:51-108 | the while loop over one sub-table computes the modelled walk |
| Nds.FileSystem.ReadDirectory | extensions/nds/nds_filesystem.cpp:40-112 | one main table entry is read and its sub-table walked |
| Nds.FileSystem.Initialize | extensions/nds/nds_filesystem.cpp:20-118 | initialize computes the modelled load, m_entries ending as its entries |
| Nds.FileSystem.ToJson | extensions/nds/nds_filesystem.cpp:120-136 | the listing is the JSON array of the paths, and equals the source's output whenever there is a path |
| Nds.FilePass | extensions/nds/nds.cpp:72 | the per-file pass stays below offset + size and offset + end, and ends when the step is positive |
| Nds.FilePassBound | extensions/nds/nds.cpp:72 | the pass's bound agrees with the source's uint32_t loop test at every index the loop reaches |
| Nds.Window | extensions/nds/nds.cpp:72-186 | a pass keeps the ROM's length and only adds to the count and the draws |
| Nds.FileRun | extensions/nds/nds.cpp:72-186 | the loop over one file's window keeps the ROM's length and only adds to the count |
| Nds.ShiftPastRomSkipped | extensions/nds/nds.cpp:72-81 | a Shift by one over a FAT entry twice the ROM's length shifts the indices whose partner is in the ROM and skips the rest: [1,2,3,4] becomes [2,3,4,4] with 3 corruptions |
| Nds.FileStep | extensions/nds/nds.cpp:55-65 | a file the filesystem does not hold is skipped and changes nothing |
| Nds.CorruptFiles | extensions/nds/nds.cpp:50-190 | the loop over the option's files keeps the ROM's length |
| Nds.Corrupt | extensions/nds/nds.cpp:36-195 | with a zero step or no files nothing changes, and m_save is set exactly when something was corrupted |
| Nds.MissingSkipped | extensions/nds/nds.cpp:57-65 | files the filesystem does not hold change nothing |
| Nds.FileStepFrame | extensions/nds/nds.cpp:72 | a byte outside a file's window is untouched by that file's loop |
| Nds.CorruptFilesFrame | extensions/nds/nds.cpp:50-190 | a byte outside the window of every named file is left as it was |
| Nds.WindowShielded | extensions/nds/nds.cpp:72-186 | a stretch valid_byte shields is unchanged by a pass |
| Nds.FileStepShielded | extensions/nds/nds.cpp:55-186 | a stretch valid_byte shields is unchanged by one file's loop |
| Nds.CorruptFilesShielded | extensions/nds/nds.cpp:50-190 | a stretch valid_byte shields is unchanged by the whole corruption |
| Nds.CorruptFilesKeepTransfers | extensions/nds/nds.cpp:203-256 | with the ARM valid_byte, a branch, load or store word comes out of corrupt unchanged |
| Nds.SaveName | extensions/nds/nds.cpp:263-277 | save writes exactly when m_save is set, to a name ending in ".nds", kept when it already ends so |
| Nds.SaveNameIdempotent | extensions/nds/nds.cpp:271-277 | the name save picks is kept by a second save |
| Nds.RunWindow | extensions/nds/nds.cpp:72-186 | a pass over the ROM array computes the modelled window |
| Nds.CorruptWindow | extensions/nds/nds.cpp:72-186 | the loop over one file's window on the array computes the modelled run |
| Nds.CorruptFile | extensions/nds/nds.cpp:55-190 | one file of corrupt's loop on the array computes the modelled step |
| Nds.CorruptRom | extensions/nds/nds.cpp:36-195 | corrupt on the ROM array computes the modelled corruption and m_save |
| Nes.Initialize | extensions/nes/nes.cpp:18-46 | a ROM makes a layout exactly when it is valid; PRG-ROM starts at 0x10, CHR-ROM 0x4000 bytes per PRG bank later, and CHR is used exactly when its bank count is not 0 |
| Nes.PrgPass | extensions/nes/nes.cpp:70 | the PRG loop stays below prg_end and below chr_start - prg_step taken as a uint32_t |
| Nes.ValidByteKeepsOpcodes | extensions/nes/nes.cpp:316-353 | valid_byte accepts a byte in PRG-ROM only when it is not one of the invalid opcodes |
| Nes.PrgKeepsOpcodes | extensions/nes/nes.cpp:63-182 | every byte the corrected PRG pass (Add asking about the byte it writes) changes in PRG-ROM holds a permitted opcode afterwards |
| Nes.PrgKeepsOpcodesUnlessAdd | extensions/nes/nes.cpp:63-182 | the PRG pass as written, with any operation but Add, leaves a permitted opcode in every PRG-ROM byte it changes |
| Nes.AddRom | extensions/nes/nes.cpp:91-98 | the counterexample ROM holds 0x07 at 0x10 followed by 0x03 |
| Nes.AddWritesInvalid | extensions/nes/nes.cpp:91-98 | as written, Add asks about rom[i + value] + value and so writes 0x08 (PHP), an opcode valid_byte refuses |
| Nes.AddKeepsOpcode | extensions/nes/nes.cpp:91-98 | asking about the byte it writes, Add refuses 0x08 and leaves the opcode alone |
| Nes.Bytes8 | extensions/nes/nes.cpp:225-296 | the byte loops keep the ROM's length and only draw more random bytes |
| Nes.SwapBytes | extensions/nes/nes.cpp:215-224 | when every index stays inside the ROM, the swap loop keeps its length |
| Nes.ChrBlock | extensions/nes/nes.cpp:210-300 | a block that completes keeps the ROM's length and is counted, and the loop breaks exactly for type None |
| Nes.ChrRun | extensions/nes/nes.cpp:206-303 | the CHR loop keeps the ROM's length and only adds to the count |
| Nes.Bytes8Pointwise | extensions/nes/nes.cpp:225-296 | the byte loop rewrites each position from at below stop on its own and leaves the rest |
| Nes.InBlockShift | extensions/nes/nes.cpp:206-208 | past a position's block, the blocks still to visit cover it exactly when they did before |
| Nes.BlockPointwise | extensions/nes/nes.cpp:225-296 | one block rewrites its eight bytes on their own and nothing else |
| Nes.CoversHere | extensions/nes/nes.cpp:206-208 | a position in the current block is covered now and by no later block |
| Nes.CoversNone | extensions/nes/nes.cpp:206-208 | nothing is covered once the index is past the bound |
| Nes.ChrPointwise | extensions/nes/nes.cpp:206-303 | with disjoint blocks, a pointwise CHR pass rewrites every byte of every visited block once and nothing else |
| Nes.ChrCounts | extensions/nes/nes.cpp:206-303 | when the CHR pass is not cut short, its count is the number of blocks visited |
| Nes.PrgResult | extensions/nes/nes.cpp:63-182 | corrupt_prg as written keeps the ROM's length, and is unmodelled exactly when its loop would not end |
| Nes.ChrResult | extensions/nes/nes.cpp:184-306 | corrupt_chr keeps the ROM's length, and changes nothing without CHR-ROM |
| Nes.Corrupted | extensions/nes/nes.cpp:48-61 | corrupt, with the PRG pass as written, keeps the ROM's length, and changes nothing when neither region is switched on |
| Nes.NesCorruption.constructor | extensions/nes/nes.cpp:18-46 | a valid ROM makes an object holding it and its layout |
| Nes.NesCorruption.CorruptPrg | extensions/nes/nes.cpp:63-182 | corrupt_prg on the array computes the modelled PRG pass as written, failing exactly when it reads past the ROM |
| Nes.NesCorruption.CorruptChr | extensions/nes/nes.cpp:184-306 | corrupt_chr's loop on the array computes the modelled CHR run and its count |
| Nes.NesCorruption.Block | extensions/nes/nes.cpp:210-300 | the loop body on the array computes the modelled block |
| Nes.NesCorruption.ShiftBlock | extensions/nes/nes.cpp:210-214 | std::copy puts the eight bytes at i + value over the eight at i |
| Nes.NesCorruption.SwapBlock | extensions/nes/nes.cpp:215-224 | the swap loop on the array computes the modelled swap, the ROM unchanged when it would leave it |
| Nes.NesCorruption.ByteBlock | extensions/nes/nes.cpp:225-296 | the byte loop on the array computes the modelled byte loop |
| Nes.NesCorruption.Corrupt | extensions/nes/nes.cpp:48-61 | corrupt on the array computes the modelled corruption, PRG pass as written |
| NesConfig.Step | extensions/nes/nescorruptioninfo.cpp:41-247 | one turn of the loop consumes one or two arguments, and fails exactly when a flag that takes a value is last |
| NesConfig.ParseFromStep | extensions/nes/nescorruptioninfo.cpp:41-247 | reading from argument i is reading from the index after its turn |
| NesConfig.ParseFromNone | extensions/nes/nescorruptioninfo.cpp:41-247 | a turn that fails makes the whole reading fail |
| NesConfig.ParseArgs | extensions/nes/nescorruptioninfo.cpp:22-248 | the constructor's loop computes the modelled reading of the arguments |
| NesConfig.NextArg | extensions/nes/nescorruptioninfo.cpp:41-247 | one turn moves forward and keeps the reading of the rest |
| NesConfig.ReadArg | extensions/nes/nescorruptioninfo.cpp:43-246 | the loop body computes the modelled turn for its flag |
| NesConfig.ParseConcat | extensions/nes/nescorruptioninfo.cpp:41-247 | reading a prefix completely, then the rest, is reading the whole |
| NesConfig.LastFlagWins | extensions/nes/nescorruptioninfo.cpp:41-247 | a flag with its value appended to the arguments overrides what came before |
| NesConfig.OnlyItsFlags | extensions/nes/nescorruptioninfo.cpp:41-247 | a region's fields change only through flags for that region |
| NesConfig.StaysEnabled | extensions/nes/nescorruptioninfo.cpp:49-58 | once a region is switched on, later arguments never switch it off |
| NesConfig.EnabledByStep | extensions/nes/nescorruptioninfo.cpp:49-58 | a region is switched on only by its step flag |
| GameCube.Text | extensions/gc/gamecube_entry.cpp:79 | the name text is only read from inside the data |
| GameCube.Decode | extensions/gc/gamecube_entry.cpp:65-86 | a decoded entry's list offset is its offset over 0x0C, its indices start at 0, and it is a directory exactly when its type byte is 1 |
| GameCube.Encode | extensions/gc/gamecube_entry.cpp:67-71 | an FST entry is 0x0C bytes |
| GameCube.DecodeEncoded | extensions/gc/gamecube_entry.cpp:65-86 | decoding an encoded entry gives back its type, offset and payload, with the name from the string table, or "." for the root |
| GameCube.EncodedWords | extensions/gc/gamecube_entry.cpp:67-71 | the three big-endian words of an encoded entry read back as its type byte, 24-bit name offset, offset and payload |
| GameCube.NameField | extensions/gc/gamecube_entry.cpp:69 | the first word is the type byte above the 24-bit name offset |
| GameCube.LowField | extensions/gc/gamecube_entry.cpp:69 | & 0x00FFFFFF recovers the name offset from the first word |
| GameCube.Same | extensions/gc/gamecube_entry.cpp:38-56 | operator== holds exactly when the two entries are equal |
| GameCube.Yaz0Decode | extensions/gc/gamecube_entry.cpp:115-175 | yaz0_decode fills dst with what the Yaz0 inflater produces, fails where that aborts, and does nothing for a size of zero or less |
| GameCube.UnderflowFails | extensions/gc/gamecube_entry.cpp:148-168 | a run reaching back before the first output byte fails |
| GameCube.UpperChar | extensions/gc/gamecube_fst.cpp:38 | toupper shifts exactly the lower-case ASCII letters down by 32 |
| GameCube.Upper | extensions/gc/gamecube_fst.cpp:37-38 | the upper-cased label has the same length, each character upper-cased |
| GameCube.Pop | extensions/gc/gamecube_fst.cpp:46-51 | the loop stops at the root or at the first directory not yet finished, having passed only finished ones |
| GameCube.ParentOf | extensions/gc/gamecube_fst.cpp:45-61 | an entry's parent is at or below the current directory |
| GameCube.Place | extensions/gc/gamecube_fst.cpp:40-88 | the loop body keeps the walk's shape for the next index |
| GameCube.ChildRooted | extensions/gc/gamecube_fst.cpp:73-82 | the path of any directory's child lies under the root |
| GameCube.RecordedGrows | extensions/gc/gamecube_fst.cpp:73 | adding a directory path keeps every stored entry recorded |
| GameCube.PlaceDirKeeps | extensions/gc/gamecube_fst.cpp:68-88 | a directory entry keeps the walk well formed |
| GameCube.PlaceFileKeeps | extensions/gc/gamecube_fst.cpp:63-88 | a file entry keeps the walk well formed |
| GameCube.PlaceKeeps | extensions/gc/gamecube_fst.cpp:40-88 | every entry keeps the walk well formed |
| GameCube.FillKeeps | extensions/gc/gamecube_fst.cpp:30-89 | the loop from any entry on keeps the walk well formed |
| GameCube.LoadWellFormed | extensions/gc/gamecube_fst.cpp:18-90 | every path initialize stores is its parent directory's path plus "/" + its name, under the root |
| GameCube.KeysRooted | extensions/gc/gamecube_fst.cpp:77-88 | every key of the map names a path under the root |
| GameCube.PlaceStores | extensions/gc/gamecube_fst.cpp:77-88 | the entry placed is what the map holds under its path, and every other path keeps its entry |
| GameCube.OutOfOrderGoesBack | extensions/gc/gamecube_fst.cpp:53-58 | a file that sorts below the previous file, when no directory was finished, goes one directory back |
| GameCube.Fst.constructor | extensions/gc/gamecube_fst.cpp:3-6 | a new FST holds no entries |
| GameCube.Fst.Get | extensions/gc/gamecube_fst.h:44-52 | get finds an entry exactly when some stored path equals the name |
| GameCube.Fst.Initialize | extensions/gc/gamecube_fst.cpp:18-90 | initialize computes the modelled walk, fst_map ending as its map |
| GameCube.Fst.PlaceEntry | extensions/gc/gamecube_fst.cpp:40-88 | the loop body on the object computes the modelled placement |
| GameCube.Fst.PopFinished | extensions/gc/gamecube_fst.cpp:46-51 | the while loop computes the modelled move back |
| GameCube.ReadEntry | extensions/gc/gamecube_entry.cpp:65-86 | reading an entry computes the modelled decoding |
| Img.RecordLength | extensions/img/img_path.cpp:19-25 | a path-table record is 8 bytes plus the identifier, padded to an even length |
| Img.Identifier | extensions/img/img_path.cpp:30 | the identifier read is at most `size` characters |
| Img.RootNamed | extensions/img/img_path.cpp:32-35 | an identifier starting with NUL becomes "."; any other is kept |
| Img.ParsePath | extensions/img/img_path.cpp:16-36 | a record is parsed exactly when it lies inside the bytes, its raw copy is the record and its identifier is never empty |
| Img.NewPath | extensions/img/img_path.cpp:16-36 | the constructor's steps compute the modelled record |
| Img.PathSize | extensions/img/img_path.cpp:133-136 | size() is the length of the raw record |
| Img.ParentIndex | extensions/img/img_path.cpp:117-120 | parent_index() plus one is the stored parent number, as a uint16_t |
| Img.PathLocation | extensions/img/img_path.cpp:109-112 | location(bs) is the extent times the block size when that fits in 32 bits |
| Img.EncodePath | extensions/img/img_path.cpp:19-30 | an encoded record has the record length of its identifier |
| Img.PathRoundTrip | extensions/img/img_path.cpp:16-36 | parsing an encoded record gives back the record's bytes (so its length), its extent, its parent number and its trimmed identifier |
| Img.PathLocal | extensions/img/img_path.cpp:16-36 | a record that fits is parsed from its own bytes alone, whatever surrounds it |
| Img.PathFields | extensions/img/img_path.cpp:28-30 | the fields of an encoded record read back from the record alone |
| Img.RawIdentifier | extensions/img/img_entry.cpp:19-20 | the identifier is only read when the length byte is inside the record |
| Img.Renamed | extensions/img/img_entry.cpp:22-29 | the one-byte identifiers 0x00 and 0x01 become "." and "..", every other identifier is kept |
| Img.LastDot | extensions/img/img_entry.cpp:35 | find_last_of('.') gives the last dot, or none when there is none |
| Img.Extension | extensions/img/img_entry.cpp:35-36 | the extension is the dot-free text between the last dot and ";1" |
| Img.ExtensionOf | extensions/img/img_entry.cpp:31-38 | the extension of stem.ext;1 is ext when ext has no dot |
| Img.DecodeEntry | extensions/img/img_entry.cpp:8-46 | a record decodes exactly when its identifier can be read, with its extent and data length at offsets 2 and 10 |
| Img.NewEntry | extensions/img/img_entry.cpp:8-46 | the constructor's steps compute the modelled record |
| Img.IsFile | extensions/img/img_entry.cpp:75-85 | is_file is defined exactly when the identifier can be read, and a file's identifier is longer than 2 |
| Img.IsDirectoryRecord | extensions/img/img_entry.cpp:65-68 | the static is_directory is exactly the negation of is_file |
| Img.OrFlag | extensions/img/img_entry.cpp:33-41 | OR-ing an attribute into the flags sets its bit and keeps every other |
| Img.EntryKind | extensions/img/img_entry.cpp:8-68 | a file record gets the Associated bit, its version suffix cut and its extension, a directory record gets the Directory bit, and the flags read are kept |
| Img.Location | extensions/img/img_entry.cpp:92-95 | location(bs) is the extent times the block size when that fits in 32 bits |
| Img.Size | extensions/img/img_entry.cpp:100-103 | size() is the data length |
| Img.WriteAsWritten | extensions/img/img_entry.cpp:151-185 | write does nothing unless the data has the entry's size, and its loop never ends for data shorter than one logical block |
| Img.Sweep | extensions/img/img_entry.cpp:170-181 | as written, each block is written l_bs + junk further on, and together the blocks cover the data in order |
| Img.Sectors | extensions/img/img_entry.cpp:166-181 | the intended blocks start at the first data area and together cover the data |
| Img.SectorsShape | extensions/img/img_entry.cpp:166-181 | every block but the last is a whole logical block, each in the next sector |
| Img.SectorsCounts | extensions/img/img_entry.cpp:170-181 | every block holds between 1 and l_bs bytes |
| Img.SectorsChain | extensions/img/img_entry.cpp:170-181 | each block starts one sector after the previous and l_bs bytes further into the data |
| Img.WritePlan | extensions/img/img_entry.cpp:151-185 | write does nothing unless the data has the entry's size, and places nothing only for a logical block size of 0 |
| Img.Write | extensions/img/img_entry.cpp:151-185 | the corrected write loop computes the intended plan |
| Img.SectorsStep | extensions/img/img_entry.cpp:170-178 | the plan is one block followed by the plan from the next sector |
| Img.WritePlanPlaces | extensions/img/img_entry.cpp:151-185 | corrected, block k of the data goes to the data area of sector location + k and stays inside it |
| Img.ShapedPlaced | extensions/img/img_entry.cpp:166-181 | a plan of whole blocks one sector apart places every block in its sector's data area |
| Img.ClosedForm | extensions/img/img_entry.cpp:170-178 | block j starts at sector location + j and at byte j * l_bs of the data |
| Img.ShortFileNeverEnds | extensions/img/img_entry.cpp:170 | as written, a 100-byte file with 2048-byte blocks never finishes, while the corrected plan writes it in one block |
| Img.SecondBlockEarly | extensions/img/img_entry.cpp:164-177 | as written, the second block of a two-block file lands on the next sector's header, 0x18 bytes early |
| Engine.ApplyFrame | corrupt.cpp:63-176 | one loop body leaves every position but i (and the Swap partner) unchanged |
| Engine.ApplyPointwise | corrupt.cpp:121-172 | with every byte accepted, one Rotate/And/Or/Xor/Complement body rewrites rom[i] alone and counts it |
| Engine.ApplyAcceptAll | corrupt.cpp:187-190 | one loop body with a valid_byte that accepts everything is the body of the default valid_byte |
| Engine.PointOpUndo | corrupt.cpp:121-172 | rotating left then right by one value, xor-ing twice or complementing twice gives back the byte |
| Engine.AlwaysCommits | corrupt.cpp:105-172 | with every byte accepted, a byte-operator or Random body always writes and counts |
| Engine.ApplyAsked | corrupt.cpp:96-172 | a byte one loop body changes is one valid_byte accepted at that position |
| Engine.ApplyAccepted | corrupt.cpp:96-172 | a byte one loop body changes satisfies whatever valid_byte promises of the bytes it accepts |
| Engine.ApplyShielded | corrupt.cpp:96-172 | one loop body leaves a region valid_byte shields as it was |
| Gbc.BranchLength | extensions/gbc/gbc.cpp:62-67 | a jump or call opcode is at most 3 bytes long |
| Gbc.FindBranch | extensions/gbc/gbc.cpp:62-67 | every opcode with a branch length has its entry in the branch map |
| Gbc.ValidatorPromises | extensions/gbc/gbc.cpp:52-111 | every byte valid_byte accepts lies past the header and is neither a return nor a jump or call opcode |
| Snes.ClearFastRom | extensions/snes/snes_header.cpp:152 | & ~0x10 never grows the value and clears its FastROM bit |
| Snes.Clamp | extensions/snes/snes_header.cpp:207 | std::max(score, 0) is the score when it is not negative, else 0 |
| Snes.ValidatorPromises | extensions/snes/snes.cpp:65-75 | every byte valid_byte accepts, as written and as corrected, lies outside the header and is not BRK, COP, STP, WAI, REP or SEP |
| Nintendo.EncodedTagged | extensions/nintendo/yaz0.cpp:167-175 | an encoded buffer starts with the Yaz0 magic |
| Nintendo.Handle | extensions/nintendo/nintendo.cpp:50-92 | every handler keeps the file's length and only consumes random draws |
| Nintendo.RarcCorrupt | extensions/nintendo/rarc_file.cpp:120-174 | RARCFile::corrupt, with the bounds check as written, keeps the archive's length and only consumes random draws |
| Nintendo.RarcCopy | extensions/nintendo/rarc_file.cpp:165-169 | copying a started entry back needs start to succeed, and keeps the archive's length |
| Nintendo.U8Corrupt | extensions/nintendo/u8_file.cpp:47-76 | U8File::corrupt keeps the archive's length and only consumes random draws |
| Nintendo.U8Copy | extensions/nintendo/u8_file.cpp:67-71 | copying a started file back needs start to succeed with at least the file's size, and keeps the archive's length |
| Yaz0.Encoder.constructor | extensions/nintendo/yaz0.cpp:194 | the encoder encode declares starts with no saved look-ahead |
| Args.RunAppend | main.cpp:132-153 | scanning a + b is scanning a, then b |
| Args.PlainRun | main.cpp:148-151 | characters that neither toggle quoting nor end the argument are appended to it |

## Left out

- File, stream and temp-file I/O is not modelled: `read_file`/`write_file` in `include/util.h` and `include/helpers.h`, `main`, `parse` and `clean`, and the `start(string)` overload. Every buffer is an already-loaded sequence. Of each `save` method, only the patch or the file name it computes is modelled.
- `Entry::get`, `Path::populate`, the `IMG` constructor and `get_offset`, `GamecubeImage`, `GamecubeHeader::initialize`, `GamecubeEntry::contents` and `write`, and `N64Corruption::convert_z64` are not modelled. They stream disc images through `fstream`.
- `extensions/psx` and `extensions/dc` are not modelled. They copy a disc image and stream its entries; their byte loop is the `corrupt.cpp` loop that `Engine` models.
- `std::random_device`/`mt19937` are not modelled. Random bytes come from an oracle `draw`, and only the limit of 100 attempts is kept.
- `Util::to_int32` (istringstream parsing) is a function parameter `toInt` of the option parsers.
- `--filelist` reads a file, so it is not modelled.
- Console and debug printing is not modelled, and neither is the wall clock in `include/timer.h`.
- These header accessor files are not modelled: `nds_header.h`, `gamecube_header.h`, `gbc_header.h` beyond the fields the GBC model reads, `n64_header.cpp`, `gba_header.*`, `genesis_header.*`, `bti_file.*` and `img.h`. They are fixed-offset reads that `Util` and `Helpers` cover.
- Dead code is not modelled:
  - `extensions/nintendo/rarc.cpp` (commented out);
  - the `Corrupter` struct;
  - `BMDFile::match`/`BMTFile::match` (never called);
  - the `GamecubeEntry` stubs;
  - `extensions/psp/psp.h` (declarations only).
- `FST::m_files` is never initialised in the U8 parser, so the model keeps no file count.
- The SNES `save` vector patch is not modelled. The header enum has no `Emulated_RESET` offset, so the reset-vector offset is a parameter of the header scoring.
- Engine.Run: a step of 0 with any operation other than None loops forever in the source. So does an index that wraps past 2^32 because the limit plus the step passes it. Both are excluded by `Engine.Terminates`, and the functions built on the loop give `Unmodelled` for them.
- Engine.Corruption.RunPass: requires `Engine.Terminates`, for the same reason as Run.
- Engine.Corruption.Corrupt: requires `Engine.Terminates`, for the same reason as Run.
- Nds.FileRun: requires a step greater than 0. A file window whose 32-bit index could wrap gives `Unmodelled`.
- Nds.FileStep: requires a step greater than 0, as FileRun does.
- Nds.CorruptFiles: requires a step greater than 0, as FileRun does.
- Nds.FileSystem.Initialize: a name-table length byte of 0x80 never advances the cursor, so the source's walk does not end. The model stops with `Unmodelled` there.
- Nintendo.Start: the recursion through RARC and U8 archives has no visible bound, because a Yay0 file inside a U8 archive can decode to a larger archive. The dispatcher takes a fuel argument and gives `Unmodelled` when the fuel runs out.
- Helpers.Read: `helpers.h` reads without a bounds check, which is undefined behaviour past the end. The in-bounds window is a precondition.
- Helpers.ReadBig: the in-bounds window is a precondition, for the same reason as Read.
- An option flag given last, whose value `args[++i]` the source reads past the end, makes the option parser give `None`.
- Arm.ValidByte: the instruction word is read with the bounds-guarded `Util.WordAt`, so a trailing partial word reads as 0. The source's `Util::read` (`gba.cpp:38`, `nds.cpp:206`) is unchecked there, which is undefined behaviour. An `Engine` validator returns a plain yes or no and has no undefined outcome.
- Nes.ValidByte: a look-back `rom[location - 1]` or `rom[location - 2]` before index 0 counts as no match. In the source the `uint32_t` index wraps, and the read is undefined behaviour (`nes.cpp:344-346`). A PRG start option that wraps `prg_start + start` to 0 or 1 reaches it.
- Nintendo.CorruptWindow: a window whose begin lies past its end is modelled as a thrown exception that changes nothing, as libstdc++'s range constructor of `std::vector` does (`length_error`). By the C++ standard a reversed range is undefined behaviour.
- Snes.Checks: a look-back `rom[location - i]` before index 0 counts as no match. In the source the `uint32_t` index wraps, and the read is undefined behaviour (`snes.cpp:79`, `snes.cpp:100`, `snes.cpp:114`).
- Genesis.Checksum: requires an even size past 0x200 (`ChecksumDefined`). On an odd size the source's loop reads one byte past the end, which is undefined behaviour.
- Nds.FileSystem.Initialize: the FNT and FAT offsets are read from the ROM with the guarded `Util.Read`. `NDSHeader::initialize` copies 0x200 header bytes without a check, which is undefined behaviour on a shorter ROM; the model reads those fields as 0 instead.
- Yaz0.Encode: requires an input under 2^31 bytes, and Yaz0.RoundTrip is stated for those inputs only. The encoder's `int` positions overflow beyond that.
- Nes.PrgResult: the PRG pass as written promises no permitted opcode for Add, which can write 0x08 (Nes.AddWritesInvalid). Nes.PrgKeepsOpcodesUnlessAdd covers the other operations, and Nes.PrgKeepsOpcodes covers the corrected pass.
- N64.RunKeepsRefused: as written, only SPECIAL instructions with function code 0x00..0x0F are kept whole. The wider guarantee, with COP2 and REGIMM words, holds for the corrected check only (N64.RunKeepsRefusedCorrected).
- Snes.Initialize: the program detects with the layout read as written. The corrected detection is the same member with its flag set, and the two are proved to agree where Snes.DetectCorrectionNeedsType says.
- The `rol` and `ror` templates are modelled for `uint8_t` only (`Util.Rol8`, `Util.Ror8`), the one width the corrupters use.
- The header that declares `Encoder` is not part of this model. Its fields are taken to start cleared.
- The `_HELPERS_H` include-guard clash between `util.h` and `helpers.h` is not modelled. The two are independent modules.

## Findings

| source | as written | input that shows it | evidently intended | confidence | as-written member | corrected member |
|---|---|---|---|---|---|---|
| extensions/nes/nes.cpp:91-98 | Add asks valid_byte about rom[i + value] + value but writes rom[i] + value | PRG byte 0x07 at 0x10 followed by 0x03, Add with value 1: 0x04 is checked and 0x08 (PHP) is written | ask about the byte that is written | not executed | Nes.AddWritesInvalid | Nes.PrgKeepsOpcodes |
| extensions/snes/snes.cpp:108-124 | the STA test reads the 16-bit word that starts at the opcode, so its low byte is the opcode and not the operand's low byte | STA $2118 (8D 18 21): a write to the operand's low byte is accepted | test the operand, the register address after the opcode | not executed | Snes.StaStoreAccepted | Snes.StaOperandProtected |
| extensions/snes/snes_header.cpp:152 | the layout is read as a 16-bit word, so the cartridge type byte after the map-mode byte becomes its high byte | a LoROM header with cartridge type 0x02 (battery) gets no layout bonus | compare the map-mode byte alone | not executed | Snes.LoRomWithBattery | Snes.LayoutOfMapMode |
| extensions/n64/n64.cpp:69-110 | the opcode is the top byte masked with 0xFC and never shifted down, and the format is truncated to uint8_t | the COP2 word 0x48000000 is accepted and can be overwritten | shift the fields down as the bit diagrams show | not executed | N64.Cop2Overwritten | N64.CorrectedRefusesMore |
| extensions/nintendo/rarc_file.cpp:152-157 | the bounds test adds the offset and the size as uint32_t, so the sum wraps | a 0x40-byte archive with an entry of 0xFFFFFFF0 bytes at 0x20 passes the test | compare without wrap-around | not executed | Nintendo.RarcWrapUndefined | Rarc.GuardsAgree |
| extensions/genesis/genesis.cpp:53-67 | is_branch compares the 8-bit high byte with the 16-bit words of RTS, RTR and RTD, which never match | RTS (0x4E75) is not recognised as a branch | compare the whole instruction word with the returns | not executed | Genesis.ReturnMissed | Genesis.IsBranchIff |
| extensions/nds/nds_filesystem.cpp:120-136 | to_json drops the last character of the entry list to remove a trailing comma, which is the opening bracket when the map is empty | an empty file system gives {"entries":]} | an empty list | not executed | Nds.EmptyJson | Nds.JsonAgrees |
| extensions/img/img_entry.cpp:151-185 | the loop bound data.size() - l_bs wraps for a file shorter than one block, and every later block starts at the sector's first byte instead of its data area | a 100-byte file with 2048-byte blocks never finishes; a 4096-byte file puts its second block at 21 * 2352, 0x18 bytes early | stop at the file's end and put block k in the data area of sector location + k | not executed | Img.ShortFileNeverEnds | Img.WritePlanPlaces |
