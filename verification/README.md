# irccmd text and path helpers in Dafny

This project models the pure, sequential logic at the heart of irccmd, a
Lua-scriptable IRC client written in C, and proves properties of it:

- the UTF-8 codec of `src/utf8v.c`:
  - the `trailingBytesForUTF8` table;
  - the `isLegalUTF8` / `isValidUTF8String` well-formedness gate;
  - the `ConvertUTF32toUTF8` encoder and its `UTF32toUTF8char` wrapper;
  - the capacity-bounded Latin-1 upgrader `latin1toUTF8`;
- the IRC text helpers of `src/irccmd.c`:
  - the ASCII, RFC 1459 and strict RFC 1459 case maps and their length-aware comparators;
  - the line tokenizer of `irc_parse` (the message format of section 2.3.1 of RFC 1459);
  - the validate-or-upgrade rule of `irc_input`;
  - the wrapping `milliseconds_diff`;
- path joining in `src/fileio.c` / `src/fileio.h`:
  - `getcurrentdirectory`;
  - `isabsolutepath` (POSIX, plus the Windows test);
  - `getabsolutepath` on POSIX.

Bytes are the subset type `byte` (0..255). A caller-owned output buffer is a
`seq<Slot<T>>` of exactly `buflen` cells. A cell the code never stores into
stays `Unwritten`, so "writes only below `buflen`" holds by construction, and
"was this cell ever written" is a question the contracts can ask. C strings
are read up to their first NUL (`Buffers.CString`).

Several reference definitions serve as partners for the code:

- the RFC 3629 grammar `Utf8Lemmas.Rfc3629Char`;
- the back-to-back scalar encoding `Utf8.EncodeSubstituted`;
- the Latin-1 encoding `Latin1.Latin1Encoding`;
- the table-driven case maps `CaseMap.Lookup`;
- the message formatter `IrcParse.Format`;
- the joined path `FileIO.Joined`.

Each is tied to its operation by lemmas over all inputs.

Modules, one file each:

- `Buffers` (`buffers.dfy`): bytes, options, slots, C strings.
- `Utf8` (`utf8.dfy`): the table, both legality rules, the gate and its loop, the encoder, `UTF32toUTF8char`.
- `Utf8Lemmas` (`utf8_lemmas.dfy`): sequence-level facts; the gate against RFC 3629.
- `Utf8RoundTrip` (`utf8_roundtrip.dfy`): whole-buffer round trips.
- `Latin1` (`latin1.dfy`): `latin1toUTF8`, written both as a reference and as its loop.
- `CaseMap` (`casemap.dfy`).
- `IrcParse` (`ircparse.dfy`).
- `IrcInput` (`ircinput.dfy`).
- `Clock` (`clock.dfy`).
- `FileIO` (`fileio.dfy`).

Where the code and the prose around it disagree, the model follows the code:

- **Re-encoding round trip.** src/utf8v.h:14-15 presents isValidUTF8String as the test of whether a buffer is UTF-8. Section 3 of RFC 3629 defines UTF-8 text as a concatenation of the encodings of scalar values, so a buffer the gate accepts should re-encode to itself. The gate as written also accepts ED 41 80 and F4 41 80 80 (see Findings), which are not such concatenations. The round trip is therefore proved for the corrected gate.
- **`getabsolutepath` header.** The header promises a required length "including nul byte". The code returns the length without it.

## Model

| member | source | states |
|---|---|---|
| Utf8Lemmas.TrailingBytesByRange | src/utf8v.c:101-110 | the table gives 0 for leads 0x00-0xBF, 1 for 0xC0-0xDF, 2 for 0xE0-0xEF, 3 for 0xF0-0xF7, 4 for 0xF8-0xFB, 5 for 0xFC-0xFF |
| Utf8Lemmas.TrailingBytesTranscribed | src/utf8v.c:101-110 | the runs the model reads agree with each of the 256 entries of trailingBytesForUTF8 as declared, row by row |
| Utf8Lemmas.AccumulateDigits | src/utf8v.c:165-172 | the fall-through accumulation of an n-byte sequence, n = 1..4, is the base-64 number its bytes spell |
| Utf8Lemmas.LegalSequenceShape | src/utf8v.c:121-145 | a table-sized sequence isLegalUTF8 accepts has a lead in 00-7F or C2-F4 and at most 4 bytes, a length fixed by the lead's range, continuation bytes from the third byte on, and a second byte at most 0xBF that is a continuation byte unless the lead is ED or F4 |
| Utf8Lemmas.Rfc3629CharIsLegal | src/utf8v.c:121-145 | every UTF8-char of the RFC 3629 section 4 grammar has the table's length and passes isLegalUTF8, both as written and corrected |
| Utf8Lemmas.CorrectedLegalIffRfc3629 | src/utf8v.c:125-144 | with a lower bound 0x80 on the second byte, isLegalUTF8 at the table's length accepts exactly the RFC 3629 section 4 UTF8-chars |
| Utf8Lemmas.AsWrittenLegalGap | src/utf8v.c:130-137 | isLegalUTF8 as written accepts every RFC 3629 UTF8-char, and anything else it accepts starts ED or F4 followed by a byte below 0x80 |
| Utf8Lemmas.LegalDecodesToScalar | src/utf8v.c:162-187 | every sequence isLegalUTF8 accepts decodes to a value at most 0x10FFFF outside D800-DFFF, so the checks after decoding never reject |
| Utf8Lemmas.ValidIffSplitsIntoLegal | src/utf8v.c:148-190 | isValidUTF8String is true exactly when the buffer cuts into table-sized sequences each accepted by isLegalUTF8: true on the empty buffer, false on a truncated last sequence |
| Utf8.ValidateUTF8 | src/utf8v.c:148-190 | the loop returns true exactly when the buffer is valid |
| Utf8Lemmas.ValidatorExamples | src/utf8v.c:148-190 | verdicts: empty accepted; overlong C0 80, E0 80 80 and F0 80 80 80 rejected; surrogate ED A0 80 rejected; truncated E2 82 rejected; E2 82 AC accepted; 5-byte F8 88 80 80 80 rejected; F4 90 80 80 (above 0x10FFFF) rejected |
| Utf8Lemmas.AsWrittenAcceptsNonContinuation | src/utf8v.c:130-137 | the gate as written accepts ED 41 80 and F4 41 80 80, which are not RFC 3629 characters and which the corrected gate rejects |
| Utf8Lemmas.EncodeScalarShape | src/utf8v.c:239-259 | the encoder picks 1, 2, 3 or 4 bytes at the thresholds 0x80, 0x800, 0x10000, 0x10FFFF; the lead carries that length's firstByteMark pattern, the rest are 10xxxxxx, and the table gives the same length back |
| Utf8Lemmas.EncodeScalarRoundTrip | src/utf8v.c:239-258 | a scalar value encodes to an RFC 3629 UTF8-char that decodes back to it |
| Utf8Lemmas.Rfc3629CharRoundTrip | src/utf8v.c:162-173 | every RFC 3629 UTF8-char decodes to a scalar value whose encoding is that same char |
| Utf8.ConvertFrom | src/utf8v.c:221-260 | from any point on, the loop consumes a prefix of the source and stores the encodings of it after substitution, within the room. It stops only at the end, at a surrogate in strict mode (sourceIllegal), or when the next encoding does not fit (targetExhausted) |
| Utf8.ConvertUTF32toUTF8 | src/utf8v.c:215-264 | the same for the whole source from the start: never sourceExhausted, and in strict mode no surrogate is consumed |
| Utf8.UTF32toUTF8char | src/utf8v.c:267-291 | four slots and a count of at most 4. Slots from the count on are 0xFF. A value up to 0x10FFFF, surrogates included, gives its encoding. A value above gives count 0 |
| Utf8RoundTrip.CorrectedImpliesAsWritten | src/utf8v.c:128-139 | whatever the corrected gate accepts, the gate as written accepts |
| Utf8RoundTrip.EncodingsAreValid | src/utf8v.c:148-264 | concatenated encodings of scalar values pass both gates and decode back to the same values |
| Utf8RoundTrip.ValidCorrectedReencodes | src/utf8v.c:148-190 | a buffer the corrected gate accepts is the concatenated encoding of the scalar values it decodes to |
| Utf8RoundTrip.ValidCorrectedIffEncoding | src/utf8v.c:148-190 | the corrected gate accepts a buffer exactly when it is a concatenation of scalar encodings |
| Utf8RoundTrip.UTF32toUTF8charRoundTrip | src/utf8v.c:267-291 | for a scalar value the first `count` bytes of UTF32toUTF8char (1 to 4) pass the gate and decode back to the value |
| Utf8RoundTrip.UTF32toUTF8charSurrogate | src/utf8v.c:227-258 | in lenient mode a surrogate is still encoded, as ED and two more bytes, and the gate rejects them |
| Utf8RoundTrip.OutOfRangeConversion | src/utf8v.c:242-290 | above 0x10FFFF the conversion stores EF BF BD and reports sourceIllegal; UTF32toUTF8char then answers 0 with all four slots 0xFF |
| Utf8RoundTrip.StrictStopsAtSurrogate | src/utf8v.c:227-234 | strict mode at a surrogate: sourceIllegal, nothing consumed, nothing stored |
| Latin1.Latin1ToUTF8 | src/utf8v.c:10-44 | the count returned is the source length plus the number of bytes at or above 0x80, whatever the capacity; the buffer has exactly `buflen` cells |
| Latin1.Latin1ToUTF8Loop | src/utf8v.c:10-44 | the loop as written, with its `ibuf + 2-1 >= utf8buflen` tests, ends with exactly the count and buffer Latin1ToUTF8 describes |
| Latin1.TurnsStoreFittingPrefix | src/utf8v.c:15-40 | after any number of turns the buffer holds the upgrade of the longest prefix that fits and nothing else, while `ibuf` counts the whole upgrade |
| Latin1.EncodingLength | src/utf8v.h:7 | the upgrade is one byte per source byte plus one per byte at or above 0x80 |
| Latin1.FitCount | src/utf8v.c:15-40 | the number of source bytes upgraded before the buffer runs out: the longest prefix whose upgrade fits |
| Latin1.Latin1FitsIff | src/utf8v.h:7-10 | the count is at most the capacity exactly when the whole upgrade was stored; a NUL follows exactly when the count is below the capacity, and nothing is stored after it |
| Latin1.Latin1StoresWholeCharacters | src/utf8v.c:17-42 | only the upgrade of the longest fitting prefix is stored; when it does not all fit, that stops at `buflen - 1` or `buflen` |
| Latin1.PairsComplete | src/utf8v.c:17-28 | in an upgrade every leading byte is followed by its continuation byte |
| Latin1.Latin1NeverSplitsPair | src/utf8v.c:19-27 | a stored leading byte is always followed, inside the buffer, by its stored continuation byte |
| Latin1.Latin1IsEncodingOfCodePoints | src/utf8v.c:17-38 | `0xC0 \| b >> 6, 0x80 \| b & 0x3F` is the UTF-8 encoding of code point b: the upgrade encodes the Latin-1 code points |
| Latin1.Latin1UpgradeIsValid | src/utf8v.h:6-10 | the upgrade passes both gates and decodes to the source bytes as code points |
| Latin1.AsciiUnchanged | src/utf8v.c:29-38 | an ASCII source is copied unchanged and the count is its length |
| Latin1.Latin1ExampleEncoding | src/utf8v.c:17-28 | 41 E9 upgrades to 41 C3 A9 |
| Latin1.Latin1ExampleRoomy | src/utf8v.c:41-43 | with 4 cells, 41 C3 A9 and a NUL; with 3, no NUL; the count is 3 either way |
| Latin1.Latin1ExampleCramped | src/utf8v.h:7-9 | with 2 cells or 1 cell only 41 is stored (the pair does not fit), and the count is still 3 |
| CaseMap.CharValue | src/irccmd.c:1623-1624 | a `char` read as signed lies in -128..127 and agrees with the byte modulo 256; read as unsigned it is the byte |
| CaseMap.ToLowerMatchesTable | src/irccmd.c:1589-1604 | each case map is a table lookup: A-Z to a-z, plus `[\]^` to `{\|}~` for RFC 1459 or `[\]` to `{\|}` for strict RFC 1459; every other value unchanged |
| CaseMap.ToLowerIdempotent | src/irccmd.c:1589-1604 | folding twice is folding once |
| CaseMap.StrictDiffersOnlyOnCaret | src/irccmd.c:1594-1604 | the two RFC 1459 maps differ exactly on '^' |
| CaseMap.ToLowerExamples | src/irccmd.c:1677-1683 | the tolower_ascii figures of compare_Test |
| CaseMap.CompareFrom | src/irccmd.c:1611-1625 | from position i on, the loop answers 0 exactly when the lengths are equal and the folded strings agree from i |
| CaseMap.Compare | src/irccmd.c:1608-1671 | 0 exactly when the lengths are equal and every position is equal after the variant's case map |
| CaseMap.CompareOutcome | src/irccmd.c:1608-1671 | -1 or +1 when one folded string is a proper prefix of the other; otherwise the raw difference `s1[i] - s2[i]` at the first folded mismatch, which is never 0 |
| CaseMap.CompareAntisymmetric | src/irccmd.c:1608-1671 | compare(b, a) == -compare(a, b) |
| CaseMap.FoldTogether | src/irccmd.c:1623-1626 | strings of equal length whose characters fold alike compare equal |
| CaseMap.CompareAsciiExamples | src/irccmd.c:1684-1685 | compare_ascii("hello", "hello") and ("Hello", "hello") are 0 |
| CaseMap.CompareRfc1459Examples | src/irccmd.c:1686-1687 | compare_rfc1459("Hello", "hello") and ("H~l\o", "h^l\|o") are 0 |
| CaseMap.CompareStrictExamples | src/irccmd.c:1688-1689 | compare_strict_rfc1459("Hello", "hello") and ("Hel\o", "hel\|o") are 0 |
| CaseMap.CompareContrasts | src/irccmd.c:1594-1671 | "^" and "~" are equal for RFC 1459 but differ by '^' - '~' for strict; "ab" against "ABC" is -1 |
| IrcParse.FindSpace | src/irccmd.c:1516 | `strchr(s, ' ')`: the first space, or none |
| IrcParse.Token | src/irccmd.c:1569-1580 | a token holds no space; the text is the token alone, or the token, one space and the rest |
| IrcParse.SplitPrefix | src/irccmd.c:1512-1532 | a prefix is present exactly when the text starts with ':'; it holds no space; the text is ':' and the prefix alone, or ':', the prefix, one space and the rest; without a prefix the text is untouched |
| IrcParse.SplitCommand | src/irccmd.c:1534-1553 | the command is nil exactly when nothing remains, and then nothing follows; it holds no space; the text is the command alone, or the command, one space and the rest |
| IrcParse.ParseParams | src/irccmd.c:1555-1583 | no parameters exactly when nothing remains after the command |
| IrcParse.Parse | src/irccmd.c:1501-1586 | a prefix exactly when the line starts with ':', holding no space and no NUL; the prefix is the text after ':' up to the first space or the end; the command is nil exactly when nothing follows the prefix and its space, and otherwise is the text from there to the next space or the end; the parameters are those of the text after the command's space, none when the command ends the line |
| IrcParse.CommandThenParams | src/irccmd.c:1534-1553 | a command with no space, followed by a space and more text, is split off with that text after the space as the rest |
| IrcParse.ParamsShape | src/irccmd.c:1555-1583 | parameters before the last hold no space and do not start with ':' (repeated spaces give empty ones); a last parameter holding a space came from a ':' token that ran to the end of the line |
| IrcParse.ParamsExamples | src/irccmd.c:1555-1583 | "a  b" gives a, empty, b; a trailing single space adds nothing; ":x y" gives "x y"; "a :b c" gives a, "b c" |
| IrcParse.ParamsRoundTrip | src/irccmd.c:1555-1583 | parsing formatted parameters gives them back |
| IrcParse.ParseFormatRoundTrip | src/irccmd.c:1501-1586 | every well-formed message, formatted as an IRC line, parses back to itself |
| IrcParse.ParseExample | src/irccmd.c:1501-1586 | ":n!u@h PRIVMSG #c :hi all" parses to prefix n!u@h, command PRIVMSG, parameters #c and "hi all" |
| IrcParse.ParseCommandExample | src/irccmd.c:1534-1553 | "PING" has no prefix, command PING, no parameters |
| IrcParse.ParsePrefixExample | src/irccmd.c:1512-1553 | ":server" has a prefix and a nil command; the empty line has neither |
| IrcParse.ParseDoubleSpaceExample | src/irccmd.c:1512-1583 | ":a  b" (two spaces) has prefix a, the empty command and parameter b |
| IrcInput.IrcInputDecision | src/irccmd.c:1480-1495 | the scan decides to upgrade exactly when the line holds a byte at or above 0x80 and the gate rejects it |
| IrcInput.IrcInput | src/irccmd.c:1480-1497 | a line that needs no upgrade is returned as it is; otherwise min(upgrade length, 2048) cells come back, the first holding the upgrade of the longest prefix whose upgrade fits, and every later one never written |
| IrcInput.AsciiPrefixValid | src/utf8v.c:152-172 | ASCII bytes in front of a buffer do not change either gate's verdict |
| IrcInput.AsciiIsValid | src/utf8v.c:148-190 | pure ASCII passes both gates |
| IrcInput.IrcInputKeepsValid | src/irccmd.c:1480-1497 | a valid or ASCII line comes back unchanged |
| IrcInput.IrcInputUpgrades | src/irccmd.c:1484-1491 | a rejected line whose upgrade fits 2048 bytes comes back as the whole upgrade, fully written, valid, decoding to the line's Latin-1 code points |
| IrcInput.IrcInputStraddleUnwritten | src/irccmd.c:1486-1490 | when the upgrade needs more than 2048 bytes and only 2047 were stored, 2048 cells are returned and the last was never written |
| IrcInput.IrcInputStraddleExample | src/irccmd.c:1486-1490 | 2047 letters and 0xE9: the line is upgraded, 2048 cells come back, the last unwritten |
| IrcInput.IrcInputWrittenOnlyIsSound | src/irccmd.c:1486-1490 | returning only what was stored gives at most 2048 valid bytes that decode to the code points of the longest fitting prefix |
| IrcInput.IrcInputWrittenOnlyAgrees | src/irccmd.c:1486-1490 | when the whole upgrade fits, returning only what was stored agrees with irc_input |
| Clock.MillisecondsDiff | src/irccmd.c:271-275 | `ms_new - ms_old` in a w-bit unsigned word: a w-bit value that added to the old reading gives the new one, modulo 2^w |
| Clock.Advance | src/irccmd.c:271-275 | the counter d milliseconds later, wrapping at 2^w |
| Clock.DiffOfAdvance | src/irccmd.c:271-275 | any span shorter than 2^w is measured exactly, across a wrap or not |
| Clock.AdvanceByDiff | src/irccmd.c:271-275 | advancing the old reading by the difference gives the new reading |
| Clock.WrapExample | src/irccmd.c:271-275 | with 32 bits, 0xFFFFFF00 then 0x100 is 0x200 apart |
| FileIO.IsAbsolutePathOfCString | src/fileio.h:47-56 | on POSIX a path is absolute exactly when it starts with '/'; on Windows, when its second char is ':' and its third '\' or '/', or it starts with two backslashes |
| FileIO.CopyOutContents | src/fileio.c:368-374 | the copy loop stores the string and then its NUL from index i, only at indices inside the buffer, and leaves every other cell as it was |
| FileIO.CopyOutFits | src/fileio.c:320-326 | a copy that fits leaves the string and its NUL, and the cells before it untouched |
| FileIO.GetCurrentDirectoryContract | src/fileio.c:271-310 | 0 exactly when the directory and its NUL fit, and then the buffer holds them; otherwise nothing is written, a positive answer means the directory and its NUL do not fit, and is their length (6 for "/tmp/") in test mode and MAXPATHLEN (after ERANGE) outside it, and a negative one comes exactly outside test mode from a host failure or a buffer of size 0 |
| FileIO.TestCurrentDirectoryExamples | src/fileio.c:412-420 | test mode with 0 or 5 cells returns 6; with 6 it stores "/tmp/" and its NUL and returns 0 |
| FileIO.CopyPath | src/fileio.c:368-377 | the string and then its NUL are stored from index i in the cells that exist, every other cell is left as it was; success exactly when the result fits under the rule in force, otherwise the length it needs |
| FileIO.GetAbsolutePath | src/fileio.c:313-379 | TRYNOTCOPY on an absolute path gives -110 and writes nothing |
| FileIO.Joined | src/fileio.c:358-367 | the joined path starts with the current directory, ends with the path, and adds at most one char between them; that char is added exactly when the path is non-empty and neither side supplies a separator, and it is '/' |
| FileIO.AbsoluteCopied | src/fileio.c:320-329 | an absolute path is copied as it is: 0 exactly when its length is at most `buflen` (as written), otherwise its length; nothing is stored past its NUL |
| FileIO.RelativeJoined | src/fileio.c:353-377 | with curdir stored, 0 exactly when the joined path fits, and then the buffer holds it; otherwise its length. A separator goes in only when curdir does not end with one and the path does not start with one |
| FileIO.JoinWithSeparator | src/fileio.c:358-377 | when a separator goes in, 0 exactly when the joined path fits, and then the buffer holds it; otherwise the joined length, from the early return before the separator as well as after the copy |
| FileIO.JoinWithoutSeparator | src/fileio.c:368-377 | when no separator goes in, 0 exactly when curdir followed directly by the path fits, and then the buffer holds it; otherwise that length |
| FileIO.EmptyPathIsCurrentDirectory | src/fileio.c:353-354 | an empty path gives exactly what getcurrentdirectory gave |
| FileIO.CurrentDirectoryFailurePassedOn | src/fileio.c:346-352 | a negative getcurrentdirectory answer is passed on unchanged; a size n becomes n + 1 + strlen(path); nothing is written |
| FileIO.ResultIsAbsolute | src/fileio.h:53-72 | in test mode, or with an absolute host directory, the result is absolute |
| FileIO.TestModeEmptyPath | src/fileio.c:422-423 | "" in test mode gives "/tmp/" |
| FileIO.TestModeAbsolute | src/fileio.c:425-426 | "/tmp/foo" comes back as it is |
| FileIO.TestModeRelative | src/fileio.c:428-429 | "foo" gives "/tmp/foo" |
| FileIO.TestModeNoRoom | src/fileio.c:431 | "foo" with no room asks for 10, at least strlen("/tmp/foo") |
| FileIO.TestModeDot | src/fileio.c:433-434 | "." gives "/tmp/." |
| FileIO.FullBufferUnterminated | src/fileio.c:327-329 | as written, "/ab" into 3 cells returns 0 and leaves "/ab" with no NUL; so does "foo" in test mode into 8 |
| FileIO.GetAbsolutePathTerminated | src/fileio.h:101-108 | the header's rule; TRYNOTCOPY still gives -110 |
| FileIO.TerminatedOnSuccess | src/fileio.h:101-108 | under the header's rule, success always leaves the result and its NUL in the buffer |
| FileIO.RetrySucceeds | src/fileio.h:101-108 | a positive answer is a buffer length with which the same call succeeds, under either rule |
| FileIO.FullBufferTerminated | src/fileio.h:101-108 | under the header's rule "/ab" needs 4 cells, and with 4 it stores "/ab" and its NUL |

## Left out

- Sockets, `select`, the Windows stdin thread, all Lua stack handling (`lua_push*`, `luaopen_irccmd`), and `luafunc_UTF32toUTF8char`'s buffer growth are I/O or glue around the modelled logic.
- `irc_input`'s and `irc_parse`'s early return for a non-string argument is Lua glue.
- The registration at src/irccmd.c:1935, which binds "compare_strict_rfc1459" to the non-strict comparator, belongs to the Lua glue.
- `rrandom`, `random`, `frandom` and `src/frandom.h` are left out. They depend on the width of `long` and on signed overflow, which is undefined in C.
- `milliseconds()` reads the wall clock.
- The memory limiter is left out: it wraps the Lua allocator.
- `listdir` is an OS directory API, and returns -52 on POSIX.
- The file handle functions are left out.
- The Windows wide-character wrappers and the Windows -55 and -56 branches of `getabsolutepath` are left out. Only `isabsolutepath`'s Windows test is modelled.
- FileIO.GetCurrentDirectory: outside test mode the host's directory is a parameter, and getcwd either stores it or fails with ERANGE, answered with MAXPATHLEN (4096 on Linux).
- FileIO.GetCurrentDirectoryContract: getcwd's failures other than ERANGE (EINVAL on a buffer of size 0, or a host that reports no directory) are answered -1, as the Windows branch answers its failures. The POSIX code instead returns 0 and leaves the buffer unset. The model does not promise that 0, because what getabsolutepath then reads from the unset buffer is undefined.
- Clock.MillisecondsDiff: the word width is a parameter. The conversion of the result to a Lua number is not modelled.
- CaseMap.CompareOutcome: the sign of a raw difference is stated only as "the difference at the first folded mismatch". No ordering is claimed, because the comparators are not a consistent collation: "a" sorts after "B", which equals "b".
- CaseMap.Compare: `char` signedness is a parameter, not a fixed choice.
- Utf8.ConvertUTF32toUTF8: the source and target pointers are modelled as a count consumed and the bytes stored. The 5- and 6-byte rows of `offsetsFromUTF8` are never reached, because isLegalUTF8 rejects those lengths first.
- All `size_t`/`int` lengths are unbounded naturals. Overflow of a length and a negative `buflen` are not modelled.
- FileIO.GetAbsolutePathWith: the flags are two booleans, for the only two bits the code reads.

## Findings

| source | as written | input that shows it | evidently intended | confidence | as-written member | corrected member |
|---|---|---|---|---|---|---|
| src/utf8v.c:130 | case 2 of isLegalUTF8 tests only `a > 0xBF`; for leads ED and F4 the inner switch then checks only an upper bound | ED 41 80 and F4 41 80 80 pass isValidUTF8String although 41 is not a continuation byte | `a < 0x80 \|\| a > 0xBF`, as in cases 3 and 4, so the gate accepts exactly RFC 3629 text | high (not executed) | Utf8Lemmas.AsWrittenAcceptsNonContinuation | Utf8RoundTrip.ValidCorrectedIffEncoding |
| src/irccmd.c:1486-1490 | irc_input returns min(needed, 2048) bytes of the latin1toUTF8 buffer | 2047 'A' bytes then 0xE9: the pair does not fit, 2047 bytes are stored, 2048 are returned, the last an uninitialised stack byte | return only the bytes latin1toUTF8 stored, the upgrade of the longest fitting prefix | high (not executed) | IrcInput.IrcInputStraddleExample | IrcInput.IrcInputWrittenOnlyIsSound |
| src/fileio.c:327-329 | getabsolutepath reports success when the result is exactly `buflen` long, with no NUL stored, and reports a required length without the NUL | "/ab" with `buflen` 3 returns 0 and leaves an unterminated string | success only with the NUL stored, and a required length that counts it, as src/fileio.h:101-108 says | high (not executed) | FileIO.FullBufferUnterminated | FileIO.TerminatedOnSuccess |
