# uCini in Dafny

uCini is a small C library for embedded microcontrollers. It maps an ini file
onto program variables through a constant table (`tIni` → `tSection` →
`tEntry`). `uCiniParse` reads the file line by line. A header line `[name]`
selects a section. A `key=value` line is written into the variable that the
matching entry points at. `uCiniDump` writes every section and every entry back
out in table order. Integers are converted by two helpers: `sscand` reads a
decimal token and `sprintd` writes one.

This project models that core as pure functions and proves properties of it:

- `options.dfy`: the `Option` type used for C's NULL results.
- `cstring.dfy` (module `CString`): `strncmp` with a bound, and `strtok`
  built from `strspn` and `strcspn`, together with its characterisation.
- `decimal.dfy` (module `Decimal`): `sscand` and `sprintd`. It covers the code
  as written (`ScanAsWritten`, `Sscand`, `PrintAsWritten`), the corrected
  versions (`Scan`, `Print`), and the round trips between them. The parse and
  dump drivers use the code as written. The corrected versions serve as the
  reference the as-written code is compared against.
- `bytes.dfy` (module `Bytes`): little-endian byte strings. It states how
  `memcpy` of the low bytes of a `long` works and how a field is read back
  as a signed value.
- `tags.dfy` (module `Tags`): the `eType` bit fields and the `MASK`, `GET`,
  `SET` and `CLR` macros of `uCini.h`.
- `schema.dfy` (module `Schema`): the mapping tables, host memory as a map
  from address to cell, and how the `switch (type)` statements classify a tag.
- `tokenizer.dfy` (module `Tokenizer`): the two ways a line is tokenised, one
  for a section header and one for `key=value`.
- `parse.dfy` (module `Parser`): the `uCiniParse` state machine. State is the
  memory, the active section and the list of callback invocations. The line
  sequence is the input.
- `textfile.dfy` (module `TextFile`): the ini file between the two. `Written` is
  what one `fputs_` per line writes. `ReadLines` is how successive
  `fgets_(line, 20, …)` calls cut the file back into pieces of at most 19
  characters.
- `dump.dfy` (module `Dumper`): `uCiniDump` as a list of lines, the text of
  each line, and where each section's lines sit in the output.
- `roundtrip.dfy` (module `RoundTrip`): dumping and then parsing restores
  memory, both over the dumped lines and over the written file read back by
  `fgets_`. This includes the all-ones 32-bit value that is dumped as `-1`.
- `scenarios.dfy` (module `Scenarios`): concrete tables and inputs.

Choices made where the C code leaves something open:

- The case labels `eType_CHAR`, `eType_SHORT` and `eType_LONG` in `uCini.c`
  are not defined in `uCini.h`. They are also passed to `memcpy` as lengths,
  so the model takes them to be the widths 1, 2 and 4.
- The tags the header does define for integers and flags (`eType_INT + n`,
  `eType_FLAG + bit`) match no case of either switch. So they fall through to
  `default` (`Schema.HeaderTagsUnhandled`).
- `long` is 32 bits wide and plain `char` is signed. This agrees with the
  header's note that 4294967295 is dumped as `-1`. A signed `char` also
  means that `*str - '0'` in `sscand` is negative for the bytes 0x80 to 0xFF
  (`Decimal.CharCode`, `Decimal.HighByteScan`).
- Where the comments in `uCini.h` differ from the code, the model follows the
  code:
  - `uCini.h:16` allows an optional `-` before a number. `sscand` also accepts
    a leading `+`, and `+-`.
  - `uCini.h:82` and `uCini.h:85-86` say that only a valid decimal number is
    accepted. After the first character, `sscand` does not check that the
    remaining characters are digits, so "1x" is accepted.
  - `uCini.h:17` and `uCini.h:25` describe `FLAG` entries read as 'y' or 'n'.
    Neither switch in `uCini.c` has a case for them.
  - `uCini.h:66` and `uCini.h:74` promise a count of values. Neither function
    returns one.
  - `uCini.h:93` declares the printer as `scatd`. `uCini.c` defines it as
    `sprintd`.

## Model

| member | source | states |
|---|---|---|
| Decimal.Scan | uCini.c:122-140 | The corrected reading: "y" reads as 1 and "n" as 0. Any other token gives the number scanned after an optional `+` and then an optional `-`, or no result when the next character is not a digit (see Findings). |
| Decimal.ScanNumber | uCini.c:126-136 | The numeric branch gives a result only when a digit follows the optional `+` and `-`. A non-empty all-digit token gives its positional value. Every later character adds its signed `char` value minus '0'. |
| Decimal.ScanAsWritten | uCini.c:122-140 | As written, "y" and "n" both give 0, because line 138 stores `number`. Every other token is read by the numeric branch. |
| Decimal.Sscand | uCini.c:122-140 | The loop version succeeds exactly when `ScanAsWritten` accepts the token, so "y" gives 0 as written. On success the result is that value. On failure the caller's number is left as it was. |
| Decimal.ScanDigits | uCini.c:131-136 | The digit loop yields the sign times the positional value of every remaining character, each read as a signed `char`. |
| Decimal.FirstDigitOnly | uCini.c:128-136 | Once the first character is a digit, the whole rest of the token is accumulated, with or without a leading `-`. |
| Decimal.PlusFirstDigitOnly | uCini.c:128-136 | After a leading `+`, with or without a `-` following it, a digit makes the rest of the token accumulate in the same way. |
| Decimal.CharCode | uCini.c:132 | A character below 0x100 reads as a signed `char`: it lies in -128..127 and agrees with its code modulo 256. ASCII characters read as themselves. |
| Decimal.HighByteScan | uCini.c:130-138 | "1" followed by the byte 0xE9 scans as 10 + (-23 - 48) = -61. |
| Decimal.ScanEdges | uCini.c:127-136 | The empty token, "-", "+" and "+-" are rejected. "+-5" reads as -5. "1x" is accepted as 10 plus the character offset of 'x'. |
| Decimal.YesScansAsZero | uCini.c:124-138 | As written, "y" stores 0 rather than the corrected 1. Every other token is read the same way by both versions. |
| Decimal.RejectsDoubleMinus | uCini.c:128-130 | A token that starts with "--" is rejected. |
| Decimal.Digits | uCini.c:160-168 | Printing a positive number gives only digits, with no leading zero. |
| Decimal.Print | uCini.c:145-169 | The printed text is canonical: "0", or a positional numeral with an optional leading '-'. It starts with '-' exactly when the number is negative. |
| Decimal.AccumulateDigits | uCini.c:160-168 | Reading the printed digits of a positive number positionally gives the number back. |
| Decimal.PrintScan | uCini.c:122-169 | Scanning the printed text of any integer gives that integer back. |
| Decimal.DigitsAccumulate | uCini.c:160-168 | A positional numeral is the printed form of its own value. |
| Decimal.ScanPrint | uCini.c:122-169 | Every canonical token is accepted, and printing its value gives the token back. |
| Decimal.PositionalScans | uCini.c:130-136 | A positional numeral scans to its positional value. |
| Decimal.NegativeScans | uCini.c:129-136 | A '-' followed by a positional numeral scans to the negated positional value. |
| Decimal.WrapLong | uCini.c:157 | Wrapping to 32 bits gives a `long`, and leaves a value that already is a `long` unchanged. |
| Decimal.PrintAsWrittenAgrees | uCini.c:145-169 | The C recursion with truncating `/` and `%` prints the same text as `Print` for every `long` except LONG_MIN. |
| Decimal.PrintAsWritten | uCini.c:145-169 | The C recursion on a 32-bit `long` gives non-empty text that starts with '-' exactly when the number is negative. |
| Decimal.PrintAsWrittenNegative | uCini.c:155-158 | Away from LONG_MIN, a negative number prints as '-' followed by its magnitude. |
| Decimal.PrintAsWrittenDigits | uCini.c:160-168 | As written, a positive `long` prints as its positional digits. |
| Decimal.LongMinStep | uCini.c:155-168 | The negation of LONG_MIN wraps back to LONG_MIN. The text becomes "-", then the text for -214748364, then the character '0' - 8, which is '('. |
| Decimal.LongMinAsWritten | uCini.c:155-168 | As written, LONG_MIN prints as text that starts with "--" and ends with '('. Both `Scan` and `ScanAsWritten` reject that text, while the corrected `Print` round-trips. |
| Bytes.Unsigned | uCini.c:53 | The little-endian value of n bytes is below 256^n. |
| Bytes.Encode | uCini.c:53 | Encoding a value below 256^n gives n bytes whose value is that number. |
| Bytes.EncodeUnsigned | uCini.c:53 | Encoding the value of a byte string gives the same bytes back. |
| Bytes.LowBytes | uCini.c:53 | Copying the low n bytes of a `long` keeps exactly the value modulo 256^n. |
| Bytes.Signed | uCini.c:96-104 | Reading a field as a signed `char`, `short` or `long` gives a value in the two's-complement range that agrees with the bytes modulo 256^n. |
| Bytes.LowBytesSigned | uCini.c:53 | Storing the signed reading of a field writes back the same bytes. |
| Bytes.LowBytesModular | uCini.c:53 | Two numbers that agree modulo 256^n store the same bytes. |
| Tags.MasksPartition | uCini.h:32-34 | The size, signed and type masks are disjoint and together cover the byte. |
| Tags.Selector | uCini.h:34-38 | Each type constant lies inside the type mask and is decoded back to its own type. |
| Tags.SelectorInjective | uCini.h:35-38 | Distinct types have distinct constants. |
| Tags.Split | uCini.h:31-38 | Any tag splits into size, signed flag and type fields that join back to the tag. |
| Tags.Join | uCini.h:31-38 | Joining the fields gives a tag whose masks recover each field. |
| Tags.Get | uCini.h:42-43 | On a plain (signed) `char`, `GET` is non-zero exactly when the selected bit is set. Positions 8 to 31 read the sign extension, so they reflect bit 7. |
| Tags.Promote | uCini.h:42-43 | A plain `char` converted for a bitwise operation with the unsigned mask keeps its low byte and copies bit 7 into bits 8 to 31. |
| Tags.Set | uCini.h:42-44 | `SET` on a `char` sets the selected bit and leaves every other bit as it was. A position beyond the byte changes nothing. |
| Tags.SetPromoted | uCini.h:42-44 | `SET` computed on the promoted `char` and truncated back to a byte equals `Set` on the byte. |
| Tags.SetBits | uCini.h:44 | Or-ing the low byte of the mask sets the selected bit and keeps every other bit. |
| Tags.Clr | uCini.h:42-45 | `CLR` clears the selected bit and leaves every other bit as it was. |
| Tags.ClearedBits | uCini.h:45 | Clearing with the low byte of the mask keeps every other bit. |
| Tags.ClrPromoted | uCini.h:42-45 | `CLR` applied to the value promoted to `unsigned`, truncated back to a byte, equals `Clr` on the byte. |
| Tags.LowMask | uCini.h:42 | The low byte of `MASK(pos)` is the single bit `pos`, or zero past bit 7. |
| Tags.SetClrIdempotent | uCini.h:44-45 | `SET` and `CLR` are idempotent, and each undoes the effect of the other on the selected bit. |
| Schema.TagOf | uCini.c:44-61 | Every branch of the parse switch other than `default` is selected by some tag. |
| Schema.HeaderTagsUnhandled | uCini.c:44-61 | Integer and flag tags built as the header describes reach the `default` branch. |
| Schema.KindOf | uCini.c:44-61 | The switch takes the SZ branch only for tag 0x00, an integer branch only for the tag equal to its width, and the FUNC branch only for tag 0x60. |
| Schema.IntValue | uCini.c:96-104 | The signed read of an integer field lies in the range of a 32-bit `long`, and storing it back into the field's width gives the field's bytes. |
| CString.StrnEqShort | uCini.c:30 | When one string is shorter than the bound, `strncmp` with that bound reports equality exactly for equal strings. |
| CString.StrnEq | uCini.c:30 | Equal strings match. When the first string is shorter than the bound, the strings match exactly when they are equal. |
| CString.SpanLength | uCini.c:27 | `strtok` skips exactly the leading run of delimiters. |
| CString.RunLength | uCini.c:27 | The token extends to the first delimiter, or to the end of the string. |
| CString.Strtok | uCini.c:39-40 | There is no token exactly when the string is all delimiters. A token is non-empty and free of delimiters. With no token, nothing is left to scan. |
| CString.StrtokAt | uCini.c:39-40 | When a non-delimiter remains, the token is the run that follows the leading delimiters. Scanning resumes after the character that ends it. |
| CString.StrtokOf | uCini.c:39-40 | A string made of delimiters, a delimiter-free token, and then the end of the string or a delimiter tokenises as that token. Scanning resumes after that one delimiter. |
| CString.StrtokSplits | uCini.c:39-40 | Conversely, every token found has exactly that shape. |
| Tokenizer.SplitKeyValue | uCini.c:39-40 | Without a key there is no value. A key is non-empty and has no blank, tab or `=`. A value is non-empty and has no CR or LF. |
| Tokenizer.SectionToken | uCini.c:27 | There is no section token exactly when the line is all brackets. Otherwise the token is non-empty and has no bracket. |
| Tokenizer.SectionTokenIs | uCini.c:25-27 | The header token is t exactly when the line is `[`, then possibly more brackets, then t, then the end of the line or a bracket. |
| Tokenizer.HeaderToken | uCini.c:25-27 | A line `[name]` with a bracket-free name is a header line whose token is the name. |
| Tokenizer.KeyLine | uCini.c:39-40 | After leading key delimiters, the key runs to the first delimiter. The value is the first CR/LF-delimited token of the rest. |
| Tokenizer.EntryTokens | uCini.c:25-40 | A line `key=value` is a header line only when the key starts with `[`. Its tokens are the key, and the value when the value is non-empty. |
| Parser.FindSection | uCini.c:28-34 | The result is the first section, from the start index on, whose name `strncmp` matches against the token. No earlier section matches. |
| Parser.StoreInt | uCini.c:50-54 | The field's first w bytes hold the value modulo 256^w. The bytes after them are kept. No other address changes. |
| Parser.Assign | uCini.c:44-61 | SZ copies the value as the field's text. An integer field stores the value `ScanAsWritten` gives, so "y" stores 0, and keeps its old contents when the value does not scan. FUNC records one call with the value. Other tags do nothing. Only the entry's address changes. |
| Parser.ApplyEntries | uCini.c:41-63 | Only addresses of entries whose names match the key change. If no entry matches, nothing changes. Callback calls are only appended. |
| Parser.Step | uCini.c:25-64 | A header line leaves memory and calls alone. It selects the first section whose name matches, and selects none exactly when no name matches. Any other line keeps the active section. It changes nothing outside a section, and inside one it changes only that section's addresses. Calls are only appended. |
| Parser.RunAppend | uCini.c:18-22 | Parsing two pieces of input one after the other is the same as parsing them concatenated. |
| Parser.Run | uCini.c:18-65 | The read loop leaves the active section as it was, unset, or one of the table's sections. Callback calls are only appended. |
| Parser.Parse | uCini.c:14-67 | A parse ends with no section active or with one of the table's sections. It writes only addresses named in the table. |
| Parser.RunFrame | uCini.c:18-65 | Parsing keeps the active section one of the table's own sections. It never writes memory outside the table's addresses. |
| Parser.ParseFrame | uCini.c:14-67 | A whole parse writes only addresses named in the table. |
| Parser.KeysOutsideSectionIgnored | uCini.c:38 | Before any section is selected, non-header lines change nothing. |
| Parser.UnknownSectionIgnored | uCini.c:25-38 | After a header naming no section of the table, the following lines change nothing. |
| Parser.AssignLocal | uCini.c:44-61 | What an assignment writes depends only on the previous contents of its own address. |
| Parser.AssignAgreeing | uCini.c:44-61 | Two memories that agree on a set of addresses including the entry's still agree there after the same assignment. |
| Parser.ApplyLocal | uCini.c:41-63 | Applying a line to two memories that agree on the matched addresses leaves them agreeing there. |
| Parser.EveryMatchAssigned | uCini.c:41-63 | Each matching entry whose address no other match shares receives exactly what its own assignment writes. The loop does not stop at the first match. |
| Parser.UniqueMatch | uCini.c:41-63 | When exactly one entry matches, the line acts as that one assignment. |
| Parser.KeyLinesCommute | uCini.c:38-63 | Two key lines in the same section that touch disjoint addresses can be swapped without changing the resulting memory. |
| Dumper.EntryText | uCini.c:95-111 | An integer field is printed by `sprintd` as written. For every value but LONG_MIN the text is canonical, and `sscand` as written reads back the field's signed value. LONG_MIN prints as text that `sscand` rejects. SZ prints its text. FUNC prints what the callback writes. Other tags print nothing. |
| Dumper.LineText | uCini.c:83-113 | A header line is `[`, the name, `]` and a newline. An entry line is the key, `=`, the value and a newline. |
| Dumper.Texts | uCini.c:83-113 | Each output line is the text of the corresponding line: `[name]` or `key=value`, each ending in a newline. |
| Dumper.TextsAppend | uCini.c:86-113 | The text of consecutive lines is the concatenation of their texts. |
| Dumper.EntryLines | uCini.c:89-114 | There is one line per entry, in table order. |
| Dumper.SectionLines | uCini.c:80-114 | A section's output is its header followed by one line per entry, in order. |
| Dumper.Dump | uCini.c:80-115 | The dump has one line per section plus one per entry. |
| Dumper.DumpPrefix | uCini.c:80-115 | Dumping the first n sections gives a prefix of the full dump. |
| Dumper.DumpSnoc | uCini.c:80-115 | Dumping one more section appends exactly that section's lines. |
| Dumper.DumpLayout | uCini.c:80-115 | Section i's lines sit in the dump right after the lines of the sections before it. |
| RoundTrip.CanonicalIsToken | uCini.c:40 | Printed numbers are non-empty and contain no CR or LF, so they come back as a single value token. |
| RoundTrip.LongMinIsToken | uCini.c:155-168 | The as-written text of LONG_MIN is non-empty and has no CR or LF, so it comes back as one value token. |
| RoundTrip.AssignDumped | uCini.c:44-113 | Parsing an entry's dumped line into the same memory leaves that memory unchanged. This holds for a LONG_MIN field too: its text is rejected, so the field keeps its value. |
| RoundTrip.IntRestored | uCini.c:53-104 | Storing the signed value read from an integer field writes back the same bytes. |
| RoundTrip.SelectsItself | uCini.c:30 | A name matches itself under `strncmp`. |
| RoundTrip.EntryStep | uCini.c:39-63 | One dumped entry line, parsed with its section active, leaves memory and the active section unchanged. This holds for entry names without blanks, tabs, `=` or '\n' that do not start with `[`. |
| RoundTrip.EntriesRoundTrip | uCini.c:41-113 | Parsing a section's dumped entries from any point on leaves memory unchanged, for entry names as in `EntryStep` that differ within the `strncmp` window. |
| RoundTrip.SectionRoundTrip | uCini.c:14-117 | Parsing one section's dumped lines selects that section and leaves memory unchanged. Section names hold no bracket or '\n'. |
| RoundTrip.PrefixRoundTrip | uCini.c:14-117 | Parsing the dump of the first n sections leaves memory unchanged, under the same conditions on names and texts. |
| RoundTrip.DumpThenParse | uCini.c:14-117 | Parsing the dumped lines of a table into the memory they were dumped from changes nothing. Names and texts must survive tokenising and hold no '\n'. Every dumped line, its '\n' included, must be under 20 characters, so that it fits `char line[20]` (uCini.c:20, uCini.c:74) with its NUL. |
| TextFile.Chunk | uCini.c:22 | A read with `room` characters of buffer takes the text up to and including the first '\n', but no more than `room` characters and no more than what is left. It takes something whenever there is text and room. |
| TextFile.LineLength | uCini.c:22 | One `fgets_(line, 20, …)` takes at most 19 characters. It stops after the first '\n', after the 19th character, or at the end of the file, whichever comes first. |
| TextFile.ReadLines | uCini.c:18-22 | The pieces read until the end of the file are non-empty and at most 19 characters long. A '\n' can only be a piece's last character. Together the pieces are the file again. |
| TextFile.ChunkOf | uCini.c:22 | With room for a whole line, a read from a file that starts with it takes exactly that line. |
| TextFile.LineLengthOf | uCini.c:20-22 | Reading a file that starts with a whole line of under 20 characters takes exactly that line. |
| TextFile.ReadWritten | uCini.c:22-113 | A file written one line at a time, each line under 20 characters, is read back as the same lines. |
| TextFile.LongLineCut | uCini.c:20-22 | A line of 20 characters or more comes back cut: the first piece read is its first 19 characters. |
| RoundTrip.EntryTextInLine | uCini.c:95-111 | An entry's value text holds no '\n' when its string field and callback output hold none. |
| RoundTrip.LineTextIsLine | uCini.c:83-113 | A header or entry line whose parts hold no '\n' is written as exactly one file line. |
| RoundTrip.SectionIsLines | uCini.c:83-114 | Every line a section dumps is one file line. |
| RoundTrip.DumpIsLines | uCini.c:80-115 | Every line of the dump is one file line. |
| RoundTrip.FileRoundTrip | uCini.c:14-117 | The file uCiniDump writes, cut into lines by `fgets_`, gives back the dumped lines. Parsing it into the memory it was dumped from changes nothing. Every dumped line, its '\n' included, must be under 20 characters, the size of `char line[20]` less its NUL. |
| RoundTrip.AllOnesLong | uCini.h:22-23 | An all-ones 32-bit field is dumped as "-1". Parsing "-1" restores all four bytes, and so does parsing "4294967295". |
| RoundTrip.AllOnesDecimal | uCini.h:22-23 | "4294967295" scans to 4294967295. |
| RoundTrip.AllOnesSigned | uCini.c:102-104 | Read as a signed `long`, the all-ones field is -1. |
| RoundTrip.MinusOneText | uCini.c:122-169 | -1 prints as "-1" under both printers, and both scanners read "-1" back as -1. |
| Scenarios.PortLineTokens | uCini.c:39-40 | "port=8080" is not a header line, and it tokenises as key "port" with value "8080". |
| Scenarios.Scan8080 | uCini.c:122-140 | Both scanners read "8080" as 8080. |
| Scenarios.YesStoresZero | uCini.c:124-138 | As written, assigning "y" to a `char` field that holds 7 stores 0. |
| Scenarios.Bytes8080 | uCini.c:53 | 8080 stored in a `short` is the bytes 0x90 0x1F. |
| Scenarios.NetHeader | uCini.c:25-34 | "[net]" selects the net section. |
| Scenarios.PortSelected | uCini.c:38-43 | In the net section, "port=8080" assigns exactly the port entry. |
| Scenarios.PortStored | uCini.c:50-54 | Assigning "8080" to the port entry stores 0x90 0x1F. |
| Scenarios.PortAssigned | uCini.c:38-54 | Stepping the "port=8080" line in the net section stores 0x90 0x1F. |
| Scenarios.NetPort | uCini.c:25-54 | Parsing "[net]" and then "port=8080" stores 0x90 0x1F at the port field and changes nothing else. |
| Scenarios.UnknownSectionExample | uCini.c:25-38 | After "[wifi]", which is not in the table, "port=80" changes nothing, and no section is active. |
| Scenarios.SpacedSelected | uCini.c:27-31 | A section name containing a space is selected by its header. |
| Scenarios.CaseMismatch | uCini.c:27-31 | A header differing only in letter case selects nothing. |
| Scenarios.SpacedSectionName | uCini.c:27-31 | Spaces are part of a section name, and matching is case sensitive. |
| Scenarios.HeaderStep | uCini.c:25-34 | A header `[name]` activates whichever section the lookup finds, or none. |

Note: `Schema.Frame` is a ghost predicate (a quantifier over all addresses). The contracts that use it state the frame properties of `Parser.StoreInt`, `Parser.Assign`, `Parser.ApplyEntries` and `Parser.Step`.

## Left out

- Opening and closing files is not modelled. `fopen_`, `fgets_`, `fputs_` and `fclose_` sit behind `stdio_.h`, which is not part of this model. The file's contents are a string: `TextFile.Written` is what the `fputs_` calls write, and `TextFile.ReadLines` is how `fgets_` cuts it into pieces of at most 19 characters. `Parser.Parse` takes those lines.
- Line length limits are modelled in part:
  - Reading is modelled. `fgets_(line, 20, …)` cuts a longer line into pieces of at most 19 characters, and `TextFile.ReadLines` does the same; each piece is parsed as its own line (`TextFile.LongLineCut`).
  - The overflow in `uCiniDump` is not modelled. `strcpy` and `strcat` (uCini.c:83-85, uCini.c:92-112) write past `char line[20]` when a line with its NUL needs more than 20 bytes, which is undefined behaviour. `Dumper.Dump` returns the whole text instead, and the round-trip lemmas require every dumped line to fit (`RoundTrip.AllFit`).
  - `strncmp`'s bound of 20 is modelled by `CString.StrnEq`. Its contract states only that equal strings match and what happens for names shorter than 20.
- Return values are not modelled. `uCini.h:66` and `uCini.h:74` promise the number of values read or printed, but `uCiniParse` and `uCiniDump` reach their end without a `return`, so there is no count to model.
- FUNC callbacks run code outside the model:
  - Parsing records each call as `Call(addr, value)` in the state.
  - Dumping takes what the callback writes as the parameter `render`.
- The model does not pass NULL tokens on: when `strtok` returns NULL, C passes NULL to `strncmp`, `strcpy` or `sscand`, which is undefined behaviour. The model instead treats a missing key as matching no entry. A missing value leaves SZ and integer fields unchanged, and is passed to a FUNC callback as `None`.
- The representation is simplified:
  - Memory is a map from address to cell. Distinct entries that share an address are allowed, but overlapping fields at different addresses are not modelled.
  - Integers are little-endian.
  - A string's bytes are its characters, with no terminating NUL. Tokens and values are assumed to contain no NUL. Characters above 0xFF have no C counterpart; `Decimal.CharCode` reads them as their code point.
- Decimal.Scan: the accumulator is an unbounded integer, so a token with more digits than a `long` can hold does not wrap as the C loop does. Only the low bytes stored by `memcpy` are modelled, and these agree whenever the token fits in a `long` (`Bytes.LowBytesModular`).
- Decimal.Sscand: the same unbounded accumulator applies as for `Decimal.Scan`.
- Decimal.ScanNumber: the same unbounded accumulator applies as for `Decimal.Scan`.
- Decimal.ScanAsWritten: the same unbounded accumulator applies as for `Decimal.Scan`.
- Decimal.Print: `sprintd` appends to the buffer it is given. The model returns the appended text, and the line text puts it after `key=`.
- Decimal.PrintAsWritten: the same applies as for `Decimal.Print`. The buffer is the caller's line.
- Tags: the header comment describes `FLAG` tags, with 'y'/'n' stored into a bit of a `char`, but neither switch in `uCini.c` has a case for them. Only the macros and the tag layout are modelled. "y" and "n" are handled only by `sscand`.
- RoundTrip.FileRoundTrip: it covers tables whose names, string texts and callback output hold no '\n', and whose every dumped line is under 20 characters. With a '\n' in a name, `fgets_` cuts the dumped line in two, and the second piece is parsed as a line of its own. A longer line overflows `line[20]` in `uCiniDump`, and when read back it is cut after 19 characters.
- RoundTrip.DumpThenParse: it has the same length condition, because a longer line overflows `line[20]` while it is dumped.

## Findings

| source | as written | input that shows it | evidently intended | confidence | as-written member | corrected member |
|---|---|---|---|---|---|---|
| uCini.c:124-138 | The "y" branch stores 1 in `*pNum`. Control then falls through to line 138, which stores `number`, which is still 0. | the value token "y" | "y" stores 1 (a set flag) | high; not executed | Decimal.YesScansAsZero | Decimal.Scan |
| uCini.c:155-161 | `num *= -1` overflows for LONG_MIN and leaves it negative. The recursion then prints "-" twice, and the last digit is `'0' + (-8)`, which is '('. | LONG_MIN = -2147483648 in a `long` field | "-2147483648", which parses back to the same value | medium (the overflow is undefined behaviour; two's-complement wrap is assumed); not executed | Decimal.LongMinAsWritten | Decimal.PrintScan |

Parsing (`Parser.Assign`) and dumping (`Dumper.EntryText`) follow the code as written, so the whole model shows both behaviours: "y" stores 0 (`Scenarios.YesStoresZero`), and a LONG_MIN field dumps as text that parsing rejects (`RoundTrip.LongMinIsToken`, `RoundTrip.AssignDumped`). The corrected members are proved as the reference behaviour.
