# NXDN id lookup table

A Dafny model of `CNXDNLookup`, the NXDN gateway's table from radio ids to
callsigns. The table is built from a lookup file and queried by the gateway.

- `Load` opens the file. If it opens, `Load` clears the table, reads the file
  with `fgets` into a 100-byte buffer, and stores at most one record per
  read. It returns whether the table ends up non-empty. If the file cannot
  be opened, the old table stays.
- A read is skipped if its first character is `#`. Otherwise `strtok`, with
  the delimiters `,` tab CR LF, splits it. The first token is turned into an
  id by `atoi`. The second token is upper-cased. A read with fewer than two
  tokens, or whose id is 0, is dropped. A later record for the same id
  replaces an earlier one.
- `Find` gives `"ALL"` for the all-call id 0xFFFF. For other ids it gives the
  stored callsign on a hit and the id in decimal on a miss. `Exists` tests
  membership.

Layout:

- `wrappers.dfy`: `Option`.
- `ctext.dfy`: the C library pieces the loader uses. These are `toupper`,
  the NUL-terminated view of a buffer, and `strtok`. A `strtok` token is a
  position range with the position where the next call resumes. `Tokens`
  gives the tokens of a string on their own terms (its maximal runs of
  non-delimiters), and `StrtokTokens` shows that `strtok` walks exactly
  those.
- `numbers.dfy`: `u32` ids, glibc's `strtol`/`atoi` and the `%u` rendering.
- `records.dfy`: the `fgets` reads of a file, the record one read yields,
  and the table as a left fold over the reads. Also the lemmas about them.
- `lookup.dfy`: the class `NXDNLookup` with its `table` field. It holds the
  imperative `Load` (a loop over the reads, with the upper-casing done in
  place on an array), `Read`, `Find` and `Exists`.
- `samples.dfy`: worked examples, such as a comment, a blank line and
  `12345,alice`.

The file is a parameter of `Load`: `Option<string>`, where `None` means it
cannot be opened and `Some(text)` gives its contents. Characters stand for
the file's bytes. The loader models the reads that `fgets` makes from those
contents. A line of 100 or more characters, counting its newline, is
therefore split over several reads, and each read is parsed as a record of
its own. `ChunksOfShortLines` shows that for shorter lines the reads are
exactly the lines.

Details of the code that are easy to misread:

- The code takes the first two tokens of a read and ignores the rest, so a
  read with three or more tokens still yields a record.
- The comment test looks at the first character of each `fgets` read, not
  of each line.
- `atoi` follows glibc: `(int)strtol(s, NULL, 10)`. It skips leading white
  space, takes an optional sign and then the longest run of digits. A value
  outside the range of a 64-bit `long` saturates. The casts to `int` and
  then to `unsigned int` keep the low 32 bits. So `-5` gives 4294967291 and
  is stored, and `abc` gives 0 and is dropped.

## Model

| member | source | states |
|---|---|---|
| CText.ToUpper | NXDNGateway/NXDNLookup.cpp:142 | `toupper` in the C locale: the result is never a lower-case letter; a lower-case letter becomes its capital; every other character is kept |
| CText.Upper | NXDNGateway/NXDNLookup.cpp:141-142 | same length; no lower-case letter is left; every other character is kept; a lower-case letter becomes its capital |
| CText.UpperInPlace | NXDNGateway/NXDNLookup.cpp:141-142 | the character loop leaves the buffer equal to `Upper` of its old contents |
| CText.CStr | NXDNGateway/NXDNLookup.cpp:131-135 | the C string of a buffer is its longest prefix without NUL, cut at the first NUL |
| CText.CStrWhole | NXDNGateway/NXDNLookup.cpp:131-135 | a buffer without NUL is its own C string |
| CText.TokenEnd | NXDNGateway/NXDNLookup.cpp:135-136 | the run of non-delimiters from a position: everything before the end is a non-delimiter, and the end is a delimiter or the end of the string |
| CText.Strtok | NXDNGateway/NXDNLookup.cpp:135-136 | None exactly when only delimiters remain; otherwise a non-empty token of non-delimiters, with only delimiters before it, ending at a delimiter or at the end |
| CText.Resume | NXDNGateway/NXDNLookup.cpp:136 | the next strtok call starts just past the delimiter that ended the token when there is one, and at the end of the string otherwise |
| CText.Tokens | NXDNGateway/NXDNLookup.cpp:135-136 | the tokens of a string, in order; each is non-empty and free of delimiters |
| CText.TokensOfWord | NXDNGateway/NXDNLookup.cpp:135-136 | a non-empty word without delimiters is exactly one token |
| CText.TokensSplit | NXDNGateway/NXDNLookup.cpp:135-136 | a delimiter separates tokens: the tokens of `a + [d] + b` are the tokens of `a` followed by those of `b` |
| CText.StrtokTokens | NXDNGateway/NXDNLookup.cpp:135-136 | from any position, strtok finds nothing exactly when no token is left; otherwise it finds the first remaining token and resumes where exactly the other tokens remain |
| Numbers.DigitsValue | NXDNGateway/NXDNLookup.cpp:139 | the value of a run of k decimal digits is below 10^k |
| Numbers.SpaceEnd | NXDNGateway/NXDNLookup.cpp:139 | the run of white space strtol skips: everything before its end is white space, and the end is not |
| Numbers.DigitEnd | NXDNGateway/NXDNLookup.cpp:139 | the run of digits strtol reads: everything before its end is a digit, and the end is not |
| Numbers.Saturate | NXDNGateway/NXDNLookup.cpp:139 | a value inside the range of long is kept; one below it gives LONG_MIN, one above it LONG_MAX |
| Numbers.Strtol | NXDNGateway/NXDNLookup.cpp:139 | the result lies in the range of a 64-bit long; text without digits gives 0 (its value for every input is given by `Numbers.StrtolOfNumber`) |
| Numbers.StrtolOfNumber | NXDNGateway/NXDNLookup.cpp:139 | for white space, an optional sign and the longest run of digits after it, strtol gives the digits' value: negated after `-`, saturated at the long range, and 0 when there are no digits; what follows the digits is ignored |
| Numbers.ParseId | NXDNGateway/NXDNLookup.cpp:139 | `(unsigned int)atoi` is a 32-bit id; text without digits gives id 0 (its value is given by `Numbers.ParseIdOfNumber`) |
| Numbers.ParseIdOfNumber | NXDNGateway/NXDNLookup.cpp:139 | for a number below 2^32, `(unsigned int)atoi` gives its value, or after `-` the value wrapped modulo 2^32 |
| Numbers.DecimalString | NXDNGateway/NXDNLookup.cpp:96-98 | the `%u` text is non-empty and all digits, has no leading zero, and has the number as its value |
| Numbers.StrtolOfDigits | NXDNGateway/NXDNLookup.cpp:139 | strtol of a plain run of digits is their value when it fits a long |
| Numbers.ParseIdOfDecimal | NXDNGateway/NXDNLookup.cpp:96-98 | parsing a 32-bit id's decimal text gives the id back |
| Numbers.FormatInto | NXDNGateway/NXDNLookup.cpp:96-97 | sprintf into a fixed buffer succeeds exactly when the decimal text and its NUL fit; the text then has the number's value, is all digits and has no leading zero |
| Numbers.DecimalLength | NXDNGateway/NXDNLookup.cpp:96-97 | a number below 10^k has at most k digits |
| Numbers.DecimalLengthAtLeast | NXDNGateway/NXDNLookup.cpp:96-97 | a number of at least 10^k has more than k digits |
| Numbers.FindTextOverflows | NXDNGateway/NXDNLookup.cpp:96-97 | the 10-byte text buffer holds 999999999 but overflows for the miss 1000000000 |
| Numbers.FindTextFits | NXDNGateway/NXDNLookup.cpp:96-97 | an 11-byte buffer holds the text of every 32-bit id |
| Records.ReadLen | NXDNGateway/NXDNLookup.cpp:130-131 | one fgets read takes at most its limit, at least one character of a non-empty rest, no newline before its last character, and stops early only after a newline |
| Records.Chunks | NXDNGateway/NXDNLookup.cpp:130-131 | every read of the loop is non-empty and shorter than the 100-byte buffer |
| Records.ChunksCover | NXDNGateway/NXDNLookup.cpp:130-131 | the reads, joined in order, are exactly the file |
| Records.ChunksEndAtNewline | NXDNGateway/NXDNLookup.cpp:131 | a newline can only be the last character of a read |
| Records.ReadLenOfLine | NXDNGateway/NXDNLookup.cpp:131 | fgets reads a short newline-terminated line, or a short last line, whole |
| Records.ChunksOfShortLines | NXDNGateway/NXDNLookup.cpp:130-131 | when every line has at most 99 characters, the reads are exactly the file's lines |
| Records.Fields | NXDNGateway/NXDNLookup.cpp:135-138 | the first two of the buffer's tokens, and None exactly when it has fewer than two; the second has no NUL when the buffer has none |
| Records.ParseRecord | NXDNGateway/NXDNLookup.cpp:132-144 | a read starting with `#` yields nothing; a record's id is > 0 and its callsign is non-empty, upper case, and free of delimiters and NUL |
| Records.RecordOfTokens | NXDNGateway/NXDNLookup.cpp:132-144 | a read yields a record exactly when it is not a comment, its C string has at least two tokens and the first gives a non-zero id; the record is that id with the second token upper-cased |
| Records.Insert | NXDNGateway/NXDNLookup.cpp:144 | storing a record adds its id, maps it to its callsign, and leaves every other id as it was; no record leaves the table as it is |
| Records.Step | NXDNGateway/NXDNLookup.cpp:132-145 | no contract of its own: one iteration of the read loop; `Records.BuildSnoc` and `Records.BuildSkipsRejected` state its properties |
| Records.Fold | NXDNGateway/NXDNLookup.cpp:127-147 | no contract of its own: the table a sequence of records gives from an empty table; `Records.FoldKeys`, `Records.FoldLastWins` and `Records.FoldInvariant` state its properties |
| Records.Parsed | NXDNGateway/NXDNLookup.cpp:131-140 | one record per read, in the order of the reads |
| Records.Build | NXDNGateway/NXDNLookup.cpp:127-147 | no contract of its own: the table a file's reads give; `Records.BuildKeys`, `Records.BuildLastWins` and `Records.BuildInvariant` state its properties |
| Records.ParsedAppend | NXDNGateway/NXDNLookup.cpp:131-147 | each read is parsed on its own, so the records of two parts of a file are the records of each part |
| Records.BuildSnoc | NXDNGateway/NXDNLookup.cpp:131-147 | one more read is one more step of the fold |
| Records.FoldInvariant | NXDNGateway/NXDNLookup.cpp:138-144 | valid records only ever give a table with keys > 0 and valid callsigns |
| Records.BuildInvariant | NXDNGateway/NXDNLookup.cpp:127-147 | every table built from a file has keys > 0 and callsigns that are non-empty, upper case, and free of delimiters and NUL |
| Records.FoldKeepsDefined | NXDNGateway/NXDNLookup.cpp:144 | a stored id stays in the table through all later records |
| Records.FoldKeys | NXDNGateway/NXDNLookup.cpp:127-147 | an id is in the table exactly when some record has it (both directions) |
| Records.FoldLastWins | NXDNGateway/NXDNLookup.cpp:144 | the callsign for an id is the one from the last record with that id |
| Records.FoldSkipsNone | NXDNGateway/NXDNLookup.cpp:132-140 | a read that yields no record can be removed without changing the table |
| Records.BuildKeys | NXDNGateway/NXDNLookup.cpp:127-147 | an id is in the table exactly when some read of this file yields a record for it (both directions), so nothing from an earlier table survives |
| Records.BuildLastWins | NXDNGateway/NXDNLookup.cpp:144 | the callsign stored for an id is the one from the last read that yields that id |
| Records.BuildSkipsRejected | NXDNGateway/NXDNLookup.cpp:132-140 | removing a comment or malformed read from anywhere in the file does not change the table |
| Samples.NameFields | NXDNGateway/NXDNLookup.cpp:135-136 | `12345,<name>` splits into `12345` and the name |
| Samples.SampleId | NXDNGateway/NXDNLookup.cpp:139 | `12345` parses to 12345 |
| Samples.TrailingTextId | NXDNGateway/NXDNLookup.cpp:139 | `12ab` parses to 12 |
| Samples.NegativeId | NXDNGateway/NXDNLookup.cpp:139 | ` -5` parses to 4294967291 |
| Samples.TextId | NXDNGateway/NXDNLookup.cpp:139-140 | `abc123` parses to 0, so its read is dropped |
| Samples.NameRecord | NXDNGateway/NXDNLookup.cpp:132-144 | `12345,<lower-case name>` yields the entry 12345 pointing to the upper-cased name |
| Samples.SingleTokenRecord | NXDNGateway/NXDNLookup.cpp:135-138 | a read of one token and a newline, such as an id without a callsign, yields nothing |
| Samples.BlankRecord | NXDNGateway/NXDNLookup.cpp:135-138 | a line of delimiters only, such as a blank line, yields nothing |
| Samples.NameLineHasNoNul | NXDNGateway/NXDNLookup.cpp:135 | the sample record line holds no NUL |
| Samples.CommentBlankRecord | NXDNGateway/NXDNLookup.cpp:127-147 | a comment, a blank line and `12345,alice` give exactly the table 12345 pointing to `ALICE` |
| Samples.BuildOne | NXDNGateway/NXDNLookup.cpp:127-147 | a file of one record gives the table of that record alone |
| Samples.SameIdTwice | NXDNGateway/NXDNLookup.cpp:144 | two records for one id leave only the second |
| Samples.DuplicateId | NXDNGateway/NXDNLookup.cpp:144 | two records for 12345 leave only the second callsign |
| Lookup.NXDNLookup.constructor | NXDNGateway/NXDNLookup.cpp:28-36 | a new lookup has an empty table and the given reload time |
| Lookup.NXDNLookup.Load | NXDNGateway/NXDNLookup.cpp:117-160 | an unopenable file returns false and leaves the table; otherwise the table is exactly the fold of this file's reads, with nothing from the previous table, and the result is true exactly when it is non-empty |
| Lookup.NXDNLookup.StoreRead | NXDNGateway/NXDNLookup.cpp:132-145 | the loop body changes the table by exactly one step of the fold for its read |
| Lookup.NXDNLookup.Read | NXDNGateway/NXDNLookup.cpp:42-50 | returns what `Load` returns and leaves the table as `Load` does |
| Lookup.NXDNLookup.Find | NXDNGateway/NXDNLookup.cpp:84-104 | `ALL` for 0xFFFF whatever the table holds; the stored callsign on a hit; on a miss, the id's decimal digits with no leading zero, which parse back to the id; never empty while the table invariant holds; the table does not change |
| Lookup.NXDNLookup.Exists | NXDNGateway/NXDNLookup.cpp:106-115 | true exactly when the id is a key, with no case for 0xFFFF; the table does not change |
| Lookup.ReloadUnchangedSource | NXDNGateway/NXDNLookup.cpp:117-160 | loading the same file twice gives the same result both times, and the table that file yields |

## Left out

- The reload thread (`entry`, `run`, `wait`, `sleep`, `m_stop`) and the `CThread` base class: they exist only for concurrency. `Read` therefore only performs the first `Load`.
- `stop()`: it either sets the stop flag and joins the thread, or it runs `delete this`. Neither has a sequential counterpart.
- The mutex: `lock` and `unlock` are no-ops in this sequential model. The guarantee that a reader never sees a half-built table is a concurrency property and is not stated.
- The reload timer (`CTimer`, one hour times `reloadTime`): `Timer.h` is not part of this model. `reloadTime` is kept as a field only.
- File I/O: `fopen`, `fgets` and `fclose` are replaced by the contents passed to `Load`. The file name field is therefore not modelled. Text-mode newline translation on platforms that have one is not modelled.
- Logging (`LogInfo`, `LogWarning`): it only emits messages.
- Characters: `char` stands for a byte of the file. `toupper` is taken in the C locale, so only `a` to `z` change.
- Numbers.ParseId: glibc on a 64-bit `long` is modelled. Other C libraries, and the C standard itself, leave a value out of `int` range undefined.
- Lookup.NXDNLookup.Find: it formats a miss into an 11-byte buffer, which always fits. It does not model the overflow of the source's 10-byte buffer, which is recorded under Findings.

## Findings

| source | as written | input that shows it | evidently intended | confidence | as-written member | corrected member |
|---|---|---|---|---|---|---|
| NXDNGateway/NXDNLookup.cpp:96-97 | `char text[10U]` receives `sprintf("%u", id)` for a missing id | `find(1000000000)` on a table without that id: ten digits plus the NUL are 11 bytes | a buffer of at least 11 bytes, enough for any `unsigned int` | medium, not executed; NXDN ids are 16-bit, so only callers passing larger ids reach it | Numbers.FindTextOverflows | Numbers.FindTextFits |
