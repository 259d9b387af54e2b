# SAM-QFS management, licensing, pax and archive-request cores

A Dafny model of the parts of SAM-QFS whose correctness is not evident from one
function body, and proofs of what they promise.

| component | files |
|---|---|
| Management RPC: stamps, refusals and replies over every run | `Rpc.dfy` |
| List repair after the wire (`SET_LIST_TAIL` and friends) | `ListTail.dfy` |
| License records: transform, checksum, hex text, file of lines | `License.dfy`, `LicenseFile.dfy` |
| pax headers: numbers and fractions, self-counting lines, the pair list, the ustar block with spill, write and load | `PaxNumbers.dfy`, `PaxUtil.dfy`, `PaxLine.dfy`, `PaxXhdr.dfy`, `PaxHdr.dfy`, `PaxReload.dfy`, `PaxObject.dfy` |
| Archive requests: variable-length entries, index, joins | `ArchReq.dfy` |
| Chaining hash table with iterator | `HashTable.dfy` |
| Growing concatenation (`STRLCATGROW`) | `StrlCatGrow.dfy` |
| Option, Result and C strings | `Common.dfy` |

Code that works in place is modelled in place: the RPC server's globals, the linked
pair list, the pax header, the hash table and its iterator, the archive request, list
tails, cipher blocks and growing buffers are classes and arrays whose methods are
proved against functions on values; the theorems are about those functions. Pure
macros and the protocol's step relation are functions and lemmas.

## What is proved

- **No lost update.** In every run of any number of clients, with requests and replies
  delayed, reordered, lost or failed, the check on a pending request passes exactly
  when the number of updates since its stamp was issued is a multiple of the counter's
  period, and every accepted change was based on the configuration it replaced or on
  one a whole number of periods older.
- **Replies.** In every run each accepted request is answered to its own client with
  the library's status, and with the newest stamp if and only if it changed the
  configuration or resynchronised. `timestamp_updated` is false between requests, and a
  stale stamp left in the reused result is never adopted.
- **License pipeline.** The two transforms are pinned by the four equations between the
  words of a block and of its encryption, each of which determines the other. Encrypting, printing and reading back a file of any length
  returns the same records if and only if no encrypted word is all ones. Any 32
  hexadecimal digits, of either case, are read and printed again as the same digits in
  lower case if and only if no group of eight is all `f`.
- **pax records.** A grammar on bytes says which lines are records: the parser accepts
  those and no others, reads a buffer successfully if and only if it is a run of them
  followed by nothing or a NUL, and has its own code for each way to fail. Writing any list of pairs and reading it back gives the same list
  if and only if every keyword is non-empty and free of `=`. What is read from any file
  is written back byte for byte, however its lines spell their lengths. A self-counting
  length always exists; there are two exactly at powers of ten; the library prints the
  least.
- **Blocks and files.** A ustar block is the concatenation of its fields in the order of
  the C structure, and a file loads if and only if it is a standard block, or a block for
  extended data that announces the file's length, a run of lines and a standard block.
- **Set, write, load, get.** From a new header or one loaded from any file, after any
  alternation of settings with writes and loads, every getter returns the last value
  set, wherever it was stored, with any file name callback that copies short names as it
  is told to; the library's own does. For strings the exact conditions are given.
- **Archive requests.** Entries tile the buffer, the walk and the index agree, and
  adding join entries where the index was and pruning them again restores the request.
- **Hash table.** Any run of puts and removes of non-null data acts as on a finite
  map; the iterator yields every binding once in `count` steps.

Properties that are false of the code, each with the exact condition:

- `server_timestamp` is an `int` compared with `INTMAX_MAX`: the reset to zero is never
  taken, the period is 2^32, and one stamp per period is the number that means "no
  stamp" (`SentinelCollision`, `IntCounterNeverResets`, `AuthorStaysInSync`, with a run
  in `AuthorFallsOutOfSync`). A change based on a configuration a whole period old is
  accepted, in a run that is given for every counter (`WrapIsReachable`).
- The two version queries reach the stamp check with `ret == 0` and report their
  refusal as success (`RefusalIsReported`, with a run in `RefusedVersionQuerySucceeds`).
- `string_to_lic` turns a word of all ones into 0 (`HexRoundTrip`, `TextRoundTrip`,
  `Pipeline`); for every key some checksummed record encrypts to such a word
  (`AllOnesOccurs`, `PipelineFails`).
- `parse_fpart` with `SKIP_OVERPRECISE_DIGITS` never returns on 19 or more digits
  (`NeverReturns`, `FpartTerminatesIff`).
- A keyword that is empty or contains `=` does not survive (`XheaderRoundTrip`).
- A string of exactly the field's width loses its last character (`StringComesBack`).
- A non-negative signed id that does not fit the block is stored as an unsigned pair and
  read as a type error, until it has been written and loaded (`SignedIdComesBack`,
  `SignedIdIsKept`).
- A link name that fits the block is not written when anything is in extended data: the
  default is (`StringSurvivesIff`, `LinkNameIsLost`, with a run in
  `LinkNameLossHappens`). A file name is handed to the callback and survives.
- A string set to empty reads as the default after a write and a load, so as a null
  pointer if and only if that is empty (`EmptyStringSurvivesIff`, with a run in
  `EmptyStringLossHappens`). With the library's own callback, a header with extended
  data and no name cannot be written (`BasicWriteSucceedsIff`).
- Loading into a header that already has pairs leaves them under those of the file, where
  getters find them if the file has none (`OldPairsShineThrough`).
- `round_to_block` gives 0 for the last 511 values of a `size_t` (`RoundWrapsIff`).
- `ht_put` refuses a key only when its data is not null, so a key bound to null can be
  bound twice (`PutIsMapPut`, `NullTwice`).

Assumptions: signed overflow wraps in two's complement; `ulong_t` in the license code
has 32 bits and `char` is signed; a failed `strtoll` leaves `errno` at 0; ints in an
archive request are stored low byte first. The clock, file contents, the file name
callback, header checksums, allocation and the hash function are given as arguments.
`include/pax_hdr/pax_hdr.h` says that the callback names the file's block only when the
file's name is in extended data; the code asks it whenever there is any extended data,
and the model follows the code.

## Model

| member | source | states |
|---|---|---|
| `RpcProtocol.StampClosedForm` | include/mgmt/sammgmt.h:344-353 | the stamp after n successful updates, in closed form, for every counter width and limit |
| `RpcProtocol.SameStamp` | include/mgmt/sammgmt.h:344-353 | two update counts have the same stamp iff they are a whole number of periods apart |
| `RpcProtocol.ServeKeepsInv` | include/mgmt/sammgmt.h:332-389 | serving any request, accepted or refused, keeps the protocol invariant |
| `RpcProtocol.NextKeepsInv` | include/mgmt/sammgmt.h:332-389 | every step of any client, server or the network keeps the invariant |
| `RpcProtocol.RunKeepsInv` | include/mgmt/sammgmt.h:219-241 | the invariant holds in every reachable state |
| `RpcProtocol.EveryAcceptedChangeIsUpToDate` | include/mgmt/sammgmt.h:332-353 | every accepted change in a run was based on the configuration it replaced or one whole periods older |
| `RpcProtocol.CheckIsExact` | include/mgmt/sammgmt.h:332-340 | the check on a pending request passes iff the updates since its stamp are a multiple of the period |
| `RpcProtocol.ReplyHygiene` | include/mgmt/sammgmt.h:364-389 | the flag is false between requests and a delivered reply changes a stamp only after a resynchronisation or a change by its own request |
| `RpcProtocol.AuthorStaysInSync` | include/mgmt/sammgmt.h:219-241 | a client that takes the reply to its own change before any further one is in sync, exactly unless the new stamp is the no-update number and the one it held is another |
| `RpcProtocol.AuthorFallsOutOfSync` | include/mgmt/sammgmt.h:219-241 | for every counter whose limit lies beyond its type there is a run in which the author of a change takes its reply and is out of sync |
| `RpcProtocol.WrapIsReachable` | include/mgmt/sammgmt.h:332-353 | for every counter there is a run in which a change one whole period old is accepted |
| `RpcProtocol.SentinelCollision` | include/mgmt/sammgmt.h:578-579 | a stamp equals the no-update number iff the limit lies beyond the type and the update count is one below a multiple of the period |
| `RpcProtocol.IntCounterNeverResets` | src/lib/sammgmt/rpc/server/sammgmt_svc.c:119-121 | as an int the counter never reaches its limit, has period 2^32 and passes the no-update number once per period |
| `RpcProtocol.RefusalIsReported` | src/lib/sammgmt/rpc/server/mgmt_svr.c:57-118 | a refusal changes nothing, is answered to its own client with the value the handler started with, and is an error iff that is -1 |
| `RpcProtocol.EveryRequestIsAnswered` | include/mgmt/sammgmt.h:364-389 | in every run an accepted request adds one reply, to its client, with the status of the call, the newest stamp if it changed the configuration or resynchronised, and otherwise the no-update number, or the last reply's stamp after a failure |
| `RpcProtocol.RefusedVersionQuerySucceeds` | src/lib/sammgmt/rpc/server/mgmt_svr.c:57-118 | a run in which a version query overtaken by another client's change is refused and answered with status 0 |
| `RpcServer.Daemon.constructor` | src/lib/sammgmt/rpc/server/sammgmt_svc.c:119-121 | the server's globals start as the protocol's initial server |
| `RpcServer.Daemon.SetResult` | include/mgmt/sammgmt.h:364-389 | the three globals become what the protocol's reply step gives, keeping the old stamp on -1 |
| `RpcServer.Daemon.UpdateTimestamp` | include/mgmt/sammgmt.h:344-353 | the globals become what the protocol's update step gives |
| `RpcServer.Daemon.Serve` | src/lib/sammgmt/rpc/server/filesystem_svr.c:476-534 | a handler's check, call, bump and reply are one server step of the protocol, and the reply has the status of the refusal, of the resynchronisation or of the call |
| `ListTail.ChainIsUnique` | include/mgmt/sammgmt.h:277-288 | the nodes from a head to null are unique, so the last one is well defined |
| `ListTail.SetListTail` | include/mgmt/sammgmt.h:277-288 | the tail is the last reachable node, null if empty; nothing else changes, nothing at all if it was right |
| `ListTail.SetTails` | include/mgmt/sammgmt.h:313-317 | applied to several lists, shared or not, every tail is repaired |
| `ListTail.SetNestedTails` | include/mgmt/sammgmt.h:318-325 | every list inside the nodes of an outer list is repaired |
| `ListTail.SetFsTail` | include/mgmt/sammgmt.h:313-326 | every list of a file system is repaired, nothing else changes, a second run changes nothing |
| `ListTail.FsListsIff` | include/mgmt/sammgmt.h:313-326 | the lists of a file system are its meta data disks, data disks and striped groups, the lists that the groups hold, and no other |
| `ListTail.SetFsArchCfgTail` | include/mgmt/sammgmt.h:293-308 | the same for an archive configuration, or nothing for null |
| `ListTail.ArFsCfgListsIff` | include/mgmt/sammgmt.h:293-308 | the lists of an archive configuration are its copies and maps, the lists that the maps hold, and no other |
| `LicenseCipher.ShuffleIsPermutation` | include/license/encrypt.c:85-104 | the byte loop moves each of the four bytes to its own place and loses none |
| `LicenseCipher.F` | include/license/encrypt.c:85-104 | the result is the sum, modulo 2^32, of the input and the number made of its bytes 1, 3, 0 and 2 |
| `LicenseCipher.DecryptUndoesEncrypt` | include/license/encrypt.c:59-83 | decrypting an encrypted block gives it back, for every block and key |
| `LicenseCipher.EncryptUndoesDecrypt` | include/license/encrypt.c:59-83 | encrypting a decrypted block gives it back, for every block and key |
| `LicenseCipher.MutualInverses` | include/license/encrypt.c:59-83 | each transform undoes the other |
| `LicenseCipher.RoundsEncrypt` | include/license/encrypt.c:59-70 | the four round equations between two blocks hold iff one is the encryption of the other |
| `LicenseCipher.RoundsDetermine` | include/license/encrypt.c:59-83 | blocks that satisfy the round equations determine each other |
| `LicenseCipher.DecryptedInjective` | include/license/encrypt.c:72-83 | different blocks decrypt to different blocks |
| `LicenseCipher.Encrypt` | include/license/encrypt.c:59-70 | the old input and the new output satisfy the four round equations, also when they are the same array, and nothing else changes |
| `LicenseCipher.Decrypt` | include/license/encrypt.c:72-83 | the new output and the old input satisfy the four round equations, also when they are the same array, and nothing else changes |
| `LicenseCipher.InPlaceRoundTrip` | include/license/encrypt.c:59-83 | encrypting and decrypting in one array restores all of it |
| `LicenseChecksum.SignExtendedXor` | include/license/license.h:132-138 | sign extension of chars commutes with XOR |
| `LicenseChecksum.CheckSum` | include/license/license.h:132-138 | the sum's low byte is the XOR of the bytes, and its other bytes are 0 or all ones as that char is not negative or negative |
| `LicenseChecksum.XorAllWithout` | include/license/license.h:132-138 | any byte can be taken out of the sum |
| `LicenseChecksum.OrderDoesNotMatter` | include/license/license.h:132-138 | the sum depends only on the multiset of bytes |
| `LicenseChecksum.OneByteChangeIsSeen` | include/license/license.h:132-138 | any change confined to one byte changes the sum |
| `LicenseChecksum.MatchesIff` | include/license/license.c:168-176 | a record checks iff its last word is the XOR of the twelve bytes before it, as a signed char |
| `LicenseChecksum.ChangedRecordIsRefused` | include/license/license.c:168-176 | a record with one of its twelve bytes changed does not check |
| `LicenseText.ParseWord` | include/license/license.c:290-309 | the inner loop reads the word its recursive specification reads, and stops where it stops |
| `LicenseText.ParseWords` | include/license/license.c:285-317 | the outer loop reads the specified words, all ones becoming 0 |
| `LicenseText.DigitTable` | include/license/license.c:276-283 | the sixteen digits printed are 0 to 9 and a to f, in that order |
| `LicenseText.DigitInTable` | include/license/license.c:292-309 | a digit of either case is read as its place among them |
| `LicenseText.DigitsAreTheTable` | include/license/license.c:292-309 | the characters taken for digits are these sixteen, in either case, and no others |
| `LicenseText.ShortWord` | include/license/license.c:292-309 | a group cut short by another character is sixteen times the number before it |
| `LicenseText.WordsOfText` | include/license/license.c:285-317 | each word of 32 hexadecimal digits is the number its group of eight denotes, or 0 for all ones |
| `LicenseText.ReadSpelled` | include/license/license.c:292-309 | text that spells a word, in either letter case, is read as that word |
| `LicenseText.ReadWordSpells` | include/license/license.c:292-309 | digits read into a word with room for them spell the word that comes out |
| `LicenseText.CaseDoesNotMatter` | include/license/license.c:285-317 | text of any characters is read as the same text in lower case is |
| `LicenseText.HexRoundTrip` | include/license/license.c:276-317 | printing and reading back returns the block iff it holds no word of all ones, and what comes back otherwise |
| `LicenseText.TextRoundTrip` | include/license/license.c:276-317 | any 32 hexadecimal digits, read and printed, come back in lower case iff no group of eight is all f |
| `LicenseLines.LineCount` | include/license/license.c:149-158 | the counting loop counts runs of newlines |
| `LicenseLines.StrChrIsFirst` | include/license/license.c:149-158 | the search stops at the first occurrence, if no NUL comes before it |
| `LicenseLines.CountsRuns` | include/license/license.c:149-158 | in any text the lines counted are the newlines before a NUL that no other newline follows |
| `LicenseLines.ReadMediaLines` | include/license/license.c:178-198 | the media loop reads, decodes and checks the lines its specification does, up to the first bad one |
| `LicenseLines.MediaStandBehindNewlines` | include/license/license.c:178-198 | in any text the k-th media record is decoded from just behind the k-th single newline and checks |
| `LicenseLines.BadMediaIsThere` | include/license/license.c:178-198 | reading fails only on such a record that does not check |
| `LicenseLines.ReadLicenses` | include/license/license.c:107-217 | the whole reader returns what the specification returns; a failure leaves both outputs null |
| `LicenseLines.MediaArrayIsFilled` | include/license/license.c:149-198 | on success there is a media array iff there are media lines, and it holds as many records as are announced, whatever the blank lines |
| `LicenseLines.WellFormedFile` | include/license/license.c:149-198 | on 32-character lines the reader succeeds iff every record checks, and returns them all in order |
| `LicenseLines.FileRoundTrip` | include/license/license.c:149-198 | a printed list of checked records is read back iff each line decodes to its record |
| `LicenseFile.DecodeRecord` | include/license/license.c:168-176 | parsing, in-place decryption and the checksum loop compute the specified record and verdict |
| `LicenseFile.LineRoundTrip` | include/license/encrypt.c:52-104 | one record's line decodes to the record iff no encrypted word is all ones |
| `LicenseFile.Pipeline` | include/license/license.c:107-217 | any non-empty list of checksummed records, encrypted, printed and read, comes back iff no encrypted word is all ones |
| `LicenseFile.AllOnesOccurs` | include/license/encrypt.c:59-70 | for every key there is a record with a matching checksum whose encryption holds a word of all ones |
| `LicenseFile.PipelineFails` | include/license/license.c:107-217 | there is a checksummed record whose file does not read back |
| `Numerals.ValueOfNumeral` | src/lib/pax_hdr/pax_util.c:158-284 | printing a number in octal or decimal and evaluating the digits gives it back |
| `Numerals.NumeralLength` | src/lib/pax_hdr/pax_hdr.c:898-929 | k digits suffice iff the number is below the base to the power k |
| `Numerals.DigitTable` | src/lib/pax_hdr/pax_util.c:158-284 | the ten digits are 0 to 9 in that order, the first eight of them octal |
| `Numerals.DigitInTable` | src/lib/pax_hdr/pax_util.c:158-284 | a digit is read as its place among them |
| `Numerals.ScanSignedText` | src/lib/pax_hdr/pax_util.c:231-284 | a printed signed number followed by any non-digit is scanned as that number |
| `Numerals.ScanLocal` | src/lib/pax_hdr/pax_util.c:158-284 | what follows a character that cannot be part of a number does not change what is scanned |
| `Numerals.ScanFinds` | src/lib/pax_hdr/pax_util.c:158-284 | white space, an optional sign and a longest run of digits are scanned as the number they denote |
| `Numerals.ScanIsThere` | src/lib/pax_hdr/pax_util.c:158-284 | what is scanned from any text has that form |
| `PaxUtil.RoundToBlock` | src/lib/pax_hdr/pax_util.c:85-91 | the result is a multiple of the block size, not below the value and less than a block above it |
| `PaxUtil.RoundWrapsIff` | src/lib/pax_hdr/pax_util.c:85-91 | a 64-bit size is rounded up iff it is not among the last 511, which become 0 |
| `PaxUtil.SomethingIsRead` | src/lib/pax_hdr/pax_util.c:158-284 | every text has a reading: a number and where it ends, or none |
| `PaxUtil.ParseOutcome` | src/lib/pax_hdr/pax_util.c:158-284 | the result or error code of both parsers on every text: leading white space, a number out of range, one that goes beyond the end, one that stops before it |
| `PaxUtil.StripZeros` | src/lib/pax_hdr/pax_util.c:118-133 | the first loop leaves the digits without trailing zeros and the same fraction in fewer places |
| `PaxUtil.LeadingPlaces` | src/lib/pax_hdr/pax_util.c:124-136 | the second loop leaves the number of leading zeros to print |
| `PaxUtil.FormatPpb` | src/lib/pax_hdr/pax_util.c:94-155 | the text, written with a NUL behind it if the buffer is as long as it, is the decimal fraction of the parts per billion; the needed length, 0 for zero, the negated error code for 10^9 or more |
| `PaxUtil.NeverReturns` | src/lib/pax_hdr/pax_util.c:304-322 | on 19 or more digits the skipping loop is still running after any number of iterations |
| `PaxUtil.ReturnsOnEighteenDigits` | src/lib/pax_hdr/pax_util.c:304-322 | on at most 18 digits up to the end it is left with their value over a power of ten |
| `PaxUtil.FpartTerminatesIff` | src/lib/pax_hdr/pax_util.c:287-347 | the loop is left iff there are at most 18 digits or the end comes before a nineteenth |
| `PaxUtil.FractionOfDigits` | src/lib/pax_hdr/pax_util.c:350-382 | of 1 to 18 digits nine count: further ones are cut off, missing ones are zeros |
| `PaxUtil.FractionRoundTrip` | src/lib/pax_hdr/pax_util.c:94-382 | for every ppb from 1 to 10^9-1 the printed fraction has no trailing zero and is parsed and converted back to it |
| `PaxLength.LineLengthIsLeast` | src/lib/pax_hdr/pax_pair.c:661-709 | a length counting its own digits exists, the printed one is the least, the only other candidate is the next number |
| `PaxLength.TwoLengths` | src/lib/pax_hdr/pax_pair.c:661-709 | there are two such lengths iff the longer one is a power of ten |
| `PaxLength.AdjustLineLength` | src/lib/pax_hdr/pax_pair.c:669-709 | the loop returns the least self-counting length, or a range error iff it does not fit a size_t |
| `PaxRecord.LineCountsItself` | src/lib/pax_hdr/pax_pair.c:575-659 | the number at the front of a printed line is the line's length |
| `PaxRecord.ParsePrinted` | src/lib/pax_hdr/pax_pair.c:135-223 | a printed line, whatever follows it, is consumed to its last byte and split at its first equals sign |
| `PaxRecord.ParseIsLocal` | src/lib/pax_hdr/pax_pair.c:135-223 | a line found in a buffer, however it spells its length, is parsed in the same way alone and with anything behind it |
| `PaxRecord.FindIff` | src/lib/pax_hdr/pax_pair.c:176-190 | a character is found at its first occurrence, if no NUL comes before it |
| `PaxRecord.RecordIff` | src/lib/pax_hdr/pax_pair.c:135-223 | a buffer parses as a pair iff a prefix is a line of the grammar: its own length, a blank, a keyword, an equals sign, the text and a newline |
| `PaxRecord.NoNumberHasCode` | src/lib/pax_hdr/pax_pair.c:150-171 | a line without a number in front is invalid |
| `PaxRecord.TooLargeHasCode` | src/lib/pax_hdr/pax_pair.c:150-171 | a number of 2^64 or more is out of range |
| `PaxRecord.BadLengthHasCode` | src/lib/pax_hdr/pax_pair.c:150-174 | a length beyond the buffer is the end of the header, one whose line does not end with a newline is malformed |
| `PaxRecord.SplitFailures` | src/lib/pax_hdr/pax_pair.c:173-200 | a line without a blank or an equals sign is malformed, one with an empty keyword has no key |
| `PaxRecord.RunIff` | src/lib/pax_hdr/pax_xhdr.c:279-305 | parsing succeeds with these pairs iff the buffer is a run of their lines followed by nothing or a NUL |
| `PaxRecord.LinesComeBack` | src/lib/pax_hdr/pax_xhdr.c:245-305 | the lines of the pairs read from any buffer, written again, are the bytes they were read from |
| `PaxRecord.XheaderRoundTrip` | src/lib/pax_hdr/pax_xhdr.c:245-305 | any list of pairs, made from values or read from lines, written and read back with any padding, has the same keywords, texts and lines iff every keyword is non-empty and free of equals signs |
| `PaxRecord.ReadWithFraction` | src/lib/pax_hdr/pax_pair.c:298-352 | seconds, a point and digits are read as the seconds and the fraction the digits are read as |
| `PaxRecord.ReadOutcome` | src/lib/pax_hdr/pax_pair.c:226-295 | every text read as a signed or unsigned number: the number, if it stands alone and is in range, or the code of what is wrong |
| `PaxRecord.TimeOutcome` | src/lib/pax_hdr/pax_pair.c:298-352 | every text read as a time: the seconds, or the seconds and a fraction behind a point, or the code of what is wrong |
| `PaxRecord.FractionOutcome` | src/lib/pax_hdr/pax_util.c:287-382 | every text read as a fraction: the value of at most 18 digits that stand alone |
| `PaxRecord.TypedRoundTrip` | src/lib/pax_hdr/pax_pair.c:575-659 | every integer and time, printed and read as its own type, is unchanged |
| `PaxXhdr.PaxPair.GetLineLen` | src/lib/pax_hdr/pax_pair.c:402-432 | the reported length is that of the line that would be printed, or a range error iff it is unknown and too long |
| `PaxXhdr.PaxPair.GetLine` | src/lib/pax_hdr/pax_pair.c:436-484 | the line is the printed one, formatted or remembered, or a range error iff it is too long |
| `PaxXhdr.Xhdr.CountMatches` | src/lib/pax_hdr/pax_xhdr.c:308-325 | the number of pairs with the keyword, or of all pairs |
| `PaxXhdr.Xhdr.PutPair` | src/lib/pax_hdr/pax_xhdr.c:61-97 | the pair becomes the head and the count is that before insertion; a pair already in the list is refused |
| `PaxXhdr.Xhdr.GetPair` | src/lib/pax_hdr/pax_xhdr.c:167-207 | the newest match or all matches, newest first |
| `PaxXhdr.Xhdr.SplitMatches` | src/lib/pax_hdr/pax_xhdr.c:114-153 | the relinking loop splits the list into the matches and the others, each in order |
| `PaxXhdr.Xhdr.RemoveAll` | src/lib/pax_hdr/pax_xhdr.c:100-164 | every match leaves the list and is returned as a list of its own; the others keep their order |
| `PaxXhdr.Xhdr.RemoveFirst` | src/lib/pax_hdr/pax_xhdr.c:100-164 | only the newest match leaves the list |
| `PaxXhdr.Xhdr.GetXheaderSize` | src/lib/pax_hdr/pax_xhdr.c:210-242 | the exact length of the lines and its rounding to blocks, or a range error iff a line is too long |
| `PaxXhdr.Xhdr.Reversed` | src/lib/pax_hdr/pax_xhdr.c:344-377 | the pairs oldest first |
| `PaxXhdr.Xhdr.WriteXheader` | src/lib/pax_hdr/pax_xhdr.c:245-276 | the buffer holds the lines oldest first, then zeros; an overflow error iff they do not fit |
| `PaxXhdr.Xhdr.MkPairs` | src/lib/pax_hdr/pax_xhdr.c:279-305 | the list, with the lines that were read, and the status are what parsing the whole buffer gives, after an error too; `PaxRecord.RunIff` says on which bytes that succeeds |
| `PaxXhdr.PutPushes` | src/lib/pax_hdr/pax_xhdr.c:61-97 | a put pushes onto its keyword's stack only, and a single remove undoes it |
| `PaxXhdr.RemovePops` | src/lib/pax_hdr/pax_xhdr.c:100-164 | a single remove pops its keyword's stack and leaves every other as it was |
| `PaxXhdr.RemoveAllClears` | src/lib/pax_hdr/pax_xhdr.c:100-164 | removing all leaves no match and the other pairs in order |
| `PaxXhdr.WrittenListReadsBack` | src/lib/pax_hdr/pax_xhdr.c:245-305 | a written list, of typed or parsed pairs, is parsed back into the same keywords, texts and lines iff its keywords are good |
| `PaxHeader.FitsIff` | src/lib/pax_hdr/pax_hdr.c:898-929 | an octal number fits its field iff it is below 8 to the field's width less one |
| `PaxHeader.FieldCapacities` | src/lib/pax_hdr/pax_hdr.c:898-929 | eight bytes hold numbers below 2^21, twelve bytes numbers below 2^33 |
| `PaxHeader.OctalTextIs` | src/lib/pax_hdr/pax_hdr.c:898-929 | the text of a number that fits is one octal digit for each byte but the last and has its value |
| `PaxHeader.StringSpillsIff` | src/lib/pax_hdr/pax_hdr.c:866-895 | a string goes to extended data iff it is longer than its field |
| `PaxHeader.NumberSpillsIff` | src/lib/pax_hdr/pax_hdr.c:898-962 | a number goes there iff it is negative or has too many octal digits |
| `PaxHeader.TimeSpillsIff` | src/lib/pax_hdr/pax_hdr.c:965-1001 | a time goes there iff it has nanoseconds, is negative or has too many octal digits; an access time always |
| `PaxHeader.SetOutcome` | src/lib/pax_hdr/pax_hdr.c:898-929 | a mode or device number with more than seven octal digits is refused as not fitting and leaves a zeroed field |
| `PaxHeader.SetSucceeds` | src/lib/pax_hdr/pax_hdr.c:552-683 | every other setting succeeds |
| `PaxHeader.PutReaches` | src/lib/pax_hdr/pax_hdr.c:866-1001 | after a setter its field's getter sees the value put, whatever was there before |
| `PaxHeader.PutSparesOthers` | src/lib/pax_hdr/pax_hdr.c:866-1001 | a setter leaves what every other getter sees |
| `PaxHeader.LastSettingWins` | src/lib/pax_hdr/pax_hdr.c:552-683 | after any sequence of settings a field's getter sees its last setting |
| `PaxHeader.LastLineWins` | src/lib/pax_hdr/pax_xhdr.c:167-207 | of all lines with a keyword in a run, the last is what a getter finds |
| `PaxHeader.TextKeywords` | src/lib/pax_hdr/pax_hdr.c:686-757 | the getters of strings look for path, linkpath, uname and gname |
| `PaxHeader.NumberKeywords` | src/lib/pax_hdr/pax_hdr.c:686-803 | the getters of numbers look for uid, gid, size, mtime and atime |
| `PaxHeader.NoKeyword` | src/lib/pax_hdr/pax_hdr.c:686-840 | the other fields are looked for in the block alone |
| `PaxHeader.OtherTypesAreRefused` | src/lib/pax_hdr/pax_pair.c:486-522 | a pair made from a value of another type is refused with that type's code |
| `PaxHeader.StringOutcome` | src/lib/pax_hdr/pax_hdr.c:1017-1057 | a field read as a string is malformed without a NUL, and null if it is empty |
| `PaxHeader.FieldOutcome` | src/lib/pax_hdr/pax_hdr.c:1060-1159 | a field read as a number is the number it begins with, or out of range |
| `PaxHeader.StringComesBack` | src/lib/pax_hdr/pax_hdr.c:866-895 | a string is read back unless it is empty or has exactly the field's width, and what is read then |
| `PaxHeader.OctalComesBack` | src/lib/pax_hdr/pax_hdr.c:1060-1159 | a number in the block is read as that number by all three numeric getters |
| `PaxHeader.UnsignedComesBack` | src/lib/pax_hdr/pax_hdr.c:898-929 | an unsigned number is read back from every field with a keyword, from the others if it fits |
| `PaxHeader.SignedIdComesBack` | src/lib/pax_hdr/pax_hdr.c:572-593 | a signed id is read back, or is a type error iff it is non-negative and does not fit |
| `PaxHeader.TimeComesBack` | src/lib/pax_hdr/pax_hdr.c:965-1001 | every time is read back from mtime and atime |
| `PaxHeaderFile.BlockRoundTrip` | include/pax_hdr/pax_hdr.h:70-94 | every field of a ustar block is found again in its bytes; `BlockLayout` says where it lies |
| `PaxHeaderFile.BlockLayout` | include/pax_hdr/pax_hdr.h:70-94 | the bytes of a block are its fields in the order of the C structure, then twelve zeros |
| `PaxHeaderFile.LoadedLayout` | include/pax_hdr/pax_hdr.h:70-94 | the fields loaded from any 512 bytes are the bytes at the positions of the C structure |
| `PaxHeaderFile.StandardIff` | src/lib/pax_hdr/pax_hdr.c:183-243 | bytes are a standard header iff magic, version and type stand at their positions |
| `PaxHeaderFile.ExtendedSays` | src/lib/pax_hdr/pax_hdr.c:183-243 | bytes of type x are an extended header with the number of bytes that their size field announces, rounded to blocks, and one more block |
| `PaxHeaderFile.ExtendedIsThere` | src/lib/pax_hdr/pax_hdr.c:183-243 | no other bytes are one |
| `PaxHeaderFile.OthersAreRefused` | src/lib/pax_hdr/pax_hdr.c:183-243 | bytes without the marks or of another type are no pax header |
| `PaxHeaderFile.GlobalIsRefused` | src/lib/pax_hdr/pax_hdr.c:183-243 | a global header is recognised and not supported |
| `PaxHeaderFile.KindOfBlock` | src/lib/pax_hdr/pax_hdr.c:183-243 | bytes that begin with a block are classified by its magic, version, type and size |
| `PaxHeaderFile.BasicCopiesShortNames` | src/lib/pax_hdr/pax_hdr.c:376-446 | the library's callback copies a short file name verbatim, as callbacks are told to |
| `PaxHeaderFile.BasicSucceedsIff` | src/lib/pax_hdr/pax_hdr.c:376-446 | exactly when it succeeds, and the two names it generates for a file differ in the prefix only |
| `PaxHeaderFile.BasicNames` | src/lib/pax_hdr/pax_hdr.c:376-446 | the name and prefix fields it makes for every name and either block, and its error codes |
| `PaxHeaderFile.BasicWriteSucceedsIff` | src/lib/pax_hdr/pax_hdr.c:297-373 | exactly when a header is written with that callback |
| `PaxHeaderFile.WriteOutcome` | src/lib/pax_hdr/pax_hdr.c:297-373 | with any callback, which error a header with extended data is refused with, and when it is written |
| `PaxHeaderFile.PlainBlock` | src/lib/pax_hdr/pax_hdr.c:1160-1245 | each field of the block written for a header without extended data |
| `PaxHeaderFile.FirstBlock` | src/lib/pax_hdr/pax_hdr.c:297-373 | each field of the first block written for one with extended data: type x, the lines' length in octal, the callback's name |
| `PaxHeaderFile.FileBlock` | src/lib/pax_hdr/pax_hdr.c:1160-1245 | each field of its last block: merged with the defaults, with the callback's name and the default link name |
| `PaxHeaderFile.SizeAccounting` | src/lib/pax_hdr/pax_hdr.c:183-373 | the announced size is the written one: one block, or whole blocks and at least three, and the first block tells which and the bytes behind it |
| `PaxHeaderFile.WriteThenLoad` | src/lib/pax_hdr/pax_hdr.c:297-544 | what was written, with pairs set or read from any file, loads iff its type is a file's, and yields the written block and every pair in order |
| `PaxHeaderFile.StandardLoads` | src/lib/pax_hdr/pax_hdr.c:490-544 | a file that begins with a standard block loads as that block |
| `PaxHeaderFile.ExtendedLoadsIff` | src/lib/pax_hdr/pax_hdr.c:490-544 | one that begins with an extended header loads, as a given header, iff it has the announced length and holds a run of its lines and then a standard block |
| `PaxHeaderFile.OthersDoNotLoad` | src/lib/pax_hdr/pax_hdr.c:490-544 | no other file loads |
| `PaxHeaderFile.LoadFailures` | src/lib/pax_hdr/pax_hdr.c:490-544 | the codes for a wrong length and for a last block that is not standard |
| `PaxHeaderFile.LoadStatus` | src/lib/pax_hdr/pax_hdr.c:490-544 | what a load of extended data answers: what reading the lines ends with, or the code of a standard header if there is no byte of them |
| `PaxHeaderFile.LoadRunIsLoad` | src/lib/pax_hdr/pax_hdr.c:490-544 | loading into any header gives the status, block and pairs of loading into a new one, with the old pairs under them |
| `PaxHeaderFile.OldPairsShineThrough` | src/lib/pax_hdr/pax_hdr.c:490-544 | a getter sees what is in the file iff the file has a pair for it or the header had none |
| `PaxHeaderFile.LoadedIsWellMade` | src/lib/pax_hdr/pax_hdr.c:490-544 | a header loaded from any file has the marks and a file's type, and its pairs are the lines as they stand in the file |
| `PaxHeaderFile.LoadThenWrite` | src/lib/pax_hdr/pax_hdr.c:297-544 | extended data that was loaded is written back byte for byte, padded with zeros, and loads as the same pairs |
| `PaxReload.NewHeaderBecomesReady` | src/lib/pax_hdr/pax_hdr.c:154-167 | a new header can be written and loaded once its type is set |
| `PaxReload.SetKeepsReady` | src/lib/pax_hdr/pax_hdr.c:552-720 | any setting keeps a header that can be written and loaded such a header |
| `PaxReload.LoadedIsReady` | src/lib/pax_hdr/pax_hdr.c:490-544 | what is loaded from any file can be changed, written and loaded again |
| `PaxReload.FieldReloads` | src/lib/pax_hdr/pax_hdr.c:1169-1245 | after a write and a load a field holds what was merged for it, or what the callback made of the name, and its newest pair has the same text |
| `PaxReload.TraceExists` | src/lib/pax_hdr/pax_hdr.c:297-544 | all alternations of settings and saves can be taken from a ready header |
| `PaxReload.SaveCarries` | src/lib/pax_hdr/pax_hdr.c:1169-1245 | a write and a load keep what a field carries, unless it is empty or a link name beside extended data |
| `PaxReload.TraceCarries` | src/lib/pax_hdr/pax_hdr.c:297-544 | after any alternation a field carries its last setting, if every save spares it |
| `PaxReload.UnsignedIsKept` | src/lib/pax_hdr/pax_hdr.c:1060-1091 | a carried unsigned number is read back, after a save also as signed |
| `PaxReload.SignedIsKept` | src/lib/pax_hdr/pax_hdr.c:1094-1125 | a carried signed number is read back |
| `PaxReload.TimeIsKept` | src/lib/pax_hdr/pax_hdr.c:1128-1159 | a carried time is read back to the nanosecond |
| `PaxReload.StringIsKept` | src/lib/pax_hdr/pax_hdr.c:1017-1057 | a carried string is read back, null if empty, without its last character if it has the field's width |
| `PaxReload.SettingsSurvive` | src/lib/pax_hdr/pax_hdr.c:297-544 | after any alternation of settings, writes and loads every getter returns the last value set, if every save spares it |
| `PaxReload.SignedIdIsKept` | src/lib/pax_hdr/pax_hdr.c:572-593 | every signed id is read back after a history and a save, also those that are type errors before |
| `PaxReload.StringSurvivesIff` | src/lib/pax_hdr/pax_hdr.c:1213-1242 | exactly when the string last set in a history is read back after one more write and load |
| `PaxReload.EmptyStringSurvivesIff` | src/lib/pax_hdr/pax_hdr.c:1160-1242 | a string set to empty reads as the default or the callback's name after a write and a load, and is null iff that is empty |
| `PaxReload.EmptyStringLossHappens` | src/lib/pax_hdr/pax_hdr.c:1160-1242 | a new header whose owner's name was set to empty is written and loaded with that of the defaults |
| `PaxReload.LinkNameIsLost` | src/lib/pax_hdr/pax_hdr.c:1213-1242 | setting a link name that fits the block and an access time loses the link name, whatever came before |
| `PaxReload.LinkNameLossHappens` | src/lib/pax_hdr/pax_hdr.c:1213-1242 | a new header with a name, a link name and an access time is written and loaded without its link name |
| `PaxObject.OthersAreWithout` | src/lib/pax_hdr/pax_xhdr.c:100-164 | removing the matches from the linked list removes their entries from its value |
| `PaxObject.NewestIsFirst` | src/lib/pax_hdr/pax_xhdr.c:167-207 | the newest entry of a keyword is the first match in the linked list |
| `PaxObject.Header.constructor` | src/lib/pax_hdr/pax_hdr.c:154-167 | a new header has magic, version, zeroed fields and no extended data |
| `PaxObject.Header.SetString` | src/lib/pax_hdr/pax_hdr.c:866-895 | status, block and list become what the string setting specifies |
| `PaxObject.Header.SetUnsigned` | src/lib/pax_hdr/pax_hdr.c:898-929 | status, block and list become what the unsigned setting specifies |
| `PaxObject.Header.SetSigned` | src/lib/pax_hdr/pax_hdr.c:932-962 | status, block and list become what the signed setting specifies |
| `PaxObject.Header.SetTime` | src/lib/pax_hdr/pax_hdr.c:965-1001 | status, block and list become what the time setting specifies |
| `PaxObject.Header.SetType` | src/lib/pax_hdr/pax_hdr.c:644-658 | the type field becomes the character and nothing else changes |
| `PaxObject.Header.Look` | src/lib/pax_hdr/pax_hdr.c:1017-1057 | the pair and field a getter looks at are those of the header's value |
| `PaxObject.Header.GetHeaderSize` | src/lib/pax_hdr/pax_hdr.c:256-295 | the exact, padded and total sizes, or a range error iff a line is too long |
| `PaxObject.Header.WriteHeader` | src/lib/pax_hdr/pax_hdr.c:297-373 | the buffer holds the specified bytes, whose blocks `FirstBlock`, `FileBlock` and `BlockLayout` lay out, or the status is the specified error, also without defaults or with defaults that have extended data; the header is unchanged |
| `PaxObject.Header.LoadPaxHdr` | src/lib/pax_hdr/pax_hdr.c:490-544 | status, block and pairs with their lines are what the specification of loading into a header with any pairs gives, after an error too; a writable header stays writable |
| `ArchReqLayout.RndIsMacro` | include/sam/types.h:149-156 | rounding is the macro's formula and gives multiples of the unit |
| `ArchReqLayout.FiSize` | include/aml/archreq.h:254-272 | an entry holds its structure and name, and its offline information, if any, ends with it |
| `ArchReqLayout.OfflineIff` | include/aml/archreq.h:231-258 | an entry has offline information iff the flag of weight 2 is set, whatever the other flags are |
| `ArchReqLayout.SizeIsAligned` | include/aml/archreq.h:254-258 | entry sizes are aligned |
| `ArchReqLayout.TilesAreApart` | include/aml/archreq.h:254-258 | entries follow one another without overlap inside the region |
| `ArchReqLayout.TilesCover` | include/aml/archreq.h:254-258 | every byte of the region belongs to an entry |
| `ArchReqLayout.TilesAreAligned` | include/aml/archreq.h:254-258 | entries stay aligned |
| `ArchReqLayout.NextTile` | include/aml/archreq.h:254-258 | stepping by an entry's size leads to the next entry or the end |
| `ArchReqLayout.OneMoreTile` | src/archiver/arfind/archive.c:1783-1799 | an entry written at the end is walked to next |
| `ArchReqLayout.RearrangedIndex` | include/aml/archreq.h:183-198 | any rearrangement of the index reaches each entry exactly once |
| `ArchReqBuffer.ArchReq.EnsureRoom` | src/archiver/lib/archreq.c:126-149 | growing stops with room to spare and keeps the contents |
| `ArchReqBuffer.ArchReq.Append` | src/archiver/arfind/archive.c:1783-1799 | the entry lies behind the others, which are unchanged |
| `ArchReqBuffer.ArchReq.BuildIndex` | src/archiver/arfind/archive.c:1845-1871 | the index behind the entries holds exactly the offsets of the walk, and the entries are unchanged |
| `ArchReqBuffer.MoveIndexUp` | src/archiver/archiverd/compose.c:815-824 | after the overlapping moves the entry is where the index was and the index, one slot longer, behind it |
| `ArchReqBuffer.ArchReq.AddJoin` | src/archiver/archiverd/compose.c:791-824 | the join entry is walked to after the others and indexed last |
| `ArchReqBuffer.ArchReq.StoreIndex` | src/archiver/archiverd/compose.c:1447-1472 | the index holds the given order; the entries are unchanged |
| `ArchReqBuffer.LeastSlot` | src/archiver/archiverd/compose.c:1514-1521 | the least of the join offsets |
| `ArchReqBuffer.MoveIndexDown` | src/archiver/archiverd/compose.c:1514-1530 | the remaining slots lie at the least dropped offset |
| `ArchReqBuffer.ArchReq.PruneJoins` | src/archiver/archiverd/compose.c:1504-1531 | the joins are gone, the index is back where the first of them was |
| `ArchReqBuffer.ComposeThenPrune` | src/archiver/archiverd/compose.c:723-842 | any joins, added and pruned, leave the entries, the place of the index and the chosen order |
| `Buckets.MapSize` | include/mgmt/hash.h:45-66 | a chain has as many bindings as keys iff no key occurs twice |
| `Buckets.GetAgrees` | src/lib/sammgmt/string_hash.c:123-150 | looking into the key's bucket is looking into the map |
| `Buckets.PutAgrees` | src/lib/sammgmt/string_hash.c:67-110 | a new node binds the key, and keeps keys distinct iff it was not bound |
| `Buckets.RemoveAgrees` | src/lib/sammgmt/string_hash.c:153-200 | a remove takes the key out of the map and nothing else |
| `Buckets.CountIsKeys` | include/mgmt/hash.h:45-66 | bindings and keys are equally many iff no chain has a key twice |
| `Buckets.PutIsMapPut` | src/lib/sammgmt/string_hash.c:67-110 | a duplicate put changes nothing, and a put keeps the table a map iff the key is not bound to null |
| `Buckets.RefinesMap` | include/mgmt/hash.h:68-96 | any run of puts of data and removes acts as on a finite map, with count the number of keys |
| `Buckets.NullTwice` | src/lib/sammgmt/string_hash.c:78-85 | putting null twice leaves two bindings of one key |
| `HashTable.HashTable.constructor` | src/lib/sammgmt/string_hash.c:41-64 | a new table has 127 empty buckets |
| `HashTable.HashTable.Get` | src/lib/sammgmt/string_hash.c:123-150 | the data of the first binding, null if there is none |
| `HashTable.HashTable.Put` | src/lib/sammgmt/string_hash.c:67-110 | the table becomes the specified one, with the duplicate error iff the key has data |
| `HashTable.HashTable.Remove` | src/lib/sammgmt/string_hash.c:153-200 | the first binding of the key is unlinked and its data returned |
| `HashTable.HtIterator.constructor` | src/lib/sammgmt/string_hash.c:400-418 | a new iterator has everything ahead |
| `HashTable.HtIterator.HasNext` | src/lib/sammgmt/string_hash.c:389-397 | there is a next element iff fewer than all have been visited |
| `HashTable.HtIterator.GetNext` | src/lib/sammgmt/string_hash.c:306-387 | the next binding in a fixed order, or the end error after count steps |
| `HashTable.Drain` | include/mgmt/hash.h:98-120 | iterating yields every binding once, in count steps, with distinct keys for a proper table |
| `StrlCatGrow.LeastDoublingIsLeast` | include/mgmt/util.h:86-95 | the final size is a doubling of the start, exceeds the total, and no smaller doubling does |
| `StrlCatGrow.GrownIff` | include/mgmt/util.h:86-95 | a buffer is left iff every doubling up to that size is granted; otherwise the size is the first refused |
| `StrlCatGrow.HoldsCText` | include/mgmt/util.h:79-85 | a buffer that holds a text reads as it |
| `StrlCatGrow.Strlcat` | include/mgmt/util.h:86-95 | as much of the source as fits is appended and the length it would have is returned |
| `StrlCatGrow.StrlCatGrow` | include/mgmt/util.h:86-95 | the result is null or the old text followed by all of the new, in a buffer of the specified size |

## Left out

- Sockets, XDR, message texts and the hundreds of RPC procedures; a handler is given by whether it checks, updates and what it starts with.
- License: `stat`, `open`, `read` and the modification-time check; expiry and host-id checks; 64-bit `ulong_t`.
- LicenseLines.ReadLicenses: decoding and checking a record are arguments; `LicenseFile.DecodeRecord` shows that the loops compute them. Memory behind the file buffer, which `memcpy` may read, is an argument too.
- pax global headers. The ustar checksum and the generated short name are arguments.
- pax getters that read a numeric field without a terminator into the next field, and the remembering of a pair's parsed type.
- PaxXhdr.Xhdr.RemoveAll: the `all_match` flag of `pxh_remove_pair` is modelled as two methods, this one and `RemoveFirst`.
- PaxUtil.RoundToBlock: the block size is 512, the only one in use; `RoundWrapsIff` says when a `size_t` wraps around.
- PaxRecord.ParseLine: a line that announces length 0 makes the library read before its buffer; the model only says that it does.
- PaxXhdr.Xhdr.WriteXheader: lines longer than a `size_t` counts.
- PaxObject.Header.WriteHeader: lines longer than a `size_t` counts, and a header without extended data written without defaults, which the source dereferences.
- Archive requests: what the entries say beyond their size, sorting, joining by directory, and the second half of pruning, which drops finished files from the index.
- ArchReqBuffer.ArchReq.PruneJoins: at least one join; with the join flag set and no selected files the source would move the index to offset `INT_MAX`.
- ArchReqBuffer.ArchReq.BuildIndex: requests stay below 2 GB, so that offsets fit an `int`.
- ArchReqBuffer.ArchReq.AddJoin: the same.
- Hash table: `ht_detach_next`, freeing, `list_hash_put` and allocation failure; `elf_hash` is an arbitrary function.
- StrlCatGrow.StrlCatGrow: doubling a size beyond `size_t` is not modelled.
- Archiver scheduling, staging, catalogs, robots, quota and leases.
