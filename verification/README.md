# Verified models of the file decoders, the archive code and the rate limiter

A Dafny 4.11 project that models five parts of the repository and proves what they are for.
`dafny verify dfyconfig.toml` checks all of it.

| part | source | modules |
|---|---|---|
| LZW, ASCII85, tokens and dictionaries of PDF files | bin/pdf-parser.py | Bits, LzwCodec, LzwDecoder, Ascii85, PdfTokenizer, PdfDictionary, PdfPrinter |
| Splitting a recorded SMTP session into emails | saq/bro.py | BroSmtp |
| Concurrency slots and request windows kept in Redis | aceapi_ai/ratelimit.py | RateSemaphore, RateWindows |
| Streams and directory of OLE compound files | bin/office2john.py | OleStream, OleWrite, OleDirectory, OleTree |
| Writing and reading ZIP archives, the CRC and the PKWARE cipher | bin/custom_zipfile.py | ZipStruct, ZipLayout, ZipExtra, ZipRecords, ZipEnd, ZipArchive, ZipOpening, ZipExtFile, ZipWriter, ZipReader, ZipItems, ZipLocal, ZipListing, ZipRoundTrip, ZipMisled, ZipCipher, ZipCrc, ZipWords, ZipNote |

Objects that the source updates in place are classes whose methods update fields: the LZW decoder, the
PDF document and tokenizer, the splitter, the Redis keys, the OLE file and its directory, the cipher, the
ZIP member reader, and both halves of `ZipFile`. Each method is proved against a function of the old state,
and the lemmas are about those functions. Encoders and printers that the repository does not have (LZW,
ASCII85, encryption, PDF dictionaries, SMTP sessions) are written from the standards or from the patterns
of the source, so that decoding can be shown to undo them. The encryption is that of section 6.1 of the ZIP
application note, over natural numbers in `ZipNote`; the headers of archives are described byte by byte, with
the offsets of sections 4.3.7 to 4.3.16 of the note, apart from the functions that make them.

Exceptions are values of `Result`. Bytes are integers below 256; the cipher and the CRC use 64-bit vectors,
and their registers are shown to stay within 32 bits. `struct` formats are lists of field widths.

Some predicates are guarded by `Shown`, which is always true. They mean what the rest of their bodies says;
the guard only keeps the verifier from unfolding them where they are not needed.

## Model

| member | source | states |
|---|---|---|
| LzwCodec.DecodeEncode | bin/pdf-parser.py:1080-1156 | for every text and every clear policy within twelve bits, decoding the packed codes of the encoder of section 7.4.4.2 of ISO 32000-1 gives the text back, width switches and the code not yet in the table included |
| LzwCodec.FeedPhrase | bin/pdf-parser.py:1114-1141 | a decoder in step with the encoder gives out the phrase of the next code and stays in step, also when the code is the entry just being made |
| LzwCodec.ClearingOftenFits | bin/pdf-parser.py:1134-1139 | a policy that clears within any 3839 codes in a row keeps every code at twelve bits, so that the round trip applies |
| LzwCodec.CodesExactly | bin/pdf-parser.py:1114-1141 | for any codes between two clears, not only those of an encoder: they decode if and only if each stands for a byte, for an entry made before, or for the one just being made; the phrases are those that LZW gives the codes, and the table holds a phrase with the next one's first byte for every two neighbours |
| LzwCodec.SpellsOnce | bin/pdf-parser.py:1114-1141 | codes have at most one list of phrases, whatever their number |
| LzwCodec.EndOfDataPassed | bin/pdf-parser.py:1122-1123 | the code for the end of data is passed over, and decoding goes on behind it |
| LzwDecoder.Decoder.ReadBits | bin/pdf-parser.py:1090-1112 | gives exactly the next n bits, most significant first, across byte boundaries, or the end of the data |
| LzwDecoder.Decoder.FeedCode | bin/pdf-parser.py:1114-1141 | one code changes table, previous phrase and width as the specification function says, errors included |
| LzwDecoder.Decoder.RunAll | bin/pdf-parser.py:1143-1153 | the loop gives the decoding of all bits that remain |
| LzwDecoder.LzwDecode | bin/pdf-parser.py:1155-1156 | the result for any bytes, and the text itself for bytes that the encoder made from any text |
| Ascii85.Decode | bin/pdf-parser.py:1011-1031 | the loop over characters decodes as the function on the remaining text does, misplaced z and overflow included |
| Ascii85.DecodeExactly | bin/pdf-parser.py:1011-1031 | the result for every text, told apart from the loop: the groups of five digits and z up to the first ~ give their bytes, a short last group those that its digits determine, and what fails is a z inside a group, or a group above 2^32 - 1 |
| Ascii85.DecodeEncode | bin/pdf-parser.py:1011-1031 | for every byte string, decoding its encoding (section 7.4.3 of ISO 32000-1) gives it back, with any insignificant characters in between and anything after the end mark |
| Ascii85.PadBounds | bin/pdf-parser.py:1026-1029 | filling a group up with the digit 84 raises its value by less than 85^(5-k) and never lowers it |
| Ascii85.DecodeShortGroup | bin/pdf-parser.py:1026-1029 | a short last group of one to three bytes decodes to exactly these bytes, without overflow |
| PdfTokenizer.Document.Byte | bin/pdf-parser.py:251-260 | takes the first of the bytes still to come, pushed-back ones first |
| PdfTokenizer.Document.Unget | bin/pdf-parser.py:262-264 | puts a byte back in front of all the others |
| PdfTokenizer.Tokenizer.NextOf | bin/pdf-parser.py:281-344 | takes exactly the text of the next token off the input, end of file after `<` or in a comment included |
| PdfTokenizer.Tokenizer.UngetToken | bin/pdf-parser.py:360-361 | the token pushed back comes last in the list from which NextOf takes the last one first, and the input is untouched |
| PdfTokenizer.Tokenizer.Tokens | bin/pdf-parser.py:352-358 | gives all tokens, and their texts joined are the whole input |
| PdfTokenizer.TokenizeLossless | bin/pdf-parser.py:281-358 | joining the tokens of any input gives the input back, and no token is empty |
| PdfTokenizer.TokenizeMaximal | bin/pdf-parser.py:281-344 | runs of white space and of regular characters are never split in two |
| PdfTokenizer.TokenizeExactly | bin/pdf-parser.py:281-344 | the tokens of a text are the one list that joins to it, whose members have the shape of tokens (a comment runs up to a CR or LF, brackets come in pairs where they can) and cannot be longer |
| PdfDictionary.ParseDictionary | bin/pdf-parser.py:762-829 | ends on every token list without empty tokens although it tokenizes comments again; gives the specified parse; the branch for a negative balance is never reached |
| PdfDictionary.ValueToken | bin/pdf-parser.py:788-827 | one token of a value is handled as specified, and an open string keeps an open parenthesis |
| PdfDictionary.LeftoverIsSuffix | bin/pdf-parser.py:762-829 | what the parser leaves is always the end of the text that it was given |
| PdfPrinter.ParsePrinted | bin/pdf-parser.py:762-829 | parsing a printed dictionary, nested to any depth, with white space wherever it does not matter, comments inside strings, a last key without a value, and followed by anything, gives the dictionary and stops at its closing bracket |
| PdfPrinter.ParseComment | bin/pdf-parser.py:801-806 | inside a string a comment is cut up into the tokens of its text behind the percent sign, and parsing goes on with these |
| PdfPrinter.ParseStart | bin/pdf-parser.py:764-775 | what does not begin with an opening bracket is no dictionary, and nothing of it is taken |
| PdfPrinter.ParseUnclosed | bin/pdf-parser.py:762-829 | a dictionary that is begun and not parsed has used up all tokens |
| BroSmtp.ParsePrinted | saq/bro.py:26-164 | the lines of a printed session give back its list of emails: same senders, recipients and bodies, files 0, 1, 2, ...; envelopes abandoned with RSET, anywhere between the messages, leave no trace |
| BroSmtp.ParseText | saq/bro.py:46-164 | the same from the text of the session, read line by line |
| BroSmtp.ParseExactly | saq/bro.py:26-164 | for any lines at all, the result is that of a specification without a state: source and time from the first two lines, and then the messages of `Session` |
| BroSmtp.SessionExactly | saq/bro.py:107-164 | the emails of any lines are those of the messages between DATA lines and terminators, each with the last sender and all recipients named since the last RSET or message before it |
| BroSmtp.ResetForgets | saq/bro.py:144-148 | after any lines outside a message, RSET makes the rest of the session read as from a fresh start with the same file number |
| BroSmtp.SourceExactly | saq/bro.py:12-12 | an address and port are read from the first line if and only if it begins with what is no colon, a colon and all digits that follow |
| BroSmtp.BracketedExactly | saq/bro.py:13-14 | an address is read from a command if and only if it stands in the first pair of angle brackets directly behind it |
| BroSmtp.TerminatorExactly | saq/bro.py:150-153 | a message ends at the lines that are the mark between white space, and at no others |
| BroSmtp.EmailsIndexes | saq/bro.py:91-104 | in any session, printed or not, the emails yielded are numbered 0, 1, 2, ... without a gap |
| BroSmtp.MessagesIndependent | saq/bro.py:82-104 | nothing of one message gets into the next: after a terminator the rest of the session reads as from a fresh start |
| BroSmtp.RunConcat | saq/bro.py:107-164 | splitting a session in two pieces, with the state carried over, is splitting the whole |
| BroSmtp.Splitter.ResetState | saq/bro.py:82-89 | sender and recipients start anew, the recipients in a list of their own |
| BroSmtp.Splitter.Finalize | saq/bro.py:91-104 | the email yielded holds the sender, the list and the file number of its message; the splitter goes on with another list |
| BroSmtp.Splitter.Take | saq/bro.py:107-164 | one line moves the splitter as specified (what that comes to for whole sessions is `BroSmtp.SessionExactly`, for RSET `BroSmtp.ResetForgets`); lists and files of earlier messages are not touched |
| BroSmtp.ParseSession | saq/bro.py:107-164 | at the end of the run every yielded email still shows the specified recipients and body, no two share a list, and every file belongs to one email |
| BroSmtp.ParseBroSmtp | saq/bro.py:26-164 | the whole generator agrees with the specification, time errors included; `BroSmtp.ParseExactly` says what that is for every input |
| RateSemaphore.SortedSet.AcquireScript | aceapi_ai/ratelimit.py:36-44 | the script drops the stale tokens, and grants the slot and renews the expiry exactly when fewer than max_concurrency are left |
| RateSemaphore.SortedSet.Remove | aceapi_ai/ratelimit.py:141-145 | taking a token back removes it and nothing else |
| RateSemaphore.RefusedWhenFull | aceapi_ai/ratelimit.py:36-44 | an acquire is refused if and only if max_concurrency tokens are younger than stale_after |
| RateSemaphore.StaleSlotReaped | aceapi_ai/ratelimit.py:36-44 | for an acquire that is stale_after past its timestamp a leaked token is as if it were not there |
| RateSemaphore.StepKeepsInvariant | aceapi_ai/ratelimit.py:36-145 | every step of every worker (clock read, script, lost reply, end, release, crash, time) keeps the invariant |
| RateSemaphore.ConcurrencyBounded | aceapi_ai/ratelimit.py:114-145 | in every run of any number of workers, never more than max_concurrency queries run at once |
| RateSemaphore.RunningHoldsSlot | aceapi_ai/ratelimit.py:114-145 | in every run, a running query's token is in the set with its own timestamp until the query ends |
| RateSemaphore.RefusalJustified | aceapi_ai/ratelimit.py:119-136 | in every run, a refusal means that max_concurrency young tokens are in the set, each of a query that runs, of one that is about to give its slot back, or of a worker that crashed or lost its reply |
| RateSemaphore.RefusedExactly | aceapi_ai/ratelimit.py:114-145 | in every run without such a loss, an acquire is refused if and only if max_concurrency queries run: a slot given back is granted again at once |
| RateSemaphore.RunAccounts | aceapi_ai/ratelimit.py:114-145 | in every run, every token not taken back belongs to a query that runs, that is giving it back, or whose loss is a step of the run |
| RateSemaphore.ExpiryJustified | aceapi_ai/ratelimit.py:36-44 | in every run, key expiry removes only tokens that are stale already |
| RateWindows.CounterKeys.CheckRequest | aceapi_ai/ratelimit.py:84-112 | both counters go up by one and are renewed, and the outcome follows from the new counts; `RateWindows.AdmittedExactly` says for whole runs which requests that admits |
| RateWindows.AdmittedExactly | aceapi_ai/ratelimit.py:99-112 | in every run, a request is admitted if and only if with it the requests of its clock minute and hour are within both limits, up to and including the last one allowed; otherwise the minute is named first, with the wait up to its end, and then the hour |
| RateWindows.RetryReachesNextWindow | aceapi_ai/ratelimit.py:102-112 | waiting retry_after_seconds always reaches the next window of the kind that was refused |
| RateWindows.CountersOutliveWindows | aceapi_ai/ratelimit.py:91-97 | in every run a counter expires only a whole window after its own has ended, and until then has counted every request of its window |
| RateWindows.WindowsBounded | aceapi_ai/ratelimit.py:84-112 | in every run each clock minute admits at most requests_per_minute and each clock hour at most hourly_budget |
| RateWindows.StretchBounded | aceapi_ai/ratelimit.py:84-112 | in every run, of the requests whose clock reads lie in any sixty seconds in a row, at most twice the minute limit are admitted |
| RateWindows.MomentsBounded | aceapi_ai/ratelimit.py:84-112 | in every run, at most three times the minute limit are admitted at moments in any sixty seconds in a row: a clock read may be up to a minute old |
| OleStream.WalkChain | bin/office2john.py:745-793 | the loop follows the chain as specified, with each of its errors |
| OleStream.OpenStream | bin/office2john.py:720-808 | the whole constructor, for known and unknown sizes |
| OleStream.EndedIsDistinct | bin/office2john.py:745-797 | a chain that reaches its end visits no sector twice |
| OleStream.CyclicNeverOpens | bin/office2john.py:720-808 | a chain that comes back to a sector cannot be opened, whatever the size |
| OleStream.OpenReadsChain | bin/office2john.py:720-808 | a successful open visits distinct sectors along the chain up to its end, at most len(fat), just ceil(size / sector size) for a known size, and gives their concatenation cut to the size |
| OleStream.OpenKnownExactly | bin/office2john.py:720-808 | a stream of known size opens if and only if just ceil(size / sector size) links lead over sectors of the file to the end of the chain and hold enough bytes, and gives these |
| OleStream.OpenUnknownExactly | bin/office2john.py:720-808 | a stream of unknown size opens if and only if some number of links lead to the end of the chain, and gives all that their sectors hold |
| OleWrite.OleFile.WriteSect | bin/office2john.py:1685-1709 | the sector is replaced, padded with zeros, and the rest of the file is as before |
| OleWrite.OleFile.WriteStream | bin/office2john.py:1914-1972 | refuses what is no stream, a wrong size and small streams without a change; otherwise writes along the chain |
| OleWrite.ReopenKnown | bin/office2john.py:1914-1972 | for every chain that opens, the write goes through and reopening gives exactly the data |
| OleWrite.WriteExactly | bin/office2john.py:1914-1972 | a write goes through if and only if just as many links as the data has sectors lead over sectors of the table to the end of the chain |
| OleWrite.WrittenReopens | bin/office2john.py:1914-1972 | whatever could be opened before, after a write that goes through the stream reads as the data |
| OleWrite.ReopenAfterWrite | bin/office2john.py:1914-1972 | for a stream that opens, the data is written and read back if and only if its length is not 0x7FFFFFFF |
| OleWrite.ReopenDiffers | bin/office2john.py:720-727 | a container and any data of length 0x7FFFFFFF: it opens, the write goes through, and what is read back differs |
| OleWrite.OtherStreamKept | bin/office2john.py:1944-1972 | every stream that shares no sector with the one written reads as before |
| OleDirectory.AppendKids | bin/office2john.py:965-1006 | ends on every left/right/child graph, because entries still to be loaded get fewer, and never unloads one; which entries it collects is `OleTree.KidsExactly` |
| OleDirectory.BuildStorageTree | bin/office2john.py:941-963 | the same for the children of a storage |
| OleDirectory.DirectoryFile.LoadDirentry | bin/office2john.py:1748-1771 | loads an entry once and marks its stream start, or raises |
| OleDirectory.DirectoryFile.PutKid | bin/office2john.py:985-1000 | adds a child to its storage, or raises when its name is taken |
| OleDirectory.DirectoryFile.AppendChildren | bin/office2john.py:965-1006 | the recursion over left, node, right and child in place, against the specification, of which `OleTree.KidsExactly` says what is collected |
| OleDirectory.DirectoryFile.BuildTree | bin/office2john.py:941-963 | children are collected and sorted in place |
| OleDirectory.DirectoryFile.LoadAll | bin/office2john.py:1712-1746 | the directory as a whole, loaded or refused as specified: refused if and only if the records are not sound (`OleTree.LoadsExactly`), with every entry that the links reach (`OleTree.LoadedExactly`) |
| OleDirectory.LoadedDirectory | bin/office2john.py:941-1006 | of a directory that loads: each entry but the root is in exactly one storage, each storage comes before its entries, sibling names differ ignoring case, stream starts are marked |
| OleDirectory.LoadedStartsDistinct | bin/office2john.py:1411-1435 | no two loaded entries begin at the same sector of the same table |
| OleDirectory.DirectoryFile.List | bin/office2john.py:1817-1858 | gives the paths of all entries below a storage in order, or the error for an entry of another type |
| OleDirectory.DirectoryFile.Find | bin/office2john.py:1860-1889 | looks a path up name by name, ignoring case |
| OleDirectory.FindListed | bin/office2john.py:1817-1889 | looking up any path that listdir gives finds exactly the entry that was listed |
| OleTree.KidsExactly | bin/office2john.py:941-1006 | of a directory that loads: the children of an entry are all that left and right links of the records reach from its child link, and no others, in the order of their names |
| OleTree.ReachedExactly | bin/office2john.py:965-1006 | paths of left and right links reach just the siblings of the tree that the links make |
| OleTree.LoadsExactly | bin/office2john.py:1712-1771 | a directory loads if and only if its records are sound: the links make a tree in which no entry comes twice, none has a defect, no two streams start at one place, and the names of siblings differ |
| OleTree.LoadedExactly | bin/office2john.py:941-1006 | an entry is loaded if and only if it is reached from the root by going into one entry after another, along left and right links each time |
| OleTree.ListsExactly | bin/office2john.py:1817-1858 | listdir gives exactly the streams, or storages, or both, that storages lead to, each with the names on the way |
| OleTree.ListsWhen | bin/office2john.py:1817-1858 | listdir succeeds if and only if storages lead to nothing but streams and storages |
| OleTree.ListsInOrder | bin/office2john.py:1817-1858 | listdir gives its paths in the order of the names, without a repetition |
| OleTree.FindExactly | bin/office2john.py:1860-1889 | a lookup finds an entry if and only if the records' links lead to it over the names of the path, ignoring case, and fails where there is none |
| ZipStruct.UnpackPack | bin/custom_zipfile.py:84-165 | unpacking what was packed gives the fields back, for every format and all values that fit |
| ZipStruct.PackUnpack | bin/custom_zipfile.py:84-165 | packing what was unpacked gives the bytes back |
| ZipLayout.FieldAt | bin/custom_zipfile.py:79-164 | field i of a record is the little-endian number in the bytes behind those of the fields before it |
| ZipLayout.LocalStarts | bin/custom_zipfile.py:126-142 | the fields of a local header begin where section 4.3.7 of the ZIP application note puts them |
| ZipLayout.CentralStarts | bin/custom_zipfile.py:98-123 | those of a directory entry where section 4.3.12 puts them |
| ZipLayout.EndStarts | bin/custom_zipfile.py:79-92 | those of the end record where section 4.3.16 puts them |
| ZipLayout.Locator64Starts | bin/custom_zipfile.py:144-147 | those of the ZIP64 locator where section 4.3.15 puts them |
| ZipLayout.End64Starts | bin/custom_zipfile.py:149-164 | those of the ZIP64 end record where section 4.3.14 puts them |
| ZipExtra.StripExtra | bin/custom_zipfile.py:170-187 | for any bytes, the result together with what follows the last ZIP64 field is all that is no ZIP64 field, in order |
| ZipExtra.StripKeepsOthers | bin/custom_zipfile.py:185-187 | all other fields are kept if and only if nothing follows the last ZIP64 field |
| ZipExtra.CentralKeepsOthers | bin/custom_zipfile.py:1841-1866 | the directory entry keeps all other fields if and only if it needs no ZIP64 field of its own or nothing follows the last one that was there |
| ZipExtra.FieldIsLost | bin/custom_zipfile.py:185-187 | an empty ZIP64 field followed by a field with number 2: the second one is lost, with every size or offset that needs a ZIP64 field |
| ZipRecords.SeenKeepsOthers | bin/custom_zipfile.py:1343-1391 | a reader sees all other fields of a member under just the same condition |
| ZipExtra.StripClean | bin/custom_zipfile.py:170-187 | no ZIP64 field is left, and a well-formed extra field stays well formed |
| ZipExtra.DecodeExtraLoop | bin/custom_zipfile.py:460-487 | the loop over the fields as specified, corrupt ones included |
| ZipExtra.DecodePlain | bin/custom_zipfile.py:460-487 | without a ZIP64 field, or with nothing to look up in it, numbers stay as they are, and what fails is exactly the field list that does not add up |
| ZipExtra.DecodeBehind | bin/custom_zipfile.py:460-487 | whole fields of other kinds in front make no difference |
| ZipExtra.ReadsExactly | bin/custom_zipfile.py:460-487 | of a ZIP64 field of any length: it is corrupt if and only if it is shorter than the numbers that are missing, and otherwise these are taken from it in the order file size, compressed size, offset |
| ZipExtra.NumbersRoundTrip | bin/custom_zipfile.py:460-487 | all sizes and offsets below 2^64 come back from the 32-bit fields and the ZIP64 field, with any well-formed extra field beside it: the escape is unambiguous |
| ZipRecords.DateRoundTrip | bin/custom_zipfile.py:408-412 | a DOS date and time gives the date back, seconds rounded down to even ones |
| ZipRecords.HeaderLength | bin/custom_zipfile.py:408-452 | the length of a local header does not depend on sizes and checksum |
| ZipRecords.LocalFitsExactly | bin/custom_zipfile.py:408-452 | a local header can be packed if and only if its fields satisfy plain bounds |
| ZipRecords.CentralFitsExactly | bin/custom_zipfile.py:1836-1887 | the same for an entry of the central directory |
| ZipRecords.HeaderAt | bin/custom_zipfile.py:1466-1562 | a header inside a file is read back, with its name, and leads to the byte after it |
| ZipOpening.OpensExactly | bin/custom_zipfile.py:1466-1562 | for any file and any object of a stored member: it opens at a place if and only if the bytes say so, that is the signature, the name, no flag for encryption or patches, and the two lengths of the header that lead there |
| ZipOpening.ReadExactly | bin/custom_zipfile.py:1461-1562 | reading gives certain bytes if and only if the member opens, these bytes stand there in full, and they have the checksum |
| ZipRecords.DecodeEntryOf | bin/custom_zipfile.py:1343-1391 | an entry of the central directory is read back, for all sizes and offsets below 2^64 and any well-formed extra field that fits, whatever follows it |
| ZipEnd.SearchFindsRecord | bin/custom_zipfile.py:256-314 | the end record is found if and only if there is no comment or the signature does not occur again in the record or the comment |
| ZipEnd.WidenWritten | bin/custom_zipfile.py:213-253 | ZIP64 end records that were written give the numbers of the directory back |
| ZipEnd.FindWritten | bin/custom_zipfile.py:213-314 | all end records are found with their numbers if and only if the signature is not repeated and no ZIP64 locator is seen that is not there |
| ZipArchive.RangesDisjoint | bin/custom_zipfile.py:1132-1176 | members that follow one another have disjoint byte ranges that end before the directory |
| ZipArchive.EntriesOf | bin/custom_zipfile.py:1343-1391 | the directory that was written is the list that is read, in order |
| ZipArchive.ByNameLast | bin/custom_zipfile.py:1388-1389 | of several entries with one name the last one is found |
| ZipArchive.ContentsOf | bin/custom_zipfile.py:1316-1391 | an archive behind any prefix is listed as it was written, every offset moved by the length of the prefix, with or without ZIP64 records |
| ZipArchive.ReadOf | bin/custom_zipfile.py:1466-1562 | every member of an archive behind any prefix reads as its data |
| ZipArchive.NamesOf | bin/custom_zipfile.py:1425-1464 | looking a name up and reading it gives the data of its last member |
| ZipExtFile.ChecksumStep | bin/custom_zipfile.py:932-940 | the running checksum is that of the prefix consumed so far |
| ZipExtFile.ExtFile.constructor | bin/custom_zipfile.py:787-836 | a new reader stands at position 0 of the member's bytes |
| ZipExtFile.ExtFile.FaultOfRead | bin/custom_zipfile.py:897-940 | reading in one go fails exactly when the file ends early or the checksum is wrong, and otherwise gives all bytes |
| ZipExtFile.ExtFile.ReadRaw | bin/custom_zipfile.py:1015-1029 | takes the next bytes of the member from the file and counts them |
| ZipExtFile.ExtFile.ReadSome | bin/custom_zipfile.py:979-1013 | the same with checksum and end of file; fails only for the member's fault |
| ZipExtFile.ExtFile.Read | bin/custom_zipfile.py:897-930 | the next n bytes, or all that remain, and the position moves by as many |
| ZipExtFile.ExtFile.Read1 | bin/custom_zipfile.py:942-977 | at most n bytes of the next ones, at least one where there are any |
| ZipExtFile.ExtFile.Peek | bin/custom_zipfile.py:879-890 | shows next bytes and never moves the position |
| ZipExtFile.ExtFile.Seek | bin/custom_zipfile.py:1043-1091 | reaches the clamped position from anywhere, backwards too, and loses nothing |
| ZipExtFile.ExtFile.Tell | bin/custom_zipfile.py:1093-1099 | the position of the plain cursor |
| ZipExtFile.ExtFile.Replay | bin/custom_zipfile.py:773-1099 | any sequence of read, read1, peek, seek and tell on a member without fault gives what a plain cursor over its bytes gives |
| ZipWriter.Writer.constructor | bin/custom_zipfile.py:1206-1294 | a new archive after whatever the stream holds |
| ZipWriter.Writer.SetComment | bin/custom_zipfile.py:1449-1459 | comments are cut at 65535 bytes |
| ZipWriter.MakeHeader | bin/custom_zipfile.py:408-452 | succeeds exactly when header and sizes fit, with the length known beforehand |
| ZipWriter.Writer.OpenToWrite | bin/custom_zipfile.py:1564-1603 | opens a member at start_dir or fails with exactly the specified exception; listed members are untouched |
| ZipWriter.Writer.Write | bin/custom_zipfile.py:1120-1130 | data goes on, with length and checksum |
| ZipWriter.HeaderReplaced | bin/custom_zipfile.py:1167-1176 | a header of the same length written over the first one leaves everything before and after it |
| ZipWriter.Writer.Rewrite | bin/custom_zipfile.py:1167-1176 | the header is written again in place, and start_dir moves behind the data |
| ZipWriter.Writer.CloseMember | bin/custom_zipfile.py:1132-1176 | lists the member with its data, length and checksum; if it is too large for its header nothing is listed and start_dir stays |
| ZipWriter.Writer.ListedApart | bin/custom_zipfile.py:1132-1176 | in every state the listed members' bytes are in the file where their objects say, apart from one another and before start_dir |
| ZipWriter.Writer.WriteEntries | bin/custom_zipfile.py:1836-1887 | the entries are written in order until one does not fit |
| ZipWriter.Writer.WriteEnd | bin/custom_zipfile.py:1889-1922 | end records, with those of ZIP64 exactly where they are needed |
| ZipWriter.Writer.WriteEndRecord | bin/custom_zipfile.py:1835-1925 | succeeds or fails with exactly the specified exception; what is before start_dir stays |
| ZipWriter.Writer.NoTail | bin/custom_zipfile.py:1923-1925 | a stream with nothing after its members becomes the archive, whole |
| ZipWriter.Writer.Close | bin/custom_zipfile.py:1813-1833 | the file holds the archive followed by what lay behind it before, which is never cut |
| ZipWriter.Writer.WriteStr | bin/custom_zipfile.py:1768-1807 | lists exactly one member whose object, header kind and data follow from the arguments, or fails with exactly the specified exception and lists nothing; what the bytes of its header and of its entry are is `ZipLocal.WrittenStands` and `ZipListing.DirectoryLists` |
| ZipWriter.PlainReadable | bin/custom_zipfile.py:1343-1391 | an object without anything of the caller's in it always fits the directory and is taken by a reader |
| ZipReader.Reader.RealGetContents | bin/custom_zipfile.py:1316-1391 | comment, position and list of members as specified, or the exception |
| ZipReader.Reader.ReadDirectory | bin/custom_zipfile.py:1343-1391 | the loop over the entries, whose last entry of a name wins |
| ZipReader.Reader.Open | bin/custom_zipfile.py:1466-1562 | a reader at the start of the member's data, or the exception |
| ZipReader.Reader.Read | bin/custom_zipfile.py:1461-1464 | the data of the member, or the exception |
| ZipItems.GoodItemsAreStored | bin/custom_zipfile.py:1768-1807 | nothing is in the way of a good name and its data |
| ZipItems.MembersInPlace | bin/custom_zipfile.py:1768-1807 | the members that a list of items comes to hold the items in order, one after the other, each with a header that agrees with it |
| ZipItems.WrittenIsMade | bin/custom_zipfile.py:1768-1807 | what writestr lists for an item is the item's member, byte for byte |
| ZipItems.RoomSuffices | bin/custom_zipfile.py:1835-1925 | members and directory take at most 124 bytes for each item besides its data and twice its name |
| ZipLocal.WrittenStands | bin/custom_zipfile.py:408-452 | byte by byte, in every archive that is written, behind any prefix: each item has its local header where the items before it end, with its date, checksum and size, or for a large item the 32-bit escape and a ZIP64 field that says the size twice, its name, and then its data |
| ZipListing.DirectoryLists | bin/custom_zipfile.py:1836-1887 | byte by byte, each item has an entry in the directory with its date, checksum, sizes, attributes, offset and name, and a ZIP64 field with just those numbers that do not fit |
| ZipLocal.WrittenListed | bin/custom_zipfile.py:1343-1391 | opening an archive gives for each item an object with its name, date to even seconds, size, checksum, attributes, versions and place |
| ZipLocal.ArchiveEnds | bin/custom_zipfile.py:1889-1922 | byte by byte, an archive ends with an end record that says its numbers and comment, and before it, exactly where a number is too large, with a ZIP64 end record and the locator that points to it |
| ZipRoundTrip.WriteAll | bin/custom_zipfile.py:1768-1925 | storing the items with writestr and closing gives exactly the archive of their members, and fails exactly when that is longer than 64 bits can say |
| ZipRoundTrip.ReadAll | bin/custom_zipfile.py:1316-1562 | opening bytes and reading every listed name, as specified |
| ZipRoundTrip.ArchiveReads | bin/custom_zipfile.py:1316-1562 | an archive of distinctly named items behind any prefix reads as these items |
| ZipRoundTrip.WrittenReads | bin/custom_zipfile.py:1316-1925 | the round trip as a statement about bytes: for items of bounded total length whose end records can be found, writing succeeds and reading gives the same items in the same order |
| ZipRoundTrip.RoundTrip | bin/custom_zipfile.py:1316-1925 | the same by writing, closing, opening and reading one after the other |
| ZipMisled.ListedExactly | bin/custom_zipfile.py:213-232 | an archive without comment and ZIP64 records, whose last member has nothing but a name of any length, is listed as written if and only if the twenty bytes at the end of its directory do not begin with the signature of a ZIP64 locator; otherwise it is refused |
| ZipMisled.ItemsReadExactly | bin/custom_zipfile.py:213-232 | the same as a condition on the items stored: all of them come back, or the archive is refused |
| ZipMisled.EndOfName | bin/custom_zipfile.py:1867-1887 | under a name of at least sixteen bytes an entry ends with the end of its offset and its name |
| ZipMisled.MisleadingName | bin/custom_zipfile.py:213-232 | one empty file under one name of twenty bytes is stored without complaint, and its archive is refused |
| ZipMisled.MisleadingOffset | bin/custom_zipfile.py:213-232 | so is one under any sixteen letters that are behind 0x07064B50 bytes |
| ZipMisled.CommentMisleads | bin/custom_zipfile.py:288-314 | whatever comes before it, an end record whose comment is the four bytes of its signature is not found |
| ZipMisled.MisleadingComment | bin/custom_zipfile.py:288-314 | every archive with that comment is written without complaint and cannot be opened |
| ZipCipher.GenCrc | bin/custom_zipfile.py:537-544 | the loop is eight steps of the bit-by-bit CRC |
| ZipCipher.MakeTable | bin/custom_zipfile.py:558-561 | the table holds eight steps for each byte value |
| ZipCipher.TableIsBitwise | bin/custom_zipfile.py:563-565 | one table step is eight bit steps, for every register and byte |
| ZipCrc.TableIsBitwise | bin/custom_zipfile.py:537-565 | on every byte string and from every register, the table computes the bit-by-bit CRC |
| ZipCrc.Crc32IsIncremental | bin/custom_zipfile.py:932-940 | CRC-32 can be taken piece by piece and fits 32 bits, which is all that the archive code needs of its checksum |
| ZipCrc.Crc32ThroughTable | bin/custom_zipfile.py:537-565 | CRC-32 through the table is the same checksum |
| ZipCrc.RegistersAreIncremental | bin/custom_zipfile.py:932-940 | so is every checksum made of a register that takes one byte at a time |
| ZipCipher.UpdateWithin32 | bin/custom_zipfile.py:567-572 | a step keeps all three keys within 32 bits |
| ZipCipher.Decrypter.constructor | bin/custom_zipfile.py:553-575 | the keys after a password |
| ZipCipher.Decrypter.UpdateKeys | bin/custom_zipfile.py:567-572 | the keys move as with the bit-by-bit CRC, although the table is used |
| ZipCipher.Decrypter.DecryptChunk | bin/custom_zipfile.py:577-587 | the loop decrypts the chunk and leaves the keys that the next chunk needs; that this undoes the encryption of the application note is `ZipNote.DecryptNoted` |
| ZipCipher.DecryptEncrypt | bin/custom_zipfile.py:577-587 | decryption and encryption undo each other from every state |
| ZipCipher.DecryptChunks | bin/custom_zipfile.py:577-587 | decrypting in two pieces is decrypting the whole |
| ZipCipher.PkwareDecryptEncrypt | bin/custom_zipfile.py:553-588 | for every password and plaintext, decryption undoes encryption with the same stream; the encryption told on its own is `ZipNote.DecryptsNote` |
| ZipNote.DecryptsNote | bin/custom_zipfile.py:553-588 | for every password and plaintext, decryption gives back what was encrypted as section 6.1 of the ZIP application note says, written in natural numbers: initial keys, key update modulo 2^32, stream byte from the 16-bit temp |
| ZipNote.DecryptNoted | bin/custom_zipfile.py:553-588 | the same by running the decrypter, with its table and 32-bit registers |
| ZipNote.StreamOfKeys | bin/custom_zipfile.py:582-583 | the stream byte of the program, from all 32 bits of key 2, is the one of the note, from 16 bits of it |
| ZipNote.ShortProduct | bin/custom_zipfile.py:582-583 | the second byte of t * (t ^ 1) depends on the low 16 bits of t only, which is why that is so |
| ZipNote.UpdateOfKeys | bin/custom_zipfile.py:567-572 | one key update of the program is one of the note |
| ZipNote.Crc32Exactly | bin/custom_zipfile.py:537-565 | CRC-32 is the division by the polynomial 0xEDB88320 written in natural numbers |

## Findings

What the code promises and does not keep, with an input and the exact condition.

| what fails | source | exactly when | proved by |
|---|---|---|---|
| Writing a stream and reopening it | bin/office2john.py:720-727 | the length is 0x7FFFFFFF, the number that stands for an unknown size: the last sector is then not cut | OleWrite.ReopenAfterWrite; a container in OleWrite.ReopenDiffers |
| Reading an archive that the same code wrote, without a comment | bin/custom_zipfile.py:213-232 | no ZIP64 records are written, and the twenty bytes before the end record have the signature of a ZIP64 locator together with a disk number other than 0, or more than one disk, or no room for an end record before them, or the signature of a ZIP64 end record there. For members that writestr makes: the twenty bytes at the end of the directory begin with that signature; under a name of at least sixteen bytes these are the end of the last member's offset and name | ZipEnd.FindWritten, ZipMisled.ItemsReadExactly; inputs in ZipMisled.MisleadingName and ZipMisled.MisleadingOffset |
| Finding the end record of an archive with a comment | bin/custom_zipfile.py:288-296 | the signature occurs again after its first byte, in the numbers of the record or in the comment | ZipEnd.SearchFindsRecord; an input in ZipMisled.MisleadingComment |
| Keeping other extra fields | bin/custom_zipfile.py:185-187 | a size or the offset needs a ZIP64 field, and something follows the last ZIP64 field that was there before | ZipExtra.CentralKeepsOthers, ZipRecords.SeenKeepsOthers; an input in ZipExtra.FieldIsLost |

Where code and comments disagree the model follows the code: `1 << 31 - 1` (bin/custom_zipfile.py:779) is
2^30 in Python, and the search for the end record does not make sure of what its comment assumes about the
archive comment (bin/custom_zipfile.py:288-296). Section 7.4.4.2 of ISO 32000-1 ends the data at the end-of-data
code; the decoder goes on behind it (`LzwCodec.EndOfDataPassed`).

## Left out

- Compressed, encrypted and AES members, and everything that unpacks to disk: reading is modelled for stored members without a password; others give NotImplemented in the reader.
- `ZipRoundTrip.RoundTrip`: speaks of distinct names of 7-bit characters without NUL; the encodings cp437 and UTF-8 of names are not modelled.
- `ZipWriter.MakeHeader`: for names of 7-bit characters and stored members; other names, which the source encodes as UTF-8 with a flag, and compressed members are not modelled.
- `ZipWriter.Writer.WriteStr`: the same for its names.
- `ZipReader.Reader.Open`: for stored members; the decompressors are not modelled.
- `ZipReader.Reader.Read`: the same.
- `ZipWriter.Writer.Write`: members of 2^64 bytes and more, which no file can hold, are excluded by a precondition.
- `ZipWriter.Writer.Close`: append mode and streams that cannot seek or that fail are not modelled; after a failed close the bytes behind start_dir are left open.
- `ZipWriter.Writer.OpenToWrite`: names and compression as for `ZipWriter.MakeHeader`; the fields of the open handle are kept in the writer, of which there is one at a time; ZipInfo objects are values, so sharing one between members is not captured.
- `ZipWriter.Writer.constructor`: the creating system is the constant of a Unix host; `write()` from the file system, directories as members and `force_zip64` from `open` by name are not modelled beyond `OpenToWrite`.
- `ZipExtFile.ExtFile.Replay`: readline, reading after close and the lock shared between readers are not modelled.
- The checksum of the archive code is any function that can be taken piece by piece; `ZipCrc` shows that CRC-32 is one.
- `BroSmtp.ParsePrinted`: text is as Python's text mode gives it, after decoding and the translation of line ends; digits and white space are the ASCII ones, while Python also takes other digits for the port and strips Unicode white space around the terminator.
- `BroSmtp.ParseBroSmtp`: the time of the second line and the modification time of the file are parameters; file names are numbers, and writing files cannot fail.
- `PdfDictionary.ParseDictionary`: canonical names and pretty printing are a parameter or not modelled.
- `LzwDecoder.LzwDecode`: None for table and previous phrase is the empty sequence.
- `LzwCodec.CodesExactly`: for codes between two clears; several such stretches are one run after another.
- `OleWrite.WriteExactly`: for tables of at most 0xFFFFFFFE sectors, as many as 32-bit numbers can name.
- `OleWrite.WrittenReopens`: the same, and for other lengths than 0x7FFFFFFF, where `OleWrite.ReopenDiffers` shows that it fails.
- `RateSemaphore.RefusedExactly`: for runs in which no worker has crashed or lost a reply; `RateSemaphore.RefusalJustified` speaks of all runs.
- `OleDirectory.LoadedDirectory`: for the strict level, at which every defect raises; decoding of the 128-byte records and of UTF-16 names, Python's recursion limit and looser levels are not modelled; lower case is any function; entries are numbers, and kids and kids_dict are one list.
- `OleWrite.OtherStreamKept`: for data of length 0x7FFFFFFF only when the write goes through; the writing of small streams is not implemented in the source either.
- `OleWrite.OleFile.WriteStream`: finding the entry by name is `OleDirectory`; the header and the FAT are not written by the source.
- `RateSemaphore.ConcurrencyBounded`: fail-closed mode, limits that do not change, one clock, and queries that end less than max_query_timeout plus the grace after the timestamp they passed; Redis beyond the atomic script, ZREM and key expiry is not modelled.
- `RateWindows.WindowsBounded`: fail-closed mode, and pipelines that reach Redis less than sixty seconds after their clock read.
- RunLengthDecode, hex dumps, hashing, property parsing, hash extraction, option parsing and the web routes: nothing of them is modelled.
