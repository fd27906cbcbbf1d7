# A verified model of pcsuite's hand-written decoders and protocols

pcsuite talks to an Android phone from a desktop. Most of its protocol code is written by hand: an
HTTP chunked encoder and five decoders for it, a streaming tar extractor and two buffered ones, a
WebSocket codec, four length-prefixed frame formats, a remote file protocol, a two-way clipboard
with echo suppression, a handshake with re-sends, a connection that is upgraded in place, and a
calendar conversion. This project models that code in Dafny and proves what it is meant to
guarantee, for every input, every way the network cuts the bytes, and every interleaving of events.

How to check it: `dafny verify dfyconfig.toml` (Dafny 4.11).

## How the model is built

**Streams.** `Streams.Source` is a connection: `rest` is everything it will still deliver, each read
returns some non-empty part of that, chosen freely, and at the end it reports end of file or, when
`broken`, an I/O error. A stall past a timeout, a reset and a cancelled transfer are all broken
streams. Each decoder is a method with the source's own loop and state, proved equal to a pure
function of the whole byte string; no read size appears in that function, so independence from
segmentation is part of every such contract. What the formats are for is then proved as lemmas about
the pure functions.

**Chunked transfer coding** (section 7.1 of RFC 9112; `ChunkedWire`, `ChunkedWriting`, `HttpsBody`,
`MdfsBody`, `ShareBody`, `ChunkedTheorems`, `ChunkedSenders`, `ChunkedExtensions`). The writer is a class;
a run is any sequence of writes and flushes. `Decode` is the CRLF-searching decode of the cloud and share
clients, `DecodeLines` the line reader of the file client, `Lenient` the file client's buffered form.
`ChunkedSenders` asks what the line reader makes of any sender, not only of this repository's writer;
`ChunkedExtensions` says what a size line may hold and what all five decoders make of it. `Utf8` and `Radix`
say, by what they encode and spell, which texts are UTF-8, white space and numbers.

**Tar** (`TarHeader`, `FileTree`, `TarParse`, `TarArchive`, `TarPlace`, `TarLayout`, `TarRoots`,
`TarExtract`, `TarTheorems`, `TarCuts`, `TarTransfers`, `Untar`, `UntarTheorems`). The file system is a
finite map from paths to nodes behind a `Disk` object. `ParseTar` reads a list of items off the bytes alone;
`PlaceAll` places items into a tree; `Extract` is the one after the other, and the streaming method is proved
to end with exactly that tree and result. `TarArchive` is the other direction: entries with GNU or POSIX
headers, any run of GNU long names and pax headers in front of them, and the bytes they become. Names are
byte strings, so lossy decoding is the identity on valid text. `TarRoots` says which name in the output
directory each top-level name gets, `TarCuts` what becomes of an archive cut at any byte, and
`TarTransfers` of one that any sender puts into the chunked coding and the network cuts.

**Frames and codecs** (`Ruying`, `RuyingReads`, `WebSocket`, `Payload1`, `Percent`, `VdfsWire`,
`VdfsPlane`). Both directions of each format, and the loops that read them. AES-GCM, which is opened
without its tag and so is a stream cipher, is a pair of functions with the one law that opening the
front of a sealed text gives the front of the text.

**Protocols** (`Echo`, `Handshake`, `Presence`). Objects updated under a lock or by a task are classes
whose every step is proved to keep a property of the whole history. `Echo` compares a pruned map with
the full history of transfers; `Handshake` is a step function over the events of two tasks, with a
class that follows it; `Presence` leaves every wake-up, write failure and random token open, has each of
them leave its mark on a trace, and proves that each run is a trace of a grammar, from which the
obligations towards the phone follow.

**Calendar** (`Civil`). The closed form is compared with the Gregorian calendar, stated as leap years,
month lengths and a next-day function.

Integers are unbounded; where the source's 64-bit or 32-bit width matters it is written out. The
release profile does not enable overflow checks, so arithmetic that can wrap does. A panic is an
outcome of its own (`Panics`) where it ends the operation modelled, and a failure in the tar extractor.

## What turned out false

Each of these has a lemma with the inputs that show it, next to the exact condition or the part that
does hold.

- A line-reading chunked decoder does not always notice a cut: a peer that pads its sizes with zeros
  can be cut inside a size line and read as complete (`ChunkedTheorems.PaddedSizeCutReadsComplete`).
  It notices every cut exactly when the stream breaks or no front of a size text reads as zero, for
  hexadecimal sizes when none has a leading zero (`ChunkedSenders.NoticesExactly`); this repository's own
  writer is such a sender (`ChunkedSenders.WriterIsSender`).
- An archive that is cut can pass for a shorter one: on a stream that ends cleanly, exactly where it is
  cut between two entries, in front of or behind an extension entry, or inside one that fills its blocks
  (`TarCuts.CutArchive`); on a stream that breaks, never (`TarCuts.BrokenCut`). Nor does the chunked coding
  always prevent it (`TarTransfers.PaddedSizeExtractsShorter`): a cut passes exactly when the stream ends
  cleanly and a chunk whose size text has a front that reads as zero starts where the archive so far would
  extract as a shorter one (`TarTransfers.NoCutPassesExactly`).
- A top-level name that is not there yet can be renamed all the same, when its own name went to one that
  was (`TarRoots.NewNameIsRenamed`). No name at all is changed exactly when none of them was there
  (`TarRoots.NamesKeptExactly`).
- The buffered tar walk loses the files behind a directory header that announces data
  (`UntarTheorems.JunkHidesEntries`), gives a long name announced for anything but a file to the next
  file (`UntarTheorems.NameSticks`), skips files of type `7` and knows neither pax paths nor prefixes
  (`UntarTheorems.KnownNameExactly`); the streaming extractor does none of that. It reads an entry right in
  front of every archive exactly when the entry is a file below 8 GiB of another type and no other name than
  it knows, or has no long name and announces no octal data it does not have
  (`UntarTheorems.RightExactlyWhenPlain`).
- A size with spaces in front of its digits is read by the streaming extractor and as zero by the buffered
  ones (`TarHeader.SpacedSize`).
- A pax path may hold a line feed, since a record says its own length; here it is cut there
  (`TarArchive.NewlineCutsPath`).
- What stands behind a chunk's data is not checked: any two bytes, or the rest of a line, or nothing at all
  are taken for its line end (`ChunkedExtensions.ChunkEnds`), and the file client's buffered decoder takes a
  malformed size line for the end of the body, where the others fail (`ChunkedExtensions.BadLineEnds`).
- After a refused frame the clipboard loop's result can depend on how the reads fell
  (`RuyingReads.RefusalDependsOnReads`). However they fall exactly the frames in front of the refused one
  are handled if and only if no whole frame stands where the emptied buffer can start again
  (`RuyingReads.OnlyFrontExactlyWithoutLateFrame`).
- A file fetched over a connection that ends early is returned shortened, as a success, exactly when the
  attributes came whole and the reply to the read is cut behind its header without a reset
  (`VdfsPlane.FetchedExactly`).
- A query whose keys are escaped does not parse to its fields unless no key needed escaping
  (`Percent.EscapedKeysReadBack`).
- The link can read down while the phone is being served, exactly when the handshake gives up on a
  phone that is there (`Handshake.LinkTellsUnlessGivenUp`, `Handshake.EarlyPhoneIsGivenUp`).
- Without re-registration a token handed out need not be the last one sent
  (`Presence.HandedTokenWithoutReregister`, `Presence.TokenHandedUnsent`).
- The documentation of the first-frame loop gives 1 MiB as the bound; a frame one byte longer is still
  always accepted (`Payload1.AcceptedHoweverCut`), and up to one read more can be, depending on the reads
  (`Payload1.AcceptedSomehowCut`).
- Fetching a path the server does not have gives an empty file, not an error, because the attributes
  of a missing file are those of the template (`VdfsPlane.FetchedNothing`).

## Model

| member | source | states |
|---|---|---|
| ChunkedWriting.ChunkedWriter.FlushBuf | crates/pcsuite-core/src/mdfs.rs:1285-1296 | what was buffered leaves as exactly one frame, and an empty buffer as none |
| ChunkedWriting.ChunkedWriter.Write | crates/pcsuite-core/src/mdfs.rs:1298-1305 | the sink stays the frames of the chunks so far; buffer and chunks are those of the abstract writer after the write |
| ChunkedWriting.ChunkedWriter.Flush | crates/pcsuite-core/src/mdfs.rs:1307-1311 | the same for a flush |
| ChunkedWriting.ChunkedWriter.Finish | crates/pcsuite-core/src/mdfs.rs:1278-1283 | the sink ends with all frames, the rest of the buffer among them, and one terminator |
| ChunkedWriting.RunKeepsPayload | crates/pcsuite-core/src/mdfs.rs:1261-1311 | for every pattern of writes and flushes, chunks plus buffer are the concatenation of the writes, and no chunk is empty |
| ChunkedWriting.FramedAtTarget | crates/pcsuite-core/src/mdfs.rs:1298-1311 | in every run the buffer stays below 64 KiB, a chunk that no flush asked for has at least 64 KiB, and a flush leaves nothing buffered |
| ChunkedTheorems.SizeReadsBack | crates/pcsuite-core/src/mdfs.rs:1289-1290 | every decoder reads a formatted chunk size back, with a line end or any part of one behind it |
| ChunkedTheorems.DecodersInvertWriter | crates/pcsuite-core/src/mdfs.rs:1265-1311 | all five decodes of a finished body give the concatenation of the writes, whatever follows on the connection |
| HttpsBody.StreamChunked | crates/pcsuite-net/src/https.rs:296-349 | for arbitrary bytes, prefix and read sizes: sink contents, byte count, success, malformed and closed are those of the pure decode of the whole stream; it terminates |
| HttpsBody.StreamIdentity | crates/pcsuite-net/src/https.rs:258-293 | the sink gets the body up to its announced length or the end; success exactly when the whole length arrived |
| HttpsBody.Dechunk | crates/pcsuite-net/src/https.rs:377-400 | the buffered form agrees with the streaming decode on every byte string, a cut body kept and a malformed one an error |
| MdfsBody.ChunkedReader.NextChunk | crates/pcsuite-core/src/mdfs.rs:881-898 | the lines between two chunks leave the decode still ahead unchanged, or fail only where it fails |
| MdfsBody.ChunkedReader.ReadData | crates/pcsuite-core/src/mdfs.rs:899-908 | a read takes a non-empty part of what the chunk owes and keeps account of the rest |
| MdfsBody.ChunkedReader.Read | crates/pcsuite-core/src/mdfs.rs:875-910 | each read hands over the next piece of the decode ahead; end only where that is done, error only where it fails |
| MdfsBody.ChunkedReader.ReadToEnd | crates/pcsuite-core/src/mdfs.rs:875-910 | whatever the caller's buffer sizes, the pieces add up to the pure decode, and success is its success |
| MdfsBody.Dechunk | crates/pcsuite-core/src/mdfs.rs:1420-1438 | the buffered loop computes the lenient decode of every byte string |
| ShareBody.BufSock.Fill | crates/pcsuite-core/src/share.rs:829-837 | a fill moves bytes from the socket to the buffer and loses none |
| ShareBody.BufSock.ReadLine | crates/pcsuite-core/src/share.rs:839-849 | the line before the first CRLF of all pending bytes, or an error when there is none |
| ShareBody.BufSock.Consume | crates/pcsuite-core/src/share.rs:851-860 | exactly `n` pending bytes are dropped, or it fails because there are fewer |
| ShareBody.BufSock.CopyExact | crates/pcsuite-core/src/share.rs:862-876 | exactly the next `n` pending bytes are copied, or all of them and an error |
| ShareBody.DownloadChunks | crates/pcsuite-core/src/share.rs:767-780 | the chunk loop writes what the strict pure decode of all pending bytes delivers, and ends as it does |
| ChunkedWire.StrictAgreesOrRefuses | crates/pcsuite-core/src/share.rs:770-774 | reading size lines as UTF-8 or lossily differs only where the strict reading refuses |
| ChunkedWire.DecodeGrows | crates/pcsuite-net/src/https.rs:308-348 | for arbitrary bytes: more of the stream never takes back what was delivered, nor a finished or failed verdict |
| ChunkedWire.LenientGrows | crates/pcsuite-core/src/mdfs.rs:1420-1438 | the lenient decode of a prefix is a prefix of the lenient decode |
| ChunkedTheorems.CutBodyCrlf | crates/pcsuite-net/src/https.rs:308-400 | cut at any byte, the CRLF decoders succeed exactly when the zero chunk's line is whole, then with the whole payload; before that they report the cut with a prefix, and both buffered forms return one |
| ChunkedTheorems.CutBodyReader | crates/pcsuite-core/src/mdfs.rs:875-910 | the line reader on a body cut at any byte, the stream then ending cleanly or with an error: complete exactly from the zero chunk on, otherwise cut, with a prefix of the payload |
| ChunkedSenders.NoticesExactly | crates/pcsuite-core/src/mdfs.rs:875-898 | for every sender, whatever its size texts, and every end of the stream: no cut passes for a complete body if and only if the stream ends with an error or no front of a size text reads as zero |
| ChunkedSenders.NoticesExactlyWithoutLeadingZeros | crates/pcsuite-core/src/mdfs.rs:888-897 | for senders of bare hexadecimal sizes: every cut is noticed if and only if no size has a leading zero |
| ChunkedSenders.CutDecodes | crates/pcsuite-core/src/mdfs.rs:875-910 | for every sender and every cut the line reader delivers a front of the payload, and success is the whole of it, but for a cleanly ended cut where a chunk starts whose size text has a front that reads as zero |
| ChunkedSenders.WriterIsSender | crates/pcsuite-core/src/mdfs.rs:1261-1311 | every finished body of the writer is a body of such a sender, and no size text of its has such a front |
| Utf8.ValidExactly | crates/pcsuite-core/src/share.rs:771 | what a size line must be is exactly what encodes some text |
| Radix.NumberExactly | crates/pcsuite-net/src/https.rs:333 | a text has the value `n` exactly when it is one or more hexadecimal digits of that value in either case, below 2^64, with a `+` allowed in front |
| ChunkedExtensions.ChunkSizeExactly | crates/pcsuite-net/src/https.rs:331-335 | a line has the size `n` exactly when the text before its first `;` is such a number with nothing but Unicode white space around it |
| ChunkedExtensions.LossySize | crates/pcsuite-net/src/https.rs:331-335 | a line of digits with white space around them and any extension behind a `;` has their value for the lossy decoder, with its line end, a part of it or none |
| ChunkedExtensions.StrictSize | crates/pcsuite-core/src/mdfs.rs:888-893 | the same for the readers that insist on UTF-8, for every extension that is that |
| ChunkedExtensions.DecodersTakeExtensions | crates/pcsuite-core/src/mdfs.rs:888-898 | for every list of chunks framed by such size lines, extensions and all, all five decodes give the concatenated data, whatever follows |
| ChunkedExtensions.BadLineEnds | crates/pcsuite-net/src/https.rs:333-335 | a line without a number where a size is due: the streaming decodes and the cloud client's buffered one are malformed behind the chunks before, the file client's buffered one ends there |
| ChunkedExtensions.ChunkEnds | crates/pcsuite-core/src/mdfs.rs:885-887 | what each decoder takes for the line end behind a chunk's data: any two bytes, the rest of the line, or nothing where no CRLF stands |
| TarTheorems.EntryEndsOnBlock | crates/pcsuite-core/src/mdfs.rs:709-774 | in the pure parse an entry's share of the stream ends a whole number of blocks behind its header, or at the end of the stream, whatever the header says |
| TarHeader.SizeReadsBack | crates/pcsuite-core/src/mdfs.rs:802-815 | the streaming extractor's size field reads back every 64-bit size, octal and base 256 |
| TarHeader.OctalReadsBack | crates/pcsuite-core/src/mdfs.rs:1515-1523 | both size parsers read back every octal size of eleven digits |
| TarHeader.HeaderReadsBack | crates/pcsuite-core/src/mdfs.rs:817-832 | every header of this encoder, GNU with any times or POSIX with any prefix, gives back its type and size field; the name comes back as prefix, slash and name from a POSIX header with a prefix and alone from any other; it is never the end marker |
| TarHeader.SpacedSize | crates/pcsuite-core/src/mdfs.rs:808-814 | octal digits behind any spaces, ended by a NUL, a space or the field: the streaming parser reads their value, the buffered one zero if there is a space in front |
| TarHeader.BlankSize | crates/pcsuite-core/src/mdfs.rs:1516-1523 | other white space around the digits is trimmed by the buffered parser |
| TarHeader.BinarySize | crates/pcsuite-core/src/mdfs.rs:805-807 | with the high bit set a field is the big-endian number in its last eight bytes, whatever the bytes between |
| TarArchive.PaxReadsBack | crates/pcsuite-core/src/mdfs.rs:835-841 | the records of a pax header announce the value of the first `path` among them, with LF or CRLF line ends |
| TarArchive.NewlineCutsPath | crates/pcsuite-core/src/mdfs.rs:838-840 | a path with a line feed in it is cut there |
| FileTree.SafeExactly | crates/pcsuite-core/src/mdfs.rs:729-732 | the components kept are exactly those that lead one step down wherever a walk is |
| TarParse.PartsAreWalked | crates/pcsuite-core/src/mdfs.rs:729-732 | a name leads where walking it component by component leads, with every `..` left out |
| TarExtract.ReadBlock | crates/pcsuite-core/src/mdfs.rs:781-792 | one whole block however short the reads, end of file only before its first byte |
| TarExtract.Skip | crates/pcsuite-core/src/mdfs.rs:794-800 | exactly `n` bytes are skipped, or it fails |
| TarExtract.WriteEntry | crates/pcsuite-core/src/mdfs.rs:752-770 | the file holds exactly its data, or is taken away again when the stream broke off |
| TarExtract.ReadMeta | crates/pcsuite-core/src/mdfs.rs:712-723 | an extension entry becomes the pending name and leaves the cursor at the next header |
| TarExtract.ExtractFile | crates/pcsuite-core/src/mdfs.rs:752-773 | a file entry with its padding places exactly the item the parse says |
| TarExtract.PlaceEntry | crates/pcsuite-core/src/mdfs.rs:735-773 | choosing a root, creating directories and writing the file is one step of placing the parsed items |
| TarExtract.ExtractEntry | crates/pcsuite-core/src/mdfs.rs:708-774 | one header of any type with what follows it is one step of the pure run, and leaves the cursor whole blocks further or at the end of the stream, also where the padded size wraps and behind a directory header with a size |
| TarExtract.ExtractTarToDir | crates/pcsuite-core/src/mdfs.rs:686-779 | for every stream, tree and read sizes the final tree and result are those of parsing the bytes and placing the items |
| FileTree.UniqueName | crates/pcsuite-core/src/mdfs.rs:843-857 | the name is free; it is the wanted one, or the numbered one whose predecessors are all taken |
| FileTree.FirstFree | crates/pcsuite-core/src/mdfs.rs:853-856 | the search over `(1..)` ends, at the least free number |
| FileTree.CandidateKeepsExtension | crates/pcsuite-core/src/mdfs.rs:849-854 | the number goes between the stem and the extension, which starts at the last dot that is not the first character |
| FileTree.CandidatesDistinct | crates/pcsuite-core/src/mdfs.rs:849-854 | different numbers give different names, which is why a finite tree cannot hold them all |
| FileTree.DedupName | crates/pcsuite-core/src/share.rs:944-960 | the bounded search: a free name exactly when one of the thousand candidates is, else the taken name |
| TarPlace.PlaceItemConfined | crates/pcsuite-core/src/mdfs.rs:739-773 | one entry keeps: old files unchanged, new paths below the output directory, roots distinct and fresh and existing |
| TarPlace.PlaceAllConfined | crates/pcsuite-core/src/mdfs.rs:686-779 | the same for every list of entries, also when it fails half way |
| TarTheorems.ExtractionIsConfined | crates/pcsuite-core/src/mdfs.rs:686-779 | for every byte stream, malformed or cut: no existing file changes, nothing is created outside the output directory, reported roots are distinct, were absent and exist |
| TarTheorems.ExtractionDelivers | crates/pcsuite-core/src/mdfs.rs:752-770 | for every byte stream, also one that fails half way: every file that is new holds all the data of an entry of the stream, below its root where that entry's name says |
| TarLayout.PlaceAllLayout | crates/pcsuite-core/src/mdfs.rs:739-773 | after success the tree is the old one with the last data of each file, a directory for each directory entry and on the way to each entry, and nothing else |
| TarLayout.SucceedsIffConsistent | crates/pcsuite-core/src/mdfs.rs:739-770 | placing succeeds exactly when no file is cut short and no path is wanted both as a file and as a directory |
| TarRoots.RootsAreChosen | crates/pcsuite-core/src/mdfs.rs:741-748 | the root of each top-level name in a run is the one a function of the old tree and the names in order gives: its own or the first numbered name that neither was there nor went to an earlier name |
| TarRoots.RootWhenFirst | crates/pcsuite-core/src/mdfs.rs:741-748 | first come, first served: a root is chosen when its name first comes, next to those of the names before, and never changed |
| TarRoots.NamesKeptExactly | crates/pcsuite-core/src/mdfs.rs:678-680 | no top-level name is changed if and only if none of them was there before |
| TarRoots.NewNameIsRenamed | crates/pcsuite-core/src/mdfs.rs:678-680 | a name that was not there is renamed when its own went to an earlier one |
| TarTheorems.ExtractionResult | crates/pcsuite-core/src/mdfs.rs:686-779 | extraction succeeds exactly when the output can be made, the stream is intact, something was made and the entries are consistent; then the tree is the old one plus the entries, each top-level name under the root chosen for it when it first came |
| TarTheorems.ParseArchive | crates/pcsuite-core/src/mdfs.rs:695-774 | an archive of files of every regular type, directories and skipped entries, with GNU or POSIX headers and any run of long names and pax headers before each, parses to exactly its entries under their full names, also behind directory headers that announce data they do not have |
| TarTheorems.ExtractArchive | crates/pcsuite-core/src/mdfs.rs:686-779 | extracting what was archived yields exactly the entries, each under its full name, below the roots their names get |
| TarCuts.WholeIsFinal | crates/pcsuite-core/src/mdfs.rs:698-779 | for every byte stream that breaks off: if it reads as a whole archive its end marker came, and no further bytes or other end would change what was read |
| TarCuts.CutArchive | crates/pcsuite-core/src/mdfs.rs:695-779 | an archive cut at any byte, among extension entries too: it reads as whole exactly at the clean cuts, and then with exactly the entries that came whole |
| TarCuts.BrokenCut | crates/pcsuite-core/src/mdfs.rs:695-779 | on a stream that breaks the clean cuts are exactly those behind the first end block, with every entry there |
| TarTransfers.CutTransfer | crates/pcsuite-core/src/mdfs.rs:667-675 | an archive from any sender in the chunked coding, cut at any byte, read by the line reader: the extraction is that of the whole archive when its end marker was decoded, that of the entries before when a clean cut fell in front of a size text with a zero front, and otherwise fails |
| TarTransfers.NoCutPassesExactly | crates/pcsuite-core/src/mdfs.rs:667-675 | for every sender no cut extracts successfully as anything but the whole archive if and only if the stream breaks, nothing can be extracted, or no such size text starts where the archive so far passes for a shorter one |
| TarTransfers.PaddedSizeExtractsShorter | crates/pcsuite-core/src/mdfs.rs:888-897 | a sender that pads a size with zeros can be cut so that the entries before it extract as if they were the archive |
| Untar.UntarAll | crates/pcsuite-core/src/mdfs.rs:1472-1506 | the walk returns the regular files of the image in order, under long or plain names; an error when there is none |
| Untar.UntarFirst | crates/pcsuite-core/src/mdfs.rs:1447-1466 | the data of the first record of the same walk whose header announces data |
| Untar.FirstSizedIsFirst | crates/pcsuite-core/src/mdfs.rs:1459-1463 | that record is announced with data and all before it are not; none only when there is none |
| UntarTheorems.FilesOfArchive | crates/pcsuite-core/src/mdfs.rs:1472-1506 | for archives of plain entries, whatever follows them: exactly the regular files, under their full names |
| UntarTheorems.UntarMakeTar | crates/pcsuite-core/src/mdfs.rs:1684-1710 | reading back an encoded list gives the list, with the long name on the second entry when one is given |
| UntarTheorems.RightExactlyWhenPlain | crates/pcsuite-core/src/mdfs.rs:1472-1506 | an entry is read right in front of every archive of plain entries if and only if it is plain itself: a file below 8 GiB, not of type `7` and with no other name than the walk knows, or no file, without a long name and, for a directory, without an octal size |
| UntarTheorems.KnownNameExactly | crates/pcsuite-core/src/mdfs.rs:1484-1513 | without pax paths the walk knows an entry's name exactly unless it is a POSIX one with a prefix and no long name |
| UntarTheorems.JunkHidesEntries | crates/pcsuite-core/src/mdfs.rs:1498-1500 | behind a directory header that announces octal data of any size it does not have, the walk loses all entries that the data would cover; the streaming parse keeps them |
| UntarTheorems.NameSticks | crates/pcsuite-core/src/mdfs.rs:1484-1499 | a long name announced for a directory or a skipped entry ends up on the next regular file, whatever its own |
| Civil.CivilCountsBack | crates/pcsuite-net/src/ssdp.rs:74-85 | for every day number the result is a valid date whose day count is that number |
| Civil.CivilIsGregorian | crates/pcsuite-net/src/ssdp.rs:74-85 | day 0 is 1970-01-01, and each next day number is the next calendar date |
| Civil.CivilReaches | crates/pcsuite-net/src/ssdp.rs:74-85 | every calendar date comes back from its own day number |
| Civil.EraYear | crates/pcsuite-net/src/ssdp.rs:76-80 | the year-of-era formula: year and day of year are in range, the 366th day only before a leap day |
| Civil.DateInYearIs | crates/pcsuite-net/src/ssdp.rs:81-84 | the month formula: a valid date at the right distance from the year's start |
| Civil.TomorrowIsOneLater | crates/pcsuite-net/src/ssdp.rs:74-85 | the day count of the calendar goes up by one from each date to the next |
| Civil.DaysFromCivilInjective | crates/pcsuite-net/src/ssdp.rs:74-85 | different dates have different day counts |
| Civil.StampRoundTrip | crates/pcsuite-net/src/ssdp.rs:45-49 | splitting seconds into date, hour, minute and second is a bijection |
| Civil.StampTicks | crates/pcsuite-net/src/ssdp.rs:45-49 | a second later the stamp is the next one on the clock, through minutes, hours, days, months and years |
| Ruying.Build | crates/pcsuite-proto/src/ruying.rs:55-67 | what is built parses back to the frame, and is refused exactly for another version or a cipher text of 4 GiB or more |
| Ruying.ParseImage | crates/pcsuite-proto/src/ruying.rs:83-113 | parsing a built frame gives it back and its length, exactly when its version is right and its cipher text is under 4 GiB; else it is refused |
| Ruying.ImageOfParsed | crates/pcsuite-proto/src/ruying.rs:55-113 | building a parsed frame gives the bytes it was parsed from |
| Ruying.NeedMoreIsReal | crates/pcsuite-proto/src/ruying.rs:84-94 | a wait is for more bytes than are held, lasts until they are there, and no longer |
| Ruying.ParseIsStable | crates/pcsuite-proto/src/ruying.rs:83-113 | a frame and a refusal stand whatever arrives later |
| Ruying.PanicsExactly | crates/pcsuite-proto/src/ruying.rs:84-97 | the parser panics exactly on a length prefix that wraps around with its own eight bytes, before the header is all there |
| Ruying.DrainBuffer | crates/pcsuite-core/src/clipboard.rs:434-449 | the inner loop hands over the frames at the front and keeps the rest, or nothing after a refusal |
| Ruying.ReadLoop | crates/pcsuite-core/src/clipboard.rs:425-450 | the frames handled are those of the pieces read; on a stream without a refused frame, those of the whole stream |
| Ruying.AfterAll | crates/pcsuite-core/src/clipboard.rs:425-450 | on a stream without a refused frame every segmentation ends in the same state as one read of everything |
| RuyingReads.OnlyFrontExactlyWithoutLateFrame | crates/pcsuite-core/src/clipboard.rs:421-450 | however reads of at most 65536 bytes fall, exactly the frames in front of the first refused one are handled, if and only if no whole frame stands where the emptied buffer can start again |
| Ruying.SentIsDelivered | crates/pcsuite-core/src/clipboard.rs:425-450 | frames sent are the frames handled, in order, however the reads cut them |
| RuyingReads.RefusalDependsOnReads | crates/pcsuite-core/src/clipboard.rs:440-447 | the same bytes with a refused frame give the next frame or none, depending on the reads |
| WebSocket.MaskedTwice | crates/pcsuite-net/src/ws.rs:112-115 | masking is its own inverse for every payload and mask |
| WebSocket.ImageIsMasked | crates/pcsuite-net/src/ws.rs:112-117 | on the wire the mask stands before the payload, and byte `i` of that differs from the one sent in exactly the bits of `mask[i % 4]` |
| WebSocket.MaskedZeros | crates/pcsuite-net/src/ws.rs:115-117 | masking zero bytes writes the mask, repeated |
| WebSocket.ImageStarts | crates/pcsuite-net/src/ws.rs:102-111 | the first two bytes say final, no reserved bit, this opcode, and masked |
| WebSocket.SendFrame | crates/pcsuite-net/src/ws.rs:99-122 | the bytes written are the frame's wire image |
| WebSocket.Unmask | crates/pcsuite-net/src/ws.rs:171-175 | the in-place loop applies the mask to every byte |
| WebSocket.Recv | crates/pcsuite-net/src/ws.rs:144-183 | however reads fall, the frame, its exact length or the error are those of the pure form |
| WebSocket.ReceiveImage | crates/pcsuite-net/src/ws.rs:99-183 | receiving a sent frame gives its payload and consumes exactly the frame, for every opcode, mask and length |
| WebSocket.ReceiveKind | crates/pcsuite-net/src/ws.rs:176-183 | what each opcode of section 5.2 of RFC 6455 is received as; a continuation and a reserved one are data |
| WebSocket.ReceivePlainImage | crates/pcsuite-net/src/ws.rs:144-183 | a server's frame, without a mask, is received as it was sent |
| WebSocket.CutImageIsShort | crates/pcsuite-net/src/ws.rs:144-170 | a frame cut anywhere is an error |
| WebSocket.LengthFormIsMinimal | crates/pcsuite-net/src/ws.rs:103-111 | no frame that announces as long a payload has a shorter length field |
| WebSocket.ReceiveAllImages | crates/pcsuite-net/src/ws.rs:99-183 | a run of sent frames decodes to the same run |
| VdfsWire.BuildPlaintext | crates/pcsuite-proto/src/vdfs.rs:131-166 | what is built for any request parses back to it, exactly when 32 bits can say its name's length |
| VdfsWire.RequestReadsBack | crates/pcsuite-proto/src/vdfs.rs:131-191 | parsing a request gives it back, its name cut to what 32 bits say: whole exactly below 4 GiB |
| VdfsWire.ParsedRequestIsItsBytes | crates/pcsuite-proto/src/vdfs.rs:169-191 | what parses was written that way, byte for byte |
| VdfsWire.RequestFrameReadsBack | crates/pcsuite-proto/src/vdfs.rs:195-215 | a request frame's prefix is its length and its cipher text is found |
| VdfsWire.ResponseFrameReadsBack | crates/pcsuite-proto/src/vdfs.rs:219-232 | a response's cipher text is found; its announced length is its own exactly while 32 bits can say it |
| VdfsWire.SerializeList | crates/pcsuite-proto/src/vdfs.rs:285-297 | the listing's bytes are the entries' images in order |
| VdfsWire.ParseListLoop | crates/pcsuite-proto/src/vdfs.rs:255-280 | the index loop computes the entry-by-entry parse |
| VdfsWire.ListReadsBack | crates/pcsuite-proto/src/vdfs.rs:255-297 | a listing reads back without empty, `.` and `..` names, exactly when every name is under 65536 bytes |
| VdfsWire.KeptAmong | crates/pcsuite-proto/src/vdfs.rs:274-277 | among any others an entry is dropped exactly when its name is empty, `.` or `..` |
| VdfsWire.CutListIsPrefix | crates/pcsuite-proto/src/vdfs.rs:259-279 | any bytes cut anywhere parse to a prefix of what the whole parses to |
| VdfsPlane.ReplaceKeepsCollapse | crates/pcsuite-core/src/vdfs.rs:330-332 | one pass of replacing slash pairs keeps the collapsed form |
| VdfsPlane.CollapseIsNormal | crates/pcsuite-core/src/vdfs.rs:329-333 | the collapsed form has no slash pair, and a path without one is its own |
| VdfsPlane.NameToPath | crates/pcsuite-core/src/vdfs.rs:327-334 | the loop ends, with the id prefix off, backslashes turned and every slash run one slash |
| VdfsPlane.WindowsPathComesBack | crates/pcsuite-core/src/vdfs.rs:327-334 | a normal path written with backslashes behind the id comes back as that path |
| VdfsPlane.BuildStatResponse | crates/pcsuite-core/src/vdfs.rs:269-288 | the buffer overwritten in place is the template with the file's fields |
| VdfsPlane.StatReadsBack | crates/pcsuite-proto/src/vdfs.rs:241-250 | mode, size and time are read back, none overwriting another |
| VdfsPlane.ReadFileRange | crates/pcsuite-core/src/vdfs.rs:308-323 | short reads add up to exactly the range, or what the file has of it |
| VdfsPlane.RangesJoin | crates/pcsuite-core/src/vdfs.rs:308-323 | ranges read one after the other join up, and a range over the whole file is the file |
| VdfsPlane.RoundTrip | crates/pcsuite-core/src/vdfs.rs:134-155 | at least the expected bytes of the response, or all of it |
| VdfsPlane.RoundTripFramed | crates/pcsuite-core/src/vdfs.rs:160-190 | at least the announced length of the response, or all of it; it fails exactly on a reset before that |
| VdfsPlane.ServeConn | crates/pcsuite-core/src/vdfs.rs:218-264 | the server sends the one reply its request asks for, or hangs up |
| VdfsPlane.CommandsMean | crates/pcsuite-core/src/vdfs.rs:243-260 | command 3 is answered with the attributes, 2 with the local listing, 6 with the range of the file |
| VdfsPlane.RequestIsAnswered | crates/pcsuite-core/src/vdfs.rs:218-241 | a sealed request is answered from the path its name stands for exactly while it fits the server's limit; a longer one is hung up on |
| VdfsPlane.Fetch | crates/pcsuite-core/src/vdfs.rs:47-66 | for every path, every cut of the two replies, every read size and lawful cipher: the fetch comes to what the local node and the two cuts determine, and to an error for a name too long for the server's limit |
| VdfsPlane.FetchedExactly | crates/pcsuite-core/src/vdfs.rs:106-155 | that is the whole file exactly when both replies arrive whole, a proper prefix returned as success exactly when the read's reply is cut behind its header without a reset, and otherwise an error |
| VdfsPlane.FetchedNothing | crates/pcsuite-core/src/vdfs.rs:47-66 | an empty file is an error, and a directory or a missing path never gives any bytes |
| VdfsPlane.ListDir | crates/pcsuite-core/src/vdfs.rs:86-104 | for every directory and every cut of the reply: within the 32-bit length field the listing is that of the bytes that came, or an error after a reset; beyond it, still a front of what the whole listing parses to |
| VdfsPlane.ListedExactly | crates/pcsuite-core/src/vdfs.rs:86-104 | a listing that arrives whole is the local one without the dropped names exactly when every name is under 65536 bytes; a cut one is a front of it |
| Payload1.Encode | crates/pcsuite-proto/src/payload1.rs:19-25 | what is encoded decodes to its body, whole and as the only thing in it, exactly below 4 GiB |
| Payload1.DecodeImage | crates/pcsuite-proto/src/payload1.rs:19-48 | decoding a frame gives its body, whole exactly below 4 GiB |
| Payload1.ImageOfDecoded | crates/pcsuite-proto/src/payload1.rs:35-48 | encoding what was decoded gives the bytes taken |
| Payload1.WrongMagicExactly | crates/pcsuite-proto/src/payload1.rs:35-41 | the magic is refused exactly when a header is there and no frame starts, or could start, with these bytes |
| Payload1.ReadFirstFrame | crates/pcsuite-core/src/share.rs:458-479 | never holds more than the bound plus one read, and accepts every frame up to one past the bound however the reads fall |
| Payload1.AcceptedHoweverCut | crates/pcsuite-core/src/share.rs:458-479 | a frame passes every segmentation exactly when its total length is at most one past the bound |
| Payload1.HeldIsBounded | crates/pcsuite-core/src/share.rs:468-477 | past the bound plus one read no segmentation gets a frame through |
| Payload1.AcceptedSomehowCut | crates/pcsuite-core/src/share.rs:458-479 | a frame passes some segmentation exactly when its total length is at most one read past the bound |
| Percent.Encode | crates/pcsuite-core/src/pair.rs:214-224 | the loop appends each byte's encoding; with the slash kept, it is the query escape |
| Percent.Decode | crates/pcsuite-core/src/pair.rs:184-211 | the index loop decodes escapes and plus signs, and leaves malformed escapes as they are |
| Percent.EveryTextDecodes | crates/pcsuite-core/src/pair.rs:184-211 | every text is a run of characters, plus signs, escapes in either case and loose percent signs, and decodes to what those mean |
| Percent.DecodeEncoded | crates/pcsuite-core/src/mdfs.rs:311-320 | decoding inverts both encoders on every byte string |
| Percent.EncodedIsPlain | crates/pcsuite-core/src/pair.rs:213-224 | encoders emit only unreserved characters and escapes, and the slash where it is kept |
| Percent.ByteIsWritten | crates/pcsuite-core/src/pair.rs:216-222 | letters, digits, `-`, `_`, `.` and `~` (and a kept slash) stand for themselves, every other byte is written as `%` and two upper-case digits |
| Percent.QueryReadsBack | crates/pcsuite-core/src/pair.rs:171-181 | a query built from fields parses to those fields, whatever the values |
| Percent.PiecesReadBack | crates/pcsuite-core/src/pair.rs:171-181 | a query of gaps, keys alone and keys with values parses to what they say: gaps skipped, no value empty, later keys winning |
| Percent.EscapedKeysReadBack | crates/pcsuite-core/src/pair.rs:171-181 | keys are not decoded: a query of any fields with escaped keys parses to those fields if and only if every key is made of unreserved bytes |
| Echo.Shared.RecentlySynced | crates/pcsuite-core/src/clipboard.rs:147-149 | the pruned map answers as the full history would |
| Echo.Shared.TakeUp | crates/pcsuite-core/src/clipboard.rs:141-150 | checking, marking and pruning keep the map standing for the whole history, and take a text up exactly when the history allows it |
| Echo.Shared.OnPhoneText | crates/pcsuite-core/src/clipboard.rs:487-501 | a phone text is written exactly when incoming texts are on and history allows it |
| Echo.Shared.PollText | crates/pcsuite-core/src/clipboard.rs:706-733 | a local text is taken up exactly when it is not empty, a phone is connected and history allows it; sent unless its frame cannot be built |
| Echo.Shared.Seed | crates/pcsuite-core/src/clipboard.rs:686-692 | the first text becomes the last one known |
| Echo.SameTextApart | crates/pcsuite-core/src/clipboard.rs:141-150 | in every run two transfers of the same text, either way, are a window apart |
| Echo.ConsecutiveDiffer | crates/pcsuite-core/src/clipboard.rs:487-499 | in every run a transfer never repeats the seed or transfer just before it |
| Echo.TransfersAreRare | crates/pcsuite-core/src/clipboard.rs:141-150 | in every run one text crosses at most once per window |
| Echo.LatestIsLast | crates/pcsuite-core/src/clipboard.rs:144-149 | only the latest transfer of a text decides, which is why the map may forget the others |
| Echo.AcceptsExactly | crates/pcsuite-core/src/clipboard.rs:141-150 | a text crosses exactly when something else came last and each of its transfers is six seconds old |
| Echo.FreshTextIsTaken | crates/pcsuite-core/src/clipboard.rs:487-499 | a text never there before is always taken up: from the phone where incoming texts are on, from here where it is not empty and a phone is connected |
| Echo.Play | crates/pcsuite-core/src/clipboard.rs:685-733 | every interleaving of phone frames, polls, seeds and link changes leads to the history the rule alone gives, which is a legal run |
| Handshake.Relay.Dispatch | crates/pcsuite-core/src/clipboard.rs:862-1000 | every event of either task keeps what is sent in order, at most three equal startups and one ready, which is sent by the time the relay is waited for and never before the key, and keeps a true link true exactly unless the handshake gives up on a phone that is served |
| Handshake.Relay.Play | crates/pcsuite-core/src/clipboard.rs:862-1024 | a whole schedule of events ends in the state of the run, with the same bounds on what was sent |
| Handshake.HandshakeSends | crates/pcsuite-core/src/clipboard.rs:925-1000 | in every schedule at most three startups, all the same, and one ready exactly when the key was answered, after the key came |
| Handshake.SentExactly | crates/pcsuite-core/src/clipboard.rs:925-1000 | in every schedule exactly one ready for the key answered, none without, and one startup at the beginning and for each of the first two deadlines that pass |
| Handshake.StageExactly | crates/pcsuite-core/src/clipboard.rs:925-1024 | where the handshake stands after every schedule: waiting until a key or the end of its messages comes, whatever lags and deadlines pass; then answering the key, then waiting for the relay until that is over |
| Handshake.KeyIsFirst | crates/pcsuite-core/src/clipboard.rs:984-999 | the key stored is the first one announced |
| Handshake.ServerExactly | crates/pcsuite-core/src/clipboard.rs:862-889 | one connection is served at a time, and none after accepting has failed |
| Handshake.PendingExactly | crates/pcsuite-core/src/clipboard.rs:862-1024 | the link is undecided exactly until the phone connects, the last deadline passes or the wait for the relay runs out |
| Handshake.WaitingPhoneConnects | crates/pcsuite-core/src/clipboard.rs:984-1024 | a phone that waits for ready does get to connect: the schedule, the two messages sent and the link up |
| Handshake.LinkTellsUnlessGivenUp | crates/pcsuite-core/src/clipboard.rs:862-969 | the link tells the truth throughout exactly when the handshake never gives up on a phone being served |
| Handshake.LinkTellsForWaitingPhone | crates/pcsuite-core/src/clipboard.rs:862-1024 | with a phone that waits for ready, the link is up exactly while the accept loop serves it |
| Handshake.EarlyPhoneIsGivenUp | crates/pcsuite-core/src/clipboard.rs:964-969 | a phone that connects early and stays silent is served while the link reads down |
| Presence.Connection.UpgradeInPlace | crates/pcsuite-core/src/connect.rs:334-374 | device info, then one fresh token, which is the one returned; a failed write ends the connection, or refuses a local request |
| Presence.Connection.AwaitAnswer | crates/pcsuite-core/src/connect.rs:580-605 | the answer, none at the deadline, or the end of the connection; nothing is sent meanwhile |
| Presence.Connection.OnLocalRequest | crates/pcsuite-core/src/connect.rs:493-538 | a local request ends in its token and a session ridden out, or in a refusal, and the hold goes on exactly after that |
| Presence.Connection.OnConnectRequest | crates/pcsuite-core/src/connect.rs:560-648 | a phone's request is acknowledged, upgraded, answered and reported in that order; the hold goes on exactly when it left no session |
| Presence.Connection.PresenceOnce | crates/pcsuite-core/src/connect.rs:406-655 | every run, and every part of one, is a trace of the grammar; it returns when a session is over or the phone has closed, and fails when a read or write has |
| Presence.AckAnswersRequest | crates/pcsuite-core/src/connect.rs:560-566 | each [25] answers the request read just before it |
| Presence.RequestIsAnswered | crates/pcsuite-core/src/connect.rs:560-566 | a request read is acknowledged before anything else happens, unless that write fails and ends the connection |
| Presence.HandOutIsPrepared | crates/pcsuite-core/src/connect.rs:568-583 | a token is handed out right after the [25] and, with re-registration, the upgrade that registered it |
| Presence.OutcomeReportsAnswer | crates/pcsuite-core/src/connect.rs:606-622 | each [27] reports the answer that came just before it |
| Presence.OutcomeFollowsAck | crates/pcsuite-core/src/connect.rs:560-622 | each [27] follows its own [25], with no other request or answer between |
| Presence.AckIsSettled | crates/pcsuite-core/src/connect.rs:560-622 | each [25] is settled before the next request, by its [27] or by an answer that never came, and once |
| Presence.HandedTokenIsRegistered | crates/pcsuite-core/src/connect.rs:574-583 | with re-registration a token handed out is the one in the last bytes:[0] sent |
| Presence.HandedTokenWithoutReregister | crates/pcsuite-core/src/connect.rs:574-583 | without it, exactly when the connection announced itself and no local request has re-registered it since |
| Presence.TokenHandedUnsent | crates/pcsuite-core/src/connect.rs:574-583 | a connection that neither announces itself nor re-registers hands out a token it never sent |
| Presence.NothingAfterLiveSession | crates/pcsuite-core/src/connect.rs:508-531 | nothing is sent once a live session was handed over |
| Presence.SessionOverAfterLive | crates/pcsuite-core/src/connect.rs:508-531 | the end of a session comes only directly after it was handed over live |
| Presence.HoldGoesOn | crates/pcsuite-core/src/connect.rs:596-642 | after a request that left no session exactly a request, a local request or the end of the connection can come next |
| Presence.RequestPossibleExactly | crates/pcsuite-core/src/connect.rs:540-642 | the phone's request can come exactly after the opening and after each request that left no session |
| Presence.LocalTokenIsAsked | crates/pcsuite-core/src/connect.rs:493-531 | a token for a local caller follows its own request and the upgrade that registered it |
| Presence.LocalRefusedBecause | crates/pcsuite-core/src/connect.rs:493-538 | a local caller is refused just because a write failed or because it has gone away |

## Left out

- TarExtract.ExtractTarToDir: symbolic links, case-insensitive file systems, permissions, disk-full errors and the modification time are not modelled; directory creation and file creation fail only where a file or directory is in the way.
- FileTree.UniqueName: `(1..)` is an `i32` range in the source; the numbers here are unbounded.
- Ruying.ReadLoop: decrypting and handling a frame is not part of this model, and neither is the early return on a read error that leaves the outgoing channel set.
- UntarTheorems.RightExactlyWhenPlain: for extension data, skipped bodies and files of type `7` below 8 GiB; a single archive with an entry outside its condition can still read back right, when what is lost holds no file.
- TarTransfers.CutTransfer: the extractor reads a stream that holds what the chunked reader delivers and breaks where that reports an error; the two objects are not run against each other.
- WebSocket.SendFrame: opcodes are below 16, as all callers' are; the upgrade request and text decoding are not modelled.
- VdfsPlane.Fetch: the file does not change between the attribute request and the read; client and server share one key, as the round trip needs, and buffers below 2^63 bytes can be allocated.
- VdfsPlane.ListDir: for listings beyond the 32-bit length field only that a front of the listing comes back, not which; that depends on how the reads fall.
- Echo.Play: images on the clipboard; only the text branches share the state modelled.
- Handshake.HandshakeSends: it counts messages queued; a control channel that is already closed sends fewer.
- Presence.Connection.PresenceOnce: the order of wake-ups and the random tokens are left open, and a failed write is one that sent nothing; frames are their kind, token and result code, not their JSON.
- Numbers that wrap in the source where no input below 2^63 bytes can reach the wrap, such as byte counters.
- HTTP heads, redirects, retries and `http_reply_complete`, which looks for the terminator anywhere in the body.
- Pax records other than `path=` are skipped, as in the source, and their lengths are not read; lossy decoding of names that are not UTF-8.
- Sockets, TLS, adb, SSDP datagrams, the command line, the Swift bindings and the user interface.
- JSON shapes, AES-GCM and SHA themselves, zip files and the `tar` crate's writer.
- Cloud and region tables, device information, notifications, SMS codes and screen statistics, which would only add easy members.
