# MFS volume and shell codecs: a verified model

This project models two parts of the repository and proves what they are for.

**The MFS volume.** MFS is a FAT-style file system on a byte volume. The model has
three layers, each proved against the next.

1. Bytes (`volume.dfy`, `fat.dfy`, `entry.dfy`, `dir.dfy`, `file.dfy`, `sqliteio.dfy`,
   `mdbfs.dfy`, `mkfs.dfy`): class `Volume` is the volume file with its stream position;
   each C function is a method that seeks, reads and writes it in the same order and
   rereads the superblock as the original does. `route.dfy` and `strtok.dfy` resolve
   paths with the in-place tokeniser on a character array.
2. Table and clusters (`disk.dfy`, `allocation.dfy`, `geometry.dfy`, `dirent.dfy`):
   `DiskOf` reads the bytes as one table of 16-bit links and an array of 512-byte
   clusters.
3. Tree (`view.dfy`): a map from paths to directories (names in creation order) and
   files (byte strings). `Views.Inv` ties it to the disk: chains are finite, disjoint
   and end at the end marker, the non-zero table entries are exactly theirs, free
   clusters are zero, directory slots are dense and exact, file bytes are where the
   chain puts them.

`updates.dfy` and `claims.dfy` prove that every update keeps the invariant and makes
exactly the intended change of the tree; `runs.dfy` lifts this to any sequence of
operations from formatting on; `meaning.dfy` restates the invariant plainly and proves
that the bytes determine the tree, so the invariant leaves nothing open.

**The shell's text codecs.** `texts.dfy` (texts and NULL), `csv.dfy`/`csvio.dfy` (CSV printer, stateful reader, import
loop; section 2 of RFC 4180), `cstring.dfy`/`metacommand.dfy` (C string output, in-place
unescaping, dot-command tokeniser), `quote.dfy` (SQL quoting) and `size.dfy` (size
arguments). Printers and readers are proved to be inverses on all inputs for which the
original promises it.

Where the code does not meet its evident intent, the code is kept and the exact
condition is proved:

- the layout of progs/mkfs.h works for 256 to 32767 clusters and for no other count,
  because the 16-bit cast applies before the division (`Geometry.SoundIff`);
- the allocation scan tests 32 bits at each 2-byte entry and, at the last entry of a
  sector, two bytes past its buffer; nothing is assumed of those. Allocated entries are
  then not always one unbroken run. One allocation keeps the run, whatever those bytes
  are, exactly when it does not start at the last entry of a sector
  (`Allocation.ScanKeepsRunIff`; at every such entry it can leave a hole,
  `Allocation.ScanCanLeaveAHole`), and n allocations do exactly when their entries end
  before the last one of the current sector (`Allocation.RunStaysCompactIff`). With zero
  bytes there the run is always kept (`Allocation.CleanScanIsCompact`). `Runs.Perform`
  and `Runs.Run` carry both to any sequence of operations; after formatting the first
  254 clusters are always one run (`Runs.FormatAndRun`). The scan stays inside the
  volume exactly while an entry that is not the last of its sector is left
  (`Allocation.ScanStaysInsideIff`), and that count is the space every operation asks for;
- the guards of the table's read and write let the first index past the table through;
  it stands for the first two bytes of the root directory's cluster
  (`Fat.GuardsLetOneThrough`);
- a write call stays inside one cluster exactly when it starts a cluster or fits in the
  rest of one; otherwise the length is 512 or wraps (`Files.StaysInClusterIff`);
- resolving a route cuts it after its first component, so reusing the buffer reaches the
  same directory exactly when it has at most one component (`SqliteIo.ReuseIff`);
- with a separator of several bytes the CSV printer compares it with the front of the
  field only (`Csv.LongSeparatorIff`);
- the column separator goes through a `char` to the reader. Of the separators import
  accepts, every table comes back exactly when the separator is neither a quote nor a
  line feed and, where `char` is signed, below 128 (`Csv.SeparatorIff`);
- the guard against negative sizes looks at the first character only. Of the texts that
  read as a minus sign and digits it refuses exactly those without a blank in front, and
  the wrapped value is accepted exactly when the rest is well-formed and it fits in 64
  bits (`Sizes.NegativeSizes`, with " -1" as the smallest case in `Sizes.BlankHidesMinus`).

Preconditions are what the original's callers provide: paths that exist, names of 1 to
23 bytes without NUL or `/` that are not yet present, writes at the end of a file,
enough clusters, and for listings a route that fits the 1024-byte buffer it is copied to.

Client methods that are not in the original, written only to state a property about
several calls: `SqliteIo.OpenTwice`, `Mdbfs.ReadWhole`, `Mdbfs.StoreAndReadBack`,
`Runs.Perform`, `Runs.Run`, `Runs.FormatAndRun`, `CsvIo.ExportThenImport`,
`MetaCommand.PrintThenSplit`.

`dafny verify dfyconfig.toml` checks the project.

## Model

| member | source | states |
|---|---|---|
| Runs.FormatAndRun | progs/mkfs.c:212-234 | formatting a new file and then any allowed sequence of mkdir, create, append, lookup, read and list calls gives the answers and the final tree of the same sequence on a plain tree; up to 254 clusters, or with zero bytes past the scan's buffers, the allocated entries are one unbroken run |
| Runs.Run | sqliteio.c:29-102 | on any valid volume every run of operations gives the tree's answers and ends in the tree's state; no run leaves the valid volumes; an unbroken run of allocated entries stays one if every scan read zeros past its buffer or the operations' cost fits before the sector's last entry |
| Runs.Perform | sqliteio.c:29-102 | one operation on the disk is one step of the tree, with its answer, takes no more clusters than its stated cost, and keeps an unbroken run of allocated entries under the same condition |
| Runs.StepIff | sqliteio.c:62-102 | each operation's step on the tree is the only one with its plain meaning: one node more at the end of a listing; the bytes appended up to the end of a cluster; kind 1, 2 or 0; the bytes at the offset up to the request, the file's end or the cluster's end; every entry listed in order; nothing else changed |
| Runs.CostIsGrowth | file.c:278-289 | the cost of an operation is exactly the growth of the tree counted in clusters of 512 bytes and of 8 entries |
| Runs.WalkSnoc | entry.c:189-200 | a route is followed one component at a time |
| Meaning.TreeIsDetermined | dir.h:7-15 | one volume stands for one tree only: names, order, sizes, contents and chains follow from the bytes |
| Meaning.UsedIffOnOneChain | file.c:215-217 | a table entry is non-zero exactly when its cluster is on a chain, and then on one chain at one place |
| Meaning.ChainsFollowTable | file.c:270-293 | every chain starts at its node's head, follows the table inside the volume, ends at the end marker and is no longer than the volume |
| Meaning.SpaceLaw | file.c:278-289 | a file of s bytes owns max(1, ceil(s/512)) clusters, a directory of n entries max(1, ceil(n/8)) |
| Meaning.FreeClustersAreEmptySlots | entry.c:289-302 | a cluster on no chain is all zeros and reads as eight free slots, though nothing initialises it when it is claimed |
| Meaning.MissingComponentIff | entry.c:189-200 | a route fails to resolve exactly when some component is missing below a directory that exists |
| Meaning.ChainIsDetermined | fat.c:13-40 | two chains of one table with the same head are the same chain |
| Updates.MakeKeepsInv | entry.c:264-281 | writing the new entry after claiming clusters keeps the whole invariant and adds exactly one empty node |
| Updates.AppendKeepsInv | sqliteio.c:71-81 | the data write and the entry write together keep the whole invariant and change exactly one file's contents; every other file, listing and entry keeps its meaning |
| Updates.ParentSlotBytes | entry.c:450-462 | of all slots of the parent directory only the file's own changes, and it becomes the entry with the new size |
| Updates.UntouchedChain | file.c:295-309 | the data write changes no cluster of any other file or directory |
| Updates.FileGains | file.c:295-311 | a chunk written at the end of the last block makes the clusters hold the old bytes followed by the new ones |
| Updates.DirGains | entry.c:264-281 | entries fill the slots densely in creation order: the new one goes right after the last |
| Updates.ChainIsShort | file.c:270-293 | no chain has more clusters than the volume |
| Views.NewChain | file.c:215-217 | claiming a free cluster with the end marker adds one one-cluster chain and disturbs no other |
| Views.LongerChain | file.c:278-289 | linking a free cluster after the last one lengthens one chain and disturbs no other |
| Claims.NodeMade | dir.c:472-486 | the steps of mkdir and create, with or without directory growth, end in a volume for the tree with the new empty node, using at most the stated clusters |
| Claims.FileAppended | file.c:270-311 | the steps of an append, with or without a new cluster, end in a volume for the tree with the bytes appended |
| Claims.ClaimGrowth | entry.c:289-293 | growth by one cluster after earlier claims keeps all chains right and takes a zero cluster |
| Geometry.SoundIff | progs/mkfs.h:10-24 | every data cluster has its own two-byte entry inside the table exactly for 256 to 32767 clusters, for every width the compiler may pick beyond 65535 |
| Geometry.ClosedForm | progs/mkfs.c:113-123 | in that range entries are 2 bytes, a table has c/256 sectors, and the two tables have more slots than there are data clusters |
| Disks.AgreesWithHeader | entry.c:483-490 | the addresses used for entries and clusters are those of the header's macros |
| Disks.SpliceEntry | fat.c:60-74 | writing the two bytes of one entry changes that entry and no other entry, cluster or superblock byte |
| Disks.SpliceCluster | entry.c:266-276 | writing inside a cluster changes no table entry, no other cluster and no superblock byte |
| Allocation.ScanStaysInsideIff | fat.c:101-124 | whatever lies past the sector buffer, the scan stays inside the volume exactly when a usable cluster is left |
| Allocation.PickBounds | fat.c:101-124 | the scan returns a free slot no higher than the first certain one above the allocated slots |
| Allocation.CleanScanIsCompact | fat.c:101-124 | with zero bytes past the buffer the allocated slots stay one run and the scan returns the next slot |
| Allocation.ScanCanLeaveAHole | fat.c:112-118 | at the last slot of any sector the scan can skip it, and then the allocated slots are no run at all |
| Allocation.ScanKeepsRunIff | fat.c:101-124 | one allocation keeps the run for every content of the bytes past the buffer exactly when it does not start at the last slot of a sector |
| Allocation.RunStaysCompactIff | fat.c:101-124 | n allocations from an unbroken run keep it unbroken for every content of those bytes exactly when their slots end before the last one of the sector |
| Claims.NodeKeepsRun | dir.c:472-486 | the one or two allocations of mkdir and create keep the run under that condition |
| Claims.BytesKeepRun | file.c:278-289 | so does the allocation of an append |
| Allocation.UsableDrops | fat.c:101-124 | one allocation uses up at most one usable cluster |
| Dirents.DecodeEncode | dir.h:7-15 | an entry written in the packed 64-byte layout is read back field by field |
| Dirents.EncodeDecode | dir.h:7-15 | rewriting a read entry gives the same 64 bytes |
| Dirents.Layout | dir.h:8-16 | each field stands at its offset in the packed 64 bytes |
| Dirents.AttributeCodes | dir.h:18-24 | the codes of deleted and normal files and directories are 0, 1, 2 and 3 |
| Bytes.FromLeOfLe | fat.c:74-74 | a value that fits in k little-endian bytes is read back unchanged |
| Bytes.LeOfFromLe | fat.c:37-37 | k bytes read as a number and written again are the same bytes |
| Bytes.FromLeSnoc | fat.c:37-37 | one more byte counts 256 to the power of the bytes before it: the last byte is the highest |
| Volumes.Volume.Read | volume.c:73-87 | fread: the bytes at the position, fewer at the end of the file |
| Volumes.Volume.Write | volume.c:48-71 | fwrite: overwrites in place, grows the file past its end |
| Volumes.ReadSb | volume.c:122-130 | on a formatted volume the superblock fields are those of its size |
| Volumes.GetEndCluster | volume.c:132-161 | the end marker of a formatted volume is 0xFFFF |
| Fat.ReadFatIndex | fat.c:13-40 | the entry's value; for any index the two bytes at its address, and 0 exactly by refusal from the second index past the table on |
| Fat.WriteInFatIndex | fat.c:51-77 | stores the low 16 bits in one entry and changes nothing else; for any 32-bit index the two bytes at its wrapped address, refused exactly past the table's end |
| Fat.GuardsLetOneThrough | fat.c:66-67 | both refuse exactly the indices above the table length + 2; the first one past the table reads, and writes, the first two bytes of the root directory's cluster |
| Fat.FindEmptyFatIndex | fat.c:87-124 | returns a slot that can read as empty with no certainly empty slot before it, 0 only if there is none; with zero stray bytes the first empty one, 0 only if none is empty |
| Fat.WordTest | fat.c:112-118 | what the 32-bit test says about the 16-bit slot, including the overrun at the last slot |
| Entry.ReadCluster | entry.c:483-490 | the byte address of a cluster |
| Entry.LoadCluster | entry.c:68-77 | the cluster's bytes; at and past the end of the volume the bytes that are there, then what the buffer held |
| Entry.GetDentry | entry.c:49-117 | finds the first normal-file entry with the name over the whole chain, or none exists |
| Entry.AllocNewDirent | entry.c:233-307 | the entry goes in the first free slot; a full directory grows by one scanned cluster that starts with the entry |
| Entry.AllocNewEntry | entry.c:401-473 | replaces the first entry with the name and nothing else, or changes nothing |
| Listings.SlotMeans | dir.h:7-15 | slot 8i+e of a directory decodes to exactly its entry of that number: kind, name, head, size; later slots are free |
| Listings.MatchMeans | entry.c:88-107 | an entry that matches a search is the entry of the wanted node |
| Listings.NoMatchMeans | entry.c:112-116 | a search without a match means the tree has no such node |
| Listings.ListedIff | dir.c:546-553 | a name is a node under a directory exactly when it is listed there |
| Strtok.StrtokR | util.c:16-61 | returns the next maximal delimiter-free piece, cut off in place with one NUL, and leaves the rest of the tokens for the next call |
| Strtok.TokensOfJoined | util.c:25-60 | a path written with a slash before each component splits into those components |
| Strtok.TokensAreComponents | util.c:25-60 | tokens are non-empty and contain no delimiter |
| Strtok.CutToken | util.c:44-57 | the NUL at the end of a token leaves the later tokens unchanged |
| Routes.GetClusterNumber | entry.c:132-220 | the tokeniser-driven loop returns the head cluster of the directory component-by-component descent reaches, 0 if there is none, and leaves the route cut after its first component |
| Views.WalkStops | entry.c:189-200 | below something that is not a directory there is no directory |
| Dirs.Mkdir | dir.c:465-488 | adds one empty directory at the end of the named directory's listing and changes nothing else in the tree |
| Dirs.Lookup | dir.c:499-579 | answers 2 for a directory, 1 for a file and 0 for a name that is not there |
| Dirs.Readdir | dir.c:95-212 | lists every entry once at its place in creation order, with its name and whether it is a directory, nothing for a missing route; the caller's route stays as it was |
| Dirs.ListingIs | dir.c:140-200 | entry j of the listing is name j in creation order with its kind |
| Dirs.CopyRoute | dir.c:110-110 | the copy that is resolved holds the same string |
| Dirs.EmittedIsListing | dir.c:140-200 | what is emitted for one cluster continues the listing by exactly that cluster's entries |
| Files.Create | file.c:199-223 | adds one empty file at the end of the named directory's listing and changes nothing else in the tree |
| Files.InsertNew | file.c:211-222 | claims a head cluster, then inserts the entry, with or without directory growth |
| Files.StaysInClusterIff | file.c:256-267 | the computed length stays in the cluster exactly for aligned or fitting writes, and then is the smaller of the request and the room |
| Files.WriteFile | file.c:225-314 | writes that many bytes at the right place, grows the chain by one cluster exactly at the end of a full chain, adds the count to the entry's size |
| Files.ReadFile | file.c:132-197 | returns the bytes from the offset on, as many as asked for unless the file or the 512-byte cluster ends before that, and nothing past the end of the file |
| Files.ReadLenGives | file.c:163-178 | the length read is the largest that stays inside the request, the file and the 512-byte cluster |
| SqliteIo.OpenSqliteFile | sqliteio.c:29-48 | an existing name leaves every byte as it was; otherwise an empty file is made in the directory the cut route names |
| SqliteIo.OpenTwice | sqliteio.c:29-48 | with at most one component the name is there afterwards and the second open changes no byte |
| SqliteIo.ReuseIff | entry.c:132-136 | a second resolution of the same buffer reaches the same directory exactly when the route has at most one component |
| SqliteIo.WriteSqliteFile | sqliteio.c:62-82 | appends the first n bytes to one file and nothing else in the tree changes; n is at most the request, stays in the 512-byte cluster, and is less than the request only when it fills that cluster |
| SqliteIo.ReadSqliteFile | sqliteio.c:84-102 | the same of the named file: the bytes at the offset, and fewer than asked for only when the file or the 512-byte cluster ends there |
| SqliteIo.RewriteSame | entry.c:452-461 | writing an entry back unchanged changes no byte of the disk |
| Mdbfs.CreateDummy | progs/mdbfs.c:277-293 | the loop ends with the whole buffer as the contents of a new file |
| Mdbfs.ReadWhole | sqliteio.c:84-102 | repeated reads that go on where the last one stopped give the whole file, then nothing |
| Mdbfs.StoreAndReadBack | progs/mdbfs.c:277-293 | a stored buffer is read back byte for byte |
| Mkfs.MakeDataCluster | progs/mkfs.c:29-40 | a fresh file of zeros of the volume size |
| Mkfs.InitializeSb | progs/mkfs.c:88-131 | every field of the superblock, set one by one, stands at its struct offset with its value: sizes, both tables, layout, the three sets of totals, zeros elsewhere; read back they are the geometry of the cluster count |
| Mkfs.MakeFat | progs/mkfs.c:133-171 | four bytes of end marker at the first entry |
| Mkfs.FreshDisk | progs/mkfs.c:160-171 | those four bytes mark cluster 2 as the end of its chain and leave every other entry free |
| Mkfs.CreateVolume | progs/mkfs.c:212-234 | the formatted file is that superblock, four bytes of end marker and zeros; it is valid and stands for one empty root directory |
| Csv.TableRoundTrip | progs/shell.c:3097-3138 | for every table of NUL-free values, printing with a separator byte the reader sees and rows ended by LF or CR LF and importing with LF inserts exactly the same rows in order, NULL as the null text |
| Csv.RowsThen | progs/shell.c:3097-3138 | printed rows with either row end are imported as shown whatever text follows them, and the import goes on right after them |
| Csv.UnendedTable | progs/shell.c:3097-3138 | a last row without a row end is inserted as well, unless nothing of it is printed, which is so exactly for a single NULL with an empty null text |
| Csv.ShapedMeans | progs/shell.c:3099-3129 | value k of an inserted row is field k of the record, and NULL, not an empty text, where the record has none |
| Csv.SeparatorIff | progs/shell.c:3024-3024 | of the separators import accepts, every table comes back exactly for those that are no quote and no line feed and survive the conversion from char to int |
| Csv.RecordRoundTrip | progs/shell.c:971-987 | one printed row, ended by LF or CR LF, is one record with exactly its values as shown, and one empty field more when the separator is CR and the row ends in CR LF |
| Csv.FieldRoundTrip | progs/shell.c:767-796 | one printed value, NULL or text, is read back with what followed it: the separator, LF, CR LF or the end of the input |
| Csv.FieldIsBareIff | progs/shell.c:738-792 | a value is printed bare exactly when it is not empty, every byte lies in 33 to 126 and is neither quote nor apostrophe, and it neither contains a one-byte separator nor starts with a longer one; every other value is printed between quotes with its quotes doubled |
| Csv.CsvRowJoins | progs/shell.c:971-987 | exactly one separator stands between two parts of a row and none at its ends |
| Csv.ReadDoubled | progs/shell.c:2194-2225 | between the pieces of a doubled text the reader sees no terminator and stores the text undoubled |
| Csv.ReadQuotedField | progs/shell.c:2203-2211 | a quoted field ends at the separator or at CR LF, with any bytes inside |
| Csv.ReadQuotedFieldToo | progs/shell.c:2203-2221 | a quoted field ends at a bare row end and at the end of the input as well; without its closing quote it runs to the end of the input |
| Csv.StrayQuoteIsKept | progs/shell.c:2212-2225 | a quote followed by a byte that is no quote, separator, row end or CR does not end the field; both bytes are kept |
| Csv.ReadPlainField | progs/shell.c:2226-2236 | an unquoted field ends at the separator, or at LF without the CR before it |
| Csv.ReadPlainFieldToo | progs/shell.c:2226-2236 | an unquoted field ends at a bare row end and at the end of the input as well |
| Csv.QuotedConsumes | progs/shell.c:2194-2225 | the quoted-field loop ends on any bytes |
| Csv.StripBack | progs/shell.c:2208-2208 | what stays is everything before the last stored quote |
| Csv.LongSeparatorIff | progs/shell.c:774-781 | a harmless field containing a multi-byte separator is left unquoted exactly when it does not start with it |
| CsvIo.ImportCtx.AppendChar | progs/shell.c:2154-2164 | appends one byte and keeps a free slot for the NUL, also when the buffer is reallocated |
| CsvIo.ImportCtx.StripBackToQuote | progs/shell.c:2208-2208 | the walk back stops at a stored quote before the start of the buffer |
| CsvIo.ImportCtx.CsvReadOneField | progs/shell.c:2179-2239 | on any bytes and separators: terminates, stays inside its buffer, and leaves the text, terminator and remaining input of the reader whose fields the rows on Csv describe |
| CsvIo.ImportRow | progs/shell.c:3098-3130 | one turn consumes one record whatever its length and binds parameters 1 to nCol once each in order, padded with NULL, extras dropped |
| CsvIo.PartialStep | progs/shell.c:3099-3120 | after each read the fields got so far and those still to come make up the record |
| CsvIo.Import | progs/shell.c:3097-3138 | the loop ends on any input and inserts exactly the shaped records, each binding parameters 1 to nCol once in order |
| CsvIo.Shell.OutputCsv | progs/shell.c:767-796 | appends the value: a text bare or between quotes with its quotes doubled, by the rule of Csv.FieldIsBareIff written out; NULL as the null text; then the separator if asked |
| CsvIo.Shell.Callback | progs/shell.c:971-987 | appends the titles before the first row if they are wanted, a NULL title as an empty text, then the row if it has columns, each with separators between values and the row separator |
| CsvIo.ExportThenImport | progs/shell.c:3097-3138 | a table printed by the shell with either row end and imported again gives the same rows |
| CStrings.UnescapeEscape | progs/shell.c:675-701 | unescaping an escaped text gives it back, for every text and every set of printable bytes |
| CStrings.UnescapeByte | progs/shell.c:1985-1999 | each printed byte is read back as itself whatever follows, digits included |
| CStrings.EscapeForms | progs/shell.c:678-699 | the printed form of every byte: backslash and double quote escaped, tab, line feed and carriage return as letters, other bytes bare if printable and as three octal digits if not |
| CStrings.EscapeJoins | progs/shell.c:675-701 | a text is escaped byte by byte |
| CStrings.LetterMeans | progs/shell.c:1970-1989 | the value of a backslash and each letter; any other byte that is no octal digit stands for itself |
| CStrings.OneOctalMeans | progs/shell.c:1990-2000 | one octal digit not followed by another is its value |
| CStrings.TwoOctalMeans | progs/shell.c:1990-2000 | two octal digits not followed by a third are their value |
| CStrings.ThreeOctalMeans | progs/shell.c:1990-2000 | three octal digits are their value in eight bits, whatever follows |
| CStrings.OutputCString | progs/shell.c:675-701 | prints the escaped text between double quotes |
| CStrings.ResolveBackslashes | progs/shell.c:1963-2005 | resolves the string in place, the write index never passing the read index, nothing outside touched |
| CStrings.ReadEscape | progs/shell.c:1968-2000 | one escape: value in eight bits and length, up to three octal digits |
| MetaCommand.SplitLine | progs/shell.c:2629-2650 | the in-place token loop leaves each argument as a C string in the buffer, at most 50; which arguments a line has is pinned by the next rows |
| MetaCommand.LineSplitsIntoArgs | progs/shell.c:2629-2650 | a line of bare, single-quoted and double-quoted arguments between blanks splits into exactly these: text in single quotes as it is, other text with its escapes resolved |
| MetaCommand.TclJoins | progs/shell.c:955-970 | exactly one separator stands between two parts of a printed row |
| MetaCommand.RowRoundTrip | progs/shell.c:955-970 | a row of at most 50 NUL-free fields printed in Tcl mode with blank separators splits into the same fields |
| MetaCommand.PrintThenSplit | progs/shell.c:2629-2650 | print, split and unescape in place: the fields are back as C strings |
| MetaCommand.TclRow | progs/shell.c:955-970 | the titles if they are wanted, then the row if there is one, as C strings with the separators, NULL as the null text |
| MetaCommand.QuotedLengthOfEscape | progs/shell.c:2635-2638 | the scan for the closing quote runs over exactly the escaped text |
| Quoting.UnquoteQuoted | progs/shell.c:643-670 | reading a quoted text gives it back and stops right after it |
| Quoting.DoubledForms | progs/shell.c:659-668 | doubling goes byte by byte: the quote becomes two, every other byte stays |
| Quoting.OutputQuotedString | progs/shell.c:643-670 | the chunked printer writes quote, doubled text, quote |
| Quoting.AppendText | progs/shell.c:1101-1136 | the old text, the quoted or plain new text and a NUL fill the measured buffer exactly |
| Quoting.SetTableName | progs/shell.c:1060-1091 | the measured buffer holds the name and a NUL: as it is when it is a letter or underscore followed by letters, digits and underscores, else between single quotes with quotes doubled |
| Quoting.NeedsQuoteIff | progs/shell.c:1069-1076 | a name is quoted exactly when it is not a letter or underscore followed by letters, digits and underscores |
| Quoting.LengthOfDoubled | progs/shell.c:1107-1113 | the first pass counts exactly the bytes the second pass stores |
| Quoting.StoreDoubled | progs/shell.c:1124-1127 | stores the doubled text at the offset and keeps what is before it |
| Sizes.Fls64 | util.c:137-145 | the bit length |
| Sizes.OverflowTestExact | util.c:204-208 | the test on bit lengths refuses exactly the products of 2^64 or more |
| Sizes.Multiplier | util.c:179-202 | the fall-through switch gives the power of 1024 that Sizes.UnitSizes writes out for each letter, and refuses every other byte |
| Sizes.ParseSize | util.c:147-211 | for any string the answer of the size grammar that the rows below pin: the first error in the original's order of tests, or the exact product, never a wrapped one |
| Sizes.UnitSizes | util.c:179-209 | for digits of value v and one more byte, after blanks and a plus sign if any: b, k, m, g, t, p and e in either case give v times 1, 2^10, 2^20, 2^30, 2^40, 2^50 and 2^60, accepted exactly below 2^64; any other byte is an unknown unit |
| Sizes.PlainSize | util.c:163-209 | digits alone are their value, accepted exactly below 2^64 |
| Sizes.DecimalIsPlaceValue | util.c:163-163 | the value of a digit string is the sum of its digits times powers of ten |
| Sizes.LongSuffixRefused | util.c:168-172 | two or more bytes after the digits are refused whatever they are |
| Sizes.NoNumber | util.c:158-167 | blanks and a sign without a digit behind them are no number; a minus sign in front is refused first |
| Sizes.StaleRangeError | util.c:174-178 | an out-of-range error left over in errno changes the answer for 2^64 - 1 only |
| Sizes.ProductTest | util.c:204-210 | the final test passes exactly the products below 2^64, and then the 64-bit product is the true one |
| Sizes.ParseWellFormed | util.c:147-211 | digits and a unit letter are accepted exactly when the product is below 2^64, and then exact |
| Sizes.NegativeSizes | util.c:157-161 | of texts that read as minus and digits exactly those without a leading blank are refused as negative; which others are accepted, and the wrapped value they then give |
| Sizes.BlankHidesMinus | util.c:157-161 | " -1" is accepted as 2^64 - 1 |

## Left out

- Long file names: no code path creates such an entry, and their strides in entry.c and dir.c disagree; the loops over them are not modelled.
- Entry names without a NUL in their 24 bytes: no operation here writes one; the C code would read on into the next field.
- Table entries of 1, 4 or 8 bytes, overwrites and sparse writes: outside the range in which the layout and the write call work.
- Unlink and rmdir: they never reach the volume, so nothing is ever freed.
- Lookup, create and mkdir on a route that does not resolve: the original goes on with cluster 0 there.
- Fat.FindEmptyFatIndex: which of the possible slots is returned depends on memory past a local buffer, so the contract is a relation unless that memory is zero.
- Volumes.GetEndCluster: stated for formatted volumes, where entries are two bytes.
- Kernel VFS glue, the kernel wrappers in file.c and dir.c, progs/fuse.c: kernel objects and callbacks only. In `Dirs.Readdir` the callback becomes a returned list.
- Opening, locking and logging of the volume file; out-of-memory exits; 32-bit limits on buffer lengths.
- The random serial number and the volume label: one 19-byte parameter of `Mkfs.InitializeSb`.
- Csv.SeparatorIff: an empty separator, which import refuses, and one that becomes the end-of-file value (byte 0xFF where char is signed), with which the import loop never leaves a record, are outside the statement.
- Dirs.Readdir: a route of 1024 bytes or more leaves the copied buffer without a NUL; the original then reads on past it.
- Import line numbers, diagnostics and interrupts, table creation from the first record, ASCII mode.
- SQLite itself: a row of bound parameters is recorded where the original steps the statement.
- Locale: character classes are those of the C locale; `CStrings` takes the printable bytes as a set.
- The rest of progs/shell.c: library calls and user interface.
