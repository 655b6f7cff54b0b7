# Dafny model of AAMM-NG

A model of the alert messaging daemon for mesh nodes, with proofs. It follows the program's parts:

- **The alert store** (`AlertMessage`, `AlertTarget`, `Disk`, `Backup`, `Retention`, `AlertStore`, `AlertListing`,
  `WriteThenRead`, `BackupRuns`, `History`). Two directories are maps from names to nodes. Every file-system call is one step of the
  class `Disk`: it may fail, and before it an outside writer may rearrange the alert directory in any way. Every step
  that changes a directory is written to a ghost log, and so is every look at an alert, down to each status and each
  piece read of a file. The log is the run with all its intermediate states and all the daemon knew in them, and any
  prefix of it is a run cut off by a crash. A step that replaces or removes an alert is possible only at the end of a
  look that found what may be replaced. `Store` carries out the transactions of the source on this machine; `History`
  states what holds over all runs. Outside edits and calls that fail though they could succeed are counted; where neither
  counter moves, the contracts say which outcome the directories force.
- **The HTTP/1.1 implementation** (`Wire`, `HeaderRoundTrip`, `HttpRequest`, `HttpResponse`, `Bodies`, `Chunked`,
  `ChunkedRoundTrip`, `WireRoundTrip`, `ResponseFraming`, `ServerLifecycle`, `Paths`, `Mux`). A connection is the bytes the peer will have
  sent and how they end; the buffered reader hands them out in pieces of any size. Each parser is a method over this
  reader, proved against a function of the whole input, and the round trips are proved about these functions.
  `ServerLifecycle` is a state machine whose steps are the atomic sections of `Serve`, the connection goroutines,
  `Shutdown` and `Close`.
- **Mesh attribution** (`HostRecords`, `Resolver`, `MeshNodes`): host records, longest-prefix routes over IPv4, and the
  ambiguity checks with their early exits.
- **The control server** (`ControlProtocol`, `ControlServer`): validation, dispatch to the store above, and the audit
  lines, tied together over whole runs.

`Text`, `Utf8` and `Order` hold what the Go library provides. A Go string is a `string` with one `char` per byte. Parts of the
Go library whose tables or grammars do not matter here are function values of which nothing is assumed: Unicode
categories and letter case outside ASCII, HTML entities other than the five that are written, `netip`, `url` and the
JSON decoder. Clock and randomness are arbitrary inputs; backup tokens are arbitrary too, so no proof relies on their
being fresh.

## What the proofs show about the code

- The connection map of the HTTP server may hold any number of connections, since a goroutine gives its slot back before
  it unregisters; at most 64 are ever served at once (`ConnsMayExceedSlots`, `ConnsBeyondSlots`, `AtMostSixtyFour`).
- An exact pattern is not always preferred to a subtree pattern: it is on every path exactly if it has at most 101
  wildcards (`ExactWinsExactly`, `ExactLoses`).
- The comment on the redirect from `/dir` to `/dir/` does not hold in general: for every table the redirect happens
  exactly if the best route that fits `/dir` is a subtree with another pattern, and with `/dir/` alone the answer is 404
  (`SubtreeRootRedirect`, `SubtreeAloneIsMissing`). The model follows the code.
- A store operation whose last directory sync fails reports an error although the change is in place (`Unsettled`). The
  audit line then says failure with the code `internal_error` or `not_found`; every other code means that nothing was
  published (`AuditAccountsForEverything`). Settings have an outcome of their own for this case.
- An accepted request is audited with its target as it was sent, which may differ in case from the file it changed; a
  refused one with the canonical target.
- An outside edit made before the last look at an alert aborts a conversion or deletion, unless it left the bytes of the
  backup. Between the start of that look and the rename or removal there is a gap in which an outside edit can be lost;
  the model keeps it, and the guarantee says exactly where it is (`LossOnlyAfterLook`).
- A location keeps a clean path exactly if it is printable ASCII without a question mark (`LocationKeepsPath`); the bound
  on redirects is about such paths.

## Model

| member | source | states |
|---|---|---|
| Utf8.RunesAreEncoded | internal/alertmessage/message.go:30-41 | a string is decoded as some runes exactly if it is their UTF-8 encoding, so exactly the encodings are valid (section 3 of RFC 3629) |
| Utf8.RangeNext | internal/localcontrol/protocol.go:355-363 | ranging over a string yields encoded runes one by one, and U+FFFD for each byte that starts none |
| Utf8.TrimSpaceTrims | internal/alertmessage/message.go:37-39 | trimming takes white space from both ends until none of the code points with White_Space stands there |
| Utf8.TrimAround | internal/arednhosts/parser.go:81-85 | white space around a text that has none at its ends is exactly what trimming takes |
| Utf8.TrimmedExactly | internal/localcontrol/protocol.go:342-348 | a text is left alone by trimming exactly if no white space stands at its ends |
| Utf8.BlankIsSpaces | internal/alertmessage/message.go:37-39 | trimming leaves nothing exactly of white space |
| Utf8.WordsNext | internal/arednhosts/parser.go:52-53 | fields come one by one: white space, a word without any, and what follows it |
| Text.TrimBlanksAround | internal/minihttp/wire.go:103 | blanks around a text that has none at its ends are exactly what trimming takes |
| Text.LetterCase | internal/alerttarget/target.go:21 | letters keep their order when their case changes, and nothing else changes |
| AlertTarget.ParseExactly | internal/alerttarget/target.go:16-38 | accepted exactly if of 1 to 63 bytes, with a lower case of small letters, digits, `-` and `_` that begins with a letter or digit; the target is that lower case |
| AlertTarget.TargetParsesToItself | internal/alerttarget/target.go:16-38 | a target of at most 63 bytes parses to itself, whatever the Unicode tables say |
| AlertTarget.ParseAgain | internal/alerttarget/target.go:16-38 | what was parsed parses to itself exactly if it is at most 63 bytes long, as it is unless lower case takes more bytes |
| AlertTarget.ParseIgnoresCase | internal/alerttarget/target.go:16-38 | two names of acceptable length with the same lower case are the same target |
| AlertMessage.ValidEmojiJoiner | internal/alertmessage/message.go:64-87 | the scan that skips modifiers says yes exactly when the joiner stands between two symbols, modifiers of the left one aside |
| AlertMessage.ParseMessage | internal/alertmessage/message.go:25-62 | the checks in order, with the loop over runes, give the first problem of the text or its normal form |
| AlertMessage.ParseAccepts | internal/alertmessage/message.go:25-62 | exactly which strings are messages, and that the value returned is the input with line ends normalised |
| AlertMessage.NormalizeNext | internal/alertmessage/message.go:34-35 | the normal form from the front: each `\r\n` and each other `\r` becomes one line feed, and nothing else changes |
| AlertMessage.ParseRefuses | internal/alertmessage/message.go:26-39 | too large exactly above 4096 bytes, invalid exactly if no runes encode to it, empty exactly if its normal form is white space, in this order |
| AlertMessage.ParseByRunes | internal/alertmessage/message.go:41-62 | a valid text that is not blank is a message exactly if every rune of its normal form is a tab, a line feed, or from U+0020 to U+007E or from U+00A0 on no format character but a joiner between symbols; the first other rune names the problem |
| AlertMessage.ParseIdempotent | internal/alertmessage/message.go:25-62 | a parsed message parses to itself, holds no carriage return and at most 4096 bytes |
| AlertMessage.UnescapeEscape | internal/alertmessage/message.go:93-114 | unescaping undoes the five escapes, whatever the entity table says of other references |
| AlertMessage.BreaksRoundTrip | internal/alertmessage/message.go:93-114 | taking `<br>` before a line feed back undoes writing it, on text without tags |
| AlertMessage.ParseManagedHtml | internal/alertmessage/message.go:100-114 | decoding, parsing and comparing the re-encoded text computes the recognised message |
| AlertMessage.ParseManagedInvertsRender | internal/alertmessage/message.go:93-114 | a string is recognised as message m exactly if m is a message and the string is its rendering |
| AlertMessage.RenderInjective | internal/alertmessage/message.go:93-96 | different messages have different renderings |
| AlertMessage.RenderByChar | internal/alertmessage/message.go:93-96 | the rendering character by character, with the five escapes and the break written out |
| AlertMessage.RenderLength | internal/alertmessage/message.go:93-96 | a rendering is at most five times as long as the message |
| Disk.Disk.Interfere | internal/alertstore/conversion.go:294-374 | before any step an outside writer may leave the alert directory in any state; backups are out of its reach, and the edit is logged |
| Disk.Disk.Fails | internal/alertstore/store.go:227-261 | whether a call fails that could succeed is arbitrary, and counted |
| Disk.Disk.Lstat | internal/alertstore/store.go:227-238 | a look at a name finds what is there now, its absence, or fails; for alerts it is logged |
| Disk.Disk.Open | internal/alertstore/store.go:240-261 | an opened regular file is the node under that name at that moment; the opening is logged |
| Disk.Disk.ReadChunk | internal/alertstore/conversion.go:175-193 | a read yields some of the next bytes, none only at the end, as long as nobody edited since the file was opened; every piece read is logged |
| Disk.Disk.ReadDir | internal/alertstore/conversion.go:385-390 | all names of a directory once, in any order, or a failure |
| Disk.Disk.CreateExclusive | internal/alertstore/store.go:600-627 | an exclusive creation yields an empty regular file under a name that was free, and touches only temporary names |
| Disk.Disk.CreateTemporary | internal/alertstore/conversion.go:465-493 | up to ten attempts under random names end with an empty temporary file or fail |
| Disk.Disk.Append | internal/alertstore/store.go:381-396 | a write that succeeds appends all its bytes to the open file, a failed one a part of them |
| Disk.Disk.PublishBackup | internal/alertstore/conversion.go:262-271 | a rename that succeeds gives the whole temporary backup its final name, one that fails changes nothing |
| Disk.Disk.Remove | internal/alertstore/conversion.go:438-447 | expiring a backup is allowed only for the smallest name besides the protected one while there are too many |
| Disk.Disk.LinkNew | internal/alertstore/store.go:433-454 | a link succeeds only under a free name, gives it exactly the node of the temporary file, and is logged with the step that created that file |
| Disk.Disk.RenameOver | internal/alertstore/store.go:573-588 | a rename over an alert is possible only directly after a logged look that read the bytes of the backup there or, without one, found nothing or a managed alert |
| Disk.Disk.UnlinkAlert | internal/alertstore/delete.go:37-58 | removing an alert is possible only directly after a logged look that read exactly the bytes of the backup |
| Backup.BoundedCapture.Write | internal/alertstore/conversion.go:526-541 | for every sequence of writes the captured data is the first `limit` bytes of all of them, and every write reports its full length |
| Backup.ListBackups | internal/alertstore/conversion.go:380-419 | the names of finished backups, each once, all of them regular files, or the reason why not |
| Backup.NewBackupName | internal/alertstore/conversion.go:495-511 | the name of the instant, the target and the token, which counts as a finished backup; none without a token |
| Backup.OpenSource | internal/alertstore/conversion.go:97-148 | the source opened is the regular file that was looked at, of at most 64 KiB; each refusal says what was found |
| Backup.CopyChunk | internal/alertstore/conversion.go:175-193 | one read and its two writes keep the temporary backup and the memory copy equal |
| Backup.CopySource | internal/alertstore/conversion.go:159-193 | for every way the copy loop splits the data and whatever happens outside, the temporary backup holds exactly the logged pieces read, which are also the bytes in memory |
| Backup.CopyVerified | internal/alertstore/conversion.go:175-232 | what passes the checks after copying is the file as read from its first byte to its last, at most 64 KiB, with one identity, size and time before and after |
| Backup.DraftBackup | internal/alertstore/conversion.go:89-251 | a complete, checked and settled temporary backup; finished backups are untouched so far |
| Backup.PublishAndPrune | internal/alertstore/conversion.go:253-292 | the published backup is the temporary one, it survives pruning, and what is left is the retained set |
| Backup.BackupAlert | internal/alertstore/conversion.go:89-292 | on success the published backup, the snapshot and the bytes read from the alert are identical and at most 64 KiB, whatever happens outside, and the backups left are exactly the retained ones |
| Backup.PassOne | internal/alertstore/conversion.go:429-447 | one turn of the removal loop removes the next name unless it is protected, and counts it |
| Backup.RemoveExpired | internal/alertstore/conversion.go:425-453 | the loop over the sorted names ends with no removal missing: the error about an unsatisfiable limit cannot arise |
| Backup.PruneBackups | internal/alertstore/conversion.go:376-463 | a successful prune leaves the protected backup and the fifteen greatest others; no prune ever removes the protected one or reports an unsatisfiable limit |
| Retention.RetainedUnique | internal/alertstore/conversion.go:421-453 | the names and the protected one determine which backups stay |
| Retention.FixedOrder | internal/alertstore/conversion.go:495-511 | decimal numbers of one width sort as strings exactly as they do as numbers |
| Retention.StampOrder | internal/alertstore/conversion.go:495-511 | stamps of one layout sort by their first differing field, whatever follows |
| Retention.BackupNamesSortByTime | internal/alertstore/conversion.go:495-511 | a backup made earlier has a smaller name, for any targets and random tokens |
| Retention.FixedValue | internal/alertstore/conversion.go:495-511 | the digits of fixed width are those of the number |
| Retention.NameLayout | internal/alertstore/conversion.go:495-511 | the layout of a backup's name, field by field |
| Retention.RunKeepsTheLast | internal/alertstore/conversion.go:376-463 | for sets of names: starting empty and with growing names, n additions that each leave the retained set leave exactly the last min(n, 16) |
| BackupRuns.BackUpInTurn | internal/alertstore/conversion.go:89-292 | on the disk: starting without backups, n completed backups with increasing times leave exactly the last min(n, 16), for any targets and tokens and any outside edits; only an outside edit, a failing call or an alert that cannot be backed up keeps them from completing |
| AlertStore.Store.Read | internal/alertstore/store.go:154-167 | without outside edits the exact classification of the file, and each error in its situation; without a failing call either, the directory alone decides which |
| AlertStore.Store.ReadEntry | internal/alertstore/store.go:221-261 | managed, legacy or oversized as the bytes and the size say; links and special files are refused; what it answers rests on a logged look |
| AlertStore.Store.ReadContent | internal/alertstore/store.go:263-311 | the classification of the bytes read, and with it the evidence of the read |
| AlertStore.Store.ReadAll | internal/alertstore/store.go:271-278 | for every way the reads split it, the first 64 KiB and one byte of the file |
| AlertStore.Store.EnsureManagedWritable | internal/alertstore/store.go:313-350 | passes over nothing or a managed alert, by a look of its own, and names the conflict otherwise; without outside edits and failing calls exactly so |
| AlertStore.Store.WriteTemporary | internal/alertstore/store.go:357-431 | a temporary file that holds exactly the rendering of the message, or no change but temporary names |
| AlertStore.Store.PublishNew | internal/alertstore/store.go:433-474 | publishes exactly one link under a free name, or nothing |
| AlertStore.Store.Create | internal/alertstore/store.go:169-193 | publishes exactly when it returns no error or one met after publishing; never over an existing name; the file is then exactly the rendering; without outside edits and failing calls it succeeds exactly over a free name |
| AlertStore.Store.Write | internal/alertstore/store.go:195-219 | replaces only nothing or a managed alert, by exactly the rendering, in a rename that directly follows a second look taken after the new file was written; any earlier failure leaves all alerts as they were; without outside edits and failing calls it succeeds exactly over nothing or a managed alert, and the conflict is that of the entry |
| AlertStore.Store.Recheck | internal/alertstore/store.go:568-578 | what the last look before the rename guarantees, for both kinds of check |
| AlertStore.Store.PrepareChecked | internal/alertstore/store.go:491-578 | everything before the rename touches only temporary names; the look comes after the new file and nothing but looks follows it |
| AlertStore.Store.PublishOver | internal/alertstore/store.go:579-598 | the rename puts exactly the temporary file in place, or nothing is published |
| AlertStore.Store.WriteManagedChecked | internal/alertstore/store.go:491-598 | one replacement, directly after a passed check that was made after the new file was complete, or none |
| AlertStore.Store.VerifySourceUnchanged | internal/alertstore/conversion.go:294-374 | success means that a look found the name and the file opened then with the identity of the snapshot, read it to its end as exactly the snapshot's bytes, and found it afterwards with the snapshot's identity, size and time; undisturbed it holds these bytes |
| AlertStore.Store.OpenSnapshot | internal/alertstore/conversion.go:294-330 | the name, and the file opened then, have the identity of the snapshot; undisturbed, the file of the snapshot is always opened |
| AlertStore.Store.ReadsAs | internal/alertstore/conversion.go:327-374 | an open file that passes was read to its end as the snapshot's bytes and was found afterwards with its identity, size and time |
| AlertStore.Store.ConvertLegacy | internal/alertstore/conversion.go:33-87 | one replacement of unmanaged bytes over a present and retained backup, directly after a look that read exactly the bytes of that backup, or none; without outside edits and failing calls it succeeds exactly over a legacy alert of at most 64 KiB, and refuses each other entry with its own error |
| AlertStore.Store.Delete | internal/alertstore/delete.go:13-71 | one removal over a present and retained backup, directly after a look that read exactly the bytes of that backup, or none; without outside edits and failing calls it succeeds exactly over a regular file of at most 64 KiB |
| AlertStore.Store.RemoveSource | internal/alertstore/delete.go:37-71 | the removal directly after a passed recheck, or no change; undisturbed, the file that was backed up is removed |
| AlertStore.Store.Close | internal/alertstore/store.go:131-152 | whatever closing the roots reports, both count as closed afterwards, and closing again reports nothing |
| AlertStore.WrittenIsManaged | internal/alertstore/store.go:263-310 | a rendering is classified as managed, with its message and size, and is at most 20480 bytes, below the 64 KiB limit |
| WriteThenRead.StoreThenRead | internal/alertstore/store.go:154-219 | after a successful create, write or conversion with nobody else writing, a read gives a managed alert with the same message and exact size, or a call of the read failed; without failing calls the directories decide whether it is stored, and it is read back |
| History.EventOf | internal/alertstore/store.go:352-598 | every logged step of a run is one of the allowed ones, starts in the state the step before it left, and follows the steps it must follow |
| History.LossOnlyAfterLook | internal/alertstore/conversion.go:52-75 | for every interleaving with outside edits, a conversion or deletion keeps a backup and directly follows a look that read the whole alert as the bytes of that backup, so an earlier outside edit aborts it unless it left these bytes; without an edit since the look began, the alert held exactly these bytes |
| History.OverwritesOnlyManaged | internal/alertstore/store.go:568-588 | for every interleaving, a write directly follows a look that found nothing, or one that read the whole file, of at most 64 KiB, as a managed alert; and without an edit since, that is what it replaced |
| History.PublishesWholeMessages | internal/alertstore/store.go:352-454 | what is linked or renamed into place was created by the store and, without an outside edit since, is exactly the rendering |
| History.CreationsNeverOverwrite | internal/alertstore/store.go:433-454 | over any stretch of a run in which a name is only created, an alert that exists stays what it is |
| History.PreparingKeeps | internal/alertstore/delete.go:27-48 | until it publishes, an operation leaves what the outside writer put under a name in place |
| History.StepIsSafe | internal/alertstore/store.go:491-598 | without an outside writer each step keeps an alert, renders a message over nothing or a managed one, or changes it over an identical backup |
| History.UnreadableNeverChanges | internal/alertstore/store.go:313-350 | without an outside writer, entries that are no regular file or are oversized never change over any run |
| History.NoPartialAlert | internal/alertstore/store.go:433-454 | at every intermediate state, crashes included, an alert is its whole old content, exactly the rendering of a message, or absent |
| History.LegacyBytesAreKept | internal/alertstore/conversion.go:33-87 | legacy bytes leave the alert directory only in a step before and after which an identical backup is there |
| History.ExpiryKeepsSixteen | internal/alertstore/conversion.go:421-453 | expiring a backup leaves at least sixteen, the protected one among them, and touches no alert |
| Order.SortByKeeps | internal/alertstore/list.go:117-135 | sorting by a comparison permutes and leaves nothing before a smaller element |
| Order.OrderUnique | internal/alertstore/list.go:117-135 | elements that can be compared have only one order |
| AlertListing.SortedItemsUnordered | internal/alertstore/list.go:117-122 | sorted entries do not depend on the order in which the directory listed them |
| AlertListing.SortedIssuesUnordered | internal/alertstore/list.go:124-135 | sorted issues do not depend on the order in which the directory listed them |
| AlertListing.CanonicalName | internal/alertstore/list.go:62-95 | a file is an alert exactly if it is named after a target of at most 63 bytes |
| AlertListing.Examine | internal/alertstore/list.go:59-115 | one turn of the loop reports one more file: its content, or the right kind of issue, a failed inspection only after a failing call |
| AlertListing.List | internal/alertstore/list.go:31-138 | without outside edits every `.txt` file is reported, the number of reports is the number of files, and both lists are sorted; without failing calls no inspection fails, and the listing is there |
| AlertListing.ListedInOrder | internal/alertstore/list.go:117-135 | in a listing, entries are ordered by the lower case of their targets, issues by the lower case of their names and then by the names |
| Wire.ReadRawLine | internal/minihttp/wire.go:29-55 | for every buffer size, slices are collected up to the first line feed, and the limit is applied to the whole line |
| Wire.ReadLine | internal/minihttp/wire.go:29-69 | for every buffer size, exactly the first line of the stream, stripped, and no byte more is consumed |
| Wire.LineOf | internal/minihttp/wire.go:29-69 | a line without line feed and NUL is read back from its CRLF form, whatever follows |
| Wire.LineByCase | internal/minihttp/wire.go:29-69 | every line, by case: too long, not ended by CRLF, with a NUL in it, or there; and every stream without a line end |
| Wire.TokenBytes | internal/minihttp/minihttp.go:188-197 | the bytes of a token: letters, digits and fifteen signs |
| Wire.HostBytes | internal/minihttp/minihttp.go:214-234 | the bytes of a host: letters, digits and eight signs |
| Wire.FieldBytes | internal/minihttp/minihttp.go:201-210 | the bytes of a field value: a tab, and everything from the space on but DEL |
| Wire.FieldExactly | internal/minihttp/wire.go:90-108 | a header line is accepted exactly if it is a token, a colon and a valid value, blanks around the value aside; everything else is a bad request |
| Wire.WideLettersFold | internal/minihttp/wire.go:310-316 | the Kelvin sign folds to `k`, the long s to `s` |
| Wire.SkippedExactly | internal/minihttp/wire.go:310-316 | a token is skipped exactly if it equals one of the names, letter case aside |
| Wire.FlattenAt | internal/minihttp/wire.go:318-323 | line breaks and NUL become spaces, and nothing else changes |
| Wire.CanonicalKeyIdempotent | internal/minihttp/minihttp.go:98-124 | canonical names stay as they are, and tokens stay tokens |
| Wire.CanonicalFolds | internal/minihttp/wire.go:310-316 | a name and its canonical form are equal under case folding, so both are skipped or neither |
| Wire.ReadHeader | internal/minihttp/wire.go:73-111 | reads exactly the fields up to the blank line within the budget, for every buffer size |
| Wire.WriteHeader | internal/minihttp/wire.go:297-332 | whatever order the map yields its keys in, the text is that of the sorted names |
| HeaderRoundTrip.TrimKeepsValid | internal/minihttp/minihttp.go:201-210 | trimming blanks keeps a field value valid |
| HeaderRoundTrip.FieldOf | internal/minihttp/wire.go:73-111 | a written field line is read as its name and its trimmed value |
| HeaderRoundTrip.OneField | internal/minihttp/wire.go:73-111 | reading one written field adds its value and costs exactly its own length |
| HeaderRoundTrip.AddAllAppends | internal/minihttp/minihttp.go:104-107 | adding values one by one appends them under the canonical key, also to values another spelling left there |
| HeaderRoundTrip.ReadsHeader | internal/minihttp/wire.go:297-332 | a written header with any names is read back as what is delivered of it, and costs exactly its own length |
| HeaderRoundTrip.BadFieldOf | internal/minihttp/wire.go:73-111 | a written line with an invalid value is refused, blanks around the value aside |
| HeaderRoundTrip.NoField | internal/minihttp/wire.go:73-111 | a written field that is invalid, or longer than what is left of the limit, ends the reading with an error |
| HeaderRoundTrip.RefusesHeader | internal/minihttp/wire.go:297-332 | a header with one written value that stays invalid is refused as a whole, whatever was read before, whatever follows and whatever the limit |
| HeaderRoundTrip.ReadsBlock | internal/minihttp/wire.go:73-111 | a readable block that ends in a blank line is read as a whole if it keeps within the limit, and not at all otherwise |
| HeaderRoundTrip.SkippedIsNotDelivered | internal/minihttp/wire.go:308-316 | no spelling of a skipped name arrives |
| HeaderRoundTrip.CanonicalNamesArrive | internal/minihttp/wire.go:297-332 | canonical names arrive with their values, trimmed and with line breaks as spaces |
| HeaderRoundTrip.CleanHeaderIsDelivered | internal/minihttp/wire.go:297-332 | canonical headers whose values need no trimming arrive unchanged |
| HttpRequest.ReadRequest | internal/minihttp/server.go:258-366 | the request line, header, host and length checks give the received request and consume exactly its header |
| HttpRequest.WriteRequest | internal/minihttp/client.go:182-202 | the output buffer holds the request line, Host, the caller's fields, the length when it is sent, Connection, and the body |
| HttpRequest.OutgoingBody | internal/minihttp/client.go:149-180 | the length that is announced is the number of bytes sent, which are the first bytes of the body, all of them unless a length was declared; refused exactly if fewer bytes come than declared, or more than 1 MiB undeclared |
| HttpRequest.LengthIsSent | internal/minihttp/client.go:197-199 | a length is announced for every body, and for POST and PUT also without one |
| HttpRequest.FirstLineIsRead | internal/minihttp/server.go:258-304 | the request line a client writes is accepted and split into method, target and version |
| HttpRequest.FramingIsRead | internal/minihttp/server.go:306-366 | the host and the length the client sends are the ones the server finds (section 6 of RFC 9112) |
| HttpRequest.RequestRoundTrip | internal/minihttp/client.go:182-202 | for headers in any spelling, the server recovers method, target, host, header and body length of every request within the limits, and what follows its header is the body and then the rest (sections 3, 5 and 6.3 of RFC 9112) |
| HttpRequest.AcceptedExactly | internal/minihttp/server.go:258-366 | of the requests with a valid method, target and host, the server accepts a written one if and only if its written values are valid and its first line, header block and body keep within the limits |
| HttpRequest.RequestLineExactly | internal/minihttp/server.go:266-304 | for every line: accepted exactly if it is a token, a visible path that parses and one of two versions with one space between them; 505 for another version of an otherwise good method, 400 for everything else |
| HttpRequest.FramingExactly | internal/minihttp/server.go:306-366 | for every header: 501 for any transfer coding, 400 for several, invalid or missing hosts and for bad lengths, 413 above 10 MiB, and otherwise the host and the length; only HTTP/1.0 may lack a host |
| HttpRequest.AnyRequestIsRead | internal/minihttp/server.go:258-366 | a request of any client with fields written in order is judged by its line and the fields that arrive, and loses only its Host field |
| HttpRequest.TooLongIsRefused | internal/minihttp/server.go:258-290 | a request line above 8 KiB is answered with 414, and fields beyond the limit are refused |
| WireRoundTrip.SendRequest | internal/minihttp/server.go:258-366 | end to end: writer, buffered reader and body reader recover the request and exactly its body for every buffer size, and leave the bytes behind it |
| HttpResponse.ResponseWriter.WriteHeader | internal/minihttp/server.go:394-405 | the first status stays |
| HttpResponse.ResponseWriter.Write | internal/minihttp/server.go:407-421 | a body is only collected where the status allows one and up to the limit; a refused write changes no byte of it |
| HttpResponse.ResponseWriter.Finish | internal/minihttp/server.go:428-461 | the bytes sent are those of the status, the handler's fields, the framing fields and, unless forbidden, the body |
| HttpResponse.ReadResponse | internal/minihttp/client.go:225-289 | status line, header and framing give the received response and consume exactly its header |
| HttpResponse.ReadFinalResponse | internal/minihttp/client.go:203-223 | interim responses are skipped, and the first other one is returned |
| HttpResponse.StatusLineIsRead | internal/minihttp/client.go:225-260 | every status line the server writes is read back as the same code, at most one line long |
| HttpResponse.StatusLineExactly | internal/minihttp/client.go:231-249 | every status line, by case: one of two versions, a space, and three digits that denote at least 100, with or without a reason; each other line has its error |
| HttpResponse.FramingAgrees | internal/minihttp/server.go:423-461 | server and client agree on when there is a body and how long it is (section 6.3 of RFC 9112) |
| HttpResponse.ResponseRoundTrip | internal/minihttp/client.go:225-289 | for every status from 200 to 999, HEAD or not, the client recovers status, header and framing, and the rest of the stream is exactly the body sent |
| HttpResponse.AcceptedExactly | internal/minihttp/client.go:225-289 | for every status from 200 to 999, HEAD or not, the client accepts a written response if and only if the written values of its header are valid and the header block keeps within the limit |
| WireRoundTrip.SendResponse | internal/minihttp/server.go:394-461 | end to end: from the handler's calls to the client's readers the body arrives exactly when one is allowed, and no byte more is consumed |
| ResponseFraming.HeadIsRead | internal/minihttp/client.go:225-289 | for any server: status line in either version and any fields are read, and the framing is that of the fields that arrive |
| ResponseFraming.InterimIsSkipped | internal/minihttp/client.go:203-223 | any number of interim responses before the final one is skipped |
| ResponseFraming.ChunkedFraming | internal/minihttp/client.go:262-271 | a first Transfer-Encoding of `chunked` in any letter case, with white space around it, makes a chunked body |
| ResponseFraming.PlainFraming | internal/minihttp/client.go:273-287 | without a coding, one valid length makes a body of that length, none a body up to the end of the connection, and several or invalid ones an error |
| ResponseFraming.ReadBody | internal/minihttp/client.go:262-287 | each framing is read by the reader it calls for |
| ResponseFraming.ReadToEnd | internal/minihttp/client.go:286 | reading the connection to its end yields everything left |
| ResponseFraming.ReceiveResponse | internal/minihttp/client.go:203-289 | a final response and its body through one buffered reader, for every buffer size |
| ResponseFraming.ReceiveChunked | internal/minihttp/client.go:269-271 | end to end: after any interim responses, a chunked response of any server, in any chunks, is returned with its whole body and a clean end, and what follows is left |
| ResponseFraming.ReceivePlain | internal/minihttp/client.go:273-287 | end to end: a response with a length yields exactly so many bytes, one without the rest of the stream |
| ResponseFraming.ReceiveNothing | internal/minihttp/client.go:262-268 | end to end: behind an answer to HEAD, 204 or 304 nothing is read, whatever its fields say |
| Bodies.BodyReader.Read | internal/minihttp/wire.go:163-184 | each read takes the next bytes and never past the body; a clean end only when all of it was read |
| Bodies.BodyReader.ReadAll | internal/minihttp/wire.go:158-184 | for all buffer sizes and short reads, exactly the declared bytes, or an error when the stream is shorter |
| Bodies.MaxBytesReader.Read | internal/minihttp/request.go:264-291 | each read takes the next bytes off what is still to come; an error comes at its end and stays |
| Bodies.MaxBytesReader.ReadAll | internal/minihttp/request.go:243-291 | exactly the first min(limit, n) bytes, and the size error exactly when n exceeds the limit |
| Chunked.ChunkedReader.ExpectCrlf | internal/minihttp/wire.go:241-252 | an empty line must follow the data of a chunk |
| Chunked.ChunkedReader.NextChunkHeader | internal/minihttp/wire.go:254-285 | the next size, or the end with its trailer |
| Chunked.ChunkedReader.Read | internal/minihttp/wire.go:198-239 | for every buffer, the next decoded bytes are taken off what the input decodes to; errors come at its end and stay |
| Chunked.ChunkedReader.ReadAll | internal/minihttp/wire.go:187-285 | reading to the end through buffers of any sizes yields what the input decodes to |
| ChunkedRoundTrip.ChunkLineIsRead | internal/minihttp/wire.go:254-275 | a size in hexadecimal is read as that size, whatever extension follows it, also with white space before the semicolon (section 7.1.1 of RFC 9112) |
| ChunkedRoundTrip.SpelledValue | internal/minihttp/wire.go:261-270 | digits that spell a number in base 16, in any letter case and with any leading zeros, have that value |
| ChunkedRoundTrip.ChunkSizeExactly | internal/minihttp/wire.go:254-275 | a chunk line has a size exactly if its text before the first semicolon, white space aside, spells that size in at most fifteen digits |
| ChunkedRoundTrip.TrailerIsRead | internal/minihttp/wire.go:277-285 | trailer fields are consumed up to the blank line |
| ChunkedRoundTrip.DecodesEncoding | internal/minihttp/wire.go:187-285 | every split of a body into chunks, with any extensions and trailer, decodes to the body, ends cleanly, and consumes exactly the encoding (section 7.1 of RFC 9112) |
| ChunkedRoundTrip.DecodeStable | internal/minihttp/wire.go:198-293 | a clean end does not depend on what follows it |
| ChunkedRoundTrip.TruncationIsNoticed | internal/minihttp/wire.go:287-293 | no strict prefix of an encoding ends cleanly |
| WireRoundTrip.SendChunks | internal/minihttp/wire.go:187-285 | end to end through the reader: the body, a clean end, and the bytes that follow untouched |
| WireRoundTrip.SendCutChunks | internal/minihttp/wire.go:287-293 | end to end through the reader: a message cut off anywhere never ends cleanly |
| ServerLifecycle.StepKeepsInv | internal/minihttp/server.go:42-181 | every step of the accept loop, a goroutine, Shutdown or Close keeps slots, wait group and connection map in line with the goroutines |
| ServerLifecycle.RunKeepsInv | internal/minihttp/server.go:42-181 | every interleaving of these steps does |
| ServerLifecycle.AtMostSixtyFour | internal/minihttp/server.go:59-113 | in every reachable state at most 64 connections are inside `serveConn` |
| ServerLifecycle.ConnsBeyondSlots | internal/minihttp/server.go:88-112 | the connection map differs from the slots by exactly the goroutines that freed their slot and did not unregister yet |
| ServerLifecycle.ConnsMayExceedSlots | internal/minihttp/server.go:88-112 | for every number, a run that ends with that many registered connections and no slot taken: the map is not bounded at all |
| ServerLifecycle.NothingAddedAfterClosed | internal/minihttp/server.go:86-97 | once `closed` is set no connection is registered and no goroutine starts that was not on its way |
| ServerLifecycle.DrainedForever | internal/minihttp/server.go:134-162 | once the wait group of a closed server is empty, every goroutine has ended and none ever starts |
| ServerLifecycle.NilMeansQuiet | internal/minihttp/server.go:134-162 | after Shutdown or Close returned nil, in every continuation no handler runs or starts |
| ServerLifecycle.SparedIsNeverShut | internal/minihttp/server.go:140-148 | Shutdown never closes a connection it saw as started |
| ServerLifecycle.RunningIsNeverShut | internal/minihttp/server.go:134-162 | Shutdown never closes the connection of a handler that was running when it began, for every interleaving |
| ServerLifecycle.ScanIsComplete | internal/minihttp/server.go:134-181 | a finished scan has closed every registered connection, except those Shutdown saw as started; Close spares none |
| ServerLifecycle.ServesOn | internal/minihttp/server.go:59-82 | only a stop or an accept error that is no timeout ends the accept loop, for every interleaving; a full server goes on |
| ServerLifecycle.ClosedAcceptsNone | internal/minihttp/server.go:42-50 | a Serve that begins on a closed server accepts no connection |
| ServerLifecycle.CloseNeverExpires | internal/minihttp/server.go:164-181 | Close waits as long as it takes, in every continuation |
| HostRecords.ParseRecords | internal/arednhosts/parser.go:18-78 | the loops over records and lines compute the sections line by line |
| HostRecords.ParseConcat | internal/arednhosts/parser.go:18-78 | parsing is a homomorphism: the sections of two lists of records are those of the one and then those of the other |
| HostRecords.LastSection | internal/arednhosts/parser.go:30-73 | entries go to the nearest preceding header of their record, and nowhere if that header is invalid |
| HostRecords.NoHeaderNoSection | internal/arednhosts/parser.go:48-50 | lines before any header are dropped |
| HostRecords.LineDoes | internal/arednhosts/parser.go:24-74 | what a line does, white space aside: nothing when blank; a header begins a section, or none without an address; any other line is for the open section |
| HostRecords.EntryOnLine | internal/arednhosts/parser.go:52-73 | an entry is an address, white space, a name, and anything after it |
| HostRecords.NoEntryOnLine | internal/arednhosts/parser.go:52-55 | a line with one word or none is no entry |
| HostRecords.HeaderOnLine | internal/arednhosts/parser.go:80-98 | a header is an address between two pairs of hashes, with or without white space around it |
| Resolver.ParseHostRecords | internal/arednsource/resolver.go:185-223 | the loop with its continue picks for each section the name of the first entry at the originator that can own it |
| Resolver.ExactHostAttribution | internal/arednsource/resolver.go:66-98 | the early exit gives the verdict over all candidates |
| Resolver.RouteAttribution | internal/arednsource/resolver.go:100-131 | the early exit gives the verdict over all owners of the route |
| Resolver.ExactIsSummary | internal/arednsource/resolver.go:66-98 | the exact verdict depends only on the set of candidates: none, a single one, or several |
| Resolver.OwnersIsSummary | internal/arednsource/resolver.go:100-131 | the route verdict depends only on the set of nodes that own a LAN name in the route |
| Resolver.LongestRoute | internal/arednsource/resolver.go:133-161 | the result contains the source, is the destination of some line, and no such destination is longer |
| Resolver.ScanStops | internal/arednsource/resolver.go:139-141 | lines are scanned up to the first of at least 64 KiB |
| Resolver.FoldIgnoresCase | internal/arednsource/resolver.go:225-230 | ASCII names are compared letter case aside |
| Resolver.MaskedSameMembers | internal/arednsource/resolver.go:163-183 | masking a prefix does not change which addresses it contains (section 5.1 of RFC 4632) |
| Resolver.DestinationIsMasked | internal/arednsource/resolver.go:163-183 | a destination that contains the source is determined by its length |
| Resolver.LongestIsUnique | internal/arednsource/resolver.go:133-161 | the longest route does not depend on the order of the lines or on duplicates |
| Resolver.Resolve | internal/arednsource/resolver.go:34-64 | exact match first, then the longest route, then its owners, with each error in its place |
| Resolver.ResolutionIsUnordered | internal/arednsource/resolver.go:34-64 | the answer is determined and depends only on which route lines and which records there are |
| Resolver.AmbiguousExactly | internal/arednsource/resolver.go:34-131 | ambiguity is reported exactly if two exact candidates differ or, without any, two nodes own a LAN name inside the longest route |
| Resolver.ContainsLeadingBits | internal/arednsource/resolver.go:133-161 | a prefix contains exactly the addresses that have its leading bits |
| Resolver.DestinationOnLine | internal/arednsource/resolver.go:142-183 | the first word of a line is its destination: none for the default route, the addresses of a prefix, or a single address |
| Resolver.NodeIsFirst | internal/arednsource/resolver.go:203-213 | the node of a section is the name of the first entry at the originator that is a target other than `all` |
| Resolver.InterfaceNames | internal/arednsource/resolver.go:232-249 | an infrastructure name begins with one of four prefixes and ends in the mesh domain |
| Resolver.ExactAnswer | internal/arednsource/resolver.go:66-98 | with entries at the source: the node of their section and the host they name if they agree, none for the originator itself or an infrastructure name, and ambiguity otherwise |
| Resolver.RouteAnswer | internal/arednsource/resolver.go:100-131 | without entries at the source: a node and no host exactly if it alone owns a LAN name inside the longest route, nobody exactly if there is no route or no owner |
| MeshNodes.FirstNode | internal/arednnodes/hosts.go:20-39 | the inner loop with its break finds the one name a section is listed under |
| MeshNodes.NodesFromHostRecords | internal/arednnodes/hosts.go:16-50 | the sorted names without repetition of all sections |
| MeshNodes.ListedIsAttributed | internal/arednnodes/hosts.go:20-39 | the two loops over sections agree: a name is listed exactly if it is the lower-cased node of some section that attribution uses |
| MeshNodes.NodeIsListed | internal/arednnodes/hosts.go:20-39 | every section with a node is listed under a valid target other than `all` |
| Paths.CleanPathIsCanonical | internal/minihttp/mux.go:188-204 | the cleaned path is canonical for every string |
| Paths.UnchangedExactlyWhenCanonical | internal/minihttp/mux.go:188-204 | exactly the canonical paths are left alone |
| Paths.CleanPathIdempotent | internal/minihttp/mux.go:188-204 | cleaning twice is cleaning once, for every string |
| Paths.CleanPathCleansParts | internal/minihttp/mux.go:188-204 | clean paths stay, a first slash is added, empty parts and `.` go, `..` takes the part before it along and vanishes at the root, and a final slash stays |
| Paths.CleanPathIsDetermined | internal/minihttp/mux.go:188-204 | these laws fix the result on every string: any function that obeys them is this one |
| Mux.ServeMux.Handle | internal/minihttp/mux.go:42-82 | appends the parsed route, or refuses a pattern without slash or without handler |
| Mux.Matches | internal/minihttp/mux.go:149-186 | fits exactly if the number of parts is right and every part decodes to its literal or to something; a wildcard has the text of its last segment |
| Mux.ServeMux.Match | internal/minihttp/mux.go:124-147 | the first fitting route of maximum score, with its values, or none exactly if none fits |
| Mux.ServeMux.ServeHttp | internal/minihttp/mux.go:84-122 | a redirect for unclean paths, otherwise the best route, the redirect to a registered subtree root, or not found |
| Mux.BestIsUnique | internal/minihttp/mux.go:124-147 | the choice is determined |
| Mux.ExactBeatsSubtree | internal/minihttp/mux.go:63-73 | with at most 101 wildcards, however many literals, an exact pattern beats every subtree pattern that fits the same path |
| Mux.ExactLoses | internal/minihttp/mux.go:63-73 | every exact pattern with more wildcards, whatever its parts, loses to some subtree pattern on some path that both fit |
| Mux.ExactWinsExactly | internal/minihttp/mux.go:63-73 | for every exact pattern: it beats every subtree pattern on every path that both fit if and only if it has at most 101 wildcards |
| Mux.SubtreeIsNotBest | internal/minihttp/mux.go:124-147 | in every table, no subtree route is chosen while an exact route with at most 101 wildcards fits |
| Mux.LiteralsDecide | internal/minihttp/mux.go:63-73 | of two exact patterns that fit, the one with more literals wins |
| Mux.PatternOfParts | internal/minihttp/mux.go:42-61 | a pattern joined from any non-empty parts without slashes has them as its segments, and is a subtree exactly with a slash at its end |
| Mux.PatternFits | internal/minihttp/mux.go:149-186 | a pattern of any parts fits exactly the paths with as many parts, each of which its own fits: a wildcard any text but the empty one; with a final slash, the longer paths that begin so |
| Mux.RootFits | internal/minihttp/mux.go:149-156 | the pattern of a single slash fits every path |
| Mux.InnerSubtreeWins | internal/minihttp/mux.go:63-73 | of two subtrees one inside the other the inner one wins, and every subtree wins over the root |
| Mux.LiteralRouteFits | internal/minihttp/mux.go:149-186 | an exact pattern without wildcards fits exactly the paths whose parts decode to its own |
| Mux.LocationKeepsPath | internal/minihttp/mux.go:223-292 | the location sent for a clean path keeps that path exactly if it is printable ASCII without a question mark; the query follows, escaped |
| Mux.RedirectLeads | internal/minihttp/mux.go:84-122 | a redirect leads to another, canonical path: the cleaned one or, from a clean path, the one with a slash |
| Mux.RedirectsByTheLaws | internal/minihttp/mux.go:84-97 | an unclean path is redirected to the path that the laws of cleaning give, with the query behind it |
| Mux.EscapeIsUndone | internal/minihttp/mux.go:277-292 | escaping leaves only printable ASCII, and decoding gives the text back |
| Mux.AtMostTwoRedirects | internal/minihttp/mux.go:84-122 | following redirects from a path that locations keep stops after at most two, for any routes |
| Mux.SubtreeRootRedirect | internal/minihttp/mux.go:98-121 | for every table and every clean path for which the path with a slash is registered: the redirect to it happens exactly if the best fitting route is a subtree with another pattern, not found exactly if no route fits, and otherwise the best route answers |
| Mux.RootDoesNotFit | internal/minihttp/mux.go:149-156 | the root of the subtree itself does not fit the path without the slash |
| Mux.SubtreeAloneIsMissing | internal/minihttp/mux.go:104-115 | a path of any length whose subtree root is the only route is not found rather than redirected, against the comment there |
| ControlProtocol.ValidatedRequest | internal/localcontrol/protocol.go:115-313 | what a validated request carries: exactly the fields of its operation, and on every mutation, and nowhere else, an audit that names an administrator |
| ControlProtocol.ValidAuditNamesAdmin | internal/localcontrol/protocol.go:255-370 | an audit is valid exactly if its role is `admin`, its node is there, its address is canonical, a host comes with a node, and its texts keep within 128, 255 and 255 bytes, are trimmed and free of control and format characters |
| ControlProtocol.AcceptedExactly | internal/localcontrol/protocol.go:115-253 | a request is accepted exactly if its version is 2, it carries exactly the fields of one of the eight operations, and its audit names an administrator; each refusal has its error |
| ControlProtocol.ReadRequest | internal/localcontrol/server.go:294-334 | with its limited reader, exactly the bytes before the first newline if they are at most 16 KiB, and each error in its case |
| ControlProtocol.ArrivalIsChecked | internal/localcontrol/protocol.go:73-113 | an accepted request passed the validation, and a refused one met the error it is refused for |
| ControlProtocol.ArrivesExactly | internal/localcontrol/server.go:245-262 | by the bytes received: accepted exactly if the first line is of at most 16 KiB, is one JSON value of the right form, and has the version, fields and audit it needs |
| ControlServer.Settings.Replace | internal/appconfig/manager.go:30-54 | the settings change exactly on success and on uncertain durability |
| ControlServer.Server.Fail | internal/localcontrol/results.go:156-201 | a store error has a code of its own or, for a failed step, one of two |
| ControlServer.ProtocolCodes | internal/localcontrol/results.go:156-167 | the codes of requests that are refused before dispatch |
| ControlServer.StoreCodes | internal/localcontrol/results.go:156-201 | each store error has a code that no other error has, but for a failed step, which has one of two |
| ControlServer.WriteRefused | internal/localcontrol/dispatch.go:98-117 | the code of a write by what is under the name: irregular, oversized and legacy entries are refused, nothing and managed alerts are not |
| ControlServer.ConvertRefused | internal/localcontrol/dispatch.go:119-140 | the code of a conversion by what is under the name: only legacy alerts are not refused |
| ControlServer.DecidedByStore | internal/localcontrol/dispatch.go:63-157 | with good arguments the response follows the outcome of the store |
| ControlServer.Server.DispatchList | internal/localcontrol/dispatch.go:54-61 | a listing is sorted and, undisturbed, reports every alert file; without failing calls it succeeds whenever the store is open |
| ControlServer.Server.DispatchRead | internal/localcontrol/dispatch.go:63-75 | a read answers for the parsed target and, undisturbed, with what its file holds; without failing calls the directory decides the response |
| ControlServer.Server.DispatchCreate | internal/localcontrol/dispatch.go:77-96 | one creation on the parsed target with the parsed message, or none; success needs it; undisturbed, the directory decides the response and its code |
| ControlServer.Server.DispatchWrite | internal/localcontrol/dispatch.go:98-117 | one replacement on the parsed target with the parsed message, or none; success needs it; undisturbed, the directory decides the response and its code |
| ControlServer.Server.DispatchConvert | internal/localcontrol/dispatch.go:119-140 | one conversion; on success the backup named in the response is there and holds the replaced bytes; undisturbed, the directories decide the response and its code |
| ControlServer.Server.DispatchDelete | internal/localcontrol/dispatch.go:142-157 | one removal; on success the backup named in the response is there and holds the removed bytes; undisturbed, the directories decide the response and its code |
| ControlServer.Server.Dispatch | internal/localcontrol/dispatch.go:23-52 | every request changes alerts by at most the one step it asks for; a success reports the parsed target and the backup of that step; undisturbed, the directories decide every response |
| ControlServer.Server.DispatchAny | internal/localcontrol/settings_dispatch.go:14-50 | as before, with the settings changed exactly when the response says so, and read as they are |
| ControlServer.Server.WriteMutationAudit | internal/localcontrol/audit.go:44-130 | appends one line for a mutation and nothing otherwise |
| ControlServer.Server.WriteRejectedMutationAudit | internal/localcontrol/audit.go:12-42 | appends one line with the canonical target and a valid audit at most |
| ControlServer.Server.Answer | internal/localcontrol/server.go:245-280 | one connection: what arrived is what the bytes received decode to, and the audit line, the changes and the response belong to it; undisturbed, the directories decide the response |
| ControlServer.Server.HandleConnection | internal/localcontrol/server.go:231-292 | one more input and its exchange, or none when the deadline cannot be set; inputs, audit, directories and settings keep telling one history |
| ControlServer.Server.Serve | internal/localcontrol/server.go:135-151 | the accept loop answers every connection whose deadline can be set, in order, and keeps that history |
| ControlServer.OneLine | internal/localcontrol/server.go:245-280 | a decoded request to mutate has one line that describes it and its response; nothing else has any |
| ControlServer.OneLinePerMutation | internal/localcontrol/server.go:245-280 | over every run, the lines are those of the inputs that decode to a request to mutate, accepted or refused, one for each and in order, each describing what was sent and what was answered |
| ControlServer.ServerLinesDescribe | internal/localcontrol/server.go:135-151 | the same of the lines the server has written for the inputs it has received |
| ControlServer.AuditAccountsForEverything | internal/localcontrol/audit.go:44-130 | over every run, the audit lines in order account for exactly the changes of alerts, settings and backups in order; success is never claimed without the change, and only a failure met after publishing leaves a change behind |
| ControlServer.ServerIsAudited | internal/localcontrol/server.go:135-151 | so alerts, backups and settings change under the server only in audited steps, each by the operation its line names and with an audit that names an administrator; backups only for conversions and deletions |

## Left out

- Resolver.Resolve: a source that is not an IPv4 address goes straight to the empty answer, which is what the code arrives at because sections hold IPv4 addresses only; IPv6 prefixes are not modelled.
- HttpRequest.RequestRoundTrip: values come back with blanks trimmed at both ends, and names in canonical form.
- HttpResponse.ResponseRoundTrip: names that are no tokens are dropped by the writer; responses with values that stay invalid after line breaks became spaces are refused (`HttpResponse.AcceptedExactly`), so the round trip is about the others.
- Mux.AtMostTwoRedirects: the next request is taken to have the path of the location literally; clients decode `%` and cut `#`, which is not modelled.
- ControlServer.Server.Fail: whether a failed file-system step reported a missing file is an arbitrary choice, since the store model does not keep the cause of such failures.
- Mux.ServeMux.ServeHttp: the redirect's target is always rooted here, so `Redirect` to relative targets is not modelled.
- Disk.Disk.Open: what a link or a special file leads to is arbitrary, and after an outside edit every open file may have become anything, which is more than a real file system allows.
- ControlServer.Server.Answer: an audit line is a record of its fields; time stamp, quoting and layout of the text are not modelled.
- Locking of the store: its operations run one at a time, as its mutex makes them.
- The outside writer does not touch the backup directory, which the daemon requires to be private (`internal/alertstore/store.go:64-68`).
- Durability: syncing, closing and permission bits are steps that may fail and show in no directory.
- Texts of errors: wrapped file-system errors are one error before and one after publication.
- `openRoot`, runtime directory and socket checks, socket modes and ownership.
- Deadlines, dialing, panics of handlers, the short answers `rejectBusy` and `writeSimple`, more than one `Serve` call at a time, and a second listener.
- Forms, cookies, `NewRequestWithContext` and the client's checks before it sends.
- Requests to the HTTP server whose target is not in origin form: they are refused, and only the refusal is modelled.
- Running `ip route`, lines of its output beyond the scanner's limit in the order theorem, and zones of addresses.
- JSON: a request that decodes to some value is that value; responses are values too.
- `internal/webadmin`, `internal/cgibridge`, `internal/arednauth`, templates and packaging: the pages and handlers of the web administration, the bridge that passes CGI requests on to their server, the check of a login session against the router, and what is installed where.
- Storing of settings: `internal/appconfig` is the one step of replacing a configuration whose only property is its version.
