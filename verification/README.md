# A verified model of the Apache httpd 2.2.23 core

This project models the parts of the bundled Apache httpd 2.2.23 server core
that carry the most state, and proves what they are for. Everything is Dafny
4.11; `dafny verify dfyconfig.toml` checks the whole project.

**Network filters.** `Buckets`, `Senders`, `Gathering`, `OutputFilter`, `Ring`
and `InputFilter` model `server/core_filters.c`. The socket is driven by an
arbitrary schedule of short writes, `EAGAIN` and hard faults. The main result is
`OutputFilter.Serve`: for every sequence of calls, every mix of buckets and every
schedule, bytes come out in order and once each; nothing is lost while no call
fails; the wire is a prefix of what was passed in as long as nothing moves after
an `EAGAIN`; and after a hard fault the wire never changes. When faults move no
bytes, nothing is lost if and only if no call failed. Losing bytes at `EAGAIN`
is what the code does, and `OutputFilter.GapIff` says exactly when it shows: some
calls leave a gap on the wire if and only if a system call can move a byte after
another has reported `EAGAIN`. `FindGap` builds such calls for every schedule of
that kind and runs the filter on them. What a call keeps back is exact as well:
fewer than 8000 bytes that nothing forces out make no system call, over any number
of calls (`OutputFilter.RunQuiet`), and a file to send is kept back only at the end
of a response on a connection kept alive. `InputFilter.Converse` is the mirror
image for reading; an EOS bucket is given exactly at the end of the stream.

**Requests and responses.** `LineReader` and `LineBuffer` model the line reader
on its growing buffer, `HeaderText`, `HeaderSpec` and `HeaderParser` the header
loop with its doubling fold buffer, `ContentLength` the filter that announces a
length. Lines depend on the bytes and not on how filters cut them; a line sent with
CR LF or with LF is read as that line, and a header ends at the first line that is
one of these alone (`HeaderInput.HeaderCarried`, `ExactlyCarried`); headers are
those of a parser that first unfolds (RFC 2616, section 2.2) and then splits
(section 4.2), with an exact verdict for every input; an announced length is the
length of the whole body (section 4.4), and it is announced exactly when the body
need not be sent in parts. `LineFetch`, `FoldedInput` and `HeaderInput` put the
input filter under the line reader and the header loop, on a connection from which
anything may have been read before, with whatever failures: a folded line, and the
table of a header, are functions of the bytes the socket delivers, however they
arrive; reading fails only if a read then gives nothing or the stream has ended; a
folded line is taken to its end and an accepted header to its empty line, and no
further; and with a limit on the fields only a bounded number of bytes is read
before a header is complete or refused (`HeaderInput.LimitsHold`).

**Configuration.** `ConfigSpec` says what reading a file does to a list of
directives, `ConfigMeaning` proves that conditional containers are transparent,
`ConfigAccept` says exactly which files are accepted and what they then mean, and
`ConfigLinks`, `ConfigTree` and `ConfigWalk` prove that the pointer code builds and
walks exactly that tree. Names are the same if they differ in the case of letters
at most (`Basics.LowerIff`). A file is a sequence of lines: a plain directive, an
opening line, a closing line, or an opening line of `<IfModule>` or `<IfDefine>`
with the truth of its condition. `Options` models the option masks (as sets of
bits) and their merging; `CommandHash` the module list and the command table.

**Processes.** `Reclaim` models child reclamation against an arbitrary clock and
arbitrary process exits; `Listeners` the hand-over of listening sockets across a
restart.

`Basics` and `Flattening` hold what the other modules share.

Things the code does that a reader may not expect, each with a proof:

- `EAGAIN` during output drops data and the connection goes on
  (`OutputFilter.AgainLeavesGap`, `OutputFilter.GapIff`).
- A file is accepted although a conditional container that holds is never closed,
  and then anything inside it may be left open as well; it is read as if what is
  missing stood at its end. Nothing else that is not well nested is accepted
  (`ConfigAccept.AcceptedIff`, `ConfigAccept.MissingCloseUnnoticed`). Such a file
  cannot be cut off from what follows it (`ConfigAccept.SeparableIff`). Lines inside
  a container that is skipped are not checked for their closing bracket.
- In a section with an absolute option word after a signed one, nested sections
  may see other options than the words say. `Options.NestLaw` is the law of every
  bit over any nest; in a given nest the last word wins exactly when the last
  section that decides about the bit is coherent or is the innermost one
  (`Options.LastWordWinsHere`).
- `IncludesNOEXEC` in a section is undone by the next section if exec had been
  added by name (`Options.ExecStaysOff`, `Options.ExecComesBack`);
  `Options.ExecLaw` is the law of that bit over any nest.
- Double inclusion is meant to be accepted (`server/config.c:622-625`), but adding
  a listed module again puts its commands into the table a second time, and adding
  the bottom module again closes the list to a cycle. List and table go on to
  agree exactly when it is not the bottom module and has no commands
  (`CommandHash.Registry.AddModule`).
- The test for a full buffer in the folding loop of the line reader never
  succeeds (`LineBuffer.ReadFoldedLine`).

Assumptions about callers and the libraries, stated as preconditions or built
into the model: EOS and EOC close a brigade; a send moves at least one byte or
fails; a file bucket handed to sendfile is as long as its file range says; reading
a bucket never changes its content; a module that is added is in the list or in no
list; the clock advances at least as long as a sleep lasts.

## Model

| member | source | states |
|---|---|---|
| `Buckets.ReadKeepsContent` | apps/httpd-2.2.23/srclib/apr-util/buckets/apr_buckets_file.c:75-155 | a read leaves the bytes as they were, puts the first bucket in memory and never adds work |
| `Buckets.ReadInPlace` | apps/httpd-2.2.23/server/core_filters.c:630-639 | reading the first bucket of a brigade keeps the brigade's bytes and never adds work |
| `Buckets.BrigadeWriteAppends` | apps/httpd-2.2.23/srclib/apr-util/buckets/apr_brigade.c:416-468 | writing into a brigade appends the bytes, whether or not they fit in the last buffer |
| `Senders.SkipWritten` | apps/httpd-2.2.23/server/core_filters.c:330-344 | after a short write the adjusted iovecs spell exactly the unsent bytes |
| `Senders.WritevItAll` | apps/httpd-2.2.23/server/core_filters.c:308-350 | all bytes go out once on success, a prefix of the reported length on failure, and only the last call failed, with bytes left |
| `Senders.SkipFront` | apps/httpd-2.2.23/server/core_filters.c:396-410 | dropping bytes from header or trailer iovecs keeps the rest and hands back what exceeds them |
| `Senders.SkipSent` | apps/httpd-2.2.23/server/core_filters.c:393-440 | after a partial sendfile, headers, file range and trailers spell exactly the unsent bytes |
| `Senders.SendfileItAll` | apps/httpd-2.2.23/server/core_filters.c:359-442 | headers, file range and trailers go out exactly once, or a prefix of the reported length |
| `Senders.StreamFile` | apps/httpd-2.2.23/server/core_filters.c:480-501 | the file part of the emulation sends the range exactly once, or a prefix |
| `Senders.SendBuffer` | apps/httpd-2.2.23/server/core_filters.c:491-500 | a buffer goes out whole if and only if no call failed |
| `Senders.EmulateSendfile` | apps/httpd-2.2.23/server/core_filters.c:451-518 | meets the same specification as sendfile, through writev, read and write |
| `Senders.PushedThen` | apps/httpd-2.2.23/server/core_filters.c:465-515 | a complete push followed by another is a push of the concatenation |
| `Gathering.Batch.Add` | apps/httpd-2.2.23/server/core_filters.c:720-740 | a bucket becomes one iovec or trailer, within 16 of each, and the byte count stays exact |
| `Gathering.Batch.Restart` | apps/httpd-2.2.23/server/core_filters.c:688-696 | after a merge the batch is the one merged bucket, counted exactly |
| `Gathering.Batch.Send` | apps/httpd-2.2.23/server/core_filters.c:815-875 | what the batch spells is pushed to the socket by whichever routine applies |
| `Gathering.Coalesce` | apps/httpd-2.2.23/server/core_filters.c:655-716 | merging small buckets, an earlier merge reused or not, gives one heap bucket with their bytes |
| `Gathering.WalkTake` | apps/httpd-2.2.23/server/core_filters.c:590-624 | taking a bucket keeps what is taken and what is left equal to the brigade |
| `Gathering.TakeData` | apps/httpd-2.2.23/server/core_filters.c:640-741 | a data bucket is collected, the collected ones are merged, or the pass stops; in each case no byte moves out of order, and it does not stop in a brigade that a pass takes whole |
| `Gathering.VisitData` | apps/httpd-2.2.23/server/core_filters.c:625-743 | a step over a data bucket keeps batch and brigade in agreement, makes progress and leaves the file alone; it does not stop in a brigade that a pass takes whole; a read waits only while nothing is collected, and the next pass then waits at the pipe in front of it |
| `Gathering.VisitMark` | apps/httpd-2.2.23/server/core_filters.c:596-604 | the pass ends at a mark, and exactly what follows a flush is left for the next |
| `Gathering.VisitFile` | apps/httpd-2.2.23/server/core_filters.c:606-624 | a file of 256 bytes or more is taken as the file of the pass, unless there is one: then the pass stops before it |
| `Gathering.Visit` | apps/httpd-2.2.23/server/core_filters.c:590-743 | one step of the pass keeps batch and brigade in agreement and makes progress; in a brigade that a pass takes whole it stops at EOS only |
| `Gathering.Gather` | apps/httpd-2.2.23/server/core_filters.c:565-743 | after a pass, iovecs, file and trailers spell exactly the buckets taken, and these with the rest are the brigade; it takes whole every brigade of fewer than 8000 bytes without flush, EOC and pipe, with one big file at most and at most 16 pieces after it |
| `Gathering.RestNext` | apps/httpd-2.2.23/server/core_filters.c:590-740 | what is left of such a brigade after a bucket is such a rest again |
| `Ring.ChainSplit` | apps/httpd-2.2.23/srclib/apr/include/apr_ring.h:364-369 | what is unspliced and what remains are chains, linked where they met |
| `Ring.BrigadeMove` | apps/httpd-2.2.23/server/core_filters.c:86-99 | called with an empty ring and a bucket of the other ring, the pointer writes still move everything before that bucket |
| `OutputFilter.Settle` | apps/httpd-2.2.23/server/core_filters.c:770-805 | reading a brigade about to be set aside finds nothing left to read |
| `OutputFilter.Filter.constructor` | apps/httpd-2.2.23/server/core_filters.c:535-564 | a new connection has nothing deferred and nothing on the wire |
| `OutputFilter.Filter.Pass` | apps/httpd-2.2.23/server/core_filters.c:565-921 | a pass defers the whole brigade or pushes a front part of it; it defers every brigade of fewer than 8000 bytes without flush, EOC and pipe, with a file to send only at an EOS on a connection kept alive, and no file in any other case; what remains is less work, or the same with a blocking read next |
| `OutputFilter.Filter.Advance` | apps/httpd-2.2.23/server/core_filters.c:565-921 | after each pass the call is on its way to deliver what it was given, or has broken off as a failed call may |
| `OutputFilter.Filter.Drain` | apps/httpd-2.2.23/server/core_filters.c:565-921 | the passes of a call come to an end, with the data delivered or deferred, or broken off at a failure |
| `OutputFilter.Filter.Write` | apps/httpd-2.2.23/server/core_filters.c:535-924 | a call delivers deferred and new data in order, defers fewer than 8000 bytes and no mark, leaves nothing deferred after FLUSH or EOC, aborts exactly on a hard fault, and does nothing once aborted; less than 8000 bytes in all with nothing that forces them out are deferred without a system call, a file to send only at EOS on a connection kept alive |
| `OutputFilter.FaithfulStep` | apps/httpd-2.2.23/server/core_filters.c:752-813 | a delivered call keeps every promise about the connection so far |
| `OutputFilter.FaithfulAfterAbort` | apps/httpd-2.2.23/server/core_filters.c:546-549 | data passed after an abort changes nothing |
| `OutputFilter.SilencedStep` | apps/httpd-2.2.23/server/core_filters.c:902-917 | a call after an EAGAIN that moves nothing leaves the wire a prefix |
| `OutputFilter.FaithfulCall` | apps/httpd-2.2.23/server/core_filters.c:535-924 | any call, aborted before or not, keeps every promise about the connection |
| `OutputFilter.RunFaithful` | apps/httpd-2.2.23/server/core_filters.c:535-924 | every state of every run keeps the promises about the calls so far |
| `OutputFilter.RunQuiet` | apps/httpd-2.2.23/server/core_filters.c:745-813 | calls that pass fewer than 8000 bytes in all, with no flush, EOC, pipe or file of 256 bytes or more, make no system call and have all their bytes deferred |
| `OutputFilter.Serve` | apps/httpd-2.2.23/server/core_filters.c:535-924 | over any run: in order and once each, nothing lost while no call fails, something lost when one fails before moving bytes, a prefix while nothing moves after EAGAIN, aborted exactly after a hard fault, which is the last call; fewer than 8000 bytes that nothing forces out stay deferred, without a system call |
| `OutputFilter.AgainLeavesGap` | apps/httpd-2.2.23/server/core_filters.c:902-917 | two successful calls, an EAGAIN in the first: its byte is lost and the next follows on the wire |
| `OutputFilter.GapNeeds` | apps/httpd-2.2.23/server/core_filters.c:902-917 | a run whose wire is not a prefix of its data has an EAGAIN, then a call that moves bytes, and no hard fault in between or before |
| `OutputFilter.ByteCall` | apps/httpd-2.2.23/server/core_filters.c:599-604 | a flushed byte takes exactly one system call and goes out or is lost; it is never deferred |
| `OutputFilter.FileCallMoves` | apps/httpd-2.2.23/server/core_filters.c:606-624 | a file sent by sendfile puts its first byte on the wire whenever the system call moves any, even if it then fails |
| `OutputFilter.GapRun` | apps/httpd-2.2.23/server/core_filters.c:902-917 | where a byte can move after an EAGAIN, every run of certain calls leaves a gap |
| `OutputFilter.GapRunPossible` | apps/httpd-2.2.23/server/core_filters.c:902-917 | and there is such a run |
| `OutputFilter.GapIff` | apps/httpd-2.2.23/server/core_filters.c:902-917 | some calls leave a gap on the wire if and only if the schedule has an EAGAIN, then a call that moves bytes, and no hard fault before it |
| `OutputFilter.FindGap` | apps/httpd-2.2.23/server/core_filters.c:902-917 | for every such schedule the filter itself leaves the gap on calls that are computed |
| `InputFilter.Filter.ReadFirst` | apps/httpd-2.2.23/server/core_filters.c:246-257 | a bucket in memory is left as it is; the socket gives its next event, bytes followed by itself, an empty bucket at the end, or the failure |
| `InputFilter.Filter.Normalize` | apps/httpd-2.2.23/server/core_filters.c:64-84 | empty buckets go, bytes and the socket stay |
| `InputFilter.Filter.Prepare` | apps/httpd-2.2.23/server/core_filters.c:125-151 | the end of the connection is reported exactly when nothing is left |
| `InputFilter.Filter.TakeToLine` | apps/httpd-2.2.23/srclib/apr-util/buckets/apr_brigade.c:304-353 | a round takes bytes up to and with the first line feed, in order |
| `InputFilter.Filter.CollectOne` | apps/httpd-2.2.23/srclib/apr-util/buckets/apr_brigade.c:304-353 | what a round takes goes behind what was collected, which stays a line or the beginning of one |
| `InputFilter.Filter.SplitLine` | apps/httpd-2.2.23/srclib/apr-util/buckets/apr_brigade.c:304-353 | bytes up to and with the first line feed, or to the length limit, the end or a failed read |
| `InputFilter.Filter.GetLine` | apps/httpd-2.2.23/server/core_filters.c:153-164 | the next bytes, with a line feed at most at their end; it stops short only at the length limit, at the end or at a failed read; end of file is reported exactly when nothing is left; it comes back empty or fails only when all that arrived was handed out and a read of this call gave nothing, or the stream has ended |
| `InputFilter.Filter.SetAside` | apps/httpd-2.2.23/server/core_filters.c:276-282 | partition and move split the brigade without losing a byte |
| `InputFilter.Filter.HandOver` | apps/httpd-2.2.23/server/core_filters.c:276-303 | bytes are handed over for good or as a copy, and the rest is put back |
| `InputFilter.Filter.ReadBytes` | apps/httpd-2.2.23/server/core_filters.c:238-306 | at most the number asked for; what was read ahead if there is any, otherwise what the next event of the socket gives; consumed exactly when not speculative, and tmpbb empty again; the reply is an EOS bucket, and nothing else, exactly if a blocking read that takes finds nothing ahead and the end of the stream, and then all that was received has been handed out |
| `InputFilter.Converse` | apps/httpd-2.2.23/server/core_filters.c:101-306 | over any sequence of requests, bytes given out and bytes read ahead are what the socket delivered, and no answer is empty while the peer goes on sending |
| `InputFilter.PeekThenRead` | apps/httpd-2.2.23/server/core_filters.c:284-303 | looking ahead shows exactly what the same read then takes |
| `LineReader.GatherByBytes` | apps/httpd-2.2.23/server/protocol.c:229-325 | a line depends on the bytes only; there is no space exactly when the line with its feed exceeds n |
| `LineReader.PeekByBytes` | apps/httpd-2.2.23/server/protocol.c:342-372 | looking ahead shows the next byte, and nothing at the end |
| `LineReader.FoldByBytes` | apps/httpd-2.2.23/server/protocol.c:342-435 | the folding loop depends on the bytes only; at the end of the stream the line is complete |
| `LineReader.ChunkingIrrelevant` | apps/httpd-2.2.23/server/protocol.c:210-439 | a folded line is the folded line of the bytes, however filters cut them |
| `LineReader.StripIff` | apps/httpd-2.2.23/server/protocol.c:326-332 | a line is what is left when CR LF, or LF after no CR, is cut off, and nothing else |
| `LineReader.LineCarried` | apps/httpd-2.2.23/server/protocol.c:319-332 | a line sent with CR LF or LF is read as that line, if the bytes fit |
| `LineReader.UnfoldCarried` | apps/httpd-2.2.23/server/protocol.c:342-435 | lines that start with a space or tab are appended without their ends |
| `LineReader.FoldedCarried` | apps/httpd-2.2.23/server/protocol.c:210-439 | a line and the lines after it that start with a space or tab, each sent with CR LF or LF, are read as one line, and what follows is left |
| `LineReader.EosEndsLine` | apps/httpd-2.2.23/server/protocol.c:334-342 | after EOS nothing more is looked at, even if it would continue the line |
| `LineReader.Fold` | apps/httpd-2.2.23/server/protocol.c:342-435 | continuation lines extend the line, which stays shorter than n |
| `LineBuffer.Grow` | apps/httpd-2.2.23/server/protocol.c:283-308 | the buffer has room for the next bytes and keeps the ones before; it is a new one only if the bytes do not fit, and then at least twice as long |
| `LineBuffer.Append` | apps/httpd-2.2.23/server/protocol.c:268-319 | the bytes are added inside the allocation, and a caller's buffer is not touched before its base |
| `LineBuffer.FillBuffer` | apps/httpd-2.2.23/server/protocol.c:241-319 | the bucket loop fills the buffer as the reference fills a sequence |
| `LineBuffer.Terminate` | apps/httpd-2.2.23/server/protocol.c:326-332 | the line end is cut, two bytes if a CR comes before the LF and one otherwise, and the NUL is inside the allocation |
| `LineBuffer.Round` | apps/httpd-2.2.23/server/protocol.c:229-325 | one brigade more, one step of the reference reader |
| `LineBuffer.ReadLine` | apps/httpd-2.2.23/server/protocol.c:210-337 | the buffer holds the reference line, shorter than n; on no space with a buffer of its own, the buffer exists exactly when bytes were read; what does not fit is terminated all the same |
| `LineBuffer.Join` | apps/httpd-2.2.23/server/protocol.c:412-425 | line and continuation are joined in a new buffer with its NUL |
| `LineBuffer.JoinedInPlace` | apps/httpd-2.2.23/server/protocol.c:395-402 | a continuation read behind the line in a caller's buffer makes one string |
| `LineBuffer.Continue` | apps/httpd-2.2.23/server/protocol.c:381-431 | reading one continuation is one step of the reference folding |
| `LineBuffer.ReadFoldedLine` | apps/httpd-2.2.23/server/protocol.c:210-439 | folding reads the reference folded line, and the line is always shorter than n when a continuation is looked for |
| `FoldedInput.FoldMore` | apps/httpd-2.2.23/server/protocol.c:342-435 | what follows a folded line that is all there makes no difference to it |
| `FoldedInput.NextFolds` | apps/httpd-2.2.23/server/protocol.c:381-431 | reading on after a continuation line is reading on after the joined line |
| `FoldedInput.ReadFoldedSnoc` | apps/httpd-2.2.23/server/protocol.c:342-380 | a reply that stops the reading makes a folded line fail exactly where more of it was asked for |
| `FoldedInput.PeekByte` | apps/httpd-2.2.23/server/core_filters.c:246-303 | a blocking look ahead shows the next byte and takes nothing; it shows nothing only if its read gave nothing or the stream has ended |
| `FoldedInput.FoldNext` | apps/httpd-2.2.23/server/protocol.c:342-435 | one look ahead ends the line, or takes a continuation into it |
| `FoldedInput.FetchFolded` | apps/httpd-2.2.23/server/protocol.c:342-435 | asking for lines and looking ahead between them takes exactly the lines of the folded line |
| `FoldedInput.ArrivedOutcome` | apps/httpd-2.2.23/server/protocol.c:342-435 | if the folded line has arrived, the result is that of the stream |
| `FoldedInput.ReadFoldedInput` | apps/httpd-2.2.23/server/protocol.c:210-439 | a folded line from the socket into a buffer, whatever was read before: it is that of the bytes taken, none of which is left over, and that of the stream if it arrives whole with the byte behind it, read ahead or however cut; it fails only if a read for it gave nothing or the stream has ended |
| `HeaderText.CStr` | apps/httpd-2.2.23/server/protocol.c:790-829 | a C string is the prefix up to the first NUL |
| `HeaderText.ColonAt` | apps/httpd-2.2.23/server/protocol.c:790-806 | the first colon of the C string, and -1 only if it has none |
| `HeaderText.SplitIff` | apps/httpd-2.2.23/server/protocol.c:790-806 | a field is split exactly when its C string has a colon |
| `HeaderText.SplitMeaning` | apps/httpd-2.2.23/server/protocol.c:808-829 | splitting takes any field apart at its first colon, with nothing but blanks around name and text, none left at the end of the name unless it is the first byte, none left around the text; the value is the text up to its first NUL |
| `HeaderText.SplitUnique` | apps/httpd-2.2.23/server/protocol.c:808-829 | there is only one such way to take a field apart |
| `HeaderSpec.UnfoldSnoc` | apps/httpd-2.2.23/server/protocol.c:735-777 | reading one more line extends the unfolded fields by it |
| `HeaderSpec.FoldsIff` | apps/httpd-2.2.23/server/protocol.c:736 | a line continues the one before it exactly if it starts with a space or a tab |
| `HeaderSpec.UnfoldConserves` | apps/httpd-2.2.23/server/protocol.c:735-777 | unfolding neither loses nor adds a byte |
| `HeaderSpec.PassedBefore` | apps/httpd-2.2.23/server/protocol.c:743-806 | a header within its limits was within them after every line |
| `HeaderSpec.Rejected` | apps/httpd-2.2.23/server/protocol.c:743-806 | what is refused in the middle is refused by the verdict on the whole header |
| `HeaderSpec.Continued` | apps/httpd-2.2.23/server/protocol.c:736-777 | a continuation is accepted exactly when the folded field stays below the limit |
| `HeaderSpec.NextField` | apps/httpd-2.2.23/server/protocol.c:779-839 | a new line completes a field exactly when the count is within its limit and the field has a colon |
| `HeaderSpec.LastField` | apps/httpd-2.2.23/server/protocol.c:841-844 | the empty line ends the header with all fields split, or it is refused |
| `HeaderParser.AppendFold` | apps/httpd-2.2.23/server/protocol.c:765-777 | every copy fits, because the counted allocation is the buffer's; the buffer then holds both texts; the buffer is a new one only if the line does not fit, and then at least twice as long |
| `HeaderParser.FindColon` | apps/httpd-2.2.23/server/protocol.c:790 | strchr stops at the first colon of the C string |
| `HeaderParser.TrimBack` | apps/httpd-2.2.23/server/protocol.c:816-827 | trailing blanks become NUL, the first byte stays |
| `HeaderParser.FindValue` | apps/httpd-2.2.23/server/protocol.c:812-814 | the value starts after the blanks behind the colon |
| `HeaderParser.SplitField` | apps/httpd-2.2.23/server/protocol.c:790-827 | the two C strings left in the buffer are the name and the value |
| `HeaderParser.AddField` | apps/httpd-2.2.23/server/protocol.c:779-836 | a field is added to the table without touching the entries before it |
| `HeaderParser.Take` | apps/httpd-2.2.23/server/protocol.c:735-853 | a line after the first is folded, or completes a field and starts another in memory of its own |
| `HeaderParser.GetMimeHeaders` | apps/httpd-2.2.23/server/protocol.c:683-857 | the answer is the verdict on the unfolded header, and an accepted header's table holds, at the end, exactly its pairs in order |
| `LineFetch.GatherSnoc` | apps/httpd-2.2.23/server/protocol.c:229-240 | a reply that stops the reader changes a line only if the line was not complete |
| `HeaderInput.ReadsMore` | apps/httpd-2.2.23/server/protocol.c:841-853 | what follows a header makes no difference to its lines |
| `HeaderInput.EnoughMore` | apps/httpd-2.2.23/server/protocol.c:736-853 | once there is enough to end a header or refuse it, more bytes do not change that |
| `HeaderInput.RefusedVerdict` | apps/httpd-2.2.23/server/protocol.c:736-806 | a header refused before its end would be refused whatever follows |
| `HeaderInput.LimitsHold` | apps/httpd-2.2.23/server/protocol.c:736-806 | with a limit on the fields, at most 3 (fields + 1) (size + 1) + size + 2 bytes of a header are read before it is complete or refused |
| `HeaderInput.CallsByBytes` | apps/httpd-2.2.23/server/protocol.c:694-731 | with enough brigades the parser sees the lines of their bytes |
| `HeaderInput.CallsStop` | apps/httpd-2.2.23/server/protocol.c:700-731 | when the filters give up too early, the parser sees the lines so far and then the failure, as a timeout exactly if it is one |
| `HeaderInput.ReadCalls` | apps/httpd-2.2.23/server/protocol.c:694-731 | line by line, each in a buffer of its own, the parser is given the lines of the brigades |
| `HeaderInput.NotBeyondMore` | apps/httpd-2.2.23/server/core_filters.c:153-164 | because brigades end at line feeds, nothing beyond the empty line is read |
| `HeaderInput.HeaderCarried` | apps/httpd-2.2.23/server/protocol.c:694-853 | lines sent with CR LF or LF and then CR LF or LF alone are a header of exactly these lines, whatever follows |
| `HeaderInput.ExactlyCarried` | apps/httpd-2.2.23/server/protocol.c:694-853 | every header read to its end is lines sent so and then CR LF or LF alone |
| `LineFetch.NeverArrived` | apps/httpd-2.2.23/server/core_filters.c:153-164 | if the filter gives up with the reader short, what it needs had not arrived: it was neither read ahead nor given by reads since then that all gave something |
| `LineFetch.FetchOne` | apps/httpd-2.2.23/server/core_filters.c:153-164 | one request more continues the text, or ends it because a read for it gave nothing or the stream has ended |
| `LineFetch.Fetch` | apps/httpd-2.2.23/server/protocol.c:229-240 | asking the filter as long as a reader wants gives brigades that spell the stream from there on, all of which were needed, up to the first reply that stops it; it stops short only if a read for it gave nothing or the stream has ended, never of what has arrived whole, and what is taken is exactly what is spelled |
| `HeaderInput.FetchHeader` | apps/httpd-2.2.23/server/protocol.c:229-240 | from any state of the connection: brigades that spell what follows, until the header is complete or refused or the filter gives up; with a limit on the fields it ends even if the peer never stops |
| `HeaderInput.WholeHeader` | apps/httpd-2.2.23/server/protocol.c:694-857 | what the parser sees of a text gives the answer to a whole header of the same stream, refused early or not |
| `HeaderInput.ReadHeader` | apps/httpd-2.2.23/server/protocol.c:683-857 | from the socket to the table, whatever was read before: the parser sees the lines of the bytes read, and behind them a failure exactly if these are not a whole header, as a timeout exactly if the last read timed out, and only if a read for the header gave nothing or the stream has ended; a header that arrives whole, read ahead or however cut, is answered with the verdict on its bytes, and its table holds their fields; an accepted header is taken from the connection to its empty line and no further |
| `ContentLength.Filter.CountOne` | apps/httpd-2.2.23/server/protocol.c:1342-1345 | counting a bucket moves it once |
| `ContentLength.Filter.SendBefore` | apps/httpd-2.2.23/server/protocol.c:1317-1331 | what comes before a pipe is forwarded with a FLUSH behind it, and it was counted |
| `ContentLength.Filter.StepPipe` | apps/httpd-2.2.23/server/protocol.c:1299-1341 | a pipe is counted as far as it can be read, or what precedes it is sent and the next read blocks |
| `ContentLength.Filter.CountAll` | apps/httpd-2.2.23/server/protocol.c:1293-1346 | the loop ends at EOS or with the brigade, never counts twice, and sends early exactly when a piece after the first is not there at once |
| `ContentLength.Filter.Finish` | apps/httpd-2.2.23/server/protocol.c:1348-1372 | the length is set if that is possible, and the last brigade passed on ends as the given one does |
| `ContentLength.StepsEnd` | apps/httpd-2.2.23/server/protocol.c:1299-1331 | nothing is sent early exactly when every piece of the brigade but the first is there when it is asked for |
| `ContentLength.Filter.Write` | apps/httpd-2.2.23/server/protocol.c:1275-1372 | bytes are forwarded unchanged and counted; a length is set exactly when nothing was sent before, the brigade ends the body, no piece of it but the first has to be waited for, and it is not an empty answer with a length to a HEAD; brigades sent early end in FLUSH and have no EOS, the last one ends in EOS exactly if the given one does, and without pipes the brigade is passed on as it came |
| `ContentLength.Respond` | apps/httpd-2.2.23/server/protocol.c:1275-1372 | over a whole response, bytes_sent is what was forwarded, the body is forwarded unchanged while the next filter takes it, an announced length is that of the whole body, and for a body in one brigade it is announced exactly when it can be; EOS is passed on at the very end and nowhere else, and without pipes the brigades are passed on as they came |
| `ConfigMeaning.SoakItems` | apps/httpd-2.2.23/server/config.c:1370-1413 | skipping passes over any piece whose containers are opened and closed by name, closing brackets not looked at |
| `ConfigMeaning.ClosedSkippable` | apps/httpd-2.2.23/server/config.c:1370-1413 | what can be read can be skipped |
| `ConfigMeaning.EndsWhole` | apps/httpd-2.2.23/server/config.c:1103-1109 | a closing line compared as a whole, bracket included, is one that ends in a bracket and names the container |
| `ConfigMeaning.RunItems` | apps/httpd-2.2.23/server/config.c:1085-1126 | reading a well-nested piece adds its tree, whatever follows |
| `ConfigMeaning.SameStop` | apps/httpd-2.2.23/server/core.c:2117-2130 | an active container and a skipped one stop right after the same closing line |
| `ConfigMeaning.ShiftDenote` | apps/httpd-2.2.23/server/config.c:1007-1040 | a subtree read on its own and spliced in is the tree read in place |
| `ConfigMeaning.ExpandKeepsMeaning` | apps/httpd-2.2.23/server/core.c:2170-2184 | inlining active bodies and deleting inactive ones keeps the tree |
| `ConfigMeaning.ExpandCloses` | apps/httpd-2.2.23/server/core.c:2170-2184 | inlining and deleting conditionals leaves a well-nested file without conditionals |
| `ConfigMeaning.ConditionalsTransparent` | apps/httpd-2.2.23/server/config.c:1007-1040 | at any depth, running conditionals while reading gives the tree of the expanded file |
| `ConfigMeaning.FilesConcatenate` | apps/httpd-2.2.23/server/config.c:1208-1240 | reading a second file into a tree is reading both as one |
| `ConfigAccept.RunText` | apps/httpd-2.2.23/server/config.c:1085-1126 | a text with containers left open is read to its end as its completion is |
| `ConfigAccept.SoakBack` | apps/httpd-2.2.23/server/config.c:1370-1413 | lines that are skipped are a piece that can be skipped and its closing line |
| `ConfigAccept.ReadBack` | apps/httpd-2.2.23/server/config.c:1042-1083 | lines that are read without error are a text with at most open containers at its end, or one up to the line that ends the container |
| `ConfigAccept.AcceptedIff` | apps/httpd-2.2.23/server/config.c:1208-1257 | any file is accepted if and only if it is well nested but for an active conditional left open at the top, with anything left open inside; its tree is that of the completed file |
| `ConfigAccept.SeparableIff` | apps/httpd-2.2.23/server/config.c:1208-1257 | an accepted file and whatever follows it can be read as two files exactly when the first is well nested |
| `ConfigAccept.CompletedClosed` | apps/httpd-2.2.23/server/config.c:1102-1126 | an accepted file, with what is missing put at its end, is well nested |
| `ConfigAccept.MissingCompletes` | apps/httpd-2.2.23/server/config.c:1102-1126 | a file and its missing lines are the completed file |
| `ConfigAccept.MissingCloseUnnoticed` | apps/httpd-2.2.23/server/config.c:1102-1126 | a section left open in a conditional left open is accepted if the condition holds and refused if not, and it is the text of no nested file |
| `ConfigAccept.BuildsIffWellNested` | apps/httpd-2.2.23/server/config.c:1042-1083 | without conditionals, reading succeeds exactly on well-nested files; a closing name may differ from the opening one in the case of letters, and in nothing else |
| `ConfigAccept.ClosingCase` | apps/httpd-2.2.23/server/config.c:1056-1075 | a section is closed by its name in any mix of capitals and small letters followed by a bracket, and by nothing else |
| `Basics.LowerIff` | apps/httpd-2.2.23/server/config.c:1063 | comparing without case: equal length, and at each place the same character or a capital and its small letter |
| `Basics.SameName` | apps/httpd-2.2.23/server/config.c:910 | the comparison the code makes is that one |
| `ConfigLinks.NextOfLast` | apps/httpd-2.2.23/server/util_cfgtree.c:37-44 | an entry has no next one exactly when it is the last of its container |
| `ConfigLinks.SpineClose` | apps/httpd-2.2.23/server/config.c:1074-1076 | closing a container makes it the last entry of the one around it |
| `ConfigLinks.NextSplice` | apps/httpd-2.2.23/server/config.c:1014-1016 | where every next link points after a splice |
| `ConfigLinks.FirstChildSplice` | apps/httpd-2.2.23/server/config.c:1018-1021 | where every first-child link points after a splice |
| `ConfigTree.HookAfter` | apps/httpd-2.2.23/server/config.c:1014-1016 | hooking a subtree behind the current node |
| `ConfigTree.HookFirst` | apps/httpd-2.2.23/server/config.c:1017-1025 | hooking a subtree into an empty container |
| `ConfigTree.AdoptAll` | apps/httpd-2.2.23/server/config.c:1033-1036 | the walk gives every spliced sibling its parent and ends at the last |
| `ConfigTree.SpliceIn` | apps/httpd-2.2.23/server/config.c:1007-1040 | the tree with the subtree spliced in is linked as the specification says |
| `ConfigTree.AddNode` | apps/httpd-2.2.23/server/util_cfgtree.c:21-45 | a node is linked in as the next entry, and a section becomes the open container |
| `ConfigTree.ConfigFile.SoakEndContainer` | apps/httpd-2.2.23/server/config.c:1370-1413 | skips exactly the lines the specification skips, and fails exactly when it does |
| `ConfigTree.RunActive` | apps/httpd-2.2.23/server/core.c:2117-2125 | builds the body of an active conditional and splices it in |
| `ConfigTree.SkipInactive` | apps/httpd-2.2.23/server/core.c:2126-2130 | skips an inactive one and leaves the tree alone |
| `ConfigTree.CloseSection` | apps/httpd-2.2.23/server/config.c:1046-1077 | a closing line is accepted exactly when it names the open container, and leads back out |
| `ConfigTree.BuildConfigSub` | apps/httpd-2.2.23/server/config.c:961-1083 | one line does to the linked tree what the specification does to the list |
| `ConfigTree.BuildLine` | apps/httpd-2.2.23/server/config.c:1222-1236 | one round of a reading loop keeps the tree linked as the specification says and finds its head |
| `ConfigTree.BuildContConfig` | apps/httpd-2.2.23/server/config.c:1085-1126 | the body of a conditional becomes a linked tree of its own |
| `ConfigTree.LastSibling` | apps/httpd-2.2.23/server/config.c:1217-1221 | the walk at the start finds the last directive at the top |
| `ConfigTree.BuildConfig` | apps/httpd-2.2.23/server/config.c:1208-1257 | a file is accepted exactly when the specification accepts it, and parent, next and first-child links are those of its tree |
| `ConfigWalk.SpansHead` | apps/httpd-2.2.23/server/config.c:1190-1194 | the next link leads past everything inside a directive |
| `ConfigWalk.SpansBody` | apps/httpd-2.2.23/server/util_cfgtree.c:24-36 | the first-child link leads into a section |
| `ConfigWalk.WalkConfig` | apps/httpd-2.2.23/server/config.c:1181-1206 | the walk meets the directives in file order and ends |
| `ConfigWalk.LoadAndWalk` | apps/httpd-2.2.23/server/config.c:1181-1257 | for any lines: loading succeeds exactly on the acceptable ones, and walking the tree meets the completed and expanded file |
| `ConfigWalk.RoundTrip` | apps/httpd-2.2.23/server/config.c:1208-1257 | without conditionals, loading succeeds exactly on well-nested files, and walking gives the lines back up to the case of closing names |
| `Options.DirConfig.SetOptions` | apps/httpd-2.2.23/server/core.c:1443-1516 | a line has the effect of its words and stops at the first one that is unknown or names an option that may not be set here, which then counts as one without options; accepted or not, no mask gets a bit that may not be set here |
| `Options.LineSplit` | apps/httpd-2.2.23/server/core.c:1450-1513 | a line can be read in two parts, the second one starting from nothing at its first absolute word only if there was none in the first |
| `Options.NestDisjoint` | apps/httpd-2.2.23/server/core.c:245-251 | no bit is ever both added and removed, over chains of any length |
| `Options.SectionEffect` | apps/httpd-2.2.23/server/core.c:1443-1516 | a section's masks have on every bit the effect of its words on the value around it |
| `Options.SectionSays` | apps/httpd-2.2.23/server/core.c:1443-1516 | a section decides a bit by its absolute words, else by its last sign, else leaves it |
| `Options.MergeEffect` | apps/httpd-2.2.23/server/core.c:245-271 | merging applies that effect, where the configuration around is coherent |
| `Options.LastWordWins` | apps/httpd-2.2.23/server/core.c:245-271 | a nest of coherent sections is the same as all their words in order |
| `Options.CoherentIff` | apps/httpd-2.2.23/server/core.c:1452-1460 | a section is coherent on a bit exactly when its last signed word for the bit has the last say |
| `Options.OrderlyCoherent` | apps/httpd-2.2.23/server/core.c:1452-1460 | a section with no absolute word after a signed one is coherent |
| `Options.EmptySection` | apps/httpd-2.2.23/server/core.c:245-251 | an empty section changes a bit exactly when what is around it is not coherent |
| `Options.LastWordWinsIff` | apps/httpd-2.2.23/server/core.c:245-271 | with an empty section inside, the last word wins for every number of sections exactly when all are coherent |
| `Options.MergeTrack` | apps/httpd-2.2.23/server/core.c:245-251 | merging one section is one step of that law |
| `Options.NestLaw` | apps/httpd-2.2.23/server/core.c:245-251 | over any nest, coherent or not, every bit but exec and its last sign follow from the words: an absolute word starts anew, otherwise the last sign decides |
| `Options.ShownIff` | apps/httpd-2.2.23/server/core.c:245-271 | what a nest shows to sections inside is what its words say exactly when its last decider is coherent |
| `Options.LastWordWinsHere` | apps/httpd-2.2.23/server/core.c:245-271 | in one given nest the last word wins exactly when the last section that decides about the bit is coherent or is the innermost one |
| `Options.MergeExec` | apps/httpd-2.2.23/server/core.c:253-262 | merging one section is one step of the law of exec |
| `Options.ExecLaw` | apps/httpd-2.2.23/server/core.c:253-262 | over any nest, coherent or not, the exec bit and its last sign follow from the words by its own law |
| `Options.SilentKeeps` | apps/httpd-2.2.23/server/core.c:253-262 | sections silent on exec leave it at its last sign, or as it was |
| `Options.ExecStaysOff` | apps/httpd-2.2.23/server/core.c:253-262 | after a section that drops exec, and any number of sections silent on it, exec is off exactly when it was not added by name before |
| `Options.ExecComesBack` | apps/httpd-2.2.23/server/core.c:253-262 | three sections after which exec is on again |
| `CommandHash.EntriesReversed` | apps/httpd-2.2.23/server/config.c:480-491 | a module's part of a chain is its commands of that name in reverse order, each as often as declared |
| `CommandHash.ChainHead` | apps/httpd-2.2.23/server/config.c:917-931 | a chain is empty when no module declares the name, and otherwise starts in the first that does |
| `CommandHash.ChainExact` | apps/httpd-2.2.23/server/config.c:480-491 | the chain looked up for a name has exactly the commands that differ from it in the case of letters at most |
| `CommandHash.FindCommand` | apps/httpd-2.2.23/server/config.c:904-915 | the first command whose name differs from the one asked for in the case of letters at most, if there is one |
| `CommandHash.Registry.AddModuleCommands` | apps/httpd-2.2.23/server/config.c:465-492 | every chain gets the module's commands of its name in front |
| `CommandHash.Twice` | apps/httpd-2.2.23/server/config.c:465-492 | adding a module's commands again keeps the table that of the list exactly when there are none |
| `CommandHash.Registry.Link` | apps/httpd-2.2.23/server/config.c:511-514 | a module in no list goes on top; of the linked ones only the bottom one is linked again, into a cycle |
| `CommandHash.Registry.Enter` | apps/httpd-2.2.23/server/config.c:511-526 | a new module goes on top with an index of its own, if the limit allows; a listed one keeps place and index, and the list stays a list exactly when it was not the bottom one |
| `CommandHash.Registry.AddModule` | apps/httpd-2.2.23/server/config.c:497-558 | a new module that is accepted is linked and in the table, one refused by the limit is linked but not in the table; a listed one is accepted again, and list and table then agree exactly when it is not the bottom one and has no commands |
| `CommandHash.Registry.FindCommandInModules` | apps/httpd-2.2.23/server/config.c:917-931 | the search finds nothing exactly when the chain is empty, and otherwise the module of the chain's head; the case of letters does not matter |
| `CommandHash.LoadModules` | apps/httpd-2.2.23/server/config.c:497-558 | modules in no list, numbered before or not, added one after the other to any registry: up to the first that is refused, for the exact reason given, every chain lists exactly the commands of its name in module order |
| `Reclaim.Reclaimer.ReclaimOnePid` | apps/httpd-2.2.23/server/mpm_common.c:124-191 | a process is gone or gets exactly the signal of the action |
| `Reclaim.Reclaimer.PassBoard` | apps/httpd-2.2.23/server/mpm_common.c:245-260 | gone children are noted and not signalled, the others are signalled and counted |
| `Reclaim.Reclaimer.PassExtras` | apps/httpd-2.2.23/server/mpm_common.c:262-273 | every other process is signalled exactly when it is found there |
| `Reclaim.Reclaimer.Round` | apps/httpd-2.2.23/server/mpm_common.c:225-280 | whatever the clock, the action index stays in the table, every child still there has had exactly the signals due so far, and every other process those of the rounds in which it was there |
| `Reclaim.Reclaimer.HeardAll` | apps/httpd-2.2.23/server/mpm_common.c:262-273 | a process that is there in every round has had every signal due |
| `Reclaim.OnTime` | apps/httpd-2.2.23/server/mpm_common.c:200-243 | if sleeps last, the actions are taken by the rounds they are due |
| `Reclaim.TableTimes` | apps/httpd-2.2.23/server/mpm_common.c:205-217 | each action has its time, and comes after the signals before it |
| `Reclaim.ReclaimChildProcesses` | apps/httpd-2.2.23/server/mpm_common.c:193-280 | it ends within thirteen rounds, with nobody left or everybody left having had three SIGTERM and then a SIGKILL; no SIGTERM before 3 seconds, the next ones not before 5 and 7, no SIGKILL before 9 and no giving up before 10 |
| `Reclaim.Extras.Register` | apps/httpd-2.2.23/server/mpm_common.c:89-96 | the process goes to the front of the list |
| `Reclaim.Extras.Unregister` | apps/httpd-2.2.23/server/mpm_common.c:98-122 | the first process of that number leaves the list, and it is reported whether there was one |
| `Listeners.Listeners.Reuse` | apps/httpd-2.2.23/server/listen.c:267-272 | a record moves from the old list to the front of the new one |
| `Listeners.Listeners.TakeOld` | apps/httpd-2.2.23/server/listen.c:252-277 | every old record of the address is taken back, the others stay in order |
| `Listeners.Listeners.AppendAll` | apps/httpd-2.2.23/server/listen.c:292-337 | new records follow in the order of their addresses, until a socket cannot be created |
| `Listeners.Listeners.AllocListener` | apps/httpd-2.2.23/server/listen.c:244-340 | old records of the address, or new unbound ones, or an error |
| `Listeners.Listeners.ListenNext` | apps/httpd-2.2.23/server/listen.c:244-340 | a directive works exactly if its sockets can be created or an old record of its address is left, and carries out one step of the plan |
| `Listeners.Listeners.BindAll` | apps/httpd-2.2.23/server/listen.c:371-479 | inactive records are bound once and active ones not touched, up to the first inactive one that cannot be bound, which is closed and fatal; those behind it are as they were |
| `Listeners.Listeners.CloseOld` | apps/httpd-2.2.23/server/listen.c:482-488 | every record left in the old list is closed exactly once and nothing else is touched |
| `Listeners.Listeners.OpenListeners` | apps/httpd-2.2.23/server/listen.c:350-520 | unless a record cannot be bound, all listed records are active and every old one is closed once; otherwise the records behind it and the old list are as they were; active records are never touched |
| `Listeners.Listeners.PreConfig` | apps/httpd-2.2.23/server/listen.c:593-598 | the listeners become the old ones, whatever old ones there were |
| `Listeners.Listeners.Configure` | apps/httpd-2.2.23/server/listen.c:244-340 | the directives make of the earlier list exactly the planned one, in order, and leave the rest in the old list; it stops at the first that does not work, and no earlier record gets lost |
| `Listeners.Together` | apps/httpd-2.2.23/server/listen.c:244-340 | every earlier record is in exactly one list, by whether it was asked for |
| `Listeners.Listeners.Restart` | apps/httpd-2.2.23/server/listen.c:244-598 | what it comes to and the list it makes, in order, follow from the earlier list, the directives and what can be bound; on success a record asked for again is kept with its socket untouched, any other is closed exactly once, and all listed records are active; if a directive or a bind fails, no record is lost and no active one is touched; an earlier record is kept exactly if a directive has its host name and its port |
| `Listeners.KeptIff` | apps/httpd-2.2.23/server/listen.c:254-275 | of the earlier records, exactly those are kept whose host name and port a directive has |
| `Listeners.Reusable` | apps/httpd-2.2.23/server/listen.c:264-266 | the comparison of ports, and of host names that may both be missing, is equality of addresses |

## Left out

- The FIRestarter runtime and compiler passes: their source is not part of the repository, only a description.
- The Python scripts under `kombiton`: process plumbing without state worth proving.
- `AP_MODE_INIT`, `AP_MODE_EATCRLF` and `AP_MODE_EXHAUSTIVE` of the input filter: the first does nothing, the second looks at memory beyond a bucket, the third hands the brigade over.
- Bucket read errors other than `EAGAIN` on output, and failed bucket copies on speculative input: the calls just return the error.
- Lifetimes of memory pools, setting buckets aside and the sharing of memory between buckets: buckets are values here.
- Memory-mapped reads of file buckets: a read gives the bytes of the range, however it gets them.
- Accounting and logging calls of the filters, and the accept filters of listeners.
- `ap_getword_conf`, environment variables in lines, comments and the size of lines: a line is given as its parts.
- `Include` and other directives that run while a file is read, except the conditional containers: they splice in a tree as those do.
- The state of the configuration tree after an error: the server does not go on.
- Handlers of directives, apart from option words: they belong to modules.
- The mapping from option words to keywords without regard to case: a word is given as its keyword.
- `FileETag` merging and the other fields of a directory configuration.
- `ap_remove_module` and reloading of the prelinked modules: indices are then no longer unique.
- The `.htaccess` cache, virtual hosts, and the rest of request processing.
- Writing the notes and log lines of refused headers, and compressing the header table at the end.
- The IPv6 code of `open_listeners`, and the pool clean-up it registers.
- Emptiness of the list of extra processes after reclaiming: taking them off is compiled in debug builds only.
- HeaderInput.ReadHeader: without a limit on the fields, assumes a peer that completes its header or stops sending at some point; with any other the reading never ends.
