# Verified models of the KDE 1 base programs

Dafny models of six parts of the repository whose behaviour is hard to see from the code
alone, and proofs about them.

Each part has two layers. The model says on plain values what the code does: state machines,
parsers, lists. The imperative layer has the classes, arrays and loops of the original, every
method proved to do exactly what the model says. The choices of the chooser and the blocks of
the allocator are linked lists there; displays, offers, tokens and addresses are sequences that
the methods reassign. The theorems are about the model, so they hold of the imperative layer as
well. What the environment decides (pids,
packets, clocks, malloc addresses, the answers of a device, file contents) is an argument of
the events, so a statement for all events covers every environment.

- **Bookmarks of kdehelp** (`Bookmark_*.dfy`): the character machine of the tokenizer with its
  five flags, the parser that builds the tree in place, the recursive printer, the menu
  numbering and its inverse. What reading a written file gives back is known for all strings
  without markup characters and for titles with tags, and exactly when it is what was written.
- **The display manager kdm** (`Dm_*.dfy`): displays, their servers and sessions, offers to
  XDMCP displays, the servers file and shutdown, as a state machine over all events; section 5
  of the X Display Manager Control Protocol for the packets. `Display` and `XdmManager` are the
  records and lists as the program changes them.
- **The audio player** (`Audio_*.dfy`): eight buffers in a ring between file and device and the
  seven statuses of the main loop. The device hears every byte once and in order, and the
  playback ends.
- **Access control, choices and authority files** (`Access_*.dfy`, `Choose_*.dfy`,
  `Xauth_*.dfy`): the pattern matcher, alias expansion with its depth bound, the list of
  choices that expire, and the merge of authorizations into the user's file.
- **XDMCP packets** (`Xdmcp_*.dfy`): bytes and header lengths, section 8 of the protocol.
- **Two smaller pieces**: the debugging allocator with its doubly linked list (`Alloc_*.dfy`)
  and the line splitter of kfind, which works in one array (`Find_*.dfy`).

Some properties one would expect are not those of the code. In each case the model keeps what
the code does, and a theorem says exactly when the property holds.

- A bookmark's text comes back with runs of blanks squeezed. The closing quote of a URL that
  ends in `=` is read as an opening one, so its tag swallows everything up to the next URL and
  takes the text of that bookmark; without a further URL the rest of the file is lost.
- A line of the servers file that names an active XDMCP display takes the display over. Its
  session is started a second time exactly if a later sweep finds the display not running.
- The player misses the end of media whose length is within one block of 2^32 bytes, as the
  position is computed in 32 bits.
- A pattern that ends in two unescaped stars does not match what it should: a star followed by
  more pattern never tries the empty rest. A trailing backslash makes the matcher read on behind
  both strings.
- Aliases nested deeper than 32 are cut off.
- The choice list disagrees with a map, in some run, whenever the clock goes back between two
  questions.
- `PeakMem` and `UsedMem` of the allocator are numbers of 32 bits.
- kfind loses what stands behind a NUL in a chunk, so that the cuts between chunks matter.

## Model

| member | source | states |
|---|---|---|
| `BookmarkLexer.BookmarkTokenizer.Begin` | kdehelp/booktoken.cpp:64-75 | a fresh tokenizer has no tokens, no characters in its buffer and all five flags off |
| `BookmarkLexer.BookmarkTokenizer.AppendToken` | kdehelp/booktoken.h:91-110 | a token goes to the end of the list, an empty one nowhere |
| `BookmarkLexer.BookmarkTokenizer.Separate` | kdehelp/booktoken.cpp:238-318 | blank, tab and newline: at most one separator in a row, inside a tag in the buffer, outside as a token of its own behind the pending word |
| `BookmarkLexer.BookmarkTokenizer.QuoteMark` | kdehelp/booktoken.cpp:324-358 | a quote opens behind `=`, closes an open quotation and adds a blank, is dropped elsewhere in a tag and is text outside |
| `BookmarkLexer.BookmarkTokenizer.EqualsSign` | kdehelp/booktoken.cpp:359-392 | `=` eats one blank before it in an unquoted tag and is copied otherwise |
| `BookmarkLexer.BookmarkTokenizer.FinishTag` | kdehelp/booktoken.cpp:216-237 | the end of a tag queues the buffer with its name, and nothing behind the first blank, in lower case |
| `BookmarkLexer.BookmarkTokenizer.Turn` | kdehelp/booktoken.cpp:86-401 | one turn of the character machine: which characters are consumed and what becomes of buffer, tokens and flags |
| `BookmarkLexer.BookmarkTokenizer.Write` | kdehelp/booktoken.cpp:77-402 | the loop consumes the C string up to its NUL, turn by turn |
| `BookmarkLexer.BookmarkTokenizer.End` | kdehelp/booktoken.cpp:404-417 | what is left in the buffer becomes the last token |
| `BookmarkLexer.BookmarkTokenizer.NextToken` | kdehelp/booktoken.cpp:419-425 | the tokens come out in the order they went in |
| `BookmarkLimits.TokenRange` | kdehelp/booktoken.cpp:77-417 | for every file without entities the tokens are words without `<` and line breaks, or single tags |
| `BookmarkRoundTrip.DocumentRun` | kdehelp/booktoken.cpp:77-417 | tokenizing a written file gives exactly the tags and words of its title and entries, for forests of any depth |
| `BookmarkTokens.NoticeIsNotice` | kdehelp/bookmark.cpp:245-245 | the comment line of the source is one that the tokenizer skips, as the other results ask of a translation |
| `BookmarkManager.CopyValue` | kdehelp/bookmark.cpp:184-191 | an href value ends at the first blank or `>` outside quotes and loses its quotes; running off the tag is noticed |
| `BookmarkManager.ScanTag` | kdehelp/bookmark.cpp:174-207 | the attribute loop finds the last href of a tag or runs off an unfinished one |
| `BookmarkManager.TagTurn` | kdehelp/bookmark.cpp:155-220 | the branches of parse for one tag change exactly the bookmark, text or list that tag is about |
| `BookmarkManager.ParseList` | kdehelp/bookmark.cpp:142-228 | parse fills the tree on the heap, in place, with what the grammar of the tokens says, and consumes no token twice |
| `BookmarkManager.WriteFolder` | kdehelp/bookmark.cpp:259-279 | the recursive walk appends the text of every entry of the folder, in order and at any depth, and changes nothing |
| `BookmarkManager.FindBookmark` | kdehelp/bookmark.cpp:288-311 | the lookup returns the URL bookmark with that number in menu order, or none exactly if the number is not one of theirs |
| `BookmarkManager.FillBookmarkMenu` | kdehelp/mainwidget.cpp:467-486 | the menu mirrors the tree: at each place a command with the text of the URL bookmark and the next id in menu order, or a sub-menu with the text of the folder over a menu that mirrors its children |
| `BookmarkTree.MirrorCommands` | kdehelp/mainwidget.cpp:467-486 | the commands of such a menu, sub-menus unfolded, are the URL bookmarks of the tree numbered without gaps |
| `BookmarkTree.MirrorIsUnique` | kdehelp/mainwidget.cpp:467-486 | there is only one menu that mirrors a tree |
| `BookmarkManager.KBookmarkManager.MenuFinds` | kdehelp/bookmark.cpp:281-311 | the menu mirrors the tree, command k of it shows the text of the k-th URL bookmark, and looking it up finds that bookmark |
| `BookmarkManager.KBookmarkManager.ReadFile` | kdehelp/bookmark.cpp:66-138 | title and tree after read are those of the tokens of the file; the old tree is gone |
| `BookmarkManager.KBookmarkManager.WriteFile` | kdehelp/bookmark.cpp:232-255 | the file is the fixed frame around title and entries |
| `BookmarkRoundTrip.ParseEntries` | kdehelp/bookmark.cpp:142-228 | parsing the tokens of any written forest appends that forest, runs of blanks squeezed, to the folder |
| `BookmarkRoundTrip.ReadWritten` | kdehelp/bookmark.cpp:66-279 | reading a written file gives back title and tree of any depth, with runs of blanks squeezed to one |
| `BookmarkReadBack.ReadGeneral` | kdehelp/bookmark.cpp:66-279 | reading any written file without markup characters in its strings, whatever its URLs end in, gives back the tree built from the lines that no open tag swallows |
| `BookmarkReadBack.ParseItems` | kdehelp/bookmark.cpp:142-228 | parse on the tokens of any lines, list ends missing or in excess, builds the folder those lines describe and leaves what is behind its end |
| `BookmarkSwallow.ReceivedRun` | kdehelp/booktoken.cpp:77-417 | tokenizing any written lines queues the tokens of exactly those that no open tag swallows, the URLs of open tags included |
| `BookmarkExact.RoundTripIff` | kdehelp/bookmark.cpp:66-279 | for every title without a carriage return and every forest: write then read is the identity if and only if no string has two blanks in a row or a markup character, no URL a quote, URL bookmarks have no children, folders no URL, and no URL ends in `=` but that of a bookmark without text at the very end of the file |
| `BookmarkTitles.MarkedRoundTripIff` | kdehelp/bookmark.cpp:66-279 | the same for titles with tags in them, which read hands out with an escape character before each tag: they come back if and only if the tags are in lower case, no text has two blanks in a row, and the forest is as before |
| `BookmarkTitles.ReadMarked` | kdehelp/bookmark.cpp:66-138 | of a title with tags in it the texts come back squeezed and the tags in lower case, and the tree as without them |
| `BookmarkEqualsUrl.EqualsUrlSwallows` | kdehelp/booktoken.cpp:324-346 | of a bookmark whose URL ends in `=` and the URL bookmark behind it one comes back, with the URL of the first and the text of the second; everything before and behind comes back as ever |
| `BookmarkEqualsUrl.EqualsUrlTakesSiblings` | kdehelp/booktoken.cpp:324-346 | at the end of a folder such a URL swallows the end of the folder too: the text of the next URL bookmark and everything behind it moves into the folder |
| `BookmarkEqualsUrl.NextUrlEndsTag` | kdehelp/booktoken.cpp:324-346 | at any place of the tree the open tag swallows list ends and folders up to the next URL, and takes the text of that bookmark |
| `BookmarkEqualsUrl.UnquotedIsSwallowed` | kdehelp/booktoken.cpp:324-346 | no text without quotes ends a tag that is open inside quotes |
| `BookmarkEqualsUrl.NoUrlEndsTag` | kdehelp/booktoken.cpp:324-346 | at any place of the tree, without a URL or a quote behind it the open tag swallows the rest of the lines |
| `BookmarkLimits.EqualsUrlSwallowsRest` | kdehelp/booktoken.cpp:324-346 | where no URL follows, the rest of the file is lost: exactly the entries before it and the URL come back |
| `BookmarkExact.TitleComesBackClean` | kdehelp/bookmark.cpp:105-127 | whatever title is written, the one read back has no markup character, unless it holds a whole tag with its escape character |
| `BookmarkLimits.TreeRange` | kdehelp/bookmark.cpp:142-228 | whatever a file without entities holds, no string of the tree read from it has a markup character |
| `BookmarkAttributes.WhiteSpaceIsBlank` | kdehelp/booktoken.cpp:238-318 | tabs and line breaks can be replaced by blanks anywhere in a file without entities; the flag that drops line breaks makes no difference |
| `BookmarkAttributes.AnchorRun` | kdehelp/booktoken.cpp:77-417 | an anchor with any attributes, single or double quotes and white space anywhere between its parts becomes one token in a normal form |
| `BookmarkAttributes.AnchorIsParsed` | kdehelp/bookmark.cpp:174-207 | parse takes the last href among the attributes of that token, in any case of letters, quoted or at the end without quotes, and passes over all others |
| `BookmarkAttributes.HeadingIsParsed` | kdehelp/bookmark.cpp:211-214 | a heading starts a new text whatever attributes it has |
| `DisplayManager.Display.constructor` | kdm/dpylist.c:192-276 | a new display runs nothing and has no session |
| `DisplayManager.Display.Decide` | kdm/dm.c:460-536 | the verdict on each way a session can end; SessionEnds says what it means for the display |
| `DisplayManager.XdmManager.RemoveDisplay` | kdm/dpylist.c:135-190 | one record leaves the list, the others keep their order |
| `DisplayManager.XdmManager.FindDisplayByName` | kdm/dpylist.c:60-70 | the first display of the list with that name, or none if no display has it |
| `DisplayManager.XdmManager.FindDisplayByPid` | kdm/dpylist.c:72-82 | the first display whose session child has that pid |
| `DisplayManager.XdmManager.FindDisplayByServerPid` | kdm/dpylist.c:84-94 | the first display whose server has that pid |
| `DisplayManager.XdmManager.FindDisplayBySessionID` | kdm/dpylist.c:98-108 | the first display with that session |
| `DisplayManager.XdmManager.FindDisplayByAddress` | kdm/dpylist.c:113-129 | the first XDMCP display with that address and number |
| `DisplayManager.XdmManager.StopDisplay` | kdm/dm.c:696-708 | a display with a server becomes a zombie where it is, any other leaves the list |
| `DisplayManager.XdmManager.RestartDisplay` | kdm/dm.c:714-728 | a display whose server has to go becomes a phoenix, any other is ready to start |
| `DisplayManager.XdmManager.StartOne` | kdm/dm.c:611-682 | starting a display: the server it may need, the session child, or the removal of a display whose server does not come up |
| `DisplayManager.XdmManager.CheckStatus` | kdm/dm.c:574-592 | of one display of the servers file: stopped if no longer named, otherwise started if it does not run |
| `DisplayManager.XdmManager.StartAll` | kdm/dm.c:594-598 | each display is visited once, in order, although a visit may take it off the list |
| `DisplayManager.XdmManager.Shutdown` | kdm/dm.c:376-389 | sockets are closed and every display stopped |
| `DisplayManager.XdmManager.ParseDisplay` | kdm/file.c:147-238 | a line of the servers file takes over the display it names or puts a new one at the head of the list |
| `DisplayManager.XdmManager.Rescan` | kdm/dm.c:294-309 | mark all, read the file, start or stop all |
| `DisplayManager.XdmManager.SessionExited` | kdm/dm.c:460-536 | the exit of a session child clears the pid and stops or restarts the display |
| `DisplayManager.XdmManager.ServerExited` | kdm/dm.c:538-564 | the exit of a server removes a zombie, readies a phoenix and otherwise only clears the pid |
| `DisplayManager.XdmManager.WaitForChildren` | kdm/dm.c:412-572 | all children reaped are handled in order, then all displays are checked |
| `DisplayManager.XdmManager.TimeoutProtoDisplays` | kdm/protodpy.c:93-105 | exactly the offers older than the timeout go, the rest keep their order |
| `DisplayManager.XdmManager.NewProtoDisplay` | kdm/protodpy.c:107-148 | the new offer is in front, the old ones have been timed out |
| `DisplayManager.XdmManager.Request` | kdm/xdmcp.c:764-911 | the answer to a Request and the offer behind it |
| `DisplayManager.XdmManager.ManageSession` | kdm/xdmcp.c:969-1113 | a Manage packet starts the session on offer, and only that, after stopping a display of the same name |
| `DisplayManager.XdmManager.SendAlive` | kdm/xdmcp.c:1164-1204 | what KeepAlive is answered |
| `DisplayManager.XdmManager.Step` | kdm/dm.c:203-219 | one turn of the main loop on any event |
| `DisplayManager.XdmManager.RunLoop` | kdm/dm.c:203-219 | the main loop on any sequence of events |
| `DisplayInvariant.NextOk` | kdm/dm.c:412-728 | every event, whatever pids, packets and file contents it brings, keeps the display invariant |
| `DisplayInvariant.Reachable` | kdm/dm.c:412-728 | in every reachable state: running means a live session child, notRunning and phoenix mean none, zombie and phoenix have a server, no child belongs to two displays, and no display was ever started while it had a session child |
| `DisplaySessions.PhaseStep` | kdm/xdmcp.c:764-1113 | one event keeps the IDs of offers and displays distinct, moves a session ID forward or not at all, and starts a session again exactly if its sweep meets a taken-over display that is to be started |
| `DisplaySessions.PhaseRun` | kdm/xdmcp.c:725-1113 | over any run with fewer than 2^32 IDs, whatever the servers files name, every ID, 0 included, only goes from offered to carried to gone |
| `DisplaySessions.StartedOnceIff` | kdm/dm.c:574-682 | over any run each session, that with ID 0 included, is passed to StartDisplay at most once if and only if no sweep meets a display that came from a Manage packet, that the servers file has taken over and names, and that does not run |
| `DisplaySessions.ClearRunsOnce` | kdm/file.c:147-238 | this cannot happen in runs whose servers files name no XDMCP display |
| `DisplaySessions.ZeroIssuedIff` | kdm/xdmcp.c:725-741 | the ID 0, which displays of the servers file have, is given to a session exactly when the numbers wrap |
| `DisplaySessions.AliveIff` | kdm/xdmcp.c:1164-1204 | KeepAlive says running for an ID exactly if the display that carries it is running; for the ID 0 the first display with it answers |
| `DisplaySessions.TakesOver` | kdm/file.c:147-238 | a line of the servers file takes a session over if and only if it names the XDMCP display that carries it |
| `DisplaySessions.ClashStartsTwice` | kdm/file.c:147-238 | with such a line the first session is started twice, whatever ID it has: a concrete run |
| `DisplayLifecycle.ZombieAbsorbing` | kdm/dm.c:412-728 | no event but the exit of its server changes the status of a zombie or takes it off the list |
| `DisplayLifecycle.ZombieReaped` | kdm/dm.c:540-546 | the exit of its server removes the zombie and nothing else |
| `DisplayLifecycle.XdmcpNeverRestarts` | kdm/dm.c:460-536 | an XDMCP display is gone with its session child, whatever the exit status |
| `DisplayLifecycle.OpenFailedStopsIff` | kdm/dm.c:482-505 | a failed open stops the display if and only if it makes max(startAttempts, 1) in a row, with the limit loaded at that start; any other one makes it start again |
| `DisplayLifecycle.RetryBound` | kdm/dm.c:482-505 | over any run startTries is, for each display that is not given up, the number of its last failed opens in a row, and none of them was the max(startAttempts, 1)-th under its own limit |
| `DisplayShutdown.Drains` | kdm/dm.c:376-389 | after StopAll and without a rescan the list is, in order, the zombies whose servers are not reaped yet |
| `DisplayShutdown.ShutdownEnds` | kdm/dm.c:203-220 | the main loop ends if and only if every server left at StopAll has been reaped |
| `DisplayShutdown.RescanReconciles` | kdm/dm.c:241-309 | after a rescan displays of the file no longer named are gone or zombies, named ones are there unless their server failed, and XDMCP displays are as before save the first of each name in the file, which the file takes over |
| `DisplayShutdown.ProtosUnique` | kdm/protodpy.c:71-176 | at most one offer per address and display number in every reachable state |
| `DisplayShutdown.InsertionDropsOld` | kdm/protodpy.c:93-148 | an insertion drops exactly the offers older than the timeout; in the first half hour after the epoch the unsigned difference wraps and only dates at the other end of the clock stay |
| `DisplayShutdown.OfferStands` | kdm/xdmcp.c:824-902 | an offer lasts until it is managed, declined or timed out, exactly, and is repeated to every retransmission |
| `DisplayAnswers.SessionEnds` | kdm/dm.c:460-536 | what each exit status of a session does to a display of the servers file: it goes on or not, with its server or without, as a zombie or not at all; pid and count of failed opens change accordingly and nothing else does |
| `DisplayAnswers.ZombieSessionEnds` | kdm/dm.c:460-536 | whatever the exit status, a zombie stays a zombie and loses only its pid |
| `DisplayAnswers.ServerEnds` | kdm/dm.c:538-564 | the exit of a server removes a zombie, makes a phoenix ready to start and leaves any other display as it is but for the server |
| `DisplayAnswers.StrangerEnds` | kdm/dm.c:412-572 | the exit of a pid that no display answers for changes no display |
| `DisplayAnswers.StartComesTo` | kdm/dm.c:611-682 | a start brings up a server only where one is missing and removes the display if that fails; otherwise it has the session child if there could be one |
| `DisplayAnswers.LineComesTo` | kdm/file.c:147-238 | a line gives the first display of its name location, lifetime and origin and leaves the rest of it alone; without one there is a new display that runs nothing |
| `DisplayAnswers.ScanLocates` | kdm/file.c:147-238 | after reading the file each name in it has a permanent display where the last line with that name puts it |
| `DisplayAnswers.RequestIsAnswered` | kdm/xdmcp.c:764-911 | a Request is accepted exactly if connection types and authentication suit, with the session that is on offer to the sender afterwards, the old one if there was one; without authorization no offer is left |
| `DisplayAnswers.ManageIsAnswered` | kdm/xdmcp.c:969-1113 | a Manage for the session on offer is answered by Failed if the display has no name and otherwise not at all, a repeated one of a session not at all, any other by Refuse |
| `DisplayAnswers.ManageStarts` | kdm/xdmcp.c:969-1113 | such a Manage puts a running transient display with that session, name and sender at the head of the list, ends the offer, and stops the first display that had the name |
| `DisplayAnswers.AliveNames` | kdm/xdmcp.c:1164-1204 | Alive names the session asked for if its display runs, 0 if it does not, and the one running at the sender if no display has the session |
| `DisplayAnswers.SigtermLeaves` | kdm/dm.c:376-389 | SIGTERM closes the sockets and leaves, in order, the displays with a server, as zombies |
| `DisplayAnswers.SigtermEnds` | kdm/dm.c:203-220 | after it the main loop ends exactly when every server that was running has been reaped |
| `AudioPlayer.AudioSample.constructor` | kaudio/sample.cpp:51-55 | the ring starts empty |
| `AudioPlayer.AudioSample.SetRBuf` | kaudio/sample.cpp:64-71 | the buffer to read into wraps round |
| `AudioPlayer.AudioSample.SetWBuf` | kaudio/sample.cpp:73-80 | the buffer to write from wraps round |
| `AudioPlayer.AudioSample.ClearBuffers` | kaudio/sample.cpp:57-62 | nothing waits |
| `AudioPlayer.AudioSample.NextWBuf` | kaudio/sample.cpp:82-91 | the oldest block leaves, the others keep their content and order |
| `AudioPlayer.AudioSample.SetFilename` | kaudio/sample.cpp:93-248 | the ring is empty and the file at its first byte, or failed |
| `AudioPlayer.AudioSample.Rewind` | kaudio/sample.cpp:277-286 | the file is back at its first byte, the ring unchanged |
| `AudioPlayer.AudioSample.Pad` | kaudio/sample.cpp:333-342 | the rest of the block is silence, the other buffers are not touched |
| `AudioPlayer.AudioSample.ReadDataI` | kaudio/sample.cpp:305-349 | the read buffer holds the next bytes filled up with silence; no other buffer is written |
| `AudioPlayer.AudioSample.ReadData` | kaudio/sample.cpp:289-303 | with 0 <= buffersValid <= 8 and RBufId = (WBufId + buffersValid) mod 8 kept, a read appends one block to the waiting ones and never overwrites one of them |
| `AudioPlayer.MediaPlayer.ReadKeys` | kaudio/maudio.cpp:108-125 | stop, play and a new file decide the status the turn begins with; AudioKeys says what comes of it |
| `AudioPlayer.MediaPlayer.Start` | kaudio/maudio.cpp:193-226 | a playback begins with six blocks to read and write ahead, or fails |
| `AudioPlayer.MediaPlayer.ReadOnce` | kaudio/maudio.cpp:230-242 | a read during pre-reading stays in playing, any other turn goes on to write |
| `AudioPlayer.MediaPlayer.PlayItOnce` | kaudio/maudio.cpp:246-292 | a refused block stays, an accepted one leaves the ring once, an empty ring ends the playback |
| `AudioPlayer.MediaPlayer.Step` | kaudio/maudio.cpp:85-301 | one turn of the main loop in every status |
| `AudioPlayer.MediaPlayer.MainLoop` | kaudio/maudio.cpp:85-301 | the main loop on any sequence of keys, files and device answers |
| `AudioStreaming.PlaybackIsRun` | kaudio/maudio.cpp:85-301 | a playback is the run of the main loop up to the turn in which the player stops |
| `AudioStreaming.StartIsStreaming` | kaudio/maudio.cpp:193-226 | every start that gets the device begins a playback for which the invariant below holds |
| `AudioStreaming.TurnStreams` | kaudio/maudio.cpp:133-301 | each turn without stop and new file keeps: what was accepted and what waits are exactly the blocks read so far, and the queue does not run dry before the end |
| `AudioStreaming.ExactStreaming` | kaudio/maudio.cpp:229-292 | however often writes are refused, the pause flag flips and play is hit, the device has accepted a prefix of the blocks of the media, each once, and all of them when the playback ends |
| `AudioStreaming.BlocksAreTheData` | kaudio/sample.cpp:305-349 | these blocks are the bytes of the media and then less than one block of silence |
| `AudioStreaming.BlockForm` | kaudio/sample.cpp:305-349 | the size of a block and the silence behind its data for 8 and 16 bits, one channel and two |
| `AudioStreaming.TurnDecreases` | kaudio/maudio.cpp:133-301 | every turn but a refused write, a held pause and a play key lowers a measure; the first two change nothing |
| `AudioStreaming.PlaybackEnds` | kaudio/maudio.cpp:133-301 | the effective turns of a playback are bounded by the length of the media plus two for each play key |
| `AudioStreaming.OverreadIff` | kaudio/sample.cpp:316-321 | no byte behind the media is ever read if and only if its length is more than a block below 2^32 or the file ends with it |
| `AudioKeys.StopKeyStops` | kaudio/maudio.cpp:108-174 | the stop key without play or a new file ends whatever goes on in that turn: stopped, rewound, nothing written |
| `AudioKeys.StopKeySilences` | kaudio/maudio.cpp:108-174 | from then on nothing is written until there is a play key or a file |
| `AudioKeys.NewFileStarts` | kaudio/maudio.cpp:122-226 | a file that comes with the keys is the one played from then on, whatever the status: its playback begins at its first byte, or nothing is played if it is no media or the device is taken |
| `AudioKeys.NewFilePlays` | kaudio/maudio.cpp:122-292 | with the device that playback writes all of that file, once and in order |
| `AudioKeys.LateFileStarts` | kaudio/maudio.cpp:134-150 | a file that comes to a stopped player after the keys were read is taken up and started one turn later |
| `AudioKeys.PlayRestarts` | kaudio/maudio.cpp:113-121 | play on a stopped player starts its file anew |
| `AudioKeys.PlayGoesOn` | kaudio/maudio.cpp:113-121 | play on any other reads on where it is, also one told to stop in the same turn |
| `AudioKeys.PausesIff` | kaudio/maudio.cpp:246-292 | the player pauses exactly if the flag is set when a block has been accepted and nothing is written ahead |
| `AudioKeys.PauseHolds` | kaudio/maudio.cpp:176-190 | while the flag is set a paused player changes nothing, then it goes on with what waits |
| `AudioKeys.ReadsAhead` | kaudio/maudio.cpp:223-292 | without keys and refused writes seven blocks are read before the first is heard, all of them are heard before the eighth is read, and from then on at most one waits |
| `AccessControl.PatternMatch` | kdm/access.c:499-535 | the loop with its recursion answers as the matcher is defined, and tells when it would read behind both strings |
| `AccessGlob.MatchesIsEffectiveGlob` | kdm/access.c:499-535 | for every string and pattern the matcher accepts exactly what the pattern globs, two or more stars at its end standing for `?*` |
| `AccessGlob.MatchesIsGlobIff` | kdm/access.c:499-535 | the matcher is case-folding globbing for all strings if and only if the pattern does not end in two unescaped stars |
| `AccessGlob.OverrunIff` | kdm/access.c:499-535 | reading on behind the strings happens exactly for a trailing backslash behind a pattern that globs the string and does not end in a star |
| `AccessGlob.GlobIsGlobHere` | kdm/access.c:499-535 | cutting a string into one piece per token is the same as globbing token by token |
| `AccessControl.AccessDatabase.ScanHostlist` | kdm/access.c:452-495 | the calls made and the answer for a host list at any depth |
| `AccessControl.AccessDatabase.IndirectAlias` | kdm/access.c:537-564 | the calls made and the answer for an alias, none at the depth bound |
| `AccessControl.AccessDatabase.AcceptableDisplayAddress` | kdm/access.c:719-760 | the answer for a client: always yes without an access file or for an indirect query, otherwise by its first entry without a host list |
| `AccessControl.AccessDatabase.ForEachMatchingIndirectHost` | kdm/access.c:568-623 | where an indirect query goes: nowhere for a negated entry, to the choice for a chooser entry, otherwise to the hosts of the list |
| `AccessControl.AccessDatabase.UseChooser` | kdm/access.c:625-662 | whether the chooser is to be shown |
| `AccessControl.AccessDatabase.ForEachChooserHost` | kdm/access.c:664-712 | the hosts the chooser is given, the local one last |
| `AccessControl.ClosedScans` | kdm/access.c:452-564 | no scan of a database reads behind its strings unless an alias in it ends in an unescaped backslash |
| `AccessLists.ScanIsReachability` | kdm/access.c:448-564 | for any database, cyclic or not, the function is called for exactly the non-local hosts that a chain of at most 32 aliases leads to, and the answer is whether one leads to the local host |
| `AccessLists.NothingCutOff` | kdm/access.c:448-564 | with at most 32 different alias entries the depth bound loses nothing |
| `AccessLists.DepthBoundIsSharp` | kdm/access.c:448-564 | 33 aliases in a row lead to a host that is not found |
| `AccessLists.CompleteIff` | kdm/access.c:448-564 | all databases with n aliases or fewer are scanned completely if and only if n is at most 32 |
| `AccessLists.FirstEntryIsFirst` | kdm/access.c:719-760 | the entry used is the first one that suits the client among those with, or without, a host list |
| `AccessLists.ChooserOrForward` | kdm/access.c:568-712 | if the chooser is to be shown nothing is forwarded; a choice made is the only host forwarded to; the chooser is offered exactly the reachable hosts |
| `AccessLists.AcceptableIff` | kdm/access.c:719-760 | unless it asks indirectly a client is accepted if and only if its first entry without a host list is not negated and, for a broadcast, allows those |
| `AccessLists.UsesChooserIff` | kdm/access.c:625-662 | the chooser is shown if and only if the first entry with a host list asks for it, is not negated, and there is no choice |
| `AccessLists.IndirectHostsAre` | kdm/access.c:568-623 | an indirect query goes nowhere for a negated entry, to the choice or else to this host for a chooser entry, and to exactly the reachable hosts otherwise |
| `AccessLists.ChooserHostsAre` | kdm/access.c:664-712 | the chooser is offered exactly the hosts and broadcasts its entry leads to, this host once and last, and nothing for other entries |
| `AccessLists.SuitsIff` | kdm/access.c:719-760 | an entry suits a client by address and type, or by a pattern that globs its name |
| `AccessLists.NamesIff` | kdm/access.c:537-564 | the entries of an alias are those whose name, as a pattern, globs it |
| `ChooseCache.ChoiceCache.IndirectChoice` | kdm/choose.c:256-288 | one walk of the linked list unlinks the choices timed out before the one found and returns that |
| `ChooseCache.ChoiceCache.RegisterIndirectChoice` | kdm/choose.c:291-336 | the choice of a client is overwritten where it is or linked in front |
| `ChooseModel.LookKeeps` | kdm/choose.c:256-288 | a lookup drops only choices timed out and answers none exactly if every choice of the client is |
| `ChooseModel.LookAnswersIff` | kdm/choose.c:256-288 | a client is answered if and only if the list has a choice of its that is no older than the timeout |
| `ChooseModel.RegisterPlaces` | kdm/choose.c:291-336 | a choice takes the place of the first one of the same client and otherwise stands in front |
| `ChooseModel.CacheIsMap` | kdm/choose.c:256-336 | if the clocks of the questions do not go back, every answer of the list is that of a map from clients to their latest choice, and the list holds one choice per client |
| `ChooseModel.AgreeIffForward` | kdm/choose.c:256-336 | for any times of questions: list and map agree in all runs that ask at these times if and only if the times never go back |
| `XauthMerge.Xauth.SetNumber` | kdm/auth.c:1021-1049 | the number is that of the display name, or stays if the name has no colon |
| `XauthAlgebra.NumberIs` | kdm/auth.c:1021-1049 | the number is what stands behind the last colon and before the first dot after it |
| `XauthMerge.BinaryEqual` | kdm/auth.c:494-503 | equal exactly if all bytes are |
| `XauthMerge.AuthorityMerge.SaveEntry` | kdm/auth.c:572-619 | the key of the entry is known from now on |
| `XauthMerge.AuthorityMerge.CheckEntry` | kdm/auth.c:621-640 | found exactly if family, address, number and name have been saved together |
| `XauthMerge.AuthorityMerge.WriteAuth` | kdm/auth.c:644-656 | the entry is the last of the file, unless nothing is to be written |
| `XauthMerge.AuthorityMerge.WriteAddr` | kdm/auth.c:658-672 | an entry for this address is written and its key saved |
| `XauthMerge.AuthorityMerge.DefineSelf` | kdm/auth.c:901-969 | one entry for each interface address but empty ones and 127.0.0.1 |
| `XauthMerge.AuthorityMerge.WriteLocalAuth` | kdm/auth.c:1051-1089 | entries for the interfaces and the host name |
| `XauthMerge.AuthorityMerge.WriteRemoteAuth` | kdm/auth.c:1093-1120 | one entry for the peer, those of this host if the peer is local, none without a peer |
| `XauthMerge.SetUserAuthorization` | kdm/auth.c:1189-1247 | the new file: the entries of the first cookie, of the other authorizations, then the old entries with other keys |
| `XauthMerge.RemoveUserAuthorization` | kdm/auth.c:1309-1337 | the new file: the old entries with other keys |
| `XauthMerge.AllKeysAreKeys` | kdm/auth.c:1189-1337 | setting and removing go by the same keys although they visit the authorizations in different orders |
| `XauthAlgebra.SetIdempotent` | kdm/auth.c:1189-1261 | setting twice is setting once |
| `XauthAlgebra.RemoveAfterSet` | kdm/auth.c:1189-1347 | removing after setting is removing; it restores a file that had none of the keys |
| `XauthAlgebra.SetAndRemoveCommuteIff` | kdm/auth.c:1189-1347 | setting one display and removing another commute on all files if and only if they share no key |
| `XauthAlgebra.LookupAfterSet` | kdm/auth.c:1233-1247 | for the keys of the display the new entry is found first, for every other key what was found before |
| `XauthAlgebra.CookieFirst` | kdm/auth.c:1189-1211 | for each address of the display the first entry of all is the magic cookie, if there is one |
| `XauthEntries.SetWrites` | kdm/auth.c:901-1247 | which entries are in the file after setting: for a display on this machine those of the host name and every interface but 127.0.0.1, otherwise that of the peer, each with number, name and data of one of the authorizations, and of the old entries those with other keys; after removing only the latter |
| `XauthEntries.SetCounts` | kdm/auth.c:901-1211 | each authorization is written once for the host name and once for each such interface, or once for the peer, or not at all |
| `XauthEntries.SetFindsFirst` | kdm/auth.c:1189-1247 | under each of those keys the data of the first authorization with that number and name are found, nothing for Kerberos |
| `AllocTracker.Tracking.Insert` | kdehelp/dbnew.cpp:353-365 | the record is the head of a list still well linked both ways |
| `AllocTracker.Tracking.Remove` | kdehelp/dbnew.cpp:369-386 | the record at Curr leaves, the list stays well linked both ways |
| `AllocTracker.Tracking.GetMem` | kdehelp/dbnew.cpp:195-237 | the new block is in front, all counters as the report needs them |
| `AllocTracker.Tracking.CheckMem` | kdehelp/dbnew.cpp:295-332 | a new and a delete of different kinds are counted |
| `AllocTracker.Tracking.ReleaseMem` | kdehelp/dbnew.cpp:241-293 | the block with the address leaves the list, or the delete is bad |
| `AllocModel.RunBalanced` | kdehelp/dbnew.cpp:195-293 | after every run: addresses distinct, UsedMem the sum of the live sizes in 32 bits, news of both kinds minus deletes of both kinds the number of live blocks, and kind by kind while no delete was incorrect |
| `AllocModel.UsedIff` | kdehelp/dbnew.cpp:231-232 | UsedMem is the memory in use if and only if that is below 2^31 |
| `AllocModel.PeakIff` | kdehelp/dbnew.cpp:231-234 | PeakMem is the most memory ever in use if and only if that is below 2^31 |
| `AllocModel.BadDeleteIff` | kdehelp/dbnew.cpp:241-293 | a delete is bad exactly if the address is not in use, and then changes nothing but that counter |
| `AllocModel.InUseIff` | kdehelp/dbnew.cpp:195-293 | the blocks reported as left are those whose last event is their allocation |
| `AllocModel.CountersAre` | kdehelp/dbnew.cpp:195-332 | over any sound run each counter grows by the number of events it stands for, and TotalMem by all bytes allocated, in 32 bits |
| `XdmcpSenders.SendWilling` | kdm/xdmcp.c:677-700 | the packet is a Willing with its fields in the order of the standard, the size of the body modulo 2^16 in the header |
| `XdmcpSenders.SendUnwilling` | kdm/xdmcp.c:702-723 | the packet is an Unwilling with its fields in the order of the standard, the size of the body modulo 2^16 in the header |
| `XdmcpSenders.SendAccept` | kdm/xdmcp.c:913-939 | the same of Accept, whose length is added up field by field in 16 bits |
| `XdmcpSenders.SendDecline` | kdm/xdmcp.c:941-961 | the same of Decline, the status in front although it is passed last |
| `XdmcpSenders.SendFailed` | kdm/xdmcp.c:1123-1146 | the same of Failed |
| `XdmcpSenders.SendRefuse` | kdm/xdmcp.c:1148-1162 | the same of Refuse, whose size is fixed |
| `XdmcpSenders.SendAlive` | kdm/xdmcp.c:1193-1201 | the same of Alive, whose size is fixed |
| `XdmcpSenders.IndirectRespond` | kdm/xdmcp.c:241-293 | an IndirectQuery whose length is that of its names becomes a ForwardQuery with the address, port and names |
| `XdmcpSenders.ForwardRespond` | kdm/xdmcp.c:568-667 | what is taken from a ForwardQuery: nothing if the length is wrong or address and port make no address of the sender's family |
| `XdmcpPackets.RoundTripIff` | kdm/xdmcp.c:677-961 | a packet any sender builds is decoded to what was sent if and only if its body is smaller than 2^16 bytes |
| `XdmcpPackets.DecodedIsEncoded` | kdm/xdmcp.c:568-599 | whatever is taken is a packet as the senders build it, followed by anything |
| `XdmcpPackets.OnTheWire` | kdm/xdmcp.c:677-961 | the bytes sent: version 1, the opcode, the size of the rest modulo 2^16 and the fields in order with their lengths in front, all most significant byte first |
| `XdmcpSenders.ForwardingKeepsIff` | kdm/xdmcp.c:241-599 | a forwarded query arrives with the same address, port and names if and only if it fits into the 16 bits of the header and the address can be used |
| `XdmcpSenders.DatagramIsForwarded` | kdm/xdmcp.c:241-599 | every IndirectQuery that fits into one UDP datagram is forwarded intact |
| `FindBuffer.Kfind.Append` | kfind/kfind.cpp:172-175 | the string in the buffer grows by the chunk up to its first NUL |
| `FindBuffer.Kfind.MoveDown` | kfind/kfind.cpp:186-186 | the string behind a place is moved to the front of the same array |
| `FindBuffer.Kfind.TakeLine` | kfind/kfind.cpp:180-186 | the first line becomes a result, the buffer holds what is behind it |
| `FindBuffer.Kfind.HandleStdout` | kfind/kfind.cpp:170-188 | the finished lines are appended to the results, the unfinished one stays in the buffer |
| `FindLines.SplitIsText` | kfind/kfind.cpp:177-187 | lines and tail put together are the text, and none contains a newline |
| `FindLines.SplitIsUnique` | kfind/kfind.cpp:177-187 | there is no other way to split it |
| `FindLines.ChunksAreSplit` | kfind/kfind.cpp:170-188 | over any chunks the results are the lines of all the output seen, the buffer its tail |
| `FindLines.CutsDoNotMatterIff` | kfind/kfind.cpp:170-188 | every way to cut an output gives the same results if and only if nothing but NULs follows a NUL |

## Left out

- BookmarkExact.RoundTripIff: for titles without a carriage return, which the tokenizer uses as its own escape character.
- BookmarkTitles.MarkedRoundTripIff: for tags without attributes that read does not act on; escape characters elsewhere in a title are not decided.
- BookmarkReadBack.ReadGeneral: without `&`, as entities are converted by KCharsets, which is not part of this model.
- BookmarkAttributes.AnchorIsParsed: for quoted values that have no quotes inside, do not end in `=` and, but for href, have no blanks; values without quotes only as the last attribute; without `&`.
- BookmarkAttributes.AnchorRun: the same.
- BookmarkRoundTrip.ReadWritten: without `&`, and for URLs that do not end in `=`; ReadGeneral has those.
- BookmarkLexer.BookmarkTokenizer.Turn: without the branch for `&`, for the same reason.
- BookmarkLexer.BookmarkTokenizer.Write: for strings without `&`.
- BookmarkManager.KBookmarkManager.ReadFile: for files without `&`.
- XdmcpPackets.RoundTripIff: the repository decodes only the forwarded query; the decoders of the other packets, which run on the display's side, are this model's own reading of section 8 of the protocol.
- XdmcpSenders.ForwardRespond: for the four families of addresses with a case. Any other leaves the address unset, and cannot come from the UDP socket.
- DisplaySessions.PhaseRun: while fewer than 2^32 session IDs are issued; after that they repeat.
- DisplaySessions.StartedOnceIff: the same.
- AllocModel.RunBalanced: for a malloc that gives out no address in use.
- AudioStreaming.ExactStreaming: for media that fit below 2^32 bytes; OverreadIff says what happens otherwise.
- ChooseModel.CacheIsMap: for questions whose times do not go back; AgreeIffForward shows that nothing less will do.
- FindBuffer.Kfind.HandleStdout: only for chunks that fit behind the tail in the buffer; the code does not check and would write behind the array.
- AccessControl.AccessDatabase.ScanHostlist: if no comparison it makes reads behind its strings; OverrunIff says which do, and what the program then does is undefined. The same holds of the other methods of the class.
- AudioPlayer.AudioSample.ReadDataI: a negative number of bytes to read gives 0 here, while the original would pass it to fread as a huge count; NeverNegative shows that it needs seeking, which is left out.
- Bookmarks: lines read in pieces of 255 characters, the growth of the token buffer, and add, remove, rename and move, which only edit the child list.
- Display manager: signals and the races around `wait`, the pause between server starts, the configuration files behind the resources, the words of a servers line behind name and location, authorization data and the packets sent when a start fails. A start of a server is one step that succeeds or fails.
- XDMCP: packets that cannot be parsed are no events; name lookups are given with the event.
- Audio: seeking, the silence sent while nothing plays, partial writes, the release of the device, and the probing of the header, which is taken to be canonical. Reading on after a file could not be probed is undefined in the original; the model reads nothing.
- Access control: reading the file. Host names and addresses are given; the chooser's answer is an argument of the functions that ask for it.
- Choices: the list of indirect clients and the hexadecimal argument of the chooser, which would add easy members.
- Authority files: locking, opening, renaming, permissions and the environment of the user; lengths are those of the data and not cut to 16 bits. DECnet addresses.
- Allocator: file and line of an allocation, the check for overwritten bounds, which only prints, and Append, which nothing calls; calls before the report writer exists or after it is gone, which go straight to malloc and free. The counters of calls are unbounded.
- kfind: the signal that there is a first result.
- Running out of memory, debug output and log files, everywhere.
