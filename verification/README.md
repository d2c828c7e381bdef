# A verified model of kdesu

kdesu runs programs with another user's rights. A client library talks to a daemon, `kdesud`, over a
socket; the daemon keeps passwords and variables for a limited time and starts programs through su, sudo
or ssh; on the other side of the terminal the helper `kdesu_stub` asks for its parameters and starts the
command. Five byte-level protocols have to agree across files, and two languages, for this to work. The
project models them and proves that they do, or exactly when they do.

| files | what they model |
|---|---|
| `ByteStrings` `Order` | QByteArray values, C character classes, decimal numbers, the order of a QMap |
| `Client` `Lexer` `Grammar` `Framing` `Delivery` | the request builders and quoting, the tokenizer, the command grammar, the reassembly of received chunks, and the four together |
| `TimedMap` `Repository` `Groups` `GroupListing` | the store: a plain timed map as specification, the class with `head_time`, the group listing |
| `Session` `Handler` `Daemon` `Inputs` `Kdesud` | the effect of one command, the connection handler object, runs of the whole daemon as events and as inputs of its main loop, the main loop object |
| `Connections` `Replies` `Lifetimes` `Launches` `Strangers` | what each request does, in terms of the earlier requests of the run: settings, answers, lifetimes, the programs started and their passwords |
| `Environments` `PasswordCache` `Turns` `SafeStrings` `Orphans` `ExitCodes` `Variables` | further whole-run properties of the daemon |
| `Quoting` `StubWords` `StubProcess` `Stub` `StubConversation` `Parameters` | both sides of the parameter conversation, the two joined by channels, and the way from EXEC to the parameters |
| `PtyProcess` `SignalCount` `TerminalLines` `StubOutput` `Prompt` `SuProcess` `SshProcess` | line buffer, exit string, lines out of pieces, prompt recogniser, password conversations |

Objects whose methods change their fields are classes (`Lexer`, `Repository`, `ConnectionHandler` with its
1024-byte array, `MainLoop`, `LineBuffer`, `ExitMatcher`, `SshConversation`), loops are loops, and `dequote`
works in place on an array. Each is proved against a function of its inputs: `Lex`, `Parse`, `Lines`/`Tail`,
`Apply`/`Answer`, `Perform`/`Serve`, `Step`/`StateAt`, `ParentRun`, `StubRun`, `Decode`, `TakeLine`, `Drain`,
`SuRun`, `SshRun`, `NodeStep`. The theorems are about these functions; what a request does is also said without
them, in terms of the requests before it (`Connections` to `Launches`) and of what the stub ends up with
(`Parameters`).

The outside world is input: chunks returned by `recv` and `read`, the clock (one value for each command and
for each sweep), the results of `fork` and `waitpid`, whether more output waits and whether the terminal
went silent. `recv` returns between one byte and the room left in the buffer. A null QByteArray is `None`.
Passwords handed over as C strings are the bytes before their NUL.

## What the proofs found

Where a property turned out to need a condition, the exact condition is proved:

- Quoting is undone if and only if the string has no byte 127, which the lexer refuses and `escape` does not
  escape. A request is delivered if and only if no argument has that byte and no int is negative: the lexer
  reads `-1` as a string (`QuotingRoundTrip`, `ParseInvertsWire`).
- A timeout that does not fit an int is taken for 0, which asks for no limit (`AnyNumber`).
- As long as no read fills the buffer to 1023 bytes, chunk borders do not matter; one that does is refused, even
  when it ends a line, and nothing in it is served. A stream is safe under every cut if and only if it is
  shorter than that, and refused under every cut if and only if one of its lines or its end is not
  (`HandleAll`, `AcceptedForEveryCut`, `AcceptedForSomeCut`).
- With a host, EXEC passes on command and user, but neither environment nor priority nor scheduler; and the
  option `x` makes no difference, since the child's default is what it sets (`ExecReachesStub`).
- EXEC compares environments as one string, in which a `*` can be a border between two entries. No other
  environment compares equal if and only if there is no entry (startup ids aside), or one in which every `*` is
  followed by a startup id; without `*` the comparison is exact (`ToldApartExactly`, `StarFreeExactly`). What
  the cache is proved to serve is stated accordingly (`NoPasswordNoLaunch`).
- The password and environment entries of the cache stay together under DELS if and only if its argument is
  neither `2` nor begins with `2*` (`SpecialKeepsPairs`). If environments have no `*`, then a program can be
  started without PASS and without a password stored for its environment with such an argument, short enough
  for one line, and with no other (`DelsArgumentsExactly`).
- They stay together under every sweep if and only if both `add` calls read the same time or there is no limit
  (`PairNeedsOneClock`); the results about runs take one clock value for each command.
- A password is served until the first sweep at or after the end of the timeout that came with it in PASS,
  counted from the EXEC that stored it, not from the PASS (`PasswordLives`).
- DEL forgets a cached password if and only if the user it names is the one EXEC authenticates as, so not
  after a raised priority (`DelForgetsExactly`).
- A host, user and command have a cache key of their own if and only if none of them contains a `*`
  (`KeyIsItsOwnExactly`).
- A value comes back from GET if and only if it has no NUL byte and its reply fits one read of 1023 bytes; with
  a NUL the client also cuts one byte too many (`ReplyIsExact`, `KeptOfValue`). The reply to a SET that was
  accepted always fits; the list of a group need not, and then its last name may be cut (`LongListIsCut`).
- `getKeys` leaves out a name that is part of an earlier one (`GroupNamesRoundTrip`).
- `expire()` equals a full sweep unless an expired entry has the empty key, which the daemon never makes
  (`SweepIsFull`).
- That SIGTERM is sent at all does not depend on how the output arrives; how often does not if and only if no
  exit string at a line start is directly followed by another (`SignalCountIsExact`).
- `unreadLine` undoes `readLine` if and only if the line had its newline. After converseSU, converseStub meets
  an empty line and fails if and only if the output goes on with a newline too many, which is the header's own
  newline when that arrives later (`UnreadUndoesRead`, `HeaderThenStub`).
- `converseStub` returns 0 on the stub's output if and only if each of its reads has come as far as the newline
  of its line, the last one as far as the word `end` (`StubIsHeardExactly`).
- With su, `checkNeedPassword` answers 1 both for "su not found" and for "a password is needed"
  (`NeedPasswordIsAmbiguous`). With ssh, `checkInstall` answers 0 also when `converseStub` has refused
  (`SshProcess.Exec`).

The code and its comments disagree in these places, and the model follows the code: the regular expression
above the prompt loops (suprocess.cpp:257, sshprocess.cpp:189) wants a character before the `:` and word
characters behind it, the code accepts a lone `:` and only blanks behind it (`PromptExactly`); DELG and
DELS are documented with a newline (handler.cpp:385, 400) that the code does not look for (`StringCommandsExactly`).

## Model

| member | source | states |
|---|---|---|
| Lexer.Lex | src/kdesud/lexer.cpp:37-163 | on any bytes, framed or not, one call reads no further than the terminating zero, and every token but Tok_none moves the cursor forward and stays inside the line |
| Lexer.Lexer.Scan | src/kdesud/lexer.cpp:37-58 | the cursor-based lex() from any position up to the terminator: never indexes past it, and token, value and new cursor are those of Lex |
| Client.Escape | src/client.cpp:160-179 | the loop builds the quoted form |
| Client.QuotingRoundTrip | src/client.cpp:160-179 | before any rest, the quoted argument is read back as that string with the cursor just past the closing quote iff it has no byte 127; iff it has one there is no token; so no argument text becomes a command |
| Client.EscapeHasNoNewline | src/client.cpp:160-179 | quoting leaves no newline, whatever the string |
| Client.BuildExec | src/client.cpp:221-238 | the builder with its loop over the environment makes the wire form of EXEC |
| Client.BuildSetVar | src/client.cpp:275-287 | the builder makes the wire form of SET |
| Client.RequestIsOneLine | src/client.cpp:211-381 | the only newline of any request is its last byte, for all arguments |
| Grammar.TakesStr | src/kdesud/handler.cpp:240-249 | a string argument written by the client is taken whole iff it has no byte 127 and is never mistaken for the end of the line |
| Grammar.TakesNum | src/kdesud/handler.cpp:182-186 | a number argument is read back if it is not negative and refused if it is |
| Grammar.TakesEnv | src/kdesud/handler.cpp:255-268 | the environment list is read back as the same list in order iff no entry has a byte 127 |
| Grammar.ParseInvertsWire | src/kdesud/handler.cpp:172-539 | for every request of the client interface, the daemon reads exactly that request if it is deliverable and a parse error otherwise |
| Grammar.StringCommandsExactly | src/kdesud/handler.cpp:363-410 | for any rest of the line: a command with one string is done iff the string is deliverable and the line ends behind it, except that DELG and DELS do not look |
| Grammar.AnyNumber | src/kdesud/handler.cpp:182-186 | a number of any length is read by its value if it fits an int and as 0 if it does not |
| Grammar.UnknownExactly | src/kdesud/handler.cpp:526-533 | a line is answered NO rather than refused silently iff it does not begin with a command word |
| Framing.LinesAreFramed | src/kdesud/handler.cpp:85-92 | every line handed on has exactly one newline, at its end |
| Framing.LinesLoseNothing | src/kdesud/handler.cpp:85-92 | the lines handed on followed by the rest are the stream |
| Framing.FramingIgnoresChunkBorders | src/kdesud/handler.cpp:77-92 | of the buffering alone: unless the buffer fills up, the lines framed over a whole run of chunks are the newline-terminated segments of the stream and the buffer is the newline-free rest |
| Framing.FramingNeverInvents | src/kdesud/handler.cpp:77-92 | of the buffering alone: when it fills up, what was framed before is an initial part of those segments |
| Framing.RoomForTheNextByte | src/kdesud/handler.cpp:64-81 | after every accepted run the next recv has room for at least one byte |
| Framing.AcceptedForEveryCut | src/kdesud/handler.cpp:77-81 | a stream is accepted however recv cuts it iff it is shorter than 1023 bytes |
| Framing.AcceptedForSomeCut | src/kdesud/handler.cpp:77-81 | it is refused however recv cuts it iff some line, newline included, or its unterminated end has 1023 bytes or more |
| Delivery.ServeAppend | src/kdesud/handler.cpp:83-101 | serving lines in two parts is serving them in one, and nothing follows a refusal or STOP |
| Delivery.WiresHaveTheirEffect | src/kdesud/handler.cpp:155-539 | the lines of any list of requests have exactly the effect of performing all, or those up to and with the first STOP, or those before the first that is not deliverable |
| Delivery.EndToEndDelivery | src/kdesud/handler.cpp:58-102 | the same for the list sent as a stream and cut into any chunks; if the buffer fills up, for the requests whose lines were complete before, and then the connection ends |
| Delivery.RefusedLine | src/kdesud/handler.cpp:526-539 | a refused line ends the connection with nothing done, answered NO iff it has no command word |
| Delivery.StrangersGetNoAnswer | src/kdesud/handler.cpp:155-163 | a peer who is not the owner gets no answer, changes nothing and is dropped at the first line |
| TimedMap.SweepIsFull | src/kdesud/repo.cpp:151-176 | after a sweep nothing expired is left iff no expired entry sits under the empty key |
| TimedMap.SweepCounts | src/kdesud/repo.cpp:151-176 | what expire() returns is the number of entries by which the store got smaller |
| TimedMap.GroupOperationsAgree | src/kdesud/repo.cpp:75-105 | DELG deletes exactly the group, answers as CHKG would, leaves every other entry and group unchanged, and CHKG fails afterwards |
| TimedMap.SpecialIsExact | src/kdesud/repo.cpp:56-73 | DELS deletes exactly the entries whose group begins the argument and whose key contains it, and answers whether there was one |
| TimedMap.LifetimeIsExact | src/kdesud/repo.cpp:151-176 | over any run that spares it, an entry is there unchanged iff no sweep came at or after its deadline |
| TimedMap.LifetimeOfWireTimeout | src/kdesud/repo.cpp:25-38 | an entry set at s with timeout t is found until the first sweep at or after s + t, for ever if t is 0 |
| Repository.Repository.Add | src/kdesud/repo.cpp:25-38 | is the map's add with the wrapping deadline and keeps head_time a lower bound |
| Repository.Repository.Remove | src/kdesud/repo.cpp:40-54 | deletes that key only, refuses the empty key, keeps the bound |
| Repository.Repository.RemoveSpecialKey | src/kdesud/repo.cpp:56-73 | is the map's DELS with its answer |
| Repository.Repository.RemoveGroup | src/kdesud/repo.cpp:75-92 | is the map's DELG with its answer |
| Repository.Repository.HasGroup | src/kdesud/repo.cpp:94-105 | 0 iff the group is named and some entry has it |
| Repository.Repository.Find | src/kdesud/repo.cpp:138-149 | the stored value, null for a missing or the empty key |
| Repository.Repository.Expire | src/kdesud/repo.cpp:151-176 | the early return changes nothing: the same entries go as in a full sweep, the count is returned, and the new head_time is a bound again |
| Repository.Repository.RunAll | src/kdesud/repo.cpp:25-176 | over any run of operations the object holds the table of the plain timed map and gave the same answers |
| Groups.FindKeysLoop | src/kdesud/repo.cpp:107-136 | the walk in key order builds the joined list |
| Order.InOrderIsSorted | src/kdesud/repo.cpp:115 | the walk over the map meets each key once and none before a smaller one |
| Groups.SplitLoop | src/client.cpp:306-325 | the loop returns the pieces between BEL bytes, none for an empty reply |
| Groups.SplitOfPrefix | src/client.cpp:306-325 | the pieces of an initial part of a list are its first pieces and the beginning of one more |
| Groups.GroupNamesRoundTrip | src/kdesud/repo.cpp:107-136 | for BEL-free names the split list is duplicate-free, contains a name iff it is the cut name of an entry and part of no earlier one, and every cut name occurs in the reply |
| Groups.NamesAreCutNames | src/kdesud/repo.cpp:115-121 | the names met are those of the entries of the group, no others |
| GroupListing.OnlyVariablesHaveGroups | src/kdesud/handler.cpp:282-298 | in every reachable store the entries with a group are variables, never cached passwords |
| GroupListing.CutOfVarKey | src/kdesud/repo.cpp:119-121 | cutting a variable's key gives the variable's name up to its last '-' |
| GroupListing.GetKeysListsTheGroup | src/client.cpp:299-326 | in every reachable store, if the reply fits one read: getKeys returns distinct names, each the cut name of a variable of that group, and every cut name occurs in the reply |
| GroupListing.ListIsExact | src/client.cpp:191-207 | getKeys gets exactly the list that was sent iff it has no NUL and fits one read |
| GroupListing.LongListIsCut | src/client.cpp:191-207 | of a longer list it gets the split of the first 1019 bytes: the first elements, unchanged, and the beginning of one more |
| Handler.ConnectionHandler.ReadEnv | src/kdesud/handler.cpp:255-268 | the loop ends on every input, reads the list that the grammar prescribes and builds the filtered environment |
| Handler.ConnectionHandler.Execute | src/kdesud/handler.cpp:270-310 | cache hit, miss with and without a password, and fork failure leave the connection and the store as specified |
| Handler.ConnectionHandler.DoCommand | src/kdesud/handler.cpp:155-539 | any line whatever from the owner has exactly the effect that grammar and semantics prescribe; a line from anybody else has none and is refused |
| Handler.ConnectionHandler.Shift | src/kdesud/handler.cpp:88-91 | moving the array's contents down drops the first n bytes and keeps the others in order |
| Handler.ConnectionHandler.DoLines | src/kdesud/handler.cpp:83-101 | serves exactly the complete lines in the buffer, up to the first that is refused, and keeps the rest |
| Handler.ConnectionHandler.Handle | src/kdesud/handler.cpp:58-102 | for each outcome of recv: dropped or kept, which commands were done, what is buffered, and room left for the next recv |
| Handler.ConnectionHandler.HandleAll | src/kdesud/handler.cpp:58-102 | handle() called on chunk after chunk serves exactly the lines of the whole stream up to the first refusal or STOP while the buffer does not fill, and exactly the lines before that when it does |
| Handler.HandleClient | src/kdesud/handler.cpp:58-102 | from the client's list of requests in any chunks to the handler and repository objects: they end up as the requests say |
| Daemon.StoreRun | src/kdesud/kdesud.cpp:453-535 | over any stretch of any run of the daemon the store is the timed map run by the operations of the events |
| Inputs.InputsAreARun | src/kdesud/kdesud.cpp:453-535 | the main loop driven by select, accept, recv and waitpid is the daemon run by the events of its inputs |
| Inputs.ServeIsARun | src/kdesud/handler.cpp:83-101 | handling the lines of one recv equals a run of one event for each line: after a refusal or STOP the rest has no effect |
| Inputs.DrainIsARun | src/kdesud/kdesud.cpp:478-492 | draining all exited children equals a run of one reaping event for each |
| Inputs.ConnectionIsFramed | src/kdesud/kdesud.cpp:528-533 | in every run, whatever happens on other descriptors, the lines handed to doCommand on an open connection are the segments of what was received on it since it was accepted, and its buffer holds the rest |
| Inputs.CompletedAlone | src/client.cpp:187-192 | for a client that waits for its replies, the input that completes a request is the dispatch of that request and of nothing else |
| Daemon.KeysAreDistinct | src/kdesud/handler.cpp:104-111 | keys of different spaces, or with different bodies, never collide |
| Daemon.VarKeysAreDistinct | src/kdesud/handler.cpp:104-111 | different variables have different keys, whatever bytes their names have |
| Daemon.PassKeysAreInjective | src/kdesud/handler.cpp:104-111 | without '*' in host and user a password key determines host, user and command |
| Daemon.KeyIsItsOwnExactly | src/kdesud/handler.cpp:104-111 | no other host, user and command have the same key iff none of the three contains a '*' |
| Connections.LastOfMeans | src/kdesud/handler.cpp:175-234 | what "the last such request of this connection" means, by quantifiers over the run |
| Connections.FieldsAreAsked | src/kdesud/handler.cpp:175-234 | in every run, on every connection: password and timeout, host, priority and scheduler are the arguments of its last PASS, HOST, PRIO and SCHD since it was accepted, or none, none, none, 50 and normal |
| Connections.RootIsAuthenticated | src/kdesud/handler.cpp:270-275 | EXEC authenticates as root iff the last SCHD was not the normal one or the last PRIO above 50, otherwise as the user it names |
| Connections.ConnectionEnds | src/kdesud/kdesud.cpp:508-533 | a hangup or a refused line ends the connection, and an accept begins one with nothing set |
| Replies.DelsIsExact | src/kdesud/handler.cpp:400-411 | DELS s deletes exactly the entries whose group is an initial part of s and in whose key s occurs, none for an empty s, and answers OK iff there was one |
| Replies.DelIsExact | src/kdesud/handler.cpp:339-361 | DEL deletes exactly the password of that command, user and the host in force, and answers OK iff there was one |
| Replies.DelVarIsExact | src/kdesud/handler.cpp:363-383 | DELV deletes exactly that variable and answers OK iff there was one |
| Replies.GroupsAreExact | src/kdesud/handler.cpp:385-398 | DELG deletes exactly the entries of the group, CHKG none; both answer OK iff the group is named and has an entry |
| Replies.LookupsAreExact | src/kdesud/handler.cpp:443-478 | GET answers the value of that variable, GETK the list of the group, NO for nothing; neither changes the store |
| Replies.SetIsExact | src/kdesud/handler.cpp:413-441 | SET changes exactly that variable, with the deadline as an unsigned sum, and answers OK |
| Replies.OthersAnswerOk | src/kdesud/handler.cpp:497-524 | PASS, HOST, PRIO, SCHD, PING and STOP answer OK and leave the store alone, EXIT leaves it alone |
| Replies.OnlyStopStops | src/kdesud/handler.cpp:516-524 | STOP, and no other request, ends the daemon |
| Lifetimes.VariableLives | src/kdesud/repo.cpp:25-38 | over any events that do not touch the variable otherwise, GET is answered with the value of SET iff no sweep came at or after the end of its timeout, and with NO if one did |
| Launches.ExecIsExact | src/kdesud/handler.cpp:282-334 | EXEC starts one program iff there is a password, cached or of the last PASS, and fork succeeds: su iff no host is in force, ssh to that host otherwise, with the arguments of EXEC and of the last PRIO and SCHD and that password; otherwise it answers NO |
| Launches.ExecStores | src/kdesud/handler.cpp:276-297 | EXEC stores the pair of environment and password iff nothing was cached and there was a PASS, with that PASS's timeout from now on, and otherwise changes nothing |
| Launches.PasswordLives | src/kdesud/repo.cpp:25-38 | what an EXEC stored, the argument p of the last PASS with timeout t, is in the cache for an EXEC with the same key iff the environments compare equal and no sweep came at or after the end of t, over any events that do not touch it otherwise |
| Launches.StartsWithAPass | src/kdesud/handler.cpp:276-334 | in every run without a cutting DELS, every program is started with the argument of a PASS: the last one of the connection of an EXEC with the same key and environment, itself or earlier, whose timeout no sweep in between has reached |
| Strangers.StrangersAreRefused | src/kdesud/handler.cpp:155-163 | in every run, whatever somebody else sends in whatever chunks: store and other connections stay as they are, nothing is answered, and the connection is over with the first complete line |
| Strangers.EndsWithoutCommand | src/kdesud/handler.cpp:58-81 | end of stream, error and full buffer end a connection with nothing else done, an interrupted recv changes nothing |
| Kdesud.MainLoop.Accept | src/kdesud/kdesud.cpp:508-525 | a new connection takes the place of its descriptor, the others stay |
| Kdesud.MainLoop.ReapChildren | src/kdesud/kdesud.cpp:474-493 | one wake-up reaps every child reported until waitpid has none left |
| Kdesud.MainLoop.Dispatch | src/kdesud/kdesud.cpp:528-533 | table, store and buffers after one readable descriptor, for each outcome, owner or not, with all other connections unchanged |
| Kdesud.MainLoop.Turn | src/kdesud/kdesud.cpp:460-534 | one turn of the loop, the sweep first and then every readable descriptor, leaves handlers, buffers and store as the machine of inputs does, or the daemon has stopped |
| PasswordCache.SpecialKeepsPairs | src/kdesud/repo.cpp:56-73 | a DELS argument keeps every paired store paired iff it is neither "2" nor begins with "2*" |
| PasswordCache.HarmlessKeepsPairs | src/kdesud/repo.cpp:25-176 | every other operation of the daemon keeps both entries of a pair or neither, unchanged, with one deadline |
| PasswordCache.RememberStores | src/kdesud/handler.cpp:288-296 | EXEC stores a pair with the right values and one deadline and touches no other pair |
| PasswordCache.EventKeepsPairs | src/kdesud/kdesud.cpp:453-535 | any event leaves each pair alone, alive after a sweep, or is the EXEC that stored it |
| PasswordCache.PairNeedsOneClock | src/kdesud/repo.cpp:31-35 | when the two add() calls of EXEC read different times, the pair stays together under every sweep iff it has no limit |
| PasswordCache.PairsHaveOrigins | src/kdesud/handler.cpp:270-297 | in every run without a cutting DELS, the clock standing still within a command, every cached password has its environment beside it and comes, with its deadline, from an earlier EXEC, and was alive at every sweep since |
| Environments.ToldApartExactly | src/kdesud/handler.cpp:257-278 | no environment with other entries (startup ids aside) compares equal to this one iff it has no entry, or one in which every '*' is followed by a startup id |
| Environments.StarFreeExactly | src/kdesud/handler.cpp:257-278 | environments without '*' compare equal iff they have the same entries, startup ids aside |
| PasswordCache.CacheServesOnlyWhatWasStored | src/kdesud/handler.cpp:276-297 | whatever the cache serves was stored by an earlier EXEC with the same key and an environment that compares equal, hence with the same entries if neither has a '*' or one is told apart from all others |
| PasswordCache.NoPasswordNoLaunch | src/kdesud/handler.cpp:282-333 | a program is started on a connection without PASS only with a password stored by such an EXEC: for the same host, user and command when no '*' is involved, and for the same environment under the condition just named |
| Turns.LaunchIsLiveAtItsTurn | src/kdesud/kdesud.cpp:468-533 | and that password was still live at the sweep with which the turn began, or was stored after it |
| SafeStrings.StrLineIsRead | src/kdesud/lexer.cpp:72-100 | every string, byte 127 too, can be sent to the daemon as an argument, though not by the client's quoting |
| SafeStrings.DelsLineIsNotShorter | src/kdesud/lexer.cpp:37-163 | and no line that is read as that DELS is shorter |
| Orphans.DelsArgumentsExactly | src/kdesud/repo.cpp:56-73 | there is a run of the main loop with legal reads, with no other DELS argument and no '*' in environments, that starts a program without PASS and without a password stored for its key and environment iff the argument is "2" or begins with "2*" and its shortest line fits the buffer |
| PasswordCache.StoredPasswordServes | src/kdesud/handler.cpp:276-297 | conversely, a stored password serves later EXECs until it is overwritten, deleted or swept |
| PasswordCache.DelForgetsExactly | src/kdesud/handler.cpp:339-361 | DEL forgets the password that EXEC would use iff the named user is the authenticating one |
| ExitCodes.EventAgrees | src/kdesud/kdesud.cpp:469-534 | any event keeps any connection's flags in agreement with what was observed |
| ExitCodes.HandlersAgree | src/kdesud/kdesud.cpp:453-535 | so throughout every run with distinct live children and at most one EXEC and one EXIT each, and the process ids stay distinct |
| ExitCodes.ExitCodesAreDelivered | src/kdesud/kdesud.cpp:474-493 | at every moment of every such run each open connection has been sent its child's status exactly once if the child was reaped and the code asked for, in whichever order, and otherwise not at all |
| Variables.VariableSurvives | src/kdesud/handler.cpp:413-460 | a variable is found by any later event as long as nothing in between sets, deletes or expires it; EXEC and DEL never do |
| Variables.ReplyIsExact | src/client.cpp:191-209 | getVar gives back the value, or nothing for none, iff the value has no NUL and the reply fits one read |
| Variables.KeptOfValue | src/client.cpp:191-207 | what is kept of any value: all of it, what precedes its first NUL less one byte, or its first 1019 bytes |
| Variables.AnswersAreToldApart | src/client.cpp:200-203 | command() succeeds on every answer but NO |
| Variables.ExitCodeIsRead | src/client.cpp:368-376 | the exit code that is sent is the one that the client reads |
| Variables.ReplyFits | src/client.cpp:191-192 | if the SET line fits the daemon's buffer, the reply to GET fits the client's read |
| Variables.SetThenGet | src/client.cpp:275-297 | in any run of the main loop: SET and GET in any chunks on any two connections of clients that wait for their replies, with any events between them that leave the variable alone: getVar returns the very value, newlines, quotes and backslashes included |
| Quoting.EncodeLoop | src/stubprocess.cpp:76-92 | the loop builds the encoded form |
| Quoting.DecodeInvertsEncode | src/kdesu_stub.c:166-184 | decoding undoes encoding before any rest |
| Quoting.CommandRoundTrip | src/kdesu_stub.c:386-387 | strip the newline, later dequote: the command comes back iff it has no NUL |
| Quoting.EnvRoundTrip | src/kdesu_stub.c:231-235 | dequote, then strip: the entry comes back iff it has no NUL, even if it ends in a newline |
| Quoting.Dequote | src/kdesu_stub.c:166-184 | in place: never writes ahead of the read pointer, ends, leaves the decoded C string and beyond it what was there |
| StubWords.RecognisesNames | src/stubprocess.cpp:128-214 | the request words are told apart and nothing else is taken for one |
| StubProcess.ConverseStub | src/stubprocess.cpp:117-222 | result and output for any lines, end of input and unknown requests included |
| StubProcess.ResultByCause | src/stubprocess.cpp:117-222 | for any lines: -1 iff they end before the header or among the requests, 0 iff the first line that is no request is end, 1 otherwise |
| Stub.ReadEnvEntry | src/kdesu_stub.c:225-232 | fgets, dequote and xstrdup on the buffer give the specified entry |
| Stub.ReadParameters | src/kdesu_stub.c:205-240 | state reached and lines printed for any input, early end and "stop" included |
| Stub.AlwaysSaysEnd | src/kdesu_stub.c:205-240 | on any input the stub comes to an end, and its last line and no other is end |
| StubConversation.RawLineIsExact | src/kdesu_stub.c:128-137 | an unquoted value arrives whole in one fgets iff it has no newline or NUL and at most 8190 bytes |
| StubConversation.Progress | src/stubprocess.cpp:140-219 | at each point of the conversation exactly one party can move, and its move leads to the next point |
| StubConversation.CheckProgress | src/stubprocess.cpp:128-137 | the same for the installation check: header, stop, end |
| StubConversation.StaysOnCourse | src/stubprocess.cpp:117-222 | no schedule leaves the course, and the party to move advances it |
| StubConversation.NeverDeadlocks | src/stubprocess.cpp:117-222 | under every schedule, at every moment, it is over or exactly one party can move |
| StubConversation.StubConversationAgrees | src/kdesu_stub.c:205-240 | under every fair schedule, lines arriving whole: converseStub returns 0, the channels are empty, and the stub has every parameter, the original command and the same environment in order; with check both sides stop |
| Parameters.Child.SetUp | src/kdesud/handler.cpp:314-331 | the process object that the child sets up has the settings that the launch asks for, the defaults of StubProcess otherwise |
| Parameters.StubHasParameters | src/stubprocess.cpp:140-219 | each parameter that the stub ends up with, in terms of the settings: the path with the administrator's directories iff the user is root, without one leading ':'; yes and no; the number; the scheduler; the last startup id, or 0 |
| Parameters.ExecReachesStub | src/kdesud/handler.cpp:316-334 | from the EXEC of a client, after any run, to the stub: it gets command and user, and without a host the environment in order and the priority (at most 100) and scheduler of the last PRIO and SCHD; with ssh none of these |
| TerminalLines.WholeLinesExactly | src/ptyprocess.cpp:228-249 | for any lines printed and any cut of them, readLine hands out exactly these lines iff each read comes in time: with the k-th read at least k lines have come |
| StubOutput.TakesRequests | src/kdesu_stub.c:203-239 | the lines that the parent takes in the course of the conversation are the twelve names in order, or header and end when only the installation is checked |
| StubOutput.ConversesExactly | src/stubprocess.cpp:117-222 | from any point of such output and for any cut of it, converseStub returns 0 iff every read comes in time, where the last word need not have its newline; any other cut ends in another result, even where the piece of a word is a word itself |
| StubOutput.StubIsHeardExactly | src/ptyprocess.cpp:228-249 | the same for the whole output of the stub |
| PtyProcess.LineConservation | src/ptyprocess.cpp:228-249 | line, newline if there was one, and new buffer are what was buffered and read; null only at end of input; no newline in a line |
| PtyProcess.UnreadThenRead | src/ptyprocess.cpp:261-272 | a line put back is the next line read, whatever comes with it |
| PtyProcess.RunConservation | src/ptyprocess.cpp:175-272 | over any run of reads and unreads of what was read last, nothing is lost, doubled or reordered |
| PtyProcess.UnreadUndoesRead | src/ptyprocess.cpp:228-272 | unreadLine undoes readLine iff the line had its newline |
| PtyProcess.LineBuffer.ReadLine | src/ptyprocess.cpp:228-249 | the line and the new buffer are those specified |
| PtyProcess.LineBuffer.UnreadLine | src/ptyprocess.cpp:261-272 | prepends the line |
| PtyProcess.ExitMatcher.Feed | src/ptyprocess.cpp:449-473 | after each piece a signal has been sent iff the output so far has the exit string at a line start |
| PtyProcess.SearchAll | src/ptyprocess.cpp:449-473 | for any output in any pieces: SIGTERM was sent iff the exit string occurs at the start or right after a newline |
| SignalCount.SignalCountIsExact | src/ptyprocess.cpp:462-472 | for an exit string without newline, it is sent equally often in all cuts that reads of at most 0x8000 bytes allow iff no copy at a line start is directly followed by another |
| Prompt.MatchPrompt | src/suprocess.cpp:256-268 | the two-counter loop accepts a line iff it has exactly one ':' and only blanks behind it, and j is a valid index when it is used |
| Prompt.PromptExactly | src/suprocess.cpp:256-268 | a prompt is a line with one ':' and only blanks behind it, whatever is before it |
| SuProcess.ConverseSU | src/suprocess.cpp:222-304 | the loop on a terminal: result, lines upon which the password is written, exactly what is written, and the whole buffer afterwards, which on ok is all that was in hand with the header, a newline added if none had come |
| SuProcess.TrimmedIsTheMiddle | src/suprocess.cpp:282-296 | what trimmed() leaves is the one part with only blanks around it and none at its ends |
| SuProcess.StarsAreTrimmed | src/suprocess.cpp:282-296 | the line after the password passes iff it has no other byte than '*' from its first non-blank to its last, so also when it is blank |
| SuProcess.SuConversation | src/suprocess.cpp:222-304 | for any lines and answers of the world: the password is written at most once, only upon the first line that asks for it, only if there is one; ok, killme and "not authorised" exactly |
| SuProcess.ColonAfterPassword | src/suprocess.cpp:237-239 | after the password a ':' before the header ends the run there, without ok, with "not authorised" if the stars came first and an error otherwise |
| SuProcess.HeaderThenStub | src/stubprocess.cpp:122-218 | after ok, whatever arrives later: converseStub reads the header and serves; it meets an empty line and returns 1 iff the output goes on with one newline more than the header was handed out with |
| SuProcess.Exec | src/suprocess.cpp:104-216 | exec on a terminal: its result from those of both conversations, converseStub being given that terminal from the header on |
| SuProcess.ExecCodesByCause | src/suprocess.cpp:104-216 | every return code of exec, checkInstall and checkNeedPassword by its cause in what su printed and converseStub returned |
| SshProcess.SshConversation.Converse | src/sshprocess.cpp:163-231 | the loop on a terminal: result, writes, error and prompt fields, and the whole buffer afterwards, with the header put back |
| SshProcess.Exec | src/sshprocess.cpp:74-135 | exec on a terminal: its result from those of both conversations, and when the child is killed; a refusal by converseStub kills it but leaves the result 0 of checkInstall |
| SshProcess.ExecCodesByCause | src/sshprocess.cpp:74-135 | the same for ssh and all three checks |
| SshProcess.SshConversationIsExact | src/sshprocess.cpp:163-231 | for any lines: error is exactly the lines before the header or prompt, the password is written at most once, never for check 2, and the result is 0 iff the header came or an empty line followed the password |

## Left out

- Sockets, select, peer credentials, fork, exec, pseudo terminals, termios and signals: they belong to the kernel and appear only as inputs.
- The child of EXEC: the model goes from the forked child's settings to its conversations; what su, sudo or ssh do in between is input.
- More than one EXEC or EXIT on a connection, for exit codes only: the flags and the child's process id are overwritten and never reset, and no status can be told from another.
- `create_socket`, `startServer`, `connect`, X11 display and cookie handling, KConfig and KUser lookups, environment and privilege setup of the stub: setup without a protocol; their results are parameters.
- Overwriting memory with 'x' before it is released: only the memset inside the buffer shift is kept; implicit sharing of QByteArray is not modelled.
- `m_Timeout` before the first PASS: uninitialised in the source, 0 in the model; no EXEC uses it before a PASS.
- The fields of a connection after a refused line: its handler is deleted at once, so only its replies and the store are specified.
- `xstrdup` of an empty C string reads the byte before the copy: undefined in C, so an empty line stays empty in the model.
- `repo->find` of an entry whose value is null: such an entry is found as an empty value; the callers only compare it or test it for emptiness, except for passwords, which PASS makes non-null.
- Writes are taken to succeed, and what the client's one read of a reply takes is all of it up to 1023 bytes: a reply that arrives in several pieces is cut at the first, as in the source, but this is not modelled.
- Repository.Repository.Expire: the returned count is stated only for stores without the empty key, which the daemon never uses.
- Inputs.CompletedAlone: for clients that read the reply to one request before they send the next, as `Client::command` does; for others Delivery.EndToEndDelivery and Inputs.ConnectionIsFramed hold.
- PasswordCache.PairsHaveOrigins: one clock value for the two `add` calls of an EXEC; see PasswordCache.PairNeedsOneClock.
- SignalCount.SignalCountIsExact: for exit strings without a newline; the only one that the source sets has none.
- StubConversation.StubConversationAgrees: the channel to the parent holds whole lines, as the stub flushes each one; what any other cut of its output leads to is StubOutput.StubIsHeardExactly.
