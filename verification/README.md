# Windrose RCON: verified model

A Dafny model of the parts of the Windrose RCON plugin that hold state, parse text or talk over the wire, with proofs
about what they keep over whole runs. `dafny verify dfyconfig.toml` checks all of it.

## What is modelled

**The ban list.** `BanFormat` has the JSON printer and the quote-hunting scanner that reads the file back,
`JsonReader` an independent reader of JSON after sections 2 to 7 of RFC 8259 and `BanJson` what that reader makes of the
printed file, `BanStore` the list with its file (the class `BanList` follows the C++ line by line) and the runs of bans,
unbans and restarts, `BanHistory` such runs with texts of any kind and where each entry comes from, `BanRecords` files
written by other hands, `Players` kicking and one pass of the enforcement
thread, `Commands` the `ban` and `unban` commands with their argument splitting.

**The RCON server.** `Access` has the whitelist and the table of failed logins, `Wire` the packets of the Source RCON
Protocol ("Basic Packet Structure"), `SecureWire` the encrypted framing over an abstract cipher, `Transport` both behind
one interface, `Protocol` what the server does about one packet and about the packets of one connection. `ServerMachine`
is the server as a transition system: one listener thread, any number of handler threads, every mutex-protected block
one step, the block check and the later failure record separate steps, every look at the running flag a step of its own,
arbitrary interleaving. `Lockout`, `Overshoot` and `Unblocking` are about the failure counters over its runs.
`RconServer` is the server as a class: the packet buffer filled in an array of arbitrary contents, receiving, and the
handler loop. `Leftovers` is about what the uncleared memory of that buffer can add to a packet, `SentLogin` about what
that means for the commands of a connection.

**The clients.** `Session` is a client and its handler as a byte-level machine, plain or encrypted; `RconClient` the
Python clients as a class, with reading in pieces of arbitrary length. `Pipelining` is about any bytes on the wire:
several requests at once, incomplete and malformed packets.

**Configuration and keys.** `ConfigFile` and `RconConfig` have the settings file, `SettingLines` what lines written by
hand do, `AesKey` the hexadecimal key text as
the server and as the clients read it, `SavedKey` what saving and loading does to it, and `AesCrypto` the key handling
and message layout of the cipher class.

## What is proved, in short

- A written ban list is read back exactly when every entry is plain: the condition is an equivalence, once for reading
  back in escaped form and once for reading back unchanged. A reason that reads `accountId` costs a bogus entry each
  time. For texts of any kind the file is still faithful JSON.
- A ban file written by other hands, with keys in any order, missing or repeated, is read record by record; what a
  record does not say is not taken from the next one.
- Over a run of bans, unbans and restarts, memory and file agree at every point exactly when all entries are plain at
  each restart; in particular when all bans are plain. The list is then exactly the bans that no later unban takes back
  and no earlier ban makes idle, with their ids, reasons and times, in their order.
- One pass of the enforcement thread removes no unbanned player, whatever the order of the players, exactly when no
  banned player's id is a part of the id of an unbanned player within reach of a kick. It removes all banned players
  within reach and nobody else, whatever the order, exactly when every player whose id holds a banned one's is himself
  banned if he is within reach, and within reach if the other is; with distinct ids of one length this is always so.
- In every interleaving of the server's threads: authentication precedes execution, replies come in order and fit their
  requests, counters are exact, each connection has at most one failure, the attempt limit is overshot by at most the
  number of simultaneous connections less one (and that many is reached), and only whitelisted addresses connect. A
  blocked address stays blocked for good exactly when none of its handlers may still accept a password.
- Replies survive framing as far as the client looks (4094 bytes), in both transports, however the bytes are cut up;
  requests survive although the client's size field is one too large and the server's buffer holds leftovers, exactly up
  to 4085 bytes in plain mode, because at most one frame is in flight in every run of a session. Of two plain requests
  sent at once the second ends the connection, unless its number is a multiple of 256; encrypted requests sent at once
  are received one by one.
- What the buffer held before does not matter to a packet exactly when its id, its type and the zero behind its body
  have arrived. A shorter packet may be completed to any type and body it does not contradict, so a command may be run
  on a connection that sent no login: an example is given. A command may be run exactly when the bytes sent before it
  may be taken for a login, with everything in front of it ignored and nothing behind it ending the connection. Every
  command follows a login that its own connection sent exactly when that leaves room for no other command, as is the
  case when all packets are complete.
- A line of the settings file sets exactly the setting it names, whatever blanks are around key and value.
- A list of addresses admits exactly the addresses between its commas, whatever blanks are around them.
- Settings survive saving and loading exactly when their texts have no line feed and no blank at either end. A generated
  key survives exactly when loading the file does not throw, which it does exactly when some text with a line feed goes
  on with a line that sets a number to something unreadable; it survives whenever no text holds a line feed. Server and
  clients read the same key from a text exactly when it consists of pairs of hexadecimal digits, and with a generated
  key a whole encrypted session goes through.

## Assumptions

- File writes succeed, and what is written is read back byte for byte (no text-mode translation of line ends).
- On the server, `recv` returns what is asked for or what is in flight, whichever is less. The four bytes of a length
  reach the client in one piece.
- A socket handle is not given to another connection before its handler has erased it.
- The cipher is a pair of functions where opening undoes sealing, ciphertexts are as long as plaintexts and tags have 16
  bytes. The BCrypt calls succeed for a key of 32 bytes.
- The memory of a packet buffer holds arbitrary bytes.
- A kicked player is off the list at once: the later kicks of the same pass no longer find him. Nobody is banned or
  unbanned during a pass.
- Time, random bytes, nonces, the online players, the responses of commands and whether the server's socket can be made
  to listen are inputs. Text is a sequence of characters with one character for each byte.

Where the code does something else than a comment or a caller may expect, the model follows the code: the scanner does
not unescape, `IsBanned` matches substrings in both directions, a wrong hexadecimal digit in a key counts as the end of
its number, and a response of more than 4094 bytes is cut off silently.

## Model

| member | source | states |
|---|---|---|
| Text.FindIsLeftmost | src/ban/ban_list.cpp:67-71 | the library search as used by the scanner returns the first occurrence, and nothing only when there is none |
| Text.FindIn | src/ban/ban_list.cpp:67-71 | the search position by position finds what the specification of the search says |
| Text.TrimIsSlice | src/config/config.h:38-41 | trimming yields the slice between the blanks at the two ends of a text, and changes only text that has some |
| Text.TrimOf | src/rcon/rcon_server.cpp:166-168 | a text without blank ends is got back from any blanks around it |
| Text.FindAnyIsFirst | src/ban/ban_list.cpp:92 | the search for one of several characters returns the first of them, and nothing only when there is none |
| Text.ParseOfDecimal | src/ban/ban_list.cpp:94-128 | a printed integer, with a blank in front and a delimiter behind, is read back as itself |
| Text.NumberIsRead | src/config/config.h:44 | white space, a sign or none and digits are read as their number, whatever follows that is no digit |
| Text.NumberExactlyWhen | src/ban/ban_list.cpp:95 | a number is read if and only if digits begin behind the white space, a sign aside |
| BanFormat.ScanIsBounded | src/ban/ban_list.cpp:65-101 | on any bytes: ids read are not empty, nothing read holds a quote, and there are at most a fourteenth as many entries as bytes |
| BanFormat.ReloadRestoresEscaped | src/ban/ban_list.cpp:65-132 | reading a written list gives the same entries in order with escaped texts if and only if ids are non-empty, texts hold no quote and no reason is `accountId` |
| BanFormat.ReloadIsExact | src/ban/ban_list.cpp:65-132 | reading a written list gives that very list if and only if, besides, no text holds a backslash or a control character |
| BanFormat.ScanBodyCount | src/ban/ban_list.cpp:77-100 | each reason that reads `accountId` adds exactly one bogus entry |
| BanRecords.RecordIsRead | src/ban/ban_list.cpp:66-100 | in front of the next record or the end, a record with its keys in any order, missing or repeated, gives an entry with its first reason and first time, or the defaults; nothing is taken from the records behind it |
| BanRecords.FileIsRead | src/ban/ban_list.cpp:65-101 | a file of such records, behind any text without quotes, is read record by record |
| BanRecords.UnreadableTime | src/ban/ban_list.cpp:94-95 | a time without digits leaves zero |
| BanRecords.UnclosedReason | src/ban/ban_list.cpp:80-84 | a reason that is not closed before the text ends leaves none |
| JsonReader.ReadOfEscaped | src/ban/ban_list.cpp:15-36 | a reader of JSON strings gets every text back from its escaped form and stops at the closing quote |
| JsonReader.EscapeIsInjective | src/ban/ban_list.cpp:15-36 | no two texts are escaped alike |
| BanJson.PrintedFileIsFaithful | src/ban/ban_list.cpp:123-132 | for every list, whatever its texts hold, a JSON reader gets exactly its ids, reasons and timestamps back from the file, in order |
| BanJson.RenderIsInjective | src/ban/ban_list.cpp:123-132 | different lists have different files |
| BanStore.DiskAndMemoryAgree | src/ban/ban_list.cpp:49-176 | over every run of plain bans, unbans and restarts: no file only while the list is empty, otherwise the file prints the list, ids are distinct and non-empty |
| BanStore.ReloadAnyTime | src/ban/ban_list.cpp:49-104 | at any point of such a run reloading the file gives the list in memory |
| BanHistory.InStepExactlyWhen | src/ban/ban_list.cpp:49-176 | over any run with any texts, file and list agree at every point if and only if all entries are plain at each restart |
| BanHistory.ListIsWhatStands | src/ban/ban_list.cpp:150-176 | after a run with plain entries at each restart the list has, in order, exactly the bans that no later unban of their id takes back and no ban in force precedes, with the id, reason and time they were given |
| BanHistory.PlainBansArePlain | src/ban/ban_list.cpp:150-165 | runs whose bans are all plain are runs with plain entries at each restart |
| BanHistory.EntriesHaveTheirBans | src/ban/ban_list.cpp:150-176 | an entry is listed if and only if such a ban of the run carries its id, reason and time |
| BanStore.AgreeUntilRestart | src/ban/ban_list.cpp:106-176 | with any texts, file and list agree until a restart, and the first restart is harmless if and only if all entries are plain |
| BanStore.ReloadForgets | src/ban/ban_list.cpp:49-58 | the list after starting up depends on the file alone, and is empty without one |
| BanStore.RestartIsHarmless | src/ban/ban_list.cpp:49-104 | a restart keeps a list that agrees with its file if and only if all entries are plain |
| BanStore.RestartsAreInvisible | src/ban/ban_list.cpp:49-104 | leaving all restarts out of a plain run leads to the same list and file |
| BanStore.RemoveUndoesAdd | src/ban/ban_list.cpp:150-176 | removing a newly added id restores the list, order included |
| BanStore.RemoveIsExact | src/ban/ban_list.cpp:167-176 | removal takes the entry of exactly that id and nothing else |
| BanStore.EntriesFromIsScan | src/ban/ban_list.cpp:65-101 | the loop over absolute positions reads, round by round, what the scanner specified on suffixes reads |
| BanStore.BanList.EscapeText | src/ban/ban_list.cpp:15-36 | the escaping loop computes the escaped form |
| BanStore.BanList.PrintLine | src/ban/ban_list.cpp:125-130 | one line of the file, with a comma unless it is the last |
| BanStore.BanList.SaveLocked | src/ban/ban_list.cpp:106-136 | afterwards the file is the print of the list |
| BanStore.BanList.IsBanned | src/ban/ban_list.cpp:138-148 | true if and only if the id is not empty and some entry's id is a part of it or the other way round |
| BanStore.BanList.Add | src/ban/ban_list.cpp:150-165 | list and file afterwards; added if and only if the id is new and not empty |
| BanStore.BanList.Remove | src/ban/ban_list.cpp:167-176 | list and file afterwards; removed if and only if an entry has exactly that id |
| BanStore.BanList.Initialize | src/ban/ban_list.cpp:49-104 | the list afterwards is what the scanner reads, empty without a file |
| BanStore.BanList.ReadEntries | src/ban/ban_list.cpp:65-101 | the loop terminates on any text, every position and slice is in bounds, and it collects all rounds from the start |
| BanStore.BanList.ReadNext | src/ban/ban_list.cpp:67-100 | one round: what the next account key brings, and that the loop moves on |
| BanStore.BanList.ReadReason | src/ban/ban_list.cpp:77-85 | the reason is taken between the next two quotes behind its key unless another account key comes first |
| BanStore.BanList.ReadTimestamp | src/ban/ban_list.cpp:87-97 | the number between colon and delimiter, zero when it cannot be read |
| Players.KickHitsNamed | src/windrose_engine.cpp:283-295 | with distinct ids of one length a kick reaches the player named and no other |
| Players.KickSucceedsWhen | src/windrose_engine.cpp:280-380 | a kick succeeds if and only if somebody goes, and then one player does |
| Players.NoIdNoBan | src/ban/ban_list.cpp:138-139 | nobody is banned for having no id |
| Players.PassExactWhenKicksHitRight | src/version.cpp:30-38 | with ids of any kind a pass leaves exactly the players who are not banned or cannot be kicked, in whatever order they are found, if and only if everybody whose id contains a banned player's is banned if he can be kicked, and can be kicked if that player can |
| Players.PassIsExact | src/version.cpp:30-38 | under that condition the players left keep their order |
| Players.PassRemovesBanned | src/version.cpp:30-38 | under it a player is online after the pass if and only if he was and is not both banned and within reach of a kick |
| Players.SecondPassIsIdle | src/version.cpp:30-38 | under it a second pass changes nothing |
| Players.UniformKicksHitRight | src/version.cpp:30-38 | distinct non-empty ids of one length meet it |
| Players.PassSparesExactlyWhenSafe | src/version.cpp:30-38 | with ids of any kind a pass removes no unbanned player, in whatever order the players are found, if and only if no banned player's id is a part of the id of an unbanned player with a controller |
| Players.PassSparesUnbanned | src/version.cpp:30-38 | in particular it removes none if nobody is banned merely for being a part of an entry |
| Players.PassMayHitUnbanned | src/version.cpp:30-38 | an unbanned player can be kicked instead of the banned one: a concrete list and two players |
| Players.Engine.KickPlayer | src/windrose_engine.cpp:280-380 | the first player whose id contains the text goes, or nobody when he has no controller |
| Players.Engine.EnforceBans | src/version.cpp:30-38 | one pass over the snapshot of players does what the specification of a pass says |
| Commands.BanArgsShape | src/commands/ban.cpp:10-29 | the id of a ban command has no space and is not empty, the reason no blank in front; usage if and only if there are only blanks |
| Commands.BanLineIs | src/commands/ban.cpp:10-29 | behind leading blanks the id is what stands before the first space, and the reason what stands behind it and further blanks |
| Commands.ResolveNames | src/commands/ban.cpp:31-38 | the text is resolved to the id of the first online player whose id contains it, and to itself if and only if there is none |
| Commands.BanLineBans | src/commands/ban.cpp:10-40 | a ban line lists that id with that reason and the time |
| Commands.BanKicksTheNamed | src/commands/ban.cpp:31-41 | the player named is the one who is kicked |
| Commands.UnbanLineUnbans | src/commands/unban.cpp:10-19 | an unban takes its text behind leading blanks as it is |
| Commands.BanReplyTells | src/commands/ban.cpp:43-52 | the reply says whether the id was banned now or before, with its reason |
| Commands.UnbanReplyTells | src/commands/unban.cpp:16-20 | the reply says whether an entry was removed |
| Commands.KickIsTold | src/commands/ban.cpp:50-52 | the reply says whether the player has been kicked |
| Commands.CommandsKeepAgreement | src/commands/ban.cpp:31-41 | over every run of commands whose texts the file can carry, list and file agree and ids stay distinct |
| Commands.CommandsSurviveRestart | src/commands/ban.cpp:31-41 | a restart after such a run changes nothing |
| Commands.BanTakesEffect | src/commands/ban.cpp:31-41 | the resolved id counts as banned after the command, new or not |
| Commands.UnbanUndoesBan | src/commands/unban.cpp:10-20 | unbanning what was typed restores the list if and only if it had not been expanded to an online id |
| Commands.ResolveId | src/commands/ban.cpp:31-38 | the first online id containing the text, else the text |
| Commands.ExecuteBan | src/commands/ban.cpp:7-56 | list, file, players and reply after a ban command |
| Commands.ExecuteUnban | src/commands/unban.cpp:7-24 | list, file and reply after an unban command |
| Wire.UnpackPackI32 | scripts/rcon_client.py:36-38 | little-endian two's complement integers survive packing, over all of int32 |
| Wire.IntegersAreLittleEndian | scripts/rcon_client.py:36-38 | the least significant byte comes first, and signed integers are two's complement |
| Wire.ReplyIsSeen | src/rcon/rcon_server.cpp:263-289 | in front of anything, a reply is read as its id, type and first 4094 body bytes, and the rest of the stream is left |
| Wire.FrameStreamRoundTrip | src/rcon/rcon_server.cpp:263-289 | any number of replies in a row are read back one by one, and the stream is used up |
| Wire.RequestIsReceived | src/rcon/rcon_server.cpp:218-225 | alone on the wire, a client's request is received if and only if it has at most 4085 body bytes, despite its size field and stale memory; what is received is the body up to its first zero byte, so the whole if and only if it holds none |
| SecureWire.OpenedOfSealed | src/crypto/aes_crypto.cpp:131-182 | decrypting takes apart exactly what encrypting laid out; 28 bytes are added |
| SecureWire.TransportIsTransparent | scripts/rcon_secure.py:64-106 | a client gets the same packet from the encrypted framing as from the plain one |
| SecureWire.RequestIsReceivedSecurely | src/rcon/rcon_server.cpp:198-216 | an encrypted request ends the connection if and only if its body exceeds 8150 bytes; otherwise the body is received up to its first zero byte, its own or the one behind it, whenever that is within the buffer |
| Pipelining.PlainArrivesWhen | src/rcon/rcon_server.cpp:218-225 | a plain packet arrives if and only if its size is from 1 to 4096 and anything follows it |
| Pipelining.RequestTakesAByteMore | src/rcon/rcon_server.cpp:218-225 | a plain request with bytes behind it is received, and the first of these bytes is lost |
| Pipelining.SecondRequestEndsConnection | src/rcon/rcon_server.cpp:218-225 | of two plain requests sent at once the first is received and the second ends the connection, unless its number is a multiple of 256 |
| Pipelining.QueueIsServed | src/rcon/rcon_server.cpp:198-216 | encrypted requests sent at once are received one in each turn, in order |
| Pipelining.PlainStreamMeans | scripts/rcon_client.py:45-66 | what the plain client makes of any stream: nothing, an exception, or a body without its last two bytes |
| Pipelining.LessThanAHeader | scripts/rcon_client.py:46-48 | less than four bytes give nothing, on either transport |
| Pipelining.SecureStreamMeans | scripts/rcon_secure.py:64-112 | the same for the encrypted client |
| Transport.RequestIsHeard | src/rcon/rcon_server.cpp:195-225 | on either transport a request alone on the wire arrives if and only if it fits, with its body up to the first zero byte, whatever the buffer held |
| Transport.RequestArrives | src/rcon/rcon_server.cpp:195-225 | on either transport a sendable request alone on the wire arrives as it was meant |
| Transport.ReplyArrives | src/rcon/rcon_server.cpp:276-288 | on either transport a reply is collected cut off after 4094 bytes |
| Protocol.AuthenticatedMeans | src/rcon/rcon_server.cpp:193-234 | an authenticated connection got the password, and no AUTH since |
| Protocol.OnlyGoodPasswords | src/rcon/rcon_server.cpp:227-239 | as long as a connection goes on, every AUTH on it carried the password |
| Protocol.AnsweredMeans | src/rcon/rcon_server.cpp:227-250 | exactly the AUTH packets and the commands on an authenticated connection are answered, in order |
| Protocol.RepliesFit | src/rcon/rcon_server.cpp:227-250 | one reply for each of them, with its id, or -1 for a failed AUTH, and the response of that very command |
| Protocol.OtherTypesDoNothing | src/rcon/rcon_server.cpp:227-250 | a packet of another type changes nothing: the connection goes on as before and nothing is run or sent |
| ServerMachine.ConnectionsFollow | src/rcon/rcon_server.cpp:192-261 | in every interleaving each connection has run and sent exactly what its own packets call for |
| ServerMachine.AuthenticationPrecedesExecution | src/rcon/rcon_server.cpp:192-250 | each executed command was preceded on its connection by an AUTH packet that the handler read with the configured password, and by no other AUTH |
| ServerMachine.ReplyDiscipline | src/rcon/rcon_server.cpp:195-251 | in every run the replies on a connection answer its AUTH packets and executed commands in order, each fitting, a failed AUTH last |
| Lockout.FailuresSinceMeans | src/rcon/rcon_server.cpp:181-190 | the count used below is the number of failure records behind the last reset of the address |
| Lockout.CountersAreExact | src/rcon/rcon_server.cpp:181-190 | in every run the table holds for every address its failures since its last login |
| Lockout.AtMostOneFailure | src/rcon/rcon_server.cpp:227-239 | in every run each connection has at most one failure on record, under its own address |
| Lockout.OvershootIsBounded | src/rcon/rcon_server.cpp:129-238 | with at most p live connections of an address, its failures and its connections that can still fail stay below limit plus p |
| Lockout.LimitHoldsOneByOne | src/rcon/rcon_server.cpp:129-238 | with one connection at a time the limit is never exceeded |
| Lockout.LockoutIsFinal | src/rcon/rcon_server.cpp:129-238 | once blocked with no connection whose handler has or may get another packet, an address keeps its count, stays blocked and never connects again, whatever follows |
| Unblocking.BlockedForGood | src/rcon/rcon_server.cpp:129-238 | from any state on, an address stays blocked in every continuation if and only if it is blocked and no handler of it, present or about to be started, may still accept a password |
| Lockout.OnlyAllowedConnect | src/rcon/rcon_server.cpp:123-148 | in every run every connection comes from an address the whitelist admits |
| Lockout.AdmittedExactlyWhen | src/rcon/rcon_server.cpp:119-150 | an address that connects gets a handler if and only if the whitelist admits it and, when there is a limit, its failures are below it |
| Lockout.StoppedAdmitsNobody | src/rcon/rcon_server.cpp:72-114 | once a stop is noticed by the listener nobody connects any more, whatever follows |
| Overshoot.BoundIsReached | src/rcon/rcon_server.cpp:129-238 | for every limit and p some run with at most p live connections records limit plus p minus 1 failures |
| Access.SplitJoins | src/rcon/rcon_server.cpp:159-169 | the entries of the whitelist are the pieces between its commas |
| Access.ListedAreAllowed | src/rcon/rcon_server.cpp:156-172 | a list put together with commas from addresses with any blanks around them admits exactly these addresses; empty places admit nobody |
| Access.ListIsWritten | src/rcon/rcon_server.cpp:159-168 | every list can be read that way |
| Access.EmptyListAdmitsAll | src/rcon/rcon_server.cpp:157 | an empty list admits everybody |
| Access.NoLimitNoBlock | src/rcon/rcon_server.cpp:174-175 | with a limit of zero or less nobody is blocked |
| Access.IsIPAllowed | src/rcon/rcon_server.cpp:156-172 | true if and only if the list is empty or the address is one of its trimmed non-empty entries |
| RconServer.RCONServer.IsIPBlocked | src/rcon/rcon_server.cpp:174-179 | true if and only if there is a limit and the address has reached it |
| RconServer.RCONServer.RecordFailedAttempt | src/rcon/rcon_server.cpp:181-185 | one failure more for the address, no other address touched |
| RconServer.RCONServer.ResetFailedAttempts | src/rcon/rcon_server.cpp:187-190 | no failures for the address, no other address touched |
| RconServer.RCONServer.Admit | src/rcon/rcon_server.cpp:123-133 | a socket is admitted if and only if its address is whitelisted and not blocked |
| RconServer.RCONServer.Start | src/rcon/rcon_server.cpp:21-70 | a server starts if and only if it is stopped, its socket can be made to listen and, in encrypted mode, its key text has 64 characters |
| RconServer.RCONServer.Stop | src/rcon/rcon_server.cpp:72-101 | the server is stopped and the key gone, the counters remain |
| RconServer.RCONServer.FillPacket | src/rcon/rcon_server.cpp:263-276 | the used part of the buffer is the frame of the reply, whatever its memory held |
| RconServer.RCONServer.SendPacket | src/rcon/rcon_server.cpp:263-289 | exactly the bytes of the reply go out, plain or encrypted |
| RconServer.RCONServer.ReceivePacket | src/rcon/rcon_server.cpp:195-225 | one packet from the bytes in flight into the buffer, or the end of the connection, in both modes |
| RconServer.RCONServer.HandlePacket | src/rcon/rcon_server.cpp:227-250 | flag, table and bytes sent after one packet are those of the protocol specification |
| RconServer.RCONServer.HandleClient | src/rcon/rcon_server.cpp:192-261 | over all turns of a handler: packets received, commands run, bytes sent and table are what the arrivals call for, until one packet ends it |
| RconServer.LoopDoesItsWork | src/rcon/rcon_server.cpp:192-261 | the loop of a handler, turn by turn, receives what arrived and runs, sends and records what the protocol specification asks |
| Leftovers.ReceiveTakes | src/rcon/rcon_server.cpp:196-225 | which bytes an arrival puts at the front of the packet buffer does not depend on what the buffer held, and the rest of it stays |
| Leftovers.DeterminedWhenComplete | src/rcon/rcon_server.cpp:195-231 | the packet read is the same for all contents of the buffer if and only if id and type have arrived and the body's zero too, or the buffer is full |
| Leftovers.LeftoversCanLogIn | src/rcon/rcon_server.cpp:218-231 | eight bytes, a size and an id, are read as a login over a suitable buffer |
| Leftovers.RequestsAreComplete | scripts/rcon_client.py:31-44 | every request of the clients that fits is complete in this sense |
| Leftovers.ReadableExactlyWhen | src/rcon/rcon_server.cpp:195-250 | over some contents of the buffer the bytes of a packet are read with this type and body if and only if the body has no zero and fits, and the bytes do not contradict type, body and zero as far as they go |
| SentLogin.RunsExactlyWhen | src/rcon/rcon_server.cpp:192-250 | with some contents of the buffers a handler runs the command of a packet if and only if the bytes sent before may have logged the connection in and its own may be a command |
| SentLogin.MayBeInMeans | src/rcon/rcon_server.cpp:227-250 | bytes may have logged a connection in if and only if one packet may be the login, all before it may be ignored and all behind it may be passed |
| SentLogin.LoginsAreSentExactlyWhen | src/rcon/rcon_server.cpp:192-250 | every command run follows a login sent on its own connection, whatever the buffers held, if and only if the bytes leave room for no other command |
| SentLogin.CommandsFollowSentLogin | src/rcon/rcon_server.cpp:192-250 | it is so when every packet of the connection is complete |
| SentLogin.CommandWithoutLogin | src/rcon/rcon_server.cpp:218-250 | eight bytes and a command, without any login, may have the command run |
| Session.SessionsFollow | scripts/rcon_client.py:31-85 | in every run of client and handler at most one frame is in flight, the handler has received the questions in order, and the client collected what it ought to |
| Session.CommandsAreAnswered | scripts/rcon_client.py:68-85 | with the right password authentication succeeds and each command returns the first 4094 bytes of the response to that very command |
| Session.WrongPasswordEnds | scripts/rcon_client.py:68-77 | with a wrong password authentication fails, and no later question is received or answered |
| RconClient.RCONClient.Create | scripts/rcon_secure.py:17-30 | a client is made if and only if there is no key text or one that `bytes.fromhex` reads as 16, 24 or 32 bytes, and it uses these |
| RconClient.RCONClient.SendPacket | scripts/rcon_secure.py:41-62 | the request goes out under the next number, plain or encrypted; refused only when a number does not fit into 32 bits |
| RconClient.RCONClient.ReadFully | scripts/rcon_client.py:50-56 | in whatever pieces the bytes come, exactly as many as asked for are taken, or the connection has ended |
| RconClient.RCONClient.ReceivePacket | scripts/rcon_secure.py:64-112 | one call takes one packet off the stream, however it is cut into pieces |
| RconClient.RCONClient.Exchange | scripts/rcon_client.py:68-85 | with nothing in flight, a body that fits is heard up to its first zero byte and the client gets the reply to that, a longer one ends the connection, and nothing is in flight afterwards |
| RconClient.RCONClient.Authenticate | scripts/rcon_client.py:68-77 | true if and only if the handler is there, the request fits and what is heard of it is the password; the counter is cleared or raised accordingly |
| RconClient.RCONClient.ExecuteCommand | scripts/rcon_client.py:79-85 | the first 4094 bytes of the response when logged in and the command fits, else nothing, and the connection is over |
| RconClient.RCONClient.Converse | scripts/rcon_client.py:87-114 | a whole session: the answers to all its commands, given the login, the password and the commands' lengths |
| RconClient.Connect | scripts/rcon_secure.py:17-30 | a server started and a client made from one key text understand each other if and only if the server encrypts and the text consists of digits, or neither encrypts |
| RconClient.FirstSession | scripts/rcon_secure.py:114-165 | a session with a generated key, from starting the server to the answers to all commands |
| RconClient.AnswersAt | scripts/rcon_client.py:87-114 | a command of a session is answered if and only if the login succeeded and no command up to it is too long, with the first 4094 bytes of its own response |
| AesKey.GenerateAESKey | src/config/config.h:124-147 | two lower-case digits for each random byte, or nothing without random bytes |
| AesKey.HexToBytes | src/crypto/aes_crypto.cpp:10-18 | the loop decodes pairs of characters as `strtol` does |
| AesKey.KeyBytesSurvive | src/config/config.h:138-144 | decoding undoes printing for all bytes |
| AesKey.KeyTextSurvives | src/crypto/aes_crypto.cpp:10-18 | printing undoes decoding if and only if the text consists of pairs of lower-case digits |
| AesKey.PairMeans | src/crypto/aes_crypto.cpp:10-18 | what any two characters of a key text are decoded to: a character that is no digit ends the number, a blank or a sign may stand in front of one digit |
| AesKey.CaseDoesNotMatter | src/crypto/aes_crypto.cpp:14 | upper and lower case decode alike |
| AesKey.FromHexJoins | scripts/rcon_secure.py:25 | the client reads over white space between pairs of digits |
| AesKey.KeyTextsAgree | scripts/rcon_secure.py:24-27 | the client reads the same bytes from a text as the server if and only if it consists of pairs of hexadecimal digits |
| AesKey.GeneratedKeyAgrees | src/config/config.h:138-144 | from a generated key the client reads the random bytes it was printed from |
| AesCrypto.AESCrypto.Initialize | src/crypto/aes_crypto.cpp:20-77 | accepted if and only if the text has 64 characters; the key is its bytes, and an old key is dropped either way |
| AesCrypto.AESCrypto.Encrypt | src/crypto/aes_crypto.cpp:92-158 | nonce, ciphertext and tag in this order, 28 bytes more than the data, nothing without a key |
| AesCrypto.AESCrypto.Decrypt | src/crypto/aes_crypto.cpp:160-224 | the plaintext of the parts, nothing for less than 28 bytes, a wrong tag or no key |
| ConfigFile.PairSplits | src/config/config.h:30-41 | a written line splits at its first `=`, whatever the value holds |
| ConfigFile.LinesBehind | src/config/config.h:28-29 | reading line by line undoes writing line by line, lines with line feeds falling into their pieces |
| ConfigFile.SettingsSurvive | src/config/config.h:22-99 | over any prior settings, loading what was saved restores all ten if and only if the five texts have no line feed and no blank ends |
| ConfigFile.LoadedIsClean | src/config/config.h:22-66 | whatever was saved, texts that are loaded from it have no line feed and no blank ends |
| SettingLines.PaddedLineSplits | src/config/config.h:30-41 | blanks around the key and around the value of a line are dropped |
| SettingLines.StoiReads | src/config/config.h:44 | white space, a sign or none and digits are read as a 32-bit number, or refused when it does not fit |
| SettingLines.NumberLine | src/config/config.h:43-59 | such a line with a number changes exactly the one of the three settings it names, or throws when the number does not fit into 32 bits |
| SettingLines.TextLine | src/config/config.h:45-62 | such a line with a text changes exactly the one of the five settings it names |
| SettingLines.TruthLine | src/config/config.h:47-60 | a switch is on if and only if the value is `true` or `1` |
| SettingLines.IdleLine | src/config/config.h:30-33 | empty lines, comments and lines without an equals sign do nothing |
| SettingLines.UnknownKey | src/config/config.h:43-63 | a line with any other key does nothing |
| SettingLines.LoadLineThenRest | src/config/config.h:28-64 | a first line and the rest of a text are loaded one after the other |
| SettingLines.LoadStopsAt | src/config/config.h:28-64 | the lines in front of one that throws keep their effect, those behind it have none |
| SavedKey.LoadThrows | src/config/config.h:28-60 | loading throws if and only if some line sets a number to something unreadable, whatever was set before |
| SavedKey.LoadOfSavedThrows | src/config/config.h:22-99 | loading what was saved throws if and only if, behind a line feed, one of the five texts goes on with such a line |
| SavedKey.KeySurvivesTheTrip | src/config/config.h:68-99 | 32 random bytes, printed, saved, loaded and decoded, are the same again if and only if no text hides such a line |
| SavedKey.GeneratedKeySurvives | src/config/config.h:68-99 | with the file's actual comments they are the same again when no text holds a line feed |
| SavedKey.PasswordCanLoseKey | src/config/config.h:22-99 | a concrete password with a line feed whose file cannot be loaded, so that the key is lost |
| RconConfig.SavedSettingsSurvive | src/config/config.h:68-99 | the same equivalence for the file with its actual comments, blank lines and sections |
| RconConfig.RCONConfig.Load | src/config/config.h:22-66 | the ten fields after loading any text, and an exception if and only if a number cannot be read, earlier lines having had their effect |
| RconConfig.RCONConfig.Save | src/config/config.h:68-99 | the file is the text of the settings; a missing key is generated first |

## Left out

- Sockets, `select`, timeouts, threads and their creation: only accepting, checking, receiving, sending and closing are steps.
- The list of client sockets and its mutex: connections are numbered and marked as erased instead.
- AES-GCM and the BCrypt calls: the cipher is abstract, and failures of the library are not modelled.
- Walking the memory of the game for players, controllers and functions: a player is an id and whether a kick reaches him.
- The flag and the three-second period of the enforcement thread: one pass is modelled, with nobody joining meanwhile.
- Failed file writes, partial reads on the server, and reuse of socket handles: see the assumptions.
- Character encodings on the Python side and text-mode line ends on Windows.
- A packet body without a terminating zero: the server would read on behind its buffer, the model stops at its end.
- The width of the failure counter: it is an unbounded number.
- The other commands, logging, path building, pattern scanning and loading of the library: formatting or plumbing.
- Socket errors when a client writes to a connection the server has closed: what is written is lost.
- SecureWire.RequestIsReceivedSecurely: says nothing about the contents of a body of 4096 to 8150 bytes without a zero byte among its first 4096, because the server reads on behind its buffer.
- RconServer.RCONServer.HandleClient: one handler left alone by the other threads; interleavings are the subject of `ServerMachine`.
- RconClient.RCONClient.Exchange: asks for nothing in flight, the situation `Session` shows to hold in every run, and excludes the bodies just named, as do `Authenticate`, `ExecuteCommand` and `Converse`.
