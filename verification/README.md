# Verification of the session, ticket, codec and queue logic of the Steam emulator

This project models, in Dafny, the parts of the emulator whose correctness depends
on more than one function: who is logged in to the administration server after any
run of packets, what the other handlers read back from a login ticket, what survives
a trip through the wire formats, which blob is matched to which date, which storages
are neutered and in what order, and what the in-place file and configuration edits
leave alone. `dafny verify dfyconfig.toml` checks all of it.

Code that changes dictionaries, lists or buffers step by step is modelled by classes
and methods; each is proved equal to a function of its inputs or of the old state,
and the theorems are about those functions. Exceptions are values of
`Results.Error`, one per Python class; integers are packed with explicit widths, and
a value that does not fit is a `StructError`, as in `struct.pack`.

| file | what it models |
|---|---|
| `Results.dfy`, `Bytes.dfy`, `Ordering.dfy` | options and results; bytes, Python slices, `struct` integers; Python's order and stable sort |
| `AdminSession.dfy`, `AdminRuns.dfy` | the administration server's three session dictionaries and every run of packets against them |
| `AdminGuesses.dfy` | how many passwords one address can try, over every run |
| `AdminWire.dfy` | administration packets, their checksum, and reading them from a stream |
| `Blobs.dfy`, `AdminBlob.dfy` | the nested blob writers and reader, and the administration server's flat reader |
| `Ticket.dfy` | the login ticket, the hexadecimal offsets the other handlers use, and the ticket parser |
| `Sealing.dfy` | the encrypted request after a ticket, and the encrypted-blob envelope |
| `RateLimiter.dfy` | the limit on subscribe requests per address |
| `BlobIndex.dfy`, `BlobRows.dfy` | matching secondblobs to firstblobs by date, and the rows of the file index |
| `NeuterQueue.dfy`, `NeuterRun.dfy` | the neuter queue, and the window and console that work through it |
| `IpCodec.dfy`, `SortKeys.dfy`, `Replacing.dfy` | endpoint encoding, blob key order, address replacement in files |
| `GroupList.dfy` | the content list server's group reply |
| `ConfigFile.dfy`, `ConfigRead.dfy` | saving a value in `emulator.ini`; reading the file with `configparser`, and what a saved value is worth |

## Assumptions

- AES is any pair of functions satisfying `Sealing.Lawful`: for 16-byte keys and IVs
  decryption undoes encryption of whole blocks, lengths are kept, and, as the code
  chains blocks (CBC), decryption starts the same whatever blocks follow
  (`Sealing.LawfulIsPossible` shows the law can be met). Signatures and wrapped keys
  are byte strings of the stated lengths.
- The clock does not run backwards, and session times are positive (`Ticking`). A
  packet is handled atomically with one clock reading.
- Whether a handshake proof decrypts, what the user database says to credentials,
  what a file name's date is and which timestamp the local clock gives it, what
  exists on disk, and what the content server manager answers are inputs of the
  model, and the theorems hold for all of them.
- `configparser` is that of Python 3.9, which the repository is built with (README.md
  line 7); its `optionxform`, which is `str.lower`, is any function on names.

## Where the code does not do what it seems to promise

- Logging in under a second name and then logging out leaves the first name in
  `logged_in_admins` with no record and no heartbeat, so no timeout frees it and
  every other address is refused that name until the first one returns
  (`AdminRuns.SecondNameStrands`, `AdminRuns.StrandedForever`). The same happens to
  an administrator with an empty name who logs out, because the code tests
  `if username and ...`. These packets, and a repeated handshake under a negative
  timeout, are exactly the ones that break the bijection between names and records
  (`AdminRuns.BijectionKeptIff`).
- A ticket's first block is declared to be 0x80 bytes, but is longer as soon as the
  user name has more than 37 bytes; the other handlers then read bytes of that block
  in place of the client's IV (`Ticket.IVRecoveredIff`).
- The administration server's blob reader means to descend into nested blobs, but
  compares a byte with a one-character string; every value stays bytes
  (`AdminBlob.FlatReadsWritten`).
- The failed-login limit is kept with a client's record, and a logout, for which no
  login is needed, drops the record: one address, connecting again from the same
  port, can fail five times after each handshake, without any bound on the whole
  (`AdminGuesses.BurstIff`, `AdminGuesses.GuessesUnbounded`). Without any logout one
  machine can fail five times from each of its ports, since every port has a record
  of its own (`AdminGuesses.SweepIff`).
- Bytes that merely start like a blob come back from the nested reader as a
  dictionary, or fail to parse; an empty slack is lost (`Blobs.BlobRoundTripIff`).
- `subscribe` takes the blob's length from the low half of its size field, which does
  not count slack: blobs with slack of their own are cut, and then refused
  (`Sealing.SubscribeEndToEndIff`, `Blobs.CutBlobRefused`). Blobs too long for that half never get there
  (`Sealing.SealedBodyIsShort`).
- The fast blob writer leaves out the header of every nested dictionary: the two
  writers agree if and only if there is none (`Blobs.FastAgreesIff`).
- The ticket parser cuts a name at its first NUL, and counts the distances of the
  other fields from there (`Ticket.ParsedTicketIff`).
- The older registration handlers take everything after the envelope's header as
  ciphertext instead of stopping at its length field: unless whole blocks follow,
  the reply is refused (`Sealing.WholeReplyIff`).
- The packet checksum is a plain sum, so two exchanged payload bytes go unnoticed,
  although any single wrong byte is caught (`AdminWire.SwapUnnoticed`,
  `AdminWire.OneByteErrorDetected`).
- The rows of the file index and their dates are sorted separately; they describe
  the same files if and only if the timestamps follow the names
  (`BlobRows.AlignedIff`), which an unpadded month breaks
  (`BlobRows.UnpaddedMonthsMisalign`), and so does a clock that goes back
  (`BlobRows.EveryRowItsOwnDateIff`).
- One lookup compares dates and the other timestamps. They agree if and only if the
  clock increases on the dates involved (`BlobIndex.LookupsAgreeIff`); it does not
  in the hour skipped when daylight saving begins, whose timestamps are those of the
  hour after it. Then the search finds a firstblob too early
  (`BlobIndex.FoundTooEarly`).
- Addresses of more than 14 characters, tracker addresses of more than 25, or an
  address and validation port of more than 18 together, lengthen some file
  (`Replacing.NoFileChangesLengthIff`).
- The first text of the secure list is replaced together with its closing and opening
  quotes, and its replacement has none (`Replacing.NewTexts`).
- In the group reply the count is raised before the limit is noticed, so a truncated
  list announces one group too many (`GroupList.CountHonestIff`).
- The window and the console stop at different tasks when a task ends after the halt
  without having seen it (`NeuterRun.SameTasksIff`).
- `sortkey` sends different keys of its two classes to the same sort key
  (`SortKeys.SharedKeyIff`).
- Saving a configuration value overwrites the first line that mentions the key, even
  in a comment or in another section, while the parser takes the last assignment in
  `[config]`, with the indented lines that follow it, and nothing at all from a file
  with a line it cannot parse or without that section
  (`ConfigRead.SavedValueInForceIff`). A key with an upper-case letter is never read
  (`ConfigRead.UnfoldedKeyLost`). A value with a comment mark or a percent sign in
  it, space at its ends or quotes around it is not read back as saved
  (`ConfigRead.ReadBackIff`); with a lone percent sign, such as `50%`, nothing of the
  configuration can be read any more (`ConfigRead.LonePercentRaises`).

## Model

| member | source | states |
|---|---|---|
| `AdminSession.AdministrationServer.constructor` | emulator/servers/administrationserver.py:256-258 | a new server has no records, heartbeats or names, and an empty packet history |
| `AdminSession.AdministrationServer.CheckClientHeartbeat` | emulator/servers/administrationserver.py:2458-2461 | true exactly when the address has a heartbeat older than the configured timeout |
| `AdminSession.AdministrationServer.CleanupTimedOutAdmins` | emulator/servers/administrationserver.py:2463-2477 | the two loops, popping names one by one, leave exactly the dictionaries without the timed-out names and the addresses they were logged in from |
| `AdminSession.AdministrationServer.IsAdminAlreadyLoggedIn` | emulator/servers/administrationserver.py:2479-2487 | cleans up first, then returns the holder of the name if there is one whose heartbeat is current |
| `AdminSession.AdministrationServer.HandleClientLogin` | emulator/servers/administrationserver.py:2527-2558 | all branches in order: format error, lockout, cleanup, session elsewhere, database failure, success, failure; reply and all three dictionaries |
| `AdminSession.AdministrationServer.HandleClientLogout` | emulator/servers/administrationserver.py:2560-2572 | record and heartbeat go; the name goes only if it is not empty and points at this address |
| `AdminSession.AdministrationServer.HandleClient` | emulator/servers/administrationserver.py:1198-1217 | one packet: heartbeat before everything else, redundant handshakes ignored, other commands refused without a live record; the dictionaries are always those of the run so far |
| `AdminSession.Field` | emulator/servers/administrationserver.py:2528-2530 | the login name is what stands before the first NUL, and there is none exactly when the packet has no NUL |
| `AdminRuns.CleanupSound` | emulator/servers/administrationserver.py:2463-2477 | the cleanup keeps one live session per name, never removes a record whose heartbeat is current, and leaves no name pointing at an expired address |
| `AdminRuns.StepSound` | emulator/servers/administrationserver.py:1198-1217 | every packet, of any kind and from anyone, keeps the invariant, and no login hits a record its own cleanup removed |
| `AdminRuns.GateIff` | emulator/servers/administrationserver.py:1211-1217 | a command is told to handshake first, and nothing else happens to it, if and only if its sender has no record or the timeout is negative |
| `AdminRuns.AnswersIff` | emulator/servers/administrationserver.py:1198-1217 | for every packet in every state, which reply it gets, told from the packet and from whether its sender has a record |
| `AdminRuns.LoginAnswersIff` | emulator/servers/administrationserver.py:2527-2558 | in every sound state, for a client with a record: when a login is locked out, refused as held elsewhere, accepted, failed, or ended by the database |
| `AdminRuns.ElsewhereIff` | emulator/servers/administrationserver.py:2538-2540 | in any state, reachable or not, a name is refused if and only if another address has it that has not been silent longer than the timeout |
| `AdminRuns.CrashedIff` | emulator/servers/administrationserver.py:2538-2558 | in any state, reachable or not, a login ends in the KeyError if and only if it gets as far as the database and its sender has no record, or one its own cleanup takes |
| `AdminRuns.RecordAfter` | emulator/servers/administrationserver.py:1198-1217 | who has a record after a packet: whoever shook hands, and everyone who had one and was neither logged out nor found silent by the cleanup of a login |
| `AdminRuns.RecordIffRegistered` | emulator/servers/administrationserver.py:1198-1217 | after every run an address has a record if and only if it made a good handshake that no logout or cleanup has undone since |
| `AdminRuns.ServedIff` | emulator/servers/administrationserver.py:1211-1217 | after every run a command passes the gate if and only if its sender is registered in this sense and the timeout is not negative |
| `AdminRuns.HeartbeatKept` | emulator/servers/administrationserver.py:1198-1201 | every packet but a logout leaves its sender's heartbeat at its own time, and no packet touches another's except to remove it |
| `AdminRuns.BeatIsLastHeard` | emulator/servers/administrationserver.py:1198-1201 | if the timeout is not negative, in every run a stored heartbeat is the time of the last packet from that address |
| `AdminRuns.OneSessionPerAdmin` | emulator/servers/administrationserver.py:2458-2572 | after every run no name is held by two authenticated records, `logged_in_admins` names the holder, and every record has a heartbeat |
| `AdminRuns.NeverCrashes` | emulator/servers/administrationserver.py:2538-2558 | in no run does a login end in the KeyError of a missing client record |
| `AdminRuns.LoginAcceptedIff` | emulator/servers/administrationserver.py:2537-2551 | good credentials from a live, unlocked client are accepted if and only if the name is free, its own, or held by an address silent for longer than the timeout |
| `AdminRuns.CleanupBijective` | emulator/servers/administrationserver.py:2463-2477 | the cleanup keeps names and authenticated records in bijection |
| `AdminRuns.LoginBijective` | emulator/servers/administrationserver.py:2527-2558 | a login keeps the bijection if and only if it is not a success under a second name |
| `AdminRuns.LogoutBijective` | emulator/servers/administrationserver.py:2560-2572 | a logout keeps the bijection if and only if the name is not empty |
| `AdminRuns.BijectionKeptIff` | emulator/servers/administrationserver.py:1198-1217 | for every packet in every bijective state: names and authenticated records stay in bijection if and only if the packet is not, as can be told beforehand, good credentials for a free second name, the logout of an empty name, or a good handshake under a negative timeout |
| `AdminRuns.LeavesNameBehindReply` | emulator/servers/administrationserver.py:2534-2551 | those packets are exactly the ones whose replies give them away |
| `AdminRuns.TidyRunsStayBijective` | emulator/servers/administrationserver.py:2458-2572 | every run without such packets ends with names and authenticated records in bijection |
| `AdminRuns.CleanupRemovesExactly` | emulator/servers/administrationserver.py:2463-2477 | in a bijective state the cleanup removes the authenticated records silent for longer than the timeout, their heartbeats and their names, and nothing else |
| `AdminRuns.LiveHandshakeIgnored` | emulator/servers/administrationserver.py:1205-1210 | a handshake from a client that has a record is always redundant, because the heartbeat has just been refreshed; nothing but the heartbeat changes |
| `AdminRuns.LogoutUndoesLogin` | emulator/servers/administrationserver.py:2560-2572 | a logout after a login leaves the dictionaries the cleanup left, without the client and, unless it is empty, without the name |
| `AdminRuns.StrandedForever` | emulator/servers/administrationserver.py:2463-2487 | a name left behind by its address stays there through every run without that address, and every other login under it is refused |
| `AdminRuns.SecondNameStrands` | emulator/servers/administrationserver.py:2548-2549 | a four-packet run, for any address and time, after which a name is left behind |
| `AdminRuns.RecordChange` | emulator/servers/administrationserver.py:2532-2558 | what any packet does to any client record: only its own successful handshake, login or failed check changes it; a blocked login changes neither the counter nor the time of the last failure |
| `AdminRuns.RunAgrees` | emulator/servers/administrationserver.py:2532-2555 | after every run the stored counter and time are those of all credential checks since the record was made: failures in a row, each within 300 seconds of the one before |
| `AdminRuns.AtMostFiveFailures` | emulator/servers/administrationserver.py:104-105 | in every run the counter stays within 0..5, and any six failed checks of one client record with no success between them span more than 300 seconds |
| `AdminRuns.LockedOutIff` | emulator/servers/administrationserver.py:2532-2536 | a login is refused for too many failures if and only if the history ends in five failures in a row and the last is at most 300 seconds old |
| `AdminGuesses.RecordKnowsSession` | emulator/servers/administrationserver.py:2524 | of all attempts an address ever made, its record knows exactly those since its last handshake |
| `AdminGuesses.FiveFailuresASession` | emulator/servers/administrationserver.py:2532-2558 | in every run, of all attempts an address ever made, any six failures in a row between the same two handshakes span more than 300 seconds |
| `AdminGuesses.BurstIff` | emulator/servers/administrationserver.py:2560-2571 | the failures an address can make at one instant, counted from handshake to handshake: any numbers at all, if and only if none exceeds five |
| `AdminGuesses.GuessesUnbounded` | emulator/servers/administrationserver.py:2560-2571 | for every number there is a run in which one address fails that often at one instant |
| `AdminGuesses.SweepIff` | emulator/servers/administrationserver.py:1205-1210 | without any logout, the failures possible at one instant from the ports of one machine: any numbers at all, if and only if none exceeds five |
| `AdminWire.ChecksumValue` | emulator/servers/administrationserver.py:166-168 | the two checksum bytes are the sum modulo 65536, high byte first, and agree exactly when the sums do |
| `AdminWire.SumAdds` | emulator/servers/administrationserver.py:166-168 | the sum of two byte strings one after the other is the sum of their sums |
| `AdminWire.SumOfOne` | emulator/servers/administrationserver.py:166-168 | the sum of no byte is 0 and of one byte that byte: with the row above, the sum of any byte string |
| `AdminWire.Layout` | emulator/servers/administrationserver.py:173-178 | where header, command, length, payload and checksum of a built packet stand |
| `AdminWire.ParseBuilt` | emulator/servers/administrationserver.py:173-193 | parsing returns the command and payload that were built if and only if the command is one byte; building fails exactly from 2^32 bytes on |
| `AdminWire.BuildParsed` | emulator/servers/administrationserver.py:180-193 | every packet that parses is byte for byte the one built from its parts |
| `AdminWire.RefusedIff` | emulator/servers/administrationserver.py:180-193 | whatever was not built is refused, always with a ValueError |
| `AdminWire.OneByteErrorDetected` | emulator/servers/administrationserver.py:180-193 | any packet that differs from a built one in exactly one byte, anywhere, is rejected |
| `AdminWire.SwapUnnoticed` | emulator/servers/administrationserver.py:166-168 | exchanging two payload bytes always yields a packet that parses to the exchanged payload |
| `AdminWire.Socket.Recv` | emulator/utilities/impsocket.py:797-828 | some of the bytes still to come, at most as many as asked for; nothing if a filter cuts the connection |
| `AdminWire.Socket.RecvAll` | emulator/utilities/impsocket.py:858-872 | however the network splits the bytes: the first `length` of them, or all there are; None, or fewer, only if a filter cuts the connection |
| `AdminWire.RecvFullPacket` | emulator/servers/administrationserver.py:195-206 | one call returns the first packet of the stream, an error for a wrong header, or the end, and consumes what it read; a filter can only end the connection |
| `AdminWire.NextIsFirst` | emulator/servers/administrationserver.py:195-206 | a built packet followed by anything is read as that packet, and what follows stays |
| `AdminWire.NextPacketIff` | emulator/servers/administrationserver.py:195-206 | what is read from any stream: a packet if and only if the header is `be ee ee ff` and all bytes announced are there, a wrong header as soon as nine bytes are |
| `AdminWire.PrefixIncomplete` | emulator/servers/administrationserver.py:195-206 | no proper beginning of a built packet is taken for a packet |
| `AdminWire.StreamSplits` | emulator/servers/administrationserver.py:195-206 | any built packets one after the other, cut off anywhere inside a last one, are read as exactly the complete packets in order |
| `Blobs.SerializedReread` | emulator/utilities/blobs.py:466-533 | for every nested dictionary that can be written: what reading its serialisation gives, slack first, values that look like blobs included |
| `Blobs.WritableIff` | emulator/utilities/blobs.py:496-533 | a dictionary can be written if and only if every part fits its length field, and then takes exactly the bytes counted |
| `Blobs.HeaderErrors` | emulator/utilities/blobs.py:472-481 | a blob of fewer than ten bytes, or a cut entry header, is a struct error; sizes that do not add up a NameError |
| `Blobs.PutStores` | emulator/utilities/blobs.py:486-490 | of several entries with one key the last one counts, at the place of the first |
| `Blobs.NormalWritten` | emulator/utilities/blobs.py:496-533 | a dictionary and its reader form, slack first and only if there is some, are written the same way |
| `Blobs.RereadSameIff` | emulator/utilities/blobs.py:486-490 | re-reading leaves a dictionary unchanged, order included, if and only if no bytes value at any depth starts like a blob |
| `Blobs.CanonicalRoundTripIff` | emulator/utilities/blobs.py:466-533 | a dictionary in reader form comes back with its keys in the same order if and only if no bytes value starts with the two magic bytes |
| `Blobs.BlobRoundTripIff` | emulator/utilities/blobs.py:466-533 | any dictionary that can be written survives writing and reading, at every depth and as `==` compares, if and only if no bytes value starts with the two magic bytes and no slack is empty |
| `Blobs.FastAgreesIff` | emulator/utilities/blobs.py:536-589 | for every dictionary that can be written, the fast writer writes the same bytes if and only if no value is a dictionary |
| `Blobs.FastWritableIff` | emulator/utilities/blobs.py:536-589 | the fast writer writes if and only if keys, values and their total fit, and how many bytes |
| `Blobs.CutBlobRefused` | emulator/utilities/blobs.py:472-477 | a serialised blob cut short anywhere is refused |
| `AdminBlob.BlobUnserialize` | emulator/servers/administrationserver.py:341-366 | ends on every input, and returns what the flat format means: slack, entries with later duplicates winning, or the error of a short header or wrong size |
| `AdminBlob.FlatReadsWritten` | emulator/servers/administrationserver.py:341-366 | for every dictionary that can be written, whatever is nested in it: exactly its slack and its other entries in order, nested values left as bytes |
| `AdminBlob.WrongLengthRefused` | emulator/servers/administrationserver.py:344-351 | a written blob that is cut after its header, or that anything follows, is refused |
| `Ticket.UnhexHex` | emulator/servers/authserver.py:223-235 | text from `b2a_hex` goes back to the same bytes |
| `Ticket.UnhexIff` | emulator/servers/authserver.py:223-235 | `a2b_hex` succeeds if and only if the text is what `b2a_hex` writes for some bytes, and then gives those |
| `Ticket.HexReaderAgrees` | emulator/servers/authserver.py:223-238 | for every command, however short or malformed, the offsets into the hexadecimal text give the same bytes or the same error as half of them in the bytes |
| `Ticket.Data1Length` | emulator/servers/authserver.py:1543-1561 | the first block is 0x80 bytes if and only if the name has at most 37, and begins with the name |
| `Ticket.PresentedLayout` | emulator/servers/authserver.py:1588-1601 | where length, first block, IV, tail and following data of a presented ticket stand; the length field counts the ticket |
| `Ticket.PresentedIff` | emulator/servers/authserver.py:1543-1601 | a ticket is issued if and only if its length fits two bytes, for each version and length of the name |
| `Ticket.PresentedBytes` | emulator/servers/authserver.py:1563-1601 | the version bytes are 00 01 or 00 02, and the bytes after the IV, one by one: 00 42 00 50 or 00 52 00 60, the name's length, zeros, for version 2 also 00 10, account id and client address, and 0x80 zeros |
| `Ticket.BlockBytes` | emulator/servers/authserver.py:1543-1561 | the first block, field by field, for every name: name twice, address in both byte orders, servers, digest and times, zeros up to 0x80 bytes |
| `Ticket.PostTicketRead` | emulator/servers/authserver.py:1113-1114 | the data after the ticket starts at the first byte after it, for both versions and every name |
| `Ticket.UserIVRead` | emulator/servers/authserver.py:1107-1109 | the IV read is bytes 135 to 150 of the command, which are the client's for names of up to 37 bytes |
| `Ticket.UsernameRead` | emulator/servers/authserver.py:1110-1111 | for names of up to 37 bytes, bytes 157 and 158 of the command hold the name's length, and the name read is the one written |
| `Ticket.TicketRoundTrip` | emulator/servers/authserver.py:344-361 | for both versions and every name of up to 37 bytes the handlers get back the name, the client's IV and the data after the ticket |
| `Ticket.LongNameLosesIV` | emulator/servers/authserver.py:1558-1561 | for every longer name there is an IV that is not read back |
| `Ticket.IVRecoveredIff` | emulator/servers/authserver.py:1558-1561 | every IV is read back if and only if the name has at most 37 bytes |
| `Ticket.NameHalvedIff` | emulator/utilities/ticket_utils.py:140-144 | a name stored twice is read back from its first half if and only if it is ASCII |
| `Ticket.ParsedTicketIff` | emulator/utilities/ticket_utils.py:101-158 | for every name of up to 37 bytes the ticket parser finds the name as issued if and only if it is ASCII without NUL, the IV always, and without NUL addresses, servers, digest and times too |
| `Sealing.Padded` | emulator/utilities/encryption.py:314-316 | 1 to 16 bytes are added, each holding their number, up to a whole block, as in section 6.3 of RFC 5652 |
| `Sealing.DecryptEncrypted` | emulator/utilities/encryption.py:275-330 | decryption returns the padded message: the plaintext followed by its padding |
| `Sealing.SealedRead` | emulator/servers/authserver.py:236-240 | IV and ciphertext are found at their offsets and decrypt to the padded plaintext |
| `Sealing.SealableIff` | emulator/servers/authserver.py:236-240 | a request can be sent if and only if its plaintext has fewer than 65520 bytes |
| `Sealing.BodyAt` | emulator/servers/authserver.py:241-243 | the body stands at the offset computed from the first name's length, and only padding follows |
| `Sealing.SubscribeBlobIff` | emulator/servers/authserver.py:241-246 | the blob taken is exactly the body if and only if bytes 2 and 3 of the body hold its length |
| `Sealing.BlobCarriesLengthIff` | emulator/servers/authserver.py:244-246 | a serialised blob holds its own length there if and only if it has no slack and fewer than 2^16 bytes |
| `Sealing.UnsubscribeIdRead` | emulator/servers/authserver.py:1674-1679 | the package id between header and padding is the body's, exactly when the body has four bytes; otherwise a struct error |
| `Sealing.SubscribeEndToEndIff` | emulator/servers/authserver.py:222-248 | from ticket to dictionary: for both ticket versions, any lawful cipher and any dictionary, `subscribe` works with what the client wrote if and only if no value starts like a blob, no slack is empty, and the blob has no slack of its own |
| `Sealing.SealedBodyIsShort` | emulator/servers/authserver.py:237-238 | a request that can be sent at all has a body of fewer than 2^16 bytes, because its ciphertext length has two |
| `Sealing.SubscribeBlobCut` | emulator/servers/authserver.py:244-246 | a blob that does not carry its length is cut to the length it carries |
| `Sealing.UnsubscribeEndToEnd` | emulator/servers/authserver.py:1655-1679 | the same for the package id of an unsubscribe request |
| `Sealing.EnvelopeRoundTrip` | emulator/servers/authserver.py:909-924 | an envelope exists if and only if its length fits 32 bits; the length field counts the bytes after it, and the reader gets the exact plaintext whatever bytes follow |
| `Sealing.ReplyRead` | emulator/servers/authserver.py:326-334 | what each of the two readers is left with after an envelope's header |
| `Sealing.WholeReplyIff` | emulator/servers/authserver.py:1007-1014 | the readers without the cut get the plaintext if and only if what follows the envelope fills whole blocks, and refuse it otherwise |
| `RateLimiter.SubscribeLimiter.Admit` | emulator/servers/authserver.py:253-260 | one attempt against the address's list: passes or not, the list after, and no other address's list touched |
| `RateLimiter.StoredMeansHistory` | emulator/servers/authserver.py:255-260 | though refused attempts store nothing, the list always has the same recent part as the history of all passed attempts |
| `RateLimiter.PassesIff` | emulator/servers/authserver.py:255-258 | an attempt passes if and only if fewer than five earlier passed ones are under 60 seconds old |
| `RateLimiter.PassesWhen` | emulator/servers/authserver.py:253-260 | in every run an attempt passes if and only if fewer than five have passed, or the fifth last of them at least sixty seconds ago |
| `RateLimiter.SixSpanAMinute` | emulator/servers/authserver.py:252-260 | in every run, of any six successive passed attempts the last is at least 60 seconds after the first |
| `BlobIndex.BisectRight` | emulator/servers/administrationserver.py:657 | the insertion point: everything before it is at most the date next to it, everything from it on is greater |
| `BlobIndex.SearchIsLast` | emulator/servers/administrationserver.py:656-667 | the extra test on the entry found never fails: the match is simply the last entry not after the date |
| `BlobIndex.SearchFindsNewest` | emulator/servers/administrationserver.py:833-891 | sorting by timestamp and searching finds the newest firstblob not after the date, of several the last listed |
| `BlobIndex.FilterFindsNewest` | emulator/servers/administrationserver.py:2275-2286 | filtering and sorting downwards finds the newest firstblob not after the date, of several the first listed |
| `BlobIndex.LookupsAgreeIff` | emulator/servers/administrationserver.py:833-891 | search over timestamps and filter over dates find nothing together or entries of one date, on all files and queries with given dates, if and only if the clock increases on those dates |
| `BlobIndex.LookupsAgree` | emulator/servers/administrationserver.py:833-891 | then both find a firstblob of the greatest date not after the secondblob's, the search the last listed, the filter the first |
| `BlobIndex.FoundTooEarly` | emulator/servers/administrationserver.py:2275-2279 | where a later date has no later timestamp, the search finds a file that the filter does not |
| `BlobIndex.LookupsChooseSameFile` | emulator/servers/administrationserver.py:2275-2286 | with an increasing clock and distinct firstblob dates both lookups choose the same file |
| `BlobRows.CacheFileBlobs` | emulator/servers/administrationserver.py:568-667 | one row per secondblob in file-name order; row i gets the match for entry i of the separately sorted dates |
| `BlobRows.SecondsHold` | emulator/servers/administrationserver.py:577-632 | the secondblobs gathered are all those of the directory, with their timestamps |
| `BlobRows.FirstsHold` | emulator/servers/administrationserver.py:577-632 | the firstblobs gathered are all those of the directory, with their timestamps |
| `BlobRows.RowsShown` | emulator/servers/administrationserver.py:568-667 | every secondblob of the directory has a row and nothing else has; row i names a firstblob of the directory not after date i with none newer in between, or there is none |
| `BlobRows.MatchRows` | emulator/servers/administrationserver.py:652-667 | row by row, the match for the date of the same index |
| `BlobRows.AlignedIff` | emulator/servers/administrationserver.py:636-654 | row i and date i belong to the same file, for all rows, if and only if the timestamps never decrease along the names |
| `BlobRows.TargetIsNewest` | emulator/servers/administrationserver.py:652-667 | the firstblob given to a date is one not after it with none newer in between, or there is none |
| `BlobRows.TargetInForce` | emulator/servers/administrationserver.py:628-667 | the same of the directory itself: the match is one of its firstblobs, or it has none old enough |
| `BlobRows.NameOrderIsDateOrder` | emulator/servers/administrationserver.py:582-590 | names with zero-padded dates sort by date first and by description second |
| `BlobRows.PaddedNamesAlignIff` | emulator/servers/administrationserver.py:636-654 | with such names, sorting by timestamp and name changes nothing if and only if the clock never goes back on their dates |
| `BlobRows.EveryRowItsOwnDateIff` | emulator/servers/administrationserver.py:568-654 | in any directory of such names every row is matched by the date of its own file if and only if the clock never goes back on those dates |
| `BlobRows.UnpaddedMonthsMisalign` | emulator/servers/administrationserver.py:590 | two files, for any dates, whose rows exchange their dates because a month is not padded |
| `NeuterQueue.AutoNeuter` | emulator/neuter.py:1520-1582 | the whole construction: custom ids added, ids sorted, tasks numbered as found, then sorted and numbered from 1 again |
| `NeuterQueue.Enqueue` | emulator/neuter.py:1560-1573 | one application adds its version and, if different, its beta version, each unless cached, for the second list only with a directory of its own |
| `NeuterQueue.ExtendedHolds` | emulator/neuter.py:1524-1529 | the list keeps its order and gains exactly the custom ids it lacks, each once |
| `NeuterQueue.SortedQueueHolds` | emulator/neuter.py:1534-1575 | the queue holds exactly the uncached versions of the listed applications |
| `NeuterQueue.NoRepeatsIff` | emulator/neuter.py:1534-1573 | no (appid, version) pair occurs twice if and only if no application with something to do is listed twice, in one list or in both |
| `NeuterQueue.NumberedInOrderIff` | emulator/neuter.py:1575-1579 | the keys are 1 to n, and their tasks strictly ascend by (appid, version) under exactly the same condition |
| `NeuterRun.Runner.DownloadApp` | emulator/neuter.py:1088-1114 | however the work ends: the next task is called back, or the end is reported, depending on whether the halt was seen |
| `NeuterRun.Runner.CreateNextProgressBar` | emulator/neuter.py:594-611 | starts a task and through it all that follow, or nothing past the last |
| `NeuterRun.Runner.RunInWindow` | emulator/neuter.py:613 | tasks 1, 2, ... each once, in order, up to the first that saw the halt or the last; `stop_event` is set exactly once |
| `NeuterRun.Runner.RunInConsole` | emulator/neuter.py:470-479 | the console loop stops at the first task to end with the halt set; whether `stop_event` is set then |
| `NeuterRun.SameTasksIff` | emulator/neuter.py:470-479 | console and window run the same tasks if and only if the first task to end with the halt set saw it or is the last; the console never goes further |
| `NeuterRun.NoHaltRunsAll` | emulator/neuter.py:470-479 | without a halt both run every task |
| `IpCodec.EncodeDotted` | emulator/utils.py:86-94 | a dotted quad encodes to its four octets and the port, low byte first; a port out of range is a struct error |
| `IpCodec.EncodeErrors` | emulator/utils.py:86-94 | for every address and port, which error is raised: a part that is no number, then missing parts, then numbers out of range |
| `IpCodec.SignedIff` | emulator/utils.py:86-94 | what `int` accepts: digits with one sign or none in front, and their value |
| `IpCodec.EncodeDecoded` | emulator/utils.py:80-94 | every six bytes are the encoding of what they decode to |
| `IpCodec.DecodeEncodedIff` | emulator/utils.py:80-94 | an endpoint survives encoding if and only if its address is a dotted quad as `%d` writes it and its port is in range |
| `SortKeys.KeyOrderAgrees` | emulator/utils.py:267-285 | within each class lexicographic order of the sort keys is `sortfunc`: reversed bytes compare as little-endian numbers |
| `SortKeys.SortFuncZeroIff` | emulator/utils.py:273-285 | zero exactly on equal keys |
| `SortKeys.SortFuncFlips` | emulator/utils.py:273-285 | exchanging the arguments changes the sign |
| `SortKeys.SortFuncTransitive` | emulator/utils.py:273-285 | transitive, strictly if one step is strict: with the two rows above, a total order |
| `SortKeys.SortedKeys` | emulator/utils.py:273-285 | in any list sorted by it the four-byte keys with a zero in third place come first, as little-endian numbers, the others after them, as byte strings |
| `SortKeys.SharedKeyIff` | emulator/utils.py:267-270 | two different keys share a sort key if and only if one is a number and the other is its reversal and no number |
| `Replacing.IpReplacer` | emulator/utils.py:1830-1842 | the first occurrence, if the new address fits, becomes the address padded with NULs; every other byte and the length stay |
| `Replacing.ReplaceAddresses` | emulator/utils.py:226-229 | the loop over all addresses keeps the length |
| `Replacing.OnlyWindowsChange` | emulator/utils.py:226-227 | over any list of addresses, a byte that changed lies in the first occurrence of one of them at its turn |
| `Replacing.EachAtItsTurn` | emulator/utils.py:226-229 | every address gets its turn: where it first occurs then, the new one stands, padded, if it is no longer |
| `Replacing.ReplaceAllFirst` | emulator/utils.py:173 | what stands before the first occurrence stays, the new text follows, and the rest is replaced alike |
| `Replacing.ReplaceAllFrame` | emulator/utils.py:173 | a replacement of equal length changes only bytes inside occurrences, and puts the whole new text there |
| `Replacing.PassLengthIff` | emulator/utils.py:168-177 | a pass never shortens the data, and keeps its length if and only if the new text is no longer than the old or the old does not occur |
| `Replacing.ReadFileBeta` | emulator/utils.py:119-192 | the four loops over the four lists with their texts, as one sequence of passes |
| `Replacing.NewTexts` | emulator/utils.py:119-192 | the text written for each of the twenty: public, server or tracker address, quotes and ports kept, except the configured validation port and the quoted address of the last list |
| `Replacing.PassesLengthIff` | emulator/utils.py:168-192 | any sequence of passes keeps the length if and only if each pass that finds its text has one that fits: later passes never make up for an earlier one |
| `Replacing.NoFileChangesLengthIff` | emulator/utils.py:119-192 | with the lists in the code: no file changes length if and only if the address has at most 14 characters, the tracker's at most 25, and address and validation port at most 18 together |
| `Replacing.LongAddressesLengthen` | emulator/utils.py:119-192 | otherwise a file that holds just one of the old texts gets longer |
| `GroupList.GetGeneralServerList` | emulator/servers/contentlistserver.py:98-224 | the loop with its breaks, on every message: error, refusal byte, or the reply for the chosen servers and the limit |
| `GroupList.OwnServerChosen` | emulator/servers/contentlistserver.py:137-166 | a client at the address of a listed content server is sent to the first such server and no other |
| `GroupList.FastestChosen` | emulator/servers/contentlistserver.py:145-166 | another client is sent to the first server at the address the latency aggregator names |
| `GroupList.ListKept` | emulator/servers/contentlistserver.py:145-175 | the list stays as it is if it has one server, or the aggregator names no address or one nobody has |
| `GroupList.QueryRead` | emulator/servers/contentlistserver.py:100-130 | for every query the fields packed are the fields read, specific content having one word more |
| `GroupList.QueryRefused` | emulator/servers/contentlistserver.py:100-130 | a request is an error if and only if it is too short, and refused if and only if its kind is neither 0 nor 1 |
| `GroupList.EntriesLayout` | emulator/servers/contentlistserver.py:207-213 | entry i is twelve bytes at 12 i: update server, then content server |
| `GroupList.ReplyIff` | emulator/servers/contentlistserver.py:177-221 | a reply is made if and only if every group sent can be encoded and count and cell fit their fields |
| `GroupList.CountHonestIff` | emulator/servers/contentlistserver.py:177-221 | the reply is 6 + 12 * count bytes if and only if the server list fits the client's limit; otherwise the count is the limit plus one over just the limit's entries; the cell is that of the last group looked at |
| `GroupList.GroupsSentInOrder` | emulator/servers/contentlistserver.py:181-221 | the groups sent are the beginning of the list, in order, up to the limit, except that the second of two is dropped |
| `GroupList.GroupsDecode` | emulator/servers/contentlistserver.py:186-213 | decoding entry i gives the group's update server and content server, in that order, or those that stand in for missing ones |
| `ConfigFile.SaveConfigValue` | emulator/config.py:290-325 | the scan, the overwriting and the missing line end in place; what the next read sees are the edited lines |
| `ConfigFile.FirstMatch` | emulator/config.py:299-314 | the first line that assigns the key, its old name, or the commented-out key |
| `ConfigFile.MatchesIff` | emulator/config.py:299-309 | a line is overwritten if and only if it is the key or its old name, space and `=`, with space in front or none, or the key commented out |
| `ConfigFile.SavedLines` | emulator/config.py:313-325 | exactly one line is overwritten, or one added; all others are kept in order, the last one gaining its line end |
| `ConfigFile.IdempotentIff` | emulator/config.py:290-325 | saving twice is saving once if and only if the new text, as read again, is one line and is found again |
| `ConfigFile.PlainKeyIdempotentIff` | emulator/config.py:290-325 | for keys without line ends or leading space: idempotent if and only if the value stays on one line, carriage returns and both platforms' line ends considered |
| `ConfigRead.ReadConfigFile` | emulator/config.py:252-275 | parsing line by line and cleaning every option gives what the specification of the reader says, or nothing when anything raises |
| `ConfigRead.WrittenConfigRead` | emulator/config.py:252-258 | a file of two sections written setting by setting is read as written: the last setting in `[config]`, else in `[DEFAULT]`, else the default |
| `ConfigRead.OtherSectionRaises` | emulator/config.py:253-258 | the same file under any other heading raises |
| `ConfigRead.BreaksIff` | emulator/config.py:253-254 | which lines, after any others, make the parser raise |
| `ConfigRead.CommentSkipped` | emulator/config.py:253-254 | a comment line changes nothing, a blank line only adds to an option that is open |
| `ConfigRead.EscapedExpands` | emulator/config.py:256 | a text with its percent signs doubled is read as the text |
| `ConfigRead.ReferenceRead` | emulator/config.py:256 | `%(name)s` is read as the text of that option |
| `ConfigRead.QuotedRead` | emulator/config.py:259-271 | quotes that open a value end it and are taken off, and empty ones raise |
| `ConfigRead.UnclosedQuoteRead` | emulator/config.py:259-271 | a quote that is not closed is part of the value |
| `ConfigRead.CommentRead` | emulator/config.py:259-271 | a value ends before its first comment mark, without the space there |
| `ConfigRead.EntryAfter` | emulator/config.py:253-254 | what any further lines do to any option: replace its text or add to it, as their headings, indentation and blank lines decide |
| `ConfigRead.SavedParsesIff` | emulator/config.py:253-256 | whether the parser raises on the saved file can be told before the save, without the value |
| `ConfigRead.SavedOptions` | emulator/config.py:253-256 | the options of the saved file are those it has with the empty value, with the value in its place |
| `ConfigRead.SavedTextInForce` | emulator/config.py:252-258 | for every file and every value on one line: no text is in force if the file then raises, which does not depend on the value; else the text in force is the saved value with the lines that continue it, unless a later line assigns the option, and from `[DEFAULT]` only if `[config]` has none |
| `ConfigRead.SavedValueInForceIff` | emulator/config.py:290-325 | every value saved is in force afterwards if and only if every line parses and there is a `[config]`, the line goes into `[config]`, or into `[DEFAULT]` with none in `[config]`, and no later line assigns or continues the option |
| `ConfigRead.ReadOneIff` | emulator/config.py:256-271 | an option's text is read as the value it was stripped from if and only if that has no space at its ends, no comment mark, no percent sign and no closed leading quote |
| `ConfigRead.ReadBackIff` | emulator/config.py:256-271 | a value saved where it takes effect is read back as saved if and only if it is such a value and every other option can be read, as can be told before the save, and without the value if no other option refers to it |
| `ConfigRead.ExpandShrinks` | emulator/config.py:256 | interpolation leaves fewer percent signs than there were, unless an option referred to has some |
| `ConfigRead.SelfReference` | emulator/config.py:256 | a text that refers to itself always raises |
| `ConfigRead.QuotedReference` | emulator/config.py:256 | a text with a percent sign that does come back unchanged, through an option that quotes it |
| `ConfigRead.LonePercentRaises` | emulator/config.py:256 | after saving a value with a percent sign that stands alone, reading the configuration raises |
| `ConfigRead.UnfoldedKeyLost` | emulator/config.py:253-256 | a key that is no folded name and no default is not in the configuration after it has been saved |
| `Ordering.SortSorted` | emulator/neuter.py:1532 | for any order in which ties are transitive, sorting gives the same elements in order |
| `Ordering.CompareIsNumeric` | emulator/utils.py:263-285 | on digit strings of equal length, lexicographic order is numeric order |
| `Ordering.CompareIff` | emulator/utils.py:273-285 | a string comes first if and only if, where they part, it ends or has the lesser element |

## Left out

- Sockets, threads, databases, SQL, HTTP, SMTP, tkinter and file access: input and output; their answers are parameters of the model.
- Two packets handled at the same time by different threads, and the several clock readings within one packet: a packet is one atomic step with one time.
- A change of `admin_inactive_timeout` during a run: the timeout is a constant of the server.
- The many administration commands that read the dictionaries: they are one input, `Other`, because none of them changes the three session dictionaries.
- The handshake's key derivation and proof check (administrationserver.py 2502-2523): an input says whether it succeeds.
- `user_rights`, session keys and `connected_since` in client records: no session decision depends on them.
- AES, RSA, SHA and HMAC themselves, and the 16-byte loop around the block cipher: only that decryption undoes encryption is used. Signatures are logged but never decide anything in the readers.
- Compressed blobs (blobs.py 467-469): zlib; the readers are modelled on uncompressed ones.
- Text names and values handed to the blob writer (blobs.py 505-512): dictionaries hold bytes.
- The sub-header and the encrypted blob around a login ticket: only the part the client sends back is modelled.
- The fields of the ticket parser after the IV, and its formatted addresses (ticket_utils.py 121-136, 158-165).
- What the address filter and the pattern filter of the sockets look for (impsocket.py 803-821): they cut a connection at any time or not at all.
- Parsing of dates in file names and local time: a function gives each file's kind and timestamp; the clock that turns dates into timestamps is any function, and the results say which clocks they need.
- Package existence, versions and descriptions in blob rows: looked up per row, with no influence on the match.
- The nearest-firstblob fallback in `_perform_file_blob_swap`, and the other blob layout in `_blob_unserialize` at administrationserver.py 736.
- The content server address in neuter tasks: the same in every task, so it never decides their order.
- What a neuter task does to its files: the run is about which tasks start and which one reports the end. The halt event is never cleared during a run.
- The content server manager's own lists: its answer, and the servers that stand in for missing ones, are inputs of the reply.
- `int()` on digits outside ASCII.
- Saving when `emulator.ini` does not exist or cannot be decoded, which raises, and which of several exceptions reading raises: reading gives values, or none.
- SavedTextInForce: values with line ends inside, which spread over several lines, are excluded; PlainKeyIdempotentIff covers them.
- SavedValueInForceIff: keys that the parser cannot read back under their own name (empty, with delimiters, space at the ends, a comment mark or bracket in front, or not folded) are excluded.
- ReadBackIff: an option that the value refers to must have no percent sign of its own; QuotedReference is a value that is read back unchanged without this.
- TicketRoundTrip: names of more than 37 bytes are excluded because the property is false there; IVRecoveredIff gives the exact limit.
- ParsedTicketIff: says of a name with a NUL that it is not read back, but not what the other fields are read as.
- GroupsSentInOrder: says nothing about the second of two groups, which the code cuts off.
