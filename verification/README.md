# Verification of the encrypted backup client

A Dafny model of a command-line client that registers with a server, exchanges keys, and uploads
encrypted files in numbered packets over a binary protocol, with proofs of what every run keeps.
`dafny verify dfyconfig.toml` checks everything.

## What is modelled

| file | models |
|---|---|
| `Binary.dfy` | bytes, little- and big-endian integers, fixed-width text fields, field lists, exclusive or |
| `Encoding.dfy` | hexadecimal text (`Hex`) and Base64 (`Base64`, section 4 of RFC 4648) |
| `Crc32.dfy` | CRC-32 (section 8 of RFC 1952) and its error detection |
| `Aes.dfy` | the IV-prefixed envelope: CBC (section 6.2 of NIST SP 800-38A) and padding (section 6.3 of RFC 5652) |
| `Protocol.dfy` | field sizes, codes, name validation |
| `Request.dfy`, `Response.dfy` | the request object and its serialization; the response parser; a receiver for each |
| `Credentials.dfy` | the credential files and their line-based loaders |
| `Host.dfy` | the outside world, the events of a run, `CommunicationManager` |
| `Upload.dfy`, `Progress.dfy` | packets of a file, the receiver that restores it, progress reports |
| `Backup.dfy`, `BackupProperties.dfy` | what backing up does to the world, and what follows from it |
| `Answer.dfy` | what the client makes of the server's answers, code by code |
| `FileAuthentication.dfy` | the upload engine, with its loops and fields |
| `Session.dfy` | the automaton of a session, histories of sessions, safety over all of them |
| `Flows.dfy`, `ClientHandler.dfy` | registration, key exchange, re-registration and the program, and the code that computes them |
| `Program.dfy` | how whole runs of the program end, which identities can still get in, runs one after the other |
| `Delivery.dfy` | a whole session with a truthful server, on disk and on the wire |

**Runs.** An environment (`Hosts.Env`) fixes, for every moment, the contents of the files to back up,
what a connection attempt does to the socket, which writes break and after how many bytes, which credential files cannot be opened, the IVs and keys
drawn, and what the block cipher and RSA do. It is arbitrary, and so are the bytes that come in from the
server and the words typed. A statement about every environment, every incoming stream and every
input is therefore a statement about every run. The only fact used of the block cipher is that decryption
undoes encryption; of RSA nothing is used but that decryption is a function of key and text. `Env.Sound`
asks that generated private keys are not empty and that the Base64 encoder's lines hold at least 44
characters (the library's are longer).

**Layers.** Classes with the fields of the original (`Request`, `AesWrapper`, `CrcRegister`, `InputStream`,
`CommunicationManager`, `FileAuthentication`, `ClientHandler`) do what the code does, step by step. Their
methods are proved equal to functions on values (`Upload`, `Verify`, `BackupFrom`, `BackupAll`,
`KeyExchange`, `Register`, `Program`), and the properties are proved of those functions for all arguments.
The events of the session functions are proved to be accepted by the automaton `Sessions.Next`
(`Program.dfy`); the safety theorems hold for every event sequence of that automaton, so also for a session
cut off after any event.

**Conventions.** A write to a credential file is one event, a send either goes out whole or breaks after a
strict prefix. Exceptions become `ClientError` (caught per file in a batch) or `Fatal`; in the session
flows every exception is the result `false`. The host is little-endian and `size_t` has 64 bits. Narrowing
casts are written out as remainders and proved to lose nothing for the sizes that occur.

## Where the code and its comments differ

The model follows the code.

- The size kept after an upload is that of the **last chunk**, although the name and the comments speak of the
  whole encrypted file. A server that answers with the whole size is confirmed exactly for files of up to
  4079 bytes (`WholeSizeConfirmsIff`).
- The error flag survives from one file to the next; only a successful comparison resets it, and while it is
  set no progress is printed (`SendEncryptedFileRequest`, `BatchTrace`).
- A CRC error is reported without waiting for an acknowledgement (`CompletedShape`).
- The disconnect request declares 483 payload bytes and sends 491 (`DisconnectFallsShort`).
- The hexadecimal reader accepts white space or a sign before the second digit of a pair
  (`SignedPairAccepted`, `ReencodingIsExact`).
- A stop between the two durable writes of a registration is final: with two lines in `me.info` no later
  session sends anything but the disconnect request (`TwoLinesAreStuck`, `StuckForever`); two lines are
  reached (`InterruptedRegistration`, `FaultAtTheAppend`) and are exactly what keeps a client out
  (`CanEnterIff`).
- If the disconnect after a failed session fails as well, the program ends by that exception and an AES key
  that was stored stays on disk; `ProgramEndsIff` says exactly when, `LeftoverKeyExists` gives a run.
- `disconnect` is meant not to throw after a failed connection attempt, but the library may leave the socket
  open then, and the write on it fails (`ProgramEndsIff`, the case of an open socket without a connection).
- The prompt names letters, digits and underscores only; the check also allows dots and hyphens (`IsNameChar`).

## Model

| member | source | states |
|---|---|---|
| Deliveries.SessionDelivers | src/core/ClientHandler.cpp:158-164 | A whole session of a known client, for any number of files: if the server grants a key and answers every upload truthfully, the session succeeds, emits exactly re-registration, each file's packets, answer, success status and ACK in order, then the disconnect, closes the socket and consumes exactly the server's responses |
| Deliveries.FirstSessionDelivers | src/core/ClientHandler.cpp:158-164 | The same for a new client's first session: first free name, identity and both keys stored, every file delivered, exactly these events in order |
| Deliveries.SessionIsRestored | src/protocol/request.cpp:408-449 | One receiver goes from the raw bytes of the whole session to exactly the list of names and contents of the files, by the declared sizes, the packet counts, the success statuses and the key alone |
| Deliveries.SessionOnTheWire | src/protocol/request.cpp:408-449 | A receiver that splits that session's bytes by the declared sizes alone gets exactly those requests, then the first 506 bytes of the disconnect request, with eight zero bytes left over |
| Deliveries.FirstSessionOnTheWire | src/protocol/request.cpp:408-449 | The same for a new client's first session: its bytes split into the registrations, the public key, every file's packets and status, and the 506 bytes; and the receiver restores exactly the files |
| Deliveries.BatchDelivers | src/crypto/FileAuthentication.cpp:443-478 | Every batch of unchanged files, answered truthfully, is delivered completely, one upload per file, in the given order |
| Deliveries.TruthfulServer | src/crypto/FileAuthentication.cpp:270-317 | For every valid file of allowed size that stays unchanged there are answers that confirm it |
| Deliveries.JobIsRestored | src/crypto/FileAuthentication.cpp:173-253 | Each of these files is restored from the bytes of its packets |
| Uploads.EndToEnd | src/crypto/FileAuthentication.cpp:108-253 | For every file up to 20 MiB, every key, IV and valid name: splitting the upload's bytes by the declared sizes, joining the chunks and decrypting gives exactly that file; every packet carries its name, size and packet count |
| Uploads.PacketContents | src/crypto/FileAuthentication.cpp:202-228 | Each packet declares its true size, carries the ID, its number and the count, and a non-empty chunk no longer than the chunk size; no cast loses anything |
| Uploads.PacketCountBounds | src/crypto/FileAuthentication.cpp:193-194 | The packet count is the least number of chunks that hold the ciphertext |
| Uploads.ChunkBounds | src/crypto/FileAuthentication.cpp:202-206 | Chunks are non-empty and adjacent, only the last may be short, and the last ends with the ciphertext |
| Uploads.ChunksTile | src/crypto/FileAuthentication.cpp:202-223 | The chunks tile the ciphertext without gap or overlap |
| Uploads.PacketLimits | src/crypto/FileAuthentication.cpp:85-93 | At most 257 packets below 1 MiB and 321 from there on; count, file size and chunk size fit their fields |
| Uploads.ChunkLayout | src/crypto/FileAuthentication.cpp:192-206 | Below 0x100000 bytes every chunk but the last has 4096 bytes and there are (ciphertext + 4095) / 4096 of them; from there up to 20 MiB 65536 bytes and (ciphertext + 65535) / 65536 |
| Uploads.PacketBytes | src/crypto/FileAuthentication.cpp:202-228 | Every byte of a packet on the wire: version 3, code 103, the declared sizes, packet number and count, the name, and the chunk at its end |
| Uploads.LastChunkSizeBounds | src/protocol/request.cpp:210-213 | The recorded size lies between 1 and the chunk size, and is the whole ciphertext if and only if there is one packet |
| Uploads.LastPacketSize | src/crypto/FileAuthentication.cpp:252 | What is recorded after an upload is the size of the last chunk |
| BackupProperties.DeliveredIff | src/crypto/FileAuthentication.cpp:392-431 | Success is reported if and only if the run is at most three rounds, each of the file as it was at the start of its own attempt (the reading times are fixed and strictly increase) and encrypted with the IV drawn then, the last confirming exactly what was read in it and no earlier one doing so, followed by CRC_SUCCESS and an ACK with the stored ID |
| BackupProperties.DeliverableIff | src/crypto/FileAuthentication.cpp:392-431 | The same from the input alone, for files that change and writes that break: success is reported if and only if the contents at the reading times, the writes at the times between and the server's next responses make up at most three rounds of which exactly the last confirms, with all packets and statuses going out, and an ACK |
| BackupProperties.AttemptIff | src/crypto/FileAuthentication.cpp:392-400 | An attempt comes to a comparison if and only if the file and the credentials can be used, no packet breaks, and the next response has code 220 and the stored ID |
| BackupProperties.ServerDecides | src/crypto/FileAuthentication.cpp:392-431 | With an unchanged file and no broken send, success is reported if and only if one of the server's next responses, as many as attempts are left, is the first to repeat checksum and size, all before it carry code and ID, and an ACK follows |
| BackupProperties.CompletedShape | src/crypto/FileAuthentication.cpp:392-431 | Every run without exception has the trace (packets, read, CRC_ERROR)^(k-1), packets, read, final status, read, with k from 1 to 3, each of the k attempts reading the file anew, CRC_FAILURE only for k = 3; it reads exactly k+1 responses and records exactly its k comparisons |
| BackupProperties.EveryRun | src/crypto/FileAuthentication.cpp:392-431 | Every run of a file with any outcome is rounds and a tail, and both determine the outcome. The tail is the final status, broken or with what followed; or the broken report of a mismatch; or that report and an attempt that sent nothing, or the first packets of the file as read at that attempt's own time with one broken, or all of them with no response or one that is not compared. A client error is a 221 response to all packets of an attempt, or a file over the limit at the reading time. The fields record exactly the rounds |
| BackupProperties.ReadInTurn | src/crypto/FileAuthentication.cpp:402 | A later round reads the file after the earlier one was read, drawn an IV for and sent |
| BackupProperties.BackupEvents | src/crypto/FileAuthentication.cpp:392-431 | Whatever happens, a file's events are responses and requests of this file: its statuses and packets of what it held when they were read, under the stored ID and key and the IV drawn then; without success the log never ends with an acknowledged CRC_SUCCESS |
| BackupProperties.AttemptRound | src/crypto/FileAuthentication.cpp:270-317 | An attempt that is compared uploaded what it read at its start, before any of its packets, and its answer has the code and ID required; the verdict is whether checksum and last-chunk size agree, and the fields record that verdict |
| BackupProperties.FileFlag | src/crypto/FileAuthentication.cpp:306-316 | After a file, however it ended, the error flag says whether the answer compared last, which is in the log, failed to confirm what was read for it; it is unchanged if none was compared, and there are at most three |
| BackupProperties.BatchTrace | src/crypto/FileAuthentication.cpp:443-478 | The log of a batch is the concatenation of its files' traces in order, each made of requests of that file and responses, with its rounds, tail and outcome as in `EveryRun`; invalid, missing and oversized files add nothing; only a fatal exception ends the batch, which a 221 rejection or an oversized file is not; the flag afterwards is the last comparison of all rounds of the batch |
| BackupProperties.OversizedFile | src/crypto/FileAuthentication.cpp:132-139 | A file over the limit ends itself alone, without a byte sent and with all fields unchanged |
| BackupProperties.BurstNotConfirmed | src/crypto/FileAuthentication.cpp:300-313 | A server that checksummed the file with an error burst of up to 32 bits is never confirmed |
| BackupProperties.WindowNotConfirmed | src/crypto/FileAuthentication.cpp:300-313 | Nor one whose file differs inside four consecutive bytes only |
| BackupProperties.DamagedNeverDelivered | src/crypto/FileAuthentication.cpp:392-431 | If for whatever rounds the file's contents at the reading times and the server's next responses make up, the last answer is about a copy with such a burst, the file is never reported as delivered |
| BackupProperties.WholeSizeConfirmsIff | src/crypto/FileAuthentication.cpp:306-307 | A server that answers with the size of the whole ciphertext is confirmed if and only if the file has at most 4079 bytes |
| ServerAnswers.VerdictIff | src/crypto/FileAuthentication.cpp:270-317 | A comparison takes place only for code 220 with the stored ID and matches if and only if checksum and last-chunk size agree; code 221 is a client error whatever the ID; everything else is an exception |
| ServerAnswers.AckIff | src/crypto/FileAuthentication.cpp:357-379 | An acknowledgement is accepted if and only if the next response has code 230 and exactly the stored sixteen ID bytes |
| ServerAnswers.FinishIff | src/crypto/FileAuthentication.cpp:392-431 | The last exchange of a file succeeds if and only if the status goes out and such a response follows; otherwise it is an exception |
| ServerAnswers.FinalExchange | src/crypto/FileAuthentication.cpp:392-431 | A delivered file ends with status 120, a given-up one with status 122, under its name and the stored ID, and with a response of code 230 and that ID as the last event |
| ServerAnswers.GivesUpAfterThree | src/crypto/FileAuthentication.cpp:392-431 | A file is given up exactly with its third mismatch in a row, and delivered after at most two |
| ServerAnswers.SizeLimit | src/crypto/FileAuthentication.cpp:132-139 | The limit is 20 * 1024 * 1024 bytes: a larger file ends in a client error with nothing sent and the fields unchanged, and a file that is not larger is not stopped by it |
| FileAuthentications.FileAuthentication.EncryptFile | src/crypto/FileAuthentication.cpp:108-161 | Reads, checks the limit, loads the key and encrypts, failing as `Prepare` says; the ciphertext is the envelope of what was read |
| FileAuthentications.FileAuthentication.SendEncryptedFileRequest | src/crypto/FileAuthentication.cpp:173-253 | The world and the recorded size afterwards are those of `Upload`; unless the flag is set, the reports printed are those of the packets sent or broken so far, also when the upload breaks midway |
| FileAuthentications.FileAuthentication.SendPackets | src/crypto/FileAuthentication.cpp:202-250 | Overwriting one request packet by packet sends exactly the packets of the file, up to the first broken write, reports the progress up to there, and leaves the last chunk size in it |
| FileAuthentications.FileAuthentication.Report | src/crypto/FileAuthentication.cpp:230-247 | One step of the progress loop extends the reports as specified |
| FileAuthentications.FileAuthentication.VerifyUploadCrcResponse | src/crypto/FileAuthentication.cpp:270-317 | The comparison, its order of error conditions and the flag afterwards |
| FileAuthentications.FileAuthentication.SendCrcStatusRequest | src/crypto/FileAuthentication.cpp:325-340 | Sends one status request with the stored ID and the file's name |
| FileAuthentications.FileAuthentication.ProcessServerAck | src/crypto/FileAuthentication.cpp:357-379 | Accepts exactly an ACK with the stored ID |
| FileAuthentications.FileAuthentication.BackupFile | src/crypto/FileAuthentication.cpp:392-431 | The retry loop computes `BackupFrom` for zero failures; at most three uploads |
| FileAuthentications.FileAuthentication.BackupFiles | src/crypto/FileAuthentication.cpp:443-478 | The batch loop computes `BackupAll` |
| Progress.ReportsShape | src/crypto/FileAuthentication.cpp:200-247 | An upload of T packets reports min(T, 10) strictly increasing multiples of ten that end in a single 100; for T of at least 10 they are 10, 20, ..., 100 |
| Progress.ReportsReach | src/crypto/FileAuthentication.cpp:230-247 | After any number of packets: with ten packets or more all multiples of ten up to the percentage reached, with fewer one report per packet, the greatest multiple of ten not above it |
| Progress.ReportStep | src/crypto/FileAuthentication.cpp:230-247 | The test and the rounding of the loop body report exactly when the specification gains an entry |
| Requests.Request.Serialize | src/protocol/request.cpp:408-449 | Appending field by field yields the wire form of the request |
| Requests.Request.SetUserId | src/protocol/request.cpp:65-68 | Stores the sixteen decoded bytes, or fails and changes nothing |
| Requests.Request.SetUsername | src/protocol/request.cpp:164-172 | Clears the field and stores the name, cut so that a zero remains; nothing else changes |
| Requests.Request.SetFileName | src/protocol/request.cpp:305-313 | The same for the file name |
| Requests.Request.SetPublicKey | src/protocol/request.cpp:191-203 | Stores all 160 key bytes |
| Requests.WireLayout | src/protocol/request.cpp:408-449 | The offset and byte order of every field on the wire |
| Requests.WireWords | src/protocol/request.cpp:408-449 | Every integer of a request byte by byte, the lowest first |
| Requests.SessionRequestBytes | src/registration/key_exchange.cpp:117-142 | Registration, public key and re-registration on the wire, byte by byte: version 3, codes 100, 101 and 102, 491 declared bytes, who and what is in them, and zeros in the fields not used |
| Requests.StatusRequestBytes | src/crypto/FileAuthentication.cpp:325-340 | The three statuses, codes 120 to 122, and the disconnect request, code 130 with 483 declared bytes, byte by byte |
| Requests.ParseOfWire | src/protocol/request.cpp:408-449 | Reading a serialized request gives it back |
| Requests.WireOfParse | src/protocol/request.cpp:408-449 | Every readable frame is the serialization of what was read |
| Requests.SerializeInjective | src/protocol/request.cpp:408-449 | Different requests have different bytes |
| Requests.StreamRoundTrip | src/crypto/FileAuthentication.cpp:225-228 | Any concatenation of requests that declare their true size splits back into exactly these requests |
| Requests.DisconnectFallsShort | src/core/ClientHandler.cpp:34-35 | After any such requests, the disconnect request leaves eight zero bytes that a receiver cannot attribute |
| Responses.Deserialize | src/protocol/response.cpp:389-466 | The cursor-based parser computes `Parse`, and its cursor ends at 7 plus the declared size; no bounds check after the size check can fail |
| Responses.ParsedFields | src/protocol/response.cpp:389-466 | When a buffer is accepted, and at which offset every field of the result stands in it, integers with their highest byte first |
| Responses.ParseOfWire | src/protocol/response.cpp:389-466 | A well-formed response is read back exactly, whatever follows it |
| Responses.WireOfParse | src/protocol/response.cpp:389-466 | What is read is well formed, and its encoding is how the buffer begins |
| Responses.AcceptedLanguage | src/protocol/response.cpp:391-424 | Accepted are exactly the buffers with a full header, a declared size of at least 279 and all declared bytes; equivalently those that begin with a well-formed response |
| Responses.TrailingBytesIgnored | src/protocol/response.cpp:416-424 | Bytes after the declared payload make no difference |
| Responses.StrictPrefixRejected | tests/protocol_test_helpers.h:155-205 | No strict prefix of a well-formed response is accepted |
| Hosts.CommunicationManager.SendRequest | src/core/CommunicationManager.cpp:48-62 | Puts the serialized request on the wire, whole or up to where the write broke |
| Hosts.CommunicationManager.ReceiveResponse | src/core/CommunicationManager.cpp:71-127 | Reading header and payload separately takes exactly one frame off the stream |
| Hosts.ReceiveAll | src/core/CommunicationManager.cpp:71-127 | Any list of well-formed responses sent back to back is received as exactly that list, and nothing else is consumed |
| Hosts.ReceiveConsumes | src/core/CommunicationManager.cpp:71-127 | Each call with its bytes available consumes 7 plus the declared size, and then fails if and only if that size is below 279 |
| Sessions.InfoFileShape | src/registration/registration_flow.cpp:73-85 | Over any sequence of sessions, each cut off anywhere, `me.info` is absent, two lines, or two lines and exactly one key |
| Sessions.PublicKeyIsBacked | src/registration/key_exchange.cpp:117-142 | Whenever a public key goes out, even in part, its private key can be loaded from `me.info` and is in the private key file |
| Sessions.KeyedForever | src/registration/key_exchange.cpp:186-194 | A stored identity with its key stays unchanged over any further sessions until one removes the file |
| Sessions.RemovalCause | src/registration/key_exchange.cpp:186-194 | The file is removed only right after a 206 response with the stored ID |
| Sessions.TwoLinesAreStuck | src/registration/re_registration_flow.cpp:76-80 | With two lines only, a session sends nothing but the disconnect request and reads nothing |
| Sessions.StuckForever | src/core/ClientHandler.cpp:103-112 | So it is in every later session |
| Programs.CanEnterIff | src/core/ClientHandler.cpp:103-112 | With nothing in its way and private keys that decrypt some text, some server and some input let the next session in if and only if `me.info` does not hold the two lines alone |
| Programs.InterruptedRegistration | src/registration/registration_flow.cpp:73-85 | A registration cut off after its first durable write is a history that ends in two lines |
| Programs.FaultAtTheAppend | src/registration/key_exchange.cpp:51-61 | So does one whose append of the private key fails, without any crash |
| Programs.ProgramEndsIff | src/main.cpp:34-59 | The program is terminated before its clean-up if and only if the session failed, the socket is open and the disconnect request breaks; a key is left on disk if and only if that happens with a key stored; if it returns, the socket is closed |
| Programs.FailedConnection | src/core/ClientHandler.cpp:126-146 | After a failed connection attempt the program returns if and only if the attempt left the socket closed; otherwise the disconnect request breaks before its first byte |
| Programs.CancelledSelection | src/core/ClientHandler.cpp:117-124 | A cancelled selection fails the session right after the client was let in; only the disconnect request and, if it goes out, the removal of the AES key follow |
| Programs.KeyLeftBehind | src/main.cpp:51-59 | After a stored key, a broken packet and a broken disconnect the key is still on disk |
| Programs.LeftoverKeyExists | src/main.cpp:51-59 | There is such a run |
| Programs.ProgramLeads | src/core/ClientHandler.cpp:158-164 | Whatever happens, the events of a run of the program are accepted by the automaton, and the files are what those events make of them |
| Programs.SessionLeads | src/core/ClientHandler.cpp:158-164 | So are those of a session, which ends in the disconnected phase if it succeeds and may still disconnect if it fails |
| Programs.PublicKeyLeads | src/registration/key_exchange.cpp:117-142 | The events of sending a public key are accepted, with both durable writes of the private key before it; if it went out, the session awaits the AES key with exactly that private key stored |
| Programs.VisitsAreHistory | src/core/ClientHandler.cpp:158-164 | Any number of runs of the program, each with any server, input and selection and each cut off after any event, form a history, so that every statement about histories holds of them |
| Sessions.RunPrefix | src/core/ClientHandler.cpp:158-164 | A session may stop after any event |
| Sessions.BackupIsAuthorised | src/core/ClientHandler.cpp:103-164 | Every packet and status follows a 205 or 210 response of the same session with the stored ID and carries that ID; every packet is a piece of the encryption, under the key that response delivered and the IV drawn for it, of what the named file held when it was read |
| Sessions.NothingAfterDisconnect | src/core/ClientHandler.cpp:133-146 | No request follows a disconnect request that was written in full |
| Sessions.SessionIsDecodable | src/protocol/request.cpp:408-449 | The bytes of any unbroken session before its disconnect split back into exactly the requests sent |
| Sessions.RunAgrees | src/registration/registration_flow.cpp:73-85 | The files agree with the automaton after every event sequence |
| Sessions.LoadedInfo | src/registration/client_credentials.cpp:101-157 | What the loaders find is the identity the automaton knows |
| Flows.RegistrationSucceeds | src/registration/registration_flow.cpp:189-220 | With nothing in its way a new client gets the first valid name that is not taken, and identity, private key and AES key are stored in this order of events |
| Flows.RegistrationRefused | src/registration/registration_flow.cpp:189-220 | A response that is neither 200 nor 202, or none, ends a registration without a trace on disk |
| Flows.KeyExchangeSucceeds | src/registration/key_exchange.cpp:212-223 | The key exchange: both private key files before the public key, then the AES key |
| Flows.ReRegistrationIff | src/registration/re_registration_flow.cpp:76-96 | A known client is let in if and only if the server answers 205 with the same ID and a decryptable key; the exact events and files |
| Flows.KeyResponseIff | src/registration/key_exchange.cpp:159-201 | The AES key is stored if and only if the next response has the expected code, the stored ID and a decryptable key |
| Flows.KeyResponseCases | src/registration/key_exchange.cpp:159-201 | What any response does to the files: the AES key stored; or, if and only if the code is 206 and the ID the stored one, `me.info` removed and the step failed, with exactly these events; or nothing |
| Flows.RevokedStartsOver | src/registration/key_exchange.cpp:186-194 | A re-registration answered with 206 and the stored ID removes `me.info`, no other answer does, and the next session registers anew |
| Flows.TwoLinesEnterNothing | src/registration/re_registration_flow.cpp:76-80 | With two lines only, entering fails without any effect |
| Flows.PromptedFirst | src/registration/registration_flow.cpp:137-173 | A name is returned if and only if it is the first valid one and the prompt was not cancelled before |
| ClientHandlers.ClientHandler.PromptValidUsername | src/registration/registration_flow.cpp:137-173 | The prompt loop computes `Prompted` |
| ClientHandlers.ClientHandler.SendRegistrationRequest | src/registration/registration_flow.cpp:52-63 | Sends exactly the registration request for the name |
| ClientHandlers.ClientHandler.ClientRegistration | src/registration/registration_flow.cpp:189-220 | The registration loop computes `Register`, in every world |
| ClientHandlers.ClientHandler.CompleteRegistrationKeyExchange | src/registration/key_exchange.cpp:212-223 | Generates a key, sends it and awaits the AES key: computes `KeyExchange` |
| ClientHandlers.ClientHandler.SendRsaPublicKey | src/registration/key_exchange.cpp:117-142 | Computes `SendPublicKey`: both private key files are written before the public key is sent, and a failing step ends it |
| ClientHandlers.ClientHandler.HandleRsaKeyResponse | src/registration/key_exchange.cpp:159-201 | Computes `KeyResponse`: the order of the checks, the AES key stored on success, the identity removed on 206 |
| ClientHandlers.ClientHandler.ClientReRegistration | src/registration/re_registration_flow.cpp:76-96 | Computes `ReRegister`: nothing is sent unless name, ID and private key can be loaded |
| ClientHandlers.ClientHandler.HandleRegistration | src/core/ClientHandler.cpp:103-112 | Computes `Enter`: re-registration exactly if `me.info` exists |
| ClientHandlers.ClientHandler.BackupFiles | src/core/ClientHandler.cpp:117-124 | Computes `BackUp`: a batch with fresh fields, or nothing for a cancelled selection |
| ClientHandlers.ClientHandler.Disconnect | src/core/ClientHandler.cpp:133-146 | Does nothing on a closed socket; otherwise sends the disconnect request and closes the socket only if it went out |
| ClientHandlers.ClientHandler.RunSession | src/core/ClientHandler.cpp:158-164 | Computes `Session`: connect, enter, back up, leave, each only if the one before succeeded |
| ClientHandlers.ClientHandler.RunProgram | src/main.cpp:67-103 | Computes `Program`; whatever identity `me.info` holds, its events are accepted by the session automaton. It returns unless a failed session leaves the socket open and the disconnect breaks; if it returns the socket is closed and no AES key is on disk, and if not, a key that the session left stays there |
| Credentials.LoadUsername | src/registration/client_credentials.cpp:101-105 | The first line, trimmed, or an exception |
| Credentials.LoadUserId | src/registration/client_credentials.cpp:116-122 | The second line, trimmed, or an exception |
| Credentials.LoadPrivateKey | src/registration/client_credentials.cpp:133-157 | All further lines, trimmed and joined, or an exception if there is nothing |
| Credentials.LoadAesKey | src/registration/client_credentials.cpp:168-185 | The first line, decoded, or an exception if nothing is decoded |
| Credentials.InputStream.GetLine | src/registration/client_credentials.cpp:75-90 | Reading character by character yields the first line and leaves what follows it |
| Credentials.IdentityRoundTrip | src/registration/registration_flow.cpp:73-85 | Every valid name and ID is read back from two lines, and no private key is found there |
| Credentials.KeyedIdentityRoundTrip | src/registration/key_exchange.cpp:51-61 | Name and ID are read back for a private key of any length and every width of the wrapped lines, and so is the key unless it is empty, which counts as missing |
| Credentials.AesKeySurvives | src/registration/key_exchange.cpp:70-80 | A 32-byte AES key survives saving and loading if and only if a line holds at least 43 characters |
| Credentials.LoadedAesKeyIsSaved | src/registration/key_exchange.cpp:70-80 | With lines of 44 characters or more, a loaded 32-byte key is the one saved, whatever was saved |
| Credentials.JoinOfWrap | src/registration/client_credentials.cpp:140-148 | Joining trimmed lines undoes the encoder's line wrapping |
| Credentials.LoadersOfLines | src/registration/client_credentials.cpp:101-185 | What all four loaders find in any file of whole lines with any white space, carriage returns included, around their texts |
| Credentials.LinesExist | src/registration/client_credentials.cpp:75-90 | Every file that is empty or ends with a line feed is such a file |
| Credentials.OpenEnd | src/registration/client_credentials.cpp:101-185 | A missing last line feed changes nothing for any loader |
| Credentials.TrimIs | src/registration/client_credentials.cpp:75-90 | Trimming takes white space off both ends, all of it and nothing else |
| Aes.DecryptOfEncrypt | src/crypto/AESWrapper.cpp:115-204 | Decryption gives the plaintext back, for every key, IV and length |
| Aes.CbcEquation | src/crypto/AESWrapper.cpp:115-151 | Every ciphertext block is the cipher of the plaintext block mixed with the ciphertext block before it (the mixing is `XorByteIsBitwise`) |
| Aes.EnvelopeIsCbc | src/crypto/AESWrapper.cpp:115-151 | The envelope is the IV and then, for every block of the padded text, the cipher of its bitwise exclusive or with the envelope block before it |
| Aes.XorByteIsBitwise | src/crypto/AESWrapper.cpp:115-151 | The mixing of bytes is the exclusive or of 8-bit vectors |
| Aes.PadBytes | src/crypto/AESWrapper.cpp:115-151 | The padding is 1 to 16 bytes up to a whole block, each with their number |
| Aes.DecryptEquation | src/crypto/AESWrapper.cpp:171-204 | Decryption inverts that equation block by block, for any ciphertext |
| Aes.DecryptExactly | src/crypto/AESWrapper.cpp:171-204 | Exactly which messages decrypt, and to which text |
| Aes.UnpadExact | src/crypto/AESWrapper.cpp:171-204 | Of whole blocks exactly the padded texts are unpadded, each to its own text |
| Aes.EncryptInjective | src/crypto/AESWrapper.cpp:115-151 | Equal envelopes have equal IVs and equal plaintexts |
| Aes.AesWrapper.EncryptMessage | src/crypto/AESWrapper.cpp:115-151 | The chained loop computes the envelope |
| Aes.AesWrapper.DecryptMessage | src/crypto/AESWrapper.cpp:171-204 | The chained loop undoes it, or reports what is wrong |
| Aes.AesWrapper.Make | src/crypto/AESWrapper.cpp:76-89 | A wrapper with a copy of the key, or an error for any length but 32 |
| Crc32.BurstDetected | src/utils/input_validation.cpp:125-139 | Any two equally long inputs that differ in one burst of at most 32 bits have different checksums |
| Crc32.WindowDetected | src/utils/input_validation.cpp:125-139 | So do any two that differ inside four consecutive bytes only |
| Crc32.SplitInvariant | src/utils/input_validation.cpp:125-139 | The register is the same for every split of the input |
| Crc32.AppendedChecksum | src/utils/input_validation.cpp:125-139 | Data followed by its own checksum leaves a register that does not depend on the data |
| Crc32.PolynomialTerms | src/utils/input_validation.cpp:125-139 | The constant of the register is the CRC-32 generator polynomial, bit-reversed |
| Crc32.ShiftBits | src/utils/input_validation.cpp:125-139 | One step of the register moves every bit down by one and, if a set bit falls out, flips exactly the fourteen bits of the CRC-32 generator |
| Crc32.CheckValue | src/utils/input_validation.cpp:125-139 | The checksum of the digits 1 to 9 is 0xCBF43926 |
| Crc32.FeedAllIsDivision | src/utils/input_validation.cpp:125-139 | Feeding byte by byte is one polynomial division of the whole input |
| Crc32.CrcRegister.ProcessBytes | src/utils/input_validation.cpp:125-139 | The loop feeds the register in order |
| Crc32.CalculateCrc32 | src/utils/input_validation.cpp:125-139 | The loop computes `Checksum`: initial register, input and final mask, which `CheckValue` and `ShiftBits` fix |
| Hex.HexIdentity | src/registration/key_exchange.cpp:89-101 | Comparing ID texts is comparing the sixteen bytes |
| Hex.UnhexOfHex | src/utils/encoding_utils.cpp:33-54 | Decoding what was encoded gives the bytes back |
| Hex.HexOfUnhex | include/utils/encoding_utils.h:63-111 | Encoding what was decoded gives the lower-case text, for digits of either case |
| Hex.UnhexAccepts | include/utils/encoding_utils.h:63-111 | The exact accepted language |
| Hex.HexDigitsOf | src/utils/encoding_utils.cpp:33-54 | Two lower-case digits for every byte, the high one first |
| Hex.PairReads | include/utils/encoding_utils.h:85-98 | Which pairs of characters are read and as what: two digits, or a digit after a sign or a blank, where a minus sign negates modulo 256 |
| Hex.UnhexBytes | include/utils/encoding_utils.h:63-111 | Byte by byte, what was decoded is what the pairs are read as |
| Hex.ReencodingIsExact | include/utils/encoding_utils.h:63-111 | An accepted text is reproduced if and only if it consists of lower-case digits |
| Hex.SignedPairAccepted | include/utils/encoding_utils.h:85-98 | A sign or a blank in place of a leading zero is accepted |
| Hex.BytesToHex | src/utils/encoding_utils.cpp:33-54 | The loop computes the text of the bytes |
| Hex.HexStringToByteArray | include/utils/encoding_utils.h:63-111 | The loop decodes pair by pair, or fails as `Unhex` says |
| Base64.DecodeOfEncode | src/utils/encoding_utils.cpp:63-98 | Decoding what was encoded gives the data back, for every length |
| Base64.DecodeOfWrap | src/utils/encoding_utils.cpp:63-98 | Line breaks of any width do not change what a text decodes to |
| Base64.AlphabetIs | src/utils/encoding_utils.cpp:63-76 | The alphabet of table 1 of RFC 4648 |
| Base64.GroupIsNumber | src/utils/encoding_utils.cpp:63-76 | Up to three bytes and their sextets are the same number, highest digit first, filled up with zero bits |
| Base64.GroupsInTurn | src/utils/encoding_utils.cpp:63-76 | Groups of three bytes are encoded one after the other |
| Base64.WrapLine | src/utils/encoding_utils.cpp:63-76 | Where line k of a wrapped text is, what it holds and where it ends |
| Base64.TestVectors | src/utils/encoding_utils.cpp:63-76 | Vectors of section 10 of RFC 4648 |
| Protocol.ValidNamesFit | src/utils/input_validation.cpp:61-71 | Validated user and file names are never cut by their fields |
| Protocol.NamesAccepted | src/utils/input_validation.cpp:61-71 | User names of 5 to 63 and file names of 1 to 254 characters, if and only if all are of the alphabet |
| Protocol.NameCharIsInAlphabet | src/utils/input_validation.cpp:63-63 | The alphabet of names, character by character |
| Binary.TextFieldRoundTrip | src/protocol/request.cpp:164-172 | A zero-free text is read back from its field if and only if it leaves room for the terminator |
| Binary.TextFieldBytes | src/protocol/request.cpp:164-172 | Every byte of a text field: the text as far as it leaves room for a zero, and zeros |

## Left out

- RSA, AES rounds and the random generators: keys, IVs, the block permutation and RSA decryption are parameters, so `AESWrapper::GenerateKey`, the default AES constructor and `RSAWrapper` are not modelled.
- The encrypted AES key is taken as the whole byte vector; reading it as a zero-terminated string is not modelled.
- Base64 decoding skips every character outside the alphabet, padding included, as the library's decoder does; the line width of the encoder is a parameter.
- Sockets, name resolution and `server_config.json`: a connection attempt succeeds, or fails with the socket open or closed; a read fails when the incoming stream ends.
- Partly written credential files: each write helper is one event.
- Console texts, colours, logging and the directory prompt with `is_valid_dir_name`: the selection of files is a parameter.
- Exceptions are told apart only where the code does: per file in a batch, not between the session's own error kinds.
- Getters, null-pointer checks and setters that copy one number.
- Server behaviour: it is an arbitrary byte stream, except where a theorem says what it answers.
