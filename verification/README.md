# An SMS gateway: models and proofs

The repository is an SMS gateway. BBS systems connect to it over TCP, register mobile numbers,
and send messages through it; it spools messages as files, screens them against a list of bad
words, charges them to users, and talks CMPP 2.0 to the carrier. This project models its hard
parts in Dafny and proves what they are for. `dafny verify dfyconfig.toml` checks everything.

| module | what it models |
|---|---|
| `Options`, `CBytes`, `CWords` | optional values, bytes, C strings, 32-bit words with their wrap-around, bitwise and shift operators |
| `MgrepSpec`, `MgrepImage`, `MgrepSearch` | the multi-pattern matcher: naive search and exact tables as definitions, the table construction, the skip search |
| `MgrepLimits` | exactly which word lists the chains serve, and searches past the end of a text |
| `FilterGate` | the bad-word filter in front of the outgoing spool, a client of the matcher |
| `Md5Spec`, `Md5Transform`, `Md5Context` | RFC 1321 as a definition, the unrolled transform, the streaming context |
| `Md5Vector` | one digest of appendix A.5 of RFC 1321, worked out in the model |
| `CmppAuth`, `CmppLink` | the login authenticator (a client of MD5) and the link test of the CMPP client |
| `SpoolStorage` | draining the spool directories, over all runs |
| `Registration` | registrations, fees and bind requests of the gateway, over all runs |
| `BbsFraming` | packets between the BBS library and the gateway, partial reads, the receive loop |
| `ShmQueue` | the request queue in shared memory between the BBS programs and the SMS daemon |
| `BbsDaemon` | the daemon that turns queued requests into packets, from the queue to the gateway |

## Main results

* **Matcher.** The compiled tables are exactly what they should be, and for every word list and
  text `monkey1` finds something exactly when naive search up to letter case does - or when a word
  runs over the end of the text, which the missing length bound of its comparison lets happen.
  For lists of words of one to 255 bytes the chains are exact if and only if there are at most 191,
  although `prepf` accepts 199; an accepted list and a clean text that hang the search are given.
* **Filter.** In every run the counter is zero exactly when no message since the last reload counts
  against the list; for messages with nothing or a newline behind them in memory that means holding
  a word of it, and a clean message that is refused for what lies behind it is given.
* **MD5.** Any way of cutting a message into updates gives the RFC 1321 digest of the whole; the
  length field, the word order and the chaining are stated on their own, and the digest that RFC 1321
  prints for the alphabet comes out.
* **Link test.** In every run the link counts as logged in exactly when a login reply with status 0 has
  come, its counter is the number of unanswered tests and at most N, tests keep their distances, and a
  silent peer is dropped by a bound that is proved, and not earlier.
* **Spool.** In every run each message is in exactly one directory with its bytes, is there
  according to its outcome, and is never sent again after a success or a final error.
* **Gateway.** In every run a number may send exactly when it was validated or bound and has not
  lost that since, which is also stated of the events alone: a CHECK by this very number and id with a
  code of their own REG, or an accepted reply to their own bind request; the day's total is the sum
  of the charges since its last reset and within the largest limit since; and every bind request is
  answered at most once.
* **Framing.** However the transport cuts the stream, the gateway dispatches the packets the
  library sent, in order, up to the first that ends the session, with their members intact.
* **Queue.** The buffer is always the concatenation of the pending records, and a drain issues
  exactly those, once each and in order; and what the gateway then dispatches are those requests,
  with their members intact but for codes, of which six characters arrive.

## How the model reads the source

* Matcher: the settings are those of `default_setting` (mgrep.cpp:37-49). The word list is the
  file's content. The comparison loop (mgrep.cpp:294) has no bound; where it would leave an array
  the model stops it there. An empty bucket makes the code read `hashtable[-1]`, the eight bytes in
  front of `hashtable`, which are `pat_len[192..199]`; the model reads exactly those.
* A word is a line up to its first NUL. A blank line is kept as an empty word, as in the source.
* Bytes and words are integers with an upper bound; wrap-around is written out.
* The constants of RFC 1321 are the table printed there, not recomputed from sines.
* CMPP: the file has misspelt calls and variables (`now(&..)` for `time(&..)`, `m_lint_test` for
  `m_link_test`); the model follows the evident intent.
* The registration table is a map from mobile number and upper-cased id to a row. Fees are not
  negative. `countMoney` reads and updates the row in one step.
* The spool's directories are maps from names to bytes; `link` fails when the name is taken.
* Structs of `ShmQueue` have the layout of a 32-bit machine (header of 16 bytes, bodies of 31, 48,
  31 and 252 bytes). The section guarded by `sem` is one step.
* Clock readings, answers of `Send`, generated codes, fees, the outcome of writes to the spool or a
  socket and the contents of uninitialised structs are parameters or arbitrary.
* The comment at smsbbsprotocoldefine.h:10 calls `msgLength` the total packet length; the code sends and
  checks the length without the header, and so does the model.

## Model

| member | source | states |
|---|---|---|
| MgrepSpec.FoldingIgnoresCase | mgrep.cpp:150-155 | Two bytes are equal under the fold exactly when they are the same byte or the two cases of one ASCII letter. |
| MgrepSpec.NaiveIsWordSearch | mgrep.cpp:255-356 | Naive search finds something exactly when a word that is not empty stands somewhere in the text, byte by byte up to letter case. |
| MgrepSpec.CaseDoesNotMatter | mgrep.cpp:152-155 | The word "via" occurs in the text "VIA" and not in "VIB". |
| MgrepSpec.LinesRejoin | mgrep.cpp:126-143 | Splitting the word list loses nothing: joining the lines with newlines gives the file back, up to a final newline it may lack, and no line holds a newline. |
| MgrepSpec.SkipIsSafe | mgrep.cpp:274-278 | With an exact skip table, no window that a shift jumps over matches any pattern's m-byte prefix up to case, for 2-byte and 3-byte blocks alike. |
| MgrepSpec.SameHash | mgrep.cpp:88-94 | A window that equals a prefix up to case falls into the prefix's bucket, although one hash comes from `tr` and the other from `tr1`. |
| MgrepSpec.BucketIsThreeNibbles | mgrep.cpp:280-284 | The wrapping 32-bit hash masked by 511 depends on the low four bits of the first three bytes only. |
| MgrepSpec.ChainIsComplete | mgrep.cpp:181-185 | The chain of a bucket holds exactly the patterns whose prefix hashes to it, each once, by falling number. |
| MgrepSpec.LinkExtends | mgrep.cpp:95-99 | Putting pattern k in front of its bucket turns the exact chains of k - 1 patterns into those of k, whatever value the first entry of a bucket links to. |
| MgrepSpec.WalkIsChain | mgrep.cpp:285-291 | When first entries link to 0, following `next` from the head of any bucket visits exactly its chain and then ends. |
| MgrepSpec.LinesOfJoined | mgrep.cpp:126-143 | Words without a newline, each followed by one, are split into exactly those words. |
| MgrepImage.PatternImage.Split | mgrep.cpp:126-143 | The spool holds exactly the lines in order, each followed by a NUL and none overlapping another, and `patt` holds their offsets. |
| MgrepImage.PatternImage.CopyLine | mgrep.cpp:135-141 | The bytes of one line are copied up to its newline, a NUL is put after them, and nothing before is touched. |
| MgrepImage.PatternImage.Measure | mgrep.cpp:163-170 | `pat_len` holds each word's length in a byte, and `p_size` is the least non-zero length, or 256. |
| MgrepImage.PatternImage.FillFoldTables | mgrep.cpp:150-162 | `tr` turns the bytes 65 to 90 into 97 to 122 and leaves every other byte alone; `tr1` is its low four bits. |
| MgrepImage.PatternImage.RawBlock | mgrep.cpp:77-81 | The block hash of raw pattern bytes equals the case-folded block hash of the search. |
| MgrepImage.PatternImage.EnterBlocks | mgrep.cpp:76-84 | Entering a pattern's blocks keeps the skip table exact: each entry is the least distance over all patterns entered, or m - 2. |
| MgrepImage.PatternImage.BucketOf | mgrep.cpp:85-94 | The second loop of `f_prep` computes the bucket of the pattern's prefix. |
| MgrepImage.PatternImage.Link | mgrep.cpp:95-99 | The pattern is linked in front of its bucket, reading slot 0 for an empty one. |
| MgrepImage.PatternImage.FPrep | mgrep.cpp:70-100 | One call of `f_prep` extends exact tables of k - 1 patterns to exact tables of k. |
| MgrepImage.Prepf | mgrep.cpp:102-186 | For every file: it fails exactly when the file is too long or has 200 lines or more, and otherwise the spool, the fold tables, the lengths, the skip table and the chains are exactly those of the word list, the first entry of each bucket linking to the four bytes `pat_len[192..195]` and unused entries zero. |
| MgrepSearch.BucketWalk | mgrep.cpp:285-291 | For every bucket the walk from `HASH[h]` through `next` visits exactly the patterns whose prefix hashes to h, each once, in strictly falling order, and ends. |
| MgrepSearch.EmptyBucketMatchesNothing | mgrep.cpp:285-297 | The length-0 entry read for an empty bucket aliases pattern 1, but a match of p_size bytes there would put pattern 1 into that very bucket: it never yields a false hit. |
| MgrepSearch.TestIsExact | mgrep.cpp:292-300 | The test after the comparison holds exactly when the entry's whole pattern is found at the window. |
| MgrepSearch.WindowBucket | mgrep.cpp:280-284 | The search computes the bucket of the window. |
| MgrepSearch.WindowBlock | mgrep.cpp:274-277 | The search computes the block hash at the window's end. |
| MgrepSearch.Agreement | mgrep.cpp:292-295 | The comparison loop yields the greatest number of bytes that agree up to case. |
| MgrepSearch.CheckEntry | mgrep.cpp:292-300 | One turn of the walk hits exactly when the entry's pattern is found at the window. |
| MgrepSearch.WalkBucket | mgrep.cpp:280-346 | The walk over a bucket ends and matches exactly when some pattern of the whole list is found at the window. |
| MgrepSearch.SkippedWindows | mgrep.cpp:278-351 | No pattern is found at any window that a shift jumps over. |
| MgrepSearch.Matcher.Monkey1 | mgrep.cpp:255-356 | The search ends and raises `num_of_matched` by one if some window of the text holds a pattern, and by nothing otherwise. |
| MgrepSearch.Matcher.MgrepStr | mgrep.cpp:191-199 | The result is the cumulative counter, raised by one exactly when the whole text holds a pattern. |
| MgrepSearch.PatternBytes | mgrep.cpp:126-170 | Pattern i of a compiled image is line i up to its first NUL, in the spool, with its length, without a newline and no shorter than `p_size`. |
| MgrepSearch.FoundOccurs | mgrep.cpp:255-356 | Whatever is found occurs in full, inside the text or running over its end. |
| MgrepSearch.MatchIsFound | mgrep.cpp:255-356 | Every word that matches in full from a window of the text is found. |
| MgrepSearch.SearchIsExactly | mgrep.cpp:255-356 | What the search finds is a word that stands in the text up to letter case, or one that starts in it and runs over its end: it agrees with naive search exactly when no word runs over or one occurs anyway. |
| MgrepSearch.SearchIsNaive | mgrep.cpp:255-356 | When the text ends where it is said to or a newline follows, the search finds something exactly when some word of the list stands somewhere in the text, byte by byte up to letter case. |
| MgrepLimits.EntryWalks | mgrep.cpp:285-291 | From any pattern's entry: the walk visits patterns only and ends exactly when first entries link to 0, and it ends at all exactly when they link to 0 or to an unused entry. |
| MgrepLimits.SlotZeroDecides | mgrep.cpp:95-99 | For every compiled list: all walks are exact if and only if the bytes read for an empty bucket are zero; all end if and only if they are zero or lead to an unused entry. |
| MgrepLimits.WalksAreExactUpTo191 | mgrep.cpp:95-99 | For every accepted list of words of one to 255 bytes the walks of all buckets are exact if and only if it has at most 191 words. |
| MgrepLimits.WalksEndUpTo191 | mgrep.cpp:285-291 | For every such list the walks over all buckets that hold a word end if and only if it has at most 191 words, or 192 of which the last has 193 to 200 bytes. |
| MgrepLimits.CrowdIsAccepted | mgrep.cpp:119-147 | 191 times "ab" and 192 times the letter c make a list of 766 bytes and 192 words that `prepf` accepts. |
| MgrepLimits.CrowdHangsTheSearch | mgrep.cpp:273-343 | With that list and the text "qr" the first window asks for a walk on which nothing can match and which never ends. |
| MgrepLimits.MatchMayReachPastEnd | mgrep.cpp:292-300 | With the list "xy", newline, "abc" the text "ab" counts as a match when a "c" follows it, although no word occurs in it. |
| FilterGate.CounterIsExact | smsstorage.cpp:7-15 | In every run that starts with a load, whatever lies behind the messages in memory, the counter is zero after a call exactly when no message since the last reload holds a word of the list read then or starts one that runs on behind it. |
| FilterGate.ClosedCountsWhenBad | smsstorage.cpp:9 | A message with nothing or a newline behind it counts exactly when it holds a word. |
| FilterGate.BadMeansAWordStandsThere | smsstorage.cpp:9 | Holding a word of the list means that one stands somewhere in the message, byte by byte up to letter case. |
| FilterGate.CounterIsExactForClosed | smsstorage.cpp:7-15 | In every run of such messages the counter is zero exactly when no message since the last reload holds a word of the list read then. |
| FilterGate.CleanMessageMayCount | smsstorage.cpp:9-14 | With the words "xy" and "abc" the clean message "ab" is refused when a "c" lies behind it. |
| FilterGate.OneBadMessageShutsTheGate | smsstorage.h:36-58 | After one message that counts every later one is refused until two calls in a row are more than ten minutes apart. |
| FilterGate.MessageFilter.Reload | smsstorage.h:44-55 | For every file: the counter is cleared, and the list compiled exactly when it is not too long. |
| FilterGate.MessageFilter.Screen | smsstorage.cpp:9-11 | Screening the first `size` bytes of a buffer adds one to the counter exactly when they count, and passes them exactly when the counter is zero. |
| FilterGate.MessageFilter.InitFilter | smsstorage.h:36-58 | The list in force is the one read now, with the counter cleared, when the last call is more than ten minutes ago, and the old one otherwise. |
| FilterGate.MessageFilter.WriteAllowed | smsstorage.cpp:7-15 | One call steps the gate's state machine and passes exactly when its counter is zero afterwards. |
| CWords.SelectBits | backup_src/md5.c:153-154 | Bit by bit, z ^ (x & (y ^ z)) selects y where x is set and z where it is not, as F of RFC 1321 does. |
| CWords.RotateByShifts | backup_src/md5.c:160-161 | Shifting left by s and right by 32 - s and joining the results rotates the word left by s. |
| Md5Spec.LengthField | backup_src/md5.c:137-139 | The last eight bytes of the padding, read lowest byte first, are the number of bits modulo 2^64. |
| Md5Spec.WordOrder | backup_src/md5.c:181-247 | Which word a round starts with, and that its index then moves on by 1, 5, 3 or 7 modulo 16. |
| Md5Spec.OneMoreBlock | backup_src/md5.c:249-252 | One block more: each word of the chain grows, modulo 2^32, by what the 64 operations make of the chain so far. |
| Md5Vector.DigestOfAlphabet | backup_src/md5.c:108-253 | The digest of the 26 letters is c3fcd3d76192e4007dfb496cca67e13b, as printed in RFC 1321, appendix A.5. |
| Md5Transform.Form1 | backup_src/md5.c:153-154 | F1 is the function F of RFC 1321, section 3.4. |
| Md5Transform.Form2 | backup_src/md5.c:155 | F2, which is F1 with its arguments turned, is the function G. |
| Md5Transform.Md5Step | backup_src/md5.c:159-161 | The macro yields the new word of one operation of RFC 1321. |
| Md5Transform.Round1 | backup_src/md5.c:181-196 | The sixteen unrolled steps of round 1 are operations 1 to 16, with their word indices, rotations and roles of a, b, c and d. |
| Md5Transform.Round2 | backup_src/md5.c:198-213 | The same for round 2, with word indices 5i + 1 mod 16. |
| Md5Transform.Round3 | backup_src/md5.c:215-230 | The same for round 3, with word indices 3i + 5 mod 16. |
| Md5Transform.Round4 | backup_src/md5.c:232-247 | The same for round 4, with word indices 7i mod 16. |
| Md5Transform.PutIsEncode | backup_src/md5.c:94-98 | The shifting PUT macro writes the little-endian encoding. |
| Md5Transform.GetIsDecode | backup_src/md5.c:84-88 | The shifting and or-ing GET macro reads the little-endian decoding. |
| Md5Transform.Transform | backup_src/md5.c:168-253 | The transform is the compression of RFC 1321, section 3.4, on the block's words. |
| Md5Context.CountAdds | backup_src/md5.c:48-51 | The two-word addition with its carry test counts bits modulo 2^64. |
| Md5Context.MD5Context.constructor | backup_src/md5.c:27-36 | A new context stands for the empty message. |
| Md5Context.MD5Context.Count | backup_src/md5.c:46-51 | The bit counter advances by eight times the length, carry included. |
| Md5Context.MD5Context.Block | backup_src/md5.c:66-74 | Compressing the full buffer extends the chain over the message by its next block. |
| Md5Context.MD5Context.Update | backup_src/md5.c:42-82 | For every message so far and every piece: the context then stands for the message with the piece appended. |
| Md5Context.PadShape | backup_src/md5.c:113-139 | The padded message ends in one block or in two, depending on whether 56 bytes or more are pending. |
| Md5Context.MD5Context.PadOut | backup_src/md5.c:113-141 | Both padding cases leave the hash of all blocks of the padded message, whose length field is that of `LengthField`. |
| Md5Context.MD5Context.Final | backup_src/md5.c:108-147 | The digest is the MD5 of RFC 1321 of everything fed in. |
| Md5Context.DigestOfChunks | backup_src/md5.c:27-147 | For every list of chunks, feeding them one by one gives the MD5 of their concatenation. |
| CmppAuth.PrescribedForShortCodes | backup_src/cmpp2.h:45-48 | For codes of up to six bytes the client hashes what CMPP 2.0 prescribes. |
| CmppAuth.PrescribedWhenItFits | backup_src/smscmpp2protocol.h:119-132 | The client hashes the prescribed message exactly when its code fits the six-byte address field. |
| CmppAuth.Authenticator | backup_src/smscmpp2protocol.h:125-133 | The update sequence with its byte-at-a-time zero loop yields the MD5 of code, zeros to fifteen bytes, secret and timestamp, in this order. |
| CmppLink.LoggedInExactly | backup_src/smscmpp2protocol.h:223-232 | In every run an open link counts as logged in exactly when a login reply with status 0 has come. |
| CmppLink.MessageCloses | backup_src/smscmpp2protocol.h:163-248 | A message closes the link exactly when it ends the session, is unknown, has a wrong length where that is checked, cannot be read, or its reply cannot be sent; a receive error always does. |
| CmppLink.CounterCountsUnanswered | backup_src/smscmpp2protocol.h:240-243 | In every run, while the link is open, the counter is the number of tests since the last answer, and at most N. |
| CmppLink.TimeoutCloses | backup_src/smscmpp2protocol.h:329-348 | A time-out closes the link exactly when there is no login, or a test is due after 180 seconds of silence or 60 after the last test and three are unanswered or sending fails. |
| CmppLink.TestsAreSpaced | backup_src/smscmpp2protocol.h:331-334 | In every run consecutive tests are more than 60 seconds apart, and more than 180 once the counter was cleared in between. |
| CmppLink.DroppedByDeadline | backup_src/smscmpp2protocol.h:319-350 | From any open state, checks at least every W close a link on which nothing arrives by a deadline that depends on the counter; the check that closes it is named. |
| CmppLink.SilentPeerIsDropped | backup_src/smscmpp2protocol.h:319-350 | A peer silent after its last message at R is dropped by R + 180 + 3 * 60 + 4 * W, at a check that is named. |
| CmppLink.NotDroppedEarly | backup_src/smscmpp2protocol.h:329-343 | As long as tests can be sent, a silent link is not dropped before 180 + 3 * 60 seconds after the login or last sending; with some tests unanswered, not before 60 seconds for each test left and 60 more. |
| CmppLink.CmppClient.StartSession | backup_src/smscmpp2protocol.h:305-318 | A session starts without a login reply and with the counter at zero. |
| CmppLink.CmppClient.Dispatch | backup_src/smscmpp2protocol.h:163-248 | Each message changes the link as the state machine says: only a login reply with status 0 logs in, only answers clear the counter, and exactly the messages listed keep the session open. |
| CmppLink.CmppClient.CheckLink | backup_src/smscmpp2protocol.h:329-348 | Each time-out changes the link as the state machine says, and a test goes out exactly when one is due, fewer than three are unanswered and sending works. |
| CmppLink.CmppClient.Session | backup_src/smscmpp2protocol.h:319-351 | The receive loop ends in the state of the run, with the counter equal to the unanswered tests, or with the connection closed, and has sent exactly the tests of the run. |
| SpoolStorage.QueueIsExact | smsdiskstorage.h:78-130 | A run sends exactly the non-empty message files listed before the first one that cannot be read, each once. |
| SpoolStorage.QueueKeepsOrder | smsstorage.cpp:68-71 | Files are sent in the order of the listing. |
| SpoolStorage.DrainOutcome | smsstorage.cpp:50-76 | The calls of one drain get whole messages of the incoming directory and the next answer each; a message goes to the backup after a success, to the error directory after an error, stays otherwise, and nothing else moves. |
| SpoolStorage.LogIsWhatDrainsSent | smsstorage.cpp:50-54 | The calls of `Send` in a run are exactly those of its drains. |
| SpoolStorage.MessagesAreConserved | smsstorage.cpp:17-79 | In every run in which file names are not reused, a message that arrived is in exactly one of the three directories with its bytes; it is in backup or error exactly when a call of `Send` with it was answered by SUCCESS or ERROR; every call gets the whole message, and none follows such an answer. |
| SpoolStorage.NothingElseIsStored | smsstorage.cpp:17-79 | And the directories hold nothing but messages that arrived. |
| SpoolStorage.MoveKeepsTheMessage | smsdiskstorage.h:161-179 | A move to the backup or the error directory keeps the message exactly when the name is free there or stands for the same bytes. |
| SpoolStorage.DiskStorage.GetNext | smsdiskstorage.h:78-130 | The next message file of the directory is found and read into the data buffer, entries that are no message files are passed over, the end and a read error are told apart. |
| SpoolStorage.DiskStorage.ReadGetted | smsdiskstorage.h:146-155 | A buffer too small is left alone and the size needed returned, otherwise the file is copied. |
| SpoolStorage.DiskStorage.Fetch | smsstorage.cpp:28-49 | After the two-phase growth the buffer holds exactly the file's bytes. |
| SpoolStorage.DiskStorage.SendCurrent | smsstorage.cpp:50-66 | `Send` gets exactly the file's bytes, never an empty file; ERROR moves the file, SUCCESS records it. |
| SpoolStorage.DiskStorage.BackupError | smsdiskstorage.h:161-169 | The file leaves the incoming directory and is in the error directory, unless that has one of its name. |
| SpoolStorage.DiskStorage.ClearStorage | smsdiskstorage.h:171-184 | Exactly the recorded files leave the incoming directory for the backup directory. |
| SpoolStorage.PartwayClears | smsstorage.cpp:72-76 | Clearing the storage, also after a read error in the middle, completes exactly the moves that the answers call for. |
| SpoolStorage.DiskStorage.OnNotify | smsstorage.cpp:17-79 | For every listing, set of unreadable files and sequence of answers: the queued files are sent once each in order, and the directories are then as the answers say. |
| Registration.SameKey | smsbbschildprivilegechecker.h:53 | Two registrations are one row exactly when the mobile numbers are equal and the ids agree letter by letter up to ASCII case. |
| Registration.StepSendable | smsbbschildprotocol.h:314-404 | What one event does to who is validated and to who still is to be, with which code. |
| Registration.WhoMaySend | smsbbschildprivilegechecker.h:49-61 | In every run from an empty table a key is sendable exactly when it was validated or bound and no new code, UNREG or unbind has come since. |
| Registration.WaitsForLastCode | smsbbschildprotocol.h:260-278 | In every run a key is waiting for a code exactly when that code was issued to it last and neither used nor removed since. |
| Registration.SendNeedsGrant | smsbbschildprotocol.h:490-493 | In every run a message passes the registration check exactly when its number and id have a standing grant. |
| Registration.AcceptedSendHasReason | smsbbschildprotocol.h:490-493 | Behind every message that passes the check stands, in the events alone, a CHECK by this very number and id with a code that their own earlier REG issued, or an accepted reply to a bind request of their own; and no REG or UNREG by them since. |
| Registration.RegisteredMaySend | smsbbschildprotocol.h:291-334 | A number that registers and returns the code it was sent may send at once, under any spelling of its id. |
| Registration.CheckNeedsLastCode | smsbbschildprotocol.h:317-334 | In every run CHECK succeeds with exactly the code issued last and still unused. |
| Registration.BindDoesNotValidate | smsbbschildprotocol.h:366-381 | A reply to a bind request never makes a pending row sendable. |
| Registration.MessageCarriesTheCode | smsbbschildprotocol.h:291-310 | The code sent to the phone is the one, and the only one, that CHECK then accepts. |
| Registration.BindAnswersAreTrue | smsbbschildprotocol.h:433-460 | The answer to an accepted bind request says "done" exactly when the row was made or taken away; otherwise the table is unchanged. |
| Registration.StepToday | smsbbschildprotocol.h:189-202 | One event adds its charge to the day's total, after starting a new one if it resets it, and a charge leaves the total within the limit. |
| Registration.StoredIsPaid | smsbbschildprotocol.h:213-231 | A message other than the answer to a bind request is stored exactly when it has just been paid for and the spool accepts it. |
| Registration.TodayIsTheSum | smsbbschildprotocol.h:189-231 | In every run the day's total of a row is the sum of the charges since its last reset, not negative, and at most the largest limit since then, or 0. |
| Registration.TodayWasWithinALimit | smsbbschildprotocol.h:189-207 | A total that is not zero was within a limit that the row had at a moment since its last reset; that moment is named. |
| Registration.ReportedTotalIsTheSum | smsbbschildprotocol.h:954-987 | In every run the total reported to a user is the sum of the charges since the last reset. |
| Registration.LimitIsTheLastSet | smsbbschildprotocol.h:857-868 | In every run the limit of a row is the one last set since the row was made, or the default one. |
| Registration.ReportedLimitIsTheLastSet | smsbbschildprotocol.h:919-952 | In every run the limit reported to a user is the one last set. |
| Registration.StepRequests | smsbbschildprotocol.h:823-848 | Only a user's request adds to the list and only a reply that finds its request takes from it; serials advance by one. |
| Registration.ReplyTakesItsRequest | smsbbschildprotocol.h:422-430 | A reply takes out the request with its serial and no other; an unknown serial changes nothing at all. |
| Registration.RequestsAreAccountedFor | smsbbschildprotocol.h:823-848 | In every run the outstanding serials rise and are below the next, no serial is issued twice, and every request issued is answered or outstanding, once. |
| Registration.AnsweredForGood | smsbbschildprotocol.h:409-430 | In every run another reply to a request already answered changes nothing. |
| Registration.Gateway.CountMoney | smsbbschildprotocol.h:189-207 | The fee is charged exactly when the row exists and stays within its limit. |
| Registration.Gateway.SendSMS | smsbbschildprotocol.h:213-231 | The fee is looked up, charged, and only then is the message stored; the charge stays when storing fails. |
| Registration.Gateway.GetValidateNum | smsbbschildprotocol.h:260-278 | An unused code is given out again, otherwise the row is replaced by one with the new code, the default limit and no total. |
| Registration.Gateway.DoSendRegisterSMS | smsbbschildprotocol.h:291-310 | REG as the state machine has it. |
| Registration.Gateway.DoRegisterValidation | smsbbschildprotocol.h:317-339 | CHECK as the state machine has it: no code to check, wrong code, or validated. |
| Registration.Gateway.DoUnregister | smsbbschildprotocol.h:346-362 | UNREG removes the row and always succeeds. |
| Registration.Gateway.DoRegisterSMS | smsbbschildprotocol.h:366-381 | A validated row is inserted exactly when there is none. |
| Registration.Gateway.DoUnregisterSMS | smsbbschildprotocol.h:388-399 | The row is deleted exactly when there is one. |
| Registration.Gateway.TakeRequest | smsbbschildprotocol.h:422-430 | The loop finds the first request with the serial and erases it. |
| Registration.Gateway.DoReplyRegisterRequest | smsbbschildprotocol.h:409-482 | A reply as the state machine has it: bind, unbind, one of the two refusals, or nothing. |
| Registration.Gateway.DoSend | smsbbschildprotocol.h:490-504 | A message from the BBS is refused, or charged and stored, as the state machine has it. |
| Registration.Gateway.DoSendRegisterMsg | smsbbschildprotocol.h:823-848 | A user's request is listed under a new serial even when sending it fails. |
| Registration.Gateway.DoSetMoneyLimitCommand | smsbbschildprotocol.h:857-886 | The limit is set before the answer is charged against it. |
| Registration.Gateway.DoZeroTodayTotalCommand | smsbbschildprotocol.h:888-917 | The total is cleared before the answer is charged to it. |
| Registration.Gateway.DoGetMoneyLimitCommand | smsbbschildprotocol.h:919-952 | The limit is reported in a charged message, or FAILED without a row. |
| Registration.Gateway.DoGetTodayTotalCommand | smsbbschildprotocol.h:954-987 | The total before the charge for the answer is reported, or FAILED without a row. |
| Registration.Gateway.DeliverSMS | smsbbschildprotocol.h:782-819 | A delivery takes a serial from the same counter and leaves the tables alone. |
| Registration.Gateway.ClearMoney | sms_money_clearer.cpp:9-22 | The nightly job zeroes every total and nothing else. |
| BbsFraming.LongRoundTrip | smsbbsprotocoldefine.h:115-126 | Decoding an encoded number yields its low 32 bits. |
| BbsFraming.BytesRoundTrip | smsbbsprotocoldefine.h:115-126 | Encoding a decoded number yields its four bytes. |
| BbsFraming.NetworkOrder | smsbbsprotocoldefine.h:115-126 | The first byte of a number on the wire counts most: 0x01020304 is 1, 2, 3, 4. |
| BbsFraming.FieldIsRead | libbbssms/libbbssms.c:121-124 | A string written by `strncpy` and a final NUL is read back, cut to the field. |
| BbsFraming.Layout | smsbbsprotocoldefine.h:57-104 | The bytes of every packet: its type number, serial, process number and length, and each member at its offset with NULs behind it. |
| BbsFraming.PacketIsRead | smsbbsprotocoldefine.h:57-104 | The members of every packet, whatever its unfilled bytes held, are read back by the gateway. |
| BbsFraming.FramesOfEncodings | smsbbschildprotocol.h:702-735 | A stream of encodings falls apart into exactly the packets, an incomplete one at its end being left out. |
| BbsFraming.UntilQuitOfEncodings | smsbbschildprotocol.h:736-738 | The session handles the packets up to and including the first that ends it. |
| BbsFraming.SessionEndsAt | smsbbschildprotocol.h:560-595 | Nothing is handled after a logout or a packet of a type other than 1, 3 to 8, 20, 101 and 102; when it is the first such packet, it is the last one handled. |
| BbsFraming.SessionDeliversPackets | smsbbschildprotocol.h:702-740 | For every list of well-formed packets within the buffer and every way of cutting their stream, the packets up to the first that ends the session are dispatched in order, with their members intact. |
| BbsFraming.Session | smsbbschildprotocol.h:702-740 | The same of one run of the receive loop over a stream in any pieces: what it dispatches are those packets, byte for byte and with their members, and it goes on exactly until the first whose type is not 1, 3 to 8, 20, 101 or 102. |
| BbsFraming.PutField | libbbssms/libbbssms.c:121-124 | The member is set, the bytes around it are kept. |
| BbsFraming.Library.SendRegisterNumber | libbbssms/libbbssms.c:111-126 | Without a connection an error, otherwise exactly the packet is written. |
| BbsFraming.Library.CheckRegisterNumber | libbbssms/libbbssms.c:129-146 | Without a connection an error, otherwise exactly the packet is written. |
| BbsFraming.Library.UnRegister | libbbssms/libbbssms.c:149-164 | Without a connection an error, otherwise exactly the packet is written. |
| BbsFraming.Library.SendSMS | libbbssms/libbbssms.c:167-209 | Errors for a missing connection and for a content type other than text; otherwise the two writes make up exactly the packet. |
| BbsFraming.Library.ReplyGWRegister | libbbssms/libbbssms.c:212-228 | Exactly the packet is written, with arbitrary bytes after the first of the mobile number. |
| BbsFraming.TcpStream.ReadData | smstcpstream.h:43 | Some of the bytes that are there, none only at the end. |
| BbsFraming.TcpStream.Read | smstcpstream.h:37-58 | However the pieces fall, the buffer gets the next bytes of the stream, all that were asked for unless it ends. |
| BbsFraming.DoReply | smsbbschildprotocol.h:123-136 | The reply is the bare packet of its type with the serial and process number it was given, byte for byte. |
| BbsFraming.DispatchMessage | smsbbschildprotocol.h:535-597 | The session ends exactly on a wrong length or a type other than 1, 3 to 8, 20, 101 and 102; a login is answered by 102, a logout by 101, a link test by 20 and a wrong length by 106, with the numbers of their message, and nothing else is. |
| BbsFraming.ReadPacket | smsbbschildprotocol.h:703-735 | A header and then as many bytes as it announces are read, or the stream ends inside. |
| BbsFraming.OnAccept | smsbbschildprotocol.h:702-740 | The messages dispatched are the packets of the stream up to the first that ends the session. |
| ShmQueue.HeaderIsRead | libbbssms/demo/akasmsd.c:148-149 | Type and process number of a record are read back, whatever the stack held in the rest of the header. |
| ShmQueue.BodyIsRead | libbbssms/demo/akasmsd.c:149-166 | The members of every record are read back, whatever the stack held behind its strings. |
| ShmQueue.Layout | libbbssms/demo/sendsms.h:17-41 | The bytes of every record: its type number, process number and length, and each string with its NUL at its offset. |
| ShmQueue.EncodeAllSnoc | libbbssms/demo/sendsms.c:136-138 | Appending a record to the buffer appends it to the queue. |
| ShmQueue.SharedQueue.constructor | libbbssms/demo/akasmsd.c:62-74 | A new queue is empty. |
| ShmQueue.SharedQueue.SendToSms | libbbssms/demo/sendsms.c:67-72 | The bytes are appended, or dropped when they would fill the buffer. |
| ShmQueue.SharedQueue.Submit | libbbssms/demo/sendsms.c:120-212 | The record is appended exactly when header and body fill less than the 51200 bytes; otherwise at most its header is, the buffer is no longer a list of records, and `total` rises in any case. |
| ShmQueue.SharedQueue.GetBuf | libbbssms/demo/akasmsd.c:127-134 | The first bytes are taken and the rest moved down, or nothing is done when there are too few. |
| ShmQueue.SharedQueue.IssueNext | libbbssms/demo/akasmsd.c:147-166 | The call made is that of the oldest record, with the next serial. |
| ShmQueue.SharedQueue.ProcessBbs | libbbssms/demo/akasmsd.c:136-170 | A drain issues exactly the pending requests, once each, in submission order, with their process numbers and the next serial numbers, and leaves the queue empty. |
| BbsDaemon.RequestMakesPacket | libbbssms/demo/akasmsd.c:150-165 | Every request that fits the queue makes a well-formed packet within the gateway's buffer that keeps the session open and arrives whole, a code cut to six characters. |
| BbsDaemon.RequestLayout | libbbssms/demo/akasmsd.c:150-165 | The bytes of the packet made of a request: which type number, and where each member of the request stands. |
| BbsDaemon.Call | libbbssms/demo/akasmsd.c:150-165 | The library call for a request writes exactly its packet. |
| BbsDaemon.Drain | libbbssms/demo/akasmsd.c:136-170 | A drain writes exactly the packets of the pending requests, in order, and empties the queue. |
| BbsDaemon.Arrive | libbbssms/demo/akasmsd.c:136-170 | From end to end: what the gateway dispatches, however the stream is cut, are the submitted requests, once each and in order, with every member of the request at its place in the bytes. |

## Left out

- `m_short`, the search for lists with a one-byte word, and `mgrep` on files, which nothing calls.
- WORDBOUND, WHOLELINE, INVERSE, ONLYCOUNT and all printing: off by default.
- MgrepImage.Prepf: does not write the offsets of lines past the 199th, which the source puts behind `patt` before it rejects the list.
- MgrepSearch.Matcher.Monkey1: stated for images whose bytes for an empty bucket are zero, which for ordinary words means at most 191 of them; without that the search need not end (`WalksEndUpTo191`, `CrowdHangsTheSearch`). Lists with a one-byte word go to `m_short`.
- MgrepSearch.Agreement: stops at the end of the spool and of the text's array, where the source reads on.
- FilterGate.MessageFilter.WriteAllowed: stated for list files that can be opened and hold at most 191 words of 2 to 255 bytes without blank lines.
- Md5Context.MD5Context.Final: does not model the wiping of the context, which covers a pointer's size only.
- CmppAuth.Authenticator: leaves out codes of more than fifteen bytes, for which the unsigned bound of the zero loop wraps around.
- CmppLink.CmppClient.Session: covers one session; the retry loop around it, serial numbers and the list of unanswered packets are not modelled, nor is the missing `break` after a submit reply, which has no effect on the link.
- SpoolStorage.DiskStorage.OnNotify: leaves out running out of memory and a run started by a signal inside another run.
- SpoolStorage.MessagesAreConserved: stated for file names that are never reused; `MoveKeepsTheMessage` says what happens when they are.
- Registration.RequestsAreAccountedFor: serial numbers do not wrap around at 2^32, and the gateway process is not restarted, in the model.
- Registration.Gateway.CountMoney: leaves out a signal between the query and the update, and database errors.
- Registration.Gateway.DoReplyRegisterRequest: leaves out the wording of the answers; the one for a bind that finds a row says "already bound" even when that row still waits for its code.
- BbsFraming.DispatchMessage: leaves out the handlers it calls and the replies with their results; those of the registrations are in `Registration`.
- BbsFraming.TcpStream.Read: leaves out time-outs, interrupts and socket errors.
- CmppLink.CmppClient.Dispatch: leaves out the packets sent in reply and what becomes of a delivered message.
- Registration.Gateway.DoSendRegisterMsg: leaves out the packet sent to the BBS.
- Registration.Gateway.DeliverSMS: leaves out the packet sent to the BBS.
- BbsDaemon.Drain: makes the library calls after the drain instead of one by one inside it; no step of either depends on the other.
- BbsFraming.OnAccept: leaves out the login exchange, errors and time-outs of the socket, and announced lengths beyond the 1000-byte buffer, which the source does not check.
- BbsFraming.Library.SendSMS: leaves out writes to the socket that stop half-way or fail.
- ShmQueue.SharedQueue.Submit: leaves out waiting for the semaphore and for the daemon's signal, and layouts of other machines.
- The meaning of bind replies across the library and the gateway: the two use opposite encodings.
- Parsing of command messages, message formatting, logging, process control, the database text, and the wrappers of other carriers.
