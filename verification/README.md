# LibSnert: byte machines, buffers and limits

LibSnert is a C library of mail components. This project models the parts of it that work octet by
octet or in place over a buffer, and proves what they compute against specifications that are
written without the buffers:

- the key reductions and lookups of the access map (`CString`, `SmdbKeys`, `SmdbBuffer`, `Smdb`),
- the MIME body parser and its quoted-printable decoder (`MimeDecoder`, `MimeMachine`, `MimeBoundary`,
  `MimeBody`, `Mime`),
- the DKIM body canonicalisers (`DkimSimple`, `DkimRelaxed`, `DkimHash`),
- the SPF evaluator (`Spf`),
- the connection rate limiter, as a ring of intervals and as a table of clients (`RateWindow`, `RateTable`),
- the SMTP session machine (`SmtpSession`) and the dot transparency of the SMTP client (`SmtpSend`),
- the DNS name codec (`DnsName`, `DnsQuery`),
- the mail path splitter and formatter (`PathFormat`, `ParsePath`),
- the CRC generator and hash (`Additive`, `Crc`), and UTF-8 (`Utf8`).

Where the C code changes a struct, a buffer or an array, the model is a class or an array that
methods change, and each method is tied to a function of the old state. The properties are lemmas
about those functions: invariants of every step and of every run, refinements of a list or a map,
round trips, and exact conditions where the code does not always do what a standard or the code's own
documentation says.

What the model found where the code differs from its documentation, from a standard or from what it is
used for:

- The simple DKIM form also drops a blank line that ends in several CR, which section 3.4.3 of RFC 6376
  does not (`SimpleMeetsRfcIff`, `DoubleCrDiffers`).
- The relaxed DKIM form keeps a whitespace-only line at the end of a body as an empty line, where
  section 3.4.4 of RFC 6376 drops it (`RelaxedMeetsRfcIff`, `BlankLastLineDiffers`).
- A domain that an SPF evaluation meets again gives Neutral, so its result can differ from an
  evaluation without the shared list (`RevisitMatters`); on a zone where no domain is reached twice,
  the limit cannot be passed and no error is deferred, the two agree (`ZoneIsPlain`).
- A name whose compression pointers lead back to one of them keeps the measuring loop going for ever
  (`WalkEndsIff`, `SelfPointerLoops`); pointers forward are followed.
- A DNS name with an empty label is read only up to that label, and the skip function stops short
  of its end, and only then (`QuestionReads`, `EmptyLabelEndsName`).
- The account name that the lookup of two addresses tries last is cut at the first plus, that of a
  lookup of one address at its last plus (`AccountsAgreeIff`, `AccountsDiffer`).
- Formatting a path with `%T%P@%D` loses a plus with nothing behind it, and only that
  (`RebuiltIff`, `EmptyDetailIsLost`).
- In a buffer that cuts a string of the path short, the index of formatPath ends where the whole string
  would, and the last NUL goes behind the buffer; it also does where a separator falls on the last octet
  and a longer string follows, and nowhere else (`OverrunIff`, `ShortBuffer`, `LeftOutPlus`).
- A MIME delimiter line right behind a line that only looked like one is missed (`DelimiterFoundIff`,
  `DelimiterIsMissed`).
- At the end of the input the MIME decoder of a multipart loses a line break it deferred, and what
  follows it (`EndIsLostIff`, `LineBreakIsLost`).
- A MIME body that starts with a hyphen is decoded behind a line break that it does not have, unless
  its first line may be a boundary (`BodyIsKept`, `ShownIff`, `HyphenShowsBreak`).
- The SMTP client sends an LF without a CR as it is, and doubles the dot behind it: a receiver that
  ends lines at CRLF alone gets the message back iff no such LF ends it or stands in front of a dot
  (`ReceiveCrlfIff`, `BareLfNeverEnds`, `BareLfKeepsDot`).
- The UTF-8 loop over the leading ones does not stop for 0xFF, and stops for every other octet
  (`LoopStopsIff`).

Characters of C strings are `char`, octets are `octet` (0 to 255) or 32-bit words below 256. A NUL
ends a C string; strings handed to the model hold none, and a wide string is what precedes its
terminator. Arithmetic of `unsigned long` is modulo 2^64 where it can wrap.

## Model

| member | source | states |
|---|---|---|
| CString.LowerIs | util/TextLower.c:15-28 | Lower case is that of the letters A to Z, and nothing else changes |
| SmdbKeys.IpFound | mail/smdb.c:100-112 | An IP key is cut at its last delimiter, and a colon in front of that goes too |
| SmdbKeys.IpNotFound | mail/smdb.c:100-112 | A key with no delimiter behind the place where the scan stops is the last |
| SmdbKeys.AddressV4Order | mail/smdb.c:66-112 | An IPv4 address is looked up whole and then less one octet at a time from the right: the prefixes before its dots, in that order |
| SmdbKeys.AddressV6Order | mail/smdb.c:66-112 | With or without the tag of IPv6, compact, or with an IPv4 address in it, an address is looked up whole and then less one segment at a time from the right, two colons going in one step |
| SmdbKeys.DomainOrder | mail/smdb.c:114-152 | Every domain is looked up whole and then as what follows each of its labels, from left to right, and nothing else |
| SmdbKeys.ParentsOfName | mail/smdb.c:114-152 | For a domain of which no label starts with a bracket, that is what follows each of its dots |
| SmdbKeys.ParentsOfLiteral | mail/smdb.c:137-151 | For a bracketed address literal it is nothing: the literal is one step |
| SmdbKeys.MailAfterDomain | mail/smdb.c:190-205 | A domain in a mail lookup is reduced as a domain, and then the account hidden behind the NUL is the last key |
| SmdbKeys.AddressOrder | mail/smdb.c:154-208 | For every local@domain with one at-sign and a domain, the keys are exactly the address, the domain, its parents and the account without its plus detail, in lower case and in this order |
| SmdbKeys.AccountOrder | mail/smdb.c:270-286 | A bare account name is looked up once, without its detail and with an at-sign |
| SmdbKeys.UndetailedIs | mail/smdb.c:270-276 | The detail that is cut off is what follows the last plus, if something precedes it |
| SmdbKeys.UndetailedWhole | mail/smdb.c:270-276 | Without a plus, or with one in front and no other, nothing is cut off |
| SmdbKeys.DomainLookup | mail/smdb.c:232-335 | A lookup of a domain asks for it and its parents, in lower case |
| SmdbKeys.AddressV4Lookup | mail/smdb.c:232-335 | A lookup of an IPv4 address asks for it and what its dots leave of it |
| SmdbKeys.AddressV6Lookup | mail/smdb.c:232-335 | A lookup of any other address asks for it and what its delimiters leave of it, in lower case |
| SmdbBuffer.KvmData.ReduceIp | mail/smdb.c:100-112 | In the buffer, the key becomes the next key of the IP order behind the same tag and its NUL, or there is none |
| SmdbBuffer.KvmData.ReduceDomain | mail/smdb.c:125-152 | In the buffer, the tag slides up over the first label; with no label left it stands right before the hidden string |
| SmdbBuffer.KvmData.ReduceMail | mail/smdb.c:175-208 | In the buffer, the key becomes the next key of the mail order, the hidden account the last, though the size grows again for it |
| SmdbBuffer.KvmData.MakeAccount | mail/smdb.c:277-286 | The key of an unqualified address becomes its account and an at-sign |
| SmdbBuffer.KvmData.HideAccount | mail/smdb.c:287-300 | The account of a qualified address is written behind the NUL of its key, in lower case |
| Smdb.AccountSpan | mail/smdb.c:271-300 | The loop over the local part finds its length without the detail after its last plus, and whether there is an at-sign |
| Smdb.Prepare | mail/smdb.c:259-301 | The buffer of twice the length and two octets holds the tag, the key and the hidden account a lookup starts from |
| Smdb.FirstOfTwo | mail/smdb.c:303-324 | The answer of two lists of queries is that of the first list, unless it misses them all |
| Smdb.FirstAnswers | mail/smdb.c:303-334 | Where the map misses the queries in front and finds the next, the answer is the key of that query and the value found; where it fails, the tag with "invalid" and TEMPFAIL; where it misses all, nothing |
| Smdb.ProductAt | mail/smdb.c:337-406 | The j-th of the second keys under the i-th of the first ones is asked for behind both tags and that first key, in lower case |
| Smdb.SingleKey | mail/smdb.c:232-335 | The map is asked for exactly the keys of the order up to the first it does not miss, and the answer is that key and the value found there, or the failure |
| Smdb.DoubleKey | mail/smdb.c:337-406 | For each reduction of the first key in turn all those of the second are asked for, and the answer is that of the first the map does not miss |
| Smdb.SmdbMailMail | mail/smdb.c:1089-1129 | The first address, then its domain and parents, then its account: under each the second address and its reductions, up to the first hit, which is the answer |
| Smdb.MailMailOrder | mail/smdb.c:1089-1129 | The first keys are the address, its domain, the parents of that, and the account in front of the first plus, each with all that the second address is reduced to |
| Smdb.MailMailBare | mail/smdb.c:1110-1114 | A first key without an at-sign is not reduced |
| Smdb.AccountsAgreeIff | mail/smdb.c:1117-1124 | The account tried last is the one a single lookup tries just when the local part has at most one plus and not in front |
| Smdb.AccountsDiffer | mail/smdb.c:1117-1124 | a+b+c@d is an address for which they are a and a+b |
| MimeDecoder.AddKeeps | mail/mime.c:182-218 | Through the held back CR and the flushes one octet in is one octet more, and EOF flushes everything |
| MimeDecoder.HexDecoded | mail/mime.c:255-318 | The equals sign and two digits of either case come out as the octet they stand for |
| MimeDecoder.SoftDecoded | mail/mime.c:247-318 | An equals sign with CRLF or LF comes out as nothing |
| MimeDecoder.EqualsKept | mail/mime.c:288-318 | An equals sign that no digit and no line break follows stands for itself, at EOF too |
| MimeDecoder.DigitKept | mail/mime.c:255-286 | So does one with a single digit |
| MimeDecoder.CrPassedOver | mail/mime.c:293-297 | A CR behind an equals sign is dropped, whether or not an LF follows |
| MimeDecoder.AddFlushes | mail/mime.c:182-218 | The decode buffer goes to the hooks at every LF and before it is full, and otherwise not |
| MimeDecoder.UnitDecoded | mail/mime.c:234-318 | Whatever an encoder writes for one octet or soft line break is decoded to what it means |
| MimeDecoder.QpRecovers | mail/mime.c:234-318 | Every encoding of an octet string by section 6.7 of RFC 2045 is decoded to that string |
| MimeDecoder.QpRecoversAtEof | mail/mime.c:169-318 | and at EOF all of it has gone through the flush hooks |
| MimeBoundary.BoundaryCharIs | mail/mime.c:380-418 | The boundary characters are those of section 5.1.1 of RFC 2046, and NUL |
| MimeBoundary.BoundaryTextIs | mail/mime.c:439-497 | A line reads as a boundary iff it is two hyphens and boundary characters up to its CR, not all of them hyphens and equals signs |
| MimeBoundary.AfterDeferredIff | mail/mime.c:519-674 | The line break before the last line, if there is one, is deferred iff an even number of lines in a row before it read like the beginning of a boundary |
| MimeBoundary.StateOfRun | mail/mime.c:420-674 | Which state a body of a multipart leads to, the state after a boundary among them, read off the body alone, for every encoding and every body of lines that fit the source buffer |
| MimeBoundary.DelimiterFoundIff | mail/mime.c:439-530 | The LF after a line ends the part iff the line reads as a boundary, that number is even, and, if the part is quoted-printable, no equals sign in it stands in front of a hexadecimal digit: right behind a line that only looked like one, a delimiter line by section 5.1.1 of RFC 2046 is missed |
| MimeBoundary.DelimiterIsFound | mail/mime.c:439-518 | The line `--x` ends a part of any encoding; `--a=20` does unless it is quoted-printable |
| MimeBoundary.DelimiterIsMissed | mail/mime.c:519-530 | Behind a line of two hyphens, a and a space, the line `--x` is missed |
| MimeBody.NothingLostFromSource | mail/mime.c:420-674 | For any body, what the source hooks were handed and the source buffer make up the body so far; a recognised boundary is all that is dropped |
| MimeBody.NothingLostFromDecoder | mail/mime.c:420-674 | With literal decoding, after every octet decoded output, held CR and deferred line break are the body so far, or a boundary was found and the output is what precedes the line break before it |
| MimeBody.BodyIsKept | mail/mime.c:420-674 | So for every whole body without CR CR, of lines that fit the buffer two at a time: the part ends exactly at the first boundary of the body, which is said of its octets alone, with what precedes the line break before it decoded, and without one all of it is kept; a hyphen first of all is taken to follow a line break, which then shows unless its line is the boundary or only looked like one |
| MimeBody.ShownIff | mail/mime.c:658-674 | What shows is the body itself iff it starts with no hyphen, or with a line that only looked like a boundary |
| MimeBody.HyphenShowsBreak | mail/mime.c:658-674 | A hyphen that is a whole body comes out behind a line break |
| MimeBody.LineRecognised | mail/mime.c:497-518 | A recognised boundary leaves decoded exactly what is in front of its CRLF or LF |
| MimeBody.LineReplayed | mail/mime.c:519-530 | A line that only looked like a boundary is decoded after all, with the CR and LF in front of it once each |
| MimeBody.EndIsLostIff | mail/mime.c:1043-1046 | At EOF a body without a boundary has been decoded in full iff the part is no multipart, or the body does not end in a line break that was deferred and then nothing, a hyphen, two, or an unfinished line that may be a boundary; otherwise exactly that line break and line are lost |
| MimeBody.LineBreakIsLost | mail/mime.c:1043-1046 | The letter a and a line break are such a body: the line break is lost |
| MimeBody.SinglePartRun | mail/mime.c:622-674 | Outside of a multipart each octet reaches the decoder once and in order, behind an LF if the first is a hyphen |
| MimeBody.QuotedBody | mail/mime.c:234-318 | A quoted-printable body outside of a multipart comes out of the parser as what was encoded, behind an LF if the encoding starts with a hyphen |
| Mime.Mime.DecodeAdd | mail/mime.c:199-218 | The decode buffer changes as the decoder function says |
| Mime.Mime.DecodeState | mail/mime.c:148-153 | The whole machine changes as one octet fed to the decoder |
| Mime.Mime.QpDecodeState | mail/mime.c:255-286 | The digit kept behind the end of the buffer and the next one make the octet |
| Mime.Mime.StateBdy | mail/mime.c:622-656 | The buffers change as the body state says, the line break put back after the flush |
| Mime.Mime.StateBdyLF | mail/mime.c:586-620 | The buffers change as the state after a line break says |
| Mime.Mime.IsBoundary | mail/mime.c:439-497 | The loop accepts exactly the lines of boundary characters that are not all hyphens and not quoted-printable |
| Mime.Mime.StateBoundary | mail/mime.c:420-534 | At the end of a candidate line the part ends or the source buffer is replayed |
| Mime.Mime.NextCh | mail/mime.c:1015-1056 | One octet changes the whole machine as the function of its old state |
| Mime.Mime.NextChEof | mail/mime.c:1043-1053 | So does the end of the input |
| DkimSimple.DropBlanksCutsRun | mail/dkim-hash.c:324-374 | What the simple canonicaliser cuts off is a run of lines of CR+ LF |
| DkimSimple.DropBlanksIsLongest | mail/dkim-hash.c:324-374 | and no longer suffix is one |
| DkimSimple.SimpleMeetsRfcIff | mail/dkim-hash.c:296-374 | When what is hashed is the form of section 3.4.3 of RFC 6376, for every body |
| DkimSimple.NoDoubleCrMeetsRfc | mail/dkim-hash.c:296-374 | It is for every body with no CR behind a CR |
| DkimSimple.DoubleCrDiffers | mail/dkim-hash.c:344-366 | CR CR LF is a body for which it is not |
| DkimSimple.SimpleIdempotentIff | mail/dkim-hash.c:324-374 | Canonicalising twice changes nothing iff what is kept does not end in CR |
| DkimRelaxed.CodeRelaxedForm | mail/dkim-hash.c:387-476 | The relaxed automaton, with its saved context, hashes every body of CRLF lines as its squeezed lines up to the last raw line that is not empty |
| DkimRelaxed.RelaxedMeetsRfcIff | mail/dkim-hash.c:376-476 | That is the form of section 3.4.4 of RFC 6376 iff the last line that is not empty holds more than whitespace |
| DkimRelaxed.BlankLastLineDiffers | mail/dkim-hash.c:376-476 | A body that ends in a whitespace-only line is one for which it is not |
| DkimRelaxed.BodyOnlyForm | mail/dkim-hash.c:387-476 | Where the header pass failed, what is left of the file is hashed onto the context as CRLF if it is empty, and otherwise as behind a header |
| DkimRelaxed.BodyOnlyMeetsRfcIff | mail/dkim-hash.c:376-476 | Onto an empty context, which a header pass leaves that fails at the first octet, it is the form of section 3.4.4 of RFC 6376 iff something is left and its last line that is not empty holds more than whitespace |
| DkimRelaxed.RelaxedIdempotent | mail/dkim-hash.c:387-476 | On the other bodies canonicalising twice changes nothing |
| DkimHash.CanonState.CanonIsCrlf | mail/dkim-hash.c:127-139 | Tells whether a CR is followed by LF, and leaves the file where it was |
| DkimHash.CanonState.CanonBodySimple | mail/dkim-hash.c:324-374 | Each octet keeps the saved context the one to roll back to; at EOF the context holds the simple form |
| DkimHash.CanonState.CanonBodyRelaxed | mail/dkim-hash.c:387-476 | Each octet changes state and contexts as a step of the automaton, and EOF as its end |
| DkimHash.CanonState.DkimHash | mail/dkim-hash.c:505-539 | The driving loop digests the canonical form of the whole file, with a header or without |
| Spf.CheckKeeps | mail/spf.c:376-885 | However policies nest, no policy is asked for twice and at most ten host lookups are made |
| Spf.CheckIsLimited | mail/spf.c:574-578 | Once the limit of counted mechanisms is passed the whole evaluation is a PermError and counts no more |
| Spf.LeftmostDecides | mail/spf.c:500-560 | Behind networks without the client, terms that are not understood, and modifiers met for the first time, the first network with the client, and the first all, decide by their qualifier, and a bad address or length is a PermError |
| Spf.ModifierTwice | mail/spf.c:834-850 | A second redirect= or exp= is a PermError |
| Spf.NothingDecides | mail/spf.c:857-866 | Where no term decides, the redirect is evaluated, or the result is Neutral |
| Spf.HostDecides | mail/spf.c:567-833 | What each answer for its host makes of an a, mx, ptr or exists: the qualifier, the next term, a PermError past ten of them, a TempError, or one to be deferred |
| Spf.NotExpanded | mail/spf.c:567-833 | A target that cannot be expanded is a PermError |
| Spf.IncludeDecides | mail/spf.c:772-803 | An included Pass gives the qualifier, Fail, SoftFail and Neutral go on, TempError stays, PermError and no policy are a PermError |
| Spf.PolicyFetched | mail/spf.c:440-517 | What each answer to the query for its policy makes of a domain |
| Spf.PolicyGiven | mail/spf.c:406-438 | A given policy is evaluated without a query; an address literal has no result, and a domain met again is Neutral |
| Spf.CheckStays | mail/spf.c:376-885 | An evaluation whose expansion has no domain twice meets no domain again, counts no more hosts than the expansion has, and defers no error unless a host answers with one |
| Spf.ZoneIsPlain | mail/spf.c:376-885 | So on every zone whose expansion of include: and redirect= reaches no domain twice, has at most ten hosts, and has no host that answers with a temporary error to be deferred, the result is that of leftmost-match evaluation |
| Spf.RevisitMatters | mail/spf.c:415-438 | A zone where a domain met again makes the result differ from that |
| Spf.FreshCheck | mail/spf.c:887-951 | A whole evaluation from a fresh context asks for no policy twice, makes at most ten host lookups, and agrees with leftmost-match evaluation on those zones |
| Spf.SpfContext.IsCircularReference | mail/spf.c:351-374 | True iff the domain was visited, whatever its case; otherwise it now is |
| Spf.SpfContext.TryHost | mail/spf.c:567-736 | The mechanisms a, mx, ptr and exists: the limit, the answers and the deferred error |
| Spf.SpfContext.SpfCheck | mail/spf.c:376-885 | The recursion over the shared context terminates and leaves the result and shared state of the function Check |
| Spf.SpfContext.CheckTerms | mail/spf.c:525-863 | The loop over the terms leaves the result of the first that decides, else of the redirect, else the fallback |
| Spf.SpfCheckMail | mail/spf.c:887-960 | The evaluation from a fresh context is the function Check, and leftmost-match evaluation on those zones |
| RateWindow.SlotsCover | io/smtpe.c:5031-5038 | The ten slots share out the log of a window without rest |
| RateWindow.UpdatedRing | io/smtpe.c:5023-5029 | A step in the current slot keeps the ring that of the log with that step |
| RateWindow.RateIsNet | io/smtpe.c:5031-5040 | From the tenth tick on the sum is the net of what the log holds for the last ten ticks |
| RateWindow.TooEarly | io/smtpe.c:5034 | Before it the lower bound wraps around and the sum is 0 |
| RateWindow.RateUpdate | io/smtpe.c:5017-5041 | In place, the intervals become the ring of the longer log, and the result is the net of its last ten ticks |
| RateTable.StaysCapped | io/smtpe.c:5128-5132 | Admitting only below the limit of the last ten ticks keeps every ten ticks in a row within the limit |
| RateTable.RingUndone | io/smtpe.c:5133 | A rejected attempt, added and taken back, leaves a ring of just what was admitted before |
| RateTable.OneSlotEach | io/smtpe.c:5099-5107 | A non-zero address is in at most one slot, and within reach of its hash |
| RateTable.Missed | io/smtpe.c:5099-5116 | A window without the address means the map has no such client |
| RateTable.MovedAgrees | io/smtpe.c:5109-5130 | Giving a slot over to an address keeps the table in agreement with the map that loses the slot's old client |
| RateTable.DjbHashIndex | io/smtpe.c:5004-5015 | The loop computes the hash of the sixteen octets, within the table |
| RateTable.HashIs | io/smtpe.c:5001-5015 | That is, from 5381 on, 33 times what was and xor the octet, and at last the rest modulo the size of the table |
| RateTable.RateHash.Connect | io/smtpe.c:5128-5139 | A client is admitted iff less than the limit was in the last ten ticks; otherwise its log is unchanged |
| RateTable.RateHashes.Find | io/smtpe.c:5094-5107 | The probe finds the first slot of the window with the address, or else the first of those touched least recently |
| RateTable.RateHashes.RateClient | io/smtpe.c:5079-5145 | Every connection keeps the table in agreement with the map and every client within the limit, and its verdict is that of the client's log; a full window loses its least recently touched client |
| SmtpSession.StepKeeps | io/smtpe.c:5786-6105 | Each command with any reply of its hook keeps the session what its history says, which is made of the inputs and replies alone |
| SmtpSession.RunKeeps | io/smtpe.c:6637-6770 | So does every run |
| SmtpSession.MailAcceptedIff | io/smtpe.c:5900-5985 | In every run MAIL begins a transaction iff the connection is open, no content is awaited, a greeting stands, path and size are good, and the hook does not refuse |
| SmtpSession.RcptAcceptedIff | io/smtpe.c:5987-6058 | RCPT adds its address iff a transaction is open, the address is good, and the hook does not refuse |
| SmtpSession.DataAcceptedIff | io/smtpe.c:6060-6105 | DATA turns to content iff the open transaction has a recipient and the hook answers 354 or nothing |
| SmtpSession.GreetingTaken | io/smtpe.c:5786-5863 | A HELO or EHLO that is not refused leaves a cleared session under it, a refused one the state before any greeting |
| SmtpSession.AuthAcceptedIff | io/smtpe.c:5865-5898 | AUTH is taken once, under EHLO, with PLAIN |
| SmtpSession.XclientTaken | io/smtpe.c:6464-6534 | XCLIENT keeps the last protocol it names in front of an argument not understood, and without such an argument takes the session back before the greeting |
| SmtpSession.EndOfMessage | io/smtpe.c:5509-5541 | The end of a message, and RSET, leave no transaction and the last greeting |
| SmtpSession.ConnectionEnds | io/smtpe.c:6637-6770 | The connection ends with a dropped reply, QUIT, or a path that could not be parsed for now, and then nothing changes any more |
| SmtpSession.DataAccepted | io/smtpe.c:6060-6105 | An accepted DATA has the sender and recipients accepted since the last accepted MAIL, in order, and nothing in between ended the transaction |
| SmtpSession.TransactionSince | io/smtpe.c:5509-5541 | The open transaction begins at an accepted MAIL after which the recipients are its own, with no HELO, EHLO, RSET, completed XCLIENT or finished message |
| SmtpSession.SmtpCtx.ClientReset | io/smtpe.c:5509-5541 | The transaction is gone and the state is that of the greeting |
| SmtpSession.SmtpCtx.DoMail | io/smtpe.c:5900-5985 | MAIL begins a transaction, or the hook refuses it |
| SmtpSession.SmtpCtx.DoRcpt | io/smtpe.c:5987-6058 | RCPT adds its address, which the hook may take off again |
| SmtpSession.SmtpCtx.DoData | io/smtpe.c:6060-6105 | DATA needs recipients, and the hook's reply decides whether content follows |
| SmtpSession.SmtpCtx.DoXclient | io/smtpe.c:6464-6534 | XCLIENT resets the session unless an argument is not understood |
| SmtpSession.SmtpCtx.ClientIo | io/smtpe.c:6637-6770 | One input and its hook's reply change the fields as one step of the session |
| SmtpSession.Serve | io/smtpe.c:6637-6770 | A loop over the inputs is a run |
| SmtpSend.StuffedLine | mail/smtp.c:389-404 | A line as sent is one line, is never the lone dot, and loses one dot to become the line again |
| SmtpSend.ReceiveWire | mail/smtp.c:387-418 | A receiver that ends lines at any LF and undoes the transparency of section 4.5.2 of RFC 5321 reads back every message, with CRLF if its last line had no newline, and stops at the right dot |
| SmtpSend.ReceiveCrlfIff | mail/smtp.c:387-418 | One that ends lines at CRLF alone, as section 4.1.1.4 of RFC 5321 demands, does iff no LF without a CR before it ends the message or stands in front of a dot |
| SmtpSend.BareLfNeverEnds | mail/smtp.c:412-418 | The message of a and an LF is one it never finds the end of |
| SmtpSend.BareLfKeepsDot | mail/smtp.c:394-398 | A dot behind an LF without a CR is one it gets twice |
| SmtpSend.Client.SendLines | mail/smtp.c:387-410 | The loop writes the message with a dot before every line that starts with one |
| SmtpSend.Client.SendContent | mail/smtp.c:387-418 | All that is written is the wire form of the message |
| DnsName.WalkEndsIff | io/Dns.c:496-504 | The walk over a name finds a loop exactly when no number of turns ends the loop of the code |
| DnsName.PriorPointersEnd | io/Dns.c:496-504 | Pointers to prior names, as section 4.1.4 of RFC 1035 has them, do not loop |
| DnsName.PointerIs | io/Dns.c:497-500 | A pointer is two octets, the high one first, of which the lower fourteen bits are the offset |
| DnsName.PriorPointerIsRead | io/Dns.c:496-504 | A label and a pointer back to another are read as the two |
| DnsName.SelfPointerLoops | io/Dns.c:496-504 | A pointer to itself does |
| DnsName.ForwardPointerIsRead | io/Dns.c:496-504 | A pointer forward to a label is followed and read |
| DnsName.Packet.NameLength | io/Dns.c:482-527 | Whatever its pointers, unless they loop: the length of the text of the name, or -1 when the name leaves the packet or is too long |
| DnsName.Packet.NameCopy | io/Dns.c:532-586 | With room for the measured length and a NUL, writes exactly that text and its NUL; with less room it fails |
| DnsName.Packet.NameSkip | io/Dns.c:591-611 | Where the skip stops |
| DnsName.Packet.NameGet | io/Dns.c:616-637 | A name whose pointers do not loop is read exactly when it can be measured: the copy never falls short |
| DnsName.PaddedAt | io/Dns.c:558 | A label is copied up to its first NUL, and what follows becomes NULs |
| DnsName.TextOf | io/Dns.c:532-586 | A buffer filled label by label to the measured length holds the text of the name |
| DnsQuery.WalkLabels | io/Dns.c:482-527 | Labels of up to 63 octets with a root label are read back as the labels in front of the first empty one |
| DnsQuery.SkipLabels | io/Dns.c:591-611 | The skip lands right behind them |
| DnsQuery.SkipStopsShort | io/Dns.c:591-611 | With an empty label among them it stops short |
| DnsQuery.PointerStands | io/Dns.c:482-611 | Behind labels a pointer stands for the name it points to, and the skip passes over its two octets, as section 4.1.4 of RFC 1035 has it |
| DnsQuery.LabelsFitIff | io/Dns.c:292-318 | The labels of a name are short enough iff it has no 64 octets in a row without a dot |
| DnsQuery.QuestionReads | io/Dns.c:251-329 | On the question built for a name, reading gives the dotted name back iff no label is empty or the name is one dot, and the skip lands on the type field iff no label is empty |
| DnsQuery.EmptyLabelEndsName | io/Dns.c:292-318 | a..b reads as a |
| DnsQuery.BuildAndGet | io/Dns.c:251-637 | A question that is built is read back through the buffer as the name it was built for iff the name with its last dot has at most 255 octets, and no label is empty or the name is one dot |
| DnsQuery.Dns.BuildQuery | io/Dns.c:251-329 | The packet holds a header with the next identifier, the opcode, recursion desired and one question, the labels, type and class of the name behind it, and its stored length is the number of octets written; a label over 63 octets fails |
| DnsQuery.Dns.PutLabels | io/Dns.c:292-318 | The loop writes each label behind the octet that will hold its length |
| PathFormat.SplitIsExact | mail/parsePath.c:287-389 | The pieces of a path with their separators are the address, nothing lost or added |
| PathFormat.RouteChecked | mail/parsePath.c:287-316 | A source route is what its scanner says, up to a colon |
| PathFormat.RestChecked | mail/parsePath.c:320-389 | Behind it the first check that fails decides, of 64 and 255 characters, of the at-sign, of the dots and of what the scanners leave over; otherwise the pieces are what the scanners say |
| PathFormat.RebuiltIff | mail/parsePath.c:426-583 | `%T%P@%D` rebuilds a qualified address but for the case of route, left part and domain, iff there is no plus with nothing behind it |
| PathFormat.LettersAre | mail/parsePath.c:514-575 | What each letter of a format stands for |
| PathFormat.EmptyDetailIsLost | mail/parsePath.c:426-583 | a+@d is such an address: it becomes a@d |
| PathFormat.EndWithRoom | mail/parsePath.c:504-578 | With room for the path the index ends at its length |
| PathFormat.OverrunIff | mail/parsePath.c:504-581 | The index of formatPath ends past the end of the buffer iff one of the strings of the path is cut short, or a separator falls on the last octet of the buffer and the next string that is not empty has two characters or more |
| PathFormat.ShortBuffer | mail/parsePath.c:518-520 | The address abcdef is cut short in a buffer of four octets, and ends the index at 6 |
| PathFormat.LeftOutPlus | mail/parsePath.c:545-556 | In a buffer of four octets the plus of abc+d falls on the last octet, and a domain ef after it ends the index at 5 |
| PathFormat.WritesSpell | mail/parsePath.c:504-578 | The strings and separators are those that make up the formatted path |
| ParsePath.ParsePath.SplitRoute | mail/parsePath.c:287-316 | The source route is cut off the second copy at its colon |
| ParsePath.ParsePath.SplitRest | mail/parsePath.c:320-389 | NULs at the at-sign and the plus leave the pieces side by side, or the failure is the first that the checks find |
| ParsePath.Parse | mail/parsePath.c:250-424 | Splitting in place gives the parts of the address, in lower case but for the right part, with their lengths, or the failure |
| ParsePath.FormatPathLength | mail/parsePath.c:599-674 | The length of what a format makes of the path, for every format without a dangling percent sign |
| ParsePath.FormatFields | mail/parsePath.c:504-578 | However short the buffer, no write of the loop leaves it, and it shows the formatted path as far as it has room |
| ParsePath.FormatPath | mail/parsePath.c:476-583 | For every buffer: it holds the formatted path, or as much of it as fits, and the last NUL goes right behind that, or behind the buffer exactly where the path overruns it; with room for all of it the result is its length |
| ParsePath.AllocatePath | mail/parsePath.c:691-713 | The computed and the formatted length never differ, so the path is always returned |
| Crc.GeneratePoly | crc/crctable.c:105-106 | The loop sums the powers of the listed exponents to the CRC-32 polynomial |
| Crc.GenerateTable | crc/crctable.c:105-127 | Entry k is the remainder of the octet k times x^32 |
| Crc.GenerateBit | crc/crctable.c:115-120 | One turn of the inner loop is one step of the division |
| Crc.DirectIsRemainder | crc/crctable.c:111-121 | Letting coefficients enter at the top is division of the polynomial times x^32 |
| Crc.CrcfnIsByteStep | crc/crcfn.c:18-22 | One step through the table is eight steps of the division |
| Crc.Hashfn | crc/crcfn.c:27-42 | The hash of a string, counted or ended by a NUL, is the remainder of its polynomial times x^32 |
| Crc.BytesAreMessageCrc | crc/crcfn.c:27-42 | Octet by octet and bit by bit the division leaves the same remainder |
| Crc.HashIsLinear | crc/crcfn.c:27-42 | The hash of the xor of two equally long strings is the xor of their hashes |
| Crc.BurstDetected | crc/crcfn.c:27-42 | Any change within four consecutive octets changes the hash |
| Utf8.LoopStopsIff | io/utf8.c:59-61 | The loop over the leading ones stops for every octet but 0xFF |
| Utf8.Malformed | io/utf8.c:55-90 | What octets that are no encoding come to: the end, an octet that begins nothing, too few octets, or one that continues nothing |
| Utf8.DecodeEncode | io/utf8.c:16-151 | One decode gives back what one encode wrote and takes just those octets |
| Utf8.DecodeAllEncodeAll | io/utf8.c:16-163 | Repeated decoding gives back every string of characters up to 0x7FFFFFFF |
| Utf8.EncodeAllInjective | io/utf8.c:154-163 | Two different strings never have the same encoding |
| Utf8.RfcTable | io/utf8.c:118-152 | The encoding is the table of section 3 of RFC 3629, extended to six octets |
| Utf8.CountLeadingOnes | io/utf8.c:59-61 | The loop counts the leading ones of the octet |
| Utf8.ConvertTails | io/utf8.c:80-90 | The loop shifts in the continuation octets, or finds one that is none |
| Utf8.File.FgetwcUtf8 | io/utf8.c:16-91 | Reads one character and as many octets as the decoding function says |
| Utf8.File.FputwcUtf8 | io/utf8.c:118-152 | Appends the encoding of one character |
| Utf8.File.FputwsUtf8 | io/utf8.c:154-163 | Appends the encoding of a string |
| Utf8.File.FgetwsUtf8 | io/utf8.c:93-116 | Reads back the first line of what was written, or as much of it as there is room for |
| Utf8.LineLengthIs | io/utf8.c:93-116 | Which ends at the first newline, at the limit, or with the characters |

## Left out

- Sockets, event loops, Lua hooks, files, daemons and database back ends: a hook's reply, a DNS answer and a map lookup are parameters, a stream is a sequence of octets.
- Out-of-memory paths, null argument checks, logging and debug flags.
- canon_header_relaxed, dkim_file and the hand-over from header to body: the body pass is modelled from the state and context the header pass leaves. For an empty file that pass ends without failing and the context is finished before the body pass goes on with it; what that hashes is not modelled.
- MIME headers, the JSON output, the base64 decoder and the hook list: a body starts with the encoding and multipart flag that the headers set. Of the three boundary tests the default one is modelled.
- MimeBody.NothingLostFromDecoder: not for a body with CR CR, or with two lines that together pass the source buffer by all but four octets; there the machine replays a CR that was decoded already, or flushes part of a candidate line before it is decoded. A hyphen first of all is the matter of MimeBody.BodyIsKept.
- SPF text parsing, macro expansion, IP matching and error strings: terms are a datatype, expansion and host lookups are functions.
- Spf.ZoneIsPlain: one direction; an evaluation that meets a domain again may still have the same result. A policy is expanded up to its first all, whatever decides before.
- DnsName.Packet.NameLength: not for a name whose pointers lead back to one of them, where the loop of the code does not end; DnsName.Packet.NameCopy and DnsName.Packet.NameGet are called for no such name either, and the copy only for one that was measured.
- RateTable.RateHashes.RateClient: the limit is fixed and the clock starts at the tenth tick and does not go back; the all-zero address, which an unused slot has too, gets no promise.
- The global limit of connections a second, and rate limits other than those of clients.
- End of message detection across chunks of DATA: the end of a message is an input of the session.
- DNS answers, retries and the resolver's state beyond the question section.
- Smdb.SingleKey: not for the empty tag with the empty address in a mail lookup, where the code writes the third octet of a buffer of two, and reduceMail then reads the octet before the first.
- Smdb.DoubleKey: not for a first key reduced as an address; the function is private, its callers reduce the first key as an IP or a domain, and reduceMail needs the account behind the NUL that doubleKey does not put there.
- Access map action words, and the TEMPFAIL code they give.
- ParsePath.Parse: finding the address between its angle brackets is left out, and the scanners of the net library are arbitrary functions that stay within their string.
- ParsePath.FormatPath: what the octet behind the buffer is that the last NUL overwrites where PathFormat.OverrunIff says so; the method gives its index and leaves the write out.
- CRC-12, CRC-16, CRC-CCITT and a 64-bit word: the table index is the top octet of the machine word, so the word is 32 bits and the polynomial that of CRC-32.
- The Luhn check digit: it would add only small arithmetic.
