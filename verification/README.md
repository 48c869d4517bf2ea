# Verified models of the bot's libcurl core and of its update loop

The repository is a small Telegram bot library (`lib/telebot_Capi`) on top of a vendored libcurl
(`lib/curl_src`). This project models the parts of both whose correctness rests on more than one function, in Dafny,
and proves what they promise. `dafny verify dfyconfig.toml` checks all of it.

Each component comes as a specification on values, about which the properties are proved, and, where the C code
updates an object or a buffer, as a class or methods that do the same in place and are proved to do what the
specification says.

| files | component |
|---|---|
| `CookieDomain`, `CookieAddress`, `CookiePath`, `Cookies`, `CookieJar`, `CookieGuard`, `CookieLookup`, `CookieOrder`, `CookieEngine`, `CookieFile`, `CookieStore` | the cookie jar: 256 hashed lists that answer like one flat list; adding, replacing, expiring, listing in order; cookie lines and whole cookie files |
| `GzipHeader`, `GzipWriter`, `EncodingStack`, `EncodingStream` | content decoding: the gzip state machine fed in arbitrary pieces, the stack of decoders, and bodies that pass it in pieces |
| `GlobSet`, `GlobBrackets`, `Fnmatch` | the glob matcher against the language of patterns |
| `Resolver` | the hand-off between a resolver thread and its parent, over all interleavings |
| `Connect`, `ConnectRepeats`, `ConnectLost`, `ConnectWinner`, `ConnectEngine` | connecting with two address families side by side |
| `Sasl`, `SaslDialogue`, `SaslEngine` | the SASL dialogue with cancellation and fallback |
| `DotDot`, `DotSegments` | removal of dot segments, in place |
| `Base64`, `Base64Codec` | Base64 both ways |
| `Events`, `EventEngine`, `Polling`, `PollEngine` | the bot: notifier slots, and the protocol between server, poller and parser |
| `ConnCache`, `ConnCacheEngine` | the connection cache |
| `AltSvc`, `AltSvcParams`, `AltSvcFormat`, `AltSvcLine`, `AltSvcEngine` | the Alt-Svc cache |
| `DynBuf`, `DynBufEngine` | the growing buffer |
| `Ascii`, `ByteString`, `Decimal`, `Text`, `Lists`, `Wrappers` | shared definitions |

## Where the code does not do what one might expect

The models follow the code. These are the places where it departs from its comments, from its documentation or from
the standard it cites, each with the lemma that shows it.

- Cookies of equal path, domain and name length are sent newest first (`cookie.c:1208-1212`), and longer domains and
  names come before age; section 5.4 of RFC 6265 asks for the oldest first among equal path lengths. A list is in its
  order if and only if every cookie outranks the newer ones whose paths are as long.
  (`CookieOrder.NewestIsSentFirst`, `CookieOrder.SortedIsRfcOrderExactly`)
- A cookie's path is stored without a slash or quote at its end. So it matches other requests than section 5.1.4 of
  RFC 6265 says, if and only if something is cut off and the path has no query: "/a/" is stored as "/a" and sent to
  "/a". A stored path that still ends in a slash, as "/a//" leaves one, matches fewer requests than the rule says of it,
  and no others do. (`CookiePath.StoredPathIsRfcExactly`, `CookiePath.SlashIsWider`, `CookiePath.PathMatchIsRfc`,
  `CookiePath.DoubleSlashIsNarrower`)
- A jar is saved newest first, and its cookies are numbered in the order of the file when it is loaded. So every saving
  and loading reverses their order of age. (`CookieStore.SavedComesBack`, `CookieStore.SecondSaveIsReversed`)
- A lookup misses exactly the cookies that apply but hash to another bucket, for one a tail-matching domain without a
  dot. (`CookieLookup.BucketScanIsFlatScan`, `CookieLookup.DotlessDomainIsMissed`)
- With a secure cookie of path "/login" in the jar, an insecure one of path "/loginhelper" is refused, though the comment
  (`cookie.c:994`) says that it is ok: what is compared is the beginning of the path, not its first segment.
  (`CookieGuard.FirstSegmentDecides`, `CookieGuard.LoginHelperIsRefused`)
- An address of eight groups is taken for one with a colon behind it too. (`CookieAddress.Ipv6Exactly`,
  `CookieAddress.ColonAtEndIsLetPass`)
- A cookie that arrives over an insecure channel may overwrite a secure one of another path, and then two cookies with
  one key can be in the jar. (`CookieJar.StoreDuplicates`, `CookieJar.InsecureAddMayDuplicate`)
- Of several classes named in one bracket expression only one is looked at. A bracket expression matches what it is
  meant to match if and only if no class passed over holds a further character.
  (`Fnmatch.SetMeansExactly`, `Fnmatch.TwoClasses`)
- The parent of a resolver thread reads the thread handle after it has released the mutex, when the thread may have
  freed it (`asyn-thread.c:401`); reading it before the release would be enough. When the host name cannot be copied, the
  read end of the socket pair is not closed. (`Resolver.OnlyTheHandleReadIsStale`, `Resolver.EarlyReadIsSafe`,
  `Resolver.ReadEndClosedUnlessCopyFails`)
- The second address family can have an address tried twice: a retry that ends in an error other than a failure to
  connect, or at an address that cannot be printed, leaves the cursor in place (the loop of the first attempts does
  not), and when no socket is left a poll falls back to that cursor. The first family's addresses are never repeated.
  (`ConnectRepeats.AddressesTriedOnceExactly`, `ConnectRepeats.AddressRepeatsExactly`,
  `ConnectRepeats.AbortedAddressIsTriedAgain`)
- An address that cannot be printed counts as no error although it leaves no socket. The first round of attempts
  reports no error with nothing under way if and only if, of all addresses, the first whose attempt is no error cannot be
  printed; a poll does so if and only if it loses the last candidate in this way. From then on nothing is tried and
  nothing reported, until the time is over. (`ConnectLost.LostExactly`, `ConnectLost.HostIsLostExactly`,
  `ConnectLost.PollIsLostExactly`, `ConnectLost.UnprintableLeavesNothing`, `ConnectLost.ThirdIsNeverTried`,
  `ConnectLost.RetryIsLost`)
- When the initial response of a fallback mechanism cannot be encoded, the mechanisms after it are not tried.
  (`Sasl.GivesUpExactly`, `Sasl.LoginIsLeftUntried`)
- The third step of GSSAPI, for mutual authentication, is never reached. (`SaslDialogue.NeverUnsupported`)
- The poller comes to wait for ever if and only if one of its requests is answered with "not ok", and then nothing is
  handled any more. (`Polling.BlockedExactly`, `Polling.BlockedForever`, `Polling.RefusedOnce`)
- An update numbered 0 would be delivered again and again; a handler for updates of unknown type is never called.
  (`Polling.MovesOnExactly`, `Polling.UpdateZeroIsHandledAgain`, `Events.UnknownGoesToDefault`)
- The search for the longest idle connection finds none, though there are idle ones, if and only if all of these were
  last used in the future. That takes a clock that can be set back, which is what `timeval.c` falls back to where there is
  no monotonic one (`timeval.c:102-108`, `timeval.c:151-171`).
  (`ConnCache.OldestIsExtracted`, `ConnCache.FutureIsNotFound`)
- An alternative without a port is taken to be at the last port written before it, of which the low 16 bits count even
  if it was refused. So it is at the origin's port if and only if no port was written before it, or the last one counts
  the same. (`AltSvcFormat.PortIsCarriedOver`, `AltSvcFormat.PortlessIsAt8443`)
- An age of two to the power of 63 seconds or more counts as a negative one, except the largest number there is, which
  does not count. (`AltSvcLine.AgeExactly`)
- Once one parameter of an alternative is quoted, an unquoted value behind it is read up to the next quote, or aborts the
  header when there is none; the alternatives behind it are lost. A header is read as it is written if and only if
  alternatives without a port get the one meant, and either all alternatives are orderly, or the first that is not ends
  what is heard and loses nothing that counts.
  (`AltSvcFormat.ReadAsWrittenExactly`, `AltSvcFormat.QuotedAgeLosesAll`, `AltSvcFormat.QuotedAgeIsSaved`)

## Model

| member | source | states |
|---|---|---|
| CookieDomain.ComputeHashDomain | lib/curl_src/lib/cookie.c:270-281 | the hashing loop computes the 64-bit hash of the upper-cased name, and the bucket is below 256 |
| CookieDomain.LastDot | lib/curl_src/lib/cookie.c:246-265 | the last dot of a name, with nothing but other characters behind it |
| CookieDomain.IsIpIgnoresCase | lib/curl_src/lib/cookie.c:149-168 | whether a name is an address does not depend on the case of its letters |
| CookieDomain.TailMatchTopDomain | lib/curl_src/lib/cookie.c:121-144 | a host shares the hash key of a domain that tail-matches it if and only if the domain has a dot or is the whole host |
| CookieDomain.TailMatchSameBucket | lib/curl_src/lib/cookie.c:286-296 | a host is looked up in the bucket of every dotted domain that tail-matches it |
| CookieDomain.SameNameSameBucket | lib/curl_src/lib/cookie.c:286-296 | names equal but for case share a bucket |
| CookieDomain.AddressesAreFirst | lib/curl_src/lib/cookie.c:286-296 | there are 256 buckets; cookies without a domain and those of addresses are in the first |
| CookieAddress.Ipv4Exactly | lib/curl_src/lib/inet_pton.c:92-134 | a text is taken for a dotted quad if and only if it is four numbers below 256, printed without leading zeros, with dots between them |
| CookieAddress.Ipv6Exactly | lib/curl_src/lib/inet_pton.c:150-234 | a text is taken for the other kind if and only if, cut at its colons, it is groups of one to four hexadecimal digits that fill sixteen bytes, a dotted quad at the end counting as four, or less with one gap; a colon in front must be doubled |
| CookieAddress.ColonAtEndIsLetPass | lib/curl_src/lib/inet_pton.c:150-234 | eight groups are also accepted with a colon at the end |
| CookiePath.UriPath | lib/curl_src/lib/cookie.c:187-200 | the part of a request target before its query when the target is absolute, else "/" |
| CookiePath.PathMatchIsRfc | lib/curl_src/lib/cookie.c:172-241 | the matching of a stored path is that of section 5.1.4 of RFC 6265 on all request targets if and only if it does not still end in a slash |
| CookiePath.DoubleSlashIsNarrower | lib/curl_src/lib/cookie.c:301-333 | the path "/a//" is stored as "/a/", and then does not match "/a/b" as the standard says |
| CookiePath.StoredPathIsRfcExactly | lib/curl_src/lib/cookie.c:301-333 | the matching of a path as it was given is that of section 5.1.4 of RFC 6265 on all request targets if and only if nothing is cut off its end when it is stored, or it is "/" or has a query |
| CookiePath.SlashIsWider | lib/curl_src/lib/cookie.c:301-333 | "/a/" is stored as "/a" and matches "/a", which the standard excludes |
| Cookies.SameKeySameBucket | lib/curl_src/lib/cookie.c:966-985 | cookies that replace each other are kept in one bucket |
| CookieOrder.CompareIsStrictTotalOrder | lib/curl_src/lib/cookie.c:1184-1213 | on cookies of distinct creation times the comparison is antisymmetric, total and transitive |
| CookieOrder.LongestPathFirst | lib/curl_src/lib/cookie.c:1329-1357 | in a sorted list no cookie stands before one with a longer path |
| CookieOrder.PathlessGoesLast | lib/curl_src/lib/cookie.c:1190-1196 | a cookie without a path goes behind every one that has a path with something in it |
| CookieOrder.OlderFirstExactly | lib/curl_src/lib/cookie.c:1190-1212 | of two cookies with equally long paths the older is sent first if and only if its domain is longer, or its name with an equally long domain |
| CookieOrder.SortedIsRfcOrderExactly | lib/curl_src/lib/cookie.c:1184-1213 | a sorted list is in the order of section 5.4 of RFC 6265 if and only if every cookie outranks the newer ones with equally long paths |
| CookieOrder.NewestIsSentFirst | lib/curl_src/lib/cookie.c:1208-1212 | two cookies that differ in name and age only are sent newest first |
| CookieOrder.Qsort | lib/curl_src/lib/cookie.c:1346-1347 | sorting gives a sorted arrangement of the same cookies |
| CookieOrder.SortedIsUnique | lib/curl_src/lib/cookie.c:1329-1357 | there is only one sorted arrangement, so the list sent does not depend on the sort |
| CookieJar.Place | lib/curl_src/lib/cookie.c:966-1063 | the first cookie of the bucket that is not skipped decides: it is replaced, or it refuses the newcomer; without one the newcomer goes to the end |
| CookieJar.StoreConserves | lib/curl_src/lib/cookie.c:966-1080 | storing adds one cookie to the whole jar, in exchange for the one it replaces if there is one, which hands on its creation time |
| CookieJar.KeepInvariants | lib/curl_src/lib/cookie.c:380-407 | removing cookies keeps the rest of the whole jar in order, and all invariants |
| CookieJar.RemovalsMean | lib/curl_src/lib/cookie.c:380-446 | expiry leaves the cookies without expiry or not past it, the end of a session those with an expiry, and a full clear nothing |
| CookieJar.ApplyConsistent | lib/curl_src/lib/cookie.c:933-1080 | every operation keeps: the count is the number of cookies, each is in the bucket of its domain, creation times are distinct and at most the counter |
| CookieJar.RunConsistent | lib/curl_src/lib/cookie.c:933-1080 | the same after every run of adds, expiries, loads, session and full clears |
| CookieJar.EmptyJarConsistent | lib/curl_src/lib/cookie.c:1099-1122 | a new jar meets the invariants |
| CookieJar.TramplesMeansReplaced | lib/curl_src/lib/cookie.c:986-1018 | a newcomer replaces a cookie of another key if and only if it is insecure, that one is secure, of its name and domain, with another path whose first segment its own does not begin with, and not kept alive |
| CookieJar.OverlaysMeans | lib/curl_src/lib/cookie.c:989-1006 | the comparison of paths finds a newcomer out of bounds if and only if its path begins with the text of the other's first segment, in any case of letters |
| CookieGuard.FirstSegmentDecides | lib/curl_src/lib/cookie.c:986-1037 | an insecure newcomer that meets a secure cookie "/seg..." of its name and domain is refused if its path begins with "/seg", and else replaces it, unless that is live and the newcomer is not |
| CookieGuard.RootRefusesAll | lib/curl_src/lib/cookie.c:986-1006 | a secure cookie of path "/", which is stored as "", refuses every insecure newcomer of its name and domain |
| CookieGuard.WholePathDecides | lib/curl_src/lib/cookie.c:1010-1037 | in every other meeting equal paths replace, subject to the same, and different ones are skipped |
| CookieGuard.SecureCookieStays | lib/curl_src/lib/cookie.c:966-1080 | over every run a secure cookie stays in the jar unchanged, whatever comes over an insecure channel below its first path segment, until it expires, is cleared or a secure response sets it |
| CookieGuard.BarredIsNotStored | lib/curl_src/lib/cookie.c:906-963 | nothing is stored of a cookie that breaks the rule of a prefix in its name, is a session cookie of a file that should lose them, or has an unacceptable domain |
| CookieGuard.NewcomerIsStored | lib/curl_src/lib/cookie.c:1066-1080 | any other is stored when none has its name and domain, live when the jar is running, and newer than all others |
| CookieGuard.LoadingKeepsLive | lib/curl_src/lib/cookie.c:1027-1037 | reading a file leaves every live cookie but those past their expiry, and makes none live |
| CookieGuard.LoginIsRefused | lib/curl_src/lib/cookie.c:990-1006 | a run from the empty jar: a secure "/login" is set, and then every insecure cookie whose path begins so is refused |
| CookieGuard.LoginHelperIsRefused | lib/curl_src/lib/cookie.c:990-1006 | "/loginhelper" is refused like "/login/en", though it is no path below "/login" |
| CookieJar.StoreDuplicates | lib/curl_src/lib/cookie.c:966-1080 | a store leaves two cookies with one key if and only if the newcomer tramples so on the first cookie not skipped, while a cookie of its own key is in the bucket |
| CookieJar.SecureRunHasNoDuplicates | lib/curl_src/lib/cookie.c:966-1018 | on runs whose adds are all secure no two cookies share name, domain, tail-match flag and path |
| CookieJar.InsecureAddMayDuplicate | lib/curl_src/lib/cookie.c:986-1008 | a run from the empty jar, two secure adds and an insecure one, that leaves two cookies with one key |
| CookieLookup.BucketScanIsFlatScan | lib/curl_src/lib/cookie.c:1271-1327 | reading one bucket finds what reading the whole jar finds if and only if no live cookie that applies is in another bucket |
| CookieLookup.IndexableHasNoStray | lib/curl_src/lib/cookie.c:1271-1327 | none is, when every cookie has a domain and every tail-matching domain has a dot and is no address |
| CookieLookup.SendableExactly | lib/curl_src/lib/cookie.c:1286-1305 | the tests of a lookup pass a cookie if and only if it is not past its expiry, is not secure or the channel is, its domain is the host or (tail-matching, no address) the host ends in a dot and it, and its path is the request's or a beginning of it before a slash, or has one character |
| CookieLookup.DotlessDomainIsMissed | lib/curl_src/lib/cookie.c:246-296 | after a file with one cookie is read into an empty jar, a lookup does not find that cookie though it is live and applies |
| CookieEngine.CookieInfo.RemoveExpired | lib/curl_src/lib/cookie.c:380-407 | the walk over all buckets drops exactly the expired cookies and counts them down |
| CookieEngine.CookieInfo.ClearSess | lib/curl_src/lib/cookie.c:1412-1446 | drops exactly the cookies without expiry |
| CookieEngine.CookieInfo.ClearAll | lib/curl_src/lib/cookie.c:1374-1384 | empties every bucket and the count |
| CookieEngine.CookieInfo.Settle | lib/curl_src/lib/cookie.c:966-1080 | the walk over one bucket replaces, refuses or appends as specified |
| CookieEngine.CookieInfo.Add | lib/curl_src/lib/cookie.c:906-1080 | an add keeps the invariants, reports whether the cookie was stored, and returns it as it stands in its bucket |
| CookieEngine.CookieInfo.Load | lib/curl_src/lib/cookie.c:1099-1165 | the loop over the lines of a file is a run: the jar not running, one add for each line that either parser accepts, expiry once at the end when the file could be opened |
| CookieEngine.CookieInfo.GetList | lib/curl_src/lib/cookie.c:1271-1365 | the list is sorted and holds exactly the cookies of the host's bucket that are to be sent, and exactly those of the whole jar when the domains are indexable; no expired one, and no secure one over an insecure channel |
| CookieEngine.CookieInfo.Output | lib/curl_src/lib/cookie.c:1505-1598 | drops the expired cookies and writes those with a domain, newest first, to the file |
| CookieFile.NextToken | lib/curl_src/lib/cookie.c:809-814 | the tokenizer skips delimiters and takes the text up to the next one |
| CookieFile.TokensOfJoin | lib/curl_src/lib/cookie.c:809-814 | tokenizing joined columns gives the non-empty ones back |
| CookieFile.ReadLine | lib/curl_src/lib/cookie.c:776-904 | the branch for file lines: columns, a missing path, the blank value, bad lines |
| CookieFile.SecureNeedsTrust | lib/curl_src/lib/cookie.c:852-861 | over an untrusted channel a line with a secure cookie is bad, and no other line makes one |
| CookieFile.ReadColumns | lib/curl_src/lib/cookie.c:813-893 | columns in order give the cookie they were made of back |
| CookieFile.RoundTrip | lib/curl_src/lib/cookie.c:1473-1495 | a cookie's line reads back as the same domain, flags, path, expiry, name and value if and only if the cookie is storable: clean fields, a domain a first column can hold, a path that is no boolean word, a fitting expiry and line length |
| CookieStore.SortNewest | lib/curl_src/lib/cookie.c:1216-1222 | sorting by age gives the same cookies, newest first |
| CookieStore.WriteFile | lib/curl_src/lib/cookie.c:1541-1576 | the loop writes the comment and a line for each cookie, in order |
| CookieStore.LinesFit | lib/curl_src/lib/cookie.c:1144-1158 | a line of 4999 characters or more is passed over; of a shorter one the parser decides |
| CookieStore.FileIsRead | lib/curl_src/lib/cookie.c:1144-1158 | a file written of storable cookies is read back as these, in order: comment and empty line give nothing, every other line its cookie |
| CookieStore.SavedComesBack | lib/curl_src/lib/cookie.c:1505-1598 | a whole jar of storable cookies, saved and loaded into an empty one: the same cookies with the same contents, nothing else, and the older one was the newer it is now |
| CookieStore.SecondSaveIsReversed | lib/curl_src/lib/cookie.c:1216-1222 | saved once more, the file holds the same cookies in the reverse order |
| Decimal.ReadPrinted | lib/curl_src/lib/cookie.c:863-866 | a printed expiry reads back if and only if it is not negative and fits 63 bits |
| Ascii.EqualNoCaseMeans | lib/curl_src/lib/strcase.c:180-193 | two texts compare equal if and only if they are the same but for small and capital letters |
| Ascii.HasPrefixNoCaseMeans | lib/curl_src/lib/strcase.c:203-222 | and the first of them compares equal up to its length if and only if the second begins so |
| GzipHeader.CheckGzipHeader | lib/curl_src/lib/content_encoding.c:358-433 | the routine finds the end of a header, or that it is bad, or that data is missing |
| GzipHeader.HeaderRecognised | lib/curl_src/lib/content_encoding.c:358-433 | every header of section 2.3 of RFC 1952, made of any of its sections under the flag byte 1 + 2 + 4 + 8 + 16 of those that are there, is recognised with its length, whatever follows |
| GzipHeader.RecognisedIsHeader | lib/curl_src/lib/content_encoding.c:358-433 | whatever is recognised is such a header |
| GzipHeader.BadExactly | lib/curl_src/lib/content_encoding.c:371-382 | ten bytes are refused if and only if no header begins with them |
| GzipHeader.NamedFileIsRecognised | lib/curl_src/lib/content_encoding.c:397-409 | 1f 8b 08 08, six bytes, a file name and a zero are a header of that length |
| GzipHeader.UnderflowIsShort | lib/curl_src/lib/content_encoding.c:358-433 | after ten bytes that are not refused the answer is "more" if and only if no complete header is there |
| GzipHeader.VerdictIsStable | lib/curl_src/lib/content_encoding.c:469-533 | more data does not change a verdict |
| GzipHeader.EndIsInNewPart | lib/curl_src/lib/content_encoding.c:507-527 | a header completed by new data ends in the new data |
| GzipWriter.FailureIsFinal | lib/curl_src/lib/content_encoding.c:121-134 | later data does not mend a failed stream |
| GzipWriter.GzipWriter.ProcessTrailer | lib/curl_src/lib/content_encoding.c:136-158 | up to the missing trailer bytes are taken; one more is a write error |
| GzipWriter.GzipWriter.InflateStream | lib/curl_src/lib/content_encoding.c:160-258 | zlib gets all input and all its output is delivered, up to the end or failure of the stream |
| GzipWriter.GzipWriter.GzipUnencodeWrite | lib/curl_src/lib/content_encoding.c:436-561 | after every piece the fields are those of the stage reached by all bytes so far, however they were cut |
| GzipWriter.UnencodeAll | lib/curl_src/lib/content_encoding.c:436-561 | result and output depend on the stream alone, not on how it is cut: inflate gets the stream without its header and trailer |
| EncodingStack.FindEncoding | lib/curl_src/lib/content_encoding.c:1016-1028 | the first coding with that name or alias, else the deferred error |
| EncodingStack.FoundExactly | lib/curl_src/lib/content_encoding.c:1016-1028 | what is found is the first coding whose name, or alias where there is one, is the name in any case of letters |
| EncodingStack.NextName | lib/curl_src/lib/content_encoding.c:1038-1051 | reading one name leaves the trimmed, non-empty names of the rest |
| EncodingStack.SingleRequest.BuildUnencodingStack | lib/curl_src/lib/content_encoding.c:1032-1080 | one stage is pushed for each name in order, none for "chunked" where that is allowed, which is noted |
| EncodingStack.StackIsReversed | lib/curl_src/lib/content_encoding.c:1062-1075 | from the top the stages are those of the names in reverse, above what was there, at last the client |
| EncodingStack.WrittenUndoes | lib/curl_src/lib/content_encoding.c:991-998 | stages that invert their codings undo the codings listed |
| EncodingStack.ClientGetsTheBody | lib/curl_src/lib/content_encoding.c:991-1080 | a body coded as its header says (section 3.1.2.2 of RFC 7231) reaches the client as it was |
| EncodingStack.UnknownCodingIsReported | lib/curl_src/lib/content_encoding.c:935-950 | data that reaches the stage of an unknown coding fails |
| EncodingStream.WriteAllAligns | lib/curl_src/lib/content_encoding.c:991-998 | after any writes every stage has been handed exactly what the one above it has decoded, however each stage cuts its output |
| EncodingStream.ClientGetsThePieces | lib/curl_src/lib/content_encoding.c:991-1080 | a body coded as its header says, cut into any pieces and cut anew by every stage, reaches the client as it was |
| EncodingStream.GzipIsStreaming | lib/curl_src/lib/content_encoding.c:436-561 | the gzip writer is such a stage for every header, and no beginning of a gzip body makes it fail |
| EncodingStream.MemberIsTaken | lib/curl_src/lib/content_encoding.c:136-158 | of header, deflate stream and what follows zlib gets the stream alone; eight bytes more complete it, with fewer the rest is waited for, a ninth is an error |
| EncodingStream.GarbageIsRefused | lib/curl_src/lib/content_encoding.c:487-515 | ten bytes that begin no header are refused |
| EncodingStream.StreamIsJudged | lib/curl_src/lib/content_encoding.c:160-258 | a stream that zlib cannot read is refused whatever follows; one it wants more of is handed on whole |
| GlobSet.ParseKeyword | lib/curl_src/lib/curl_fnmatch.c:72-126 | reads a class name and sets its flag, or fails |
| GlobBrackets.KeywordExactly | lib/curl_src/lib/curl_fnmatch.c:72-126 | a class is read where its name stands with ":]" behind it, and nowhere else |
| GlobSet.SetCharOrRange | lib/curl_src/lib/curl_fnmatch.c:141-160 | adds a character, or a range within one kind of characters |
| GlobSet.SetCharset | lib/curl_src/lib/curl_fnmatch.c:163-253 | fills the set as the grammar of brackets says, or finds it unclosed |
| GlobSet.InSetIsMeaning | lib/curl_src/lib/curl_fnmatch.c:304-334 | with at most one named class the test decides membership |
| GlobSet.InSetIsMeaningExactly | lib/curl_src/lib/curl_fnmatch.c:304-334 | in general it does if and only if the class looked at, with the characters listed, covers the other classes |
| GlobBrackets.ItemsAreRead | lib/curl_src/lib/curl_fnmatch.c:163-253 | a list of characters, ranges and named classes, escaped or not, is read as the set of these, up to its closing bracket; a dash between characters of different kinds or in the wrong order makes no range |
| GlobBrackets.BracketsAreRead | lib/curl_src/lib/curl_fnmatch.c:163-253 | the same for a whole bracket expression, negated or not |
| GlobBrackets.SetMeansItems | lib/curl_src/lib/curl_fnmatch.c:304-334 | the set read means what the items mean: a character listed, in a range or of a class, or none of these when negated |
| GlobBrackets.InSetIsHoldsExactly | lib/curl_src/lib/curl_fnmatch.c:304-334 | the matcher's test decides that for every character if and only if no class passed over holds a further one |
| GlobBrackets.OneClassReadsAsMeant | lib/curl_src/lib/curl_fnmatch.c:304-334 | with at most one class none is passed over |
| GlobBrackets.ClassesMean | lib/curl_src/lib/curl_fnmatch.c:304-334 | the ten classes by the characters in them |
| Fnmatch.MatchesIsLanguage | lib/curl_src/lib/curl_fnmatch.c:255-348 | matching one element at a time is splitting the string into one piece for each element |
| Fnmatch.Loop | lib/curl_src/lib/curl_fnmatch.c:255-348 | the matcher, with its recursion at stars, accepts if and only if the star groups fit the budget and the rest matches |
| Fnmatch.SkipGroup | lib/curl_src/lib/curl_fnmatch.c:266-286 | behind a star: the rest of the group, then every place to go on from |
| Fnmatch.PatternMeans | lib/curl_src/lib/curl_fnmatch.c:255-348 | a pattern is read as the parts it is written from, and its language is theirs when every set reads as it is meant |
| Fnmatch.CurlFnmatch | lib/curl_src/lib/curl_fnmatch.c:353-361 | a match if and only if the pattern has at most two groups with stars and the string is in its language, which is the declared one of its parts when no set passes over a class that matters |
| Fnmatch.SetMeansExactly | lib/curl_src/lib/curl_fnmatch.c:301-340 | a bracket expression alone matches the characters it is meant to if and only if it passes over no class that matters |
| Fnmatch.TwoClasses | lib/curl_src/lib/curl_fnmatch.c:304-334 | "[[:alpha:][:digit:]]" is meant to match "5" and does not |
| Fnmatch.UnclosedNeverMatches | lib/curl_src/lib/curl_fnmatch.c:301-340 | a pattern with an unclosed set matches nothing |
| Resolver.StepKeepsInvariant | lib/curl_src/lib/asyn-thread.c:295-343 | every step of thread or parent keeps who owns the shared data, who may free it, and what its flags mean |
| Resolver.CleanedUpOnce | lib/curl_src/lib/asyn-thread.c:381-425 | in every interleaving the shared data is destroyed and freed at most once, and exactly once when both are through; an address list is handed over or freed, once |
| Resolver.FoundIsDelivered | lib/curl_src/lib/asyn-thread.c:272-284 | in every interleaving with a started thread, when both are through, the list the resolver found was handed over if the parent neither cancelled nor waited without asking for it, and else it was freed; meanwhile neither is done wrongly |
| Resolver.CallEnds | lib/curl_src/lib/asyn-thread.c:518-640 | once the thread has ended every call of the parent comes to its end by at most eleven of its own moves, with the list handed over to a poll or a wait for it, and freed by the others |
| Resolver.ThreadIsReleasedOnce | lib/curl_src/lib/asyn-thread.c:381-412 | a started thread is joined or detached at most once, and once when both are through |
| Resolver.ParentTakesSettledResult | lib/curl_src/lib/asyn-thread.c:595-624 | when the parent takes the result the thread no longer works on it |
| Resolver.NobodyIsStuck | lib/curl_src/lib/asyn-thread.c:518-551 | while a call is in progress someone can move |
| Resolver.ReadEndClosedUnlessCopyFails | lib/curl_src/lib/asyn-thread.c:219-270 | the read end of the socket pair is closed if and only if the host name could be copied |
| Resolver.OnlyTheHandleReadIsStale | lib/curl_src/lib/asyn-thread.c:381-425 | the only access to freed data is the handle read, if and only if the parent detaches after the thread has ended |
| Resolver.EarlyReadIsSafe | lib/curl_src/lib/asyn-thread.c:395-402 | with the handle read in the locked section nothing freed is accessed |
| Resolver.HandleReadCanBeStale | lib/curl_src/lib/asyn-thread.c:401 | an interleaving with the access |
| Connect.SkipTo | lib/curl_src/lib/connect.c:556-567 | the next entry of the family, with none of it passed over |
| Connect.TryNextConserves | lib/curl_src/lib/connect.c:571-603 | a retry conserves sockets, leaves the other candidate alone, and closes the failed socket last |
| Connect.ConnectHostConserves | lib/curl_src/lib/connect.c:1323-1377 | the first attempts conserve sockets; on failure none is open |
| Connect.PollConserves | lib/curl_src/lib/connect.c:828-1028 | a poll conserves sockets; once connected or given up no candidate is left |
| Connect.SocketsAreConserved | lib/curl_src/lib/connect.c:828-1028 | over every connection each socket made is closed, a candidate, or the connection's own, and only one of these; in the end only the connection's own is open |
| Connect.AddressesTriedInOrder | lib/curl_src/lib/connect.c:556-603 | when attempts only fail to connect, each family's addresses are tried in list order, none twice, none passed over, and both to the end before giving up |
| ConnectRepeats.AddressesTriedOnceExactly | lib/curl_src/lib/connect.c:869-1028 | on every network: the first family is tried in list order, none twice or passed over; the second in list order, none passed over, none more than twice, and none twice if and only if no poll falls back to it while it is stalled |
| ConnectRepeats.AddressRepeatsExactly | lib/curl_src/lib/connect.c:584-597 | a retry leaves its candidate stalled if and only if, of the attempts that are next, the first that does not fail to connect ends early; the next retry then begins at the same address |
| ConnectRepeats.NoSocketNoChange | lib/curl_src/lib/connect.c:869-871 | a poll with neither candidate under way tries nothing and reports nothing |
| ConnectRepeats.AbortedAddressIsTriedAgain | lib/curl_src/lib/connect.c:984-995 | a connection that tries one address twice |
| ConnectWinner.PollConnectsExactly | lib/curl_src/lib/connect.c:919-948 | a poll connects if and only if the first candidate's socket is seen connected, or else the second's, which may have been started in this poll; that socket becomes the connection's and no candidate is left |
| ConnectWinner.ConnectsExactly | lib/curl_src/lib/connect.c:828-1028 | a whole connection is made if and only if the first round goes well and some poll finds a winner, whose socket it has |
| ConnectWinner.FirstAddressConnects | lib/curl_src/lib/connect.c:919-948 | when the first address is under way, and connected after any wait, the connection has its socket and nothing else was tried |
| ConnectWinner.SecondIsStarted | lib/curl_src/lib/connect.c:912-918 | when the first family has had its time the second is started beside it, at its cursor, and only once |
| ConnectWinner.NotParallelYet | lib/curl_src/lib/connect.c:1323-1377 | after the first round it has not been |
| ConnectWinner.FailedGoesOn | lib/curl_src/lib/connect.c:953-983 | a candidate that fails, or whose time is up, goes on with the next address of its family |
| ConnectLost.HostIsLostExactly | lib/curl_src/lib/connect.c:1323-1377 | the first round, over both families, reports no error with no candidate if and only if, of all addresses, the first whose attempt is no error cannot be printed |
| ConnectLost.PollIsLostExactly | lib/curl_src/lib/connect.c:869-1028 | a poll with a candidate under way ends without one and without an error if and only if the last candidate goes on to an address that cannot be printed: the first beside no second, the second beside no first, or the second as it is fallen back to |
| ConnectLost.LostExactly | lib/curl_src/lib/connect.c:828-1028 | over every connection, on every network, no error is reported with nothing under way if and only if the first round or some poll is lost so |
| ConnectLost.UnprintableLeavesNothing | lib/curl_src/lib/connect.c:1152-1159 | with an unprintable address in front nothing else is ever tried and nothing reported |
| ConnectLost.ThirdIsNeverTried | lib/curl_src/lib/connect.c:1362-1370 | three addresses of which the first refuses, the second cannot be printed, and the third is never tried |
| ConnectLost.RetryIsLost | lib/curl_src/lib/connect.c:571-603 | a candidate that times out, goes on to an unprintable address and is lost |
| ConnectEngine.ConnectData.AiNext | lib/curl_src/lib/connect.c:556-567 | moves one cursor to the next entry of its family, and nothing else |
| ConnectEngine.ConnectData.SingleIpConnect | lib/curl_src/lib/connect.c:1126-1315 | records the attempt; the socket is a candidate or closed |
| ConnectEngine.ConnectData.TryNextIp | lib/curl_src/lib/connect.c:571-603 | the retry loop does what is specified |
| ConnectEngine.ConnectData.ConnectHost | lib/curl_src/lib/connect.c:1323-1377 | the loop over both families does what is specified |
| ConnectEngine.ConnectData.IsConnected | lib/curl_src/lib/connect.c:869-1028 | the loop over both candidates does what is specified |
| Sasl.ContinueDescends | lib/curl_src/lib/curl_sasl.c:418-642 | every call keeps one accepted, preferred mechanism in use and brings the end nearer, whatever the server answers and whatever fails |
| Sasl.DialogueEnds | lib/curl_src/lib/curl_sasl.c:418-642 | a dialogue is over after at most four calls for each enabled mechanism |
| Sasl.XorRemoves | lib/curl_src/lib/curl_sasl.c:608-609 | the exclusive or with the mechanism in use removes it |
| Sasl.DoneMeansFinalCode | lib/curl_src/lib/curl_sasl.c:449-462 | a login succeeds if and only if the server's final code comes in a state that waits for it |
| Sasl.PickIsHead | lib/curl_src/lib/curl_sasl.c:284-392 | the chain of tests picks the first usable mechanism by decreasing order of security |
| Sasl.MechanismsInOrder | lib/curl_src/lib/curl_sasl.c:256-411 | over a dialogue the mechanisms tried are the usable ones in that order up to some point, none twice, none passed over |
| Sasl.GivesUpExactly | lib/curl_src/lib/curl_sasl.c:607-635 | a fallback reports nothing to try if and only if nothing is left or the next mechanism met an encoding error |
| Sasl.LoginIsLeftUntried | lib/curl_src/lib/curl_sasl.c:607-635 | a dialogue that ends with a usable mechanism never tried |
| SaslDialogue.DialogueLength | lib/curl_src/lib/curl_sasl.c:367-600 | when nothing fails a login succeeds if and only if the server accepts after it has asked for all messages of the mechanism not sent with the command: PLAIN 1, LOGIN 2, EXTERNAL 1, CRAM-MD5 1, DIGEST-MD5 2, NTLM 2, GSSAPI 2, XOAUTH2 1, OAUTHBEARER 1 and optionally one more |
| SaslDialogue.FallbackLength | lib/curl_src/lib/curl_sasl.c:607-613 | after a cancellation the same holds of the next mechanism |
| SaslDialogue.ForceIrIsKept | lib/curl_src/lib/curl_sasl.c:282 | whether an initial response is forced is settled at the start for the whole dialogue |
| SaslDialogue.StartSetsForceIr | lib/curl_src/lib/curl_sasl.c:282 | and it is what the caller asked for |
| SaslDialogue.NothingToStart | lib/curl_src/lib/curl_sasl.c:282-285 | with nothing to choose from nothing is sent and no mechanism is in use |
| SaslDialogue.WhatFailuresDo | lib/curl_src/lib/curl_sasl.c:621-634 | a message that cannot be encoded cancels the mechanism, another failure ends the dialogue, what sending reports is passed on; the two fixed answers do not depend on the message |
| SaslDialogue.FallbackFails | lib/curl_src/lib/curl_sasl.c:607-634 | a fallback whose first message cannot be encoded is cancelled in turn; when its command cannot be sent the dialogue ends |
| SaslDialogue.OtherCodesRefuse | lib/curl_src/lib/curl_sasl.c:457-462 | any other answer where one is asked for is a refusal |
| SaslDialogue.DoneMeansStopped | lib/curl_src/lib/curl_sasl.c:449-640 | what is over has stopped |
| SaslDialogue.NeverUnsupported | lib/curl_src/lib/curl_sasl.c:615-618 | no dialogue comes to a state the build has no code for, or to the third step of GSSAPI |
| SaslDialogue.NameEnds | lib/curl_src/lib/curl_sasl.c:120-140 | a mechanism's name ends at the end of the text or before a character that is no capital, digit, dash or underscore |
| Sasl.DecodeMech | lib/curl_src/lib/curl_sasl.c:120-141 | the mechanism found is the only one whose name the text begins with and ends there |
| SaslEngine.SaslData.constructor | lib/curl_src/lib/curl_sasl.c:180-190 | the initial record |
| SaslEngine.SaslData.ParseUrlAuthOption | lib/curl_src/lib/curl_sasl.c:148-173 | accepted if and only if "*" or the exact name of a mechanism; the first option replaces the defaults |
| SaslEngine.SaslData.Start | lib/curl_src/lib/curl_sasl.c:256-411 | chooses, sends and sets the state as specified |
| SaslEngine.SaslData.Continue | lib/curl_src/lib/curl_sasl.c:418-642 | answers the server as specified |
| DotDot.Dedotdotify | lib/curl_src/lib/dotdot.c:53-178 | the output buffer holds the path with dot segments removed (section 5.2.4 of RFC 3986), the untouched query and a terminator, within the input's size |
| DotDot.Round | lib/curl_src/lib/dotdot.c:91-168 | each round of the pointer loop is one of the RFC's, within the buffers; the clearing of the output happens only when it is empty |
| DotDot.Truncate | lib/curl_src/lib/dotdot.c:126-132 | takes the last segment and its slash off the output |
| DotDot.RemoveDots | lib/curl_src/lib/dotdot.c:91-168 | output and remaining input together never grow |
| DotSegments.RemoveDotsIsWalk | lib/curl_src/lib/dotdot.c:91-168 | the character loop is a walk over whole segments with a stack |
| DotSegments.NoDotSegments | lib/curl_src/lib/dotdot.c:91-168 | the result has no "." or ".." segment |
| DotSegments.UnchangedExactly | lib/curl_src/lib/dotdot.c:91-168 | a path is unchanged if and only if it has none |
| DotSegments.Idempotent | lib/curl_src/lib/dotdot.c:91-168 | doing it twice is doing it once |
| DotSegments.StaysAbsolute | lib/curl_src/lib/dotdot.c:91-168 | an absolute path stays absolute |
| Base64.Regroup | lib/curl_src/lib/base64.c:235-240 | three bytes and their four digits are one 24-bit number (section 4 of RFC 4648) |
| Base64.RoundTrip | lib/curl_src/lib/base64.c:107-279 | decoding the encoding of a non-empty byte string gives it back |
| Base64.ReencodeExactly | lib/curl_src/lib/base64.c:107-279 | encoding an accepted text's bytes gives the text back if and only if its unused bits are zero |
| Base64.EncodedLength | lib/curl_src/lib/base64.c:205 | four characters for every three bytes begun, and with the terminator no more than is allocated |
| Base64.DecodedLength | lib/curl_src/lib/base64.c:142-149 | the number of bytes is what is allocated |
| Base64.TableIsDigits | lib/curl_src/lib/base64.c:45-51 | the tables list the digits in order |
| Base64Codec.Encode | lib/curl_src/lib/base64.c:178-279 | the loops fill the buffer with the encoding and its terminator |
| Base64Codec.DecodeQuantum | lib/curl_src/lib/base64.c:53-91 | four characters become up to three bytes, whatever they are and wherever '=' stands among them; the result tells how many, 0 for a character that is no digit, and wraps around for four '=' |
| Base64Codec.Decode | lib/curl_src/lib/base64.c:107-176 | accepts if and only if the text is non-empty, a multiple of four long, and digits but for up to two '=' at its end; the buffer holds the bytes and a zero |
| Events.SelectIsChosen | lib/telebot_Capi/events.c:246-323 | an update has exactly one chosen slot, the lowest for its command, else the highest general one of its type, else slot 0, and that has a handler |
| Events.FirstCommandWins | lib/telebot_Capi/events.c:260-285 | the lowest slot that names a message's command gets it |
| Events.LastGeneralWins | lib/telebot_Capi/events.c:280-302 | otherwise the highest slot for all updates of its type does |
| Events.DefaultOtherwise | lib/telebot_Capi/events.c:306-316 | and with none of these slot 0 |
| Events.ApplyKeepsValid | lib/telebot_Capi/events.c:102-235 | no operation leaves a used slot, or slot 0, without a handler |
| Events.AddFailsExactly | lib/telebot_Capi/events.c:102-139 | adding fails, and changes nothing, if and only if there is no handler, the type is the free mark, or no slot is free |
| Events.AddMeans | lib/telebot_Capi/events.c:102-139 | a successful add puts event and handler into the lowest free slot, or the handler into slot 0 |
| Events.ModifyMeans | lib/telebot_Capi/events.c:153-189 | a change succeeds if and only if there is a handler and a slot with the event, and gives the lowest such slot the handler |
| Events.RemoveMeans | lib/telebot_Capi/events.c:202-235 | a removal succeeds if and only if it is of the default or there is a slot with the event, and frees the lowest |
| Events.RoomForNineteen | lib/telebot_Capi/events.c:102-139 | at first there is room for nineteen handlers; each takes one place, is taken as long as one is left, and gives it back when it is removed |
| Events.AddedCommandIsReached | lib/telebot_Capi/events.c:102-139 | a command added once goes to its handler |
| Events.RemoveUndoesAdd | lib/telebot_Capi/events.c:202-235 | removing what was added gives every update its handler back |
| Events.UnknownGoesToDefault | lib/telebot_Capi/events.c:260-317 | updates of unknown type go to slot 0 whatever is registered |
| EventEngine.Notifiers.constructor | lib/telebot_Capi/events.c:78-90 | at first every update goes to slot 0 |
| EventEngine.Notifiers.AddUpdateNotifier | lib/telebot_Capi/events.c:102-139 | the scan takes the first free slot |
| EventEngine.Notifiers.ModifyUpdateNotifier | lib/telebot_Capi/events.c:153-189 | the scan changes the handler of the first slot with the event |
| EventEngine.Notifiers.RemoveUpdateNotifier | lib/telebot_Capi/events.c:202-235 | the scan frees the first slot with the event |
| EventEngine.Notifiers.FindUpdateHandler | lib/telebot_Capi/events.c:246-323 | the scan returns the handler of the chosen slot, never none |
| Polling.ExactlyOnceInOrder | lib/telebot_Capi/tbc_polling.c:279-369 | in every run of arrivals, failures, answers and handler changes the updates handled are the first of the server's, each once, in order, each with a handler; the queue holds at most the report waited for |
| Polling.ChosenHandlers | lib/telebot_Capi/tbc_polling.c:279-369 | while the handlers are not changed every update goes to the handler of the slot chosen for it |
| Polling.OffsetNeverDecreases | lib/telebot_Capi/tbc_polling.c:494-502 | no step takes the offset back |
| Polling.CatchesUp | lib/telebot_Capi/tbc_polling.c:446-508 | a round answered with all that is pending leaves nothing unhandled |
| Polling.MovesOnExactly | lib/telebot_Capi/tbc_polling.c:368 | a round moves past its updates if and only if the last is not number 0 |
| Polling.UpdateZeroIsHandledAgain | lib/telebot_Capi/tbc_polling.c:368 | a log with one update numbered 0, which two rounds handle twice |
| Polling.BlockedForever | lib/telebot_Capi/tbc_polling.c:258-263 | once blocked, the poller handles nothing and asks nothing any more |
| Polling.BlockedExactly | lib/telebot_Capi/tbc_polling.c:258-263 | a run blocks the poller if and only if a request is answered with "not ok" while the poller asks |
| Polling.RefusedOnce | lib/telebot_Capi/tbc_polling.c:258-263 | from the beginning, one refused request, and nothing that comes later is ever handled |
| PollEngine.Parse | lib/telebot_Capi/tbc_polling.c:279-369 | the parser's loop gives each update to the handler chosen for it and reports one past the last |
| PollEngine.Poller.Poll | lib/telebot_Capi/tbc_polling.c:446-508 | the poller's loop asks from the offset the replies lead to, and has handled their updates in order |
| PollEngine.LoopsFollowTheProtocol | lib/telebot_Capi/tbc_polling.c:446-508 | against any server, with updates that arrive between requests, lost requests, refusals and missing parser threads, the loops do what the state machine does: the same updates handled, the same offset, waiting or ended alike |
| Decimal.LeadingZero | lib/telebot_Capi/tbc_polling.c:498 | a report begins with '0' if and only if it is 0 |
| ConnCache.AddKeeps | lib/curl_src/lib/conncache.c:230-269 | adding counts one more and points the connection to its bundle |
| ConnCache.RemoveKeeps | lib/curl_src/lib/conncache.c:279-304 | removing counts one less, or does nothing without a bundle pointer, so nothing is subtracted twice |
| ConnCache.ExtractKeeps | lib/curl_src/lib/conncache.c:87-104 | an extracted connection leaves its list, the counts and its pointer, and nothing else; its bundle stays |
| ConnCache.ScanFinds | lib/curl_src/lib/conncache.c:495-520 | the scan finds the first of the longest idle that qualify, none if and only if all were last used in the future |
| ConnCache.OldestIsExtracted | lib/curl_src/lib/conncache.c:477-532 | the longest idle connection of the whole cache is taken out, or there is none |
| ConnCache.FutureIsNotFound | lib/curl_src/lib/conncache.c:500-513 | a cache with one idle connection, last used one tick ahead, of which none is found |
| ConnCache.BundleIsExtracted | lib/curl_src/lib/conncache.c:429-467 | the same within a bundle |
| ConnCache.ReturnKeepsLimit | lib/curl_src/lib/conncache.c:394-419 | a return over the limit closes one idle connection, and says whether the returned one is still cached |
| ConnCache.AllAreClosed | lib/curl_src/lib/conncache.c:534-568 | closing ends with no connection, no count and no pointer; bundles empty before remain |
| ConnCache.RunConserves | lib/curl_src/lib/conncache.c:230-568 | after every run the total is the number of listed connections and of bundle pointers, every count is its list's length, and pointers and lists agree both ways |
| ConnCacheEngine.ConnCacheData.AddConn | lib/curl_src/lib/conncache.c:230-269 | finds or makes the bundle and appends |
| ConnCacheEngine.ConnCacheData.UnlinkFrom | lib/curl_src/lib/conncache.c:87-104 | takes the connection out of the list and reports whether it was there |
| ConnCacheEngine.ConnCacheData.RemoveConn | lib/curl_src/lib/conncache.c:279-304 | drops the bundle when it was the last |
| ConnCacheEngine.ConnCacheData.ExtractBundle | lib/curl_src/lib/conncache.c:429-467 | the loop over one list takes the longest idle |
| ConnCacheEngine.ConnCacheData.ExtractOldest | lib/curl_src/lib/conncache.c:477-532 | the loops over all lists take the longest idle |
| ConnCacheEngine.ConnCacheData.ReturnConn | lib/curl_src/lib/conncache.c:394-419 | returns as specified |
| ConnCacheEngine.ConnCacheData.CloseAllConnections | lib/curl_src/lib/conncache.c:534-568 | the loop ends, with no connection left |
| AltSvc.LookupFinds | lib/curl_src/lib/altsvc.c:613-645 | the earliest entry whose expiry is not past, of the same protocol, port and host, and with a wanted version; none if and only if there is none; only expired entries before it are dropped |
| AltSvc.ParseReplacesOrigin | lib/curl_src/lib/altsvc.c:447-475 | a header whose first token can be read replaces all of its origin; other origins are untouched |
| AltSvc.LatestHeaderWins | lib/curl_src/lib/altsvc.c:447-645 | over every run what is cached for an origin is what its last such header announced, in order, less entries that had expired at a lookup |
| AltSvc.Announced | lib/curl_src/lib/altsvc.c:477-608 | every entry is of the header's origin and of a known protocol |
| AltSvcParams.AgeIsTaken | lib/curl_src/lib/altsvc.c:564-570 | a number of seconds given for "ma", quoted or not, is the age |
| AltSvcLine.NumberExactly | lib/curl_src/lib/altsvc.c:564 | what strtoul reads: white space, a sign, digits; 64 bits, saturating, a minus sign modulo two to the power of 64 |
| AltSvcLine.AgeExactly | lib/curl_src/lib/altsvc.c:563-570 | a parameter "ma" sets the age to the number it begins with, negative from two to the power of 63 on, and the largest number not at all |
| AltSvcLine.PersistExactly | lib/curl_src/lib/altsvc.c:563-570 | a parameter "persist" makes the alternative persistent if and only if it begins with the number 1 |
| AltSvcLine.OthersCountForNothing | lib/curl_src/lib/altsvc.c:563-570 | other names, and values that are no numbers, count for nothing |
| AltSvcLine.MissingValueAborts | lib/curl_src/lib/altsvc.c:527-547 | a parameter without a value drops the alternative and all behind it |
| AltSvcLine.NoPortBehindColon | lib/curl_src/lib/altsvc.c:512-518 | a colon without a port behind it is refused |
| AltSvcParams.OrderlyIsRead | lib/curl_src/lib/altsvc.c:524-571 | parameters with any names, quoted or not, are read to their end when no unquoted value is behind a quoted one |
| AltSvcParams.DisorderlyIsRead | lib/curl_src/lib/altsvc.c:548-561 | otherwise they are read up to the first such value, which ends at the next quote or aborts the header |
| AltSvcFormat.HeaderIsRead | lib/curl_src/lib/altsvc.c:447-608 | what every header in the form of section 3 of RFC 7838 does, ports left out or too large, hosts or names too long, "clear" and any quoted text included: all alternatives are read up to the first whose name is too long or which is disorderly, and of that one up to its stray value |
| AltSvcFormat.DisorderlyServiceIsRead | lib/curl_src/lib/altsvc.c:524-608 | a disorderly alternative is read up to its stray value, and reading is taken up behind the next quote, whatever stands there; without one it is dropped |
| AltSvcFormat.ReadAsWrittenExactly | lib/curl_src/lib/altsvc.c:447-608 | what is read is what is written if and only if every alternative that is heard gets the port meant, and all alternatives are orderly or the first that is not ends what is heard and loses nothing that counts |
| AltSvcFormat.OrderlyIsAsWritten | lib/curl_src/lib/altsvc.c:447-608 | a header of orderly alternatives with ports is read as written |
| AltSvcLine.LineIsRead | lib/curl_src/lib/altsvc.c:524-608 | a header of orderly alternatives means the same at the end of a line, and with a semicolon before that |
| AltSvcFormat.QuotedAgeLosesAll | lib/curl_src/lib/altsvc.c:548-561 | the header `h2=":443"; ma="10"; persist=1` flushes its origin and announces nothing |
| AltSvcFormat.QuotedAgeIsSaved | lib/curl_src/lib/altsvc.c:548-561 | with `; x="y"` behind it, it is read as written though it is not orderly |
| AltSvcFormat.PortIsCarriedOver | lib/curl_src/lib/altsvc.c:512-521 | in every header an alternative without a port gets the last one written before it, in its low 16 bits even when refused, or the origin's when there is none; so it is at the origin's port if and only if there is none or it counts the same |
| AltSvcFormat.PortlessIsAt8443 | lib/curl_src/lib/altsvc.c:512-521 | `h2=":8443", h3="b.c"` announces both at port 8443, whatever the origin's port |
| AltSvcEngine.TokenAt | lib/curl_src/lib/altsvc.c:379-397 | the token under the cursor and where it ends, also when it is refused |
| AltSvcEngine.TargetAt | lib/curl_src/lib/altsvc.c:491-523 | host, port and quote under the cursor |
| AltSvcEngine.OptionsAt | lib/curl_src/lib/altsvc.c:524-571 | the loop over the options |
| AltSvcEngine.AltSvcInfo.Flush | lib/curl_src/lib/altsvc.c:401-416 | removes exactly the origin's entries |
| AltSvcEngine.AltSvcInfo.Parse | lib/curl_src/lib/altsvc.c:447-608 | the parser ends and does what is specified |
| AltSvcEngine.AltSvcInfo.Lookup | lib/curl_src/lib/altsvc.c:613-645 | the walk does what is specified |
| DynBuf.Doubled | lib/curl_src/lib/dynbuf.c:90-93 | doubling stops below twice what is needed |
| DynBuf.AppendKeeps | lib/curl_src/lib/dynbuf.c:65-113 | text and terminator fit limit and allocation; the allocation is below twice the limit, or 32 |
| DynBuf.AppendsExactly | lib/curl_src/lib/dynbuf.c:65-113 | after every run an append succeeds if and only if text, piece and terminator fit the limit, and the memory unless more is to be had; it starts at 32 or what is needed and doubles; on failure text and memory are given up |
| DynBuf.ResetKeepsMemory | lib/curl_src/lib/dynbuf.c:119-127 | a reset leaves the memory, a free does not |
| DynBuf.RunIsConcatenation | lib/curl_src/lib/dynbuf.c:65-127 | after every run the text is what was appended since the last reset, free or failure |
| DynBuf.GrowthIsLinear | lib/curl_src/lib/dynbuf.c:82-106 | all allocations of one life sum to at most twice the last, linear in the most ever held |
| DynBufEngine.DynBufData.NAppend | lib/curl_src/lib/dynbuf.c:65-113 | the memory holds the text and a zero, or is given up |
| DynBufEngine.DynBufData.Reset | lib/curl_src/lib/dynbuf.c:119-127 | the text goes, the memory stays |

## Left out

- Strings are ASCII without a zero character; where the C code works on a buffer with its terminator (`dotdot.c`,
  `base64.c`, `dynbuf.c`, `curl_fnmatch.c`) the terminator is modelled.
- Linked lists (cookies, connections, alternatives) are sequences: order and membership are modelled, not the pointers.
  Connections and bundles are named by a number and by their key, and the bundle pointers are a map.
- Resolver: a state machine on values, because the steps of two threads interleave; the platform without threads,
  `gethostbyname` and failures before the socket pair exists are not modelled.
- Failing allocations, except in the resolver and the buffer.
- Cookies: the parsing of `Set-Cookie` headers and dates (a parsed record is the input), the public suffix list (its
  verdict is an input), the overflow of the creation counter.
- CookieFile.RoundTrip: lines that begin with `Set-Cookie:` are read as headers and are not covered.
- CookieEngine.CookieInfo.Load: what is made of the text of a `Set-Cookie:` line is a parameter.
- CookieEngine.CookieInfo.Output: the temporary file, its renaming and failing writes.
- DotDot.Dedotdotify: an input that begins with '?' is outside its domain: the loop, which runs once before it looks,
  would copy the query as a path, and the query appended behind that would not fit the buffer. The one caller passes paths
  without a query (`urlapi.c:880`).
- Content decoding: zlib is taken as given, as any decoder that says where its stream ends; a zlib that reads gzip
  headers itself, the restart of raw deflate, Brotli and Zstandard, and the check of the trailer's contents are not modelled.
- Fnmatch.CurlFnmatch: sets that begin with a plain ']' are in the language of what is read, but not in the declared
  one, where that character is escaped.
- AltSvcFormat.ReadAsWrittenExactly: where a quote is missed, other quoted values than tokens are not covered, since
  an alternative could be read out of the middle of one; `AltSvcFormat.HeaderIsRead` covers them.
- Connect: one outcome of each attempt stands for socket options, binding, callbacks and `connect()`; time-outs of the
  whole connection, the mapping of the last error to a time-out, proxies, SOCKS, QUIC and the second socket are not modelled.
- SASL: message builders and the sending functions are outcomes; flag bits without a mechanism; the mapping to GSSAPI,
  NTLM and SSPI.
- Base64: the conversion to a network character set; `insize` 0 stands for an empty text.
- PollEngine.LoopsFollowTheProtocol: handlers are not changed while the loops run; `Polling` has such changes.
- Polling: HTTP, JSON, printing and signals; update identifiers past 63 bits; a blocking read that a signal interrupts;
  handler changes during a scan (each is one step).
- EventEngine.Notifiers.FindUpdateHandler: a poll update while an event names a poll is outside its domain, since the
  code then formats into a null pointer (`events.c:291`); texts too long for a slot.
- Connection cache: the hash of keys, the lock, `multiuse`, identifiers; a connection's idle state is an input, and the
  place of a new bundle in the walk is arbitrary.
- Alt-Svc: loading and saving the file, the overflow of a sum of times.
- DynBuf: sizes near the end of the address range, `Curl_dyn_tail` and formatted printing.
- `curl_range.c`, platform configuration, character tables, the demonstration programs and old copies: nothing to prove there
  that a reader would not see.
