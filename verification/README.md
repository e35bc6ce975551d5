# Verified models of an edge ability framework

The framework starts and supervises "abilities" and services on a group of devices: it routes
requests with a URL library, finds peers over multicast DNS, runs work on a thread pool, restarts
services that exit, picks packages by semantic version, and keeps heartbeats in a sharded map. This
project models the parts of it whose correctness rests on state, loops or offset arithmetic, and
proves what they promise for all inputs or all runs.

`dafny verify dfyconfig.toml` checks everything.

| file | what it holds |
|---|---|
| `Wrappers.dfy` | optional values and results that may be an exception |
| `Decimal.dfy` | decimal text of numbers, shared by the modules that print or read them |
| `UrlRecord.dfy` | a URL as a plain record, its serialisation and its eight 32-bit offsets |
| `PercentEncoding.dfy` | percent-encoding of the bytes that a character set marks, and decoding |
| `UrlAggregator.dfy` | the URL as one buffer with offsets, and its setters, proved to refine the record |
| `UrlComponents.dfy` | the URL kept as separate strings: `get_href`, `get_components`, `fast_digit_count` |
| `DnsName.dfy` | reading compressed names: skip, extract, equal |
| `DnsEncoding.dfy` | writing names and pointers, and the round trip |
| `DnsMessage.dfy` | the record reader |
| `DnsAnswer.dfy` | the DNS-SD answer writer |
| `DnsRoundTrip.dfy` | what the reader sees in the packet the writer sends |
| `ThreadPool.dfy` | the thread pool as a state machine over all interleavings |
| `Generator.dfy` | nested coroutine generators as linked promises on the heap |
| `ServiceLifecycle.dfy` | service restarts and health checks over all event sequences |
| `Semver.dfy`, `SemverRange.dfy` | versions, ranges, and the evaluator of ranges |
| `ShardedMap.dfy`, `Heartbeats.dfy` | the sharded map and its client, the heartbeat table |
| `AbilitySpec.dfy` | the recursive JSON codec of ability specifications |
| `Multiaddr.dfy` | peer addresses |
| `CppLiteral.dfy` | the C++ string-literal emitter |

Objects that the program updates in place are classes here, and loops over buffers are methods over
arrays; each is proved against a function of the old state, and the properties are proved about those
functions. What comes from outside (sockets, clocks, launches, probes, acceptance by another module)
is a parameter.

## What was found

These promises do not hold as stated. The model keeps the code as it is; theorems over all inputs say when
each holds, and most come with an input at which it does not.

- `has_dash_dot` takes a port of one digit for "/." (`HasDashDotExactly`). `update_base_pathname` then
  removes the port's text (`OneDigitPortLooksLikeDashDot`: http://h:8/ab). When it writes a new "/."
  in front of a search or a hash it replaces the wrong stretch (`StrandedSearch`: foo:/a?q), and in front
  of a path too short for the test it writes a second one (`SecondDashDot`: foo:/./).
  `UpdateBasePathname` says precisely when the state stays valid and what it is otherwise.
- `append_base_username` compares an offset that has moved with one that has not, and leaves out the "@"
  when the text appended is as long as the host (`AppendedIsWellFormedWhen`,
  `AppendedNameRunsIntoTheHost`: "xyz" on http://abc/). All credential setters take an "@" at the start
  of the host or the path for the separator (`CredentialsAreSettledWhen`).
- `url::get_components` puts the end of the host one byte early when there is a host
  (`OffsetsCutTheHost`, `HostIsCutShort`), leaves the end of the user name at zero when there is none,
  and counts a port that `get_href` does not print (`OffsetsCutTheHref`).
- The walk over a DNS name ends if and only if it ends within as many labels as the message has bytes
  (`EndsWithinItsLength`); a label followed by a pointer to itself is never left. A pointer to a pointer
  is read as a label of 192 bytes or more, and offsets above 0x3FFF do not fit a pointer
  (`PointerKeepsFourteenBits`).
- Names and records are read beyond the end of the message, by one byte for a name: exactly when
  (`SkipReadsInside`, `DecodeReadsInside`, `RecordReadsInside`), when nothing but plain labels is left
  (`SkipsOutsideWhen`) or the pointers lead to such a place (`DecodesOutsideWhen`), and for instance in
  the message of the bytes 1 and 65 (`LabelWithoutEndIsReadPast`).
- Comparing with a DNS label is equality up to case if and only if it has no NUL before its last byte
  (`CompareIsExactWhen`, `MatchIsExactWhen`, `NulHidesTheRestOfALabel`).
- `mdns_string_make_with_ref` stores through a null pointer exactly when the name with its zero byte does
  not fit, and `mdns_query_answer` stores outside its buffer exactly when the size guard is passed and
  the size lies in the gap of the SRV record (`QueryAnswer`, `FiftyFiveBytesAreOverrun`); no size from
  `BigBufferIsEnough` on is in it.
- A thread pool of no workers drops what was accepted when it is destroyed
  (`DestructorWaitsForEveryTask`, `NoWorkersDropATask`).
- A run of digits in a version is read as its value exactly if that fits sixteen bits
  (`NumberIsReadRight`); with ten digits and more a wrong number can be accepted
  (`TwoToThe32ReadsAsZero`). `from_chars` looks behind its text exactly when that is a version and then a
  prerelease name that is cut short (`LooksBehindWhen`, `ShortNameIsReadPast`: 1.2.3-r). The lexer of
  ranges never returns from a character it does not know (`LexerHangsWhen`, `StarHangs`): on known
  characters evaluation always ends (`KnownTextsEnd`), and behind a range as written an unknown one makes
  it hang exactly when the answer is not settled before (`UnknownBehindARangeHangsWhen`).
- `range::satisfies` leaves an alternative at its first failing comparator and then, unless that was the
  alternative's last one, looks at no further alternative: `AnswerIsExactWhen`,
  `EarlyBreakLosesAnAlternative`. Versions are read differently in a range: a zero in front of a number is
  refused (`LeadingZeroIsRefused`), and an unknown prerelease letter dropped (`UnknownNameIsDropped`). An
  empty alternative at the very beginning of several is skipped:
  `RangeTextIsExactWhen`, `LeadingEmptyAlternativeIsLost` (" || <1.0.0").
- `ShardedLockMap::size` beside other threads is the size at its start, plus and minus what changed ahead
  of the count (`SizeIsExactly`). With inserts only, or removals only, it lies between the sizes at start
  and end (`SizeOneWay`); with both, a map that is never empty can be counted as empty
  (`SizeUnderRemovals`).
- A heartbeat that arrives while `clear_stale_heartbeats` runs can be erased although fresh: that happens to
  an entry if and only if it was renewed for good between the scan of its shard and its own erasure
  (`ErasureLosesWhen`, `SweepIsExactWhen`, `RefreshDuringSweepIsLost`).
- A text that is percent-encoded with a set that does not mark "%" comes back from decoding if and only if
  no "%" in it has two unmarked hexadecimal digits behind it (`EncodedReadsBackWhen`).
- A priority outside 32 bits in the JSON of an ability is not refused but loses its high bits
  (`PriorityIsReadRightWhen`).

## Model

| member | source | states |
|---|---|---|
| Decimal.DigitsRoundTrip | include/util/semver.hpp:186-226 | printing a number in decimal and accumulating its digits gives the number back, with no leading zero |
| Decimal.DigitCount | include/util/ada_url.hpp:1741-1758 | the number of decimal digits is the number's place between two powers of ten |
| UrlRecord.AtMark | include/util/ada_url.hpp:6083-6119 | the byte at the host offset, which the setters test, is "@" exactly when the separator is written or the host or path starts with an "@" in its place |
| UrlRecord.TextOfRecord | include/util/ada_url.hpp:1268-1322 | the text of a record, part by part with its separators |
| UrlAggregator.RecordIsDetermined | include/util/ada_url.hpp:1268-1322 | buffer and offsets determine the record: two well-formed records with the same serialisation and offsets are equal |
| UrlAggregator.OneDigitPortLooksLikeDashDot | include/util/ada_url.hpp:6014-6048 | http://h:8/ab passes the test for "/.", and the path "/c" makes http://h/c of it |
| UrlAggregator.UrlAggregator.HasAuthorityIff | include/util/ada_url.hpp:6485-6492 | the "//" test is true exactly when the record has an authority |
| UrlAggregator.UrlAggregator.HasDashDotExactly | include/util/ada_url.hpp:6565-6584 | the "/." test is true exactly when the path is not opaque, two characters or more follow, and there is a "/." without port or a port of one digit without "/." |
| UrlAggregator.UrlAggregator.AddAuthoritySlashesIfNeeded | include/util/ada_url.hpp:6494-6518 | afterwards buffer and offsets stand for the same record with an authority |
| UrlAggregator.UrlAggregator.ReplaceAndResize | include/util/ada_url.hpp:5856-5875 | the stretch between two offsets becomes the input, everything else stays, and the result is the length difference modulo 2^32, even for a start behind the end |
| UrlAggregator.UrlAggregator.UpdateBaseHostname | include/util/ada_url.hpp:5877-5903 | for every host, buffer and all eight offsets stand for the record with only the host replaced, an authority added, and "@" present exactly when a credential is non-empty |
| UrlAggregator.UrlAggregator.ClearHostname | include/util/ada_url.hpp:6422-6457 | the record with an empty host; an "@" in front stays, be it the separator or the first byte of the host |
| UrlAggregator.UrlAggregator.UpdateBaseUsername | include/util/ada_url.hpp:6083-6119 | the record with only the user name replaced, an authority added and "@" written or erased by the byte at its place; the state stays valid unless a stray "@" was erased for the separator |
| UrlAggregator.CredentialsAreSettledWhen | include/util/ada_url.hpp:6083-6237 | "@" is written exactly when a credential is non-empty if and only if none stands in its place and, where one credential is emptied and the other stays, it was written before |
| UrlAggregator.UrlAggregator.AppendBaseUsername | include/util/ada_url.hpp:6121-6163 | the record with the user name extended; "@" is written unless the text is as long as the host or one stands in its place |
| UrlAggregator.AppendedIsWellFormedWhen | include/util/ada_url.hpp:6083-6237 | the setters keep a URL with an authority well-formed, but for a text as long as the host appended where there is no credential |
| UrlAggregator.AppendedNameRunsIntoTheHost | include/util/ada_url.hpp:6121-6163 | "xyz" appended on http://abc/ gives http://xyzabc/ |
| UrlAggregator.UrlAggregator.ClearPassword | include/util/ada_url.hpp:6165-6183 | the record without password, "@" left to the caller |
| UrlAggregator.UrlAggregator.UpdateBasePassword | include/util/ada_url.hpp:6185-6237 | the record with only the password replaced, an authority added and "@" written or erased by the byte at its place; the state stays valid unless a stray "@" was erased for the separator |
| UrlAggregator.UrlAggregator.UpdateBasePort | include/util/ada_url.hpp:6291-6319 | the record with only the port replaced, whether or not there is an authority; an omitted port clears it |
| UrlAggregator.UrlAggregator.ClearPort | include/util/ada_url.hpp:6321-6338 | the record without port |
| UrlAggregator.UrlAggregator.DeleteDashDot | src/util/ada_url.cpp:14593-14607 | removes the "/.", or the text of a one-digit port that looks like one |
| UrlAggregator.UrlAggregator.UpdateBasePathname | include/util/ada_url.hpp:6014-6048 | the record with the new path and the "/." it needs, an unneeded one gone if it is seen; the state is valid if and only if no port was taken for "/." and no "/." was written behind another one or in front of a search or hash, and else what is left is given; without an authority the text behind the protocol is the path, behind a "/." if it starts with "//", and never starts with "//" itself |
| UrlAggregator.StrandedSearch | include/util/ada_url.hpp:6014-6048 | foo:/a?q with the path "//b" becomes foo:/.//b/a?q, where the search starts at "/a?q" |
| UrlAggregator.SecondDashDot | include/util/ada_url.hpp:6014-6048 | foo:/./ with the path "//b" becomes foo:/././/b |
| UrlAggregator.UrlAggregator.ClearPathname | include/util/ada_url.hpp:6387-6420 | the record with an empty path and no "/." |
| UrlAggregator.UrlAggregator.UpdateBaseSearch | include/util/ada_url.hpp:5922-5959 | the record with only the search replaced, cleared by an empty input |
| UrlAggregator.UrlAggregator.UpdateBaseSearchEncoded | include/util/ada_url.hpp:5961-6012 | the record with the search replaced by the percent-encoded input |
| UrlAggregator.UrlAggregator.ClearSearch | include/util/ada_url.hpp:6345-6368 | the record without search |
| UrlAggregator.UrlAggregator.UpdateUnencodedBaseHash | include/util/ada_url.hpp:5833-5854 | the record with the hash replaced by the percent-encoded input |
| UrlAggregator.UrlAggregator.ClearHash | include/util/ada_url.hpp:6370-6385 | the record without hash |
| UrlAggregator.UrlAggregator.SetProtocolAsFile | include/util/ada_url.hpp:6625-6653 | the record with protocol "file:" and the scheme type of files, the other offsets moved by the wrapped difference |
| UrlAggregator.UrlAggregator.GettersReadTheCredentials | src/util/ada_url.cpp:13713-13729 | in a valid state the getters of protocol, user name and password return the record's components |
| UrlAggregator.UrlAggregator.GettersReadTheHost | src/util/ada_url.cpp:13771-13783 | the host getter returns the host without the "@", or without one of its own where none is written |
| UrlAggregator.UrlAggregator.GettersReadThePort | src/util/ada_url.cpp:13731-13738 | without "/." the port getter returns the decimal text of the port |
| UrlAggregator.UrlAggregator.GettersReadTheTail | src/util/ada_url.cpp:13785-13814 | in a valid state the getters of path, search and hash return the record's components |
| PercentEncoding.PercentEncodeIndex | include/util/ada_url.hpp:5756-5763 | the first marked byte, and nothing before it needs encoding |
| PercentEncoding.PercentEncodeAppend | src/util/ada_url.cpp:10193-10226 | appends the encoding of the whole input, or reports that the input is its own encoding |
| PercentEncoding.PercentEncode | src/util/ada_url.cpp:10166-10191 | the encoding of every marked byte and no other |
| PercentEncoding.EscapeOfByte | include/util/ada_url.hpp:497-563 | an escape is "%" and two hexadecimal digits, in capitals, whose value is the byte |
| PercentEncoding.HexDigitsRead | src/util/ada_url.cpp:10049-10130 | the sixteen digits have their values in capitals and in small letters, and nothing else is a digit |
| PercentEncoding.PercentDecode | src/util/ada_url.cpp:10132-10164 | the decoding of the text from the hint on, the text itself without a hint |
| PercentEncoding.NothingToDecode | src/util/ada_url.cpp:10132-10164 | with the first "%" for a hint that is the decoding of the whole text |
| PercentEncoding.EncodedReadsBackWhen | src/util/ada_url.cpp:10132-10191 | decoding an encoded text gives it back if and only if no unmarked "%" in it has two unmarked hexadecimal digits behind it |
| UrlComponents.FastDigitCountIsExact | include/util/ada_url.hpp:1741-1758 | the table look-up is the true number of decimal digits for every 32-bit value |
| UrlComponents.GetHref | include/util/ada_url.hpp:5667-5697 | the href, spelled out, which is the serialisation of the record of its parts; without a host a path that starts with "//" comes behind "/." |
| UrlComponents.GetComponents | include/util/ada_url.hpp:5530-5600 | the offsets are those of the record, with exactly the deviations at host end, user name end and an unprinted port |
| UrlComponents.OffsetsCutTheHref | include/util/ada_url.hpp:5530-5600 | the path, search and hash offsets computed cut the href at those parts if and only if there is a host or no port |
| UrlComponents.OffsetsCutTheHost | include/util/ada_url.hpp:5530-5600 | the host offsets computed cut out the host if and only if there is none |
| UrlComponents.HostIsCutShort | include/util/ada_url.hpp:5530-5600 | in http://abc/ they cut out "ab" |
| DnsName.NextSubstring | include/util/mdns.h:405-432 | a label found lies inside the message, and a plain label moves the walk forward |
| DnsName.MoreStepsChangeNothing | include/util/mdns.h:491-526 | once a walk over a name is over, allowing more steps changes nothing, so a name has one meaning |
| DnsName.EndsWithinItsLength | include/util/mdns.h:491-526 | the walk over a name ends if and only if it ends within as many labels as the message has bytes; otherwise it never does |
| DnsName.BackPointersEnd | include/util/mdns.h:413-424 | if every pointer leads before the start of the run of labels it ends, the walk ends inside the message within that bound |
| DnsName.LabelPointingToItselfNeverEnds | include/util/mdns.h:413-424 | a label followed by a pointer to itself is walked for ever |
| DnsName.DecodeReadsInside | include/util/mdns.h:405-526 | every byte read to extract a name lies inside the message exactly when the walk is not led outside, and the byte behind the message is the only other one read |
| DnsName.Skip | include/util/mdns.h:434-451 | the skip loop ends at the first pointer or terminator, refuses a malformed name and leaves the offset alone, or reads behind the message |
| DnsName.SkipEndsWhereTheNameEnds | include/util/mdns.h:434-451 | skipping ends at the offset where decoding ends |
| DnsName.SkipReadsInside | include/util/mdns.h:405-451 | every byte read to skip a name lies inside the message exactly when the skip is not led outside |
| DnsName.LabelWithoutEndIsReadPast | include/util/mdns.h:434-451 | in the message of the bytes 1 and 65 offset 2 is read |
| DnsName.Extract | include/util/mdns.h:491-526 | for any number of rounds: the buffer holds the dotted name cut to its capacity, nothing behind it changes, and the offset moves past the name; or the name is malformed, leaves the message or goes on |
| DnsName.DotIsByte46 | include/util/mdns.h:491-526 | in the text extracted every label is followed by the byte 46 |
| DnsName.Equal | include/util/mdns.h:453-489 | for any number of rounds: true exactly when both names decode and their labels match, and then both offsets move past the names; a first difference settles it; without a NUL that is equality up to case |
| DnsName.CompareIsAgreement | include/util/mdns.h:453-489 | the label by label comparison is agreement of the decoded names, with their ends, and is led outside or goes on only where they do |
| DnsName.ComparingEnds | include/util/mdns.h:453-489 | the comparison of two names ends, within the length of its message, whenever the walk over either name does |
| DnsName.ComparingReadsPast | include/util/mdns.h:453-489 | two messages that end in a label are compared beyond their end |
| DnsName.ComparingGoesOn | include/util/mdns.h:453-489 | a label followed by a pointer to itself is compared with itself for ever |
| DnsName.CompareIsExactWhen | include/util/mdns.h:469-471 | comparing with a label is equality up to case, for all labels of its length, if and only if it has no NUL before its last byte |
| DnsName.MatchIsExactWhen | include/util/mdns.h:453-489 | matching with a list of labels is equality up to case, for all lists, if and only if none of them has a NUL before its last byte |
| DnsName.NamesAgreeUpToCase | include/util/mdns.h:453-489 | names without a NUL agree if and only if they have as many labels of the same lengths, whose bytes are equal or a capital letter and its small letter |
| DnsName.NulHidesTheRestOfALabel | include/util/mdns.h:469-471 | for instance two labels that differ after a NUL match |
| DnsEncoding.Make | include/util/mdns.h:539-573 | succeeds exactly when the encoding and its zero byte fit, writes only inside the capacity, and then holds the encoding |
| DnsEncoding.MakeRef | include/util/mdns.h:575-582 | writes a pointer to the offset if two bytes are left |
| DnsEncoding.MakeWithRef | include/util/mdns.h:584-592 | the labels and then the pointer, exactly when both fit; a wild store exactly when the name with its zero byte does not fit |
| DnsEncoding.MadeNameDecodes | include/util/mdns.h:539-573 | an encoded name decodes to its labels and ends after its zero byte |
| DnsEncoding.PointerDecodes | include/util/mdns.h:413-432 | a pointer to a label reads as the name at its target and ends after the pointer |
| DnsEncoding.PointerKeepsFourteenBits | include/util/mdns.h:575-582 | a pointer reads back as its target if and only if that is below 0x4000; 0x4000 reads as 0 |
| DnsEncoding.PointerToPointerIsNotFollowed | include/util/mdns.h:413-424 | a pointer to a pointer takes the target's first byte for a length |
| DnsEncoding.NameWithRefDecodes | include/util/mdns.h:584-592 | labels with a pointer decode to the labels followed by the referenced name |
| DnsEncoding.SkipsOutsideWhen | include/util/mdns.h:434-451 | skipping a name reads behind the message if and only if nothing but plain labels is left in it |
| DnsEncoding.DecodesOutsideWhen | include/util/mdns.h:405-526 | extracting a name reads behind the message if and only if some number of runs of plain labels, each ended by a pointer, leads to a place where nothing but plain labels is left |
| DnsEncoding.DottedSplit | include/util/mdns.h:491-573 | splitting a text at its dots and extracting it gives the text ended by a dot |
| DnsEncoding.SplitDotted | include/util/mdns.h:491-573 | splitting the dotted text of dot-free labels gives the labels |
| DnsEncoding.MadeTextReadsBack | include/util/mdns.h:434-573 | extract and skip after make: the text comes back ended by a dot and both stop after the zero byte |
| DnsEncoding.MadeTextWithRefReadsBack | include/util/mdns.h:434-592 | the same with a pointer: the text is followed by the referenced name |
| DnsMessage.RecordReadsInside | include/util/mdns.h:594-624 | every byte read of a record lies inside the message exactly when its name is skipped or refused inside and ten more bytes follow |
| DnsMessage.RecordFields | include/util/mdns.h:594-624 | type, class, lifetime and length are the bytes behind the name, most significant first, and the next record starts behind the data |
| DnsMessage.RecordsParse | include/util/mdns.h:594-624 | the records from an offset on, up to the first that is not inside the message, told to the callback until it asks to stop |
| DnsMessage.QueryRecv | include/util/mdns.h:938-993 | which messages are ignored, which are read beyond their end, and what the callback hears of each section |
| DnsMessage.OpensWhen | include/util/mdns.h:938-975 | which messages are read, where their records start, and which are read beyond their end before that is known |
| DnsMessage.SectionsAreCounted | include/util/mdns.h:976-993 | each section has as many records as its field of the header says and starts where the last one ended |
| DnsMessage.HeaderAloneIsReadPast | include/util/mdns.h:938-993 | a header alone that announces a record is read beyond its end |
| DnsAnswer.PutServiceName | include/util/mdns.h:1026-1055 | question and PTR name as specified, exactly when more than ten bytes are left after them |
| DnsAnswer.PutPtr | include/util/mdns.h:1026-1070 | question and PTR record, with the length patched in, and the two offsets for later pointers |
| DnsAnswer.PutSrv | include/util/mdns.h:1072-1095 | the SRV record with port and target; a store outside the buffer exactly for sizes in the gap |
| DnsAnswer.PutExtra | include/util/mdns.h:1097-1150 | an A, AAAA or TXT record, exactly when it fits with a byte to spare |
| DnsAnswer.QueryAnswer | include/util/mdns.h:995-1156 | writes exactly the specified packet, accepts exactly when the size guard holds, more than ten bytes are left after the SRV record and at least one after the last record, and stores outside exactly when the guard holds and the size is in the gap of the SRV record |
| DnsAnswer.PacketLength | include/util/mdns.h:995-1156 | the length of the packet by the lengths of the encoded names and the records chosen |
| DnsAnswer.BigBufferIsEnough | include/util/mdns.h:1001-1002 | a size of 112 bytes plus the service name, twice the host name and the text is always accepted and never overrun |
| DnsAnswer.FiftyFiveBytesAreOverrun | include/util/mdns.h:1001-1095 | a unicast answer for "a." and "bbbbbbbb." passes the guard with 55 bytes and stores outside |
| DnsRoundTrip.PacketReadsBack | include/util/mdns.h:938-1156 | the reader finds one PTR record, no authority record, then SRV and the chosen A, AAAA and TXT records in order, and stops at the end of the packet |
| DnsRoundTrip.AnswerByItsNumbers | include/util/mdns.h:995-1156 | in the numbers of the wire and by the arguments alone: header, question, one PTR record, then SRV, an A record if and only if there is an IPv4 address, an AAAA record if and only if there is an IPv6 address, a TXT record if and only if the text has 1 to 255 bytes, each with class, lifetime, name and data, and as many as are announced |
| DnsRoundTrip.RequiredNamesReadBack | include/util/mdns.h:1043-1095 | PTR and SRV names decode to the service, hostname.service and hostname.local, each ending where its field ends |
| DnsRoundTrip.OptionalNamesReadBack | include/util/mdns.h:1097-1150 | address records carry the addresses under hostname.local, the TXT record its text under hostname.service |
| DnsRoundTrip.NamesAsText | include/util/mdns.h:491-526 | as text these names are the given names, ended by dots, one after the other |
| DnsRoundTrip.LocalOffsetIsTheLastLabel | include/util/mdns.h:1029-1052 | seven bytes before the end of the service name is its last label exactly when that label has five bytes |
| ThreadPool.StepKeepsInv | src/messagebus/thread_pool.hpp:50-104 | every atomic action keeps the whole invariant |
| ThreadPool.EveryRunIsSafe | src/messagebus/thread_pool.hpp:50-104 | in every interleaving accepted tasks are exactly the queued, held and finished ones, start in order, and none twice |
| ThreadPool.NothingIsAcceptedAfterStop | src/messagebus/thread_pool.hpp:74-104 | once the destructor has set its flag no task is accepted, however a run goes on |
| ThreadPool.QueuedWorkIsSeen | src/messagebus/thread_pool.hpp:57-92 | no lost wake-up: with queued work some worker is awake or a notification is coming, and a sleeping worker means as many of those as queued tasks |
| ThreadPool.NobodySleepsAfterNotifyAll | src/messagebus/thread_pool.hpp:96-104 | after notify_all no worker is asleep, ever |
| ThreadPool.DestructorWaitsForEveryTask | src/messagebus/thread_pool.hpp:96-104 | when the joins complete every accepted task has finished, if and only if there is a worker or nothing was accepted |
| ThreadPool.NoWorkersDropATask | src/messagebus/thread_pool.hpp:50-104 | a run in which a pool of no workers accepts a task and is destroyed without starting it |
| ThreadPool.EveryStepCounts | src/messagebus/thread_pool.hpp:53-104 | every action of the pool's own uses up a finite measure; a new call adds ten, an unasked wake-up two |
| ThreadPool.SomethingCanHappen | src/messagebus/thread_pool.hpp:53-104 | from the call of the destructor until it returns some action of the pool's own is possible: no deadlock |
| ThreadPool.DestructorReturns | src/messagebus/thread_pool.hpp:53-104 | however a run goes on after the destructor is called, the pool's own actions are bounded, and when none is possible the destructor has returned |
| ThreadPool.DestructorCanReturn | src/messagebus/thread_pool.hpp:53-104 | without further calls it gets there within the measure |
| ThreadPool.ThreadPool.TakeTask | src/messagebus/thread_pool.hpp:57-65 | the locked block of the worker loop is that step of the machine: the first task of the queue, or waiting for one, or leaving after stop |
| ThreadPool.ThreadPool.Emplace | src/messagebus/thread_pool.hpp:83-90 | the locked block of enqueue accepts the task at the back, or refuses it after stop |
| ThreadPool.ThreadPool.SetStop | src/messagebus/thread_pool.hpp:97-100 | the locked block of the destructor |
| Generator.ReplaceTop | include/util/generator.hpp:388-397 | advancing the innermost body by some values advances the whole tree by those values |
| Generator.PushInner | include/util/generator.hpp:341-355 | entering an inner generator leaves the remaining values of the tree unchanged |
| Generator.PopInner | include/util/generator.hpp:310-323 | leaving one, with or without an error, leaves them unchanged too |
| Generator.Generator.AwaitSuspend | include/util/generator.hpp:340-355 | the new coroutine is linked to its parent and the root, and is the root's top |
| Generator.Generator.UnhandledException | include/util/generator.hpp:276-279 | the error is kept in the link for the parent |
| Generator.Generator.FinalSuspend | include/util/generator.hpp:310-323 | the parent becomes the root's top, and every link below still reaches the root |
| Generator.Generator.AwaitResume | include/util/generator.hpp:357-359 | the parent rethrows a stored error or goes on after the elements_of |
| Generator.Generator.Step | include/util/generator.hpp:228-359 | each piece of a coroutine keeps the chain of links and the remaining values, or makes progress by one value |
| Generator.Generator.Resume | include/util/generator.hpp:393-397 | resuming yields the first remaining value and leaves the rest, or ends with the tree's result |
| Generator.Collect | include/util/generator.hpp:388-401 | a loop with begin, * and ++ sees exactly the remaining values and the final error |
| Generator.Run | include/util/generator.hpp:471-479 | for every finite tree of bodies the values seen are its in-order flattening |
| Generator.ErrorsEndOrAreHandled | include/util/generator.hpp:276-359 | the values seen and the error left when an inner generator throws, inside a try block and outside |
| ServiceLifecycle.LaunchesAreCounted | src/lifecyclemgr/service_lifecycle.cpp:23-124 | launches since start_service are 1 + restartCount, at most 1 + max(0, maxRestarts), and exactly 1 under "never" |
| ServiceLifecycle.StartBeginsAfresh | src/lifecyclemgr/service_lifecycle.cpp:23-51 | after any events start_service launches once and leaves the given spec, running if the launch succeeded and failed if not, with both counters at zero |
| ServiceLifecycle.StopOnlyMarks | src/lifecyclemgr/service_lifecycle.cpp:53-62 | stop_service marks a known service stopped and changes nothing else |
| ServiceLifecycle.ExitsCauseFinitelyManyLaunches | src/lifecyclemgr/service_lifecycle.cpp:64-124 | any sequence of events without start_service causes at most max(0, maxRestarts) launches |
| ServiceLifecycle.ExitsRestartByPolicy | src/lifecyclemgr/service_lifecycle.cpp:64-124 | an exit launches again exactly when the policy asks for it and the limit is not reached, and leaves the service running or failed accordingly, with every other field given |
| ServiceLifecycle.StoppedStaysStopped | src/lifecyclemgr/service_lifecycle.cpp:53-75 | after stop_service nothing but start_service changes the state or launches |
| ServiceLifecycle.CounterCountsFailures | src/lifecyclemgr/service_lifecycle.cpp:126-162 | the counter is the number of failing probes since the last pass, successful launch or trip, and stays below a threshold of at least one |
| ServiceLifecycle.RepeatedFailuresLaunch | src/lifecyclemgr/service_lifecycle.cpp:126-162 | only a running service with an "http" probe, a port and a path is probed; a failing probe launches again exactly when it completes the threshold, the policy allows it and the limit is not reached; every field afterwards is given |
| ServiceLifecycle.ServiceLifecycleManager.StartService | src/lifecyclemgr/service_lifecycle.cpp:23-51 | replaces the entry, whatever it was, and launches once |
| ServiceLifecycle.ServiceLifecycleManager.StopService | src/lifecyclemgr/service_lifecycle.cpp:53-62 | marks a known service stopped and touches no other |
| ServiceLifecycle.ServiceLifecycleManager.OnServiceExit | src/lifecyclemgr/service_lifecycle.cpp:64-87 | the exit step on that service only, launching exactly when the step says so |
| ServiceLifecycle.ServiceLifecycleManager.DoRestart | src/lifecyclemgr/service_lifecycle.cpp:99-124 | counts the attempt, launches once, and ends running or failed |
| ServiceLifecycle.ServiceLifecycleManager.RunHealthChecks | src/lifecyclemgr/service_lifecycle.cpp:126-162 | every service takes its health step once, in any order, and exactly those that should be are launched once |
| Semver.LengthIsDigits | include/util/semver.hpp:162-168 | the length function is the number of decimal digits |
| Semver.StringLengthIsExact | include/util/semver.hpp:409-422 | string_length is the length of the text, at most 29 |
| Semver.PutNumber | include/util/semver.hpp:186-195 | fills the digits, and a dot, backwards from a position and changes nothing else |
| Semver.ToChars | include/util/semver.hpp:367-385 | fills exactly string_length bytes ending at the first byte, or refuses and changes nothing |
| Semver.PrintedText | include/util/semver.hpp:367-385 | the text printed, with the names in small letters |
| Semver.ReadNumberAt | include/util/semver.hpp:213-226 | the value of the longest run of digits, accumulated with 32-bit wrap-around and kept to sixteen bits, if it passes the comparison |
| Semver.NumberIsReadRight | include/util/semver.hpp:197-226 | the value read is the true one if and only if that fits sixteen bits; below 2^31 every other is refused |
| Semver.TwoToThe32ReadsAsZero | include/util/semver.hpp:197-226 | the text of 2^32 is read as zero |
| Semver.VersionObject.FromChars | include/util/semver.hpp:331-365 | succeeds exactly on the texts of the grammar and then sets the five fields from them, refuses the others, or looks behind the text |
| Semver.AcceptedWhen | include/util/semver.hpp:197-365 | a text is accepted as a version if and only if it is three numbers with dots between them and, with a prerelease, a hyphen and its full name in any case, and a dot and its number if there is one |
| Semver.LooksBehindWhen | include/util/semver.hpp:197-365 | from_chars looks behind its text if and only if the text is a version without prerelease, then a hyphen and a prerelease name that is cut short |
| Semver.ShortNameIsReadPast | include/util/semver.hpp:244-262 | it looks behind 1.2.3-r |
| Semver.VersionReadsBack | include/util/semver.hpp:331-385 | from_chars on the text of to_chars gives the same five fields |
| Semver.CompareIsATotalOrder | include/util/semver.hpp:424-445 | compare is zero only on equal versions, antisymmetric and transitive |
| Semver.CompareIsLexicographic | include/util/semver.hpp:424-445 | compare is the lexicographic order of the fields, an absent number first and prereleases before the release |
| SemverRange.AnswerIsSound | include/util/semver.hpp:604-634 | a true answer means that some alternative holds in full, prerelease rule included |
| SemverRange.OperatorsMean | include/util/semver.hpp:645-659 | the five operators are the order of the fields and equality |
| SemverRange.PrereleasesAreLetInWhen | include/util/semver.hpp:604-634 | a prerelease is let in by the flag or by a comparator with the same major, minor and patch |
| SemverRange.AnswerIsExactWhen | include/util/semver.hpp:604-634 | the answer is the or of ands if and only if no alternative breaks off ahead of the first one that holds |
| SemverRange.SingleComparatorsAreExact | include/util/semver.hpp:604-634 | it is, for every version, when all alternatives but the last have at most one comparator |
| SemverRange.EarlyBreakLosesAnAlternative | include/util/semver.hpp:620-631 | a concrete range and version where a later alternative holds and the answer is false |
| SemverRange.VersionParses | include/util/semver.hpp:687-842 | lexer and parser recover a printed version, whatever comparator or "\|\|" follows |
| SemverRange.ComparatorParses | include/util/semver.hpp:733-818 | they recover an operator with its version |
| SemverRange.AlternativeReads | include/util/semver.hpp:687-842 | and the comparators of an alternative in order |
| SemverRange.AlternativeEvaluates | include/util/semver.hpp:610-624 | evaluation of an alternative gives its conjunction and its prerelease rule, and stops at its end or right after its first failing comparator |
| SemverRange.RangeTextIsEvaluated | include/util/semver.hpp:604-634 | for every range as written evaluation never throws and gives the answer of its alternatives, an empty one at the beginning of several left out |
| SemverRange.RangeTextIsExactWhen | include/util/semver.hpp:604-634 | on every range text a true answer implies an alternative that holds; the answer is the or of ands if and only if no alternative breaks off ahead of the first one that holds, and one that is reached holds where a skipped empty one lets the version in |
| SemverRange.RangeTextMeansItsAlternatives | include/util/semver.hpp:604-634 | for single comparators it is, if and only if no skipped empty alternative is alone in letting the version in |
| SemverRange.LeadingEmptyAlternativeIsLost | include/util/semver.hpp:604-634 | " \|\| <1.0.0" should let 2.0.0 in and does not |
| SemverRange.LexerHangsWhen | include/util/semver.hpp:687-727 | the lexer never returns exactly if the first character that is no space is unknown to it |
| SemverRange.KnownTextsEnd | include/util/semver.hpp:604-842 | on a text of known characters evaluation returns or throws |
| SemverRange.UnknownBehindARangeHangsWhen | include/util/semver.hpp:604-727 | a range as written with an unknown character behind it hangs evaluation if and only if no alternative before the last settles the answer and none breaks off; else the answer is given |
| SemverRange.StarHangs | include/util/semver.hpp:604-727 | the range "*" hangs; behind a token that is refused the star is not reached |
| SemverRange.UnknownInsideHangs | include/util/semver.hpp:687-842 | so do unknown characters inside a comparator: behind an operator, behind a hyphen, and where the number of a prerelease should be |
| SemverRange.LeadingZeroIsRefused | include/util/semver.hpp:687-842 | 01.2.3 is accepted as a version and refused in a range |
| SemverRange.BigNumberIsRefused | include/util/semver.hpp:687-842 | a number above 65535 is not consumed, and a range with it throws |
| SemverRange.UnknownNameIsDropped | include/util/semver.hpp:687-842 | behind a hyphen a letter that starts no prerelease name is dropped, and the version is read without prerelease |
| SemverRange.RangeParser.GetNextToken | include/util/semver.hpp:687-727 | the lexer loop returns the next token and moves past it, or never returns, for every text |
| SemverRange.RangeParser.TakeVersion | include/util/semver.hpp:820-842 | the parser reads a version, throws exactly where the grammar says, or hangs in the lexer |
| SemverRange.RangeParser.TakeComparator | include/util/semver.hpp:805-818 | an operator, or none for equality, and a version |
| SemverRange.RangeParser.Satisfies | include/util/semver.hpp:604-634 | the two nested loops compute the evaluation function, exceptions and hanging included |
| ShardedMap.LookupInShard | include/util/concurrent_map.hpp:191-204 | looking a key up in the shard of its hash is looking it up in one plain map |
| ShardedMap.PutInShard | include/util/concurrent_map.hpp:214-224 | putting into that shard is putting into the plain map, and keys stay placed |
| ShardedMap.RemoveFromShard | include/util/concurrent_map.hpp:242-246 | the same for removal |
| ShardedMap.SizesAddUp | include/util/concurrent_map.hpp:257-264 | the sizes of the shards add up to the size of the plain map |
| ShardedMap.ShardedLockMap.Find | include/util/concurrent_map.hpp:191-197 | the value in the plain map, if any |
| ShardedMap.ShardedLockMap.Get | include/util/concurrent_map.hpp:207-211 | the value, after adding the default for a new key |
| ShardedMap.ShardedLockMap.InsertOrAssign | include/util/concurrent_map.hpp:214-218 | the plain map with that key set |
| ShardedMap.ShardedLockMap.Emplace | include/util/concurrent_map.hpp:231-239 | adds only a new key and reports whether it did |
| ShardedMap.ShardedLockMap.Erase | include/util/concurrent_map.hpp:242-246 | the plain map without the key, and how many entries went |
| ShardedMap.ShardedLockMap.ExecOnKey | include/util/concurrent_map.hpp:305-309 | the value or the default, changed |
| ShardedMap.ShardedLockMap.Clear | include/util/concurrent_map.hpp:249-254 | the empty map |
| ShardedMap.ShardedLockMap.Size | include/util/concurrent_map.hpp:257-264 | undisturbed, the size of the plain map |
| ShardedMap.ShardedLockMap.Empty | include/util/concurrent_map.hpp:267-273 | undisturbed, whether the plain map is empty |
| ShardedMap.ShardedLockMap.ForEach | include/util/concurrent_map.hpp:280-287 | every entry is passed on exactly once and may be changed |
| ShardedMap.SizeIsExactly | include/util/concurrent_map.hpp:257-264 | whatever others put and remove meanwhile, the result is the size at the start plus the entries added, minus those removed, in shards still to be counted |
| ShardedMap.SizeIsBounded | include/util/concurrent_map.hpp:257-264 | it is off the sizes at start and end by no more than what was added or removed |
| ShardedMap.SizeOneWay | include/util/concurrent_map.hpp:257-264 | with inserts only, or removals only, it lies between the sizes at start and end |
| ShardedMap.SizeUnderRemovals | include/util/concurrent_map.hpp:257-264 | with both, an interleaving in which a map that is never empty counts as empty |
| Heartbeats.InTableIffAlive | src/lifecyclemgr/lifecycle_mgr.cpp:33-85 | an instance is in the table exactly while an accepted heartbeat of it is followed by no exit and by no sweep more than a minute later |
| Heartbeats.WhoIsThere | src/lifecyclemgr/lifecycle_mgr.cpp:33-85 | from any table on, an instance is there after any events exactly if its entry was left alone or it lives by a later heartbeat |
| Heartbeats.BeatRenewsItsEntry | src/lifecyclemgr/lifecycle_mgr.cpp:33-85 | every field of the entry after an accepted heartbeat, and that nothing else changes; an orphan changes nothing |
| Heartbeats.ClientsAlwaysFollow | src/lifecyclemgr/lifecycle_mgr.cpp:64-83 | every entry has a client for the port of its last heartbeat |
| Heartbeats.ErasureLosesWhen | src/lifecyclemgr/lifecycle_mgr.cpp:463-473 | while other events fall between any two of its shard scans and erasures, a sweep erases a fresh entry if and only if the entry was renewed for good between the scan of its shard and its own erasure |
| Heartbeats.SweepIsExactWhen | src/lifecyclemgr/lifecycle_mgr.cpp:463-473 | at every moment of it the table is that of a sweep that looks again before each erasure, if and only if no entry is so renewed |
| Heartbeats.RefreshDuringSweepIsLost | src/lifecyclemgr/lifecycle_mgr.cpp:463-473 | one heartbeat of a stale instance after the scan of its shard, while other shards are scanned, is lost |
| Heartbeats.LifecycleManager.OnHeartbeat | src/lifecyclemgr/lifecycle_mgr.cpp:33-85 | an accepted heartbeat renews its entry, any other leaves the table alone |
| Heartbeats.LifecycleManager.OnAbilityExit | src/lifecyclemgr/lifecycle_mgr.cpp:260-271 | the entry goes |
| Heartbeats.LifecycleManager.ContainsActive | src/lifecyclemgr/lifecycle_mgr.cpp:273-277 | whether there is an entry in an active state |
| Heartbeats.LifecycleManager.ClearStaleHeartbeats | src/lifecyclemgr/lifecycle_mgr.cpp:463-473 | run alone, keeps exactly the entries at most one minute old |
| AbilitySpec.SpecSurvives | src/resourcemgr/ability_cr.cpp:50-113 | from_json(to_json(x)) is x with empty debugOption and activityCondition made null at every node |
| AbilitySpec.NormalFormIsWrittenAlike | src/resourcemgr/ability_cr.cpp:85-113 | that normal form is written exactly as x |
| AbilitySpec.DeviceSurvives | src/resourcemgr/ability_cr.cpp:217-228 | a device entry comes back unchanged |
| AbilitySpec.ModelsSurvive | src/resourcemgr/ability_cr.cpp:230-241 | model entries come back unchanged and in order |
| AbilitySpec.ToJson | src/resourcemgr/ability_cr.cpp:85-113 | the recursive writer computes the encoding of the tree |
| AbilitySpec.NamesWritten | src/resourcemgr/ability_cr.cpp:85-113 | the names of the members written, five always and the others exactly if there is a value |
| AbilitySpec.ValuesWritten | src/resourcemgr/ability_cr.cpp:85-113 | under each name stands the value of its field |
| AbilitySpec.ListsWritten | src/resourcemgr/ability_cr.cpp:85-241 | devices and models are written as objects with their own names, subabilities like the specification itself |
| AbilitySpec.FromJson | src/resourcemgr/ability_cr.cpp:50-83 | the recursive reader computes the decoding, exceptions included, numbers and booleans cast to the priority, an object in place of the subabilities read in the order of its keys |
| AbilitySpec.DecodeReadsTheNames | src/resourcemgr/ability_cr.cpp:50-83 | an object is read as a specification if and only if each field is what stands under its name in the text, the defaults for missing ones included |
| AbilitySpec.PriorityIsReadRightWhen | src/resourcemgr/ability_cr.cpp:50-83 | a numeric priority is read as it stands exactly if it fits 32 bits, any other modulo 2^32 |
| Multiaddr.MultiaddrSegments | src/discoverymgr/election_mgr.cpp:49-70 | the non-empty slash-separated parts after the leading slash |
| Multiaddr.ValidMeansFourNumbers | src/discoverymgr/election_mgr.cpp:24-30 | the address expression means four numbers with dots between them |
| Multiaddr.OctetIsDecimal | src/discoverymgr/election_mgr.cpp:24-25 | its alternatives are exactly the plain decimal texts of 0 to 255 |
| Multiaddr.ValidIsQuad | src/discoverymgr/election_mgr.cpp:24-30 | so exactly the canonical dotted quads are valid |
| Multiaddr.PeerAddressReadsBack | src/discoverymgr/election_mgr.cpp:49-101 | a printed peer address is parsed back to its address and port, 8080 included |
| Multiaddr.PortIsReadWhen | src/discoverymgr/election_mgr.cpp:82-97 | a text is read as a port if and only if it starts with a number, with or without a minus sign, that fits an int |
| Multiaddr.AddressIsReadWhen | src/discoverymgr/election_mgr.cpp:73-101 | which segments are an address, and its port |
| Multiaddr.TextAfterThePortIsIgnored | src/discoverymgr/election_mgr.cpp:82-97 | text after the digits of a port changes nothing |
| CppLiteral.EscapeIsPerCharacter | webui/embed.py:31-36 | the four chained replacements are one map per character |
| CppLiteral.EmittedTextReadsBack | webui/embed.py:63-66 | the emitted literals have the original text without carriage returns as their value |
| CppLiteral.EmissionLosesOnlyReturns | webui/embed.py:31-36 | texts emitted alike are alike but for carriage returns |

## Left out

- Sockets, HTTP handlers, timers, the web UI, SQLite, JWT, UUID generation and logging: input and output around the cores.
- The URL parser and the checking setters (`set_host`, `set_port` and the like), `append_base_password`, `append_base_pathname`, `update_base_authority` and the scheme setters: variations of the splices that are proved.
- UrlAggregator.UrlAggregator.UpdateBaseHostname: like all setters here it asks that the new text stays below 2^32 bytes, where the offsets would wrap.
- UrlAggregator.UrlAggregator.ClearPassword: leaves the "@" to its callers, as the code does.
- UrlComponents.GetComponents: the deviations are stated rather than excluded; no caller condition removes the one at the host end.
- DnsName.Extract: like all readers of messages it is followed up to the first byte that is not in the message; what the code makes of the memory there is unknown.
- DnsAnswer.QueryAnswer: followed up to the first store outside the buffer; whether the socket takes the datagram is not modelled, the result is the number of bytes to send.
- DnsEncoding.MakeWithRef: a store through the null pointer is an outcome of its own; what it does to the process is not modelled.
- `mdns_discovery_answer`, the receive loops, goodbye packets and TXT parsing; byte order is written out as big-endian and the IPv4 address is copied as four bytes.
- The condition variable is modelled with spurious wake-ups and an arbitrary choice of the notified worker, not with fairness; futures and the results of tasks are not modelled.
- Generator bodies are finite data instead of C++ code; allocation of coroutine frames and elements_of over other ranges (which wraps them in a generator) are not modelled. A generator already begun is not passed to elements_of.
- The restart delay is computed only to be logged; its shift overflows for large counts, which has no effect on the state.
- Semver.ReadNumberAt: signed 32-bit overflow wraps here, as it does in practice; C++ leaves it undefined.
- Semver.VersionObject.FromChars: not followed behind the end of the text.
- SemverRange.UnknownBehindARangeHangsWhen: speaks of an unknown character behind a range as written; other texts with one are covered by the evaluation function that `Satisfies` computes, without a condition on the text.
- AbilitySpec.SpecSurvives: a prerelease number without prerelease, which no constructor makes, is dropped too. JSON numbers are integers of 64 bits, other spellings of a UUID are not modelled, and null subability pointers do not occur.
- AbilitySpec.FromJson: what the version parser makes of a text behind whose end it looks is a parameter.
- Heartbeats.ClientsAlwaysFollow: a change of protocol without a change of port keeps the old client, as in the code.
- IPv6 peer addresses, which the parser refuses; message sending.
- `DoubleBufferedMap`, the bully election, `TaskManager` and `ResourceManager` are not part of this model.
