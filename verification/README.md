# Verified models of the parking system's algorithms

The parking manager consists of a server and its gates. They exchange JSON messages over
WebSockets, keep their settings in INI files, and print and parse UTC time stamps. This project
models the algorithms they rely on in Dafny and proves what each of them is for.

Check everything with `dafny verify dfyconfig.toml`.

## What is modelled

| files | system part |
|---|---|
| `Civil.dfy`, `MonthArithmetic.dfy`, `Weekdays.dfy`, `IsoWeek.dfy`, `Timestamp.dfy`, `TimestampForms.dfy` | the calendar of `date.h`: day numbers, months, weekdays, ISO weeks, and the time stamps of `GetUTCTime` |
| `Bytes.dfy`, `Masking.dfy`, `Frame.dfy` | the masking routines and the frame headers of `frame.hpp` |
| `Utf8.dfy`, `Base64.dfy`, `Md5.dfy`, `Uri.dfy`, `UriForms.dfy` | the UTF-8 automaton, Base64, the MD5 buffering and padding, and WebSocket URIs |
| `Messages.dfy`, `GateProtocol.dfy` | message envelopes, the message queues, and the protocol between the gates and the server |
| `Parking.dfy` | the slot counters, car maps and gate names of the parking server |
| `IniOrder.dfy`, `IniLines.dfy`, `IniBuffer.dfy`, `IniParser.dfy`, `IniNames.dfy`, `IniFinder.dfy`, `IniTable.dfy`, `IniStore.dfy`, `IniFile.dfy`, `IniGrammar.dfy`, `IniRoundTrip.dfy` | `SimpleIni.h`: the name order, the in-place parser, the store, and saving and loading |
| `Options.dfy`, `Octets.dfy`, `Sequences.dfy`, `Text.dfy` | optional values; bytes as numbers; pieces put together; decimal numerals and splitting of strings |

Code that changes state is modelled by classes and methods over arrays; each method is proved equal to a
function of its old state, and the properties are proved about those functions.

## What turned out

- ISO week dates are exact for every representable day but two: for -32767-01-01 and -32767-01-02 the ISO year is
  -32768, which is the sentinel for a missing year, and the week and the way back are wrong (`IsoWeek.FormatIsIso`,
  `IsoWeek.IsoRoundTrip`).
- A printed time stamp is read back exactly when its year is 0000 to 9999 or -9999 to -100. Later years have a fifth
  digit that the parser does not take, and years -99 to -1 are filled in front of their sign. So
  `GetUTCTime` is idempotent on exactly those years, and otherwise its second application gives an empty string
  (`Timestamp.UtcIdempotent`).
- The stamps that `GetUTCTime` accepts are given by a grammar (`TimestampForms.ParsesStamps`). Two of its odd ends: seconds may be a lone
  decimal point, and an offset without a sign is read only behind six characters of seconds, since its digits would be taken for seconds.
- The difference of two months undoes the addition exactly while the year does not wrap (`MonthArithmetic.BetweenUndoesPlus`).
- The comment of `word_mask_circ` says that bytes behind `length` are rewritten with their old values. The code
  writes no more than `length` bytes; the model follows the code.
- A URI is read back from its printed form exactly when `Uri.Printable` holds. Credentials are not printed, and a
  bracketed IPv6 host is printed without its brackets.
- Free plus occupied slots stay equal to the maximum, for each kind of slot, exactly while no plate is admitted to a slot of a kind it is
  already counted for, no plate without a record leaves while it stands on a slot, and every plate with a record leaves from a slot of its
  record's kind and of no other (`Parking.CountedIffKept`). If, besides, every standing car is to be registered with the kind of slot it
  stands on, the condition is simpler: no parked plate is let in again, and no known plate leaves that is not parked
  (`Parking.ConservedIffDisciplined`). A parked handicap car that is let in again on a normal slot keeps the count until it leaves
  (`Parking.ReentryOnOtherKind`).
- After a normal slot, a second exit of the same plate uses a pointer that was moved away; a handicap car stays registered, and every
  further exit counts its slot again (`Parking.LeavesTwice`).
- Whatever gates and the server do, a gate that waits for the reply to a request is given the reply to its earliest request with the same
  number whose reply was not fetched. It is the right one exactly when no earlier request of this gate with that number has a reply that was
  not fetched (`GateProtocol.OwnReplyIff`). Numbers of different gates may coincide.
- With single-line values, an INI store is saved and loaded back, with its comments, exactly when its names, keys, values and comments are
  clean, an unnamed section has items and no comment of its own, and a comment of the first section comes with one for the file
  (`IniRoundTrip.SaveLoadIff`). Otherwise the first section's comment is loaded as that of the file, and an unnamed section's
  comment as part of the one below it (`IniRoundTrip.TextIsReadAs`).
- A tagged INI value of no lines is loaded as its own end tag, running on to the end of the data unless blanks follow the tag. In the first
  load of the program it is a pointer into the buffer, so it is cut at the next place where the parser ends a string; the model takes the
  string when the entry is returned.
- A section header that is not closed on its line names the section by all text up to the next string end. Such a name is never loaded
  back from what is written (`IniNames.GrownNotKept`). `IniLines.Tagged` and `IniParser.Next` follow the code in both.

## Model

| member | source | states |
|---|---|---|
| Civil.FromDaysToDays | src/CommonLibraries/includes/date.h:2970-2987 | every valid date survives the way to its day number and back |
| Civil.ToDaysFromDays | src/CommonLibraries/includes/date.h:3084-3103 | a day number gives a valid date that maps back to it exactly when its year fits 16 bits |
| Civil.EpochIsZero | src/CommonLibraries/includes/date.h:2970-2987 | 1970-01-01 is day 0 |
| Civil.ToDaysCountsDays | src/CommonLibraries/includes/date.h:2734-2748 | the calendar successor by the month table and the leap year rule has the next day number, for every year |
| Civil.NextIsOk | src/CommonLibraries/includes/date.h:3003-3011 | the successor of a valid date is valid, but for the last representable day |
| Civil.ToDaysOrder | src/CommonLibraries/includes/date.h:3029-3039 | the date order is preserved and reflected by day numbers |
| Civil.ClosedFormsCount | src/CommonLibraries/includes/date.h:2970-2987 | both closed forms agree with counting days one by one from the epoch |
| Civil.DateExists | src/CommonLibraries/includes/date.h:3084-3103 | every day number is that of a date, which `from_days` computes up to the wrap of the 16-bit year |
| MonthArithmetic.PlusIsOk | src/CommonLibraries/includes/date.h:2274-2284 | adding any number of months, of either sign, gives a month from 1 to 12 |
| MonthArithmetic.PlusIsAction | src/CommonLibraries/includes/date.h:2274-2284 | adding a months and then b months is adding a + b months, also across the wrap of the year |
| MonthArithmetic.BetweenUndoesPlus | src/CommonLibraries/includes/date.h:2304-2311 | the difference to the start is the number added exactly while the year does not wrap; subtracting undoes adding |
| MonthArithmetic.MonthCircle | src/CommonLibraries/includes/date.h:1614-1631 | months of the year are a circle of twelve under plus and minus |
| Weekdays.WeekdayFromDaysIsMod7 | src/CommonLibraries/includes/date.h:1820-1827 | the weekday is (z + 4) mod 7 for every 32-bit day number despite unsigned wrap-around |
| Weekdays.NextWeekday | src/CommonLibraries/includes/date.h:1902-1920 | moving d days moves the weekday by d |
| Weekdays.WeekdayCircle | src/CommonLibraries/includes/date.h:1902-1920 | weekdays are a circle of seven under plus and minus |
| Weekdays.YmwdOkIffExists | src/CommonLibraries/includes/date.h:3259-3292 | `ok` holds exactly when the month has that many of the weekday |
| Weekdays.YmwdToDaysIsNth | src/CommonLibraries/includes/date.h:3259-3292 | the day number is that of the nth such weekday, counted through the month |
| Weekdays.YmwdRoundTrip | src/CommonLibraries/includes/date.h:3259-3292 | every valid nth-weekday date survives the way to its day number and back |
| Weekdays.YmwdFromDaysRoundTrip | src/CommonLibraries/includes/date.h:3259-3292 | every representable day number survives the way to a valid nth-weekday date and back |
| Weekdays.LastWeekdayIsLast | src/CommonLibraries/includes/date.h:3466-3473 | the last-weekday form gives that weekday within the last seven days of the month |
| IsoWeek.StartIsWeekOne | src/CommonLibraries/includes/date.h:5338-5354 | the last Thursday of December plus four days is the Monday of ISO week 1 |
| IsoWeek.FormatIsIso | src/CommonLibraries/includes/date.h:5338-5354 | the printed week is the ISO week, and lies in 1 to 53, for exactly all representable days but the first two |
| IsoWeek.FromIsoIsDay | src/CommonLibraries/includes/date.h:7712-7730 | the date put together from ISO parts is the day they stand for |
| IsoWeek.IsoParseFormat | src/CommonLibraries/includes/date.h:7712-7730 | printing the date put together from ISO parts gives those parts |
| IsoWeek.IsoRoundTrip | src/CommonLibraries/includes/date.h:7712-7730 | printing ISO parts and reading them back gives the day for exactly all representable days but the first two |
| Timestamp.InputStream.Peek | src/CommonLibraries/includes/date.h:6226-6243 | looking past the end sets the end bit and fails the second time |
| Timestamp.InputStream.ReadChar | src/CommonLibraries/includes/date.h:6226-6243 | takes the expected character or fails |
| Timestamp.InputStream.ReadUnsigned | src/CommonLibraries/includes/date.h:6303-6338 | takes the longest run of at most M digits, and fails under m |
| Timestamp.InputStream.ReadSigned | src/CommonLibraries/includes/date.h:6340-6367 | takes an optional sign and a number |
| Timestamp.InputStream.ReadSeconds | src/CommonLibraries/includes/date.h:6369-6419 | takes seconds with a fraction, in exact reals |
| Timestamp.FromStream | src/CommonLibraries/includes/date.h:8012-8030 | the stream parser gives exactly the instant that the text stands for, or fails |
| Timestamp.GetUTCTime | src/CommonLibraries/json/Base.hpp:112-128 | normalises a time stamp with `Z` or an offset, or gives an empty string |
| Timestamp.ParseFormat | src/CommonLibraries/includes/date.h:7509-7572 | for every representable second, the printed form parses back to the instant exactly when the year is readable, and fails otherwise |
| Timestamp.UtcOfFormat | src/CommonLibraries/json/Base.hpp:112-128 | a printed instant is normalised to itself, or to an empty string when its year is not readable |
| Timestamp.UtcIdempotent | src/CommonLibraries/json/Base.hpp:112-128 | applied to any text, normalising twice is normalising once exactly when the year of the result is readable |
| Timestamp.ParseZoned | src/CommonLibraries/includes/date.h:6937-6956 | with an offset, the instant is local time minus the offset |
| Timestamp.ParsedInRange | src/CommonLibraries/includes/date.h:7300-7315 | every parsed instant has a representable date |
| TimestampForms.ParsesStamps | src/CommonLibraries/includes/date.h:7507-7572 | for every text, parsing succeeds exactly when the text starts with a stamp, as the grammar gives it (signed years of one to four digits, one or two digits per field, seconds with or without a fraction, `Z` or an offset of one or two digits of hours with or without a sign, and with or without minutes), and gives local time minus offset |
| TimestampForms.UtcOfStamp | src/CommonLibraries/json/Base.hpp:112-128 | a text that starts with a stamp is normalised to the second that its instant falls into, or to an empty string when a field is out of range |
| TimestampForms.UtcOfOther | src/CommonLibraries/json/Base.hpp:112-128 | any other text gives an empty string |
| TimestampForms.FormatIsForm | src/CommonLibraries/includes/date.h:5309-5345 | a printed instant is a stamp whose year has at least four characters and whose other fields have two digits each; they add up to the instant |
| TimestampForms.RoundsToNearest | src/CommonLibraries/includes/date.h:1278-1292 | rounding goes to the nearest integer, and to the even one of two |
| TimestampForms.MillisecondsExact | src/CommonLibraries/includes/date.h:6369-6419 | up to three digits of a fraction are exact milliseconds |
| Masking.ByteMask | src/CommonLibraries/includes/websocketpp/frame.hpp:644-655 | writes the mask of RFC 6455 section 5.3 and nothing else |
| Masking.WordMaskExact | src/CommonLibraries/includes/websocketpp/frame.hpp:702-717 | masking by machine words, of four or eight octets, writes the same bytes as masking by bytes |
| Masking.WordMaskCirc | src/CommonLibraries/includes/websocketpp/frame.hpp:768-789 | masks with a prepared key of either word size, writes only `length` bytes, and returns the rotated key |
| Masking.ByteMaskCirc | src/CommonLibraries/includes/websocketpp/frame.hpp:830-841 | masks with the low four bytes of a prepared key and returns the rotated key |
| Masking.MaskTwice | src/CommonLibraries/includes/websocketpp/frame.hpp:644-655 | masking twice is the identity |
| Masking.MaskTurnsBits | src/CommonLibraries/includes/websocketpp/frame.hpp:644-655 | a bit of the data is turned over exactly where the bit of the key octet at its position is set |
| Masking.NextKeyHolds | src/CommonLibraries/includes/websocketpp/frame.hpp:612-623 | the rotated key continues the key stream where the chunk ended |
| Masking.CircMaskIsMask | src/CommonLibraries/includes/websocketpp/frame.hpp:768-789 | masking with a prepared key is byte masking at the key's position, on either byte order |
| Masking.LowBytesMask | src/CommonLibraries/includes/websocketpp/frame.hpp:830-841 | the byte-wise form with a prepared key is byte masking at the key's position |
| Masking.MaskChunksIsMask | src/CommonLibraries/includes/websocketpp/frame.hpp:768-789 | any sequence of chunks masked with the threaded key equals masking their concatenation |
| Masking.PreparedStream | src/CommonLibraries/includes/websocketpp/frame.hpp:595-610 | the same from a freshly prepared key, for a `size_t` of four or eight octets |
| Frame.MakeBasicHeader | src/CommonLibraries/includes/websocketpp/frame.hpp:188-230 | sets flags, opcode, mask bit and the 7-bit length code |
| Frame.MakeExtendedHeader | src/CommonLibraries/includes/websocketpp/frame.hpp:232-275 | stores the length in network order, then the key, then zeros |
| Frame.CopyPayload | src/CommonLibraries/includes/websocketpp/frame.hpp:246-274 | writes 0, 2 or 8 length bytes and leaves the rest |
| Frame.NetworkOrder | src/CommonLibraries/includes/websocketpp/common/network.hpp:66-100 | the host-to-network conversion reverses the bytes of a word and undoes itself, on either byte order |
| Frame.WriteFrameHeader | src/CommonLibraries/includes/websocketpp/frame.hpp:489-502 | the written header is the wire form of section 5.2 of RFC 6455 |
| Frame.HeaderRoundTrip | src/CommonLibraries/includes/websocketpp/frame.hpp:445-585 | for every opcode, flags, 64-bit size and key, the header has the announced length and the getters recover all fields |
| Frame.HeaderRead | src/CommonLibraries/includes/websocketpp/frame.hpp:516-585 | size and key are read back whatever follows them in the buffer |
| Frame.ShortestForm | src/CommonLibraries/includes/websocketpp/frame.hpp:194-228 | whatever header is received, the size read from it needs no longer a size field than that header has: no shorter form stands for a size that is written in a longer one |
| Frame.FormTellsSize | src/CommonLibraries/includes/websocketpp/frame.hpp:194-228 | the length code and the size field determine the size |
| Frame.Layout | src/CommonLibraries/includes/websocketpp/frame.hpp:188-275 | where each field of a header stands, bit by bit in the first two octets and octet by octet in the size and the key |
| Bytes.ByteRoundTrip | src/CommonLibraries/includes/websocketpp/frame.hpp:194-228 | a number below 256 survives the way to a byte and back |
| Bytes.NumberRoundTrip | src/CommonLibraries/includes/websocketpp/frame.hpp:194-228 | a byte survives the way to a number and back |
| Bytes.BitsCount | src/CommonLibraries/includes/websocketpp/frame.hpp:194-228 | the bits of a byte count 128 to 1 |
| Utf8.ClassOf | src/CommonLibraries/includes/websocketpp/utf8_validator.hpp:45-60 | the byte classes of the table |
| Utf8.NextOf | src/CommonLibraries/includes/websocketpp/utf8_validator.hpp:45-60 | the transitions of the table |
| Utf8.Validator.Advance | src/CommonLibraries/includes/websocketpp/utf8_validator.hpp:69-78 | one octet moves state and code point as the table says |
| Utf8.Validator.Consume | src/CommonLibraries/includes/websocketpp/utf8_validator.hpp:86-96 | one octet is consumed; false exactly on rejection; the validator stays where all octets so far lead |
| Utf8.Validator.DecodeRange | src/CommonLibraries/includes/websocketpp/utf8_validator.hpp:105-118 | a range is decoded up to its end or the first rejection; the validator stays where all octets so far lead, or rejecting |
| Utf8.Validator.Complete | src/CommonLibraries/includes/websocketpp/utf8_validator.hpp:120-126 | true exactly when all octets handed in since the start or the last reset, in whatever calls, are a concatenation of encoded scalar values |
| Utf8.Validate | src/CommonLibraries/includes/websocketpp/utf8_validator.hpp:143-149 | decides validity |
| Utf8.ValidIffUtf8 | src/CommonLibraries/includes/websocketpp/utf8_validator.hpp:143-149 | valid are exactly the concatenations of shortest encodings of scalar values: no overlong forms, surrogates or larger values |
| Utf8.CodePointsAreScalars | src/CommonLibraries/includes/websocketpp/utf8_validator.hpp:69-78 | on each return to the accepting state the code point is the scalar value just encoded |
| Utf8.DecodeSplit | src/CommonLibraries/includes/websocketpp/utf8_validator.hpp:105-118 | splitting the input across two calls does not change the outcome |
| Utf8.ChunksDecideTogether | src/CommonLibraries/includes/websocketpp/utf8_validator.hpp:105-126 | neither does splitting it into any chunks |
| Base64.Encode | src/CommonLibraries/includes/websocketpp/base64/base64.hpp:66-112 | the buffered loop writes the encoding of section 4 of RFC 4648 |
| Base64.Decode | src/CommonLibraries/includes/websocketpp/base64/base64.hpp:131-174 | the buffered loop decodes up to the first other character |
| Base64.FindIsSextet | src/CommonLibraries/includes/websocketpp/base64/base64.hpp:43-58 | the position in the alphabet is the sextet, and 255 outside it |
| Base64.EncodedLength | src/CommonLibraries/includes/websocketpp/base64/base64.hpp:66-112 | the encoded length is four for every three octets or part of three |
| Base64.DecodeEncode | src/CommonLibraries/includes/websocketpp/base64/base64.hpp:131-174 | decoding inverts encoding for every octet string |
| Base64.EncodeDecode | src/CommonLibraries/includes/websocketpp/base64/base64.hpp:131-174 | encoding gives a text back exactly when it is canonically padded |
| Base64.EncodesGroup | src/CommonLibraries/includes/websocketpp/base64/base64.hpp:66-88 | three octets are written as four letters of the alphabet of RFC 4648 that carry the same 24 bits |
| Base64.EncodesOne | src/CommonLibraries/includes/websocketpp/base64/base64.hpp:90-109 | a last octet is written as two letters and `==` |
| Base64.EncodesTwo | src/CommonLibraries/includes/websocketpp/base64/base64.hpp:90-109 | two last octets are written as three letters and `=` |
| Base64.DecodesGroup | src/CommonLibraries/includes/websocketpp/base64/base64.hpp:131-155 | four letters are read as three octets that carry the same 24 bits |
| Base64.DecodesEnd | src/CommonLibraries/includes/websocketpp/base64/base64.hpp:131-174 | up to three letters before any other character give their whole octets, and what follows is not read |
| Md5.State.constructor | src/CommonLibraries/includes/websocketpp/common/md5.hpp:349-355 | the state of an empty message |
| Md5.State.Count | src/CommonLibraries/includes/websocketpp/common/md5.hpp:357-370 | the two counter words with carry are the length in bits modulo 2 to the 64 |
| Md5.State.AppendPartial | src/CommonLibraries/includes/websocketpp/common/md5.hpp:372-382 | fills the buffered block and processes it when full |
| Md5.State.Append | src/CommonLibraries/includes/websocketpp/common/md5.hpp:357-391 | the state after any split of a message depends on the message only |
| Md5.State.Finish | src/CommonLibraries/includes/websocketpp/common/md5.hpp:393-412 | the digest of the whole padded message |
| Md5.HashString | src/CommonLibraries/includes/websocketpp/common/md5.hpp:415-428 | the digest of a string |
| Md5.HashChunks | src/CommonLibraries/includes/websocketpp/common/md5.hpp:357-412 | appending a message in any pieces gives the digest of the concatenation |
| Md5.DigestIsRegisters | src/CommonLibraries/includes/websocketpp/common/md5.hpp:393-412 | the digest of a message holds the four registers after its padded form, A to D, each from its lowest octet to its highest |
| Md5.PaddedOctets | src/CommonLibraries/includes/websocketpp/common/md5.hpp:393-409 | the padded form is the message, 0x80, as few zeros as fill a block, and eight octets whose value is the length in bits modulo 2 to the 64 |
| Md5.FoldsBlocks | src/CommonLibraries/includes/websocketpp/common/md5.hpp:349-391 | blocks are processed from the first to the last, starting with the registers of section 3.3 of RFC 1321 |
| Md5.CountAdds | src/CommonLibraries/includes/websocketpp/common/md5.hpp:357-370 | the carry into the upper word is exact for every word pair and length |
| Md5.PaddedIsWhole | src/CommonLibraries/includes/websocketpp/common/md5.hpp:393-412 | the padded length is a multiple of 64 |
| Md5.PaddingIsLeast | src/CommonLibraries/includes/websocketpp/common/md5.hpp:393-412 | the padding is the shortest that leaves room for the length |
| Md5.PaddedInjective | src/CommonLibraries/includes/websocketpp/common/md5.hpp:393-412 | different messages below 2 to the 61 octets have different padded forms |
| Uri.Uri.constructor | src/CommonLibraries/includes/websocketpp/uri.hpp:51-181 | the parsing loops set exactly the fields that the parts of the text stand for |
| Uri.Uri.ScanLiteral | src/CommonLibraries/includes/websocketpp/uri.hpp:97-132 | reads a bracketed host and tells what follows it |
| Uri.Uri.ScanHost | src/CommonLibraries/includes/websocketpp/uri.hpp:133-150 | reads a host up to the first colon or slash |
| Uri.Uri.ScanPort | src/CommonLibraries/includes/websocketpp/uri.hpp:152-167 | reads a port up to the first slash |
| Uri.PortRoundTrip | src/CommonLibraries/includes/websocketpp/uri.hpp:338-358 | every port from 1 to 65535 reads back from its numeral |
| Uri.AuthorityFacts | src/CommonLibraries/includes/websocketpp/uri.hpp:97-180 | what a valid parse says about port, resource and host |
| Uri.ParsePrint | src/CommonLibraries/includes/websocketpp/uri.hpp:287-298 | parsing the printed form gives back every printed field of a valid URI exactly when it is printable, including an omitted default port |
| UriForms.PartsRead | src/CommonLibraries/includes/websocketpp/uri.hpp:51-181 | scheme, credentials, host or bracketed literal, port and path of a text are read as what they are, and the URI is valid exactly when its port is one |
| UriForms.PortIff | src/CommonLibraries/includes/websocketpp/uri.hpp:338-358 | a port text, with blanks, a sign or other characters behind its digits, is a port exactly when its number is from 1 to 65535; an empty one is 80, or 443 when secure |
| UriForms.NoScheme | src/CommonLibraries/includes/websocketpp/uri.hpp:60-80 | a text without one of the four schemes, or with nothing behind it, is not read |
| UriForms.BracketsInvalid | src/CommonLibraries/includes/websocketpp/uri.hpp:97-132 | a bracket that is not closed, or is not followed by a port or a path, makes a URI invalid |
| UriForms.PrintsParts | src/CommonLibraries/includes/websocketpp/uri.hpp:287-298 | a URI is printed as its scheme, host, port and path, without the port exactly when that is the default of its scheme |
| Messages.HandleIncomingMsg | src/CommonLibraries/json/Base.hpp:22-40 | extracts identifier and body field by field |
| Messages.CallRecovered | src/CommonLibraries/json/Base.hpp:22-50 | identifier and body of a call are recovered, for any body, exactly when number and action have no comma |
| Messages.ResponseRecovered | src/CommonLibraries/json/Base.hpp:22-50 | identifier and body of a reply are recovered, for any body, exactly when the identifier has no comma |
| Messages.MessageManager.AddMessage | src/CommonLibraries/MessageManager.cpp:20-59 | routes a raw message by its type, and reports whether it was queued |
| Messages.MessageManager.GetCALLMessage | src/CommonLibraries/MessageManager.cpp:62-70 | takes the oldest call |
| Messages.MessageManager.ScanOnce | src/CommonLibraries/MessageManager.cpp:80-93 | removes the first match only |
| Messages.MessageManager.GetResponseMessage | src/CommonLibraries/MessageManager.cpp:72-101 | scans again after each batch of arrivals until its time is up |
| Messages.PollTakesFirst | src/CommonLibraries/MessageManager.cpp:72-101 | whenever replies arrive, polling takes the first match among all of them and keeps the others in order |
| GateProtocol.DeliveredWhole | src/CommonLibraries/MessageManager.cpp:20-34 | a payload arrives whole exactly when it has no `#` |
| GateProtocol.CallDelivered | src/CommonLibraries/MessageManager.cpp:20-59 | a request is appended to the call queue of the server |
| GateProtocol.ReplyDelivered | src/CommonLibraries/MessageManager.cpp:20-59 | a reply is appended to the result queue of the gate, labelled as that of a local controller |
| GateProtocol.TypeRoutes | src/CommonLibraries/MessageManager.cpp:20-59 | a message is queued by the type in front of its first comma, 0 as a call and 1 as a reply, and dropped otherwise |
| GateProtocol.GateIdIsQuoted | src/ParkManagerClient/Gate.cpp:106-111 | the gate waits for the quoted number of its request |
| GateProtocol.KeyOfReply | src/CommonLibraries/MessageManager.cpp:80-87 | a reply built from the extracted, still quoted identifier is matched by that identifier |
| GateProtocol.ServerSees | src/ParkManager/ParkManagerServer.cpp:84-126 | the server sees number, action and body of the oldest request not yet taken unchanged, and the connection it came from |
| GateProtocol.ScanFinds | src/CommonLibraries/MessageManager.cpp:80-93 | the scan stops at the first queued reply that answers a request with the same number |
| GateProtocol.FetchGetsAnswer | src/ParkManagerClient/Gate.cpp:106-118 | a fetch gives the exact body of the first answer to that number which its gate has not fetched, or nothing if there is none |
| GateProtocol.StepKeeps | src/ParkManager/ParkManagerServer.cpp:84-126 | every send, serve and fetch, of any gate, is defined and keeps the queues consistent |
| GateProtocol.RunsAreConsistent | src/CommonLibraries/MessageManager.cpp:20-101 | over every run of any number of gates, calls are queued in order and each reply stays with its own request at the gate that sent it |
| GateProtocol.StartsWithAnyGates | src/ParkManagerClient/Gate.cpp:106-118 | a run can start with any number of gates whose connections differ |
| GateProtocol.RunsGoOn | src/ParkManager/ParkManagerServer.cpp:84-126 | no run gets stuck: whatever text without separators is sent, a queued call is served, or a request is fetched, the run goes on |
| GateProtocol.RunsCorrelate | src/ParkManagerClient/Gate.cpp:106-118 | over every run, a fetch is defined and gives the answer to the earliest request of that gate with the same number that was not fetched |
| GateProtocol.OwnReplyIff | src/ParkManagerClient/Gate.cpp:106-118 | over every run, a fetch takes the reply to its own request exactly when that is queued and no earlier request of the gate with the same number has one queued |
| GateProtocol.RunsServeInOrder | src/ParkManager/ParkManagerServer.cpp:84-126 | over every run, the requests of all gates are served first in, first out |
| GateProtocol.RunsSend | src/CommonLibraries/json/Base.hpp:42-50 | over every run, a request that is sent is queued last at the server, as the text of its envelope |
| GateProtocol.RunsAnswerKnown | src/ParkManager/ParkManagerServer.cpp:84-126 | over every run, the oldest request not yet taken is answered exactly when its action is GateRegistration, CarStatusUpdate or CarEnterence; the text of the reply is then queued last at the gate that sent it, and otherwise no gate is sent anything |
| Parking.RegistrationMeans | src/ParkManager/ParkManagerServer.cpp:142-165 | a registration is rejected exactly for an unknown type, answered Exist exactly when the name was in the set of its type, and changes nothing but that set |
| Parking.GatesOnlyGrow | src/ParkManager/ParkManagerServer.cpp:142-165 | over every run, registered gates stay registered |
| Parking.RegisteredOnce | src/ParkManager/ParkManagerServer.cpp:142-165 | after a registration and any run, registering the same gate again is answered Exist |
| Parking.ParkManagerServer.OnCarEntrance | src/ParkManager/ParkManagerServer.cpp:185-226 | takes a slot, registers the car and names the slot, or turns the driver away |
| Parking.ParkManagerServer.OnCarStatusUpdate | src/ParkManager/ParkManagerServer.cpp:254-283 | gives the slot back and moves the record of a normal car away |
| Parking.EnterKeeps | src/ParkManager/ParkManagerServer.cpp:190-226 | an entry keeps the slots conserved, which is the count and every standing car registered for the kind of its slot, exactly when no parked car is let in again |
| Parking.EnterCounts | src/ParkManager/ParkManagerServer.cpp:190-226 | an entry keeps free plus occupied slots exactly when an admitted plate is not yet counted for the kind of slot it gets |
| Parking.LeaveKeeps | src/ParkManager/ParkManagerServer.cpp:254-283 | an exit is defined and keeps them conserved exactly when no registered plate leaves that is not parked |
| Parking.LeaveCounts | src/ParkManager/ParkManagerServer.cpp:254-283 | an exit is defined and keeps free plus occupied slots exactly when a plate without a record stands nowhere, and one with a record stands on a slot of its record's kind only |
| Parking.StepKeeps | src/ParkManager/ParkManagerServer.cpp:190-283 | conservation, for every message |
| Parking.StepCounts | src/ParkManager/ParkManagerServer.cpp:190-283 | the count, for every message |
| Parking.ConservedIffDisciplined | src/ParkManager/ParkManagerServer.cpp:190-283 | from an empty car park, counts and registrations are conserved throughout exactly the disciplined runs |
| Parking.CountedIffKept | src/ParkManager/ParkManagerServer.cpp:190-283 | from an empty car park, free plus occupied slots of each kind equal the maximum throughout exactly the runs whose every message keeps the count |
| Parking.DisciplinedKeepsCount | src/ParkManager/ParkManagerServer.cpp:190-283 | a disciplined message keeps the count |
| Parking.ReentryOnOtherKind | src/ParkManager/ParkManagerServer.cpp:195-202 | a parked car let in on a slot of the other kind keeps the count, and its next exit breaks it |
| Parking.Bounds | src/ParkManager/ParkManagerServer.cpp:190-283 | the counters stay within bounds and no more cars stand than there are slots |
| Parking.SlotRanges | src/ParkManager/ParkManagerServer.cpp:195-223 | normal slots are 1 to the normal maximum, handicap slots follow; a driver is turned away exactly when no slot is left for them |
| Parking.LeavingFreesOwnKind | src/ParkManager/ParkManagerServer.cpp:277-282 | leaving frees a slot of the kind the car stands on |
| Parking.HandicapOnNormal | src/ParkManager/ParkManagerServer.cpp:196-202 | a handicap driver who got a normal slot gives back a normal slot after any run in between |
| Parking.LeavesTwice | src/ParkManager/ParkManagerServer.cpp:254-283 | what a second exit of the same plate does |
| Parking.UnknownIffNeverAdmitted | src/ParkManager/ParkManagerServer.cpp:254-283 | after any run from an empty car park, a plate is unknown at the exit exactly when it was never admitted in that run |
| Parking.GoodbyeWhenParked | src/ParkManager/ParkManagerServer.cpp:254-283 | after any disciplined run from an empty car park, the exit of a parked car is answered with the goodbye |
| Parking.ExitAnswers | src/ParkManager/ParkManagerServer.cpp:254-283 | after any run from an empty car park, which answer an exit gets, told from the last admission of the plate and whether it left a normal slot since |
| IniOrder.IsLess | src/CommonLibraries/includes/SimpleIni.h:2879-2893 | decides the case-insensitive order |
| IniOrder.LessIrreflexive | src/CommonLibraries/includes/SimpleIni.h:2879-2893 | no name is less than itself |
| IniOrder.LessTransitive | src/CommonLibraries/includes/SimpleIni.h:2879-2893 | the order is transitive |
| IniOrder.UnorderedIsSameFolded | src/CommonLibraries/includes/SimpleIni.h:2879-2893 | two names are unordered exactly when they agree after folding ASCII letters |
| IniOrder.UnorderedTransitive | src/CommonLibraries/includes/SimpleIni.h:2879-2893 | being unordered is transitive: a strict weak order |
| IniOrder.FoldedMeans | src/CommonLibraries/includes/SimpleIni.h:2879-2893 | two names fold to the same text exactly when they agree character by character but for the case of ASCII letters |
| IniOrder.FirstDecides | src/CommonLibraries/includes/SimpleIni.h:2879-2893 | the first character that differs decides the order, by its number in lower case |
| IniLines.OutputMultiLineText | src/CommonLibraries/includes/SimpleIni.h:2695-2720 | writes a text and one newline, and nothing for an empty text |
| IniLines.IsMultiLineData | src/CommonLibraries/includes/SimpleIni.h:1778-1811 | white characters at either end or a newline inside |
| IniLines.PrintedLoadsIff | src/CommonLibraries/includes/SimpleIni.h:1859-1987 | a printed text loads back, whatever follows it, exactly when it has no carriage return and no line that is taken for the tag |
| IniLines.CommentReadIff | src/CommonLibraries/includes/SimpleIni.h:1859-1987 | a comment is read back, whatever follows it that is no comment, exactly when its lines and the blank lines between them are clean |
| IniLines.CommentsAreClean | src/CommonLibraries/includes/SimpleIni.h:1859-1987 | whatever comment is loaded is clean in that sense |
| IniBuffer.EndLine | src/CommonLibraries/includes/SimpleIni.h:1920-1933 | moves a line down in place and ends it |
| IniBuffer.IsTagLine | src/CommonLibraries/includes/SimpleIni.h:1935-1950 | compares a line with the tag; trims it only if nothing was moved before |
| IniBuffer.LoadTagged | src/CommonLibraries/includes/SimpleIni.h:1859-1987 | the in-place loading delivers exactly the tagged text and leaves the rest of the buffer; writing never passes reading |
| IniBuffer.LoadComments | src/CommonLibraries/includes/SimpleIni.h:1859-1987 | the same for comments, with blank lines between comment lines |
| IniParser.ItemRoundTrip | src/CommonLibraries/includes/SimpleIni.h:2651-2683 | a printed key and value, on one line or as lines, reads back and leaves what follows |
| IniParser.ItemReadIff | src/CommonLibraries/includes/SimpleIni.h:2627-2683 | a printed item with the comment before it is read back, and nothing of what follows, exactly when comment and key are clean and the value can be written in that mode |
| IniParser.HeaderRoundTrip | src/CommonLibraries/includes/SimpleIni.h:2612-2621 | so does a printed section name |
| IniParser.HeaderReadIff | src/CommonLibraries/includes/SimpleIni.h:2590-2621 | a printed section name with its comment is read back exactly when both are clean |
| IniParser.DocRoundTrip | src/CommonLibraries/includes/SimpleIni.h:2606-2688 | the text of clean sections reads back as their entries |
| IniParser.EntriesOk | src/CommonLibraries/includes/SimpleIni.h:1610-1761 | whatever is parsed, in either mode, has clean comments and keys, section names that are clean or grown under an open header, and clean values on one line |
| IniNames.GrownNotKept | src/CommonLibraries/includes/SimpleIni.h:1640-1757 | a section whose name grew under an open header, written with a key, is read back under another name that holds a newline |
| IniNames.GrownRenamed | src/CommonLibraries/includes/SimpleIni.h:1610-1761 | behind any clean sections, in a whole text |
| IniFinder.FindEntry | src/CommonLibraries/includes/SimpleIni.h:1610-1761 | the in-place search finds exactly the next entry and leaves the rest of the buffer untouched |
| IniFinder.FindKey | src/CommonLibraries/includes/SimpleIni.h:1698-1757 | a key and its value, on its line or tagged |
| IniTable.InLoadOrder | src/CommonLibraries/includes/SimpleIni.h:2445-2485 | all records of a map, sorted by load order |
| IniTable.OneOrder | src/CommonLibraries/includes/SimpleIni.h:355-362 | a map has only one list in load order |
| IniStore.AddRefines | src/CommonLibraries/includes/SimpleIni.h:2018-2125 | adding to the ordered maps adds to the list of sections: a key keeps its place and name, new ones come last |
| IniStore.AddAllRefines | src/CommonLibraries/includes/SimpleIni.h:1546-1549 | the same for all entries of a file |
| IniStore.ValueInDoc | src/CommonLibraries/includes/SimpleIni.h:2129-2162 | looking up in the maps is looking up in the list of sections |
| IniStore.AddedValue | src/CommonLibraries/includes/SimpleIni.h:2018-2125 | an entry gives its own key its value, under any spelling of section and key, and leaves the value of every other key |
| IniStore.LastValueCounts | src/CommonLibraries/includes/SimpleIni.h:1546-1552 | after any list of entries, a key has the value that the last of them gave it |
| IniStore.AddedKeeps | src/CommonLibraries/includes/SimpleIni.h:2076-2125 | a key that is there keeps its spelling, comment and place when its value is replaced |
| IniStore.DocBuilt | src/CommonLibraries/includes/SimpleIni.h:2018-2125 | the entries of distinct sections build those sections |
| IniStore.DocIsDistinct | src/CommonLibraries/includes/SimpleIni.h:2018-2125 | no two sections or keys of a store differ in case only |
| IniFile.SimpleIni.AddEntry | src/CommonLibraries/includes/SimpleIni.h:2018-2125 | creates the section, inserts the key or replaces its value, and tells which |
| IniFile.SimpleIni.GetValue | src/CommonLibraries/includes/SimpleIni.h:2129-2162 | the value of a key, or the default |
| IniFile.SimpleIni.LoadData | src/CommonLibraries/includes/SimpleIni.h:1529-1560 | loads a text: a file comment, and every entry; it always ends |
| IniFile.SimpleIni.LoadFileComment | src/CommonLibraries/includes/SimpleIni.h:1583-1606 | a comment at the start of the data is kept once |
| IniFile.SimpleIni.Save | src/CommonLibraries/includes/SimpleIni.h:2546-2691 | writes comments, sections and keys in load order, a section without a name first |
| IniGrammar.CommentLineRead | src/CommonLibraries/includes/SimpleIni.h:1631-1636 | a line that starts with `;` or `#` gives no entry; it starts the comment of the next entry, and is all of it unless another such line follows |
| IniGrammar.CommentGoesOn | src/CommonLibraries/includes/SimpleIni.h:1886-1914 | a comment goes on with each further such line, as that line and one newline character; white characters between the lines are kept as the newlines in them |
| IniGrammar.FileCommentIff | src/CommonLibraries/includes/SimpleIni.h:1583-1606 | a file has a comment exactly when its first character is `;` or `#`, and a store keeps the comment it has |
| IniGrammar.FileCommentLine | src/CommonLibraries/includes/SimpleIni.h:1583-1606 | that line starts the comment of the file, and gives no entry |
| IniGrammar.KeyLineRead | src/CommonLibraries/includes/SimpleIni.h:1677-1757 | a line that starts with any other character but `[` and white ones is a key up to its first `=`, and a value up to its end, without the blanks around them; the comment before it is its own |
| IniGrammar.TaggedRead | src/CommonLibraries/includes/SimpleIni.h:1732-1737 | a value of `<<<` and a tag is the lines up to the first that is the tag in any case |
| IniGrammar.TagFreeIff | src/CommonLibraries/includes/SimpleIni.h:1933-1948 | a text is delivered whole in front of its tag exactly when none of its lines is the tag in any case with blanks behind it |
| IniGrammar.TaggedLines | src/CommonLibraries/includes/SimpleIni.h:1916-1975 | lines in front of the tag are delivered with one newline character between them, whatever newlines they have in the data; blanks behind the tag do not matter until a newline of two characters was passed |
| IniGrammar.TaggedToTheEnd | src/CommonLibraries/includes/SimpleIni.h:1950-1954 | without its tag, a text runs to the end of the data |
| IniGrammar.TagAtOnce | src/CommonLibraries/includes/SimpleIni.h:1936-1948 | a tag on the first line becomes the text itself, and with no blanks behind it the text runs on to the end of the data |
| IniGrammar.KeylessLineSkipped | src/CommonLibraries/includes/SimpleIni.h:1684-1688 | a line without `=` gives no entry and leaves the comment to the next one |
| IniGrammar.NamelessLineSkipped | src/CommonLibraries/includes/SimpleIni.h:1690-1696 | so does a line that starts with `=` |
| IniGrammar.HeaderLineRead | src/CommonLibraries/includes/SimpleIni.h:1638-1675 | a header names a section by what stands between its brackets, without the white characters around it; what follows the closing bracket on its line is passed over |
| IniGrammar.ValueKept | src/CommonLibraries/includes/SimpleIni.h:2651-2683 | a value of any shape without a carriage return is written and read back, unless one of its lines is the tag or it starts with `<<<` |
| IniGrammar.ItemWritten | src/CommonLibraries/includes/SimpleIni.h:2651-2683 | how a key is written: on one line, or between tags when a newline is in its value or an end of it is white |
| IniGrammar.TextWritten | src/CommonLibraries/includes/SimpleIni.h:2582-2691 | how comments, headers and keys are put together |
| IniRoundTrip.SavedIsDocText | src/CommonLibraries/includes/SimpleIni.h:2546-2691 | what is written is the text of the sections with their comments, behind the comment of the file |
| IniRoundTrip.SavedLayout | src/CommonLibraries/includes/SimpleIni.h:2558-2612 | the comment of the file comes first, then two newlines if a section follows, then the section without a name, then the others in load order |
| IniRoundTrip.LoadedOk | src/CommonLibraries/includes/SimpleIni.h:1529-1560 | whatever text is loaded, in either mode, the store is valid, its comments and keys are clean, its section names are clean or grown and then have a key, and its values are clean on one line |
| IniRoundTrip.TextIsReadAs | src/CommonLibraries/includes/SimpleIni.h:2577-2621 | the comment written for a section without a name is read as part of the comment of its first key, or of the next section |
| IniRoundTrip.SaveLoad | src/CommonLibraries/includes/SimpleIni.h:2546-2691 | loading a saved store gives back sections, keys, values and comments in order, the comment of the file, every lookup, and the same text when saved again, with and without multi-line values |
| IniRoundTrip.SaveLoadIff | src/CommonLibraries/includes/SimpleIni.h:2546-2691 | for every store with single-line values, saving and loading gives back sections and comments exactly when names, keys, values and comments are clean, an unnamed section has items and no comment, and no first comment would be taken for the file's |

## Left out

- Sockets, TLS, threads, futures, sleeps and logging: a send is delivered at once, each queue operation is one step, and polling takes the
  replies that arrive between its scans as a parameter.
- WebSocket connections, handshakes and the processors (`connection.hpp`, `processors/*.hpp`): only their byte-level routines are modelled.
- JSON encoding: bodies are opaque strings.
- `GetTimeByString` and `GetTimeinSeconds`: they depend on `strptime`, `mktime` and the local time zone.
- Timestamp.InputStream.ReadSeconds: does not model the rounding of `long double`; seconds are exact reals.
- Timestamp.FromStream: models the formats `%FT%TZ` and `%FT%T%Ez` only, without locale facets or stream formatting state.
- The fee of a parked car: a floating-point product, and unrelated to the slots.
- Md5.State.Append: does not model lengths near 2 to the 64, where `offset + nbytes` would wrap; the rounds of `md5_process` are a parameter.
- Base64.Decode: does not model texts longer than an `int` can index.
- Uri.Uri.constructor: where the program looks at the end of the string for a bracket, the model sees none; the value of `atoi` beyond the
  range of `int`, which C leaves undefined, is taken modulo 2 to the 32; the port of an invalid URI, which stays unset, is 0.
- Messages.HandleIncomingMsg: a text with too few fields, which the program reads out of bounds, gives None.
- Messages.MessageManager.AddMessage: requires the two `#` that every caller writes.
- Parking.ParkManagerServer.OnCarEntrance: the answer holds the slot number instead of the whole text shown to the driver.
- Parking.ConservedIffDisciplined: like `Parking.CountedIffKept`, for configured numbers of slots whose sum is below 2 to the 32; beyond that a slot number can wrap to 0, and
  the driver is turned away although a slot was counted. Slot ranges are for sums below 2 to the 31.
- GateProtocol.RunsCorrelate: texts are free of the separators, as `GateProtocol.Enabled` says, and every gate has a connection with a URI of
  its own; lost connections and reconnecting are not modelled.
- Slot numbers need not be unique: the counters do not remember which number was freed.
- IniFinder.FindEntry: strings are taken when the entry is returned, not kept as pointers into the buffer; key-only lines and quoted values
  are off, as by default.
- IniFile.SimpleIni.LoadData: byte order marks, character set conversion and memory failures; a NUL in a text ends it.
- IniFile.SimpleIni.AddEntry: without multiple keys and deletion; the load order counter does not overflow.
- IniRoundTrip.SaveLoadIff: with multi-line values, only the direction of `SaveLoad` is stated for whole stores, and the equivalence for each entry
  (`IniParser.ItemReadIff`): a value that ends early lets the rest of its text add entries and replace values of other sections.
