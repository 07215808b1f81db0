# DNS message codec and canned responder

A model of the core of `dns-server.py`, a small UDP DNS server. For every
datagram it receives, the server:

1. parses the 12-byte message header (`DNSHeader.unpack`);
2. parses the question that follows it (`DNSQuestion.unpack`, which uses
   `decode_name`);
3. replies with three parts, packed one after another:
   - a header built from the request's (`DNSHeader.pack`);
   - the question, echoed (`DNSQuestion.pack`, which uses
     `encode_domain_name`);
   - one A record for the asked name that points at 8.8.8.8 (`DNSAnswer.pack`).

The project has one module per concern:

| file | module | what it models |
|---|---|---|
| `wire.dfy` | `Wire` | Bytes; Python's `int.to_bytes(n, 'big')` and `struct`'s `>H`; Python's `|` on non-negative integers; the `Result` type. Python exceptions become `Err` values: `OverflowError`/`struct.error` when packing, `struct.error`/`IndexError` on a short buffer, `UnicodeDecodeError` for label bytes. |
| `header.dfy` | `MessageHeader` | The header record, its packing into six big-endian 16-bit words, the flags word built with shifts and `|`, and unpacking with shifts and masks. |
| `name.dfy` | `DomainName` | `str.split('.')` and `'.'.join`. `encode_domain_name` and `decode_name` are methods with loops. Each is proved equal to a specification function, `NameEncoding` or `ReadName`. |
| `records.dfy` | `Records` | The question and answer records: packing both, and unpacking the question. |
| `response.dfy` | `Responder` | Steps 1 to 6 of the server loop as a function from the received bytes to the reply bytes. |

What is proved:

- **Header:** pack/unpack round trips in both directions; packing gives 12 bytes, and fails exactly when a field, or the or-ed flags word, does not fit 16 bits; unpacking fails below 12 bytes and ignores anything past them.
- **Names:**
  - the encoded layout of a name and its length;
  - the name round trip, at any offset and whatever follows the name;
  - the cases where decoding fails.
- **Records:** the question round trip; the question and answer record layouts; the root question.
- **Reply:**
  - the reply header echoes the request's id, opcode and RD bit;
  - QR is 1, QDCOUNT and ANCOUNT are 1, and every other field is 0;
  - the question, packed again from what was parsed, sits verbatim after the header;
  - when the request's labels are at least one and none holds a dot, those bytes are the request's own question bytes;
  - the answer is type 1, class 1, TTL 60, with data 8.8.8.8.

The code leaves out these parts of RFC 1035 (and of what a DNS server
usually does), and the model follows the code:

- No reply sets RCODE 4 for a non-zero opcode. `ReplyHeaderFields` proves RCODE is 0 for every request.
- Names are never compressed on either side (section 4.1.4 of RFC 1035).
- A label is not limited to 63 bytes (section 2.3.4 of RFC 1035). The only limit is the one-byte length (255), which `to_bytes(1, 'big')` enforces.

## Model

| member | source | states |
|---|---|---|
| Wire.ToBytes | dns-server.py:60 | `x.to_bytes(n, 'big')` succeeds exactly when x < 256^n; the result is n bytes whose big-endian value is x |
| Wire.BigEndianRoundTrip | dns-server.py:13-27 | a value that fits n bytes, written big-endian and read back, is itself (`struct.pack` then `struct.unpack` of a `>H` field) |
| Wire.FromBigEndianRoundTrip | dns-server.py:13-27 | any byte string, read as a big-endian value and written back at its own width, is itself |
| Wire.BitOr | dns-server.py:25-26 | Python's bitwise or on non-negative integers is at least each operand and at most their sum |
| Wire.BigEndian | dns-server.py:27 | the `>H` form of a value as `struct.pack` writes it: always n bytes |
| Wire.FromBigEndian | dns-server.py:13 | the value `struct.unpack` reads from big-endian bytes: below 256 to the power of their count |
| Wire.ToBytesOfRead | dns-server.py:55-60 | the value read from a byte string, written back at the same width, never overflows and gives that byte string |
| Wire.BitOrDisjoint | dns-server.py:25-26 | or-ing `a << k` with a value below 2^k adds them (no shared bits) |
| Wire.BitOrBelow | dns-server.py:25-26 | or-ing two values below 2^k gives a value below 2^k |
| MessageHeader.FlagsWord | dns-server.py:25-26 | the flags word as `pack` computes it: each field shifted to its position and the terms or-ed left to right (its value is stated by `FlagsWordSum`) |
| MessageHeader.PackHeader | dns-server.py:24-27 | `DNSHeader.pack` succeeds exactly when the id, the counts and every shifted flag fit 16 bits; the result is always 12 bytes |
| MessageHeader.PackableIffFlagsFit | dns-server.py:25-27 | with the id and counts in range, the per-field condition of `PackHeader` holds exactly when the or-ed flags word is below 2^16, the bound `struct.pack` checks on the `H` field |
| MessageHeader.FieldsBoundFlags | dns-server.py:25-27 | when every shifted flag fits 16 bits, so does the or-ed flags word `struct.pack` writes |
| MessageHeader.FlagsBoundFields | dns-server.py:25-27 | when the or-ed flags word fits 16 bits, so does every shifted flag in it |
| MessageHeader.FromFlags | dns-server.py:14-22 | the shifts and masks of `unpack` applied to the flags word, with the id and counts as read (the field ranges are stated by `UnpackHeader`, its inverse laws by `FromFlagsOfSum` and `SplitFlags`) |
| MessageHeader.UnpackHeader | dns-server.py:12-22 | `DNSHeader.unpack` succeeds exactly when at least 12 bytes are given; every field it yields lies within its bit width |
| MessageHeader.FlagsWordSum | dns-server.py:25-26 | for in-range fields, the or-ed flags word is the weighted sum of qr, opcode, aa, tc, rd, ra, z, rcode at bit positions 15, 11, 10, 9, 8, 7, 4, 0 |
| MessageHeader.ExtractFields | dns-server.py:14-21 | the shifts and masks of `unpack` pick each in-range field back out of that weighted sum |
| MessageHeader.FromFlagsOfSum | dns-server.py:14-26 | unpacking the flags word a well-formed header packs to, with its id and counts, gives back exactly that header |
| MessageHeader.SplitFlags | dns-server.py:14-21 | every 16-bit flags word is the weighted sum of the fields the shifts and masks extract from it |
| MessageHeader.PackUnpack | dns-server.py:12-27 | header round trip: a header whose fields fit their widths packs, and unpacks to itself |
| MessageHeader.UnpackWords | dns-server.py:13 | six 16-bit words written big-endian unpack to the header those words describe |
| MessageHeader.UnpackPack | dns-server.py:12-27 | reverse round trip: unpacking any 12 or more bytes and packing the result gives back exactly the first 12 bytes |
| MessageHeader.FlagsWordOfWord | dns-server.py:14-26 | a 16-bit flags word, split into fields by `unpack` and or-ed back by `pack`, is itself |
| MessageHeader.ReadWords | dns-server.py:13 | the first 12 bytes are the big-endian forms of the six 16-bit words `struct.unpack` reads from them |
| MessageHeader.PackUnpackPrefix | dns-server.py:12-27 | a message that starts with a packed header unpacks to that header, whatever follows |
| MessageHeader.UnpackIgnoresRest | dns-server.py:13 | unpacking reads only `data[:12]`: bytes appended after them change nothing |
| DomainName.AsciiEncode | dns-server.py:33 | `label.encode("utf-8")` of an ASCII label is one byte per character, equal to its code |
| DomainName.AsciiDecode | dns-server.py:44 | `.decode('utf-8')` of ASCII bytes is one character per byte, with that code |
| DomainName.AsciiRoundTrip | dns-server.py:33-44 | decoding the bytes of an encoded ASCII label gives the label back |
| DomainName.Split | dns-server.py:32 | `str.split('.')` always yields at least one piece |
| DomainName.Join | dns-server.py:46 | `".".join(labels)`; the empty list joins to "" (its laws are `JoinSplit` and `SplitJoin`) |
| DomainName.JoinSplit | dns-server.py:32-46 | `'.'.join(s.split('.')) == s` for every string |
| DomainName.SplitPieces | dns-server.py:32 | no piece of a split holds a dot or is longer than the string |
| DomainName.SplitAscii | dns-server.py:32 | the pieces of an ASCII string are ASCII |
| DomainName.SplitAtDot | dns-server.py:32 | splitting `a + "." + b` splits a and b separately and concatenates the pieces |
| DomainName.SplitJoin | dns-server.py:32-46 | `'.'.join(labels).split('.') == labels` when no label holds a dot |
| DomainName.SplitDotFree | dns-server.py:32 | a string without a dot splits into itself alone |
| DomainName.SplitJoinBound | dns-server.py:32-46 | re-splitting joined labels never gives a piece longer than the longest label |
| DomainName.JoinAscii | dns-server.py:46 | joining ASCII labels gives an ASCII name |
| DomainName.LabelBytesConcat | dns-server.py:31-33 | the label bytes of two label lists concatenated are the concatenation of their label bytes, and the spans add up |
| DomainName.LabelBytesLength | dns-server.py:33 | the label bytes are one length byte plus the label's bytes per label |
| DomainName.NameLayout | dns-server.py:31-34 | label k of an encoded name sits at the sum of (length + 1) over the labels before it: its length byte, then its bytes |
| DomainName.NameEncoding | dns-server.py:29-34 | `encode_domain_name` succeeds exactly when every piece of the split is at most 255 characters; the result is one byte per label length and character, plus a trailing zero byte |
| DomainName.EncodeDomainName | dns-server.py:29-34 | the loop that appends each label's length byte and bytes returns exactly `NameEncoding(name)`, including its failure |
| DomainName.AppendLabel | dns-server.py:33 | appending one label's length byte and bytes extends the encoding of the labels before it |
| DomainName.ReadLabels | dns-server.py:37-45 | a successful label decode ends past its start and within the buffer |
| DomainName.DecodedIsEncoding | dns-server.py:37-45 | whatever decodes is an encoding: the bytes read are the label bytes of the decoded labels plus a zero byte, and those labels are non-empty, ASCII and at most 255 long |
| DomainName.LabelStep | dns-server.py:40-45 | one label read in front of decoded labels keeps the bytes read equal to their encoding |
| DomainName.ReadName | dns-server.py:37-46 | a successful `decode_name` returns an offset past the start, within the buffer, just after a zero byte, and a name that can be encoded again |
| DomainName.DecodedNameFacts | dns-server.py:44-46 | the decoded labels join to an ASCII name whose encoding succeeds |
| DomainName.ReadLabelsEnds | dns-server.py:40-43 | the decode stops just past a zero length byte |
| DomainName.ReencodeDecoded | dns-server.py:32-46 | a name decoded from labels that are at least one and hold no dot encodes back to exactly the bytes it was decoded from |
| DomainName.JoinEncodable | dns-server.py:46 | labels that can be written join to a name that can be written |
| DomainName.ReadLabelsStep | dns-server.py:40-45 | one loop iteration: a non-ASCII label fails the decode; otherwise the label is prepended to the decode of the rest |
| DomainName.DecodeName | dns-server.py:37-46 | the `while True` loop returns exactly `ReadName(data, offset)`, including every failure |
| DomainName.ReadLabelsOfEncoding | dns-server.py:37-45 | encoded non-empty labels, at any offset and whatever follows, decode to themselves, ending just past their zero byte |
| DomainName.ReadNameOfPieces | dns-server.py:29-46 | decoding the encoded pieces of a name gives the name, with the offset at the end of the encoding |
| DomainName.NameRoundTrip | dns-server.py:29-46 | name round trip: an ASCII name with non-empty labels of at most 255 characters decodes from its encoding to itself, at any offset and whatever follows |
| DomainName.EncodingOfPieces | dns-server.py:29-34 | a successful encoding is the label bytes of the name's pieces plus a zero byte |
| DomainName.NoTerminatorFails | dns-server.py:39-40 | with no zero byte at or after the offset, decoding fails (`IndexError`) |
| DomainName.LabelOverrunFails | dns-server.py:40-44 | a label that runs to the end of the buffer leaves no terminator, and decoding fails |
| DomainName.RootName | dns-server.py:29-46 | the empty name encodes as two zero bytes, and decoding those stops at the first one with the empty name |
| Records.PackQuestion | dns-server.py:59-60 | `DNSQuestion.pack` succeeds exactly when the name encodes and type and class fit 16 bits; its length is that of the name encoding plus 4 |
| Records.QuestionLayout | dns-server.py:59-60 | a packed question is the name encoding, then two bytes reading back as the type and two reading back as the class |
| Records.RootQuestion | dns-server.py:53-60 | the root question of type A, class IN packs as 0, 0, 0, 1, 0, 1 (its name as two zero bytes), while the wire form 0, 0, 1, 0, 1 unpacks to it |
| Records.UnpackQuestion | dns-server.py:53-57 | `DNSQuestion.unpack` succeeds exactly when the name decodes and 4 more bytes follow it; the offset returned is 4 past the name; the question can be packed again |
| Records.QuestionRoundTrip | dns-server.py:53-60 | question round trip: a packed question with non-empty labels unpacks to itself at any offset, ending where the packed bytes end |
| Records.UnpackPackQuestion | dns-server.py:53-60 | reverse question round trip: when the decoded labels are at least one and hold no dot, packing an unpacked question gives back exactly the bytes it was read from |
| Records.PackAnswer | dns-server.py:66-68 | `DNSAnswer.pack` succeeds exactly when the name encodes, type and class fit 16 bits, the TTL fits 32 bits and the data is shorter than 65536 bytes |
| Records.AnswerLayout | dns-server.py:66-68 | a packed answer holds the encoded name, then type, class, TTL and data length reading back as the record's values, then the data |
| Responder.ReplyHeader | dns-server.py:88-89 | the reply header of a well-formed request is well-formed |
| Responder.ReplyAnswer | dns-server.py:96-97 | the answer `main` builds: the asked name, type 1, class 1, TTL 60, data 8.8.8.8 (its bytes are stated by `ReplyAnswerFields`) |
| Responder.BuildResponse | dns-server.py:88-100 | for a well-formed request, the reply is refused exactly when the question cannot be packed; otherwise it is the packed header, question and answer, in that order |
| Responder.HandleQuery | dns-server.py:81-100 | a datagram gets a reply exactly when it holds at least 12 bytes followed by a parseable question; shorter ones fail as `struct.error` does |
| Responder.ResponseParts | dns-server.py:81-100 | a reply is built from the parsed header and the parsed question |
| Responder.ReplyHeaderReadBack | dns-server.py:88-100 | the reply's first 12 bytes read back as the reply header |
| Responder.ReplyHeaderFields | dns-server.py:88-89 | the reply header carries the request's id, opcode and RD bit; QR is 1; QDCOUNT and ANCOUNT are 1; AA, TC, RA, Z, RCODE, NSCOUNT and ARCOUNT are 0 |
| Responder.ReplyQuestionEchoed | dns-server.py:92-100 | the packed question follows the header verbatim; with non-empty labels it reads back as the question and ends where the answer starts |
| Responder.ReplyEchoesRequest | dns-server.py:85-100 | when the request's labels are at least one and hold no dot, the reply's question bytes are the request's own question bytes |
| Responder.ReplyAnswerFields | dns-server.py:96-100 | the reply ends with an answer for the asked name: type 1, class 1, TTL 60, data length 4, data 8.8.8.8 |
| Responder.AnswerAfter | dns-server.py:96-100 | the reply's answer, after any prefix, has the record layout |

## Left out

- The socket, its bind to 127.0.0.1:2053, `sendto`, the endless loop and the `print` calls are not modelled. `HandleQuery` takes the received bytes as a parameter and returns the bytes to send.
- `recvfrom(512)` truncates datagrams to 512 bytes. That limit belongs to the socket and is not modelled: any buffer is accepted.
- The catch-all `except` prints the error and leaves the loop. The model returns the `Err` instead.
- `socket.inet_aton("8.8.8.8")` is replaced by its four bytes, the constant `AnswerAddress`.
- Names are ASCII-only. Encoding requires an ASCII name. Python would encode any text as multi-byte UTF-8; that case is not modelled.
- DomainName.AsciiDecode / DomainName.ReadLabels: decoding rejects any label byte of 0x80 or more with `NotAscii`. Python's `decode('utf-8')` accepts valid multi-byte UTF-8 sequences; this model rejects them.
- Negative integers in header or record fields are not modelled. Every field is a `nat`, and a decoded message cannot produce one.
- Records.QuestionRoundTrip / DomainName.NameRoundTrip: empty labels are excluded. The root name "" encodes as two zero bytes and reads back as "" after one of them. A name like "a..b" encodes as 1, 'a', 0, 1, 'b', 0 and reads back as "a": decoding stops at the zero length byte of the first empty label. `RootName` and `RootQuestion` state the root case.
- Responder.ReplyQuestionEchoed: compares the echo with the question packed again, not with the request's own bytes. `ReplyEchoesRequest` proves they are the same when the request's labels are at least one and none holds a dot. The two cases where they differ are:
  - A decoded label holds a byte 0x2E (a dot). Packing the name again re-splits it at that dot.
  - The request asks for the root name: its name is a single zero byte. The name decodes to "", and `"".split('.')` is `['']`, so the echo writes two zero bytes where the request had one.
- The source has no answer unpacking, so the model has none. The answer is read back through the `RecordAt` layout instead.
