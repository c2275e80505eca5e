# Repository-backed chat: message codec and repository

This project models the repository-backed chat example of nabu, a Java
IPFS node, and proves properties of the model. The example has two parts.

- **`ChatMessage`** is an immutable message: a sender, a `java.time.Instant`
  timestamp and a content. `toBytes` stores it as the UTF-8 text
  `sender \n timestamp \n base64(utf8(content))`. `fromBytes` reads it back:
  it splits the text at the first two line breaks, parses the timestamp,
  Base64-decodes the third field and decodes the result as UTF-8. Every
  failure becomes an `IllegalArgumentException("Invalid chat message
  encoding")`. `toString` renders `[timestamp] sender: content`.
- **`ChatRepository`** keeps messages in a content-addressed blockstore.
  `save` stamps a message with the clock's instant, `put`s its bytes as a
  raw block and returns the block's CID. `find` `get`s a block and decodes
  it. `loadConversation` runs `find` over a list of CIDs in order and keeps
  the messages it finds.

Modules, one per concept:

| module | file | what it holds |
|---|---|---|
| `Wrappers` | Wrappers.dfy | `Option` (Java's `Optional`) and `Result` (a value or the exception thrown) |
| `Bytes` | Bytes.dfy | the octet type |
| `Strings` | Strings.dfy | `String.split` with a one-character separator and a positive limit, and `Join`, its inverse |
| `Utf8` | Utf8.dfy | UTF-8 as RFC 3629 defines it: `getBytes(UTF_8)` and `new String(bytes, UTF_8)` |
| `Base64` | Base64.dfy | the basic encoding of section 4 of RFC 4648, with `java.util.Base64`'s encoder and decoder |
| `IsoInstant` | IsoInstant.dfy | `Instant` as UTC calendar fields, `Instant.toString` and `Instant.parse` |
| `ChatMessage` | ChatMessage.dfy | the message, `toBytes`, `fromBytes`, `toString` |
| `Blockstore` | Blockstore.dfy | the blockstore as a class over a map from CID to bytes, with content-addressed `put` |
| `ChatRepository` | ChatRepository.dfy | `find`, `loadConversation` and its specification, and the repository class with `save` |

The main results:

- A message whose sender holds no line break comes back from its bytes
  unchanged (`ChatMessage.RoundTrip`). This includes content with line
  breaks and empty content.
- A sender that holds a line break never comes back: decoding always fails
  (`ChatMessage.SenderWithNewlineFails`).
- `fromBytes` rejects text with fewer than two line breaks, and only that
  text, with the plain exception. It rejects a bad timestamp and a bad
  Base64 field with the exception that wraps them.
- The three codecs it relies on are inverses on their domain. Base64
  decoding undoes encoding. UTF-8 decoding undoes encoding.
  `Instant.parse` undoes `Instant.toString`.
- `loadConversation` is specified by the function `Conversation`. The
  method's loop is proved to compute it. The lemmas about `Conversation`
  state the rest:
  - loading `a + b` is loading `a`, then `b`;
  - an absent id leaves no trace;
  - when every id is found, the result is the found messages, one per id;
  - loading fails exactly when some stored block does not decode.
- `save` changes only the entry under the returned CID. When the sender
  holds no line break, `find` of that CID gives back the message.

Error conditions are values. `fromBytes` returns a `Result` whose failure
records which cause the exception wraps. `find` returns
`Result<Option<ChatMessage>, Error>`: a failure is the exception that
`fromBytes` throws through `Optional.map`, and `None` is an empty
`Optional`. `loadConversation` returns the first such failure, where the
Java loop would stop with that exception.

The clock is a parameter: `Save` takes the instant that `clock.instant()`
would return.

## Model

| member | source | states |
|---|---|---|
| ChatMessage.Serialise | src/main/java/org/peergos/examples/chat/ChatMessage.java:40-41 | when the sender has no line break, the serialised text holds exactly two line breaks and the text before the first one is the sender |
| ChatMessage.ContentFieldHasNoNewline | src/main/java/org/peergos/examples/chat/ChatMessage.java:40 | the Base64 field of any content holds no line break |
| ChatMessage.ToBytes | src/main/java/org/peergos/examples/chat/ChatMessage.java:39-43 | the bytes are the UTF-8 encoding of the serialised text: decoding them gives that text back |
| ChatMessage.FromBytes | src/main/java/org/peergos/examples/chat/ChatMessage.java:48-62 | a message that decoding yields has a sender without a line break |
| ChatMessage.RoundTrip | src/main/java/org/peergos/examples/chat/ChatMessage.java:39-58 | `fromBytes(toBytes(m))` succeeds with `m` whenever the sender has no line break; content may hold line breaks |
| ChatMessage.EmptyContent | src/main/java/org/peergos/examples/chat/ChatMessage.java:40-57 | empty content serialises to an empty third field that the limit-3 split keeps and that decodes to empty content |
| ChatMessage.SenderWithNewlineFails | src/main/java/org/peergos/examples/chat/ChatMessage.java:41-57 | a message whose sender holds a line break never decodes from its own bytes |
| ChatMessage.ThreeNewlinesFail | src/main/java/org/peergos/examples/chat/ChatMessage.java:51-57 | text with three or more line breaks is always rejected, since its third field then is not Base64 |
| ChatMessage.TooFewFields | src/main/java/org/peergos/examples/chat/ChatMessage.java:51-54 | decoding fails with the unwrapped exception exactly when the text has fewer than two line breaks |
| ChatMessage.BadTimestamp | src/main/java/org/peergos/examples/chat/ChatMessage.java:55-60 | a second field that `Instant.parse` rejects makes decoding fail with the wrapped parse error |
| ChatMessage.BadContent | src/main/java/org/peergos/examples/chat/ChatMessage.java:55-60 | a valid timestamp and a third field that is not Base64 make decoding fail with the wrapped Base64 error |
| ChatMessage.FromBytesFields | src/main/java/org/peergos/examples/chat/ChatMessage.java:50-58 | a decoded message is the text's first field as sender, the parsed second field as timestamp and the decoded third field as content |
| ChatMessage.ToString | src/main/java/org/peergos/examples/chat/ChatMessage.java:64-67 | `toString` starts with `[`; the text up to the first `]` parses back to the timestamp, and from that `]` on the text is `] `, the sender, `: ` and the content |
| Strings.Split | src/main/java/org/peergos/examples/chat/ChatMessage.java:51 | the split yields 1 to `limit` parts that join back to the text; every part but the last is free of the separator, and so is the last when fewer than `limit` parts came out |
| Strings.SplitThreeIff | src/main/java/org/peergos/examples/chat/ChatMessage.java:51-52 | the limit-3 split yields three parts exactly when the text holds at least two separators |
| Strings.SplitKeepsRest | src/main/java/org/peergos/examples/chat/ChatMessage.java:51 | with three or more separators, the third part keeps at least one |
| Strings.SplitFields | src/main/java/org/peergos/examples/chat/ChatMessage.java:51 | two separator-free fields and any tail, joined by separators, split back into exactly those three fields |
| Strings.JoinCount | src/main/java/org/peergos/examples/chat/ChatMessage.java:41 | the joined text holds at least one separator per gap between parts, and exactly that many when no part holds one |
| Strings.CountFields | src/main/java/org/peergos/examples/chat/ChatMessage.java:41 | three joined fields hold the fields' separators plus two |
| Base64.Encode | src/main/java/org/peergos/examples/chat/ChatMessage.java:40 | the encoding of n bytes has length 4·⌈n/3⌉ and uses only the alphabet and `=` |
| Base64.Value | src/main/java/org/peergos/examples/chat/ChatMessage.java:57 | the six-bit value of a symbol is the one the symbol encodes |
| Base64.Decode | src/main/java/org/peergos/examples/chat/ChatMessage.java:57 | text the decoder accepts yields six bits per symbol, rounded down to whole octets; `Base64.DecodeEncode`, `Base64.DecodeAlphabet` and `Base64.DecodeRejectsNewline` state what it accepts |
| Base64.DecodeEncode | src/main/java/org/peergos/examples/chat/ChatMessage.java:40-57 | decoding the encoding of any bytes gives those bytes |
| Base64.DecodeAlphabet | src/main/java/org/peergos/examples/chat/ChatMessage.java:57 | text the decoder accepts holds only alphabet symbols and `=` |
| Base64.DecodeRejectsNewline | src/main/java/org/peergos/examples/chat/ChatMessage.java:57 | text holding a line break is rejected |
| Utf8.Encode | src/main/java/org/peergos/examples/chat/ChatMessage.java:40 | one to four octets per character |
| Utf8.Decode | src/main/java/org/peergos/examples/chat/ChatMessage.java:50 | at most one character per octet, and none exactly for no octets |
| Utf8.DecodeOneEncodeChar | src/main/java/org/peergos/examples/chat/ChatMessage.java:57 | the octets of one character, followed by anything, decode to that character and consume exactly its octets |
| Utf8.DecodeEncode | src/main/java/org/peergos/examples/chat/ChatMessage.java:57 | decoding the UTF-8 encoding of any string gives that string |
| IsoInstant.Format | src/main/java/org/peergos/examples/chat/ChatMessage.java:41 | `Instant.toString` writes 20, 24, 27 or 30 characters ending in `Z`; `IsoInstant.FormatChars` and `IsoInstant.ParseFormat` state its alphabet and its inverse |
| IsoInstant.Parse | src/main/java/org/peergos/examples/chat/ChatMessage.java:56 | text that `Instant.parse` accepts has 20 to 30 characters and ends in `Z`; `IsoInstant.ParseChars` and `IsoInstant.ParseFormat` state its alphabet and that it inverts `Format` |
| IsoInstant.ParseChars | src/main/java/org/peergos/examples/chat/ChatMessage.java:56 | text that `Instant.parse` accepts holds only digits and `-T:.Z`, so no line break |
| IsoInstant.ParseFormat | src/main/java/org/peergos/examples/chat/ChatMessage.java:56 | `Instant.parse(t.toString())` is `t` |
| IsoInstant.FormatChars | src/main/java/org/peergos/examples/chat/ChatMessage.java:41 | `Instant.toString` writes only digits and `-T:.Z`, so no line break and no `]` |
| IsoInstant.ParseFraction | src/main/java/org/peergos/examples/chat/ChatMessage.java:56 | a fraction of a point and up to nine digits, or none, reads as a nanosecond count below one second |
| IsoInstant.ParseFractionOfFraction | src/main/java/org/peergos/examples/chat/ChatMessage.java:56 | the fraction written for some nanoseconds reads back as them |
| IsoInstant.ParsePad | src/main/java/org/peergos/examples/chat/ChatMessage.java:56 | a zero-padded number reads back as the number |
| Blockstore.PutIdempotent | src/main/java/org/peergos/examples/chat/ChatRepository.java:30 | putting a block that is already stored leaves the store as it was |
| Blockstore.Blockstore.Put | src/main/java/org/peergos/examples/chat/ChatRepository.java:30 | `put` stores the block under its content address, changes no other entry, keeps the store content-addressed, and `get` of the returned CID (a lookup in the map, ChatRepository.java:37-38) gives the block |
| ChatRepository.Find | src/main/java/org/peergos/examples/chat/ChatRepository.java:36-40 | `find` gives nothing exactly when the CID is not stored; otherwise it gives the decoded message, or the decoding failure |
| ChatRepository.Conversation | src/main/java/org/peergos/examples/chat/ChatRepository.java:45-51 | a loaded conversation never has more messages than there were ids |
| ChatRepository.ConversationOfOne | src/main/java/org/peergos/examples/chat/ChatRepository.java:47-49 | loading one id gives its message, nothing when it is absent, or its decoding failure |
| ChatRepository.ConversationAppend | src/main/java/org/peergos/examples/chat/ChatRepository.java:46-49 | loading `a + b` gives the messages of `a` followed by those of `b`; the first failure wins |
| ChatRepository.SkipsAbsent | src/main/java/org/peergos/examples/chat/ChatRepository.java:48 | an id with no block can be dropped from the list without changing the result |
| ChatRepository.AllPresent | src/main/java/org/peergos/examples/chat/ChatRepository.java:47-49 | when `find` gives a message for every id, the result is exactly those messages, one per id, in the order of the ids |
| ChatRepository.FailsIff | src/main/java/org/peergos/examples/chat/ChatRepository.java:47-48 | loading fails exactly when some listed id has a stored block that does not decode |
| ChatRepository.PrefixFailure | src/main/java/org/peergos/examples/chat/ChatRepository.java:47-48 | a failure while loading a prefix of the ids is the failure of the whole load |
| ChatRepository.FindOthers | src/main/java/org/peergos/examples/chat/ChatRepository.java:30 | storing a block under one CID leaves `find` of every other CID unchanged |
| ChatRepository.SaveThenFind | src/main/java/org/peergos/examples/chat/ChatRepository.java:28-39 | after storing a message's bytes under their CID, `find` of that CID gives the message back when the sender has no line break |
| ChatRepository.ChatRepository.constructor | src/main/java/org/peergos/examples/chat/ChatRepository.java:20-23 | the repository keeps the blockstore it is given |
| ChatRepository.ChatRepository.Save | src/main/java/org/peergos/examples/chat/ChatRepository.java:28-31 | `save` returns the CID of the stamped message's bytes, adds exactly that entry, leaves `find` of every other CID unchanged, and `find` of the CID gives the message back when the sender has no line break |
| ChatRepository.ChatRepository.LoadConversation | src/main/java/org/peergos/examples/chat/ChatRepository.java:45-51 | the loop computes `Conversation` of the ids over the current store, and `[]` for no ids; the store is not changed |

## Left out

- `RepositoryChatExample.main` and `deleteRecursively`: file-system and console I/O.
- `BitswapProtocol`: libp2p stream handling and metric counters around a call into the Bitswap engine, whose source is not part of this model.
- `MessageAndNode`: a two-field holder with no behaviour.
- The Bitswap engine, connection handling and wire codec are not part of this model.
- The null checks in the constructors of `ChatMessage` and `ChatRepository` and in `fromBytes`: Dafny values are never null.
- The getters of `ChatMessage`: they are the fields of the datatype.
- The clock: `Save` takes the instant as a parameter instead of reading `clock.instant()`.
- The asynchronous `join` of `put` and `get`, and I/O failures inside a real blockstore: the store is a map that always answers.
- Blockstore.Digest: stands for the SHA-256 multihash of a CID. It is the identity, so CIDs are modelled as collision-free; for a real hash that is an unproved property.
- Blockstore.Codec: only the raw codec, the one `save` uses.
- IsoInstant.Parse: reads the upper-case form `yyyy-MM-ddTHH:mm:ss[.f]Z` for years 0000 to 9999, with a fraction of up to nine digits (`IsoInstant.ParseFraction`, where a point alone reads as zero nanoseconds, as in Java). Java's parser also accepts lower-case `t` and `z`, a leap second, `24:00:00`, offsets and signed years beyond four digits; for such timestamp fields `ChatMessage.FromBytes` reports a failure where Java would decode.
- IsoInstant.Format: instants before year 0 or after year 9999, which `Instant.toString` writes with a sign, are outside the model.
- Utf8.Decode: for ill-formed input, Java's decoder may emit a different number of U+FFFD characters than one per maximal ill-formed subpart. Well-formed input, the only input `toBytes` produces, is decoded exactly.
- Utf8.Encode: Dafny strings hold Unicode scalar values, so Java's unpaired UTF-16 surrogates, which `getBytes(UTF_8)` replaces by `?`, cannot occur.
