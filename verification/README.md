# Kojacoord: a verified model of the proxy's core

Kojacoord is a Minecraft proxy. This project models the parts of it that are algorithms and state
machines rather than input and output, and proves what they promise over all inputs, all runs and all
reachable states. `dafny verify dfyconfig.toml` checks everything.

How the model is laid out:

- **Bytes on the wire.** A reader is a function from the bytes in front of it to a value and the bytes
  it leaves (`Get…`, `Decode…`), a writer a function to bytes (`Put…`, `Encode…`). The cursor and buffer
  code of the source is a method over a `Source` or `Buffer` object, proved to do what its function says.
  `Bytes`, `Utf8` and `VarNum` are the primitives, `Codec`, `Slot` and `ChatSigning` sit on top.
- **The encrypted frame stream.** `Cipher` takes the cipher as a machine that handles one byte at a time;
  its only law is that decryption undoes encryption and moves the register alike. `Frame` runs the
  decoder over arbitrary interleavings of arriving chunks and calls.
- **NBT.** A tree (`Nbt.Tag`) keeps compounds as maps. A walk (`Nbt.Ordered`) is a tree whose compounds are
  listed in some order. "For every iteration order of the hash map" is "for every walk". `NbtWire` is the
  binary form and `NbtLayout` its bytes spelled out, `NbtSkip` and `NbtSkipExact` the skipper, `Snbt`,
  `SnbtExact` and `SnbtTree` the text form and `SnbtForms` and `SnbtSpaces` what else it reads, `NbtCursor` and `SnbtParser`
  the code in place.
- **Routing and failover.** `Glob`, `Selection`, `Failover`.
- **Login and sessions.** `Login`, `JavaHex`.
- **State shared by nodes, backends and players.** `Election`, `PlayerCounts`, `Registry`, `Tps`, `Channel`.

Where the code and its comments or documents disagree, the model does what the code does:

- `need` in `nbt.rs` advances the cursor, so `skip` steps over a length before reading it. `skip` agrees
  with `decode` on values without a length (`NbtSkip.SkipRootAgrees`, `NbtSkip.DepthLimitAgrees`). For a
  leaf with one, `NbtSkip.LeafSkipExact` says exactly when the two still agree, and for a list
  `NbtSkipExact.ListSkipExact` does. A value's own bytes decide, never what follows it
  (`NbtSkipExact.OwnBytesDecide`). A tree of such values is skipped correctly
  (`NbtSkipExact.LuckyRootSkips`); the converse fails, because one wrong turn can make up for another
  (`NbtSkipExact.WrongTurnCancels`). `NbtSkip.EmptyBodyDerailsRoot` gives a family of roots on which the two
  never agree.
- The failover documents say the standbys are walked in order when the primary fails. The code asks only
  the first one. `Failover.PrimaryFailover` says exactly when the two give the same server,
  `Failover.HealthyStandbyPassedOver` gives a run in which they differ, and `Failover.StaysAtPrimaryExactly`
  says which runs leave the primary at all.
- The number of failover swaps is not bounded for every list of standbys. `Failover.BoundedExactly` says for
  which lists it is, with failback and without.
- The comments call the cipher CFB8. The code uses the buffered full-block mode of `cfb_mode`.
  `Cipher.CfbIsLawful` is about the latter; the stream theorems hold for any lawful cipher.
- A frame header that can never become a VarInt stalls the decoder for good; it is not an error.
  `Frame.SilentExactly` says which buffers do that.
- A registered server's counter is wrong after its name is registered while players are on it.
  `PlayerCounts.CountRightExactly` says exactly after which runs it is right.
- The compression handler writes an empty payload, at threshold 0, with the length that means "not
  compressed", and payloads over 32 MiB that it will not read back. With compression off, as in a new
  pipeline, it writes the payload as it is and still reads a header. `Channel.CompressionUndoesExactly` has
  the exact condition for every threshold and payload.
- A payload of 4 GiB or more is framed with the low 32 bits of its length. `Frame.PeekWritten` says what the
  reader makes of every payload.
- `elect_leader` falls back to the smallest healthy id, so two nodes that see the same healthy nodes may each
  take themselves for the leader (`Election.TwoLeaders`). Single ownership is proved of the lease, one leader
  per local registry of each pass, and agreement of passes under one holder (`Election.SteadyPassesAgree`).
- Printing SNBT writes names bare and the end tag as a word. `SnbtTree.TreeExact` says exactly which trees come
  back.
- The comment on `weighted_pick` promises a uniform pick when all weights are zero. The code takes the first
  candidate, as `Selection.WeightedPick` states.
- Protocol ids that `ProtocolVersion` does not know count as having chat signing, because the unknown epoch
  is the greatest.

## Model

| member | source | states |
|---|---|---|
| Frame.FramesInOrder | crates/netty/src/frame.rs:44-115 | For every list of payloads within the cap, every split of the encrypted stream into chunks and every interleaving with decode calls: no call fails, the frames handed out are a first part of the payloads in order, and all of them once everything has arrived and a call found nothing |
| Frame.SplitsDoNotMatter | crates/netty/src/frame.rs:48-92 | On arbitrary bytes, good or bad, two runs over the same bytes give the same frames and the same final stall or error, however the bytes were chunked and whenever the decoder was called |
| Frame.RefusedEndsRun | crates/netty/src/frame.rs:44-115 | A payload the reader refuses ends the stream: a drained run over everything sent hands out the payloads before it and fails with its announced length |
| Frame.SilentExactly | crates/netty/src/frame.rs:48-92 | From any decoder state, no run of arrivals and calls ever hands out a frame or an error if and only if the buffer holds a header that cannot become a VarInt |
| Frame.StuckExactly | crates/netty/src/frame.rs:58-83 | No further bytes bring a buffer to a frame or an error if and only if it starts with such a header |
| Frame.DrainedRunIsParse | crates/netty/src/frame.rs:48-92 | The outcome of a drained run is that of parsing the whole decrypted stream at once |
| Frame.RunInvariant | crates/netty/src/frame.rs:48-92 | After every run the cipher register is that of the bytes that arrived, each taken once, and the frames so far plus the decrypted buffer are exactly the decrypted stream |
| Frame.DecodeView | crates/netty/src/frame.rs:48-92 | One call, in any state: it hands out the frame at the front of the plaintext the buffer stands for and removes just that, or leaves the plaintext as it was |
| Frame.EnableBetweenFrames | crates/netty/src/frame.rs:33-35 | Turning the cipher on after all plain frames were handed out, with any part of the encrypted bytes already buffered, hands out exactly the encrypted frames |
| Frame.RunThenCalls | crates/netty/src/frame.rs:48-92 | Once the rest of the encoding has arrived, as many calls as there are payloads hand out all of them |
| Frame.ClearRun | crates/netty/src/frame.rs:48-92 | Without a cipher the counter stays zero and the buffer is what follows the frames handed out |
| Frame.EncodeAllIsStream | crates/netty/src/frame.rs:98-114 | Encrypting frame by frame in place is encrypting the whole encoding as one stream |
| Frame.PeekFrame | crates/netty/src/frame.rs:59-91 | A written frame under 2 GiB comes back, whatever follows, exactly up to the cap; a longer one is refused with its length |
| Frame.PeekWritten | crates/netty/src/frame.rs:59-114 | For every payload: by what its header announces, modulo 2^32, it is refused or so many bytes are taken |
| Frame.PeekExactly | crates/netty/src/frame.rs:58-91 | The front of any buffer is a whole frame if and only if it is a length of up to 2 MiB, spelled in any accepted way, with so many bytes behind it, and an error if and only if it is any other spelled length |
| Frame.PeekExtend | crates/netty/src/frame.rs:58-91 | Bytes that arrive later never change a frame or an error that was already there |
| Frame.MinecraftFrameCodec.Decode | crates/netty/src/frame.rs:48-92 | The in-place decoder, over buffer, counter and cipher state, takes the step the run theorems are about |
| Frame.MinecraftFrameCodec.Encode | crates/netty/src/frame.rs:98-114 | Appends the encrypted frame, a shortest length and the payload, after what the buffer held, leaves the receiving side alone, and leaves the cipher where the next frames continue the stream |
| Frame.MinecraftFrameCodec.EnableCipher | crates/netty/src/frame.rs:33-35 | Sets the cipher and keeps the counter |
| Cipher.StreamConcat | crates/netty/src/cipher.rs:33-39 | Working through data in pieces is working through it at once |
| Cipher.DecryptUndoesEncrypt | crates/netty/src/cipher.rs:33-39 | For every lawful cipher and every data: decrypting gives the data back and both registers end alike |
| Cipher.CfbIsLawful | crates/netty/src/cipher.rs:13-40 | Cipher feedback obeys the law for every block function |
| Cipher.CfbIsFeedback | crates/netty/src/cipher.rs:13-40 | Cipher feedback by whole blocks, in both directions: each byte is combined with that of the enciphered previous block of ciphertext, for every block function |
| VarNum.RoundTrip | crates/protocol/src/types/var_int.rs:34-78 | Every 32-bit and every 64-bit number reads back, with any suffix left |
| VarNum.EncodeShape | crates/protocol/src/types/var_int.rs:34-49 | What is written for any number: the top bit on every byte but the last, seven-bit groups from the least that add up to the number modulo the width, and no zero group at the end of more than one |
| VarNum.EncodeShortest | crates/protocol/src/types/var_int.rs:22-49 | No bytes that are read as a number are fewer than those written for it |
| VarNum.DecodeShape | crates/protocol/src/types/var_int.rs:51-78 | Whatever was accepted, canonical or not: the bytes used end at the first without the top bit, are at most as many as permitted, and their groups add up to the value |
| VarNum.DecodeExactly | crates/protocol/src/types/var_int.rs:51-78 | The decoder on every input: it takes a value and leaves a rest if and only if the bytes are a spelling of the value in front of the rest |
| VarNum.UnfinishedExactly | crates/protocol/src/types/var_int.rs:51-78 | It asks for more if and only if there are fewer bytes than permitted, all with the top bit |
| VarNum.KnownEncodings | crates/protocol/src/types/var_int.rs:34-49 | The bytes of 0, 127, 128, 255 and 25565 |
| VarNum.LengthHeader | crates/protocol/src/types/var_int.rs:34-78 | A length of any size comes out of its header as its low 32 bits, signed |
| VarNum.DecodeExtend | crates/protocol/src/types/var_int.rs:51-78 | Further bytes change neither a number read nor an overflow found |
| VarNum.OverflowExactly | crates/protocol/src/types/var_int.rs:51-78 | The bytes on which reading overflows are exactly those with all permitted groups continued and too much in the last; any other failure is running out of bytes |
| VarNum.DecodedInRange | crates/protocol/src/types/var_long.rs:37-61 | Whatever bytes were accepted, canonical or not, the value is one of the width |
| VarNum.EncodeTo | crates/protocol/src/types/var_long.rs:20-35 | The loop appends the number in the form `VarNum.EncodeShape` and `VarNum.EncodeShortest` describe |
| VarNum.DecodeFrom | crates/protocol/src/types/var_int.rs:51-78 | The shift loop returns the value or the error of the group-by-group definition and leaves its rest |
| VarNum.EncodedLen | crates/protocol/src/types/var_int.rs:22-32 | The length without encoding is the length of the encoding, which is the least there is |
| Utf8.RoundTrip | crates/protocol/src/codec.rs:262-289 | Every string survives its UTF-8 bytes |
| Utf8.Canonical | crates/protocol/src/codec.rs:277-289 | Bytes accepted as UTF-8 are the encoding of the string they give, so overlong forms and surrogates are refused |
| Utf8.CharLayout | crates/protocol/src/codec.rs:262-289 | The number of bytes of every character, the marks on them and the bits they carry |
| Bytes.PutBeAt | crates/protocol/src/types/nbt.rs:297-330 | Every byte of a fixed-width number is its big-endian digit, in two's complement |
| NbtWire.RootRoundTrip | crates/protocol/src/types/nbt.rs:385-412 | For every tree, every iteration order of every compound and every suffix: the root reads back and leaves the suffix if and only if the tree is within the reader's rules (kinds, lengths, homogeneous lists, depth by the reader's own counting) |
| NbtWire.GetOfPut | crates/protocol/src/types/nbt.rs:146-365 | A readable tree walked in any order reads back as that walk, at any depth, with any suffix |
| NbtWire.GetReadable | crates/protocol/src/types/nbt.rs:146-295 | On every input: a tree the reader accepts has the kind that was asked for and obeys its rules |
| NbtWire.GetRootReadable | crates/protocol/src/types/nbt.rs:395-412 | The same for a whole root, so what was read can be written and read again |
| NbtLayout.GetExactly | crates/protocol/src/types/nbt.rs:146-295 | The reader on every input, kind and depth: it gives a value and a rest if and only if the bytes spell the value, by kinds, counts and big-endian digits, in front of the rest |
| NbtLayout.WireNumbers | crates/protocol/src/types/nbt.rs:367-383 | The number of each of the thirteen tags on the wire |
| NbtLayout.LeafBytes | crates/protocol/src/types/nbt.rs:297-365 | The bytes of every leaf, digit by digit: widths, counts in four bytes, string lengths in two |
| NbtLayout.ListBytes | crates/protocol/src/types/nbt.rs:332-340 | An empty list is five zero bytes; any other is the number of its first item's kind, the count in four bytes and the items |
| NbtLayout.SequenceBytes | crates/protocol/src/types/nbt.rs:332-350 | Items follow one another; entries are kind, name and value, and a zero byte ends them |
| NbtLayout.RootBytes | crates/protocol/src/types/nbt.rs:385-393 | A root is a ten, its name and its entries |
| NbtLayout.RootForms | crates/protocol/src/types/nbt.rs:395-412 | The root reader on an end tag, a compound and any other kind |
| Nbt.EraseIntoSpec | crates/protocol/src/types/nbt.rs:242-256 | Inserting the entries one after the other gives exactly their names, over what was there, with a value of the name |
| Nbt.EraseIntoLast | crates/protocol/src/types/nbt.rs:242-256 | The value a name ends with is that of its last entry |
| Nbt.SomeWalk | crates/protocol/src/types/nbt.rs:341-349 | Every tree has a walk, so the theorems about walks are about every tree |
| Nbt.StringRoundTrip | crates/protocol/src/types/nbt.rs:120-140 | A string of up to 65535 bytes reads back with any suffix |
| Nbt.ArrayRoundTrip | crates/protocol/src/types/nbt.rs:190-293 | An array of up to 1,048,576 numbers reads back with any suffix |
| Nbt.LeafRoundTrip | crates/protocol/src/types/nbt.rs:146-383 | The same for every kind without children, floats as bit patterns |
| Nbt.GetLeafFits | crates/protocol/src/types/nbt.rs:146-295 | A leaf that was read has the asked kind and is within the limits |
| NbtCursor.ReadTag | crates/protocol/src/types/nbt.rs:146-295 | The recursive reader over its cursor gives the tree or the error of the specification, the map being filled entry by entry, and ends on every input |
| NbtCursor.ReadItems | crates/protocol/src/types/nbt.rs:221-236 | The loop over list items |
| NbtCursor.ReadEntries | crates/protocol/src/types/nbt.rs:238-257 | The loop over compound entries up to the end tag |
| NbtCursor.ReadRoot | crates/protocol/src/types/nbt.rs:395-412 | The root reader over its cursor |
| NbtCursor.WriteTag | crates/protocol/src/types/nbt.rs:297-365 | The writer succeeds exactly on writable trees and then has appended the bytes of the walk, which `NbtLayout` spells out |
| NbtCursor.WriteRoot | crates/protocol/src/types/nbt.rs:385-393 | The same for a root |
| NbtSkip.SkipAgrees | crates/protocol/src/types/nbt.rs:599-674 | On every input: when the reader accepts a value of scalars and nested compounds, the skipper ends where the reader did |
| NbtSkip.SkipRootAgrees | crates/protocol/src/types/nbt.rs:571-597 | The same for a whole root as the root reader takes it, the end tag that stands for an empty root included |
| NbtSkip.DepthLimitAgrees | crates/protocol/src/types/nbt.rs:599-674 | Trees of scalars and compounds nested to any depth are read and skipped alike up to 512 levels and refused alike, with the same error, beyond |
| NbtSkip.LeafSkipExact | crates/protocol/src/types/nbt.rs:599-674 | A leaf is skipped correctly, whatever follows, if and only if it has no length or the front of its body holds the number that makes up for the length stepped over |
| NbtSkip.CountedExact | crates/protocol/src/types/nbt.rs:606-618 | The same for the bytes of any length-prefixed body |
| NbtSkipExact.StringForms | crates/protocol/src/types/nbt.rs:614-618 | Every outcome for a string, by the bytes: too short, the panic of a read past the end, or how far the two bytes after its length send it |
| NbtSkipExact.ArrayForms | crates/protocol/src/types/nbt.rs:606-613 | The same for the three kinds of array, with four bytes, negative counts and the width of the elements |
| NbtSkipExact.ListForms | crates/protocol/src/types/nbt.rs:619-639 | The same for the ten bytes taken for a list's header, with unknown kinds and the depth limit |
| NbtSkipExact.EntryForms | crates/protocol/src/types/nbt.rs:571-597 | Entries and roots by their bytes: end, unknown kind, short name, value |
| NbtSkip.EmptyBodyDerailsRoot | crates/protocol/src/types/nbt.rs:571-682 | A root with one empty string or array reads back and is not skipped correctly, for every name and suffix |
| NbtSkipExact.OwnBytesDecide | crates/protocol/src/types/nbt.rs:599-674 | Whether the skipper ends exactly at the end of a value, of any kind and on any bytes, does not depend on what follows |
| NbtSkipExact.RootBytesDecide | crates/protocol/src/types/nbt.rs:571-597 | The same for a whole root |
| NbtSkipExact.ListSkipExact | crates/protocol/src/types/nbt.rs:619-639 | A list is skipped correctly, whatever follows, if and only if its items take at least five bytes and the first five, taken for kind and count, account for the rest: by width for fixed-width kinds, by walking them otherwise |
| NbtSkipExact.FixedItems | crates/protocol/src/types/nbt.rs:633-637 | Stepping over fixed-width items one by one is stepping over their block |
| NbtSkipExact.LuckyCountIsSmall | crates/protocol/src/types/nbt.rs:619-639 | A list is skipped correctly only if what is taken for its count leaves room for so many items |
| NbtSkipExact.LuckyRootSkips | crates/protocol/src/types/nbt.rs:571-674 | A root that reads back and whose leaves and lists outside lists are each skipped correctly is skipped to where the reader ends, in every order of its compounds |
| NbtSkipExact.LuckyTreeSkips | crates/protocol/src/types/nbt.rs:599-674 | The same for any value at any depth |
| NbtSkipExact.WrongTurnCancels | crates/protocol/src/types/nbt.rs:599-674 | The converse fails: a family of roots that read back and are skipped to where the reader ends, although one of their strings is skipped wrongly |
| NbtSkipExact.WrongTurnExists | crates/protocol/src/types/nbt.rs:614-618 | There are such entries |
| NbtSkip.SkipFrom | crates/protocol/src/types/nbt.rs:571-585 | The skipper over its cursor; the count it returns is the bytes it stepped over |
| NbtSkip.SkipPayloadFrom | crates/protocol/src/types/nbt.rs:599-674 | The recursive skipper over its cursor |
| SnbtTree.TreeExact | crates/protocol/src/types/nbt_snbt.rs:4-407 | Parsing the printed text gives the tree back, whatever walk of it the text was printed from and whatever walk it is read as, if and only if the tree has no end tag and only identifiers for names (floats being such that their text parses back) |
| SnbtSpaces.SpacedReads | crates/protocol/src/types/nbt_snbt.rs:84-199 | A value written with any white space between its tokens, names bare or quoted and a comma after the last entry or not, is read as that walk, exactly up to what follows it, for every nesting |
| SnbtSpaces.TextReads | crates/protocol/src/types/nbt_snbt.rs:4-106 | So is a whole text, with white space in front and anything behind |
| SnbtForms.BareWord | crates/protocol/src/types/nbt_snbt.rs:333-341 | For every identifier and whatever cannot continue it: `true` and `false` are bytes, anything else is the string itself |
| SnbtForms.QuotedForms | crates/protocol/src/types/nbt_snbt.rs:282-316 | A string in quotes of either kind is what is between them |
| SnbtForms.EscapeForms | crates/protocol/src/types/nbt_snbt.rs:282-316 | Each escape, and a backslash before any other character, which stays with it |
| SnbtForms.PlainForms | crates/protocol/src/types/nbt_snbt.rs:282-316 | Any other character stands for itself, the other quote included |
| SnbtForms.PlainInteger | crates/protocol/src/types/nbt_snbt.rs:343-407 | A number without a suffix, under either sign, is a 32-bit integer, and an error beyond |
| SnbtForms.SuffixedInteger | crates/protocol/src/types/nbt_snbt.rs:343-407 | Byte, short and long suffixes in either case, with the range of each |
| SnbtForms.DottedNumber | crates/protocol/src/types/nbt_snbt.rs:343-407 | A number with a dot is a double, with or without its suffix, or a float with that |
| SnbtForms.PlainArray | crates/protocol/src/types/nbt_snbt.rs:201-280 | Plain integers in byte, int and long arrays, of any length; a byte array keeps the low eight bits, signed |
| SnbtForms.ElementForms | crates/protocol/src/types/nbt_snbt.rs:201-280 | Which numbers each kind of array takes and refuses |
| SnbtForms.QuotedName | crates/protocol/src/types/nbt_snbt.rs:108-158 | An entry whose name is quoted has exactly that name, whatever it is |
| SnbtForms.TrailingComma | crates/protocol/src/types/nbt_snbt.rs:108-199 | A comma may end a compound but not a list |
| SnbtForms.LeadingSpace | crates/protocol/src/types/nbt_snbt.rs:84-106 | White space in front of a value does not matter |
| SnbtForms.PrintedNumbers | crates/protocol/src/types/nbt_snbt.rs:9-61 | The letters each kind of number is printed with |
| SnbtForms.PrintedArrays | crates/protocol/src/types/nbt_snbt.rs:9-61 | The brackets, commas and letters of printed arrays |
| SnbtForms.PrintedPair | crates/protocol/src/types/nbt_snbt.rs:9-61 | The brackets, braces, colons and commas of printed lists and compounds |
| SnbtExact.ValueExact | crates/protocol/src/types/nbt_snbt.rs:4-407 | In front of anything that cannot be part of it a printed value is read as that walk, wherever the reader stops, if and only if it has no end tag and only identifiers for names; the reader then stops where the value ends |
| SnbtTree.ParseGain | crates/protocol/src/types/nbt_snbt.rs:94-407 | On every text: what is read uses up the single quotes of its names and strings, and, if it uses up no more of those, an escaped double quote for each double quote; in a text whose strings are all followed by a delimiter it then has no quoted name |
| SnbtTree.PrintHolds | crates/protocol/src/types/nbt_snbt.rs:9-61 | The quotes a printed text holds are those of its names and strings, each double quote escaped unless it stands loose in a name |
| SnbtTree.SumLeast | crates/protocol/src/types/nbt_snbt.rs:108-158 | Any reading of a tree holds at least the quotes that a walk of it holds, duplicates of names included |
| SnbtExact.NeverEnd | crates/protocol/src/types/nbt_snbt.rs:94-106 | No text is read as the end tag |
| Snbt.RoundTrip | crates/protocol/src/types/nbt_snbt.rs:4-61 | The promised half: a tree with identifier names and no end tag comes back, for every iteration order of its compounds |
| Snbt.ValueRoundTrip | crates/protocol/src/types/nbt_snbt.rs:94-407 | A printed value in front of any delimiter is consumed exactly up to it |
| Snbt.ItemsRoundTrip | crates/protocol/src/types/nbt_snbt.rs:160-199 | A printed list is consumed up to its bracket |
| Snbt.EntriesRoundTrip | crates/protocol/src/types/nbt_snbt.rs:108-158 | Printed entries are consumed up to their brace, in the order they were printed |
| Snbt.ArrayRoundTrip | crates/protocol/src/types/nbt_snbt.rs:201-280 | A printed typed array reads back element by element |
| Snbt.LeafRoundTrip | crates/protocol/src/types/nbt_snbt.rs:9-61 | Numbers with their suffixes and quoted strings read back in front of any delimiter |
| Snbt.NameExact | crates/protocol/src/types/nbt_snbt.rs:318-331 | A name printed bare is read as that name, wherever the reader then stops, if and only if it is an identifier |
| Snbt.EndBecomesString | crates/protocol/src/types/nbt_snbt.rs:9-11 | The end tag comes back as a string |
| SnbtText.UnquoteOfEscape | crates/protocol/src/types/nbt_snbt.rs:53-61 | Reading an escaped string up to its quote gives the string back, for every string |
| SnbtText.ParseOfShow | crates/protocol/src/types/nbt_snbt.rs:343-407 | The decimal text of a number in range parses to it |
| SnbtParser.Parser.ParseAny | crates/protocol/src/types/nbt_snbt.rs:94-106 | The mutually recursive parser over its position gives the value or error of the specification and ends on every input |
| SnbtParser.Parser.ParseCompound | crates/protocol/src/types/nbt_snbt.rs:108-158 | The compound loop, filling the map entry by entry |
| SnbtParser.Parser.ParseSquare | crates/protocol/src/types/nbt_snbt.rs:160-199 | Lists and typed arrays after the bracket |
| SnbtParser.Parser.ParseTyped | crates/protocol/src/types/nbt_snbt.rs:201-280 | The typed-array loop |
| SnbtParser.Parser.ParseQuotedString | crates/protocol/src/types/nbt_snbt.rs:282-316 | The escape loop |
| SnbtParser.Parser.ParseNumeric | crates/protocol/src/types/nbt_snbt.rs:343-407 | The number scan and its suffixes |
| SnbtParser.ParseText | crates/protocol/src/types/nbt_snbt.rs:4-7 | The whole parser: leading space, one value, anything after it ignored |
| Codec.StringRoundTrips | crates/protocol/src/codec.rs:262-289 | Every string the writer takes reads back with any suffix |
| Codec.BytesRoundTrips | crates/protocol/src/codec.rs:291-310 | A byte array round trips if and only if it is at most 2^25 bytes |
| Codec.VecRoundTrips | crates/protocol/src/codec.rs:330-358 | A vector of values that round trip does so if and only if it has at most 65536 |
| Codec.OptionRoundTrips | crates/protocol/src/codec.rs:360-381 | An option round trips if and only if its content does |
| Codec.StringExactly | crates/protocol/src/codec.rs:277-289 | The string reader on every input: it gives a text and a rest if and only if the bytes are a length of at most 98301, spelled in any accepted way, the UTF-8 of the text and the rest |
| Codec.StringRefused | crates/protocol/src/codec.rs:277-289 | Which error any other string gives, in which order, with which numbers |
| Codec.StringWritten | crates/protocol/src/codec.rs:262-275 | What is written for every text, or the error by its length |
| Codec.BytesExactly | crates/protocol/src/codec.rs:301-310 | The same if and only if for byte arrays, up to 33554432 |
| Codec.BytesRefused | crates/protocol/src/codec.rs:301-310 | The errors of other byte arrays |
| Codec.VecExactly | crates/protocol/src/codec.rs:342-358 | A vector behind any accepted length of up to 65536 is read if and only if so many values are, one where the other ended; other lengths are refused with what they announce |
| Codec.OptionForms | crates/protocol/src/codec.rs:360-381 | A zero byte is none, any other byte some |
| Codec.ReadString | crates/protocol/src/codec.rs:277-289 | The string reader over its cursor |
| Codec.WriteString | crates/protocol/src/codec.rs:262-275 | The string writer, with its length checks |
| Codec.ReadVec | crates/protocol/src/codec.rs:342-358 | The loop over elements, for any element codec |
| Codec.WriteVec | crates/protocol/src/codec.rs:330-338 | The writing loop |
| Slot.SlotRoundTrip | crates/protocol/src/types/slot.rs:31-77 | A slot reads back with any suffix if and only if its NBT is readable, for every iteration order |
| Slot.LegacyRoundTrip | crates/protocol/src/types/slot.rs:93-140 | A legacy slot reads back if and only if its NBT is readable and its item id is not -1 |
| Slot.TailRoundTrip | crates/protocol/src/types/slot.rs:65-70 | The zero byte that stands for no NBT is never the start of one |
| Slot.SlotForms | crates/protocol/src/types/slot.rs:51-77 | The slot reader by its bytes: any nonzero byte, the id in any accepted spelling, the signed count and the tail; the errors of one that ends early |
| Slot.LegacyForms | crates/protocol/src/types/slot.rs:113-140 | The legacy reader by its bytes: FF FF for none, otherwise item, amount, damage and tail, each signed |
| Slot.SlotBytes | crates/protocol/src/types/slot.rs:31-111 | The bytes written for both forms |
| Slot.ReadSlot | crates/protocol/src/types/slot.rs:51-77 | The slot reader over its cursor |
| Slot.WriteSlot | crates/protocol/src/types/slot.rs:31-49 | Succeeds exactly when the NBT can be written, and then appends the slot |
| Slot.ReadLegacy | crates/protocol/src/types/slot.rs:113-140 | The legacy reader over its cursor |
| Slot.WriteLegacy | crates/protocol/src/types/slot.rs:93-111 | Succeeds exactly when the NBT can be written, and then appends the legacy slot |
| ChatSigning.StripKeepsMeaning | crates/proxy-core/src/chat_signing.rs:83-181 | For every signing version and every payload: the rewrite succeeds exactly when the payload parses, and its result parses to the same id, message, time and trailing fields with both flags false |
| ChatSigning.StripOnTheWire | crates/proxy-core/src/chat_signing.rs:83-181 | On the wire, for every signing version: id, message and time, a UUID of 16 bytes or none, a signature of any length or none, the salt and any tail become exactly id, message, time, two zero bytes, eight more where the version has a salt, and the tail |
| ChatSigning.StripEmptyOnTheWire | crates/proxy-core/src/chat_signing.rs:118-140 | The same for a signature whose announced length is zero or negative |
| ChatSigning.StripRefuses | crates/proxy-core/src/chat_signing.rs:104-140 | The error for each field that is cut short |
| ChatSigning.StripLeavesOld | crates/proxy-core/src/chat_signing.rs:83-90 | Versions without signing are left alone |
| ChatSigning.StripIdempotent | crates/proxy-core/src/chat_signing.rs:83-181 | For every version and payload, stripping twice is stripping once |
| ChatSigning.ParseOfBuild | crates/proxy-core/src/chat_signing.rs:142-181 | A rebuilt packet parses to the fields it was built from |
| ChatSigning.ParsedIsWritable | crates/proxy-core/src/chat_signing.rs:91-158 | Whatever was parsed can be written again |
| ChatSigning.StripChatSignature | crates/proxy-core/src/chat_signing.rs:83-181 | The function over its cursor gives the specified bytes or the error of the first field that is short |
| Glob.GlobMatchCi | crates/proxy-core/src/routing.rs:253-285 | The greedy segment loop accepts exactly the names the recursive wildcard definition accepts, for all patterns and names, and never slices out of bounds |
| Glob.MatchesIsFit | crates/proxy-core/src/routing.rs:253-285 | The recursive definition accepts exactly the names in which the pattern's parts lie one after the other, the first at the front and the last at the end |
| Glob.StarMeans | crates/proxy-core/src/routing.rs:253-285 | A star matches any run of characters |
| Glob.SameLetter | crates/proxy-core/src/routing.rs:253-285 | Two characters count as the same exactly if they are, or are one ASCII letter in both cases |
| Glob.FirstIsEnough | crates/proxy-core/src/routing.rs:273-283 | Taking the first occurrence of a middle part never loses a match |
| Glob.NowhereIsNoMatch | crates/proxy-core/src/routing.rs:273-283 | A middle part missing before the last part's place means no match |
| Selection.PickIsProportional | crates/proxy-core/src/routing.rs:210-233 | Of the equally likely rolls exactly as many as its weight choose a candidate |
| Selection.PickExact | crates/proxy-core/src/routing.rs:222-228 | Which rolls those are |
| Selection.TotalFits | crates/proxy-core/src/routing.rs:214-217 | The 64-bit sum of up to 2^32 weights of 32 bits does not wrap |
| Selection.WeightedPick | crates/proxy-core/src/routing.rs:210-233 | The loop picks the owner of the roll and never falls through |
| Selection.SelectFromGroup | crates/proxy-core/src/routing.rs:176-204 | An online member with room: the first least by players or latency, or the owner of the roll by weight; none only when there is no such member |
| Selection.CandidatesInOrder | crates/proxy-core/src/routing.rs:176-190 | The candidates are the online members with room, in the order of the group |
| Selection.LatencyOrder | crates/proxy-core/src/routing.rs:192-204 | A latency of zero, not measured, comes after every other |
| Failover.SwapEvidence | crates/proxy-core/src/failover.rs:110-201 | In every run of probes, registrations and passes: a swap goes to a registered server whose last probes did not all fail, and either away from one whose last probes all failed to a standby, or back to the primary with failback on |
| Failover.SwapsAreBounded | crates/proxy-core/src/failover.rs:110-201 | Without failback, when the primary is not among the standbys and no name comes back after a different one, no run from any state swaps more often than there are standbys |
| Failover.BoundedExactly | crates/proxy-core/src/failover.rs:57-201 | The swaps of a loaded group are bounded over all runs if and only if it has no standbys, or its primary is the first of them, or, without failback, the primary is not among them and no name comes back after a different one |
| Failover.NeverSwaps | crates/proxy-core/src/failover.rs:135-159 | With no standbys, or the primary first among them, a group at its primary never swaps |
| Failover.SwapRaisesRank | crates/proxy-core/src/failover.rs:160-191 | Each swap moves strictly down the list |
| Failover.UnboundedSwaps | crates/proxy-core/src/failover.rs:110-201 | For every other list with a first standby that is not the primary there is, for every number, a run of probes and passes from the loaded group that swaps more often |
| Failover.UnboundedReturns | crates/proxy-core/src/failover.rs:110-201 | With failback, for every list whose first standby is not the primary, there is for every number a run that swaps more often |
| Failover.SwapIsJustified | crates/proxy-core/src/failover.rs:110-201 | One decision, in any state: what it needs of the old and the new active server |
| Failover.CheckExactly | crates/proxy-core/src/failover.rs:110-201 | One decision, in any state, by who is flagged and who is registered and not: with the active server a flagged standby, the new one is the first such standby after its place, and with none it stays |
| Failover.PassExactly | crates/proxy-core/src/failover.rs:110-201 | The same over every run, by the probes and registrations themselves |
| Failover.PrimaryFailover | crates/proxy-core/src/failover.rs:135-159 | The documented walk and the code choose the same server if and only if the first standby is healthy or none is |
| Failover.HealthyStandbyPassedOver | crates/proxy-core/src/failover.rs:135-159 | A run from a loaded group, for any names: the primary and the first standby are down, the second is up, and the pass stays on the down primary |
| Failover.StaysAtPrimaryExactly | crates/proxy-core/src/failover.rs:110-201 | Over every run a loaded group is at its primary throughout if and only if no pass met a down primary and an up first standby; no other standby matters |
| Failover.ActiveStaysMember | crates/proxy-core/src/failover.rs:110-201 | In every run the active server is a member and the group's configuration stays |
| Failover.FlaggedExactly | crates/proxy-core/src/health_probe.rs:59-96 | A server is flagged if and only if its last `threshold` probes all failed, also after the failure counter wrapped |
| Failover.LatencyIsLast | crates/proxy-core/src/health_probe.rs:59-96 | The latency is that of the last probe that succeeded |
| Failover.FlagsAreHistory | crates/proxy-core/src/health_probe.rs:59-96 | The same in every run with registrations in between |
| Failover.HealthIsHistory | crates/proxy-core/src/health_probe.rs:59-96 | A registered server's whole health record is that of the probes since its registration |
| Failover.BackendHealth.Record | crates/proxy-core/src/health_probe.rs:59-96 | One probe result, in place |
| Failover.LoadedGroups | crates/proxy-core/src/failover.rs:57-74 | Every configured group is there, from the last entry of its name, started at its primary |
| Failover.FailoverManager.LoadGroups | crates/proxy-core/src/failover.rs:57-74 | The loading loop |
| Failover.FailoverManager.CheckGroup | crates/proxy-core/src/failover.rs:110-201 | One group's decision in place; the others stay |
| Failover.FailoverManager.CheckAll | crates/proxy-core/src/failover.rs:100-108 | Every group is decided once, whatever order the table has |
| Login.SuccessExactly | crates/auth/src/pipeline.rs:162-359 | Over every sequence of events and answers: which event, if any, sends the success. Online it is the second, after a valid name, with the token passed or its signed form, a 16-byte secret and an accepted session; offline the first |
| Login.AtMostOneSuccess | crates/auth/src/pipeline.rs:162-359 | At most one success is ever sent |
| Login.OnlineBatches | crates/auth/src/pipeline.rs:208-359 | The complete output of an online login: the request, then encryption, compression where the threshold is not negative, and success, with their contents |
| Login.OfflineBatch | crates/auth/src/pipeline.rs:208-359 | The complete output of an offline login |
| Login.FirstEventFails | crates/auth/src/pipeline.rs:208-260 | How a first event fails: a wrong event, a bad name |
| Login.SecondEventFails | crates/auth/src/pipeline.rs:260-359 | How a second event fails: by the first of its checks that does, with that error's text |
| Login.Reasons | crates/auth/src/error.rs:33-45 | The texts of the errors |
| Login.SessionReasons | crates/auth/src/error.rs:33-45 | The texts of two failures of the session server |
| Login.AuthenticatedExactly | crates/auth/src/pipeline.rs:361-363 | The pipeline is authenticated if and only if the last event sent the success |
| Login.FailedIsAbsorbing | crates/auth/src/pipeline.rs:162-175 | Once failed, always failed, each further event answered by one disconnect |
| Login.StateAfter | crates/auth/src/pipeline.rs:208-359 | Which runs lead to which state |
| Login.ValidUsernameExact | crates/auth/src/pipeline.rs:29-33 | The byte-wise check accepts exactly the names of one to sixteen letters, digits and underscores |
| Login.AuthPipeline.Advance | crates/auth/src/pipeline.rs:208-359 | `step`, filling its output list |
| Login.AuthPipeline.ProcessEvent | crates/auth/src/pipeline.rs:162-175 | `process`, with the failure turned into a disconnect; the pipeline is authenticated exactly when the output has the success |
| JavaHex.DigestIsSigned | crates/auth/src/session.rs:49-75 | The text read as signed hexadecimal is the hash's two's-complement value |
| JavaHex.DigestInjective | crates/auth/src/session.rs:49-75 | Different hashes have different texts |
| JavaHex.NoLeadingZeros | crates/auth/src/session.rs:65-74 | No digit but that of zero leads with zero |
| JavaHex.HexLetters | crates/auth/src/session.rs:65-74 | The digits are lower case |
| JavaHex.NegateValue | crates/auth/src/session.rs:51-64 | Complement and carry is arithmetic negation |
| JavaHex.Encode | crates/auth/src/session.rs:49-75 | The function in place prints that text and leaves its argument alone |
| JavaHex.AddOne | crates/auth/src/session.rs:56-64 | The carry loop with its early exit adds one to the number |
| Election.TenuresNeverOverlap | crates/cluster/src/coordination.rs:73-131 | In every interleaving of any number of nodes, lost answers and passing time, no two tenures of the lease share a moment |
| Election.LiveLeaseKeepsOwner | crates/cluster/src/coordination.rs:83-120 | No command changes the owner of a live lease or shortens it |
| Election.OwnAnswerMeansOwner | crates/cluster/src/coordination.rs:107-123 | When the lease branch gives a node its own id, it owns the lease at that step, for a whole term from then |
| Election.OwnAnswerOnlySo | crates/cluster/src/coordination.rs:107-129 | A node decides for itself only by a renewal or an acquisition that was answered |
| Election.OwnersAreApart | crates/cluster/src/coordination.rs:73-131 | In every run, between two different nodes being given their own ids at least a whole term passes |
| Election.LeaseLasts | crates/cluster/src/coordination.rs:83-120 | Over any stretch of any run a lease stays with its owner until its term is over |
| Election.AnswersWereTrue | crates/cluster/src/coordination.rs:75-129 | Any id a node carries through its pass was the owner of a live lease at some point of that pass |
| Election.PassEndsWell | crates/cluster/src/coordination.rs:133-161 | In every run a pass that ends names a node that was healthy when it began: one that held the lease during the pass, or the smallest healthy id; of the nodes then registered that one is leader and no other |
| Election.PassExactly | crates/cluster/src/coordination.rs:63-150 | The leader a whole pass ends with, whatever the other nodes do meanwhile, from what the store held at its two commands and which replies arrived: itself if it took the lease and heard so, else the holder it heard of unless that was itself, and the smallest healthy id if that gives no healthy node |
| Election.PassLease | crates/cluster/src/coordination.rs:73-131 | The lease after the second command: the node's for ten seconds if it held it and had heard so, or found it gone; otherwise as it was |
| Election.NobodyHealthy | crates/cluster/src/coordination.rs:63-69 | Without a healthy node only the leader is cleared |
| Election.SteadyPassElects | crates/cluster/src/coordination.rs:73-150 | In every run a pass whose GET was answered, with no renewal answer lost and one holder throughout, ends with the holder as leader if it was among the healthy, and with the smallest healthy id otherwise |
| Election.SteadyPassesAgree | crates/cluster/src/coordination.rs:73-150 | Two such passes under one holder that began with equal healthy nodes end with equal leaders |
| Election.TwoLeaders | crates/cluster/src/coordination.rs:136-150 | For any two ids there is a run after which two nodes with equal healthy nodes each take themselves for the leader |
| Election.RunConsistent | crates/cluster/src/coordination.rs:73-131 | The invariant of every run: recorded tenures are in order and the last is the lease |
| Election.TenuresGrow | crates/cluster/src/coordination.rs:83-120 | A recorded tenure keeps owner and start for good |
| Election.HolderHasTenure | crates/cluster/src/coordination.rs:83-120 | Whoever holds the lease is inside a tenure of its own |
| Election.SameViewSameLeader | crates/cluster/src/coordination.rs:142-148 | Without the lease the leader is the smallest healthy id, so equal views agree |
| Election.Coordinator.ElectLeader | crates/cluster/src/coordination.rs:63-165 | The pass in place: leader and every role. With a healthy node, exactly one node of the registry is leader and it is healthy; with none, only the leader is cleared |
| PlayerCounts.CountsStayRight | crates/proxy-core/src/proxy.rs:1248-1319 | Every run of transfers, deregistrations with evacuation and registrations of names nobody is on keeps every counter equal to the number of sessions on its server |
| PlayerCounts.CountRightExactly | crates/proxy-core/src/proxy.rs:1248-1319 | After every run a registered server's counter is right if and only if nobody was on the name at its last registration (or, without one, if it was right to begin with) |
| PlayerCounts.StepKeepsDrift | crates/proxy-core/src/proxy.rs:1248-1319 | From every state, right or wrong: no command but a registration of the name changes the distance between counter and sessions, modulo 2^64 |
| PlayerCounts.MoveNeverWraps | crates/proxy-core/src/proxy.rs:1303-1319 | In a right state a counter that is decremented is not zero and one that is incremented not full |
| PlayerCounts.TransferMoves | crates/proxy-core/src/proxy.rs:1303-1319 | Who is where after a transfer, and every counter, wrapping included |
| PlayerCounts.DeregisterMoves | crates/proxy-core/src/proxy.rs:1290-1388 | Who is where after a deregistration: exactly the players of the server are on the fallback, whose counter rises by their number, and no other counter changes |
| PlayerCounts.ProxyState.EvacuatePlayers | crates/proxy-core/src/proxy.rs:1355-1388 | In any visiting order exactly the sessions on the server are moved, the counters shift by their number, and the number is returned |
| PlayerCounts.ProxyState.TransferPlayer | crates/proxy-core/src/proxy.rs:1303-1319 | The transfer in place, for known and unknown players and servers |
| PlayerCounts.ProxyState.RegisterServer | crates/proxy-core/src/proxy.rs:1250-1289 | A fresh counter under the name; nothing for an address that does not parse |
| PlayerCounts.ProxyState.DeregisterServer | crates/proxy-core/src/proxy.rs:1290-1302 | Evacuation, then removal, of a registered server only |
| Channel.AnyBuiltPipelineUndoes | crates/netty/src/pipeline.rs:32-78 | Any pipeline built by any edits from compression handlers and handlers that undo themselves gives back what it sent, and its context, whenever what reaches compression is what compression takes back |
| Channel.CompressionPipelineExactly | crates/netty/src/pipeline.rs:32-78 | A pipeline of the source's own handler gives a payload back if and only if the exact condition below holds |
| Channel.PipelineUndoes | crates/netty/src/pipeline.rs:60-78 | For one payload it is enough that each handler undoes itself, data and context, on what reaches it |
| Channel.InboundOrder | crates/netty/src/pipeline.rs:60-68 | Inbound data meets the handlers from first to last, up to one that swallows it or fails |
| Channel.OutboundOrder | crates/netty/src/pipeline.rs:70-78 | Outbound data meets them from last to first |
| Channel.EditsInPlace | crates/netty/src/pipeline.rs:32-58 | Where each edit puts or takes a handler among the others |
| Channel.CompressionUndoesExactly | crates/netty/src/handlers.rs:46-116 | For every threshold and every payload, when compression undoes itself: with the threshold negative, exactly if the payload itself starts with an acceptable length before a stream that inflates to the payload; otherwise exactly if its length as announced is under the threshold or of 1 byte to 32 MiB (or zero for a fixed point of zlib) |
| Channel.SurvivesByLength | crates/netty/src/handlers.rs:46-116 | With threshold at least zero and payloads under 2 GiB that is: under the threshold, or 1 byte to 32 MiB |
| Channel.DeflatedForms | crates/netty/src/handlers.rs:79-116 | Which payloads are compressed and what stands in front of each |
| Channel.InflatedForms | crates/netty/src/handlers.rs:46-77 | What each announced length does to what follows |
| Channel.HandleInbound | crates/netty/src/handlers.rs:46-77 | The inflating handler over its cursor |
| Channel.HandleOutbound | crates/netty/src/handlers.rs:79-116 | The deflating handler into its buffer |
| Channel.ChannelPipeline.AddBefore | crates/netty/src/pipeline.rs:36-48 | Inserts in front of the first handler of the name and fails exactly when there is none |
| Channel.ChannelPipeline.Remove | crates/netty/src/pipeline.rs:50-58 | Removes the first handler of the name and fails exactly when there is none |
| Channel.ChannelPipeline.ProcessInbound | crates/netty/src/pipeline.rs:60-68 | The loop from first to last, each handler working on the context the one before left, stopping at a handler that swallows the data or fails |
| Channel.ChannelPipeline.ProcessOutbound | crates/netty/src/pipeline.rs:70-78 | The loop from last to first, likewise |
| Registry.RowsAreLastWrites | crates/protocol/src/registry.rs:43-61 | After any registrations the rows are the last-write-wins map, without duplicates |
| Registry.PacketRegistry.GetIdForVersion | crates/protocol/src/registry.rs:82-170 | The scan answers with the id at the greatest registered version not above the request on the same side of the pre-netty boundary, or the alias's |
| Registry.AnswerUnique | crates/protocol/src/registry.rs:82-170 | That promise has one answer |
| Registry.AnswerExists | crates/protocol/src/registry.rs:82-170 | There is none exactly when nothing suitable is registered |
| Registry.ConstantBetweenRegistrations | crates/protocol/src/registry.rs:82-170 | Between consecutive registrations of the name (and, for the one renamed packet, of its new name) the answer does not change |
| Registry.NeverAcross | crates/protocol/src/registry.rs:82-170 | An answer is an id of the packet asked for, or of its new name for the one renamed packet, and never one from across the boundary |
| Registry.GetIdIsLookup | crates/protocol/src/registry.rs:63-76 | The exact lookup is the map's |
| Registry.PacketRegistry.GetIdFor | crates/protocol/src/registry.rs:63-76 | The exact lookup gives the last id written for the version and name |
| Registry.PacketRegistry.Register | crates/protocol/src/registry.rs:43-61 | Edits the rows so that they are those of the longer history, for every state and direction |
| Tps.RingCountsHistory | crates/proxy-core/src/proxy.rs:100-118 | For every history in order of time the ring counts what the whole history holds of the window, up to 32768 |
| Tps.CountMeans | crates/proxy-core/src/proxy.rs:100-118 | What is counted is the packets at or after the cutoff, one at time zero taken as at one |
| Tps.RingCountsLatest | crates/proxy-core/src/proxy.rs:100-118 | However the ring is rotated, it counts the latest values |
| Tps.WrappedCursor | crates/proxy-core/src/proxy.rs:87-90 | A cursor that wrapped at 2^64 still names the right slot |
| Tps.StoreIsNextRing | crates/proxy-core/src/proxy.rs:86-95 | Storing at the cursor gives the ring of the longer history |
| Tps.TpsTracker.RecordPacket | crates/proxy-core/src/proxy.rs:86-95 | Records in place, keeping ring and cursor those of the history |
| Tps.TpsTracker.CalculateTps | crates/proxy-core/src/proxy.rs:100-118 | The scan counts the packets of the window, whose microseconds wrap at 2^64, and divides by its seconds; 20 when there are none |

## Left out

- Sockets, HTTP, the Redis client, timers and logging: only what each call hands back is an argument or a step.
- RSA, AES, SHA-1, HMAC and zlib: abstract functions with an inverse law or none.
- The constant tables of packet ids, versions, blocks, biomes and dimensions: finite data. Of the versions only the set of ids before chat signing and the two signed-login ids are used.
- `Position`, UUID and plain fixed-width codecs, CIDR masks, the cookie store, buffer pool, load balancer and analytics: they would only add easy members.
- Plugins, configuration, commands, control plane, telemetry and the packet converters: plumbing.
- SnbtTree.TreeExact: float texts are an argument; a tree whose floats do not print as plain decimals that parse back is not covered.
- Snbt.NameExact: the Unicode tables behind `is_alphanumeric` and `is_whitespace` are an argument, exact on ASCII.
- NbtSkipExact.LuckyRootSkips: one direction. The other is false (`NbtSkipExact.WrongTurnCancels`); what is exact for a whole root is that its own bytes decide.
- Frame.FramesInOrder: payloads within the reader's cap; what is refused or cut beyond it is `Frame.RefusedEndsRun` and `Frame.PeekWritten`.
- VarNum.DecodeFrom: the shifts and ors are sums of disjoint groups; what a 64-bit shift drops is dropped at the end.
- Glob.GlobMatchCi: positions count characters where the source counts bytes of UTF-8.
- SnbtParser.ParseText: error positions are given as characters left.
- The position of a cursor and the contents of a buffer after an error are not modelled.
- Login.SuccessExactly: the client address and the rate limiter are inside the session server's answer.
- Election.TenuresNeverOverlap: the election and the rewriting of the roles are one step; commands to the lease store are atomic, as that store makes them.
- Tps.TpsTracker.CalculateTps: sequential histories; the rate is a real number and the microsecond clock does not wrap. Overflow of the window is the wrap-around of a release build.
- PlayerCounts.CountsStayRight: each command is one step; players who connect, disconnect or switch by other routes are not commands here, and `usize` has 64 bits.
- Selection.WeightedPick: the random roll is an argument.
