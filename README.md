# fake_rdm: a verified model of a simulated RDM responder

This project models `fake_rdm`, a simulated ANSI E1.20 (RDM) responder. It
stands in for the devices on the bus, so the discovery algorithm can run
without hardware. Ten devices with fixed unique identifiers (UIDs) sit on the
simulated bus, and the responder answers the two discovery commands on their
behalf:

- **DISC_UNIQUE_BRANCH** carries a lower and an upper UID bound. The responder
  selects the listed UIDs inside `[lower, upper]`:
  - none found: it stays silent;
  - exactly one found: it sends that device's 24-byte unique-branch reply;
  - several found: it echoes the request bytes back, which stands for the
    collision that several replies would cause on a real bus.
- **DISC_MUTE** addressed to a listed UID is acknowledged with an ACK response
  packet. It comes from that device and goes back to the sender.
- Anything else goes unanswered.

The reply format follows section 7 of ANSI E1.20:

- seven 0xFE preamble bytes and a 0xAA separator;
- each of the six UID bytes `v` sent as the pair `v | 0xAA`, `v | 0x55`;
- a 16-bit additive checksum over those twelve wire bytes, sent big-endian and
  doubled the same way.

Modules:

- `Bits` (`bits.dfy`): unsigned bytes and the operators `|` and `&`. These are
  defined bit by bit on integers. It also proves the facts the format relies
  on: a doubled byte ANDs back to itself, and each mask's bits are set.
- `E120` (`e1_20.dfy`): the `Uid` record, the four protocol constants the
  responder uses, the UID order, and the 6-byte UID serialization with its
  inverse.
- `UniqueBranch` (`unique_branch.dfy`): the unique-branch reply as a
  specification function, with its positional layout, decoding and checksum
  lemmas.
- `FakeRdm` (`fake_rdm.dfy`): the responder itself, as methods.
  - `SelectInRange`, the range-filter loop, is proved equal to the function `InRange`.
  - `WireChecksum`, the checksum loop, is proved equal to `Checksum` of buffer bytes 8..19.
  - `EncodeUnique` fills a 24-byte array in place by indexed writes, without a loop of its own. Its result is proved equal to `ReplyBytes`.
  - `Respond` dispatches on the command and holds the mute search as a loop. It is proved equal to the specification function `Answer`.
  - Lemmas state the outcomes of `Answer` case by case.

## Model

| member | source | states |
|---|---|---|
| `Bits.Or8` | src/bin.rs:51-52 | each of the eight bits of `a \| b` is set exactly when it is set in `a` or in `b` |
| `Bits.And8` | src/bin.rs:51-52 | helper, not a source operation (the source has no `&`): each of the eight bits of `a & b` is set exactly when it is set in both; it states how a receiver decodes the pairs written at these lines |
| `Bits.PairRoundTrip` | src/bin.rs:51-67 | for every byte `v`, `(v \| 0xAA) & (v \| 0x55) == v` |
| `Bits.MasksSet` | src/bin.rs:51-81 | `v \| 0xAA` has all the 0xAA bits set and `v \| 0x55` all the 0x55 bits, whatever `v` is |
| `E120.Combined` | src/lib.rs:161-164 | helper for the UID order, not a source operation: a UID read as one 48-bit number has the manufacturer id in the high 16 bits and the device id in the low 32 |
| `E120.LeIsTotalOrder` | src/bin.rs:37 | the UID order used by the range test is reflexive, antisymmetric, transitive and total |
| `E120.LeMatchesCombined` | src/bin.rs:37 | comparing UIDs field by field (manufacturer first) agrees with comparing them as 48-bit numbers |
| `E120.SerializeThenRead` | src/bin.rs:31-32 | reading back a serialized UID gives the same UID |
| `E120.ReadThenSerialize` | src/bin.rs:47 | serializing a UID read from six bytes gives those six bytes back |
| `UniqueBranch.Double` | src/bin.rs:51-67 | doubling turns `n` bytes into `2n` wire bytes |
| `UniqueBranch.DoubleThenPairAnd` | src/bin.rs:51-67 | ANDing each pair of the doubled bytes gives back the original bytes |
| `UniqueBranch.DoubleAt` | src/bin.rs:51-67 | wire byte `2i` is `v[i] \| 0xAA` and wire byte `2i+1` is `v[i] \| 0x55` |
| `UniqueBranch.ChecksumIsWrappedSum` | src/bin.rs:69-73 | adding the bytes one by one into a u16 and dropping the carry gives the exact byte sum modulo 2^16 |
| `UniqueBranch.SumBound` | src/bin.rs:69-73 | `n` bytes sum to at most `255 * n` |
| `UniqueBranch.ShortChecksumNoWrap` | src/bin.rs:69-73 | over at most 257 bytes the u16 accumulator never wraps, so the checksum is the exact sum |
| `UniqueBranch.BigEndian16` | src/bin.rs:75 | the two bytes are the high and the low byte of the 16-bit value: `b[0] * 256 + b[1] == c` |
| `UniqueBranch.ReplyBytes` | src/bin.rs:46-83 | the unique-branch reply is 24 bytes long |
| `UniqueBranch.ReplyPieces` | src/bin.rs:48-81 | helper for the layout lemmas, unfolding `ReplyBytes`: the reply is the 8-byte header, then the doubled UID, then the doubled big-endian checksum of the doubled UID |
| `UniqueBranch.ReplyBytesIffLaidOut` | src/bin.rs:48-81 | a 24-byte sequence is the reply exactly when each of its positions holds what the encoder writes there |
| `UniqueBranch.ReplyIsLaidOut` | src/bin.rs:48-81 | the reply has the positional content the encoder writes |
| `UniqueBranch.LaidOutIsReply` | src/bin.rs:48-81 | a buffer with that positional content is the reply |
| `UniqueBranch.ReplyLayout` | src/bin.rs:48-81 | bytes 0..6 are 0xFE and byte 7 is 0xAA; for `i < 6`, bytes `8+2i` and `9+2i` are `u[i] \| 0xAA` and `u[i] \| 0x55`; bytes 20..23 are the checksum of bytes 8..19, doubled, high byte first |
| `UniqueBranch.ReplyDecodes` | src/bin.rs:51-81 | ANDing the pairs of bytes 8..19 gives the serialized UID; ANDing the pairs of bytes 20..23 gives the big-endian checksum of bytes 8..19 |
| `UniqueBranch.ReplyChecksumNoWrap` | src/bin.rs:69-73 | the twelve wire bytes sum to at most 3060, so the checksum equals their exact sum |
| `UniqueBranch.ReplyMaskBits` | src/bin.rs:51-81 | every even position from 8 to 22 has all the 0xAA bits set; every odd position from 9 to 23 has all the 0x55 bits set |
| `FakeRdm.SelectInRange` | src/bin.rs:34-41 | the selection loop returns exactly the in-range UIDs of the list, in list order |
| `FakeRdm.InRangeMembers` | src/bin.rs:34-41 | a UID is selected exactly when it is listed and `min <= uid <= max` |
| `FakeRdm.InRangeAppend` | src/bin.rs:34-41 | selecting from two lists in turn is selecting from their concatenation, so the selection keeps list order |
| `FakeRdm.InRangeSingle` | src/bin.rs:34-41 | in a list without repeats, a UID that is the only one in range is selected alone |
| `FakeRdm.TwoSelected` | src/bin.rs:43-45 | helper for `BranchCollisionEcho`, a general fact about sequences: two different selected UIDs make the selection at least two long |
| `FakeRdm.UidListDistinct` | src/bin.rs:15-26 | the ten simulated devices have ten different UIDs |
| `FakeRdm.WireChecksum` | src/bin.rs:69-73 | the checksum loop computes the wrapping u16 sum of buffer bytes 8..19 |
| `FakeRdm.EncodeUnique` | src/bin.rs:47-83 | filling the 24-byte array in place yields exactly the unique-branch reply for the given UID bytes |
| `FakeRdm.Respond` | src/bin.rs:12-111 | the responder's answer to every well-formed request is `Answer` of that request |
| `FakeRdm.BranchSilentIffNoneInRange` | src/bin.rs:43-44 | a branch query is answered with nothing exactly when no listed UID lies in range |
| `FakeRdm.BranchUniqueReply` | src/bin.rs:45-83 | with exactly one listed UID in range, the answer is that UID's 24-byte unique-branch reply |
| `FakeRdm.BranchCollisionEcho` | src/bin.rs:84-85 | with two different listed UIDs in range, the answer is the request bytes unchanged |
| `FakeRdm.SinglePointQuery` | src/bin.rs:30-83 | a query whose bounds are both one listed UID gets that device's unique-branch reply |
| `FakeRdm.FullRangeCollides` | src/bin.rs:30-85 | a query over the whole UID space collides and is echoed |
| `FakeRdm.MuteAcknowledged` | src/bin.rs:89-108 | a mute is acknowledged exactly when its destination is listed; the ACK comes from that UID, goes to the request's source, copies its transaction number, and has type ACK, command class 0x11 and pid DISC_MUTE |
| `FakeRdm.OtherCommandsSilent` | src/bin.rs:110 | a request that is neither DISC_UNIQUE_BRANCH nor DISC_MUTE gets no answer |

## Left out

- `main` and its logger set-up and printing (src/bin.rs:113-132): I/O only. The discovery algorithm `do_discovery_algo` it calls is not part of this model.
- The `debug!` logging calls (src/bin.rs:46, 92): side effects only.
- Packet parsing. `Pkt::deserialize` is not part of this model. `Respond` takes the request already parsed, as a `Request` with the raw bytes and the fields the responder reads. The `unwrap()` on parsing and the unchecked `pd[0..6]` and `pd[6..12]` slices become the precondition `WellFormed`: a branch query carries at least twelve parameter-data bytes.
- Packet serialization. `Pkt::new`, `set_message_length`, `set_checksum` and `serialize` are not part of this model. The mute acknowledgement is returned as the six fields the responder sets, not as bytes. The fields `Pkt::new` fills by default are not modelled.
- UID serialization and parsing. `Uid::uid_serialize` and `Uid::from_bytes` are not part of this model. They are taken to be the big-endian layout manufacturer id (2 bytes) then device id (4 bytes); `E120.Serialize` and `E120.FromBytes` state that layout.
- UID comparison. The `Uid` ordering is not part of this model. It is taken to be the order a derived comparison over `(mfg, dev)` gives: manufacturer id first, then device id.
- Bytes are integers in `0..255`, and `|` and `&` are the bit-by-bit functions of module `Bits`. The u16 wrap-around of `overflowing_add` is written as `% 0x1_0000`.
- `FakeRdm.EncodeUnique` returns the contents of its local array as a sequence, which is what `buffer.to_vec()` hands back.
- The constant table of src/lib.rs beyond the four constants the responder uses: pure data.
