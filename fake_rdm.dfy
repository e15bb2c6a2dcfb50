/** A simulated RDM responder bus: ten devices with fixed identifiers answer
    the discovery commands DISC_UNIQUE_BRANCH and DISC_MUTE. It plays the
    devices' side of the bus for the discovery algorithm. */
module FakeRdm {
  import opened Bits
  import opened E120
  import opened UniqueBranch

  /** The identifiers of the simulated devices, in the order they are checked. */
  const UID_LIST: seq<Uid> := [
    Uid(0x3638, 0x08101AD8),
    Uid(0x646F, 0x000E8E22),
    Uid(0x646F, 0x000FB190),
    Uid(0x3638, 0x27106D31),
    Uid(0x3638, 0x0B101307),
    Uid(0x646F, 0x000FB118),
    Uid(0x6574, 0x1B69D0FE),
    Uid(0x646F, 0x000FA98D),
    Uid(0x3638, 0x4110280F),
    Uid(0x3638, 0x0B101323)
  ]

  /** An incoming request once it has been parsed: the raw bytes, and the fields
      of the packet the responder looks at. Parsing itself is not part of this model. */
  datatype Request = Request(
    data: seq<u8>,
    destination: Uid,
    source: Uid,
    tn: u8,
    pid: u16,
    pd: seq<u8>)

  /** A branch query carries the lower and upper bound in its first twelve
      parameter-data bytes; the responder slices them without checking. */
  predicate WellFormed(req: Request)
  {
    req.pid == DISC_UNIQUE_BRANCH ==> |req.pd| >= 12
  }

  function LowerBound(req: Request): Uid
    requires |req.pd| >= 12
  {
    FromBytes(req.pd[0..6])
  }

  function UpperBound(req: Request): Uid
    requires |req.pd| >= 12
  {
    FromBytes(req.pd[6..12])
  }

  /** The fields of the acknowledgement packet the responder fills in for a mute. */
  datatype MuteResponse = MuteResponse(
    source: Uid,
    destination: Uid,
    tn: u8,
    portOrResponseType: u8,
    cc: u8,
    pid: u16)

  /** What the responder puts on the bus: raw bytes, or the serialization of a
      response packet (the packet serializer is not part of this model). */
  datatype Reply = Raw(bytes: seq<u8>) | Packet(response: MuteResponse)

  /** The identifiers of `uids` that lie in `[lo, hi]`, in their original order. */
  function InRange(uids: seq<Uid>, lo: Uid, hi: Uid): seq<Uid>
  {
    if uids == [] then []
    else
      var last := uids[|uids| - 1];
      InRange(uids[..|uids| - 1], lo, hi) + (if Between(lo, last, hi) then [last] else [])
  }

  /** The whole behaviour of the responder, as one function of the request. */
  function Answer(req: Request): Option<Reply>
    requires WellFormed(req)
  {
    if req.pid == DISC_UNIQUE_BRANCH then
      var found := InRange(UID_LIST, LowerBound(req), UpperBound(req));
      if |found| == 0 then None
      else if |found| == 1 then Some(Raw(ReplyBytes(Serialize(found[0]))))
      else Some(Raw(req.data))
    else if req.pid == DISC_MUTE && req.destination in UID_LIST then
      Some(Packet(MuteResponse(req.destination, req.source, req.tn,
                               RESPONSE_TYPE_ACK, DISCOVERY_COMMAND_RESPONSE, DISC_MUTE)))
    else None
  }

  /** The selection loop of a branch query: keeps each identifier with `lo <= uid <= hi`. */
  method SelectInRange(uids: seq<Uid>, lo: Uid, hi: Uid) returns (found: seq<Uid>)
    ensures found == InRange(uids, lo, hi)
  {
    found := [];
    for i := 0 to |uids|
      invariant found == InRange(uids[..i], lo, hi)
    {
      assert uids[..i + 1][..i] == uids[..i];
      if Le(uids[i], hi) && Le(lo, uids[i]) {
        found := found + [uids[i]];
      }
    }
    assert uids[..|uids|] == uids;
  }

  /** The checksum loop: the u16 wrapping sum of the twelve wire bytes at 8..20. */
  method WireChecksum(buffer: array<u8>) returns (crc: u16)
    requires buffer.Length == REPLY_LEN
    ensures crc == Checksum(buffer[8..20])
  {
    crc := 0;
    for k := 8 to 20
      invariant crc == Checksum(buffer[8..k])
    {
      assert buffer[8..k + 1][..k - 8] == buffer[8..k];
      crc := (crc + buffer[k]) % 0x1_0000;
    }
  }

  /** Fills the 24-byte reply buffer in place for the one identifier found,
      given that identifier's six serialized bytes. */
  method EncodeUnique(ub: seq<u8>) returns (wire: seq<u8>)
    requires |ub| == 6
    ensures wire == ReplyBytes(ub)
  {
    var buffer := new u8[REPLY_LEN](_ => PREAMBLE);
    buffer[7] := SEPARATOR;

    buffer[8] := Or8(ub[0], 0xAA);
    buffer[9] := Or8(ub[0], 0x55);
    buffer[10] := Or8(ub[1], 0xAA);
    buffer[11] := Or8(ub[1], 0x55);
    buffer[12] := Or8(ub[2], 0xAA);
    buffer[13] := Or8(ub[2], 0x55);
    buffer[14] := Or8(ub[3], 0xAA);
    buffer[15] := Or8(ub[3], 0x55);
    buffer[16] := Or8(ub[4], 0xAA);
    buffer[17] := Or8(ub[4], 0x55);
    buffer[18] := Or8(ub[5], 0xAA);
    buffer[19] := Or8(ub[5], 0x55);

    ghost var filled := buffer[..];
    var crc := WireChecksum(buffer);
    var crcBuffer := BigEndian16(crc);

    buffer[20] := Or8(crcBuffer[0], 0xAA);
    buffer[21] := Or8(crcBuffer[0], 0x55);
    buffer[22] := Or8(crcBuffer[1], 0xAA);
    buffer[23] := Or8(crcBuffer[1], 0x55);

    wire := buffer[..];
    assert LaidOut(ub, wire) by {
      assert wire[8..20] == filled[8..20] by {
        Equal12(wire[8..20], filled[8..20]);
      }
    }
    LaidOutIsReply(ub, wire);
  }

  /** The responder: answers a parsed request with the bytes it would put on the bus. */
  method Respond(req: Request) returns (reply: Option<Reply>)
    requires WellFormed(req)
    ensures reply == Answer(req)
  {
    var uidList := UID_LIST;
    if req.pid == DISC_UNIQUE_BRANCH {
      var lo := FromBytes(req.pd[0..6]);
      var hi := FromBytes(req.pd[6..12]);
      var found := SelectInRange(uidList, lo, hi);
      if |found| == 0 {
        return None;
      } else if |found| == 1 {
        var uidBuffer := Serialize(found[0]);
        var wire := EncodeUnique(uidBuffer);
        return Some(Raw(wire));
      } else {
        return Some(Raw(req.data));
      }
    }
    if req.pid == DISC_MUTE {
      for i := 0 to |uidList|
        invariant req.destination !in uidList[..i]
      {
        if req.destination == uidList[i] {
          var response := MuteResponse(uidList[i], req.source, req.tn,
                                       RESPONSE_TYPE_ACK, DISCOVERY_COMMAND_RESPONSE, DISC_MUTE);
          return Some(Packet(response));
        }
      }
      assert uidList[..|uidList|] == uidList;
    }
    return None;
  }

  /** No identifier occurs twice. */
  predicate Distinct(uids: seq<Uid>)
  {
    forall i, j :: 0 <= i < j < |uids| ==> uids[i] != uids[j]
  }

  /** The ten simulated devices have ten different identifiers. */
  lemma UidListDistinct()
    ensures Distinct(UID_LIST)
  {
  }

  /** An identifier is selected exactly when it is listed and lies in `[lo, hi]`. */
  lemma {:induction false} InRangeMembers(uids: seq<Uid>, lo: Uid, hi: Uid, u: Uid)
    ensures u in InRange(uids, lo, hi) <==> u in uids && Between(lo, u, hi)
  {
    if uids != [] {
      var init := uids[..|uids| - 1];
      InRangeMembers(init, lo, hi, u);
      assert uids == init + [uids[|uids| - 1]];
    }
  }

  /** Selection keeps the list order: selecting from two lists one after the
      other is selecting from their concatenation. */
  lemma {:induction false} InRangeAppend(a: seq<Uid>, b: seq<Uid>, lo: Uid, hi: Uid)
    ensures InRange(a + b, lo, hi) == InRange(a, lo, hi) + InRange(b, lo, hi)
  {
    if b != [] {
      var init := b[..|b| - 1];
      InRangeAppend(a, init, lo, hi);
      assert (a + b)[..|a + b| - 1] == a + init;
    } else {
      assert a + b == a;
    }
  }

  /** A listed identifier that is the only one in range is selected alone. */
  lemma {:induction false} InRangeSingle(uids: seq<Uid>, lo: Uid, hi: Uid, u: Uid)
    requires Distinct(uids)
    requires u in uids && Between(lo, u, hi)
    requires forall v :: v in uids && Between(lo, v, hi) ==> v == u
    ensures InRange(uids, lo, hi) == [u]
  {
    var init := uids[..|uids| - 1];
    var last := uids[|uids| - 1];
    assert uids == init + [last];
    if last == u {
      assert u !in init;
      InRangeMembers(init, lo, hi, u);
      assert InRange(init, lo, hi) == [] by {
        if InRange(init, lo, hi) != [] {
          var v := InRange(init, lo, hi)[0];
          InRangeMembers(init, lo, hi, v);
        }
      }
    } else {
      InRangeSingle(init, lo, hi, u);
    }
  }

  /** Two different selected identifiers make the selection at least two long. */
  lemma TwoSelected(found: seq<Uid>, u: Uid, v: Uid)
    requires u in found && v in found && u != v
    ensures |found| >= 2
  {
  }

  /** A branch query answers nothing exactly when no listed device lies in range. */
  lemma BranchSilentIffNoneInRange(req: Request)
    requires WellFormed(req) && req.pid == DISC_UNIQUE_BRANCH
    ensures Answer(req) == None <==>
      forall u :: u in UID_LIST ==> !Between(LowerBound(req), u, UpperBound(req))
  {
    var found := InRange(UID_LIST, LowerBound(req), UpperBound(req));
    forall u | u in UID_LIST
      ensures u in found <==> Between(LowerBound(req), u, UpperBound(req))
    {
      InRangeMembers(UID_LIST, LowerBound(req), UpperBound(req), u);
    }
    if found != [] {
      InRangeMembers(UID_LIST, LowerBound(req), UpperBound(req), found[0]);
    }
  }

  /** With exactly one listed device in range, the answer is that device's
      unique-branch reply. */
  lemma BranchUniqueReply(req: Request, u: Uid)
    requires WellFormed(req) && req.pid == DISC_UNIQUE_BRANCH
    requires u in UID_LIST && Between(LowerBound(req), u, UpperBound(req))
    requires forall v :: v in UID_LIST && Between(LowerBound(req), v, UpperBound(req)) ==> v == u
    ensures Answer(req) == Some(Raw(ReplyBytes(Serialize(u))))
  {
    UidListDistinct();
    InRangeSingle(UID_LIST, LowerBound(req), UpperBound(req), u);
  }

  /** With two different listed devices in range, the request is echoed back,
      as the replies of several devices would collide on the bus. */
  lemma BranchCollisionEcho(req: Request, u: Uid, v: Uid)
    requires WellFormed(req) && req.pid == DISC_UNIQUE_BRANCH
    requires u in UID_LIST && Between(LowerBound(req), u, UpperBound(req))
    requires v in UID_LIST && Between(LowerBound(req), v, UpperBound(req))
    requires u != v
    ensures Answer(req) == Some(Raw(req.data))
  {
    var found := InRange(UID_LIST, LowerBound(req), UpperBound(req));
    InRangeMembers(UID_LIST, LowerBound(req), UpperBound(req), u);
    InRangeMembers(UID_LIST, LowerBound(req), UpperBound(req), v);
    TwoSelected(found, u, v);
  }

  /** A query whose bounds are both one listed identifier singles that device out. */
  lemma SinglePointQuery(req: Request, u: Uid)
    requires req.pid == DISC_UNIQUE_BRANCH && u in UID_LIST
    requires |req.pd| >= 12 && req.pd[..6] == Serialize(u) && req.pd[6..12] == Serialize(u)
    ensures Answer(req) == Some(Raw(ReplyBytes(Serialize(u))))
  {
    assert req.pd[0..6] == Serialize(u);
    SerializeThenRead(u);
    LeIsTotalOrder();
    BranchUniqueReply(req, u);
  }

  /** A query over the whole identifier space finds all ten devices and collides. */
  lemma FullRangeCollides(req: Request)
    requires WellFormed(req) && req.pid == DISC_UNIQUE_BRANCH
    requires LowerBound(req) == Uid(0, 0) && UpperBound(req) == Uid(0xFFFF, 0xFFFF_FFFF)
    ensures Answer(req) == Some(Raw(req.data))
  {
    BranchCollisionEcho(req, UID_LIST[0], UID_LIST[1]);
  }

  /** A mute is acknowledged exactly when it is addressed to a listed device; the
      acknowledgement comes from that device, goes back to the sender, and carries
      the sender's transaction number. */
  lemma MuteAcknowledged(req: Request)
    requires req.pid == DISC_MUTE
    ensures Answer(req).Some? <==> req.destination in UID_LIST
    ensures Answer(req).Some? ==>
      Answer(req).value.Packet? &&
      Answer(req).value.response.source == req.destination &&
      Answer(req).value.response.destination == req.source &&
      Answer(req).value.response.tn == req.tn &&
      Answer(req).value.response.portOrResponseType == RESPONSE_TYPE_ACK &&
      Answer(req).value.response.cc == DISCOVERY_COMMAND_RESPONSE &&
      Answer(req).value.response.pid == DISC_MUTE
  {
  }

  /** Requests other than the two discovery commands go unanswered. */
  lemma OtherCommandsSilent(req: Request)
    requires req.pid != DISC_UNIQUE_BRANCH && req.pid != DISC_MUTE
    ensures Answer(req) == None
  {
  }
}
