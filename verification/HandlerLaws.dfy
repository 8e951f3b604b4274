/** The handler's operations pinned down without their specification functions: which
    calls are refused and with which error, and what every field is afterwards. */
module HandlerLaws {
  import opened Prelude
  import opened BusTypes
  import opened Packets
  import opened HandlerSpec

  /** A response is kept if and only if a request has been accepted, the response is of its
      kind and size with exactly its data, and it either leaves the address zero or echoes
      the request. What is kept then carries the data and the scalar that were given, under
      the address, length and flags of the request. */
  lemma CompleteExact(v: HandlerView, response: BusResponse)
    ensures v.accepted.None? ==> CompleteRequest(v, response) == (v, Err(NoOutstandingRequest))
    ensures v.accepted.Some? ==>
              var a := v.accepted.value;
              var fits := && response.we == a.we && response.size == a.size
                          && |response.data| == if a.we then 0 else a.size.ByteCount() * a.burstLen;
              var echoes := && response.addr == a.addr && response.burstLen == a.burstLen
                            && response.srcFixed == a.srcFixed && response.dstFixed == a.dstFixed;
              var kept := BusResponse(response.rdata, a.size, a.we, a.addr, a.burstLen, a.srcFixed, a.dstFixed,
                                      response.data);
              CompleteRequest(v, response) ==
              if fits && (response.addr == 0 || echoes) then (v.(pending := Some(kept)), Ok(Unit))
              else (v, Err(InvalidBurstConfig))
  {
    if v.accepted.Some? {
      SizesExact(v.accepted.value.size, v.accepted.value.burstLen);
    }
  }

  /** A request is queued if and only if none is outstanding, it has 1 to 65536 beats and
      exactly the payload of its kind, and every byte it touches lies in the lower half of
      the address space; the first of these that fails names the error. */
  lemma SendExact(v: HandlerView, request: BusRequest)
    ensures var width := request.size.ByteCount();
            var shaped := && 1 <= request.burstLen <= 65536
                          && |request.data| == if request.we then width * request.burstLen else 0;
            var stays := if request.we then request.dstFixed else request.srcFixed;
            var below := request.addr + (if stays then width else width * request.burstLen) <= 0x8000_0000;
            SendRequest(v, request) ==
            if v.outgoing.Some? then (v, Err(RequestPending))
            else if !shaped then (v, Err(InvalidBurstConfig))
            else if !below then (v, Err(InvalidAddressRange))
            else (v.(outgoing := Some(request)), Ok(Unit))
  {
    RouteExact(request);
    SizesExact(request.size, request.burstLen);
  }

  /** Which byte the handler answers with BufferFull: the first of a packet when neither a
      request nor a response could be stored, and the last of a packet whose own slot is
      taken. Everything else is taken. */
  lemma RefusalExact(v: HandlerView, b: byte)
    requires Sound(v)
    ensures var kind := if v.frame == [] then 0 else v.frame[0] / 16;
            var full := if kind % 2 == 0 then v.request.Some? else v.response.Some?;
            RxByte(v, b).1 ==
            if (v.frame == [] && v.request.Some? && v.response.Some?) || (LacksOne(v.frame) && full)
            then Err(BufferFull) else Ok(Unit)
    ensures v.frame == [] && v.request.Some? && v.response.Some? ==> RxByte(v, b).0 == v
  {
    hide IsStart, PacketLen, ResponseOf, RequestOf;
    if LacksOne(v.frame) {
      AssembledBurst(v.frame, v.refused + [b]);
      AssembledKind(v.frame, v.refused + [b]);
    }
    hide Assemble, Partial;
  }

  /** Between packets, exactly the bytes with kind above 3 or size code 3 are dropped; in
      second place, exactly the bytes above 1 undo the opening. */
  lemma SkippedExact(v: HandlerView, b: byte)
    requires Sound(v) && (v.request.None? || v.response.None?)
    ensures v.frame == [] ==>
              RxByte(v, b).0 == if b / 16 > 3 || b / 4 % 4 == 3 then v else v.(frame := [b])
    ensures |v.frame| == 1 ==>
              RxByte(v, b).0 == if b > 1 then v.(frame := []) else v.(frame := v.frame + [b])
  {
    assert v.frame == [] ==> v.frame + [b] == [b];
  }
  /** A received packet is stored in the free slot of its kind with every field, the scalar
      being its first four payload bytes, and nothing else changes. Only a type-3 response
      that contradicts the outstanding request is dropped. */
  lemma DeliverExact(v: HandlerView, p: Packet)
    requires p.kind <= 3
    ensures Deliver(v, p).None? <==> if p.kind % 2 == 0 then v.request.Some? else v.response.Some?
    ensures p.kind % 2 == 0 && v.request.None? ==>
              var v' := Deliver(v, p).value;
              v'.request.Some? && SameRequest(v'.request.value, p) && v' == v.(request := v'.request)
    ensures p.kind % 2 == 1 && v.response.None? ==>
              var v' := Deliver(v, p).value;
              var contradicts :=
                && p.kind == 3 && v.outgoing.Some?
                && var out := v.outgoing.value;
                   !(out.we == p.we && out.size == p.size && out.addr == p.addr && out.burstLen == p.burstLen
                     && out.srcFixed == p.srcFixed && out.dstFixed == p.dstFixed);
              if contradicts then v' == v
              else v'.response.Some? && SameResponse(v'.response.value, p) && v' == v.(response := v'.response)
  {
    hide RequestOf, ResponseOf, SameRequest, SameResponse;
    ScalarOfPayload(p);
  }

  /** Between packets: a kept response goes out first and gives up the accepted request; a
      request not yet started is next and stays outstanding; otherwise no byte comes out.
      Within a packet its remaining bytes come out in order. */
  lemma TransmitExact(v: HandlerView)
    ensures v.txRest != [] ==> TxByte(v) == (v.(txRest := v.txRest[1..]), Some(v.txRest[0]))
    ensures v.txRest == [] && v.accepted.Some? && v.pending.Some? ==>
              var r := v.pending.value;
              var bytes := Encode(Packet(1, r.size, r.we, r.srcFixed, r.dstFixed, r.burstLen, r.addr, r.data));
              TxByte(v) == (v.(accepted := None, pending := None, txRest := bytes[1..]), Some(bytes[0]))
    ensures v.txRest == [] && (v.accepted.None? || v.pending.None?) && v.outgoing.Some? && !v.started ==>
              var r := v.outgoing.value;
              var bytes := Encode(Packet(2, r.size, r.we, r.srcFixed, r.dstFixed, r.burstLen, r.addr, r.data));
              TxByte(v) == (v.(started := true, txRest := bytes[1..]), Some(bytes[0]))
    ensures v.txRest == [] && (v.accepted.None? || v.pending.None?) && (v.outgoing.None? || v.started) ==>
              TxByte(v) == (v, None)
  {
    hide Encode;
  }

  /** A stored response is handed out if and only if a request of this side is outstanding
      or one of the other side is accepted; that settles the outstanding request. A stored
      request is handed out if and only if none is accepted. */
  lemma HandOutExact(v: HandlerView)
    ensures ReceiveResponse(v) ==
            if v.response.Some? && (v.outgoing.Some? || v.accepted.Some?)
            then (v.(outgoing := None, started := false, response := None), v.response)
            else (v, None)
    ensures AcceptRequest(v) ==
            if v.request.Some? && v.accepted.None?
            then (v.(accepted := v.request, request := None), Ok(v.request.value))
            else (v, Err(NoRequestAvailable))
  {
  }
}
