/** The debugger of a switch: one thread takes requests from a client and replies, and
    packet threads are held up or let go as the client asks.  All share a lock.  Each
    method here is what one thread does between taking the lock and giving it up, so a
    run is any sequence of calls. */
module Debugger {
  import opened Bits

  datatype PacketId = PacketId(packetId: nat, copyId: nat)

  datatype Request =
    | Continue | Next | GetValue(p: PacketId, id: nat) | GetBacktrace(p: PacketId)
    | BreakPacketIn | RemovePacketIn | StopPacketIn | ResumePacketIn
    | FilterNotifications(ids: seq<PacketId>) | SetWatchpoint(id: nat) | UnsetWatchpoint(id: nat)
    | Reset | Attach | Detach

  datatype Reply =
    | Status(reqId: nat, status: nat)
    | FieldValue(reqId: nat, p: PacketId, id: nat, bytes: seq<Byte>)
    | Backtrace(reqId: nat, p: PacketId, stack: seq<bv32>)
    | PacketIn(reqId: nat, p: PacketId, port: int)
    | KeepAlive(reqId: nat)

  /** Where the thread for requests is. */
  datatype Phase = Receiving | Received(request: Request) | Replying(request: Request)

  /** A request and the number that the client gave it. */
  datatype Numbered = Numbered(request: Request, reqId: nat)

  const ANY_COPY: nat := 0xffff_ffff_ffff_ffff

  const FIELD_CTR: nat := 0xffff_ffff_ffff_ffff

  predicate Resumes(r: Request) {
    r == Continue || r == Next
  }

  // ----- live copies of packets -----

  ghost function CopiesOf(live: set<PacketId>, id: nat): (r: set<PacketId>)
    ensures forall p :: p in r <==> p in live && p.packetId == id
  {
    set p | p in live && p.packetId == id
  }

  /** The counts are the numbers of live copies of each packet. */
  ghost predicate CountsCopies(counts: map<nat, nat>, live: set<PacketId>) {
    forall id: nat ::
      (id in counts <==> CopiesOf(live, id) != {}) && (id in counts ==> counts[id] == |CopiesOf(live, id)|)
  }

  function CountIn(counts: map<nat, nat>, id: nat): map<nat, nat> {
    counts[id := if id in counts then counts[id] + 1 else 1]
  }

  function CountOut(counts: map<nat, nat>, id: nat): map<nat, nat>
    requires id in counts && counts[id] > 0
  {
    if counts[id] == 1 then counts - {id} else counts[id := counts[id] - 1]
  }

  lemma CountsIn(counts: map<nat, nat>, live: set<PacketId>, p: PacketId)
    requires CountsCopies(counts, live) && p !in live
    ensures CountsCopies(CountIn(counts, p.packetId), live + {p})
  {
    forall id: nat
      ensures CopiesOf(live + {p}, id) == if id == p.packetId then CopiesOf(live, id) + {p} else CopiesOf(live, id)
    {
    }
  }

  lemma CountsOut(counts: map<nat, nat>, live: set<PacketId>, p: PacketId)
    requires CountsCopies(counts, live) && p in live
    ensures p.packetId in counts && counts[p.packetId] > 0
    ensures CountsCopies(CountOut(counts, p.packetId), live - {p})
  {
    var k := p.packetId;
    assert p in CopiesOf(live, k);
    assert CopiesOf(live - {p}, k) == CopiesOf(live, k) - {p};
    forall id: nat | id != k ensures CopiesOf(live - {p}, id) == CopiesOf(live, id) {
    }
    assert |CopiesOf(live - {p}, k)| == counts[k] - 1;
  }

  // ----- what a client asks to be told of -----

  /** A client that gave no ids is told of every packet.  An id stands for one copy of a
      packet, or for all its copies. */
  ghost predicate Asked(ids: seq<PacketId>, p: PacketId) {
    ids == [] || exists k | 0 <= k < |ids| ::
      ids[k].packetId == p.packetId && (ids[k].copyId == p.copyId || ids[k].copyId == ANY_COPY)
  }

  function WholePackets(ids: seq<PacketId>): set<nat> {
    set p | p in ids && p.copyId == ANY_COPY :: p.packetId
  }

  function Copies(ids: seq<PacketId>): set<PacketId> {
    set p | p in ids && p.copyId != ANY_COPY
  }

  // ----- control events -----

  function LowByte(v: bv32): Byte { (v & 0xff) as Byte }

  function Upper(v: bv32): bv32 { v >> 8 }

  /** The bytes of a number, the highest first. */
  function Uint32Bytes(v: bv32): (r: seq<Byte>)
    ensures |r| == 4
  {
    [LowByte(Upper(Upper(Upper(v)))), LowByte(Upper(Upper(v))), LowByte(Upper(v)), LowByte(v)]
  }

  /** The number that four bytes stand for, the highest first. */
  function Joined(b: seq<Byte>): bv32
    requires |b| == 4
  {
    ((((((b[0] as bv32) << 8) | (b[1] as bv32)) << 8) | (b[2] as bv32)) << 8) | (b[3] as bv32)
  }

  lemma Uint32BytesJoin(v: bv32)
    ensures Joined(Uint32Bytes(v)) == v
    ensures Uint32Bytes(v)[0] & 0x80 != 0 <==> v >= 0x8000_0000
  {
  }

  /** `uint32_to_bytes`. */
  method Uint32ToBytes(v: bv32) returns (bytes: seq<Byte>)
    ensures bytes == Uint32Bytes(v)
  {
    hide LowByte, Upper;
    bytes := [0, 0, 0, 0];
    var w := v;
    for i := 0 to 4
      invariant |bytes| == 4 && forall k | 4 - i <= k < 4 :: bytes[k] == Uint32Bytes(v)[k]
      invariant w == if i == 0 then v else if i == 1 then Upper(v) else if i == 2 then Upper(Upper(v))
                     else if i == 3 then Upper(Upper(Upper(v))) else Upper(Upper(Upper(Upper(v))))
    {
      bytes := bytes[3 - i := LowByte(w)];
      w := Upper(w);
    }
  }

  /** What a control event does to the stack of a packet: the top bit means leaving. */
  function AfterCtr(stack: seq<bv32>, ctr: bv32): seq<bv32>
    requires ctr >= 0x8000_0000 ==> stack != []
  {
    if ctr >= 0x8000_0000 then stack[..|stack| - 1] else stack + [ctr]
  }

  // ----- replies -----

  /** A reply is of the right kind and has the number of the request.  Where the state is
      reset on the way, the number is 0 instead. */
  predicate Fits(n: Numbered, r: Reply) {
    match n.request
    case Continue => !r.Status? && !r.Backtrace? && r.reqId == n.reqId
    case Next => !r.Status? && !r.Backtrace? && r.reqId == n.reqId
    case GetValue(p, id) =>
      r == Status(n.reqId, 1) || r == Status(n.reqId, 2)
      || (r.FieldValue? && r.p == p && r.id == id && r.reqId == n.reqId)
    case GetBacktrace(p) => r == Status(n.reqId, 1) || (r.Backtrace? && r.p == p && r.reqId == n.reqId)
    case Reset => r == Status(0, 0)
    case Attach => r == Status(0, 0) || r == Status(n.reqId, 1)
    case Detach => r == Status(0, 0) || r == Status(n.reqId, 1)
    case _ => r == Status(n.reqId, 0) || r == Status(n.reqId, 1)
  }

  type Registers = map<nat, seq<Byte>>

  function WithValue(all: map<PacketId, Registers>, p: PacketId, id: nat, bytes: seq<Byte>): map<PacketId, Registers>
    requires p in all
  {
    var r: Registers := all[p];
    var r': Registers := r[id := bytes];
    all[p := r']
  }

  /** One register of one packet has the new value, and all else is as it was. */
  lemma WithValueIs(all: map<PacketId, Registers>, p: PacketId, id: nat, bytes: seq<Byte>)
    requires p in all
    ensures var r := WithValue(all, p, id, bytes);
            && r.Keys == all.Keys && (forall q | q in all && q != p :: r[q] == all[q])
            && id in r[p] && r[p][id] == bytes
            && (forall i: nat | i != id :: (i in r[p] <==> i in all[p]) && (i in all[p] ==> r[p][i] == all[p][i]))
  {
  }

  /** A reply that fits is for the request that was made: it has its number, unless the
      state was reset, and tells of the packet and the field that were asked for.  Only a
      request to go on is answered by an event. */
  lemma FittingReply(n: Numbered, r: Reply)
    requires Fits(n, r)
    ensures r.reqId == n.reqId || (n.request in {Reset, Attach, Detach} && r == Status(0, 0))
    ensures r.PacketIn? || r.KeepAlive? ==> n.request in {Continue, Next}
    ensures n.request in {Continue, Next} ==> r.PacketIn? || r.KeepAlive? || r.FieldValue?
    ensures r.FieldValue? ==> n.request in {Continue, Next} || n.request == GetValue(r.p, r.id)
    ensures r.Backtrace? ==> n.request == GetBacktrace(r.p)
    ensures r.Status? && r.status == 2 ==> n.request.GetValue?
    ensures r.Status? ==> r.status <= 2
  {
  }

  datatype Exchange = Exchange(question: Numbered, answer: Reply)

  function Questions(e: seq<Exchange>): (q: seq<Numbered>)
    ensures |q| == |e| && forall k | 0 <= k < |e| :: q[k] == e[k].question
  {
    seq(|e|, k requires 0 <= k < |e| => e[k].question)
  }

  class DebuggerNN {
    var stopPacketIn: bool
    var canContinue: bool
    var attached: bool
    var breakPacketIn: bool
    var breakNext: bool
    var watchpoints: set<nat>
    var filter: set<PacketId>
    var filterAll: set<nat>
    var packetIdsCount: map<nat, nat>
    var packetRegisters: map<PacketId, Registers>
    var packetCtrStacks: map<PacketId, seq<bv32>>
    var reply: Reply
    var replyReady: bool
    var reqId: nat
    var phase: Phase

    /** The number of the request that is dealt with. */
    ghost var current: nat
    /** All requests, and those that have their replies. */
    ghost var received: seq<Numbered>
    ghost var answered: seq<Exchange>
    /** The ids of the last request for notifications. */
    ghost var asked: seq<PacketId>

    /** Packets of an attached switch run only while a continue or next waits for them,
        and those of a switch that is not attached are never of interest. */
    ghost predicate Protocol()
      reads this`attached, this`canContinue, this`breakNext, this`breakPacketIn, this`watchpoints
      reads this`phase, this`replyReady
    {
      && (!attached ==> canContinue && !breakNext && !breakPacketIn && watchpoints == {})
      && (attached ==> (canContinue <==> phase.Replying? && !replyReady))
      && (phase.Replying? && !replyReady ==> attached && Resumes(phase.request))
      && (phase.Received? ==> !replyReady)
      && (breakNext ==> phase == Replying(Next) && !replyReady)
    }

    /** Every request but the one that is dealt with has one reply, which fits it. */
    ghost predicate History()
      reads this`received, this`answered, this`phase, this`current
    {
      && received == Questions(answered) + (if phase.Receiving? then [] else [Numbered(phase.request, current)])
      && (forall k | 0 <= k < |answered| :: Fits(answered[k].question, answered[k].answer))
    }

    ghost predicate Conversation()
      reads this`received, this`answered, this`phase, this`current, this`reqId, this`reply, this`replyReady
    {
      && History()
      && (phase.Received? ==> reqId == current)
      && (phase.Replying? && !replyReady ==> reqId == current)
      && (phase.Replying? && replyReady ==> Fits(Numbered(phase.request, current), reply))
    }

    ghost predicate Packets()
      reads this`packetIdsCount, this`packetRegisters, this`packetCtrStacks
    {
      packetRegisters.Keys == packetCtrStacks.Keys && CountsCopies(packetIdsCount, packetRegisters.Keys)
    }

    ghost predicate Filters()
      reads this`filter, this`filterAll, this`asked
    {
      filter == Copies(asked) && filterAll == WholePackets(asked)
    }

    ghost predicate Valid()
      reads this
    {
      Protocol() && Conversation() && Packets() && Filters()
    }

    /** The client starts anew: it is told of every packet, and of nothing else. */
    ghost predicate Cleared()
      reads this`watchpoints, this`asked, this`breakPacketIn, this`stopPacketIn
    {
      watchpoints == {} && asked == [] && !breakPacketIn && !stopPacketIn
    }

    constructor ()
      ensures Valid() && !attached && phase == Receiving && received == [] && packetRegisters == map[]
      ensures Cleared() && canContinue
    {
      stopPacketIn, canContinue, attached, breakPacketIn, breakNext := false, true, false, false, false;
      watchpoints, filter, filterAll := {}, {}, {};
      packetIdsCount, packetRegisters, packetCtrStacks := map[], map[], map[];
      reply, replyReady, reqId, phase := Status(0, 0), false, 0, Receiving;
      current, received, answered, asked := 0, [], [], [];
    }

    /** Every way to reply comes here; the source asserts that no reply is waiting. */
    method SetReply(r: Reply)
      requires !replyReady
      modifies this`reply, this`replyReady
      ensures reply == r && replyReady
    {
      reply := r;
      replyReady := true;
    }

    /** The reply to the request, at once. */
    method Answer(r: Reply)
      requires phase.Received? && !replyReady && History() && Fits(Numbered(phase.request, current), r)
      modifies this`reply, this`replyReady, this`phase
      ensures Conversation() && reply == r && replyReady && phase == Replying(old(phase).request)
    {
      hide Fits;
      SetReply(r);
      phase := Replying(phase.request);
    }

    // ----- the thread for requests -----

    /** A request arrives.  A client that is not attached only asks to attach. */
    method Receive(request: Request, id: nat)
      requires Valid() && phase.Receiving? && (attached || request == Attach)
      modifies this`replyReady, this`reqId, this`phase, this`current, this`received
      ensures Valid() && phase == Received(request) && received == old(received) + [Numbered(request, id)]
    {
      hide Packets, Fits;
      replyReady := false;
      reqId := id;
      phase := Received(request);
      current, received := id, received + [Numbered(request, id)];
    }

    /** `reset_state`. */
    method ResetState()
      modifies this`watchpoints, this`filter, this`filterAll, this`asked, this`breakPacketIn, this`reqId
      modifies this`stopPacketIn
      ensures Filters() && Cleared() && reqId == 0
    {
      watchpoints, filter, filterAll, asked := {}, {}, {}, [];
      breakPacketIn := false;
      reqId := 0;
      stopPacketIn := false;
    }

    /** `req_continue` and `req_next`: no reply yet. */
    method ReqResume()
      requires Valid() && phase.Received? && phase.request in {Continue, Next} && attached
      modifies this`canContinue, this`breakNext, this`phase
      ensures Valid() && phase == Replying(old(phase).request) && canContinue
              && breakNext == (old(phase).request == Next)
    {
      hide Packets, Fits;
      canContinue := true;
      breakNext := breakNext || phase.request == Next;
      phase := Replying(phase.request);
    }

    lemma HistoryHolds()
      requires Valid()
      ensures History() && (phase.Received? ==> reqId == current && !replyReady)
    {
    }

    method ReqAttach()
      requires Valid() && phase == Received(Attach)
      modifies this`watchpoints, this`filter, this`filterAll, this`asked, this`breakPacketIn, this`reqId
      modifies this`stopPacketIn, this`reply, this`replyReady, this`phase
      modifies this`attached, this`canContinue
      ensures Valid() && phase == Replying(Attach) && replyReady && attached && !canContinue
      ensures reply == if old(attached) then Status(current, 1) else Status(0, 0)
      ensures if old(attached) then
                unchanged(this`watchpoints, this`filter, this`filterAll, this`asked, this`breakPacketIn,
                          this`stopPacketIn)
              else Cleared()
    {
      hide Packets, History;
      HistoryHolds();
      if attached {
        Answer(Status(reqId, 1));
      } else {
        attached := true;
        canContinue := false;
        ResetState();
        Answer(Status(reqId, 0));
      }
    }

    method ReqDetach()
      requires Valid() && phase == Received(Detach)
      modifies this`watchpoints, this`filter, this`filterAll, this`asked, this`breakPacketIn, this`reqId
      modifies this`stopPacketIn, this`reply, this`replyReady, this`phase
      modifies this`attached, this`canContinue
      ensures Valid() && phase == Replying(Detach) && replyReady && !attached && canContinue
      ensures reply == if old(attached) then Status(0, 0) else Status(current, 1)
      ensures if !old(attached) then
                unchanged(this`watchpoints, this`filter, this`filterAll, this`asked, this`breakPacketIn,
                          this`stopPacketIn)
              else Cleared()
    {
      hide Packets, History;
      HistoryHolds();
      if !attached {
        Answer(Status(reqId, 1));
      } else {
        attached := false;
        ResetState();
        canContinue := true;
        Answer(Status(reqId, 0));
      }
    }

    method ReqReset()
      requires Valid() && phase == Received(Reset)
      modifies this`watchpoints, this`filter, this`filterAll, this`asked, this`breakPacketIn, this`reqId
      modifies this`stopPacketIn, this`reply, this`replyReady, this`phase
      ensures Valid() && phase == Replying(Reset) && reply == Status(0, 0) && replyReady && Cleared()
    {
      hide Packets, History;
      HistoryHolds();
      ResetState();
      Answer(Status(reqId, 0));
    }

    method ReqGetValue()
      requires Valid() && phase.Received? && phase.request.GetValue?
      modifies this`reply, this`replyReady, this`phase
      ensures Valid() && phase == Replying(old(phase).request) && replyReady
      ensures var p, id := old(phase).request.p, old(phase).request.id;
              reply == if p !in packetRegisters then Status(current, 1)
                       else if id !in packetRegisters[p] then Status(current, 2)
                       else FieldValue(current, p, id, packetRegisters[p][id])
    {
      hide Packets, History;
      HistoryHolds();
      var p, id := phase.request.p, phase.request.id;
      if p !in packetRegisters {
        Answer(Status(reqId, 1));
      } else if id !in packetRegisters[p] {
        Answer(Status(reqId, 2));
      } else {
        Answer(FieldValue(reqId, p, id, packetRegisters[p][id]));
      }
    }

    method ReqGetBacktrace()
      requires Valid() && phase.Received? && phase.request.GetBacktrace?
      modifies this`reply, this`replyReady, this`phase
      ensures Valid() && phase == Replying(old(phase).request) && replyReady
      ensures var p := old(phase).request.p;
              reply == if p in packetCtrStacks then Backtrace(current, p, packetCtrStacks[p]) else Status(current, 1)
    {
      hide Packets, History;
      HistoryHolds();
      var p := phase.request.p;
      if p !in packetCtrStacks {
        Answer(Status(reqId, 1));
      } else {
        Answer(Backtrace(reqId, p, packetCtrStacks[p]));
      }
    }

    /** The requests that change what the client wants to be told of. */
    method ReqSettings()
      requires Valid() && phase.Received? && attached
      requires phase.request in {BreakPacketIn, RemovePacketIn, StopPacketIn, ResumePacketIn}
               || phase.request.FilterNotifications? || phase.request.SetWatchpoint? || phase.request.UnsetWatchpoint?
      modifies this`reply, this`replyReady, this`phase, this`breakPacketIn, this`stopPacketIn, this`filter,
               this`filterAll, this`asked
      modifies this`watchpoints
      ensures Valid() && phase == Replying(old(phase).request) && replyReady && reply.Status? && reply.reqId == current
      ensures var r := old(phase).request;
              && breakPacketIn == (if r == BreakPacketIn then true else if r == RemovePacketIn then false
                                   else old(breakPacketIn))
              && stopPacketIn == (if r == StopPacketIn then true else if r == ResumePacketIn then false
                                  else old(stopPacketIn))
              && watchpoints == (match r case SetWatchpoint(id) => old(watchpoints) + {id}
                                         case UnsetWatchpoint(id) => old(watchpoints) - {id} case _ => old(watchpoints))
              && asked == (if r.FilterNotifications? then r.ids else old(asked))
              && (reply.status == 1 <==> (r == RemovePacketIn && !old(breakPacketIn))
                                         || (r == ResumePacketIn && !old(stopPacketIn))
                                         || (r.UnsetWatchpoint? && r.id !in old(watchpoints)))
    {
      hide Packets, History;
      HistoryHolds();
      var status := 0;
      match phase.request {
        case BreakPacketIn => breakPacketIn := true;
        case RemovePacketIn =>
          status := if breakPacketIn then 0 else 1;
          breakPacketIn := false;
        case StopPacketIn => stopPacketIn := true;
        case ResumePacketIn =>
          status := if stopPacketIn then 0 else 1;
          stopPacketIn := false;
        case FilterNotifications(ids) => SetFilters(ids);
        case SetWatchpoint(id) => watchpoints := watchpoints + {id};
        case UnsetWatchpoint(id) =>
          status := if id in watchpoints then 0 else 1;
          watchpoints := watchpoints - {id};
        case _ =>
      }
      Answer(Status(reqId, status));
    }

    method SetFilters(ids: seq<PacketId>)
      modifies this`filter, this`filterAll, this`asked
      ensures Filters() && asked == ids
    {
      filter, filterAll, asked := {}, {}, ids;
      for i := 0 to |ids|
        invariant filterAll == WholePackets(ids[..i]) && filter == Copies(ids[..i]) && asked == ids
      {
        assert ids[..i + 1] == ids[..i] + [ids[i]];
        if ids[i].copyId == ANY_COPY {
          filterAll := filterAll + {ids[i].packetId};
        } else {
          filter := filter + {ids[i]};
        }
      }
      assert ids[..|ids|] == ids;
    }

    /** No reply for a while: the switch is stopped, and the client told so. */
    method TimeOut()
      requires Valid() && phase.Replying? && !replyReady
      modifies this`canContinue, this`breakNext, this`reply, this`replyReady
      ensures Valid() && replyReady && reply == KeepAlive(current) && !canContinue
    {
      hide Packets;
      canContinue := false;
      breakNext := false;
      SetReply(KeepAlive(reqId));
    }

    /** The reply is sent. */
    method SendReply() returns (r: Reply)
      requires Valid() && phase.Replying? && replyReady
      modifies this`phase, this`answered
      ensures Valid() && phase == Receiving && r == reply
      ensures answered == old(answered) + [Exchange(Numbered(old(phase).request, current), r)]
      ensures Questions(answered) == received
    {
      hide Packets, Fits;
      r := reply;
      answered := answered + [Exchange(Numbered(phase.request, current), r)];
      phase := Receiving;
    }

    // ----- packet threads -----

    predicate InFilters(p: PacketId)
      reads this`filter, this`filterAll
    {
      (filter == {} && filterAll == {}) || p.packetId in filterAll || p in filter
    }

    /** The filters let through exactly the packets that the client asked for. */
    lemma InFiltersIff(p: PacketId)
      requires Filters()
      ensures InFilters(p) <==> Asked(asked, p)
    {
      if asked != [] {
        assert asked[0].copyId == ANY_COPY ==> asked[0].packetId in WholePackets(asked);
        assert asked[0].copyId != ANY_COPY ==> asked[0] in Copies(asked);
      }
    }

    /** An event for the client stops the packets. */
    method Event(r: Reply)
      requires Protocol() && Conversation() && attached && canContinue && r.reqId == reqId
      requires r.FieldValue? || r.PacketIn?
      modifies this`canContinue, this`breakNext, this`reply, this`replyReady
      ensures Protocol() && Conversation() && !canContinue && reply == r && replyReady
    {
      canContinue := false;
      breakNext := false;
      SetReply(r);
    }

    /** A value has changed: the client may want to know. */
    method UpdateGeneric(p: PacketId, id: nat, bytes: seq<Byte>)
      requires Valid() && p in packetRegisters && canContinue
      modifies this`packetRegisters, this`canContinue, this`breakNext, this`reply, this`replyReady
      ensures Valid() && packetRegisters == WithValue(old(packetRegisters), p, id, bytes)
      ensures attached ==> phase.Replying? && Resumes(phase.request) && !old(replyReady)
      ensures var told := Asked(asked, p) && (old(breakNext) || id in watchpoints);
              && (told ==> reply == FieldValue(reqId, p, id, bytes) && replyReady && !canContinue && !breakNext)
              && (!told ==> unchanged(this`reply, this`replyReady, this`breakNext) && canContinue)
    {
      hide Fits, Conversation, History, Resumes, InFilters, Filters, Asked, CountsCopies;
      RunsWhenResumed();
      InFiltersIff(p);
      packetRegisters := WithValue(packetRegisters, p, id, bytes);
      SamePackets(old(packetRegisters.Keys), packetRegisters.Keys, p);
      if InFilters(p) && (breakNext || id in watchpoints) {
        Event(FieldValue(reqId, p, id, bytes));
      }
    }

    /** A field changes: a thread that may not go on waits. */
    method NotifyUpdate(p: PacketId, id: nat, bytes: seq<Byte>) returns (ran: bool)
      requires Valid() && p in packetRegisters
      modifies this`packetRegisters, this`canContinue, this`breakNext, this`reply, this`replyReady
      ensures Valid() && ran == old(canContinue)
      ensures ran && attached ==> phase.Replying? && Resumes(phase.request) && !old(replyReady)
      ensures packetRegisters == if ran then WithValue(old(packetRegisters), p, id, bytes) else old(packetRegisters)
      ensures var told := ran && Asked(asked, p) && (old(breakNext) || id in watchpoints);
              && (told ==> reply == FieldValue(reqId, p, id, bytes) && replyReady && !canContinue && !breakNext)
              && (!told ==> unchanged(this`reply, this`replyReady, this`breakNext, this`canContinue))
    {
      hide Protocol, Conversation, Packets, Filters, Asked;
      if !canContinue {
        return false;
      }
      UpdateGeneric(p, id, bytes);
      ran := true;
    }

    /** A packet enters or leaves a part of the pipeline. */
    method NotifyCtr(p: PacketId, ctr: bv32) returns (ran: bool)
      requires Valid() && p in packetRegisters && p in packetCtrStacks
      requires ctr >= 0x8000_0000 ==> packetCtrStacks[p] != []
      modifies this`packetRegisters, this`packetCtrStacks, this`canContinue, this`breakNext, this`reply, this`replyReady
      ensures Valid() && ran == old(canContinue)
      ensures ran && attached ==> phase.Replying? && Resumes(phase.request) && !old(replyReady)
      ensures ran ==>
                && packetCtrStacks == old(packetCtrStacks)[p := AfterCtr(old(packetCtrStacks[p]), ctr)]
                && packetRegisters == WithValue(old(packetRegisters), p, FIELD_CTR, Uint32Bytes(ctr))
      ensures !ran ==> packetCtrStacks == old(packetCtrStacks) && packetRegisters == old(packetRegisters)
      ensures var told := ran && Asked(asked, p) && (old(breakNext) || FIELD_CTR in watchpoints);
              && (told ==> reply == FieldValue(reqId, p, FIELD_CTR, Uint32Bytes(ctr)) && replyReady && !canContinue
                           && !breakNext)
              && (!told ==> unchanged(this`reply, this`replyReady, this`breakNext, this`canContinue))
    {
      hide Protocol, Conversation, Packets, Filters, Asked, Uint32Bytes, AfterCtr;
      var bytes := Uint32ToBytes(ctr);
      if !canContinue {
        return false;
      }
      Uint32BytesJoin(ctr);
      Counter(p, ctr, bytes[0] & 0x80 != 0);
      UpdateGeneric(p, FIELD_CTR, bytes);
      ran := true;
    }

    method Counter(p: PacketId, ctr: bv32, leaves: bool)
      requires Valid() && p in packetCtrStacks && (leaves ==> packetCtrStacks[p] != [])
      requires leaves <==> ctr >= 0x8000_0000
      modifies this`packetCtrStacks
      ensures Valid() && packetCtrStacks == old(packetCtrStacks)[p := AfterCtr(old(packetCtrStacks[p]), ctr)]
    {
      hide Protocol, Conversation, Filters;
      var stack := packetCtrStacks[p];
      packetCtrStacks := packetCtrStacks[p := if leaves then stack[..|stack| - 1] else stack + [ctr]];
      SamePackets(old(packetCtrStacks.Keys), packetCtrStacks.Keys, p);
    }

    /** The switch keeps track of a new copy of a packet. */
    method Register(p: PacketId)
      requires Packets() && p !in packetRegisters
      modifies this`packetRegisters, this`packetCtrStacks, this`packetIdsCount
      ensures Packets() && packetRegisters == old(packetRegisters)[p := map[]]
      ensures packetCtrStacks == old(packetCtrStacks)[p := []]
    {
      CountsIn(packetIdsCount, packetRegisters.Keys, p);
      packetRegisters := packetRegisters[p := map[]];
      packetCtrStacks := packetCtrStacks[p := []];
      packetIdsCount := CountIn(packetIdsCount, p.packetId);
      assert packetRegisters.Keys == old(packetRegisters.Keys) + {p};
      assert packetCtrStacks.Keys == old(packetCtrStacks.Keys) + {p};
    }

    /** A packet comes in, unless it has to wait. */
    method PacketCame(p: PacketId, port: int) returns (ran: bool)
      requires Valid() && p !in packetRegisters
      modifies this`packetRegisters, this`packetCtrStacks, this`packetIdsCount, this`canContinue, this`breakNext
      modifies this`reply, this`replyReady
      ensures Valid()
      ensures ran == old(canContinue && (stopPacketIn ==> CopiesOf(packetRegisters.Keys, p.packetId) != {}))
      ensures ran && attached ==> phase.Replying? && Resumes(phase.request) && !old(replyReady)
      ensures packetRegisters == if ran then old(packetRegisters)[p := map[]] else old(packetRegisters)
      ensures packetCtrStacks == if ran then old(packetCtrStacks)[p := []] else old(packetCtrStacks)
      ensures var told := ran && Asked(asked, p) && (old(breakNext) || breakPacketIn);
              && (told ==> reply == PacketIn(reqId, p, port) && replyReady && !canContinue && !breakNext)
              && (!told ==> unchanged(this`reply, this`replyReady, this`breakNext, this`canContinue))
    {
      hide Fits, Packets, Filters, Asked, InFilters, History, CopiesOf;
      KnownIff(p.packetId);
      InFiltersIff(p);
      if !canContinue || (stopPacketIn && p.packetId !in packetIdsCount) {
        return false;
      }
      Register(p);
      if InFilters(p) && (breakNext || breakPacketIn) {
        Event(PacketIn(reqId, p, port));
      }
      ran := true;
    }

    /** A packet is counted exactly while a copy of it is in the switch. */
    lemma KnownIff(id: nat)
      requires Valid()
      ensures id in packetIdsCount <==> CopiesOf(packetRegisters.Keys, id) != {}
    {
    }

    /** A packet goes out. */
    method PacketOut(p: PacketId) returns (ran: bool)
      requires Valid() && p in packetRegisters
      modifies this`packetRegisters, this`packetCtrStacks, this`packetIdsCount
      ensures Valid() && ran == canContinue
      ensures ran && attached ==> phase.Replying? && Resumes(phase.request) && !replyReady
      ensures packetRegisters == if ran then old(packetRegisters) - {p} else old(packetRegisters)
      ensures packetCtrStacks == if ran then old(packetCtrStacks) - {p} else old(packetCtrStacks)
    {
      hide Protocol, Conversation, Resumes, CountOut, CountsCopies, Filters;
      RunsWhenResumed();
      if !canContinue {
        return false;
      }
      CountsOut(packetIdsCount, packetRegisters.Keys, p);
      packetRegisters := packetRegisters - {p};
      packetCtrStacks := packetCtrStacks - {p};
      packetIdsCount := CountOut(packetIdsCount, p.packetId);
      assert packetRegisters.Keys == old(packetRegisters.Keys) - {p};
      assert packetCtrStacks.Keys == old(packetCtrStacks.Keys) - {p};
      ran := true;
    }

    lemma RunsWhenResumed()
      requires Valid()
      ensures canContinue && attached ==> phase.Replying? && Resumes(phase.request) && !replyReady
    {
    }
  }

  lemma SamePackets(s: set<PacketId>, t: set<PacketId>, p: PacketId)
    requires p in s && t == s + {p}
    ensures s == t
  {
  }
}
