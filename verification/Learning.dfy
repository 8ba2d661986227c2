/** The learn list of a switch: packet threads add samples to a buffer, one thread sends
    full buffers to a client, and the client acknowledges what it received.  All share
    a lock.  Each method here is what one thread does between taking the lock and
    giving it up, so a run is any sequence of calls. */
module Learning {
  import opened Bits
  import opened LearnFilter

  /** A sample has at least one byte. */
  datatype Sample = Sample(first: Byte, rest: seq<Byte>) {
    function Bytes(): seq<Byte> {
      [first] + rest
    }
  }

  datatype Message = Message(bufferId: int, numSamples: nat, data: seq<Byte>)

  /** Where the sending thread is: waiting, on its way to send, or about to clear up. */
  datatype Phase = Waiting | Sending(numSamplesToSend: nat) | Sent

  function Flat(samples: seq<Sample>): (r: seq<Byte>)
    ensures r == [] <==> samples == []
  {
    if samples == [] then [] else samples[0].Bytes() + Flat(samples[1..])
  }

  lemma {:induction false} FlatSnoc(samples: seq<Sample>, s: Sample)
    ensures Flat(samples + [s]) == Flat(samples) + s.Bytes()
  {
    if samples == [] {
      assert [s][1..] == [];
    } else {
      FlatSnoc(samples[1..], s);
      assert (samples + [s])[1..] == samples[1..] + [s];
    }
  }

  /** In a message, each sample stands behind those before it, first byte first. */
  lemma {:induction false} FlatAt(samples: seq<Sample>, k: nat)
    requires k < |samples|
    ensures var at, s := |Flat(samples[..k])|, samples[k];
            at + 1 + |s.rest| <= |Flat(samples)| && Flat(samples)[at..][..1 + |s.rest|] == [s.first] + s.rest
  {
    assert samples[..k] == if k == 0 then [] else [samples[0]] + samples[1..][..k - 1];
    if k > 0 {
      FlatAt(samples[1..], k - 1);
      var at := |Flat(samples[1..][..k - 1])|;
      assert samples[..k][1..] == samples[1..][..k - 1];
      assert Flat(samples)[|samples[0].Bytes()| + at..] == Flat(samples[1..])[at..];
    }
  }

  /** What the proofs keep track of about time: when the first of the waiting samples
      came, and whether buffers of several samples were asked for then; when the last
      sample came, and whether the clock never went back. */
  datatype Times = Times(firstCame: int, firstTimed: bool, lastCame: int, inOrder: bool)

  /** A sample comes; `first` if no other waits. */
  function Came(t: Times, now: int, first: bool, timed: bool): Times {
    Times(if first then now else t.firstCame, if first then timed else t.firstTimed, now,
          t.inOrder && t.lastCame <= now)
  }

  /** What the proofs keep track of. */
  datatype History = History(
    /** the samples in `buffer`, and those in `bufferTmp` */
    pending: seq<Sample>, sending: seq<Sample>,
    /** the buffer of each sample of the filter */
    owner: map<Sample, BufferId>,
    /** what the client got, and the samples in it */
    log: seq<Message>, contents: seq<seq<Sample>>,
    /** every sample that was accepted, and how often each was acknowledged */
    accepted: seq<Sample>, acks: multiset<Sample>
  )

  /** The fields of a learn list. */
  datatype State = State(
    buffer: seq<Byte>, numSamples: nat, bufferId: BufferId,
    bufferTmp: seq<Byte>, numSamplesTmp: nat,
    filter: set<Sample>, oldBuffers: map<BufferId, FilterPtrs<Sample>>,
    phase: Phase, writerBusy: bool, hist: History
  ) {
    /** The samples that are next for the client. */
    function Outgoing(): seq<Sample> {
      if phase.Sent? then [] else hist.sending
    }

    /** What is to become of the accepted samples that were not sent. */
    function Unsent(): seq<Sample> {
      Outgoing() + hist.pending
    }
  }

  // ----- what holds between the steps -----

  ghost predicate Holds(old_: map<BufferId, FilterPtrs<Sample>>, owner: map<Sample, BufferId>, b: int,
                        samples: seq<Sample>)
  {
    b >= 0 && b in old_ && old_[b].buffer == samples && forall s | s in samples :: s in owner && owner[s] == b
  }

  /** What is in a buffer is recorded under its number, and none of it is acknowledged
      before it is sent. */
  ghost predicate Numbered(bufferId: BufferId, old_: map<BufferId, FilterPtrs<Sample>>, owner: map<Sample, BufferId>,
                           pending: seq<Sample>, outgoing: seq<Sample>)
  {
    && (forall b | b in old_ :: b <= bufferId)
    && (if pending == [] then bufferId !in old_ else Holds(old_, owner, bufferId, pending))
    && (outgoing != [] ==> Holds(old_, owner, bufferId - 1, outgoing))
  }

  /** A message carries the samples of a buffer, in order. */
  ghost predicate IsMessage(m: Message, samples: seq<Sample>) {
    m.numSamples == |samples| && m.data == Flat(samples)
  }

  /** Message `k` is the buffer of its number, which is below `bound`. */
  ghost predicate IsLogged(log: seq<Message>, contents: seq<seq<Sample>>, k: nat, bound: int,
                           old_: map<BufferId, FilterPtrs<Sample>>)
  {
    && k < |log| == |contents| && IsMessage(log[k], contents[k]) && 0 <= log[k].bufferId < bound
    && (log[k].bufferId in old_ ==> old_[log[k].bufferId].buffer == contents[k])
  }

  /** The number of the next message. */
  function Bound(bufferId: BufferId, outgoing: seq<Sample>): int {
    if outgoing == [] then bufferId else bufferId - 1
  }

  /** Every message is one buffer, and the numbers of the messages increase. */
  ghost predicate Logged(log: seq<Message>, contents: seq<seq<Sample>>, bufferId: BufferId, outgoing: seq<Sample>,
                         old_: map<BufferId, FilterPtrs<Sample>>)
  {
    && |log| == |contents|
    && (forall k | 0 <= k < |log| ::
          IsLogged(log, contents, k, Bound(bufferId, outgoing), old_))
    && (forall k, l | 0 <= k < l < |log| :: log[k].bufferId < log[l].bufferId)
  }

  function Concat(parts: seq<seq<Sample>>): seq<Sample> {
    if parts == [] then [] else Concat(parts[..|parts| - 1]) + parts[|parts| - 1]
  }

  /** Nothing is lost and nothing is made up: the accepted samples are those that were
      sent and those that are on their way.  A sample was accepted once more than it was
      acknowledged if it is in the filter, and else as often. */
  ghost predicate Conserved(accepted: seq<Sample>, contents: seq<seq<Sample>>, unsent: seq<Sample>,
                            acks: multiset<Sample>, filter: set<Sample>)
  {
    && accepted == Concat(contents) + unsent
    && forall s: Sample :: multiset(accepted)[s] == acks[s] + if s in filter then 1 else 0
  }

  /** A buffer is what it stands for. */
  predicate IsBuffer(buffer: seq<Byte>, numSamples: nat, samples: seq<Sample>) {
    buffer == Flat(samples) && numSamples == |samples|
  }

  /** The sending thread has a buffer to send. */
  predicate InPhase(s: State) {
    && s.bufferTmp == Flat(s.hist.sending)
    && (s.hist.sending != [] ==> s.numSamplesTmp == |s.hist.sending| && s.bufferId > 0)
    && (s.phase.Sending? ==> s.hist.sending != [] && s.phase.numSamplesToSend == |s.hist.sending|)
    && (s.phase.Sent? ==> s.hist.sending != [])
    && s.writerBusy == !s.phase.Waiting?
  }

  ghost predicate Ok(s: State) {
    && IsBuffer(s.buffer, s.numSamples, s.hist.pending) && InPhase(s)
    && Numbered(s.bufferId, s.oldBuffers, s.hist.owner, s.hist.pending, s.Outgoing())
    && Logged(s.hist.log, s.hist.contents, s.bufferId, s.Outgoing(), s.oldBuffers)
    && Conserved(s.hist.accepted, s.hist.contents, s.Unsent(), s.hist.acks, s.filter)
    && Accounts(s.filter, s.oldBuffers, s.hist.owner)
  }

  lemma IsBufferSnoc(buffer: seq<Byte>, numSamples: nat, samples: seq<Sample>, s: Sample)
    requires IsBuffer(buffer, numSamples, samples)
    ensures IsBuffer(buffer + s.Bytes(), numSamples + 1, samples + [s])
  {
    FlatSnoc(samples, s);
  }

  // ----- the steps -----

  lemma SwapKeeps(bufferId: BufferId, old_: map<BufferId, FilterPtrs<Sample>>, owner: map<Sample, BufferId>,
                  pending: seq<Sample>, log: seq<Message>, contents: seq<seq<Sample>>)
    requires Numbered(bufferId, old_, owner, pending, []) && Logged(log, contents, bufferId, [], old_)
    ensures Numbered(bufferId + 1, old_, owner, [], pending) && Logged(log, contents, bufferId + 1, pending, old_)
  {
    hide Holds, IsMessage;
    var bound := Bound(bufferId + 1, pending);
    forall k | 0 <= k < |log| ensures IsLogged(log, contents, k, bound, old_) {
      assert IsLogged(log, contents, k, Bound(bufferId, []), old_);
    }
  }

  lemma RecordKeeps(bufferId: BufferId, old_: map<BufferId, FilterPtrs<Sample>>, owner: map<Sample, BufferId>,
                    pending: seq<Sample>, outgoing: seq<Sample>, log: seq<Message>, contents: seq<seq<Sample>>,
                    s: Sample)
    requires Numbered(bufferId, old_, owner, pending, outgoing) && Logged(log, contents, bufferId, outgoing, old_)
    requires s !in owner
    ensures var old', owner' := old_[bufferId := Recorded(old_, bufferId, s)], owner[s := bufferId];
            && Numbered(bufferId, old', owner', pending + [s], outgoing)
            && Logged(log, contents, bufferId, outgoing, old')
    ensures bufferId in old_ ==> s !in old_[bufferId].buffer
  {
    hide IsMessage;
    var old' := old_[bufferId := Recorded(old_, bufferId, s)];
    var bound := Bound(bufferId, outgoing);
    forall k | 0 <= k < |log| ensures IsLogged(log, contents, k, bound, old') {
      assert IsLogged(log, contents, k, bound, old_);
    }
  }

  lemma SendKeeps(bufferId: BufferId, old_: map<BufferId, FilterPtrs<Sample>>, owner: map<Sample, BufferId>,
                  pending: seq<Sample>, outgoing: seq<Sample>, log: seq<Message>, contents: seq<seq<Sample>>,
                  m: Message)
    requires Numbered(bufferId, old_, owner, pending, outgoing) && Logged(log, contents, bufferId, outgoing, old_)
    requires outgoing != [] && m.bufferId == bufferId - 1 && IsMessage(m, outgoing)
    ensures Numbered(bufferId, old_, owner, pending, []) && Logged(log + [m], contents + [outgoing], bufferId, [], old_)
  {
    hide IsMessage;
    var log', contents' := log + [m], contents + [outgoing];
    forall k | 0 <= k < |log'| ensures IsLogged(log', contents', k, Bound(bufferId, []), old_) {
      if k < |log| {
        assert IsLogged(log, contents, k, Bound(bufferId, outgoing), old_);
      }
    }
    forall k | 0 <= k < |log| ensures log[k].bufferId < m.bufferId {
      assert IsLogged(log, contents, k, Bound(bufferId, outgoing), old_);
    }
  }

  lemma ConcatSnoc(parts: seq<seq<Sample>>, p: seq<Sample>)
    ensures Concat(parts + [p]) == Concat(parts) + p
  {
    assert (parts + [p])[..|parts|] == parts;
  }

  lemma ConservedSend(accepted: seq<Sample>, contents: seq<seq<Sample>>, outgoing: seq<Sample>, pending: seq<Sample>,
                      acks: multiset<Sample>, filter: set<Sample>)
    requires Conserved(accepted, contents, outgoing + pending, acks, filter)
    ensures Conserved(accepted, contents + [outgoing], [] + pending, acks, filter)
  {
    ConcatSnoc(contents, outgoing);
    assert Concat(contents) + (outgoing + pending) == (Concat(contents) + outgoing) + ([] + pending);
  }

  lemma ConservedRecord(accepted: seq<Sample>, contents: seq<seq<Sample>>, outgoing: seq<Sample>, pending: seq<Sample>,
                        acks: multiset<Sample>, filter: set<Sample>, s: Sample)
    requires Conserved(accepted, contents, outgoing + pending, acks, filter) && s !in filter
    ensures Conserved(accepted + [s], contents, outgoing + (pending + [s]), acks, filter + {s})
  {
    assert Concat(contents) + (outgoing + pending) + [s] == Concat(contents) + (outgoing + (pending + [s]));
    CountsSnoc(accepted, acks, filter, s);
  }

  lemma CountsSnoc(accepted: seq<Sample>, acks: multiset<Sample>, filter: set<Sample>, s: Sample)
    requires s !in filter && forall t: Sample :: multiset(accepted)[t] == acks[t] + if t in filter then 1 else 0
    ensures forall t: Sample :: multiset(accepted + [s])[t] == acks[t] + if t in filter + {s} then 1 else 0
  {
    forall t: Sample ensures multiset(accepted + [s])[t] == acks[t] + if t in filter + {s} then 1 else 0 {
      CountSnoc(accepted, s, t);
    }
  }

  lemma CountSnoc(accepted: seq<Sample>, s: Sample, t: Sample)
    ensures multiset(accepted + [s])[t] == multiset(accepted)[t] + if s == t then 1 else 0
  {
  }

  function Swapped(s: State): State {
    s.(bufferTmp := s.buffer, buffer := s.bufferTmp, numSamplesTmp := s.numSamples, numSamples := 0,
       bufferId := s.bufferId + 1, hist := s.hist.(sending := s.hist.pending, pending := s.hist.sending))
  }

  lemma SwappedOk(s: State)
    requires Ok(s) && s.bufferTmp == []
    ensures Ok(Swapped(s)) && Swapped(s).Unsent() == s.Unsent() && Swapped(s).hist.pending == []
  {
    hide Numbered, Logged, Conserved, Accounts, Flat;
    FlatNone();
    assert s.hist.sending == [];
    SwapKeeps(s.bufferId, s.oldBuffers, s.hist.owner, s.hist.pending, s.hist.log, s.hist.contents);
    assert [] + s.hist.pending == s.hist.pending + [];
  }

  function WithSample(s: State, x: Sample): State {
    s.(buffer := s.buffer + x.Bytes(), numSamples := s.numSamples + 1, filter := s.filter + {x},
       oldBuffers := s.oldBuffers[s.bufferId := Recorded(s.oldBuffers, s.bufferId, x)],
       hist := s.hist.(owner := s.hist.owner[x := s.bufferId], pending := s.hist.pending + [x],
                       accepted := s.hist.accepted + [x]))
  }

  lemma WithSampleOk(s: State, x: Sample)
    requires Ok(s) && x !in s.filter
    ensures Ok(WithSample(s, x))
  {
    hide Numbered, Logged, Conserved, Accounts, Flat, Recorded, IsBuffer;
    RecordStep(s.bufferId, s.oldBuffers, s.hist.owner, s.filter, s.hist.pending, s.Outgoing(), s.hist.log,
               s.hist.contents, s.hist.accepted, s.hist.acks, x);
    IsBufferSnoc(s.buffer, s.numSamples, s.hist.pending, x);
  }

  lemma RecordStep(bufferId: BufferId, old_: map<BufferId, FilterPtrs<Sample>>, owner: map<Sample, BufferId>,
                   filter: set<Sample>, pending: seq<Sample>, outgoing: seq<Sample>, log: seq<Message>,
                   contents: seq<seq<Sample>>, accepted: seq<Sample>, acks: multiset<Sample>, s: Sample)
    requires Numbered(bufferId, old_, owner, pending, outgoing) && Logged(log, contents, bufferId, outgoing, old_)
    requires Accounts(filter, old_, owner) && Conserved(accepted, contents, outgoing + pending, acks, filter)
    requires s !in filter
    ensures var old', owner' := old_[bufferId := Recorded(old_, bufferId, s)], owner[s := bufferId];
            && Numbered(bufferId, old', owner', pending + [s], outgoing)
            && Logged(log, contents, bufferId, outgoing, old')
            && Accounts(filter + {s}, old', owner')
            && Conserved(accepted + [s], contents, outgoing + (pending + [s]), acks, filter + {s})
  {
    assert owner.Keys == filter;
    hide *;
    RecordKeeps(bufferId, old_, owner, pending, outgoing, log, contents, s);
    AccountsAdd(filter, old_, owner, bufferId, s);
    ConservedRecord(accepted, contents, outgoing, pending, acks, filter, s);
  }

  function Begun(s: State, n: nat): State {
    s.(phase := Sending(n), writerBusy := true)
  }

  lemma BegunOk(s: State)
    requires Ok(s) && s.phase.Waiting? && s.bufferTmp != []
    ensures Ok(Begun(s, s.numSamplesTmp))
  {
    hide Numbered, Logged, Conserved, Accounts, Flat;
    FlatNone();
  }

  function WithMessage(s: State, m: Message): State {
    s.(phase := Sent, hist := s.hist.(log := s.hist.log + [m], contents := s.hist.contents + [s.hist.sending]))
  }

  lemma WithMessageOk(s: State, m: Message)
    requires Ok(s) && s.phase.Sending?
    requires m == Message(s.bufferId - 1, s.phase.numSamplesToSend, s.bufferTmp)
    ensures Ok(WithMessage(s, m))
  {
    hide Numbered, Logged, Conserved, Accounts, Flat;
    SendKeeps(s.bufferId, s.oldBuffers, s.hist.owner, s.hist.pending, s.hist.sending, s.hist.log, s.hist.contents, m);
    ConservedSend(s.hist.accepted, s.hist.contents, s.hist.sending, s.hist.pending, s.hist.acks, s.filter);
  }

  function Ended(s: State): State {
    s.(phase := Waiting, writerBusy := false, bufferTmp := [], hist := s.hist.(sending := []))
  }

  lemma EndedOk(s: State)
    requires Ok(s) && s.phase.Sent?
    ensures Ok(Ended(s)) && Ended(s).Unsent() == s.Unsent()
  {
    hide Numbered, Logged, Conserved, Accounts, Flat;
    FlatNone();
  }

  /** The client has the message with the number `b`. */
  ghost predicate Received(log: seq<Message>, b: BufferId) {
    exists k :: 0 <= k < |log| && log[k].bufferId == b
  }

  /** Sample `x` of buffer `b` is acknowledged. */
  function Acked(s: State, b: BufferId, x: Sample): State
    requires b in s.oldBuffers
  {
    var f := FilterPtrs(s.oldBuffers[b].unackedCount - 1, s.oldBuffers[b].buffer);
    s.(filter := s.filter - {x}, oldBuffers := if f.unackedCount == 0 then s.oldBuffers - {b} else s.oldBuffers[b := f],
       hist := WithAck(s.hist, x))
  }

  function WithAck(h: History, x: Sample): History {
    h.(owner := h.owner - {x}, acks := h.acks + multiset{x})
  }

  function WithAcks(h: History, xs: seq<Sample>): History {
    h.(owner := h.owner - Elements(xs), acks := h.acks + multiset(xs))
  }

  function Elements(s: seq<Sample>): (r: set<Sample>)
    ensures forall x :: x in r <==> x in s
  {
    set x | x in s
  }

  lemma AcksBegin(filter: set<Sample>, h: History, xs: seq<Sample>)
    ensures filter == filter - Elements(xs[..0]) && h == WithAcks(h, xs[..0])
  {
  }

  lemma AcksStep(filter: set<Sample>, h: History, xs: seq<Sample>, i: nat)
    requires i < |xs|
    ensures filter - Elements(xs[..i]) - {xs[i]} == filter - Elements(xs[..i + 1])
    ensures WithAck(WithAcks(h, xs[..i]), xs[i]) == WithAcks(h, xs[..i + 1])
    ensures WithAcks(h, xs[..i]).log == h.log
  {
    assert xs[..i + 1] == xs[..i] + [xs[i]];
  }

  /** Samples that are yet to be acknowledged keep their owner. */
  lemma StillOwned(h: History, b: BufferId, xs: seq<Sample>, i: nat)
    requires Distinct(xs) && i < |xs| && xs[i] in h.owner && h.owner[xs[i]] == b
    ensures xs[i] in WithAcks(h, xs[..i]).owner && WithAcks(h, xs[..i]).owner[xs[i]] == b
  {
  }

  lemma ReceivedIsBelow(s: State, b: BufferId)
    requires Ok(s) && Received(s.hist.log, b)
    ensures b < Bound(s.bufferId, s.Outgoing())
  {
    hide Flat, Numbered, Conserved, Accounts, IsMessage;
    var k :| 0 <= k < |s.hist.log| && s.hist.log[k].bufferId == b;
    assert IsLogged(s.hist.log, s.hist.contents, k, Bound(s.bufferId, s.Outgoing()), s.oldBuffers);
  }

  /** Giving up samples of a buffer that was received does not touch the others. */
  lemma OwnersLeave(bufferId: BufferId, old_: map<BufferId, FilterPtrs<Sample>>, owner: map<Sample, BufferId>,
                    pending: seq<Sample>, outgoing: seq<Sample>, log: seq<Message>, contents: seq<seq<Sample>>,
                    b: BufferId, gone: set<Sample>, old': map<BufferId, FilterPtrs<Sample>>)
    requires Numbered(bufferId, old_, owner, pending, outgoing) && Logged(log, contents, bufferId, outgoing, old_)
    requires b in old_ && b < Bound(bufferId, outgoing) && forall x | x in gone :: x in owner && owner[x] == b
    requires old' == old_ - {b} || exists n :: old' == old_[b := FilterPtrs(n, old_[b].buffer)]
    ensures Numbered(bufferId, old', owner - gone, pending, outgoing) && Logged(log, contents, bufferId, outgoing, old')
  {
    hide IsMessage;
    var bound := Bound(bufferId, outgoing);
    forall k | 0 <= k < |log| ensures IsLogged(log, contents, k, bound, old') {
      assert IsLogged(log, contents, k, bound, old_);
    }
  }

  lemma AckedOk(s: State, b: BufferId, x: Sample)
    requires Ok(s) && b in s.oldBuffers && x in s.hist.owner && s.hist.owner[x] == b && Received(s.hist.log, b)
    ensures Ok(Acked(s, b, x))
  {
    hide Numbered, Logged, Conserved, Accounts, Flat, IsBuffer, Received;
    ReceivedIsBelow(s, b);
    AccountsAck(s.filter, s.oldBuffers, s.hist.owner, x);
    OwnersLeave(s.bufferId, s.oldBuffers, s.hist.owner, s.hist.pending, s.Outgoing(), s.hist.log, s.hist.contents,
                b, {x}, Acked(s, b, x).oldBuffers);
    InFilter(s, x);
    ConservedAck(s.hist.accepted, s.hist.contents, s.Unsent(), s.hist.acks, s.filter, {x});
    assert multiset({x}) == multiset{x};
  }

  lemma InFilter(s: State, x: Sample)
    requires Ok(s)
    ensures x in s.hist.owner <==> x in s.filter
  {
    hide Numbered, Logged, Conserved, Flat;
  }

  lemma ConservedAck(accepted: seq<Sample>, contents: seq<seq<Sample>>, unsent: seq<Sample>,
                     acks: multiset<Sample>, filter: set<Sample>, gone: set<Sample>)
    requires Conserved(accepted, contents, unsent, acks, filter) && gone <= filter
    ensures Conserved(accepted, contents, unsent, acks + multiset(gone), filter - gone)
  {
    hide Concat;
  }

  /** All that is left of buffer `b` is acknowledged. */
  ghost function AckedBuffer(s: State, b: BufferId): State {
    var gone := Unacked(s.hist.owner, b);
    s.(filter := s.filter - gone, oldBuffers := s.oldBuffers - {b},
       hist := s.hist.(owner := s.hist.owner - gone, acks := s.hist.acks + multiset(gone)))
  }

  lemma AckedBufferOk(s: State, b: BufferId)
    requires Ok(s) && b in s.oldBuffers && Received(s.hist.log, b)
    ensures Ok(AckedBuffer(s, b))
  {
    hide Numbered, Logged, Conserved, Accounts, Flat, IsBuffer, Received;
    var gone := Unacked(s.hist.owner, b);
    ReceivedIsBelow(s, b);
    AccountsAckAll(s.filter, s.oldBuffers, s.hist.owner, b);
    OwnersLeave(s.bufferId, s.oldBuffers, s.hist.owner, s.hist.pending, s.Outgoing(), s.hist.log, s.hist.contents,
                b, gone, s.oldBuffers - {b});
    forall x | x in gone ensures x in s.filter {
      InFilter(s, x);
    }
    ConservedAck(s.hist.accepted, s.hist.contents, s.Unsent(), s.hist.acks, s.filter, gone);
  }

  /** Buffers may be forgotten, but none that is left has other samples. */
  ghost predicate SameBuffers(was: map<BufferId, FilterPtrs<Sample>>, now: map<BufferId, FilterPtrs<Sample>>) {
    forall c | c in now :: c in was && now[c].buffer == was[c].buffer
  }

  lemma StartOk()
    ensures Ok(State([], 0, 0, [], 0, {}, map[], Waiting, false, History([], [], map[], [], [], [], multiset{})))
  {
  }

  // ----- the list -----

  class LearnList {
    var buffer: seq<Byte>
    var bufferId: BufferId
    var numSamples: nat
    var maxSamples: nat
    var bufferStarted: int
    var timeout: nat
    var withTimeout: bool
    var filter: set<Sample>
    var oldBuffers: map<BufferId, FilterPtrs<Sample>>
    var bufferTmp: seq<Byte>
    var numSamplesTmp: nat
    var writerBusy: bool
    /** Where the sending thread is, and how many threads wait to swap the buffers. */
    var phase: Phase
    var swapWaiters: nat

    ghost var hist: History
    ghost var times: Times

    ghost function View(): State
      reads this
    {
      State(buffer, numSamples, bufferId, bufferTmp, numSamplesTmp, filter, oldBuffers, phase, writerBusy, hist)
    }

    ghost predicate Valid()
      reads this
    {
      Ok(View()) && Timed()
    }

    /** The timeout counts from the first waiting sample.  A first sample that came while
        buffers of one sample were asked for does not set the time, so an earlier one
        counts then. */
    ghost predicate Timed()
      reads this`numSamples, this`bufferStarted, this`times
    {
      && (numSamples > 0 && times.firstTimed ==> bufferStarted == times.firstCame)
      && (times.inOrder ==> bufferStarted <= times.lastCame)
      && (numSamples > 0 && times.inOrder ==> bufferStarted <= times.firstCame <= times.lastCame)
    }

    constructor (maxSamples: nat, timeoutMs: nat)
      ensures Valid() && hist.accepted == [] && hist.log == [] && swapWaiters == 0
      ensures this.maxSamples == maxSamples && timeout == timeoutMs && withTimeout == (timeoutMs > 0)
      ensures times.inOrder && bufferStarted == 0
    {
      buffer, bufferId, numSamples, this.maxSamples := [], 0, 0, maxSamples;
      bufferStarted, timeout, withTimeout := 0, timeoutMs, timeoutMs > 0;
      filter, oldBuffers, bufferTmp, numSamplesTmp := {}, map[], [], 0;
      writerBusy, phase, swapWaiters := false, Waiting, 0;
      hist, times := History([], [], map[], [], [], [], multiset{}), Times(0, false, 0, true);
      new;
      hide Ok;
      StartOk();
    }

    method SwapBuffers()
      requires Valid() && bufferTmp == []
      modifies this`buffer, this`bufferId, this`numSamples, this`bufferTmp, this`numSamplesTmp, this`hist
      ensures Valid() && View() == Swapped(old(View()))
    {
      hide Ok;
      SwappedOk(View());
      bufferTmp, buffer := buffer, bufferTmp;
      numSamplesTmp := numSamples;
      numSamples := 0;
      bufferId := bufferId + 1;
      hist := hist.(sending := hist.pending, pending := hist.sending);
      assert View() == Swapped(old(View()));
    }

    /** `process_full_buffer`, up to the swap or to the wait for the sending thread. */
    method ProcessFullBuffer()
      requires Valid()
      modifies this`buffer, this`bufferId, this`numSamples, this`bufferTmp, this`numSamplesTmp, this`hist
      modifies this`swapWaiters
      ensures Valid()
      ensures if old(bufferTmp) == [] then View() == Swapped(old(View())) && swapWaiters == old(swapWaiters)
              else View() == old(View()) && swapWaiters == old(swapWaiters) + 1
    {
      hide Ok;
      if bufferTmp != [] {
        swapWaiters := swapWaiters + 1;
      } else {
        SwapBuffers();
      }
    }

    /** A thread that waited to swap is woken up; it goes back to waiting while the other
        buffer is in use. */
    method Resume()
      requires Valid() && swapWaiters > 0
      modifies this`buffer, this`bufferId, this`numSamples, this`bufferTmp, this`numSamplesTmp, this`hist
      modifies this`swapWaiters
      ensures Valid()
      ensures if old(bufferTmp) == [] then View() == Swapped(old(View())) && swapWaiters == old(swapWaiters) - 1
              else View() == old(View()) && swapWaiters == old(swapWaiters)
    {
      hide Ok;
      if bufferTmp == [] {
        swapWaiters := swapWaiters - 1;
        SwapBuffers();
      }
    }

    /** A sample that is not in the filter is added to the buffer. */
    method Record(sample: Sample)
      requires Ok(View()) && sample !in filter
      modifies this`buffer, this`numSamples, this`filter, this`oldBuffers, this`hist
      ensures Ok(View()) && View() == WithSample(old(View()), sample)
    {
      hide Ok, Recorded;
      WithSampleOk(View(), sample);
      buffer := buffer + sample.Bytes();
      numSamples := numSamples + 1;
      filter := filter + {sample};
      oldBuffers := oldBuffers[bufferId := Recorded(oldBuffers, bufferId, sample)];
      hist := hist.(owner := hist.owner[sample := bufferId], pending := hist.pending + [sample],
                    accepted := hist.accepted + [sample]);
      assert View() == WithSample(old(View()), sample);
    }

    /** A packet thread brings a sample: it is dropped if it is in the filter. */
    method AddSample(sample: Sample, now: int)
      requires Valid()
      modifies this`buffer, this`bufferId, this`numSamples, this`bufferTmp, this`numSamplesTmp, this`hist
      modifies this`filter, this`oldBuffers, this`bufferStarted, this`times, this`swapWaiters
      ensures Valid()
      ensures var was, more := old(View()), WithSample(old(View()), sample);
              var full := more.numSamples >= maxSamples && !(more.numSamples == 1 && maxSamples > 1);
              if sample in was.filter then View() == was && swapWaiters == old(swapWaiters)
              else if full && was.bufferTmp == [] then View() == Swapped(more) && swapWaiters == old(swapWaiters)
              else View() == more && swapWaiters == old(swapWaiters) + if full then 1 else 0
      ensures var first := old(numSamples == 0);
              if sample in old(filter) then times == old(times) && bufferStarted == old(bufferStarted)
              else
                && times == Came(old(times), now, first, maxSamples > 1)
                && bufferStarted == if first && maxSamples > 1 then now else old(bufferStarted)
    {
      hide Ok;
      if sample in filter {
        return;
      }
      Record(sample);
      times := Came(times, now, numSamples == 1, maxSamples > 1);
      if numSamples == 1 && maxSamples > 1 {
        bufferStarted := now;
      } else if numSamples >= maxSamples {
        ProcessFullBuffer();
      }
    }

    method SetMaxSamples(nbSamples: nat)
      requires Valid()
      modifies this`buffer, this`bufferId, this`numSamples, this`bufferTmp, this`numSamplesTmp, this`hist
      modifies this`maxSamples, this`swapWaiters
      ensures Valid() && maxSamples == nbSamples
      ensures var full := old(numSamples > 0 && numSamples >= nbSamples);
              if full && old(bufferTmp) == [] then View() == Swapped(old(View())) && swapWaiters == old(swapWaiters)
              else View() == old(View()) && swapWaiters == old(swapWaiters) + if full then 1 else 0
    {
      hide Ok;
      maxSamples := nbSamples;
      if numSamples > 0 && numSamples >= maxSamples {
        ProcessFullBuffer();
      }
    }

    method SetTimeout(timeoutMs: nat)
      requires Valid()
      modifies this`timeout, this`withTimeout
      ensures Valid() && View() == old(View()) && timeout == timeoutMs && withTimeout == (timeoutMs > 0)
    {
      hide Ok;
      timeout, withTimeout := timeoutMs, timeoutMs > 0;
    }

    /** `buffer_transmit` with the lock: the sending thread goes on waiting, or leaves the
        lock with a buffer to send. */
    method TransmitBegin(now: int)
      requires Valid() && phase.Waiting?
      modifies this`buffer, this`bufferId, this`numSamples, this`bufferTmp, this`numSamplesTmp, this`hist
      modifies this`writerBusy, this`phase
      ensures Valid()
      ensures var was := old(View());
              if was.bufferTmp != [] then View() == Begun(was, was.numSamplesTmp)
              else if withTimeout && was.numSamples > 0 && now >= bufferStarted + timeout then
                View() == Begun(Swapped(was), was.numSamples)
              else View() == was
      ensures var first := times.firstCame;
              withTimeout && old(numSamples > 0 && bufferTmp == []) ==>
                && (times.firstTimed ==> (phase.Sending? <==> now >= first + timeout))
                && (times.inOrder && now >= first + timeout ==> phase.Sending?)
    {
      hide Ok;
      if bufferTmp == [] && (!withTimeout || numSamples == 0 || now < bufferStarted + timeout) {
        return;
      }
      var numSamplesToSend;
      if bufferTmp == [] {
        SomeBytes(View());
        numSamplesToSend := numSamples;
        SwapBuffers();
      } else {
        numSamplesToSend := numSamplesTmp;
      }
      BegunOk(View());
      writerBusy := true;
      phase := Sending(numSamplesToSend);
    }

    /** `buffer_transmit` without the lock: other threads may have run since, but the
        buffer and its number are still those that were locked. */
    method Send() returns (m: Message)
      requires Valid() && phase.Sending?
      modifies this`hist, this`phase
      ensures Valid() && View() == WithMessage(old(View()), m)
      ensures hist.sending == old(hist.sending) && m == Message(bufferId - 1, |hist.sending|, Flat(hist.sending))
    {
      hide Ok, Flat;
      m := Message(bufferId - 1, phase.numSamplesToSend, bufferTmp);
      WithMessageOk(View(), m);
      IsSent(View());
      hist := hist.(log := hist.log + [m], contents := hist.contents + [hist.sending]);
      phase := Sent;
    }

    /** `buffer_transmit`, back with the lock. */
    method TransmitEnd()
      requires Valid() && phase.Sent?
      modifies this`bufferTmp, this`hist, this`writerBusy, this`phase
      ensures Valid() && View() == Ended(old(View()))
    {
      hide Ok;
      EndedOk(View());
      writerBusy := false;
      bufferTmp, hist := [], hist.(sending := []);
      phase := Waiting;
    }

    /** A client acknowledges samples of a message that it has, each of them once. */
    ghost predicate ClientAcks(b: BufferId, sampleIds: seq<int>)
      reads this
    {
      b in oldBuffers ==>
        && Received(hist.log, b)
        && (forall i | 0 <= i < |sampleIds| :: 0 <= sampleIds[i] < |oldBuffers[b].buffer|)
        && Distinct(Chosen(oldBuffers[b].buffer, sampleIds))
        && forall i | 0 <= i < |sampleIds| :: IsUnacked(b, oldBuffers[b].buffer[sampleIds[i]])
    }

    ghost predicate IsUnacked(b: BufferId, x: Sample)
      reads this`hist
    {
      x in hist.owner && hist.owner[x] == b
    }

    /** One step of `ack`: the filter forgets the sample, and the buffer goes with its last. */
    method AckOne(b: BufferId, sampleId: int)
      requires Valid() && b in oldBuffers && 0 <= sampleId < |oldBuffers[b].buffer|
      requires IsUnacked(b, oldBuffers[b].buffer[sampleId]) && Received(hist.log, b)
      modifies this`filter, this`oldBuffers, this`hist
      ensures Valid() && SameBuffers(old(oldBuffers), oldBuffers)
      ensures var x := old(oldBuffers[b].buffer[sampleId]);
              filter == old(filter) - {x} && hist == WithAck(old(hist), x) && hist.log == old(hist.log)
    {
      hide Ok, Received;
      var ptrs := oldBuffers[b];
      var x := ptrs.buffer[sampleId];
      AckedOk(View(), b, x);
      filter := filter - {x};
      if ptrs.unackedCount - 1 == 0 {
        oldBuffers := oldBuffers - {b};
      } else {
        oldBuffers := oldBuffers[b := FilterPtrs(ptrs.unackedCount - 1, ptrs.buffer)];
      }
      hist := WithAck(hist, x);
      assert View() == Acked(old(View()), b, x);
    }

    lemma StillThere(b: BufferId, x: Sample)
      requires Valid() && IsUnacked(b, x)
      ensures b in oldBuffers
    {
      hide Numbered, Logged, Conserved, Flat;
    }

    /** `ack`. */
    method Ack(b: BufferId, sampleIds: seq<int>)
      requires Valid() && ClientAcks(b, sampleIds)
      modifies this`filter, this`oldBuffers, this`hist
      ensures Valid()
      ensures SameBuffers(old(oldBuffers), oldBuffers)
      ensures b !in old(oldBuffers) ==> View() == old(View())
      ensures b in old(oldBuffers) ==> var xs := old(Chosen(oldBuffers[b].buffer, sampleIds));
                filter == old(filter) - Elements(xs) && hist == WithAcks(old(hist), xs)
    {
      hide Ok, Received, Distinct, WithAck, WithAcks, Elements;
      if b !in oldBuffers {
        return;
      }
      ghost var xs := Chosen(oldBuffers[b].buffer, sampleIds);
      AcksBegin(filter, hist, xs);
      for i := 0 to |sampleIds|
        invariant Valid() && Received(hist.log, b) && SameBuffers(old(oldBuffers), oldBuffers)
        invariant i < |sampleIds| ==> b in oldBuffers && oldBuffers[b].buffer == old(oldBuffers[b].buffer)
        invariant filter == old(filter) - Elements(xs[..i]) && hist == WithAcks(old(hist), xs[..i])
      {
        StillOwned(old(hist), b, xs, i);
        AckOne(b, sampleIds[i]);
        AcksStep(old(filter), old(hist), xs, i);
        if i + 1 < |sampleIds| {
          StillOwned(old(hist), b, xs, i + 1);
          StillThere(b, xs[i + 1]);
        }
      }
      assert xs[..|xs|] == xs;
    }

    /** A client acknowledges a message that it has.  It has not acknowledged samples of
        it before, or else it left nothing else in the filter. */
    ghost predicate ClientAcksBuffer(b: BufferId)
      reads this
    {
      b in oldBuffers ==>
        && Received(hist.log, b)
        && (Unacked(hist.owner, b) == Elements(oldBuffers[b].buffer) || oldBuffers[b].unackedCount == |filter|)
    }

    /** `ack_buffer`.  Clearing the filter and erasing the samples one by one come to the
        same. */
    method AckBuffer(b: BufferId)
      requires Valid() && ClientAcksBuffer(b)
      modifies this`filter, this`oldBuffers, this`hist
      ensures Valid()
      ensures View() == if b in old(oldBuffers) then AckedBuffer(old(View()), b) else old(View())
    {
      hide Ok, Received, Elements, Unacked;
      if b !in oldBuffers {
        return;
      }
      var ptrs := oldBuffers[b];
      ghost var gone, was := Unacked(hist.owner, b), filter;
      AckedBufferOk(View(), b);
      FastPath(View(), b);
      if ptrs.unackedCount == |filter| {
        filter := {};
      } else {
        EraseAll(ptrs.buffer);
      }
      assert filter == was - gone;
      oldBuffers := oldBuffers - {b};
      hist := hist.(owner := hist.owner - gone, acks := hist.acks + multiset(gone));
      assert View() == AckedBuffer(old(View()), b);
    }

    method EraseAll(samples: seq<Sample>)
      modifies this`filter
      ensures filter == old(filter) - Elements(samples)
    {
      for i := 0 to |samples|
        invariant filter == old(filter) - Elements(samples[..i])
      {
        assert samples[..i + 1] == samples[..i] + [samples[i]];
        filter := filter - {samples[i]};
      }
      assert samples[..|samples|] == samples;
    }
  }

  lemma FastPath(s: State, b: BufferId)
    requires Ok(s) && b in s.oldBuffers
    ensures s.oldBuffers[b].unackedCount == |s.filter| <==> s.filter == Unacked(s.hist.owner, b)
  {
    hide Numbered, Logged, Conserved, Flat, Accounts;
    CountsDecide(s.filter, s.oldBuffers, s.hist.owner, b);
  }

  /** The samples that a list of numbers stands for. */
  function Chosen(buffer: seq<Sample>, sampleIds: seq<int>): (xs: seq<Sample>)
    requires forall i | 0 <= i < |sampleIds| :: 0 <= sampleIds[i] < |buffer|
    ensures |xs| == |sampleIds| && forall i | 0 <= i < |xs| :: xs[i] == buffer[sampleIds[i]]
  {
    seq(|sampleIds|, i requires 0 <= i < |sampleIds| => buffer[sampleIds[i]])
  }

  lemma SomeBytes(s: State)
    requires Ok(s) && s.numSamples > 0
    ensures s.buffer != []
  {
  }

  lemma IsSent(s: State)
    requires Ok(s) && s.phase.Sending?
    ensures IsMessage(Message(s.bufferId - 1, s.phase.numSamplesToSend, s.bufferTmp), s.hist.sending)
  {
  }

  lemma FlatNone()
    ensures Flat([]) == []
  {
  }

  // ----- whole runs -----

  /** In every state of every run, a sample was sent as often as it was acknowledged, or
      once more.  So it is never sent twice without an acknowledgement in between. */
  lemma NoResend(s: State, x: Sample)
    requires Ok(s)
    ensures s.hist.acks[x] <= multiset(Concat(s.hist.contents))[x] <= s.hist.acks[x] + 1
    ensures x !in s.filter ==> multiset(Concat(s.hist.contents))[x] == s.hist.acks[x]
  {
    hide Concat, Logged, Flat, InPhase, IsBuffer;
    var sent, unsent := Concat(s.hist.contents), s.Unsent();
    assert multiset(s.hist.accepted)[x] == multiset(sent)[x] + multiset(unsent)[x];
    UnsentOnce(s, x);
  }

  /** A sample on its way to the client is on its way once, and in the filter. */
  lemma UnsentOnce(s: State, x: Sample)
    requires Ok(s)
    ensures multiset(s.Unsent())[x] <= 1 && (x in s.Unsent() ==> x in s.filter)
  {
    hide Concat, Logged, Flat, InPhase, IsBuffer, Conserved;
    var out, pending := s.Outgoing(), s.hist.pending;
    assert multiset(out + pending)[x] == multiset(out)[x] + multiset(pending)[x];
    AtMostOnce(s, s.bufferId - 1, out, x);
    AtMostOnce(s, s.bufferId, pending, x);
  }

  lemma AtMostOnce(s: State, b: int, samples: seq<Sample>, x: Sample)
    requires Accounts(s.filter, s.oldBuffers, s.hist.owner)
    requires samples == [] || Holds(s.oldBuffers, s.hist.owner, b, samples)
    ensures multiset(samples)[x] <= 1
    ensures x in samples ==> x in s.filter && x in s.hist.owner && s.hist.owner[x] == b
    ensures multiset(samples)[x] > 0 ==> x in samples
  {
    if samples != [] {
      assert Counted(s.oldBuffers[b], Unacked(s.hist.owner, b));
      hide Accounts, Unacked;
      OccursOnce(samples, x);
    }
  }

  lemma {:induction false} OccursOnce(samples: seq<Sample>, x: Sample)
    requires Distinct(samples)
    ensures multiset(samples)[x] <= 1
  {
    if samples != [] {
      var n := |samples| - 1;
      assert samples == samples[..n] + [samples[n]];
      OccursOnce(samples[..n], x);
      CountSnoc(samples[..n], samples[n], x);
      if x == samples[n] {
        assert x !in samples[..n];
      }
    }
  }

  /** The counts of the buffers add up to the size of the filter. */
  lemma FilterIsCounted(s: State)
    requires Ok(s)
    ensures TotalUnacked(s.oldBuffers) == |s.filter|
  {
    hide Numbered, Logged, Conserved, Accounts;
    CountsAddUp(s.filter, s.oldBuffers, s.hist.owner);
  }
}
