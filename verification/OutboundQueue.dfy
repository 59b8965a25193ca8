/** A peer's outbound queue: packets wait in priority order (control, then
    gameplay, then diagnostics), oldest first within a channel. The answers of
    the data channel are inputs. */
module OutboundQueue {
  import opened Packets

  datatype Channel = Control | Gameplay | Diagnostics

  function Priority(c: Channel): nat {
    match c
    case Control => 0
    case Gameplay => 1
    case Diagnostics => 2
  }

  datatype Packet = Packet(payload: seq<Byte>, reliable: bool, channel: Channel)

  const HIGH_WATER_BYTES := 256 * 1024
  const RESUME_BYTES := 64 * 1024
  const MAX_SENDS_PER_FLUSH := 32

  datatype SendResult = Sent | NotOpen | Failed

  /** What the data channel answers to one send. */
  datatype Answer = Answer(open: bool, buffered: nat, result: SendResult)

  /** Whether a packet on one channel may stand before a packet on another:
      nothing else before control traffic, no diagnostics before gameplay. */
  predicate MayPrecede(first: Channel, later: Channel) {
    && (later == Control ==> first == Control)
    && (later == Gameplay ==> first != Diagnostics)
  }

  predicate InOrder(q: seq<Packet>) {
    forall i, j :: 0 <= i < j < |q| ==> MayPrecede(q[i].channel, q[j].channel)
  }

  /** The packets of one channel, in queue order. */
  function On(q: seq<Packet>, c: Channel): seq<Packet> {
    if q == [] then [] else (if q[0].channel == c then [q[0]] else []) + On(q[1..], c)
  }

  // ---- Sending -------------------------------------------------------------------

  /** The queue with a packet added before the first one of lower priority. */
  function Insert(q: seq<Packet>, p: Packet): seq<Packet> {
    if q == [] || Priority(q[0].channel) > Priority(p.channel) then [p] + q
    else [q[0]] + Insert(q[1..], p)
  }

  datatype SendOutcome = SendOutcome(accepted: bool, sent: seq<Packet>, pending: seq<Packet>, failed: bool)

  /** Queues the packet, or sends it at once when nothing waits and the channel
      is open and not congested. */
  function Send(q: seq<Packet>, p: Packet, answer: Answer): SendOutcome {
    if !answer.open || q != [] || answer.buffered > HIGH_WATER_BYTES then SendOutcome(true, [], Insert(q, p), false)
    else match answer.result
      case Sent => SendOutcome(true, [p], q, false)
      case NotOpen => SendOutcome(true, [], Insert(q, p), false)
      case Failed => SendOutcome(false, [], q, true)
  }

  datatype FlushOutcome = FlushOutcome(sent: seq<Packet>, pending: seq<Packet>, failed: bool)

  /** Sends from the front until the queue is empty, 32 packets went out, the
      channel is congested, or a send does not succeed. */
  function Flush(q: seq<Packet>, answers: nat -> Answer, i: nat): FlushOutcome
    decreases MAX_SENDS_PER_FLUSH - i
  {
    if q == [] || i >= MAX_SENDS_PER_FLUSH || answers(i).buffered > RESUME_BYTES then FlushOutcome([], q, false)
    else match answers(i).result
      case Sent => var rest := Flush(q[1..], answers, i + 1); rest.(sent := [q[0]] + rest.sent)
      case NotOpen => FlushOutcome([], q, false)
      case Failed => FlushOutcome([], q, true)
  }

  // ---- Order and conservation ---------------------------------------------------

  lemma {:induction false} OnConcat(a: seq<Packet>, b: seq<Packet>, c: Channel)
    ensures On(a + b, c) == On(a, c) + On(b, c)
  {
    if a == [] {
      assert a + b == b;
    } else {
      OnConcat(a[1..], b, c);
      assert (a + b)[0] == a[0] && (a + b)[1..] == a[1..] + b;
      var head := if a[0].channel == c then [a[0]] else [];
      Associative(head, On(a[1..], c), On(b, c));
    }
  }

  lemma OnCons(x: Packet, q: seq<Packet>, c: Channel)
    ensures On([x] + q, c) == (if x.channel == c then [x] else []) + On(q, c)
  {
    assert ([x] + q)[1..] == q;
  }

  lemma LastUnderCons(x: Packet, r: seq<Packet>, q: seq<Packet>, p: Packet, c: Channel)
    requires On(r, c) == On(q, c) + On([p], c)
    ensures On([x] + r, c) == On([x] + q, c) + On([p], c)
  {
    OnCons(x, r, c);
    OnCons(x, q, c);
    var head := if x.channel == c then [x] else [];
    Associative(head, On(q, c), On([p], c));
  }

  lemma Associative(a: seq<Packet>, b: seq<Packet>, c: seq<Packet>)
    ensures (a + b) + c == a + (b + c)
  {}

  lemma {:induction false} OnNone(q: seq<Packet>, c: Channel)
    requires forall i :: 0 <= i < |q| ==> q[i].channel != c
    ensures On(q, c) == []
  {
    if q != [] {
      OnNone(q[1..], c);
    }
  }

  /** Inserting keeps the priority order. */
  lemma {:induction false} InsertKeepsOrder(q: seq<Packet>, p: Packet)
    requires InOrder(q)
    ensures InOrder(Insert(q, p))
    ensures forall x :: x in Insert(q, p) ==> x == p || x in q
  {
    if q == [] || Priority(q[0].channel) > Priority(p.channel) {
    } else {
      var r := Insert(q[1..], p);
      InsertKeepsOrder(q[1..], p);
      assert forall i :: 0 <= i < |r| ==> r[i] in r;
      assert forall x :: x in q[1..] ==> MayPrecede(q[0].channel, x.channel);
    }
  }

  /** The inserted packet comes last within its channel. */
  lemma {:induction false} InsertIsLastOnChannel(q: seq<Packet>, p: Packet, c: Channel)
    requires InOrder(q)
    ensures On(Insert(q, p), c) == On(q, c) + On([p], c)
  {
    if q == [] || Priority(q[0].channel) > Priority(p.channel) {
      FirstIsLastOnChannel(q, p, c);
    } else {
      var x, t := q[0], q[1..];
      InsertIsLastOnChannel(t, p, c);
      LastUnderCons(x, Insert(t, p), t, p, c);
      assert [x] + t == q;
    }
  }

  /** In front of packets of lower priority only, it is alone on its channel. */
  lemma FirstIsLastOnChannel(q: seq<Packet>, p: Packet, c: Channel)
    requires InOrder(q) && (q == [] || Priority(q[0].channel) > Priority(p.channel))
    ensures On([p] + q, c) == On(q, c) + On([p], c)
  {
    OnConcat([p], q, c);
    if c == p.channel {
      OnNone(q, c);
    } else {
      OnNone([p], c);
    }
  }

  lemma {:induction false} FlushSplits(q: seq<Packet>, answers: nat -> Answer, i: nat)
    ensures var o := Flush(q, answers, i);
            && o.sent + o.pending == q
            && (i <= MAX_SENDS_PER_FLUSH ==> |o.sent| <= MAX_SENDS_PER_FLUSH - i)
    decreases MAX_SENDS_PER_FLUSH - i
  {
    if !(q == [] || i >= MAX_SENDS_PER_FLUSH || answers(i).buffered > RESUME_BYTES) && answers(i).result == Sent {
      FlushSplits(q[1..], answers, i + 1);
      var rest := Flush(q[1..], answers, i + 1);
      assert [q[0]] + rest.sent + rest.pending == q;
    }
  }

  /** While a control packet waits, only control packets are sent; while a
      gameplay packet waits, no diagnostics are: `w` goes out after the k-th
      packet sent, or still waits. */
  lemma FlushSendsByPriority(q: seq<Packet>, answers: nat -> Answer, k: nat, w: Packet)
    requires InOrder(q)
    requires k < |Flush(q, answers, 0).sent|
    requires w in Flush(q, answers, 0).sent[k + 1..] || w in Flush(q, answers, 0).pending
    ensures w.channel == Control ==> Flush(q, answers, 0).sent[k].channel == Control
    ensures w.channel == Gameplay ==> Flush(q, answers, 0).sent[k].channel != Diagnostics
  {
    FlushSplits(q, answers, 0);
    SplitByPriority(Flush(q, answers, 0).sent, Flush(q, answers, 0).pending, k, w);
  }

  lemma SplitByPriority(sent: seq<Packet>, pending: seq<Packet>, k: nat, w: Packet)
    requires InOrder(sent + pending) && k < |sent|
    requires w in sent[k + 1..] || w in pending
    ensures MayPrecede(sent[k].channel, w.channel)
  {
    var q := sent + pending;
    assert q[k] == sent[k];
    assert w in q[k + 1..] by {
      assert q[k + 1..] == sent[k + 1..] + pending;
    }
    var j :| 0 <= j < |q[k + 1..]| && q[k + 1..][j] == w;
    assert q[k + 1 + j] == w;
  }

  /** What becomes of a packet: it goes out at once exactly when the channel is
      open, nothing waits and at most 256 KiB are buffered, and the send
      succeeds; it is refused exactly when that send fails outright; otherwise it
      joins the queue. */
  lemma SendExactly(q: seq<Packet>, p: Packet, answer: Answer)
    ensures var o := Send(q, p, answer);
            var tried := answer.open && q == [] && answer.buffered <= 262144;
            && o.sent == (if tried && answer.result == Sent then [p] else [])
            && (o.failed <==> tried && answer.result == Failed)
            && (o.accepted <==> !o.failed)
            && multiset(o.pending) == multiset(q) + (if o.sent == [p] || o.failed then multiset{} else multiset{p})
  {
    InsertAddsOne(q, p);
  }

  lemma {:induction false} InsertAddsOne(q: seq<Packet>, p: Packet)
    ensures multiset(Insert(q, p)) == multiset(q) + multiset{p}
  {
    if q != [] {
      InsertAddsOne(q[1..], p);
      assert q == [q[0]] + q[1..];
    }
  }

  /** How far a flush gets: the k-th waiting packet goes out exactly when it is
      one of the first 32 and, for it and each one before it, at most 64 KiB were
      buffered and the send succeeded. It fails exactly when the first one that
      did not go out was tried and failed outright. */
  lemma FlushExactly(q: seq<Packet>, answers: nat -> Answer, k: nat)
    ensures k < |Flush(q, answers, 0).sent| <==>
            k < |q| && k < 32 && forall j :: 0 <= j <= k ==> answers(j).buffered <= 65536 && answers(j).result == Sent
    ensures var n := |Flush(q, answers, 0).sent|;
            Flush(q, answers, 0).failed <==>
            n < |q| && n < 32 && answers(n).buffered <= 65536 && answers(n).result == Failed
  {
    FlushReaches(q, answers, 0, k);
  }

  lemma {:induction false} FlushReaches(q: seq<Packet>, answers: nat -> Answer, i: nat, k: nat)
    requires i <= 32
    ensures k < |Flush(q, answers, i).sent| <==>
            k < |q| && i + k < 32 &&
            forall j :: i <= j <= i + k ==> answers(j).buffered <= 65536 && answers(j).result == Sent
    ensures var n := |Flush(q, answers, i).sent|;
            Flush(q, answers, i).failed <==>
            n < |q| && i + n < 32 && answers(i + n).buffered <= 65536 && answers(i + n).result == Failed
    decreases 32 - i
  {
    if q != [] && i < 32 && answers(i).buffered <= 65536 && answers(i).result == Sent {
      FlushReaches(q[1..], answers, i + 1, if k > 0 then k - 1 else 0);
    }
  }

  /** What was accepted on the channel is what went out on it, followed by what
      still waits. */
  ghost predicate ConservedOn(accepted: seq<Packet>, wire: seq<Packet>, pending: seq<Packet>, c: Channel) {
    On(accepted, c) == On(wire, c) + On(pending, c)
  }

  ghost predicate Conserved(accepted: seq<Packet>, wire: seq<Packet>, pending: seq<Packet>) {
    InOrder(pending) && forall c :: ConservedOn(accepted, wire, pending, c)
  }

  lemma QueuedConserves(accepted: seq<Packet>, wire: seq<Packet>, q: seq<Packet>, p: Packet, c: Channel)
    requires InOrder(q) && ConservedOn(accepted, wire, q, c)
    ensures ConservedOn(accepted + [p], wire, Insert(q, p), c)
  {
    OnConcat(accepted, [p], c);
    InsertIsLastOnChannel(q, p, c);
  }

  lemma SentConserves(accepted: seq<Packet>, wire: seq<Packet>, p: Packet, c: Channel)
    requires ConservedOn(accepted, wire, [], c)
    ensures ConservedOn(accepted + [p], wire + [p], [], c)
  {
    OnConcat(accepted, [p], c);
    OnConcat(wire, [p], c);
  }

  /** A send accepts, transmits and queues without losing, duplicating or
      reordering anything within a channel. */
  lemma SendConserves(accepted: seq<Packet>, wire: seq<Packet>, q: seq<Packet>, p: Packet, answer: Answer)
    requires Conserved(accepted, wire, q)
    ensures var o := Send(q, p, answer);
            Conserved(accepted + (if o.accepted then [p] else []), wire + o.sent, o.pending)
  {
    var o := Send(q, p, answer);
    assert accepted + [] == accepted && wire + [] == wire;
    InsertKeepsOrder(q, p);
    var accepted' := accepted + if o.accepted then [p] else [];
    forall c ensures ConservedOn(accepted', wire + o.sent, o.pending, c) {
      assert ConservedOn(accepted, wire, q, c);
      if o.sent == [p] {
        SentConserves(accepted, wire, p, c);
      } else if o.accepted {
        QueuedConserves(accepted, wire, q, p, c);
      }
    }
  }

  lemma FlushConserves(accepted: seq<Packet>, wire: seq<Packet>, q: seq<Packet>, answers: nat -> Answer)
    requires Conserved(accepted, wire, q)
    ensures var o := Flush(q, answers, 0);
            Conserved(accepted, wire + o.sent, o.pending)
  {
    FlushSplits(q, answers, 0);
    var o := Flush(q, answers, 0);
    SplitConserves(accepted, wire, o.sent, o.pending);
  }

  lemma SplitConserves(accepted: seq<Packet>, wire: seq<Packet>, sent: seq<Packet>, pending: seq<Packet>)
    requires Conserved(accepted, wire, sent + pending)
    ensures Conserved(accepted, wire + sent, pending)
  {
    var q := sent + pending;
    forall c ensures ConservedOn(accepted, wire + sent, pending, c) {
      assert ConservedOn(accepted, wire, q, c);
      OnConcat(wire, sent, c);
      OnConcat(sent, pending, c);
    }
    forall i, j | 0 <= i < j < |pending| ensures MayPrecede(pending[i].channel, pending[j].channel) {
      assert pending[i] == q[|sent| + i] && pending[j] == q[|sent| + j];
    }
  }

  // ---- The loops ---------------------------------------------------------------

  /** Scans for the insertion point and inserts there. */
  method Enqueue(q: seq<Packet>, p: Packet) returns (r: seq<Packet>)
    ensures r == Insert(q, p)
  {
    var at := |q|;
    var i := 0;
    while i < |q|
      invariant 0 <= i <= |q| && at == |q|
      invariant forall j :: 0 <= j < i ==> Priority(q[j].channel) <= Priority(p.channel)
    {
      if Priority(q[i].channel) > Priority(p.channel) {
        at := i;
        break;
      }
      i := i + 1;
    }
    InsertSplices(q, p, at);
    r := q[..at] + [p] + q[at..];
  }

  lemma {:induction false} InsertSplices(q: seq<Packet>, p: Packet, at: nat)
    requires at <= |q|
    requires forall j :: 0 <= j < at ==> Priority(q[j].channel) <= Priority(p.channel)
    requires at < |q| ==> Priority(q[at].channel) > Priority(p.channel)
    ensures Insert(q, p) == q[..at] + [p] + q[at..]
  {
    if at > 0 {
      InsertSplices(q[1..], p, at - 1);
      assert q[..at] == [q[0]] + q[1..][..at - 1] && q[at..] == q[1..][at - 1..];
    }
  }

  method EnqueueOrSend(q: seq<Packet>, p: Packet, answer: Answer) returns (o: SendOutcome)
    ensures o == Send(q, p, answer)
  {
    var higherPriorityWaits := false;
    var i := 0;
    while i < |q| && !higherPriorityWaits
      invariant 0 <= i <= |q|
      invariant higherPriorityWaits ==> q != []
    {
      if q[i].channel == Control && p.channel != Control {
        higherPriorityWaits := true;
      } else if q[i].channel == Gameplay && p.channel == Diagnostics {
        higherPriorityWaits := true;
      }
      i := i + 1;
    }
    if !answer.open || higherPriorityWaits || q != [] || answer.buffered > HIGH_WATER_BYTES {
      var queued := Enqueue(q, p);
      return SendOutcome(true, [], queued, false);
    }
    if answer.result == Sent {
      return SendOutcome(true, [p], q, false);
    }
    if answer.result == NotOpen {
      var queued := Enqueue(q, p);
      return SendOutcome(true, [], queued, false);
    }
    o := SendOutcome(false, [], q, true);
  }

  method FlushQueue(q: seq<Packet>, answers: nat -> Answer) returns (o: FlushOutcome)
    ensures o == Flush(q, answers, 0)
  {
    var pending, sent, sends := q, [], 0;
    while pending != [] && sends < MAX_SENDS_PER_FLUSH
      invariant 0 <= sends <= MAX_SENDS_PER_FLUSH
      invariant FlushedSoFar(q, answers, sent, pending, sends)
      decreases |pending|
    {
      if answers(sends).buffered > RESUME_BYTES {
        break;
      }
      if answers(sends).result != Sent {
        return FlushOutcome(sent, pending, answers(sends).result == Failed);
      }
      FlushedSoFarStep(q, answers, sent, pending, sends);
      sent, pending := sent + [pending[0]], pending[1..];
      sends := sends + 1;
    }
    o := FlushOutcome(sent, pending, false);
  }

  ghost predicate FlushedSoFar(q: seq<Packet>, answers: nat -> Answer, sent: seq<Packet>, pending: seq<Packet>,
                               sends: nat)
  {
    var all, rest := Flush(q, answers, 0), Flush(pending, answers, sends);
    all.pending == rest.pending && all.failed == rest.failed && all.sent == sent + rest.sent
  }

  lemma FlushedSoFarStep(q: seq<Packet>, answers: nat -> Answer, sent: seq<Packet>, pending: seq<Packet>, sends: nat)
    requires FlushedSoFar(q, answers, sent, pending, sends)
    requires pending != [] && sends < MAX_SENDS_PER_FLUSH
    requires answers(sends).buffered <= RESUME_BYTES && answers(sends).result == Sent
    ensures FlushedSoFar(q, answers, sent + [pending[0]], pending[1..], sends + 1)
  {
    var rest := Flush(pending[1..], answers, sends + 1);
    assert sent + ([pending[0]] + rest.sent) == sent + [pending[0]] + rest.sent;
  }
}
