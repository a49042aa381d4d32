module StreamProtocol {
  // Sender, channel, receiver and acknowledgements in every interleaving. The sender's chunks are
  // those the chunker cut; the channel may deliver any published chunk at any time, any number of
  // times, or never; acknowledgements carry any number at all.

  import opened Wrappers
  import opened Chunker
  import opened AckWindow
  import R = ResultStore

  datatype Proto = Proto(window: Window, tab: R.Tab)

  datatype Action = Take | Publish | Deliver(i: nat) | Ack(sequence: nat)

  predicate Numbered(chunks: seq<Chunk>) {
    forall i :: 0 <= i < |chunks| ==> chunks[i].sequence == i
  }

  predicate Enabled(chunks: seq<Chunk>, p: Proto, a: Action) {
    match a
    case Take => p.window.permits > 0 && p.window.taking == 0
    case Publish => p.window.taking > 0 && p.window.sent + 1 < |chunks|
    case Deliver(i) => i <= p.window.sent && i < |chunks|
    case Ack(_) => true
  }

  function Step(chunks: seq<Chunk>, p: Proto, a: Action): Proto
    requires Enabled(chunks, p, a)
  {
    match a
    case Take => p.(window := PermitTaken(p.window))
    case Publish => p.(window := Published(p.window))
    case Deliver(i) => p.(tab := R.Appended(p.tab, chunks[i].sequence, chunks[i].rows))
    case Ack(sequence) => p.(window := Acked(p.window, sequence))
  }

  function Run(chunks: seq<Chunk>, p: Proto, actions: seq<Action>): Proto
    decreases |actions|
  {
    if |actions| == 0 then p
    else Run(chunks, if Enabled(chunks, p, actions[0]) then Step(chunks, p, actions[0]) else p, actions[1..])
  }

  function Init(pageable: bool, pageSize: Option<nat>): Proto {
    Proto(Fresh, R.FreshTab(pageable, pageSize))
  }

  /** The receiver holds exactly the chunks below its next expected number, all of them published. */
  ghost predicate Inv(chunks: seq<Chunk>, p: Proto) {
    && Balanced(p.window)
    && p.window.sent < |chunks|
    && p.tab.nextSequence <= p.window.sent + 1
    && p.tab.rows == Concat(chunks[..p.tab.nextSequence])
    && p.tab.nextRowOffset == |p.tab.rows|
  }

  lemma ConcatNext(chunks: seq<Chunk>, k: nat)
    requires k < |chunks|
    ensures Concat(chunks[..k + 1]) == Concat(chunks[..k]) + chunks[k].rows
  {
    assert chunks[..k + 1] == chunks[..k] + [chunks[k]];
    ConcatSnoc(chunks[..k], chunks[k]);
  }

  lemma StepKeepsInv(chunks: seq<Chunk>, p: Proto, a: Action)
    requires Numbered(chunks) && Inv(chunks, p) && Enabled(chunks, p, a)
    ensures Inv(chunks, Step(chunks, p, a))
  {
    match a
    case Take =>
    case Publish =>
    case Deliver(i) => if !p.tab.protocolError && i == p.tab.nextSequence { ConcatNext(chunks, i); }
    case Ack(sequence) => AckKeepsBalance(p.window, sequence);
  }

  lemma {:induction false} RunKeepsInv(chunks: seq<Chunk>, p: Proto, actions: seq<Action>)
    requires Numbered(chunks) && Inv(chunks, p)
    ensures Inv(chunks, Run(chunks, p, actions))
    decreases |actions|
  {
    if |actions| > 0 {
      var a := actions[0];
      if Enabled(chunks, p, a) {
        StepKeepsInv(chunks, p, a);
        RunKeepsInv(chunks, Step(chunks, p, a), actions[1..]);
      } else {
        RunKeepsInv(chunks, p, actions[1..]);
      }
    }
  }

  /**
   * Over any channel and any acknowledgements: at most two chunks are unacknowledged, and the
   * rows the receiver shows are a prefix of the rows the server sent.
   */
  lemma ReceiverHoldsPrefix(items: seq<Item>, failed: bool, paged: bool, maxRows: nat, o: Outcome,
                            pageSize: Option<nat>, actions: seq<Action>)
    requires Faithful(items, failed, paged, maxRows, o)
    ensures var p := Run(o.sent, Init(paged, pageSize), actions);
      && p.window.taking + (p.window.sent - p.window.acked) <= MAX_UNACKED_CHUNKS
      && p.tab.rows <= Concat(o.sent) <= RowsOf(items)
      && p.tab.nextRowOffset == |p.tab.rows|
  {
    assert Numbered(o.sent) by {
      forall i | 0 <= i < |o.sent| ensures o.sent[i].sequence == i {
        assert GoodChunk(paged, o.sent[i], i);
      }
    }
    var p0 := Init(paged, pageSize);
    assert o.sent[..0] == [];
    RunKeepsInv(o.sent, p0, actions);
    ConcatPrefix(o.sent, Run(o.sent, p0, actions).tab.nextSequence);
  }

  /** The deliveries of a schedule that were possible when their turn came, in order. */
  function Delivered(chunks: seq<Chunk>, p: Proto, actions: seq<Action>): seq<nat>
    decreases |actions|
  {
    if |actions| == 0 then []
    else if !Enabled(chunks, p, actions[0]) then Delivered(chunks, p, actions[1..])
    else
      (if actions[0].Deliver? then [actions[0].i] else [])
      + Delivered(chunks, Step(chunks, p, actions[0]), actions[1..])
  }

  /** A first-in first-out channel without losses delivers from, from + 1, ... */
  predicate InOrder(from: nat, delivered: seq<nat>) {
    forall k :: 0 <= k < |delivered| ==> delivered[k] == from + k
  }

  /** Over a lossless in-order channel the receiver never sees a wrong number. */
  lemma {:induction false} InOrderNeverFails(chunks: seq<Chunk>, p: Proto, actions: seq<Action>)
    requires Numbered(chunks) && Inv(chunks, p) && !p.tab.protocolError
    requires InOrder(p.tab.nextSequence, Delivered(chunks, p, actions))
    ensures !Run(chunks, p, actions).tab.protocolError
    ensures Run(chunks, p, actions).tab.nextSequence == p.tab.nextSequence + |Delivered(chunks, p, actions)|
    decreases |actions|
  {
    if |actions| > 0 {
      var a := actions[0];
      var rest := actions[1..];
      if Enabled(chunks, p, a) {
        var p' := Step(chunks, p, a);
        StepKeepsInv(chunks, p, a);
        if a.Deliver? {
          var all := Delivered(chunks, p, actions);
          assert all[0] == a.i == p.tab.nextSequence;
          assert all[1..] == Delivered(chunks, p', rest);
          forall k | 0 <= k < |all[1..]| ensures all[1..][k] == p'.tab.nextSequence + k {}
        } else {
          assert Delivered(chunks, p, actions) == Delivered(chunks, p', rest);
        }
        InOrderNeverFails(chunks, p', rest);
      } else {
        InOrderNeverFails(chunks, p, rest);
      }
    }
  }

  /** In-order delivery of everything published leaves the receiver with exactly those chunks' rows. */
  lemma InOrderIsComplete(chunks: seq<Chunk>, pageable: bool, pageSize: Option<nat>, actions: seq<Action>)
    requires Numbered(chunks)
    requires var p0 := Init(pageable, pageSize);
      && InOrder(0, Delivered(chunks, p0, actions))
      && |Delivered(chunks, p0, actions)| == Run(chunks, p0, actions).window.sent + 1
    ensures var p := Run(chunks, Init(pageable, pageSize), actions);
      && !p.tab.protocolError
      && 0 <= p.window.sent + 1 <= |chunks|
      && p.tab.rows == Concat(chunks[..p.window.sent + 1])
  {
    var p0 := Init(pageable, pageSize);
    assert chunks[..0] == [];
    RunKeepsInv(chunks, p0, actions);
    InOrderNeverFails(chunks, p0, actions);
  }

  /** The window never wedges: with no permit free, some published chunk still waits for its ack. */
  lemma NoPermitMeansUnacked(chunks: seq<Chunk>, pageable: bool, pageSize: Option<nat>, actions: seq<Action>)
    requires Numbered(chunks) && |chunks| <= TWO_63
    ensures var w := Run(chunks, Init(pageable, pageSize), actions).window;
      w.permits == 0 && w.taking == 0 ==>
        && w.acked < w.sent
        && 0 <= w.sent
        && Acked(w, w.sent).permits == MAX_UNACKED_CHUNKS
  {
    assert chunks[..0] == [];
    RunKeepsInv(chunks, Init(pageable, pageSize), actions);
  }
}
