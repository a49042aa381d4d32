module AckWindow {
  // The two-chunk acknowledgement window of one execution.

  import opened Wrappers

  const MAX_UNACKED_CHUNKS: nat := 2
  const TWO_63: nat := 0x8000_0000_0000_0000

  /** `taking` counts permits taken whose chunk number is not yet published as sent. */
  datatype Window = Window(permits: nat, taking: nat, sent: int, acked: int)

  datatype AckError = NeverSent

  const Fresh: Window := Window(MAX_UNACKED_CHUNKS, 0, -1, -1)

  /** `sequence as i64`: numbers past 2^63 - 1 turn negative. */
  function AsI64(sequence: nat): int {
    if sequence < TWO_63 then sequence else sequence - 2 * TWO_63
  }

  /** The window accounts for every permit: free, being taken, or spent on an unacknowledged chunk. */
  ghost predicate Balanced(w: Window) {
    && -1 <= w.acked <= w.sent
    && w.permits + w.taking + (w.sent - w.acked) == MAX_UNACKED_CHUNKS
  }

  function Acked(w: Window, sequence: nat): Window {
    var number := AsI64(sequence);
    if number > w.sent || number <= w.acked then w
    else w.(acked := number, permits := w.permits + (number - w.acked))
  }

  function PermitTaken(w: Window): Window
    requires w.permits > 0
  {
    w.(permits := w.permits - 1, taking := w.taking + 1)
  }

  function Published(w: Window): Window
    requires w.taking > 0
  {
    w.(taking := w.taking - 1, sent := w.sent + 1)
  }

  /** No acknowledgement, whatever its number, unbalances the window or admits a third chunk. */
  lemma AckKeepsBalance(w: Window, sequence: nat)
    requires Balanced(w)
    ensures Balanced(Acked(w, sequence))
    ensures Acked(w, sequence).sent == w.sent && Acked(w, sequence).acked >= w.acked
    ensures Acked(Acked(w, sequence), sequence) == Acked(w, sequence)
  {
  }

  /** An acknowledgement of a sent chunk frees the permits of every chunk up to it, and only theirs. */
  lemma AckFreesUpTo(w: Window, sequence: nat)
    requires Balanced(w) && sequence < 0x8000_0000_0000_0000
    ensures var w' := Acked(w, sequence);
      && w'.acked == (if w.acked < sequence <= w.sent then sequence else w.acked)
      && w'.permits + w'.taking == 2 - (w.sent - w'.acked) && w'.taking == w.taking
  {
  }

  /** Acknowledgements commute: only the highest number sent so far counts. */
  lemma AcksCommute(w: Window, a: nat, b: nat)
    requires Balanced(w)
    ensures Acked(Acked(w, a), b) == Acked(Acked(w, b), a)
  {
  }

  class ExecutionState {
    var permits: nat
    var sent: int
    var acked: int
    ghost var taking: nat

    constructor ()
      ensures View() == Fresh && Balanced(View())
    {
      permits := MAX_UNACKED_CHUNKS;
      sent, acked := -1, -1;
      taking := 0;
    }

    ghost function View(): Window
      reads this
    {
      Window(permits, taking, sent, acked)
    }

    method Ack(sequence: nat) returns (r: Result<(), AckError>)
      requires Balanced(View())
      modifies this
      ensures Balanced(View()) && View() == Acked(old(View()), sequence)
      ensures permits - old(permits) == acked - old(acked) && sent == old(sent) && taking == old(taking)
      ensures sequence < 0x8000_0000_0000_0000 ==>
        && (r.Err? <==> sequence > old(sent))
        && acked == if old(acked) < sequence <= old(sent) then sequence else old(acked)
      ensures 0x8000_0000_0000_0000 <= sequence < 0x1_0000_0000_0000_0000 ==> r.Ok? && acked == old(acked)
    {
      var number := AsI64(sequence);
      if number > sent {
        return Err(NeverSent);
      }
      if number <= acked {
        return Ok(());
      }
      var release := number - acked;
      acked := number;
      permits := permits + release;
      r := Ok(());
    }

    /** One try of the semaphore; the permit taken is forgotten, so only an ack brings it back. */
    method TakePermit() returns (ok: bool)
      requires Balanced(View())
      modifies this
      ensures Balanced(View())
      ensures ok <==> old(permits) > 0
      ensures View() == if ok then PermitTaken(old(View())) else old(View())
      ensures permits + taking == old(permits + taking) && permits == old(permits) - (if ok then 1 else 0)
      ensures sent == old(sent) && acked == old(acked)
    {
      ok := permits > 0;
      if ok {
        permits := permits - 1;
        taking := taking + 1;
      }
    }

    /** Records the chunk about to be handed to the sink as sent. */
    method Publish(sequence: nat)
      requires Balanced(View()) && taking > 0 && sequence == sent + 1
      modifies this
      ensures Balanced(View()) && View() == Published(old(View()))
      ensures sent == sequence && taking == old(taking) - 1 && acked == old(acked) && permits == old(permits)
    {
      sent := sequence;
      taking := taking - 1;
    }
  }
}
