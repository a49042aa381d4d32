module Ownership {
  // Who may use a query tab's session: the busy flag, its claims, and the actor's mailbox.

  const MAILBOX_SLOTS: nat := 4

  /**
   * Where a caller stands. A finder has cloned the handle and not yet tried the flag; a caller
   * that was handed off still has a claim object, about to forget it.
   */
  datatype Caller = Finder | ExecuteCaller | PageCaller | HandedOff

  datatype Message = Execute | FetchPage | Close

  datatype Actor = Waiting | Working | Replying | Stopped

  /** `closing`: the handle is out of the workspace. `closeSent`: its Close is in the mailbox or was taken. */
  datatype Session = Session(
    busy: bool, callers: map<nat, Caller>, mailbox: seq<Message>, actor: Actor, closing: bool, closeSent: bool)

  const Opened: Session := Session(false, map[], [], Waiting, false, false)

  datatype Action =
    | ClaimExecute(id: nat) // finds the handle and swaps the flag under one lock
    | Find(id: nat)         // a page request clones the handle under the lock
    | ClaimPage(id: nat)    // and swaps the flag outside it
    | GiveUp(id: nat)       // stale result, queue served, an error, or the request dropped mid-await
    | Send(id: nat)
    | Forget(id: nat)
    | Receive
    | Finish
    | Replied
    | BeginClose(rollback: bool) // takes the handle out of the workspace, under the lock
    | SendClose

  predicate Room(s: Session) {
    !s.actor.Stopped? && |s.mailbox| < MAILBOX_SLOTS
  }

  predicate Claims(c: Caller) {
    c.ExecuteCaller? || c.PageCaller?
  }

  predicate Enabled(s: Session, a: Action) {
    match a
    case ClaimExecute(id) => !s.closing && id !in s.callers
    case Find(id) => !s.closing && id !in s.callers
    case ClaimPage(id) => id in s.callers && s.callers[id].Finder?
    case GiveUp(id) => id in s.callers && s.callers[id].PageCaller?
    case Send(id) => id in s.callers && Claims(s.callers[id])
    case Forget(id) => id in s.callers && s.callers[id].HandedOff?
    case Receive => s.actor.Waiting? && s.mailbox != []
    case Finish => s.actor.Working?
    case Replied => s.actor.Replying?
    case BeginClose(rollback) => !s.closing && (rollback || !s.busy)
    case SendClose => s.closing && !s.closeSent && Room(s)
  }

  function Step(s: Session, a: Action): Session
    requires Enabled(s, a)
  {
    match a
    case ClaimExecute(id) => if s.busy then s else s.(busy := true, callers := s.callers[id := ExecuteCaller])
    case Find(id) => s.(callers := s.callers[id := Finder])
    case ClaimPage(id) =>
      if s.busy then s.(callers := s.callers - {id}) else s.(busy := true, callers := s.callers[id := PageCaller])
    case GiveUp(id) => s.(busy := false, callers := s.callers - {id})
    case Send(id) =>
      if !Room(s) then s.(busy := false, callers := s.callers - {id})
      else if s.callers[id].PageCaller? then
        s.(mailbox := s.mailbox + [FetchPage], callers := s.callers[id := HandedOff])
      else s.(mailbox := s.mailbox + [Execute], callers := s.callers - {id})
    case Forget(id) => s.(callers := s.callers - {id})
    case Receive =>
      if s.mailbox[0].Close? then s.(actor := Stopped, mailbox := [])
      else s.(actor := Working, mailbox := s.mailbox[1..])
    case Finish => s.(busy := false, actor := Replying)
    case Replied => s.(actor := Waiting)
    case BeginClose(_) => s.(closing := true)
    case SendClose => s.(closeSent := true, mailbox := s.mailbox + [Close])
  }

  function Run(s: Session, actions: seq<Action>): Session
    decreases |actions|
  {
    if |actions| == 0 then s
    else Run(if Enabled(s, actions[0]) then Step(s, actions[0]) else s, actions[1..])
  }

  function Holding(callers: map<nat, Caller>): set<nat> {
    set id | id in callers && Claims(callers[id])
  }

  /** Messages that carry the claim with them. */
  function Carrying(mailbox: seq<Message>): nat {
    if |mailbox| == 0 then 0
    else Carrying(mailbox[..|mailbox| - 1]) + (if mailbox[|mailbox| - 1].Close? then 0 else 1)
  }

  /** Everyone who has the session right now: callers, queued requests, the actor. */
  function Holders(s: Session): nat {
    |Holding(s.callers)| + Carrying(s.mailbox) + (if s.actor.Working? then 1 else 0)
  }

  ghost predicate Inv(s: Session) {
    && (!s.actor.Stopped? ==> Holders(s) == if s.busy then 1 else 0)
    && (s.actor.Stopped? ==> s.mailbox == [] && (Holders(s) == 1 ==> s.busy) && Holders(s) <= 1)
    && |s.mailbox| == Carrying(s.mailbox) + (if s.closeSent && !s.actor.Stopped? then 1 else 0)
    && (s.closeSent ==> s.closing) && (s.actor.Stopped? ==> s.closeSent)
  }

  lemma CarryingSnoc(mailbox: seq<Message>, m: Message)
    ensures Carrying(mailbox + [m]) == Carrying(mailbox) + (if m.Close? then 0 else 1)
  {
    assert (mailbox + [m])[..|mailbox|] == mailbox;
  }

  lemma {:induction false} CarryingTail(mailbox: seq<Message>)
    requires |mailbox| > 0
    ensures Carrying(mailbox) == Carrying(mailbox[1..]) + (if mailbox[0].Close? then 0 else 1)
  {
    if |mailbox| > 1 {
      var init := mailbox[..|mailbox| - 1];
      CarryingTail(init);
      assert init[1..] == mailbox[1..][..|mailbox| - 2];
    } else {
      assert mailbox[..0] == [] && mailbox[1..] == [];
    }
  }

  lemma HoldingAdd(callers: map<nat, Caller>, id: nat, c: Caller)
    ensures !Claims(c) ==> Holding(callers[id := c]) == Holding(callers) - {id}
    ensures Claims(c) ==> Holding(callers[id := c]) == Holding(callers) + {id}
    ensures Holding(callers - {id}) == Holding(callers) - {id}
    ensures (id in callers ==> !Claims(callers[id])) ==> id !in Holding(callers) && Holding(callers) - {id} == Holding(callers)
  {
  }

  /** A holder that lets go, or hands over to the mailbox, leaves one holder fewer among the callers. */
  lemma HolderLeaves(callers: map<nat, Caller>, id: nat)
    requires id in callers && Claims(callers[id])
    ensures |Holding(callers - {id})| == |Holding(callers)| - 1
    ensures |Holding(callers[id := HandedOff])| == |Holding(callers)| - 1
  {
    HoldingAdd(callers, id, HandedOff);
    assert id in Holding(callers);
  }

  lemma SendKeepsInv(s: Session, id: nat)
    requires Inv(s) && Enabled(s, Send(id))
    ensures Inv(Step(s, Send(id)))
  {
    hide Holding, Carrying;
    HolderLeaves(s.callers, id);
    if Room(s) {
      CarryingSnoc(s.mailbox, if s.callers[id].PageCaller? then FetchPage else Execute);
    }
  }

  lemma ReceiveKeepsInv(s: Session)
    requires Inv(s) && Enabled(s, Receive)
    ensures Inv(Step(s, Receive))
  {
    hide Holding;
    CarryingTail(s.mailbox);
    if s.mailbox[0].Close? {
      assert Step(s, Receive).mailbox == [];
    }
  }

  lemma ClaimKeepsInv(s: Session, id: nat, c: Caller)
    requires Inv(s) && !s.busy && (id in s.callers ==> !Claims(s.callers[id])) && Claims(c)
    ensures Inv(s.(busy := true, callers := s.callers[id := c]))
  {
    HoldingAdd(s.callers, id, c);
  }

  lemma BystanderKeepsInv(s: Session, callers: map<nat, Caller>)
    requires Inv(s) && Holding(callers) == Holding(s.callers)
    ensures Inv(s.(callers := callers))
  {
  }

  lemma CallerKeepsInv(s: Session, a: Action)
    requires Inv(s) && Enabled(s, a) && (a.ClaimExecute? || a.Find? || a.ClaimPage? || a.GiveUp? || a.Forget?)
    ensures Inv(Step(s, a))
  {
    hide Holding, Carrying, Holders, Room;
    if a.Find? || a.Forget? || (s.busy && !a.GiveUp?) {
      HoldingAdd(s.callers, a.id, Finder);
      BystanderKeepsInv(s, s.callers - {a.id});
      BystanderKeepsInv(s, s.callers[a.id := Finder]);
    }
    match a
    case ClaimExecute(id) => if !s.busy { ClaimKeepsInv(s, id, ExecuteCaller); }
    case ClaimPage(id) => if !s.busy { ClaimKeepsInv(s, id, PageCaller); }
    case GiveUp(id) => GiveUpKeepsInv(s, id);
    case _ =>
  }

  lemma GiveUpKeepsInv(s: Session, id: nat)
    requires Inv(s) && id in s.callers && Claims(s.callers[id])
    ensures Inv(s.(busy := false, callers := s.callers - {id}))
  {
    HolderLeaves(s.callers, id);
  }

  lemma ActorKeepsInv(s: Session, a: Action)
    requires Inv(s) && Enabled(s, a) && (a.Finish? || a.Replied? || a.BeginClose? || a.SendClose?)
    ensures Inv(Step(s, a))
  {
    hide Holding, Carrying;
    CarryingSnoc(s.mailbox, Close);
  }

  lemma StepKeepsInv(s: Session, a: Action)
    requires Inv(s) && Enabled(s, a)
    ensures Inv(Step(s, a))
  {
    hide Inv, Enabled, Step;
    match a
    case Send(id) => SendKeepsInv(s, id);
    case Receive => ReceiveKeepsInv(s);
    case Finish => ActorKeepsInv(s, a);
    case Replied => ActorKeepsInv(s, a);
    case BeginClose(_) => ActorKeepsInv(s, a);
    case SendClose => ActorKeepsInv(s, a);
    case _ => CallerKeepsInv(s, a);
  }

  lemma {:induction false} RunKeepsInv(s: Session, actions: seq<Action>)
    requires Inv(s)
    ensures Inv(Run(s, actions))
    decreases |actions|
  {
    if |actions| > 0 {
      if Enabled(s, actions[0]) {
        StepKeepsInv(s, actions[0]);
        RunKeepsInv(Step(s, actions[0]), actions[1..]);
      } else {
        RunKeepsInv(s, actions[1..]);
      }
    }
  }

  lemma OpenedInv()
    ensures Inv(Opened)
  {
    assert Holding(map[]) == {};
  }

  /** On a live session the flag is up exactly while one party has the session. */
  lemma BusyIffOneHolder(actions: seq<Action>)
    ensures var s := Run(Opened, actions);
      !s.actor.Stopped? ==> (s.busy <==> Holders(s) == 1) && Holders(s) <= 1
  {
    OpenedInv();
    RunKeepsInv(Opened, actions);
  }

  /** On a live session a send always finds room: at most one request and one close are queued. */
  lemma MailboxNeverFull(actions: seq<Action>)
    ensures var s := Run(Opened, actions);
      !s.actor.Stopped? ==> Carrying(s.mailbox) <= 1 && |s.mailbox| <= 2 && Room(s)
  {
    OpenedInv();
    RunKeepsInv(Opened, actions);
  }

  /** Whether a step lowers the flag. */
  predicate Releases(s: Session, a: Action)
    requires Enabled(s, a)
  {
    a.GiveUp? || a.Finish? || (a.Send? && !Room(s))
  }

  /**
   * A step that lowers the flag finds it up and its owner the only holder, so no claim is
   * released twice or from under someone else; nobody is left holding afterwards.
   */
  lemma ReleaseOnlyByHolder(actions: seq<Action>, a: Action)
    requires Enabled(Run(Opened, actions), a) && Releases(Run(Opened, actions), a)
    ensures var s := Run(Opened, actions);
      s.busy && Holders(s) == 1 && !Step(s, a).busy && Holders(Step(s, a)) == 0
  {
    var s := Run(Opened, actions);
    OpenedInv();
    RunKeepsInv(Opened, actions);
    match a
    case GiveUp(id) => HolderLeaves(s.callers, id);
    case Send(id) => HolderLeaves(s.callers, id);
    case Finish =>
  }

  // ---- a session that closes ----

  /** Taking Close loses a claim exactly when a request is still queued. */
  lemma CloseLosesClaimIff(actions: seq<Action>)
    requires var s := Run(Opened, actions); Enabled(s, Receive) && s.mailbox[0].Close?
    ensures var s := Run(Opened, actions);
      var s' := Step(s, Receive);
      (s'.busy && Holders(s') == 0) <==> Carrying(s.mailbox) == 1
  {
    OpenedInv();
    RunKeepsInv(Opened, actions);
  }

  /** A request queued behind Close, or thrown away with it, with the flag still up. */
  ghost predicate Stranded(s: Session) {
    && s.busy && s.closing && s.closeSent && Holding(s.callers) == {}
    && ((!s.actor.Stopped? && !s.actor.Working? && |s.mailbox| == 2 && s.mailbox[0] == Close && s.mailbox[1] != Close)
        || (s.actor.Stopped? && s.mailbox == []))
  }

  lemma StrandedStays(s: Session, a: Action)
    requires Stranded(s) && Enabled(s, a)
    ensures Stranded(Step(s, a))
  {
    assert forall id :: id in s.callers && Claims(s.callers[id]) ==> id in Holding(s.callers);
    match a
    case ClaimPage(id) => HoldingAdd(s.callers, id, Finder);
    case Forget(id) => HoldingAdd(s.callers, id, HandedOff);
    case _ =>
  }

  lemma {:induction false} StrandedForGood(s: Session, more: seq<Action>)
    requires Stranded(s)
    ensures Run(s, more).busy && !Run(s, more).actor.Working?
    decreases |more|
  {
    if |more| > 0 {
      if Enabled(s, more[0]) { StrandedStays(s, more[0]); }
      StrandedForGood(if Enabled(s, more[0]) then Step(s, more[0]) else s, more[1..]);
    }
  }

  lemma OneIsClose(m: Message)
    ensures Carrying([m]) == if m.Close? then 0 else 1
  {
    assert [m][..0] == [];
  }

  /** The state a successful send leaves: the sender was the only holder, so its request is the last message. */
  lemma SentState(s: Session, id: nat)
    requires Inv(s) && Enabled(s, Send(id)) && Room(s)
    ensures var s' := Step(s, Send(id));
      && s'.busy && !s'.actor.Working? && Holding(s'.callers) == {}
      && s.mailbox == if s.closeSent then [Close] else []
  {
    HolderLeaves(s.callers, id);
    var s' := Step(s, Send(id));
    assert id in Holding(s.callers);
    assert |Holding(s'.callers)| == 0;
    if s.closeSent {
      OneIsClose(s.mailbox[0]);
      assert s.mailbox == [s.mailbox[0]];
    }
  }

  /** With no Close ahead of it, the request is worked on and the flag comes down. */
  lemma SentIsServed(s: Session)
    requires !s.actor.Working? && !s.actor.Stopped? && s.busy
    requires |s.mailbox| == 1 && s.mailbox[0] != Close
    ensures !Run(s, [Replied, Receive, Finish]).busy
  {
    var idle := s.(actor := Waiting);
    var working := Step(idle, Receive);
    assert [Replied, Receive, Finish][1..] == [Receive, Finish];
    assert [Receive, Finish][1..] == [Finish] && [Finish][1..] == [];
    assert Run(working, [Finish]) == Step(working, Finish);
    assert Run(idle, [Receive, Finish]) == Run(working, [Finish]);
    assert Run(s, [Replied, Receive, Finish]) == Run(idle, [Receive, Finish]);
  }

  /**
   * A request that finds room is lost, its flag up for good whatever happens next, exactly when
   * the session's Close was sent before it.
   */
  lemma StrandedIffCloseSent(actions: seq<Action>, id: nat)
    requires var s := Run(Opened, actions); Enabled(s, Send(id)) && Room(s)
    ensures var s := Run(Opened, actions);
      (forall more: seq<Action> :: Run(Step(s, Send(id)), more).busy) <==> s.closeSent
  {
    var s := Run(Opened, actions);
    OpenedInv();
    RunKeepsInv(Opened, actions);
    SentState(s, id);
    var s' := Step(s, Send(id));
    if s.closeSent {
      forall more: seq<Action> ensures Run(s', more).busy {
        StrandedForGood(s', more);
      }
    } else {
      SentIsServed(s');
    }
  }

  lemma RunStep(s: Session, a: Action, rest: seq<Action>)
    requires Enabled(s, a)
    ensures Run(s, [a] + rest) == Run(Step(s, a), rest)
  {
    assert ([a] + rest)[1..] == rest;
  }

  lemma NobodyHolds(s: Session)
    requires s.callers == map[] && s.mailbox == [] && !s.actor.Working?
    ensures Holders(s) == 0
  {
    assert Holding(s.callers) == {};
  }

  /** Such a close is possible: an execution claims the session, and a close with rollback overtakes its send. */
  lemma CloseCanStrandClaim()
    ensures var s := Run(Opened, [ClaimExecute(0), BeginClose(true), SendClose, Send(0), Receive]);
      s.actor.Stopped? && s.busy && Holders(s) == 0
  {
    var s1 := Step(Opened, ClaimExecute(0));
    var s2 := Step(s1, BeginClose(true));
    var s3 := Step(s2, SendClose);
    var s4 := Step(s3, Send(0));
    var s5 := Step(s4, Receive);
    assert s5.actor.Stopped? && s5.busy && s5.mailbox == [] && s5.callers == map[];
    NobodyHolds(s5);
    hide Step, Enabled, Holders;
    RunStep(Opened, ClaimExecute(0), [BeginClose(true), SendClose, Send(0), Receive]);
    RunStep(s1, BeginClose(true), [SendClose, Send(0), Receive]);
    RunStep(s2, SendClose, [Send(0), Receive]);
    RunStep(s3, Send(0), [Receive]);
    RunStep(s4, Receive, []);
  }

  /**
   * A free session takes either request to its actor, holding the session meanwhile, and is as it
   * was once the actor has finished and replied; a busy one turns both away and cannot be closed
   * without a rollback.
   */
  lemma FreeSessionServes(actions: seq<Action>, id: nat)
    requires var s := Run(Opened, actions); !s.closing && s.actor.Waiting? && id !in s.callers
    ensures var s := Run(Opened, actions);
      var working := s.(busy := true, actor := Working);
      && (!s.busy ==>
            && s.mailbox == []
            && Run(s, [ClaimExecute(id), Send(id), Receive]) == working
            && Run(s, [Find(id), ClaimPage(id), Send(id), Forget(id), Receive]) == working
            && Run(working, [Finish, Replied]) == s)
      && (s.busy ==>
            Run(s, [ClaimExecute(id)]) == s && Run(s, [Find(id), ClaimPage(id)]) == s && !Enabled(s, BeginClose(false)))
  {
    var s := Run(Opened, actions);
    OpenedInv();
    RunKeepsInv(Opened, actions);
    if s.busy {
      BusyRefuses(s, id);
    } else {
      assert s.mailbox == [];
      ExecuteServed(s, id);
      PageServed(s, id);
      Finishes(s.(busy := true, actor := Working));
    }
  }

  lemma BusyRefuses(s: Session, id: nat)
    requires s.busy && !s.closing && id !in s.callers
    ensures Run(s, [ClaimExecute(id)]) == s && Run(s, [Find(id), ClaimPage(id)]) == s
  {
    RunStep(s, ClaimExecute(id), []);
    RunStep(s, Find(id), [ClaimPage(id)]);
    var found := Step(s, Find(id));
    RunStep(found, ClaimPage(id), []);
    assert s.callers[id := Finder] - {id} == s.callers;
  }

  lemma ExecuteServed(s: Session, id: nat)
    requires !s.busy && !s.closing && s.actor.Waiting? && s.mailbox == [] && id !in s.callers
    ensures Run(s, [ClaimExecute(id), Send(id), Receive]) == s.(busy := true, actor := Working)
  {
    var claimed := Step(s, ClaimExecute(id));
    assert claimed.callers - {id} == s.callers;
    var sent := Step(claimed, Send(id));
    assert sent == s.(busy := true, mailbox := [Execute]);
    RunStep(s, ClaimExecute(id), [Send(id), Receive]);
    RunStep(claimed, Send(id), [Receive]);
    RunStep(sent, Receive, []);
  }

  lemma PageServed(s: Session, id: nat)
    requires !s.busy && !s.closing && s.actor.Waiting? && s.mailbox == [] && id !in s.callers
    ensures Run(s, [Find(id), ClaimPage(id), Send(id), Forget(id), Receive]) == s.(busy := true, actor := Working)
  {
    var found := Step(s, Find(id));
    var claimed := Step(found, ClaimPage(id));
    var sent := Step(claimed, Send(id));
    var forgotten := Step(sent, Forget(id));
    assert sent.callers - {id} == s.callers;
    assert forgotten == s.(busy := true, mailbox := [FetchPage]);
    hide Step, Enabled;
    RunStep(s, Find(id), [ClaimPage(id), Send(id), Forget(id), Receive]);
    RunStep(found, ClaimPage(id), [Send(id), Forget(id), Receive]);
    RunStep(claimed, Send(id), [Forget(id), Receive]);
    RunStep(sent, Forget(id), [Receive]);
    ReceivesOne(forgotten);
  }

  lemma ReceivesOne(s: Session)
    requires s.actor.Waiting? && s.mailbox == [FetchPage]
    ensures Run(s, [Receive]) == s.(mailbox := [], actor := Working)
  {
    RunStep(s, Receive, []);
  }

  lemma Finishes(s: Session)
    requires s.actor.Working?
    ensures Run(s, [Finish, Replied]) == s.(busy := false, actor := Waiting)
  {
    RunStep(s, Finish, [Replied]);
    RunStep(Step(s, Finish), Replied, []);
  }

  // ---- the two requests, over the shared flag ----

  /** The flag the handle and the actor share. */
  class BusyFlag {
    var raised: bool

    constructor ()
      ensures !raised
    {
      raised := false;
    }

    /** Sets the flag and returns what it was. */
    method Swap() returns (was: bool)
      modifies this
      ensures raised && was == old(raised)
    {
      was := raised;
      raised := true;
    }
  }

  /** A page request's hold on the session, given up on every exit unless handed over. */
  class SessionClaim {
    var flag: BusyFlag?

    constructor (flag: BusyFlag)
      ensures this.flag == flag
    {
      this.flag := flag;
    }

    method HandedToSession()
      modifies this
      ensures flag == null
    {
      flag := null;
    }

    method Drop()
      modifies this, flag
      ensures flag == null
      ensures old(flag) != null ==> !old(flag).raised
    {
      if flag != null {
        flag.raised := false;
        flag := null;
      }
    }
  }

  /** How far a page request gets once it holds the session. */
  datatype PageFate = StaleResult | ServedFromQueue | NoSql | Dropped | Asks

  datatype PageExit = AlreadyRunning | Released | Unavailable | HandedOver

  /** What the requests and the actor share, and, for the proof, who else is about. */
  class SessionHandle {
    const flag: BusyFlag
    var mailbox: seq<Message>
    ghost var callers: map<nat, Caller>
    ghost var actor: Actor
    ghost var closing: bool
    ghost var closeSent: bool

    constructor (flag: BusyFlag)
      requires !flag.raised
      ensures View() == Opened && this.flag == flag
    {
      this.flag := flag;
      mailbox, callers, actor, closing, closeSent := [], map[], Waiting, false, false;
    }

    ghost function View(): Session
      reads this, flag
    {
      Session(flag.raised, callers, mailbox, actor, closing, closeSent)
    }

    /** try_send: refused when the actor is gone or every slot is taken. */
    method TrySend(m: Message, alive: bool) returns (ok: bool)
      requires alive == !actor.Stopped?
      modifies this`mailbox
      ensures ok <==> alive && |old(mailbox)| < 4
      ensures ok == Room(old(View()))
      ensures mailbox == if ok then old(mailbox) + [m] else old(mailbox)
    {
      ok := alive && |mailbox| < MAILBOX_SLOTS;
      if ok { mailbox := mailbox + [m]; }
    }

    /** execute_with_paging: the flag is swapped, then the request is sent or the flag lowered again. */
    method RequestExecute(ghost id: nat, alive: bool) returns (ok: bool)
      requires Enabled(View(), ClaimExecute(id)) && alive == !actor.Stopped?
      modifies this, flag
      ensures View() == Run(old(View()), [ClaimExecute(id), Send(id)])
      ensures ok <==> !old(flag.raised) && alive && |old(mailbox)| < 4
      ensures flag.raised == (ok || old(flag.raised))
      ensures mailbox == if ok then old(mailbox) + [Execute] else old(mailbox)
    {
      ghost var s := View();
      RunStep(s, ClaimExecute(id), [Send(id)]);
      assert [Send(id)][1..] == [];
      var was := flag.Swap();
      if was {
        return false;
      }
      callers := callers[id := ExecuteCaller];
      assert View() == Step(s, ClaimExecute(id));
      ghost var claimed := View();
      RunStep(claimed, Send(id), []);
      ok := TrySend(Execute, alive);
      if !ok {
        flag.raised := false;
      }
      callers := callers - {id};
    }

    /**
     * table_data_fetch_page: whichever way it ends, the flag is down again unless the claim was
     * handed to the session with the request; each way is one of the runs of a page caller.
     */
    method FetchPageRequest(ghost id: nat, fate: PageFate, alive: bool) returns (exit: PageExit)
      requires Enabled(View(), ClaimPage(id)) && alive == !actor.Stopped?
      modifies this, flag
      ensures exit == AlreadyRunning <==> old(flag.raised)
      ensures exit == Released <==> !old(flag.raised) && !fate.Asks?
      ensures exit == HandedOver <==> !old(flag.raised) && fate.Asks? && alive && |old(mailbox)| < 4
      ensures mailbox == if exit == HandedOver then old(mailbox) + [FetchPage] else old(mailbox)
      ensures flag.raised <==> exit == AlreadyRunning || exit == HandedOver
      ensures View() == Run(old(View()),
        match exit
        case AlreadyRunning => [ClaimPage(id)]
        case Released => [ClaimPage(id), GiveUp(id)]
        case Unavailable => [ClaimPage(id), Send(id)]
        case HandedOver => [ClaimPage(id), Send(id), Forget(id)])
    {
      ghost var s := View();
      RunStep(s, ClaimPage(id), []);
      RunStep(s, ClaimPage(id), [GiveUp(id)]);
      RunStep(s, ClaimPage(id), [Send(id)]);
      RunStep(s, ClaimPage(id), [Send(id), Forget(id)]);
      var was := flag.Swap();
      if was {
        callers := callers - {id};
        return AlreadyRunning;
      }
      var claim := new SessionClaim(flag);
      callers := callers[id := PageCaller];
      ghost var claimed := View();
      assert claimed == Step(s, ClaimPage(id));
      RunStep(claimed, GiveUp(id), []);
      RunStep(claimed, Send(id), []);
      if !fate.Asks? {
        claim.Drop();
        callers := callers - {id};
        return Released;
      }
      var sent := TrySend(FetchPage, alive);
      if !sent {
        claim.Drop();
        callers := callers - {id};
        return Unavailable;
      }
      callers := callers[id := HandedOff];
      assert View() == Step(claimed, Send(id));
      RunStep(claimed, Send(id), [Forget(id)]);
      RunStep(View(), Forget(id), []);
      claim.HandedToSession();
      claim.Drop();
      callers := callers - {id};
      exit := HandedOver;
    }
  }
}
