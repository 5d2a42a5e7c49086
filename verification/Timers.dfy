/**
 The four polling intervals of the wallet window. Callbacks are asynchronous: an interval fires, its callback waits
 for a reply, and by the time it goes on the interval may have been cleared or replaced. Steps interleave at will.
 */
module Timers {
  import opened Options

  datatype Kind = Refresh | Block | Release | BridgeIn

  /** The variables that hold interval handles; null is None. */
  datatype Slots = Slots(refresh: Option<nat>, block: Option<nat>, release: Option<nat>, bridgeIn: Option<nat>) {
    function Get(kind: Kind): Option<nat> {
      match kind
      case Refresh => refresh
      case Block => block
      case Release => release
      case BridgeIn => bridgeIn
    }

    function Set(kind: Kind, handle: Option<nat>): Slots {
      match kind
      case Refresh => this.(refresh := handle)
      case Block => this.(block := handle)
      case Release => this.(release := handle)
      case BridgeIn => this.(bridgeIn := handle)
    }
  }

  /** A callback that has started and waits for its reply; `handle` is the interval that fired it. */
  datatype Callback = Callback(kind: Kind, handle: nat)

  /** The variables, the live intervals with what each polls, the callbacks under way, and the next handle. */
  datatype Window = Window(slots: Slots, live: map<nat, Kind>, underWay: multiset<Callback>, next: nat)

  // ----- the steps -----

  function Clear(w: Window, handle: Option<nat>): Window {
    if handle.Some? then w.(live := w.live - {handle.value}) else w
  }

  /** Clear the interval in the variable, if any, and store a new one. */
  function Start(w: Window, kind: Kind): Window {
    var cleared := Clear(w, w.slots.Get(kind));
    cleared.(slots := w.slots.Set(kind, Some(w.next)), live := cleared.live[w.next := kind], next := w.next + 1)
  }

  /** Clear the interval in the variable, if any, and set the variable to null. */
  function Stop(w: Window, kind: Kind): Window {
    Clear(w, w.slots.Get(kind)).(slots := w.slots.Set(kind, None))
  }

  function OpenMain(w: Window): Window {
    Start(Start(w, Refresh), Block)
  }

  function Switch(w: Window): Window {
    Stop(Stop(w, Refresh), Block)
  }

  /** An interval fires only while it is live. */
  function Fire(w: Window, handle: nat): Window {
    if handle in w.live then w.(underWay := w.underWay + multiset{Callback(w.live[handle], handle)}) else w
  }

  /** A callback goes on with its reply. A bridge poller that sees its work done stops whatever its variable holds. */
  function Complete(w: Window, cb: Callback, done: bool): Window {
    if cb !in w.underWay then w
    else
      var left := w.(underWay := w.underWay - multiset{cb});
      if done && (cb.kind == Release || cb.kind == BridgeIn) then Stop(left, cb.kind) else left
  }

  datatype Op =
    | OpenMainScreen
    | SwitchWallet
    | PollRelease(txHash: string)
    | PollBridgeIn(paymentId: string)
    | Tick(handle: nat)
    | Reply(callback: Callback, done: bool)

  function Next(w: Window, op: Op): Window {
    match op
    case OpenMainScreen => OpenMain(w)
    case SwitchWallet => Switch(w)
    case PollRelease(txHash) => if txHash == "" || txHash == "sent" then w else Start(w, Release)
    case PollBridgeIn(_) => Start(w, BridgeIn)
    case Tick(handle) => Fire(w, handle)
    case Reply(callback, done) => Complete(w, callback, done)
  }

  function Run(w: Window, ops: seq<Op>): Window
    decreases ops
  {
    if ops == [] then w else Run(Next(w, ops[0]), ops[1..])
  }

  // ----- the variables and the functions that change them -----

  class AppTimers {
    var refreshTimer: Option<nat>
    var blockPoller: Option<nat>
    var bridgeReleasePollTimer: Option<nat>
    var cryloBridgePollTimer: Option<nat>
    var live: map<nat, Kind>
    var underWay: multiset<Callback>
    var next: nat

    ghost function View(): Window
      reads this
    {
      Window(Slots(refreshTimer, blockPoller, bridgeReleasePollTimer, cryloBridgePollTimer), live, underWay, next)
    }

    constructor ()
      ensures View() == INITIAL
    {
      refreshTimer, blockPoller, bridgeReleasePollTimer, cryloBridgePollTimer := None, None, None, None;
      live, underWay, next := map[], multiset{}, 1;
    }

    method SetInterval(kind: Kind) returns (handle: nat)
      modifies `live, `next
      ensures handle == old(next) && next == old(next) + 1 && live == old(live)[handle := kind]
    {
      handle := next;
      live := live[handle := kind];
      next := next + 1;
    }

    method ClearInterval(handle: nat)
      modifies `live
      ensures live == old(live) - {handle}
    {
      live := live - {handle};
    }

    method OpenMainScreen()
      modifies this
      ensures View() == Next(old(View()), Op.OpenMainScreen)
    {
      if refreshTimer.Some? { ClearInterval(refreshTimer.value); }
      var handle := SetInterval(Refresh);
      refreshTimer := Some(handle);
      if blockPoller.Some? { ClearInterval(blockPoller.value); }
      handle := SetInterval(Block);
      blockPoller := Some(handle);
    }

    method SwitchWallet()
      modifies this
      ensures View() == Next(old(View()), Op.SwitchWallet)
    {
      if refreshTimer.Some? {
        ClearInterval(refreshTimer.value);
        refreshTimer := None;
      }
      if blockPoller.Some? {
        ClearInterval(blockPoller.value);
        blockPoller := None;
      }
    }

    method PollBridgeReleaseStatus(txHash: string)
      modifies this
      ensures View() == Next(old(View()), PollRelease(txHash))
    {
      if txHash == "" || txHash == "sent" { return; }
      if bridgeReleasePollTimer.Some? { ClearInterval(bridgeReleasePollTimer.value); }
      var handle := SetInterval(Release);
      bridgeReleasePollTimer := Some(handle);
    }

    method PollCryLoBridgeStatus(paymentId: string)
      modifies this
      ensures View() == Next(old(View()), PollBridgeIn(paymentId))
    {
      if cryloBridgePollTimer.Some? { ClearInterval(cryloBridgePollTimer.value); }
      var handle := SetInterval(BridgeIn);
      cryloBridgePollTimer := Some(handle);
    }

    method OnReply(callback: Callback, done: bool)
      requires callback in underWay
      modifies this
      ensures View() == Next(old(View()), Reply(callback, done))
    {
      hide Stop;
      underWay := underWay - multiset{callback};
      if done && callback.kind == Release {
        StopRelease();
      } else if done && callback.kind == BridgeIn {
        StopBridgeIn();
      }
    }

    method StopRelease()
      modifies this
      ensures View() == Stop(old(View()), Release)
    {
      if bridgeReleasePollTimer.Some? { ClearInterval(bridgeReleasePollTimer.value); }
      bridgeReleasePollTimer := None;
    }

    method StopBridgeIn()
      modifies this
      ensures View() == Stop(old(View()), BridgeIn)
    {
      if cryloBridgePollTimer.Some? { ClearInterval(cryloBridgePollTimer.value); }
      cryloBridgePollTimer := None;
    }
  }

  const INITIAL := Window(Slots(None, None, None, None), map[], multiset{}, 1)

  // ----- what every interleaving keeps -----

  /** The live intervals of a kind are exactly the one in its variable. */
  ghost predicate InStep(w: Window, kind: Kind) {
    forall handle :: handle in w.live && w.live[handle] == kind <==> w.slots.Get(kind) == Some(handle)
  }

  ghost predicate Inv(w: Window) {
    && (forall kind :: InStep(w, kind))
    && (forall handle :: handle in w.live ==> handle < w.next)
  }

  lemma {:induction false} StartKeeps(w: Window, kind: Kind)
    requires Inv(w)
    ensures Inv(Start(w, kind))
    ensures forall other :: other != kind ==> Start(w, kind).slots.Get(other) == w.slots.Get(other)
  {
    var t := Start(w, kind);
    forall other
      ensures InStep(t, other)
    {
      assert InStep(w, other) && InStep(w, kind);
    }
  }

  lemma {:induction false} StopKeeps(w: Window, kind: Kind)
    requires Inv(w)
    ensures Inv(Stop(w, kind))
    ensures forall other :: other != kind ==> Stop(w, kind).slots.Get(other) == w.slots.Get(other)
    ensures forall handle :: handle in Stop(w, kind).live ==> Stop(w, kind).live[handle] != kind
  {
    var t := Stop(w, kind);
    forall other
      ensures InStep(t, other)
    {
      assert InStep(w, other) && InStep(w, kind);
    }
    assert InStep(t, kind);
  }

  lemma {:induction false} UnderWayIrrelevant(w: Window, underWay: multiset<Callback>)
    requires Inv(w)
    ensures Inv(w.(underWay := underWay))
  {
    forall kind
      ensures InStep(w.(underWay := underWay), kind)
    {
      assert InStep(w, kind);
    }
  }

  lemma {:induction false} NextKeeps(w: Window, op: Op)
    requires Inv(w)
    ensures Inv(Next(w, op))
  {
    hide Inv, Start, Stop;
    match op
    case OpenMainScreen =>
      StartKeeps(w, Refresh);
      StartKeeps(Start(w, Refresh), Block);
    case SwitchWallet =>
      StopKeeps(w, Refresh);
      StopKeeps(Stop(w, Refresh), Block);
    case PollRelease(_) => StartKeeps(w, Release);
    case PollBridgeIn(_) => StartKeeps(w, BridgeIn);
    case Tick(handle) => UnderWayIrrelevant(w, Fire(w, handle).underWay);
    case Reply(callback, done) =>
      var left := w.(underWay := w.underWay - multiset{callback});
      UnderWayIrrelevant(w, left.underWay);
      StopKeeps(left, callback.kind);
  }

  /**
   Under every interleaving, each kind has at most one live interval, it is the one its variable holds,
   and a null variable means that none is live.
   */
  lemma {:induction false} OneLiveInterval(ops: seq<Op>)
    ensures Inv(Run(INITIAL, ops))
    ensures var live := Run(INITIAL, ops).live;
            forall a, b :: a in live && b in live && live[a] == live[b] ==> a == b
  {
    assert Inv(INITIAL);
    RunKeeps(INITIAL, ops);
    var w := Run(INITIAL, ops);
    forall a, b | a in w.live && b in w.live && w.live[a] == w.live[b]
      ensures a == b
    {
      assert InStep(w, w.live[a]);
    }
  }

  lemma {:induction false} RunKeeps(w: Window, ops: seq<Op>)
    requires Inv(w)
    ensures Inv(Run(w, ops))
    decreases ops
  {
    hide Inv, Next;
    if ops != [] {
      NextKeeps(w, ops[0]);
      RunKeeps(Next(w, ops[0]), ops[1..]);
    }
  }

  /** Switching wallets leaves no refresh and no block interval live, and does not touch the bridge pollers. */
  lemma {:induction false} SwitchStopsBoth(w: Window)
    requires Inv(w)
    ensures forall handle :: handle in Switch(w).live ==> Switch(w).live[handle] in {Release, BridgeIn}
    ensures Switch(w).slots == Slots(None, None, w.slots.release, w.slots.bridgeIn)
  {
    var mid := Stop(w, Refresh);
    StopKeeps(w, Refresh);
    StopKeeps(mid, Block);
  }

  lemma HeldIsLive(w: Window, kind: Kind, handle: nat)
    requires Inv(w) && w.slots.Get(kind) == Some(handle)
    ensures handle in w.live && handle < w.next
  {
    assert InStep(w, kind);
  }

  lemma {:induction false} StartStops(w: Window, kind: Kind, handle: nat, other: Kind)
    requires Inv(w) && w.slots.Get(kind) == Some(handle)
    ensures handle !in Start(w, other).live <==> kind == other
    ensures kind != other ==> Start(w, other).slots.Get(kind) == Some(handle)
    ensures handle < Start(w, other).next
  {
    assert InStep(w, kind) && InStep(w, other);
  }

  lemma {:induction false} StopStops(w: Window, kind: Kind, handle: nat, other: Kind)
    requires Inv(w) && w.slots.Get(kind) == Some(handle)
    ensures handle !in Stop(w, other).live <==> kind == other
    ensures kind != other ==> Stop(w, other).slots.Get(kind) == Some(handle)
  {
    assert InStep(w, kind) && InStep(w, other);
  }

  lemma NotRestarted(w: Window, handle: nat, kind: Kind)
    requires handle !in w.live && handle < w.next
    ensures handle !in Start(w, kind).live
  {
  }

  lemma NotRevived(w: Window, handle: nat, kind: Kind)
    requires handle !in w.live
    ensures handle !in Stop(w, kind).live
  {
  }

  /**
   Exactly what stops a live poller: a new poll of its kind, or any callback of its kind that finds work done,
   also one fired by an earlier interval; and for the window's own two, opening the screen or switching wallets.
   */
  lemma {:induction false} StoppedExactlyBy(w: Window, kind: Kind, handle: nat, op: Op)
    requires Inv(w) && w.slots.Get(kind) == Some(handle)
    ensures handle !in Next(w, op).live <==>
            match op
            case OpenMainScreen => kind == Refresh || kind == Block
            case SwitchWallet => kind == Refresh || kind == Block
            case PollRelease(txHash) => kind == Release && txHash != "" && txHash != "sent"
            case PollBridgeIn(_) => kind == BridgeIn
            case Tick(_) => false
            case Reply(cb, done) => done && cb in w.underWay && cb.kind == kind && (kind == Release || kind == BridgeIn)
  {
    hide Inv, Start, Stop;
    HeldIsLive(w, kind, handle);
    match op
    case OpenMainScreen =>
      StartStops(w, kind, handle, Refresh);
      StartKeeps(w, Refresh);
      if kind != Refresh { StartStops(Start(w, Refresh), kind, handle, Block); }
      else { NotRestarted(Start(w, Refresh), handle, Block); }
    case SwitchWallet =>
      StopStops(w, kind, handle, Refresh);
      StopKeeps(w, Refresh);
      if kind != Refresh { StopStops(Stop(w, Refresh), kind, handle, Block); }
      else { NotRevived(Stop(w, Refresh), handle, Block); }
    case PollRelease(_) => StartStops(w, kind, handle, Release);
    case PollBridgeIn(_) => StartStops(w, kind, handle, BridgeIn);
    case Tick(_) =>
    case Reply(callback, done) =>
      var left := w.(underWay := w.underWay - multiset{callback});
      UnderWayIrrelevant(w, left.underWay);
      StopStops(left, kind, handle, callback.kind);
  }

  /** The steps that start an interval of a kind. */
  ghost predicate Starts(op: Op, kind: Kind) {
    match op
    case OpenMainScreen => kind == Refresh || kind == Block
    case PollRelease(txHash) => kind == Release && txHash != "" && txHash != "sent"
    case PollBridgeIn(_) => kind == BridgeIn
    case _ => false
  }

  /**
   After a step the variable of a kind holds a new interval exactly when the step starts one; it is live and polls for
   that kind. Opening the screen so starts two different intervals.
   */
  lemma {:induction false} StartedExactlyBy(w: Window, kind: Kind, op: Op)
    requires Inv(w)
    ensures var held := Next(w, op).slots.Get(kind);
            && (Starts(op, kind) <==> held.Some? && held.value >= w.next)
            && (held.Some? ==> held.value in Next(w, op).live && Next(w, op).live[held.value] == kind)
    ensures op == OpenMainScreen ==> Next(w, op).slots.refresh != Next(w, op).slots.block
  {
    NextKeeps(w, op);
    var t := Next(w, op);
    assert InStep(t, kind);
    if op == OpenMainScreen {
      assert InStep(t, Refresh) && InStep(t, Block);
    }
    if w.slots.Get(kind).Some? { HeldIsLive(w, kind, w.slots.Get(kind).value); }
  }

  /** An interval that is not live never fires again. */
  lemma {:induction false} StoppedForGood(w: Window, handle: nat, ops: seq<Op>)
    requires handle < w.next && handle !in w.live
    ensures handle < Run(w, ops).next && handle !in Run(w, ops).live
    ensures Next(Run(w, ops), Tick(handle)) == Run(w, ops)
    decreases ops
  {
    if ops != [] {
      assert handle < Next(w, ops[0]).next && handle !in Next(w, ops[0]).live;
      hide Next;
      StoppedForGood(Next(w, ops[0]), handle, ops[1..]);
    }
  }

  /** The callback a step sets off. */
  function Fires(w: Window, op: Op): multiset<Callback> {
    if op.Tick? && op.handle in w.live then multiset{Callback(w.live[op.handle], op.handle)} else multiset{}
  }

  /** The callback a step brings to its end. */
  function Answers(w: Window, op: Op): multiset<Callback> {
    if op.Reply? && op.callback in w.underWay then multiset{op.callback} else multiset{}
  }

  function Fired(w: Window, ops: seq<Op>): multiset<Callback>
    decreases ops
  {
    if ops == [] then multiset{} else Fires(w, ops[0]) + Fired(Next(w, ops[0]), ops[1..])
  }

  function Answered(w: Window, ops: seq<Op>): multiset<Callback>
    decreases ops
  {
    if ops == [] then multiset{} else Answers(w, ops[0]) + Answered(Next(w, ops[0]), ops[1..])
  }

  /** Over every run, each firing of an interval goes on once or is still waiting, and nothing else goes on. */
  lemma {:induction false} CallbacksConserved(w: Window, ops: seq<Op>)
    ensures Run(w, ops).underWay + Answered(w, ops) == w.underWay + Fired(w, ops)
    decreases ops
  {
    hide Next, Fires, Answers;
    if ops != [] {
      var t, rest := Next(w, ops[0]), ops[1..];
      StepConserves(w, ops[0]);
      CallbacksConserved(t, rest);
      Balance(w.underWay, Fires(w, ops[0]), Answers(w, ops[0]), t.underWay,
              Fired(t, rest), Answered(t, rest), Run(t, rest).underWay);
    }
  }

  lemma StepConserves(w: Window, op: Op)
    ensures Next(w, op).underWay + Answers(w, op) == w.underWay + Fires(w, op)
  {
    hide Start, Stop;
    match op
    case OpenMainScreen =>
      WaitingKept(w, Refresh);
      WaitingKept(Start(w, Refresh), Block);
    case SwitchWallet =>
      WaitingKept(w, Refresh);
      WaitingKept(Stop(w, Refresh), Block);
    case PollRelease(_) => WaitingKept(w, Release);
    case PollBridgeIn(_) => WaitingKept(w, BridgeIn);
    case Tick(_) =>
    case Reply(callback, _) => WaitingKept(w.(underWay := w.underWay - multiset{callback}), callback.kind);
  }

  lemma WaitingKept(w: Window, kind: Kind)
    ensures Start(w, kind).underWay == w.underWay && Stop(w, kind).underWay == w.underWay
  {
  }

  lemma Balance(before: multiset<Callback>, fires: multiset<Callback>, answers: multiset<Callback>,
                mid: multiset<Callback>, fired: multiset<Callback>, answered: multiset<Callback>,
                after: multiset<Callback>)
    requires mid + answers == before + fires && after + answered == mid + fired
    ensures after + (answers + answered) == before + (fires + fired)
  {
    forall cb
      ensures (after + (answers + answered))[cb] == (before + (fires + fired))[cb]
    {
      assert (mid + answers)[cb] == (before + fires)[cb] && (after + answered)[cb] == (mid + fired)[cb];
    }
  }

  /** The step is no new poll of the kind, and not the poll's own callback finding its work done. */
  ghost predicate LeavesPoll(op: Op, kind: Kind, handle: nat) {
    match op
    case PollRelease(txHash) => kind != Release || txHash == "" || txHash == "sent"
    case PollBridgeIn(_) => kind != BridgeIn
    case Reply(callback, done) => done ==> callback != Callback(kind, handle)
    case _ => true
  }

  ghost predicate Undisturbed(ops: seq<Op>, kind: Kind, handle: nat) {
    forall i :: 0 <= i < |ops| ==> LeavesPoll(ops[i], kind, handle)
  }

  /** No callback of an earlier interval of the kind is still waiting for its answer. */
  ghost predicate NoEarlierWaits(w: Window, kind: Kind, handle: nat) {
    forall callback :: callback in w.underWay && callback.kind == kind ==> callback.handle == handle
  }

  lemma {:induction false} StepLeavesPoll(w: Window, kind: Kind, handle: nat, op: Op)
    requires Inv(w) && (kind == Release || kind == BridgeIn) && w.slots.Get(kind) == Some(handle)
    requires NoEarlierWaits(w, kind, handle) && LeavesPoll(op, kind, handle)
    ensures handle in Next(w, op).live && Next(w, op).slots.Get(kind) == Some(handle)
    ensures NoEarlierWaits(Next(w, op), kind, handle)
  {
    StoppedExactlyBy(w, kind, handle, op);
    StepLeavesSlot(w, kind, handle, op);
    StepAddsNoEarlier(w, kind, handle, op);
  }

  lemma {:induction false} StepLeavesSlot(w: Window, kind: Kind, handle: nat, op: Op)
    requires w.slots.Get(kind) == Some(handle) && (kind == Release || kind == BridgeIn)
    requires NoEarlierWaits(w, kind, handle) && LeavesPoll(op, kind, handle)
    ensures Next(w, op).slots.Get(kind) == Some(handle)
  {
  }

  lemma {:induction false} StepAddsNoEarlier(w: Window, kind: Kind, handle: nat, op: Op)
    requires Inv(w) && w.slots.Get(kind) == Some(handle) && NoEarlierWaits(w, kind, handle)
    ensures NoEarlierWaits(Next(w, op), kind, handle)
  {
    if op.Tick? && op.handle in w.live {
      assert InStep(w, kind);
      assert w.live[op.handle] == kind ==> op.handle == handle;
    }
    hide Inv, InStep;
  }

  lemma {:induction false} PollSurvives(w: Window, kind: Kind, handle: nat, ops: seq<Op>)
    requires Inv(w) && (kind == Release || kind == BridgeIn) && w.slots.Get(kind) == Some(handle)
    requires NoEarlierWaits(w, kind, handle) && Undisturbed(ops, kind, handle)
    ensures handle in Run(w, ops).live && Run(w, ops).slots.Get(kind) == Some(handle)
    decreases ops
  {
    if ops == [] {
      assert InStep(w, kind);
    } else {
      hide Inv, Next, NoEarlierWaits, LeavesPoll;
      assert Undisturbed(ops[1..], kind, handle);
      StepLeavesPoll(w, kind, handle, ops[0]);
      NextKeeps(w, ops[0]);
      PollSurvives(Next(w, ops[0]), kind, handle, ops[1..]);
    }
  }

  /**
   A poll just started goes on through every run without a new poll of its kind, until its own callback finds the work
   done, exactly when at its start no callback of an earlier poll of that kind is still waiting for its answer.
   */
  lemma {:induction false} PollSurvivesExactly(w: Window, kind: Kind, handle: nat)
    requires Inv(w) && (kind == Release || kind == BridgeIn) && w.slots.Get(kind) == Some(handle)
    ensures (forall ops :: Undisturbed(ops, kind, handle) ==> handle in Run(w, ops).live)
       <==> NoEarlierWaits(w, kind, handle)
  {
    if NoEarlierWaits(w, kind, handle) {
      forall ops | Undisturbed(ops, kind, handle)
        ensures handle in Run(w, ops).live
      {
        PollSurvives(w, kind, handle, ops);
      }
    } else {
      var earlier :| earlier in w.underWay && earlier.kind == kind && earlier.handle != handle;
      var ops := [Reply(earlier, true)];
      assert Undisturbed(ops, kind, handle);
      StoppedExactlyBy(w, kind, handle, ops[0]);
      assert Run(w, ops) == Run(Next(w, ops[0]), ops[1..]) == Next(w, ops[0]);
    }
  }

  /** So a poll for a second payment can be stopped by the reply to the first, and then nothing polls the second. */
  lemma {:induction false} EarlierReplyStopsLaterPoll(w: Window, first: string, second: string)
    requires Inv(w)
    ensures var a := Next(w, PollBridgeIn(first));
            var b := Next(Next(a, Tick(w.next)), PollBridgeIn(second));
            var end := Next(b, Reply(Callback(BridgeIn, w.next), true));
            && b.slots.bridgeIn == Some(w.next + 1) && w.next + 1 in b.live
            && end.slots.bridgeIn == None && forall handle :: handle in end.live ==> end.live[handle] != BridgeIn
  {
    var a := Next(w, PollBridgeIn(first));
    NextKeeps(w, PollBridgeIn(first));
    var t := Next(a, Tick(w.next));
    NextKeeps(a, Tick(w.next));
    var b := Next(t, PollBridgeIn(second));
    NextKeeps(t, PollBridgeIn(second));
    var cb := Callback(BridgeIn, w.next);
    assert cb in b.underWay;
    NextKeeps(b, Reply(cb, true));
    assert InStep(Next(b, Reply(cb, true)), BridgeIn);
  }
}
