/**
 startCryLoBridgeIn: the amount a user types is cut into deposits of at most 50,
 and each deposit is requested from the bridge and then transferred.
 Replies of the bridge and of the wallet are arbitrary, and so is the address of the wallet at each request.
 */
module BridgeIn {
  import opened Digits
  import opened DecimalText
  import opened JsNumber
  import opened AtomicUnits
  import opened Numerals
  import opened Options

  /** 50 CRYLO and the smallest amount String prints without exponent, in atomic units. */
  const MAX_DEPOSIT: nat := 50 * COIN
  const MIN_PRINTABLE: nat := 100_000

  // ----- cutting the total -----

  /** The deposits for u atomic units: full ones of 50 CRYLO, then the rest. */
  function Plan(u: nat): (plan: seq<nat>)
    ensures plan != []
  {
    if u <= MAX_DEPOSIT then [u] else [MAX_DEPOSIT] + Plan(u - MAX_DEPOSIT)
  }

  function Sum(amounts: seq<nat>): nat {
    if amounts == [] then 0 else amounts[0] + Sum(amounts[1..])
  }

  function UnitsOf(chunks: seq<Decimal>): (us: seq<nat>)
    ensures |us| == |chunks|
  {
    seq(|chunks|, i requires 0 <= i < |chunks| => chunks[i].units)
  }

  /** The plan adds up to u, every deposit but the last is full, and only a first deposit can be 0. */
  lemma {:induction false} PlanShape(u: nat)
    ensures Sum(Plan(u)) == u
    ensures forall i :: 0 <= i < |Plan(u)| - 1 ==> Plan(u)[i] == MAX_DEPOSIT
    ensures forall i :: 0 <= i < |Plan(u)| ==> Plan(u)[i] <= MAX_DEPOSIT
    ensures Plan(u)[|Plan(u)| - 1] == 0 <==> u == 0
  {
    if u > MAX_DEPOSIT {
      PlanShape(u - MAX_DEPOSIT);
      var rest := Plan(u - MAX_DEPOSIT);
      assert Plan(u)[1..] == rest;
      assert Plan(u)[|Plan(u)| - 1] == rest[|rest| - 1];
    }
  }

  /** How many deposits there are. */
  lemma {:induction false} PlanLength(u: nat)
    ensures u == 0 || (|Plan(u)| - 1) * MAX_DEPOSIT < u <= |Plan(u)| * MAX_DEPOSIT
    ensures u == 0 ==> Plan(u) == [0]
  {
    if u > MAX_DEPOSIT { PlanLength(u - MAX_DEPOSIT); }
  }

  /** Rounding to 11 places, with the power of ten written out. */
  lemma {:induction false} AtomicRounding(x: real)
    requires x >= 0.0
    ensures FixedUnits(x, CRYLO_DECIMALS) == (x * 100_000_000_000.0 + 0.5).Floor
  {
    assert Pow10(11) == 100_000_000_000;
  }

  lemma {:induction false} AtomicValue(n: nat)
    ensures Decimal(n, CRYLO_DECIMALS).Value() == n as real / 100_000_000_000.0
    ensures FixedUnits(Decimal(n, CRYLO_DECIMALS).Value(), CRYLO_DECIMALS) == n
  {
    assert Pow10(11) == 100_000_000_000;
    var v := Decimal(n, CRYLO_DECIMALS).Value();
    assert v * 100_000_000_000.0 == n as real;
    AtomicRounding(v);
  }

  lemma {:induction false} TakeFifty(x: real)
    requires x > 50.0
    ensures FixedUnits(x, CRYLO_DECIMALS) == FixedUnits(x - 50.0, CRYLO_DECIMALS) + MAX_DEPOSIT
    ensures FixedUnits(50.0, CRYLO_DECIMALS) == MAX_DEPOSIT
  {
    AtomicRounding(x);
    AtomicRounding(x - 50.0);
    AtomicRounding(50.0);
  }

  lemma {:induction false} SmallUnits(x: real)
    requires 0.0 <= x <= 50.0
    ensures FixedUnits(x, CRYLO_DECIMALS) <= MAX_DEPOSIT
    ensures FixedUnits(0.0, CRYLO_DECIMALS) == 0
  {
    AtomicRounding(x);
    AtomicRounding(0.0);
  }

  /** The amount one round of the loop takes. */
  function Taken(remaining: real): real {
    if remaining < 50.0 then remaining else 50.0
  }

  lemma {:induction false} RoundStep(remaining: real)
    requires 0.0 < remaining <= 150.0
    ensures var u, v := FixedUnits(remaining, CRYLO_DECIMALS), FixedUnits(remaining - Taken(remaining), CRYLO_DECIMALS);
            && Plan(u) == [FixedUnits(Taken(remaining), CRYLO_DECIMALS)] + (if v > 0 then Plan(v) else [])
            && v <= 2 * MAX_DEPOSIT
            && (v > 0 ==> v < u)
  {
    hide FixedUnits;
    AtomicRounding(remaining - Taken(remaining));
    if remaining > 50.0 {
      TakeFifty(remaining);
    } else {
      SmallUnits(remaining);
    }
  }

  lemma InFixedRange(x: real)
    requires x <= 150.0
    ensures x < Pow10(21) as real
  {
    assert Pow10(21) > 150;
  }

  /** One round takes the head of the plan and leaves a number whose plan is the tail. */
  lemma {:induction false} CutStep(remaining: real)
    requires 0.0 < remaining <= 150.0
    ensures var left := Decimal(FixedUnits(remaining - Taken(remaining), CRYLO_DECIMALS), CRYLO_DECIMALS).Value();
            && Plan(FixedUnits(remaining, CRYLO_DECIMALS))
               == [FixedUnits(Taken(remaining), CRYLO_DECIMALS)] + PlanOf(left)
            && 0.0 <= left <= 150.0
            && (left > 0.0 ==> FixedUnits(left, CRYLO_DECIMALS) < FixedUnits(remaining, CRYLO_DECIMALS))
  {
    hide FixedUnits, Pow10, Plan;
    RoundStep(remaining);
    AtomicValue(FixedUnits(remaining - Taken(remaining), CRYLO_DECIMALS));
  }

  ghost function PlanOf(remaining: real): seq<nat> {
    if remaining > 0.0 then Plan(FixedUnits(remaining, CRYLO_DECIMALS)) else []
  }

  lemma {:induction false} AtMostThree(total: real)
    requires 0.0 < total <= 150.0
    ensures |Plan(FixedUnits(total, CRYLO_DECIMALS))| <= 3
  {
    PlanLength(FixedUnits(total, CRYLO_DECIMALS));
    AtomicRounding(total);
  }

  /** The cutting loop produces the plan of the total rounded to 11 places. */
  method CutDeposits(total: real) returns (chunks: seq<Decimal>)
    requires 0.0 < total <= 150.0
    ensures UnitsOf(chunks) == Plan(FixedUnits(total, CRYLO_DECIMALS))
    ensures forall i :: 0 <= i < |chunks| ==> chunks[i].places == CRYLO_DECIMALS
    ensures |chunks| <= 3
  {
    hide FixedUnits, Plan, NumberOf, ToFixed, Pow10, Decimal.Value;
    AtMostThree(total);
    var remaining := total;
    chunks := [];
    while remaining > 0.0
      invariant 0.0 <= remaining <= 150.0
      invariant forall i :: 0 <= i < |chunks| ==> chunks[i].places == CRYLO_DECIMALS
      invariant Plan(FixedUnits(total, CRYLO_DECIMALS)) == UnitsOf(chunks) + PlanOf(remaining)
      decreases remaining > 0.0, FixedUnits(remaining, CRYLO_DECIMALS)
    {
      InFixedRange(remaining);
      var taken := RoundTo(Taken(remaining), CRYLO_DECIMALS);
      var left := RoundTo(remaining - Taken(remaining), CRYLO_DECIMALS).Value();
      CutStep(remaining);
      assert UnitsOf(chunks + [taken]) == UnitsOf(chunks) + [taken.units];
      chunks := chunks + [taken];
      remaining := left;
    }
  }

  // ----- printing and parsing one deposit -----

  /** Whether a deposit of n atomic units survives String followed by cryloToAtomic. */
  predicate Printable(n: nat) {
    n >= MIN_PRINTABLE
  }

  /** A deposit parses back to exactly itself, and one below 10^-6 is refused. */
  lemma {:induction false} DepositText(n: nat)
    requires n <= MAX_DEPOSIT
    ensures Printable(n) ==> CryloToAtomic(NumberToString(Decimal(n, CRYLO_DECIMALS))) == Ok(NatToString(n))
    ensures !Printable(n) ==> CryloToAtomic(NumberToString(Decimal(n, CRYLO_DECIMALS))).Err?
    ensures NumberOf(NatToString(n)) == Finite(n as real)
  {
    hide *;
    var d := Decimal(n, CRYLO_DECIMALS);
    DepositRange(n);
    ParsePrinted(d, CRYLO_DECIMALS);
    NoShift(n);
    NumberOfNat(n);
    CryloIsEleven(NumberToString(d));
  }

  lemma CryloIsEleven(text: string)
    ensures CryloToAtomic(text) == DecimalToAtomic(text, CRYLO_DECIMALS)
  {
  }

  lemma NoShift(n: nat)
    ensures Shift(n, 0) == n
  {
  }

  lemma {:induction false} DepositRange(n: nat)
    requires n <= MAX_DEPOSIT
    ensures n > 0 && PrintsPlain(Decimal(n, CRYLO_DECIMALS)) <==> Printable(n)
  {
    assert Pow10(11) == 100_000_000_000;
    PowGrows(20, 32);
    assert Pow10(20) == 100_000_000_000_000_000_000;
    ShiftIsProduct(n, 6);
    assert Pow10(6) == 1_000_000;
  }

  // ----- the run -----

  /** A reply of the bridge API; an absent field is the empty string. */
  datatype RequestReply =
    | RequestFailed
    | RequestOk(paymentId: string, paymentIdAlias: string, address: string, addressAlias: string)

  /** A reply of the wallet; the places a hash may be found in, most preferred first. */
  datatype TransferReply = TransferFailed | TransferOk(hashes: seq<string>)

  /**
   What surrounds a run: the address of the open wallet when deposit i is requested, which another wallet may have
   replaced since the last one, and the replies to request i and transfer i.
   */
  datatype Session = Session(address: nat -> string, request: nat -> RequestReply, transfer: nat -> TransferReply)

  datatype Request = Request(nexusAddress: string, cryloAddress: string, amountAtomic: string)

  datatype Transfer = Transfer(address: string, amount: JsNumber)

  datatype Deposit = Deposit(paymentId: string, cryloTx: string, amount: string)

  datatype Pending = Pending(paymentId: string, paymentIds: seq<string>, deposits: seq<Deposit>)

  /** What a run did: requests and transfers attempted, deposits confirmed, record stored. */
  datatype Outcome = Outcome(
    requests: seq<Request>, transfers: seq<Transfer>, sent: seq<Deposit>, pending: Option<Pending>)

  function FirstNonEmpty(texts: seq<string>): string {
    if texts == [] then "" else if texts[0] != "" then texts[0] else FirstNonEmpty(texts[1..])
  }

  function PaymentId(reply: RequestReply): string {
    if reply.RequestOk? then FirstNonEmpty([reply.paymentId, reply.paymentIdAlias]) else ""
  }

  function SendAddress(reply: RequestReply): string {
    if reply.RequestOk? then FirstNonEmpty([reply.address, reply.addressAlias]) else ""
  }

  predicate Usable(reply: RequestReply) {
    reply.RequestOk? && PaymentId(reply) != "" && SendAddress(reply) != ""
  }

  function TxHash(reply: TransferReply): string {
    if reply.TransferOk? then FirstNonEmpty(reply.hashes) else ""
  }

  function PaymentIds(sent: seq<Deposit>): (ids: seq<string>)
    ensures |ids| == |sent|
  {
    seq(|sent|, i requires 0 <= i < |sent| => sent[i].paymentId)
  }

  /** The total of a session that passes the checks before the first deposit. */
  function AcceptedTotal(walletOpen: bool, nexusAddress: string, amountText: string): Option<real> {
    match NumberOf(amountText)
    case Finite(total) =>
      if walletOpen && nexusAddress != "" && 0.0 < total <= 150.0 then Some(total) else None
    case _ => None
  }

  /** Deposit i of the plan goes through: printable, requested with success, transferred with success. */
  predicate Succeeds(plan: seq<nat>, session: Session, i: nat)
    requires i < |plan|
  {
    Printable(plan[i]) && Usable(session.request(i)) && session.transfer(i).TransferOk?
  }

  function DepositFor(plan: seq<nat>, session: Session, i: nat): Deposit
    requires i < |plan|
  {
    var text := NumberToString(Decimal(plan[i], CRYLO_DECIMALS));
    Deposit(PaymentId(session.request(i)), TxHash(session.transfer(i)), text)
  }

  /** Requests, transfers and deposits carry the amounts and addresses of the plan, in its order. */
  ghost predicate InStep(o: Outcome, plan: seq<nat>, nexusAddress: string, session: Session) {
    && |o.sent| <= |o.transfers| <= |o.requests| <= |plan|
    && (forall i :: 0 <= i < |o.requests| ==>
          o.requests[i] == Request(nexusAddress, session.address(i), NatToString(plan[i])))
    && (forall i :: 0 <= i < |o.transfers| ==>
          o.transfers[i] == Transfer(SendAddress(session.request(i)), Finite(plan[i] as real)))
    && (forall i :: 0 <= i < |o.sent| ==> o.sent[i] == DepositFor(plan, session, i))
    && (forall i :: 0 <= i < |o.sent| ==> Succeeds(plan, session, i))
  }

  /** Where the run stopped: everything was sent, or the next deposit failed at the step that failed. */
  ghost predicate StopsAtFailure(o: Outcome, plan: seq<nat>, session: Session)
    requires |o.sent| <= |plan|
  {
    var k := |o.sent|;
    if k == |plan| then |o.requests| == |o.transfers| == k
    else
      && !Succeeds(plan, session, k)
      && |o.requests| == (if Printable(plan[k]) then k + 1 else k)
      && |o.transfers| == (if Printable(plan[k]) && Usable(session.request(k)) then k + 1 else k)
  }

  /** The record is stored exactly when the whole plan was sent, and holds those deposits. */
  ghost predicate RecordsAll(o: Outcome, plan: seq<nat>) {
    && (o.pending.Some? <==> |o.sent| == |plan|)
    && (o.pending.Some? ==> o.sent != [] && o.pending.value == Pending(o.sent[0].paymentId, PaymentIds(o.sent), o.sent))
  }

  ghost predicate Follows(o: Outcome, plan: seq<nat>, nexusAddress: string, session: Session) {
    InStep(o, plan, nexusAddress, session) && StopsAtFailure(o, plan, session) && RecordsAll(o, plan)
  }

  method SendDeposits(chunks: seq<Decimal>, nexusAddress: string, session: Session)
    returns (o: Outcome)
    requires chunks != []
    requires forall i :: 0 <= i < |chunks| ==> chunks[i].places == CRYLO_DECIMALS && chunks[i].units <= MAX_DEPOSIT
    ensures Follows(o, UnitsOf(chunks), nexusAddress, session)
  {
    hide NumberToString, CryloToAtomic, NumberOf, NatToString, PaymentId, SendAddress, TxHash, Usable, Printable,
      InStep;
    ghost var plan := UnitsOf(chunks);
    o := Outcome([], [], [], None);
    StartInStep(plan, nexusAddress, session);
    for i := 0 to |chunks|
      invariant |o.requests| == |o.transfers| == |o.sent| == i && o.pending == None
      invariant InStep(o, plan, nexusAddress, session)
    {
      var chunkText := NumberToString(chunks[i]);
      assert chunks[i] == Decimal(plan[i], CRYLO_DECIMALS);
      DepositText(plan[i]);
      var parsed := CryloToAtomic(chunkText);
      if parsed.Err? { return; }
      var request := session.request(i);
      AddRequest(o, plan, nexusAddress, session);
      o := o.(requests := o.requests + [Request(nexusAddress, session.address(i), parsed.text)]);
      if !Usable(request) { return; }
      AddTransfer(o, plan, nexusAddress, session);
      o := o.(transfers := o.transfers + [Transfer(SendAddress(request), NumberOf(parsed.text))]);
      var transfer := session.transfer(i);
      if transfer.TransferFailed? { return; }
      AddSent(o, plan, nexusAddress, session);
      o := o.(sent := o.sent + [Deposit(PaymentId(request), TxHash(transfer), chunkText)]);
    }
    RecordInStep(o, plan, nexusAddress, session);
    o := o.(pending := Some(Pending(o.sent[0].paymentId, PaymentIds(o.sent), o.sent)));
  }

  lemma StartInStep(plan: seq<nat>, nexusAddress: string, session: Session)
    ensures InStep(Outcome([], [], [], None), plan, nexusAddress, session)
  {
    hide Succeeds, DepositFor, SendAddress, NatToString;
  }

  lemma AddRequest(o: Outcome, plan: seq<nat>, nexusAddress: string, session: Session)
    requires InStep(o, plan, nexusAddress, session) && |o.requests| < |plan|
    ensures var k := |o.requests|;
            var next := Request(nexusAddress, session.address(k), NatToString(plan[k]));
            InStep(o.(requests := o.requests + [next]), plan, nexusAddress, session)
  {
    hide Succeeds, DepositFor, SendAddress, NatToString;
  }

  lemma AddTransfer(o: Outcome, plan: seq<nat>, nexusAddress: string, session: Session)
    requires InStep(o, plan, nexusAddress, session) && |o.transfers| < |o.requests|
    requires |o.transfers| < |plan|
    ensures var k := |o.transfers|;
            var next := Transfer(SendAddress(session.request(k)), Finite(plan[k] as real));
            InStep(o.(transfers := o.transfers + [next]), plan, nexusAddress, session)
  {
    hide Succeeds, DepositFor, SendAddress, NatToString;
  }

  lemma AddSent(o: Outcome, plan: seq<nat>, nexusAddress: string, session: Session)
    requires InStep(o, plan, nexusAddress, session) && |o.sent| < |o.transfers|
    requires |o.sent| < |plan| && Succeeds(plan, session, |o.sent|)
    ensures var next := DepositFor(plan, session, |o.sent|);
            InStep(o.(sent := o.sent + [next]), plan, nexusAddress, session)
  {
    hide Succeeds, DepositFor, SendAddress, NatToString;
  }

  lemma RecordInStep(o: Outcome, plan: seq<nat>, nexusAddress: string, session: Session)
    requires InStep(o, plan, nexusAddress, session)
    ensures forall pending :: InStep(o.(pending := pending), plan, nexusAddress, session)
  {
    hide Succeeds, DepositFor, SendAddress, NatToString;
  }

  /** The whole operation, from the text the user typed. */
  method StartBridgeIn(walletOpen: bool, nexusAddress: string, amountText: string, session: Session)
    returns (o: Outcome)
    ensures var total := AcceptedTotal(walletOpen, nexusAddress, amountText);
            if total.None? then o == Outcome([], [], [], None)
            else Follows(o, Plan(FixedUnits(total.value, CRYLO_DECIMALS)), nexusAddress, session)
  {
    hide NumberOf, FixedUnits, Follows;
    o := Outcome([], [], [], None);
    if !walletOpen || nexusAddress == "" { return; }
    var total := NumberOf(amountText);
    if !total.Finite? || total.value <= 0.0 { return; }
    if total.value > 150.0 { return; }
    var chunks := CutDeposits(total.value);
    ghost var plan := Plan(FixedUnits(total.value, CRYLO_DECIMALS));
    PlanShape(FixedUnits(total.value, CRYLO_DECIMALS));
    assert forall i :: 0 <= i < |chunks| ==> chunks[i].units == plan[i];
    o := SendDeposits(chunks, nexusAddress, session);
  }

  // ----- what every run keeps -----

  /** The units the transfers moved. */
  ghost function Moved(transfers: seq<Transfer>): real {
    if transfers == [] then 0.0
    else (if transfers[0].amount.Finite? then transfers[0].amount.value else 0.0) + Moved(transfers[1..])
  }

  lemma {:induction false} MovedIsPrefixSum(transfers: seq<Transfer>, plan: seq<nat>)
    requires |transfers| <= |plan|
    requires forall i :: 0 <= i < |transfers| ==> transfers[i].amount == Finite(plan[i] as real)
    ensures Moved(transfers) == Sum(plan[..|transfers|]) as real
  {
    if transfers != [] {
      MovedIsPrefixSum(transfers[1..], plan[1..]);
      assert plan[..|transfers|][1..] == plan[1..][..|transfers| - 1];
    }
  }

  lemma {:induction false} PrefixSum(amounts: seq<nat>, k: nat)
    requires k <= |amounts|
    ensures Sum(amounts[..k]) <= Sum(amounts)
  {
    if k > 0 {
      assert amounts[..k][1..] == amounts[1..][..k - 1];
      PrefixSum(amounts[1..], k - 1);
    }
  }

  lemma {:induction false} TransferAmounts(o: Outcome, plan: seq<nat>, nexusAddress: string, session: Session)
    requires Follows(o, plan, nexusAddress, session)
    ensures |o.transfers| <= |plan| && (o.pending.Some? ==> |o.transfers| == |plan|)
    ensures forall i :: 0 <= i < |o.transfers| ==> o.transfers[i].amount == Finite(plan[i] as real)
  {
    hide Succeeds, NumberToString, NatToString, SendAddress;
  }

  /** The field itself, or its alias when the field is absent. */
  function OrAlias(field: string, fallback: string): string {
    if field != "" then field else fallback
  }

  /** Which hash a reply is recorded with: the first that is there, and none only when all are absent. */
  ghost predicate FirstPresent(hash: string, hashes: seq<string>) {
    if hash == "" then forall i :: 0 <= i < |hashes| ==> hashes[i] == ""
    else exists k :: 0 <= k < |hashes| && hashes[k] == hash && forall i :: 0 <= i < k ==> hashes[i] == ""
  }

  lemma {:induction false} FirstNonEmptyIsFirst(texts: seq<string>)
    ensures FirstPresent(FirstNonEmpty(texts), texts)
  {
    if texts != [] && texts[0] == "" {
      var rest := texts[1..];
      FirstNonEmptyIsFirst(rest);
      assert forall i :: 0 < i < |texts| ==> texts[i] == rest[i - 1];
      var hash := FirstNonEmpty(texts);
      if hash != "" {
        var k :| 0 <= k < |rest| && rest[k] == hash && forall i :: 0 <= i < k ==> rest[i] == "";
        assert texts[k + 1] == hash;
      }
    }
  }

  lemma FirstOfTwo(field: string, fallback: string)
    ensures FirstNonEmpty([field, fallback]) == OrAlias(field, fallback)
  {
    assert [field, fallback][1..] == [fallback];
    assert FirstNonEmpty([fallback]) == fallback by {
      assert [fallback][1..] == [];
    }
  }

  lemma {:induction false} ReplyFields(reply: RequestReply)
    requires reply.RequestOk?
    ensures PaymentId(reply) == OrAlias(reply.paymentId, reply.paymentIdAlias)
    ensures SendAddress(reply) == OrAlias(reply.address, reply.addressAlias)
  {
    FirstOfTwo(reply.paymentId, reply.paymentIdAlias);
    FirstOfTwo(reply.address, reply.addressAlias);
  }

  /** Request i carries the Nexus address, the CryLo address of its moment and exactly the units of deposit i. */
  lemma {:induction false} RequestsCarry(o: Outcome, plan: seq<nat>, nexusAddress: string, session: Session)
    requires Follows(o, plan, nexusAddress, session)
    ensures |o.requests| <= |plan|
    ensures forall i :: 0 <= i < |o.requests| ==>
              && o.requests[i].nexusAddress == nexusAddress && o.requests[i].cryloAddress == session.address(i)
              && AllDigits(o.requests[i].amountAtomic) && ValueOf(o.requests[i].amountAtomic) == plan[i]
  {
    hide Succeeds, DepositFor, SendAddress, ValueOf;
  }

  /** Transfer i goes to the integrated address that request i was answered with, which is never empty. */
  lemma {:induction false} TransfersAddressed(o: Outcome, plan: seq<nat>, nexusAddress: string, session: Session)
    requires Follows(o, plan, nexusAddress, session)
    ensures forall i :: 0 <= i < |o.transfers| ==>
              && session.request(i).RequestOk? && o.transfers[i].address != ""
              && o.transfers[i].address == OrAlias(session.request(i).address, session.request(i).addressAlias)
  {
    hide NumberToString, NatToString, PaymentId, SendAddress, TxHash, Printable, FirstNonEmpty;
    forall i | 0 <= i < |o.transfers|
      ensures session.request(i).RequestOk? && o.transfers[i].address != ""
      ensures o.transfers[i].address == OrAlias(session.request(i).address, session.request(i).addressAlias)
    {
      assert i < |o.sent| ==> Succeeds(plan, session, i);
      assert Usable(session.request(i));
      ReplyFields(session.request(i));
    }
  }

  /**
   Confirmed deposit i is recorded with the payment id that request i was answered with, the transaction hash that
   transfer i was answered with, and a text that is read back as exactly the units of deposit i.
   */
  lemma {:induction false} DepositsRecorded(o: Outcome, plan: seq<nat>, nexusAddress: string, session: Session)
    requires Follows(o, plan, nexusAddress, session)
    ensures |o.sent| <= |plan|
    ensures forall i :: 0 <= i < |o.sent| ==>
              && session.request(i).RequestOk? && session.transfer(i).TransferOk? && o.sent[i].paymentId != ""
              && o.sent[i].paymentId == OrAlias(session.request(i).paymentId, session.request(i).paymentIdAlias)
              && FirstPresent(o.sent[i].cryloTx, session.transfer(i).hashes)
              && (plan[i] <= MAX_DEPOSIT ==> CryloToAtomic(o.sent[i].amount) == Ok(NatToString(plan[i])))
    ensures o.pending.Some? ==>
              && o.pending.value.deposits == o.sent && |o.pending.value.paymentIds| == |o.sent| == |plan| > 0
              && o.pending.value.paymentId == o.sent[0].paymentId
              && forall i :: 0 <= i < |o.sent| ==> o.pending.value.paymentIds[i] == o.sent[i].paymentId
  {
    hide NumberToString, NatToString, CryloToAtomic, PaymentId, SendAddress, FirstNonEmpty, Printable, FirstPresent;
    forall i | 0 <= i < |o.sent|
      ensures session.request(i).RequestOk? && session.transfer(i).TransferOk? && o.sent[i].paymentId != ""
      ensures o.sent[i].paymentId == OrAlias(session.request(i).paymentId, session.request(i).paymentIdAlias)
      ensures FirstPresent(o.sent[i].cryloTx, session.transfer(i).hashes)
      ensures plan[i] <= MAX_DEPOSIT ==> CryloToAtomic(o.sent[i].amount) == Ok(NatToString(plan[i]))
    {
      assert Succeeds(plan, session, i);
      ReplyFields(session.request(i));
      FirstNonEmptyIsFirst(session.transfer(i).hashes);
      if plan[i] <= MAX_DEPOSIT { DepositText(plan[i]); }
    }
  }

  /** The reply names a payment id and an address, each in one of its two fields. */
  predicate NamesBoth(reply: RequestReply) {
    && reply.RequestOk?
    && (reply.paymentId != "" || reply.paymentIdAlias != "")
    && (reply.address != "" || reply.addressAlias != "")
  }

  /** Why a run stops at deposit k: the text is refused, the reply names too little, or the transfer fails. */
  lemma {:induction false} StopsExactlyWhen(o: Outcome, plan: seq<nat>, nexusAddress: string, session: Session)
    requires Follows(o, plan, nexusAddress, session)
    ensures |o.sent| <= |plan|
    ensures forall i :: 0 <= i < |o.sent| ==>
              plan[i] >= 100_000 && NamesBoth(session.request(i)) && session.transfer(i).TransferOk?
    ensures |o.sent| < |plan| ==>
              var k := |o.sent|;
              && (|o.requests| == k <==> plan[k] < 100_000)
              && (|o.transfers| == k <==> plan[k] < 100_000 || !NamesBoth(session.request(k)))
              && (|o.transfers| > k ==> session.transfer(k).TransferFailed?)
              && |o.transfers| <= k + 1 && |o.requests| <= k + 1
  {
    hide NumberToString, NatToString, DepositFor, SendAddress, Usable, NamesBoth;
    forall i | 0 <= i < |o.sent|
      ensures plan[i] >= 100_000 && NamesBoth(session.request(i)) && session.transfer(i).TransferOk?
    {
      assert Succeeds(plan, session, i);
      UsableExactly(session.request(i));
    }
    UsableExactly(session.request(|o.sent|));
  }

  lemma UsableExactly(reply: RequestReply)
    ensures Usable(reply) <==> NamesBoth(reply)
  {
    hide FirstNonEmpty, PaymentId, SendAddress;
    if reply.RequestOk? { ReplyFields(reply); }
  }

  /** Conservation: never more than the total is moved, and exactly the total once a record exists. */
  lemma {:induction false} Conservation(o: Outcome, u: nat, nexusAddress: string, session: Session)
    requires Follows(o, Plan(u), nexusAddress, session)
    ensures Moved(o.transfers) <= u as real
    ensures o.pending.Some? ==> Moved(o.transfers) == u as real
    ensures forall i :: 0 <= i < |o.transfers| ==>
              o.transfers[i].amount.Finite? && o.transfers[i].amount.value <= MAX_DEPOSIT as real
    ensures MAX_DEPOSIT < 0x20_0000_0000_0000
  {
    assert MAX_DEPOSIT < 0x20_0000_0000_0000;
    var plan := Plan(u);
    TransferAmounts(o, plan, nexusAddress, session);
    hide *;
    PlanShape(u);
    MovedIsPrefixSum(o.transfers, plan);
    PrefixSum(plan, |o.transfers|);
    assert plan[..|plan|] == plan;
  }

  /** The rest after the full deposits, in (0, 50] unless nothing is bridged. */
  function LastDeposit(u: nat): nat {
    if u == 0 then 0 else (u - 1) % MAX_DEPOSIT + 1
  }

  lemma LastDepositStep(u: nat)
    requires u > MAX_DEPOSIT
    ensures LastDeposit(u) == LastDeposit(u - MAX_DEPOSIT)
  {
  }

  lemma {:induction false} LastOfPlan(u: nat)
    ensures Plan(u)[|Plan(u)| - 1] == LastDeposit(u)
  {
    if u <= MAX_DEPOSIT {
      assert Plan(u) == [u] && LastDeposit(u) == u;
    } else {
      var rest := Plan(u - MAX_DEPOSIT);
      assert Plan(u) == [MAX_DEPOSIT] + rest;
      LastDepositStep(u);
      hide LastDeposit, Plan, MAX_DEPOSIT;
      LastOfPlan(u - MAX_DEPOSIT);
      assert Plan(u)[|Plan(u)| - 1] == rest[|rest| - 1];
    }
  }

  ghost predicate AllReplied(session: Session) {
    forall i: nat :: Usable(session.request(i)) && session.transfer(i).TransferOk?
  }

  /**
   With every reply a success, an accepted total is bridged in full exactly when its last deposit is at least 10^-6.
   Otherwise all full deposits are sent, the rest is refused, and no record of them is stored.
   */
  lemma {:induction false} BridgedInFull(o: Outcome, u: nat, nexusAddress: string, session: Session)
    requires Follows(o, Plan(u), nexusAddress, session)
    requires AllReplied(session)
    ensures o.pending.Some? <==> LastDeposit(u) >= MIN_PRINTABLE
    ensures LastDeposit(u) < MIN_PRINTABLE ==>
              |o.sent| == |Plan(u)| - 1 && Moved(o.transfers) == (u - LastDeposit(u)) as real
  {
    hide Plan, FirstNonEmpty, NumberToString, Moved, Sum, LastDeposit;
    var plan := Plan(u);
    LastOfPlan(u);
    var k := |o.sent|;
    PlanShape(u);
    assert forall i :: 0 <= i < |plan| - 1 ==> Succeeds(plan, session, i);
    assert k >= |plan| - 1;
    if k == |plan| {
      assert Succeeds(plan, session, k - 1);
    } else {
      MovedIsPrefixSum(o.transfers, plan);
      SumOfFront(plan);
    }
  }

  lemma {:induction false} SumOfFront(amounts: seq<nat>)
    requires amounts != []
    ensures Sum(amounts) == Sum(amounts[..|amounts| - 1]) + amounts[|amounts| - 1]
  {
    if |amounts| > 1 {
      assert amounts[..|amounts| - 1][1..] == amounts[1..][..|amounts| - 2];
      SumOfFront(amounts[1..]);
    }
  }

  /** 50.0000001 CRYLO: one deposit of 50 is sent, then the run stops without a record. */
  lemma {:induction false} TinyRestStrandsDeposit(o: Outcome, nexusAddress: string, session: Session)
    requires Follows(o, Plan(5_000_000_010_000), nexusAddress, session)
    requires AllReplied(session)
    ensures o.pending == None && |o.sent| == 1 && Moved(o.transfers) == 5_000_000_000_000.0
  {
    assert Plan(5_000_000_010_000) == [5_000_000_000_000, 10_000];
    assert LastDeposit(5_000_000_010_000) == 10_000;
    BridgedInFull(o, 5_000_000_010_000, nexusAddress, session);
  }

  /** That total is what the text "50.0000001" is read as, and it passes the checks. */
  lemma {:induction false} TinyRestIsAccepted(nexusAddress: string)
    requires nexusAddress != ""
    ensures AcceptedTotal(true, nexusAddress, "50.0000001") == Some(50.0000001)
    ensures FixedUnits(50.0000001, CRYLO_DECIMALS) == 5_000_000_010_000
  {
    TinyRestText();
    AtomicRounding(50.0000001);
    hide NumberOf, FixedUnits;
  }

  lemma {:induction false} TinyRestText()
    ensures NumberOf("50.0000001") == Finite(50.0000001)
  {
    var whole, frac := "50", "0000001";
    assert "50.0000001" == whole + "." + frac;
    assert frac == Zeros(6) + "1";
    TinyRestValue();
    hide NumberOf, ValueOf, Written;
    NumberOfPlain("50.0000001", whole, frac);
  }

  lemma {:induction false} TinyRestValue()
    ensures Written("50", Zeros(6) + "1").Value() == 50.0000001
  {
    var whole, frac := "50", Zeros(6) + "1";
    PadValue("1", 6);
    assert whole[..1] == "5" && whole[..1][..0] == "";
    assert ValueOf(whole) == 50 && ValueOf(frac) == 1;
    ValueOfConcat(whole, frac);
    ShiftIsProduct(50, 7);
    assert Pow10(7) == 10_000_000;
    assert Written(whole, frac) == Decimal(500000001, 7);
  }

  /** Which typed numbers start a session: positive ones up to 150, with a wallet open and a Nexus address bound. */
  lemma {:induction false} AcceptedExactly(walletOpen: bool, nexusAddress: string, n: Numeral)
    requires n.WellFormed()
    ensures AcceptedTotal(walletOpen, nexusAddress, n.Text()) ==
            if walletOpen && nexusAddress != "" && 0.0 < n.Value() <= 150.0 then Some(n.Value()) else None
    ensures n.sign == "-" ==> AcceptedTotal(walletOpen, nexusAddress, n.Text()) == None
  {
    hide NumberOf, Numeral.Text, Scale;
    NumberOfNumeral(n);
    NeverNegative(Written(n.whole, n.frac).units, n.Power() - |n.frac|);
  }

  lemma NeverNegative(units: nat, e: int)
    ensures Scale(units as real, e) >= 0.0
  {
  }

  /** Every other text is refused, except a radix literal; that is read as a whole number. */
  lemma {:induction false} OthersRefused(walletOpen: bool, nexusAddress: string, text: string)
    requires !IsNumeral(Trim(text)) && !IsRadix(Trim(text))
    ensures AcceptedTotal(walletOpen, nexusAddress, text) == None
  {
    hide NumberOf, Trim, IsNumeral, IsRadix;
    TrimOnce(text);
    NumberTextsExactly(text);
    if Trim(text) == "" { ListedIsNumber(""); }
  }

  /** A text that cryloToAtomic accepts directly is bridged as exactly the same atomic amount. */
  lemma {:induction false} AgreesWithDirectParse(amountText: string)
    ensures CryloToAtomic(amountText).Ok? ==>
              && NumberOf(amountText).Finite? && NumberOf(amountText).value > 0.0
              && FixedUnits(NumberOf(amountText).value, CRYLO_DECIMALS) == ValueOf(CryloToAtomic(amountText).text)
  {
    hide *;
    CryloIsEleven(amountText);
    ParseValue(amountText, CRYLO_DECIMALS);
    if CryloToAtomic(amountText).Ok? {
      var whole, frac := AcceptedParts(amountText, CRYLO_DECIMALS);
      NumberOfTrimmed(amountText, whole, frac);
      PositiveValue(Written(whole, frac));
      NumberOfPlain(Trim(amountText), whole, frac);
      RoundsExactly(NumberOf(amountText).value, CRYLO_DECIMALS, ValueOf(CryloToAtomic(amountText).text));
    }
  }

  lemma {:induction false} NumberOfTrimmed(text: string, whole: string, frac: string)
    requires Denotes(Trim(text), whole, frac)
    ensures NumberOf(text) == NumberOf(Trim(text))
  {
    hide UnsignedDecimal, RadixValue, TrimStart, TrimEnd;
    TrimPlain(Trim(text), whole, frac);
  }

  lemma {:induction false} RoundsExactly(x: real, places: nat, n: nat)
    requires x >= 0.0 && n as real == x * Pow10(places) as real
    ensures FixedUnits(x, places) == n
  {
  }
}
