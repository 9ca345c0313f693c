/** The ATM and the bank of concurrent/appendixc/main.cpp: two actors with message queues, and a keyboard that
    presses what it likes. A step is one complete handler. */
module Atm {

  datatype AtmState =
    WaitingForCard | GettingPin | VerifyingPin | WaitForAction | ProcessWithdrawal | ProcessBalance | DoneProcessing | Stopped

  /** Messages to the ATM. `granted` is the amount the bank deducted; the message of the code does not carry it. */
  datatype AtmMsg =
    | WithdrawOk(granted: nat) | WithdrawDenied | Balance(amount: nat) | PinVerified | PinIncorrect
    | CardInserted(account: string) | DigitPressed(digit: char) | ClearLastPressed
    | WithdrawPressed(amount: nat) | BalancePressed | CancelPressed | CloseQueue

  datatype BankMsg =
    | VerifyPin(account: string, pin: string) | Withdraw(account: string, amount: nat) | GetBalance(account: string)
    | WithdrawalProcessed(account: string, amount: nat) | CancelWithdrawal(account: string, amount: nat) | CloseBank

  /** The two actors and their queues; `cash` and `shown` are what interface_hardware was told to issue and which
      balances to display, `dropped` is what was granted by replies that nobody handled. */
  datatype System = System(
    state: AtmState, account: string, withdrawalAmount: nat, pin: string, incoming: seq<AtmMsg>,
    bank: seq<BankMsg>, open: bool, balance: nat,
    cash: seq<nat>, shown: seq<nat>, dropped: nat)

  const START := 199

  function Init(amount: nat): System {
    System(WaitingForCard, "", amount, "", [], [], true, START, [], [], 0)
  }

  function SendBank(s: System, m: BankMsg): System { s.(bank := s.bank + [m]) }

  function SendAtm(s: System, m: AtmMsg): System { s.(incoming := s.incoming + [m]) }

  /** The dispatcher: a message for which the state has no handler is dropped. */
  function Handle(s: System, m: AtmMsg): System {
    if m == CloseQueue then s.(state := Stopped)
    else
      match s.state
      case WaitingForCard =>
        if m.CardInserted? then s.(account := m.account, pin := "", state := GettingPin) else Drop(s, m)
      case GettingPin =>
        if m.DigitPressed? then
          var s1 := s.(pin := s.pin + [m.digit]);
          if |s1.pin| == 4 then SendBank(s1, VerifyPin(s1.account, s1.pin)).(state := VerifyingPin) else s1
        else if m.ClearLastPressed? then s.(pin := if s.pin == "" then "" else s.pin[..|s.pin| - 1])
        else if m.CancelPressed? then s.(state := DoneProcessing)
        else Drop(s, m)
      case VerifyingPin =>
        if m.PinVerified? then s.(state := WaitForAction)
        else if m.PinIncorrect? || m.CancelPressed? then s.(state := DoneProcessing)
        else Drop(s, m)
      case WaitForAction =>
        if m.WithdrawPressed? then
          SendBank(s.(withdrawalAmount := m.amount), Withdraw(s.account, m.amount)).(state := ProcessWithdrawal)
        else if m.BalancePressed? then SendBank(s, GetBalance(s.account)).(state := ProcessBalance)
        else if m.CancelPressed? then s.(state := DoneProcessing)
        else Drop(s, m)
      case ProcessWithdrawal =>
        if m.WithdrawOk? then
          SendBank(s.(cash := s.cash + [s.withdrawalAmount]), WithdrawalProcessed(s.account, s.withdrawalAmount)).(state := DoneProcessing)
        else if m.WithdrawDenied? then s.(state := DoneProcessing)
        else if m.CancelPressed? then SendBank(s, CancelWithdrawal(s.account, s.withdrawalAmount)).(state := DoneProcessing)
        else Drop(s, m)
      case ProcessBalance =>
        if m.Balance? then s.(shown := s.shown + [m.amount], state := WaitForAction)
        else if m.CancelPressed? then s.(state := DoneProcessing)
        else Drop(s, m)
      case DoneProcessing => Drop(s, m)
      case Stopped => s
  }

  function Drop(s: System, m: AtmMsg): System {
    if m.WithdrawOk? then s.(dropped := s.dropped + m.granted) else s
  }

  /** One call of the state function of the ATM: done_processing ejects the card, the others take a message. */
  function AtmStep(s: System): System {
    if s.state == Stopped then s
    else if s.state == DoneProcessing then s.(state := WaitingForCard)
    else if s.incoming == [] then s
    else Handle(s.(incoming := s.incoming[1..]), s.incoming[0])
  }

  /** One handler of the bank. */
  function BankStep(s: System): System {
    if !s.open || s.bank == [] then s
    else
      var s1 := s.(bank := s.bank[1..]);
      match s.bank[0]
      case VerifyPin(_, pin) => SendAtm(s1, if pin == "1937" then PinVerified else PinIncorrect)
      case Withdraw(_, amount) =>
        if s1.balance >= amount then SendAtm(s1, WithdrawOk(amount)).(balance := s1.balance - amount)
        else SendAtm(s1, WithdrawDenied)
      case GetBalance(_) => SendAtm(s1, Balance(s1.balance))
      case WithdrawalProcessed(_, _) => s1
      case CancelWithdrawal(_, _) => s1
      case CloseBank => s1.(open := false)
  }

  /** Keys, card and shutdown; the replies of the bank come from the bank alone. */
  predicate FromKeyboard(m: AtmMsg) {
    !m.WithdrawOk? && !m.WithdrawDenied? && !m.Balance? && !m.PinVerified? && !m.PinIncorrect?
  }

  datatype Event = Press(m: AtmMsg) | CloseTheBank | AtmRuns | BankRuns

  function Step(s: System, e: Event): System {
    match e
    case Press(m) => if FromKeyboard(m) then SendAtm(s, m) else s
    case CloseTheBank => SendBank(s, CloseBank)
    case AtmRuns => AtmStep(s)
    case BankRuns => BankStep(s)
  }

  function Run(s: System, events: seq<Event>): System
    decreases |events|
  {
    if events == [] then s else Run(Step(s, events[0]), events[1..])
  }

  // ---- Conservation of money ----

  function Sum(l: seq<nat>): nat {
    if l == [] then 0 else Sum(l[..|l| - 1]) + l[|l| - 1]
  }

  /** What the granted withdrawals still in the queue stand for. */
  function Owed(q: seq<AtmMsg>): nat {
    if q == [] then 0 else (if q[0].WithdrawOk? then q[0].granted else 0) + Owed(q[1..])
  }

  /** Cash issued, withdrawals granted and not handled, and the balance: nothing is made or lost. */
  predicate Conserved(s: System) {
    Sum(s.cash) + Owed(s.incoming) + s.dropped + s.balance == START
  }

  /** The keyboard asks for these amounts only. */
  predicate Asks(events: seq<Event>, amounts: set<nat>) {
    forall i | 0 <= i < |events| && events[i].Press? && events[i].m.WithdrawPressed? :: events[i].m.amount in amounts
  }

  /** No two amounts can be confused: one amount only, or none that the bank can grant. */
  predicate Unconfused(amounts: set<nat>) {
    forall a, b | a in amounts && b in amounts && a <= START :: b == a
  }

  ghost predicate Amounts(s: System, amounts: set<nat>) {
    && (forall i | 0 <= i < |s.incoming| && s.incoming[i].WithdrawPressed? :: s.incoming[i].amount in amounts)
    && (forall i | 0 <= i < |s.incoming| && s.incoming[i].WithdrawOk? :: s.incoming[i].granted in amounts && s.incoming[i].granted <= START)
    && (forall i | 0 <= i < |s.bank| && s.bank[i].Withdraw? :: s.bank[i].amount in amounts)
    && (s.state == ProcessWithdrawal ==> s.withdrawalAmount in amounts)
    && s.balance <= START
  }

  lemma {:induction false} OwedAppend(q: seq<AtmMsg>, m: AtmMsg)
    ensures Owed(q + [m]) == Owed(q) + if m.WithdrawOk? then m.granted else 0
  {
    if q == [] {
      assert [] + [m] == [m] && [m][1..] == [];
    } else {
      OwedAppend(q[1..], m);
      assert (q + [m])[0] == q[0] && (q + [m])[1..] == q[1..] + [m];
    }
  }

  lemma {:induction false} StepConserves(s: System, e: Event, amounts: set<nat>)
    requires Unconfused(amounts) && Amounts(s, amounts) && Conserved(s)
    requires e.Press? && e.m.WithdrawPressed? ==> e.m.amount in amounts
    ensures Amounts(Step(s, e), amounts) && Conserved(Step(s, e))
  {
    match e
    case Press(m) => OwedAppend(s.incoming, m);
    case CloseTheBank =>
    case AtmRuns => AtmConserves(s, amounts);
    case BankRuns => BankConserves(s, amounts);
  }

  lemma {:induction false} AtmConserves(s: System, amounts: set<nat>)
    requires Unconfused(amounts) && Amounts(s, amounts) && Conserved(s)
    ensures Amounts(AtmStep(s), amounts) && Conserved(AtmStep(s))
  {
    hide Handle;
    if s.state != Stopped && s.state != DoneProcessing && s.incoming != [] {
      HandleConserves(s.(incoming := s.incoming[1..]), s.incoming[0], amounts);
    }
  }

  lemma {:induction false} HandleConserves(s: System, m: AtmMsg, amounts: set<nat>)
    requires Unconfused(amounts) && Amounts(s, amounts)
    requires m.WithdrawOk? ==> m.granted in amounts && m.granted <= START
    requires m.WithdrawPressed? ==> m.amount in amounts
    requires Sum(s.cash) + (if m.WithdrawOk? then m.granted else 0) + Owed(s.incoming) + s.dropped + s.balance == START
    requires s.state != Stopped && s.state != DoneProcessing
    ensures Amounts(Handle(s, m), amounts) && Conserved(Handle(s, m))
  {
    var s' := Handle(s, m);
    if s.state == ProcessWithdrawal && m.WithdrawOk? {
      assert m.granted == s.withdrawalAmount;
      assert (s.cash + [m.granted])[..|s.cash|] == s.cash;
    } else {
      hide Owed, Sum;
      assert s'.cash == s.cash && s'.incoming == s.incoming;
    }
  }

  lemma {:induction false} BankConserves(s: System, amounts: set<nat>)
    requires Unconfused(amounts) && Amounts(s, amounts) && Conserved(s)
    ensures Amounts(BankStep(s), amounts) && Conserved(BankStep(s))
  {
    if s.open && s.bank != [] {
      var m := s.bank[0];
      if m.Withdraw? {
        OwedAppend(s.incoming, if s.balance >= m.amount then WithdrawOk(m.amount) else WithdrawDenied);
      } else if m.VerifyPin? {
        OwedAppend(s.incoming, if m.pin == "1937" then PinVerified else PinIncorrect);
      } else if m.GetBalance? {
        OwedAppend(s.incoming, Balance(s.balance));
      }
      hide Owed, Sum;
    }
  }

  lemma {:induction false} RunConserves(s: System, events: seq<Event>, amounts: set<nat>)
    requires Unconfused(amounts) && Amounts(s, amounts) && Conserved(s) && Asks(events, amounts)
    ensures Conserved(Run(s, events))
    decreases |events|
  {
    if events != [] {
      StepConserves(s, events[0], amounts);
      RunConserves(Step(s, events[0]), events[1..], amounts);
    }
  }

  // ---- Two amounts can be confused ----

  lemma {:induction false} RunAppend(s: System, a: seq<Event>, b: seq<Event>)
    ensures Run(s, a + b) == Run(Run(s, a), b)
    decreases |a|
  {
    if a == [] {
      assert a + b == b;
    } else {
      RunAppend(Step(s, a[0]), a[1..], b);
      assert (a + b)[0] == a[0] && (a + b)[1..] == a[1..] + b;
    }
  }

  /** A key, which the ATM handles at once. */
  function Key(m: AtmMsg): seq<Event> { [Press(m), AtmRuns] }

  lemma {:induction false} KeyRuns(s: System, m: AtmMsg)
    requires s.incoming == [] && FromKeyboard(m) && s.state != Stopped && s.state != DoneProcessing
    ensures Run(s, Key(m)) == Handle(s, m)
  {
    var s1 := SendAtm(s, m);
    assert s1.incoming == [m] && s1.incoming[1..] == [];
    assert Run(s, Key(m)) == Run(s1, [AtmRuns]) by { assert Key(m)[1..] == [AtmRuns]; }
    assert Run(s1, [AtmRuns]) == Run(AtmStep(s1), []) by { assert [AtmRuns][1..] == []; }
    assert s1.(incoming := []) == s;
  }

  /** Insert the card and enter the right PIN. */
  function Login(): seq<Event> {
    Key(CardInserted("")) + (Key(DigitPressed('1')) + (Key(DigitPressed('9')) + (Key(DigitPressed('3')) + Key(DigitPressed('7')))))
  }

  lemma {:induction false} LoginRuns(s: System)
    requires s.state == WaitingForCard && s.incoming == []
    ensures Run(s, Login()) == s.(account := "", pin := "1937", bank := s.bank + [VerifyPin("", "1937")], state := VerifyingPin)
  {
    var c, d1, d2, d3, d4 := CardInserted(""), DigitPressed('1'), DigitPressed('9'), DigitPressed('3'), DigitPressed('7');
    var s1 := s.(account := "", pin := "", state := GettingPin);
    var s2, s3, s4 := s1.(pin := "1"), s1.(pin := "19"), s1.(pin := "193");
    hide Run, Key;
    RunAppend(s, Key(c), Key(d1) + (Key(d2) + (Key(d3) + Key(d4))));
    KeyRuns(s, c);
    RunAppend(s1, Key(d1), Key(d2) + (Key(d3) + Key(d4)));
    KeyRuns(s1, d1);
    assert "" + ['1'] == "1" && "1" + ['9'] == "19" && "19" + ['3'] == "193" && "193" + ['7'] == "1937";
    RunAppend(s2, Key(d2), Key(d3) + Key(d4));
    KeyRuns(s2, d2);
    RunAppend(s3, Key(d3), Key(d4));
    KeyRuns(s3, d3);
    KeyRuns(s4, d4);
  }

  /** Cancel, and the ATM waits for a card again. */
  function Cancel(): seq<Event> { Key(CancelPressed) + [AtmRuns] }

  lemma CancelRuns(s: System)
    requires s.incoming == [] && (s.state == VerifyingPin || s.state == ProcessWithdrawal)
    ensures Run(s, Cancel()) == Handle(s, CancelPressed).(state := WaitingForCard)
  {
  }

  /** The bank handles one message and the ATM handles the reply. */
  function Reply(): seq<Event> { [BankRuns, AtmRuns] }

  lemma ReplyRuns(s: System, m: AtmMsg)
    requires s.incoming == [] && s.open && s.bank != [] && s.state != Stopped && s.state != DoneProcessing
    requires BankStep(s).incoming == [m]
    ensures Run(s, Reply()) == Handle(BankStep(s).(incoming := []), m)
  {
  }

  /** A cancelled PIN check, whose answer lets the next card in early, and a withdrawal of `a`. */
  function First(a: nat): seq<Event> {
    Login() + (Cancel() + (Login() + (Reply() + Key(WithdrawPressed(a)))))
  }

  /** The withdrawal is cancelled; another card is let in by the second answer; a withdrawal of `b` is served by the
      answer for `a`. */
  function Second(b: nat): seq<Event> {
    Cancel() + (Login() + (Reply() + (Key(WithdrawPressed(b)) + Reply())))
  }

  function Confusion(a: nat, b: nat): seq<Event> { First(a) + Second(b) }

  const CHECK := VerifyPin("", "1937")

  function Halfway(a: nat): System {
    System(ProcessWithdrawal, "", a, "1937", [], [CHECK, Withdraw("", a)], true, START, [], [], 0)
  }

  lemma {:induction false} FirstRuns(a: nat, amount: nat)
    ensures Run(Init(amount), First(a)) == Halfway(a)
  {
    hide Run, Login, Cancel, Reply, Key;
    var s0 := Init(amount);
    var e4 := Reply() + Key(WithdrawPressed(a));
    var e3 := Login() + e4;
    RunAppend(s0, Login(), Cancel() + e3);
    LoginRuns(s0);
    var s1 := s0.(pin := "1937", bank := [CHECK], state := VerifyingPin);
    assert [] + [CHECK] == [CHECK];
    RunAppend(s1, Cancel(), e3);
    CancelRuns(s1);
    var s2 := s1.(state := WaitingForCard);
    RunAppend(s2, Login(), e4);
    LoginRuns(s2);
    var s3 := s2.(bank := [CHECK, CHECK], state := VerifyingPin);
    assert [CHECK] + [CHECK] == [CHECK, CHECK];
    RunAppend(s3, Reply(), Key(WithdrawPressed(a)));
    assert [CHECK, CHECK][1..] == [CHECK] && [] + [PinVerified] == [PinVerified];
    ReplyRuns(s3, PinVerified);
    var s4 := s3.(bank := [CHECK], state := WaitForAction);
    assert Run(s3, Reply()) == s4;
    KeyRuns(s4, WithdrawPressed(a));
    assert [CHECK] + [Withdraw("", a)] == [CHECK, Withdraw("", a)];
  }

  lemma {:induction false} SecondRuns(a: nat, b: nat)
    requires a <= START
    ensures var s := Run(Halfway(a), Second(b));
      s.cash == [b] && s.incoming == [] && s.dropped == 0 && s.balance == START - a
  {
    hide Run, Login, Cancel, Reply, Key;
    var wa, ca, wb := Withdraw("", a), CancelWithdrawal("", a), Withdraw("", b);
    var e9 := Key(WithdrawPressed(b)) + Reply();
    var e8 := Reply() + e9;
    var s5 := Halfway(a);
    RunAppend(s5, Cancel(), Login() + e8);
    CancelRuns(s5);
    var s6 := s5.(bank := [CHECK, wa, ca], state := WaitingForCard);
    assert [CHECK, wa] + [ca] == [CHECK, wa, ca];
    RunAppend(s6, Login(), e8);
    LoginRuns(s6);
    var s7 := s6.(bank := [CHECK, wa, ca, CHECK], state := VerifyingPin);
    assert [CHECK, wa, ca] + [CHECK] == [CHECK, wa, ca, CHECK];
    RunAppend(s7, Reply(), e9);
    assert [CHECK, wa, ca, CHECK][1..] == [wa, ca, CHECK];
    assert [] + [PinVerified] == [PinVerified];
    ReplyRuns(s7, PinVerified);
    var s8 := s7.(bank := [wa, ca, CHECK], state := WaitForAction);
    assert Run(s7, Reply()) == s8;
    RunAppend(s8, Key(WithdrawPressed(b)), Reply());
    KeyRuns(s8, WithdrawPressed(b));
    var s9 := s8.(bank := [wa, ca, CHECK, wb], withdrawalAmount := b, state := ProcessWithdrawal);
    assert [wa, ca, CHECK] + [wb] == [wa, ca, CHECK, wb];
    assert [] + [WithdrawOk(a)] == [WithdrawOk(a)];
    ReplyRuns(s9, WithdrawOk(a));
    assert [] + [b] == [b];
  }

  lemma {:induction false} ConfusionRuns(a: nat, b: nat, amount: nat)
    requires a <= START
    ensures var s := Run(Init(amount), Confusion(a, b));
      s.cash == [b] && s.incoming == [] && s.dropped == 0 && s.balance == START - a
  {
    hide Run, First, Second;
    RunAppend(Init(amount), First(a), Second(b));
    FirstRuns(a, amount);
    SecondRuns(a, b);
  }

  /** Money is conserved in every run exactly when no two of the amounts asked for can be confused. */
  lemma {:induction false} ConservedIffUnconfused(amounts: set<nat>, amount: nat)
    ensures Unconfused(amounts) <==> forall events | Asks(events, amounts) :: Conserved(Run(Init(amount), events))
  {
    if Unconfused(amounts) {
      forall events | Asks(events, amounts)
        ensures Conserved(Run(Init(amount), events))
      {
        RunConserves(Init(amount), events, amounts);
      }
    } else {
      var a, b :| a in amounts && b in amounts && a <= START && b != a;
      ConfusionAsks(a, b, amounts);
      ConfusionRuns(a, b, amount);
      var s := Run(Init(amount), Confusion(a, b));
      assert s.cash[..0] == [] && Sum(s.cash) == b;
      assert !Conserved(s);
    }
  }

  lemma ConfusionAsks(a: nat, b: nat, amounts: set<nat>)
    requires a in amounts && b in amounts
    ensures Asks(Confusion(a, b), amounts)
  {
  }

  /** With one amount, like the 50 that the keyboard of the program asks for, every run conserves money. */
  lemma OneAmount(a: nat, amount: nat, events: seq<Event>)
    requires Asks(events, {a})
    ensures Conserved(Run(Init(amount), events))
  {
    ConservedIffUnconfused({a}, amount);
  }
}
