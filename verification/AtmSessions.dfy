/** What a customer gets from the ATM and the bank of concurrent/appendixc/main.cpp. */
module AtmSessions {
  import opened Atm

  // ---- The keys of one customer, each handled at once ----

  function After(pin: string, key: AtmMsg): string {
    if key.DigitPressed? then pin + [key.digit] else if pin == "" then "" else pin[..|pin| - 1]
  }

  /** Digits and corrections that make four digits with the last key and not before. */
  predicate Enters(pin: string, keys: seq<AtmMsg>)
    decreases |keys|
  {
    && keys != [] && (keys[0].DigitPressed? || keys[0] == ClearLastPressed)
    && if |After(pin, keys[0])| == 4 then |keys| == 1 else Enters(After(pin, keys[0]), keys[1..])
  }

  function Typed(pin: string, keys: seq<AtmMsg>): string
    decreases |keys|
  {
    if keys == [] then pin else Typed(After(pin, keys[0]), keys[1..])
  }

  function Keys(keys: seq<AtmMsg>): seq<Event> {
    if keys == [] then [] else Key(keys[0]) + Keys(keys[1..])
  }

  lemma {:induction false} KeysRun(s: System, keys: seq<AtmMsg>)
    requires s.state == GettingPin && s.incoming == [] && |s.pin| < 4 && Enters(s.pin, keys)
    ensures var pin := Typed(s.pin, keys);
      Run(s, Keys(keys)) == s.(pin := pin, bank := s.bank + [VerifyPin(s.account, pin)], state := VerifyingPin)
    decreases |keys|
  {
    hide Run, Key;
    var s1 := Handle(s, keys[0]);
    RunAppend(s, Key(keys[0]), Keys(keys[1..]));
    KeyRuns(s, keys[0]);
    if |After(s.pin, keys[0])| == 4 {
      assert keys[1..] == [];
      NoEvents(s1);
    } else {
      assert s1 == s.(pin := After(s.pin, keys[0]));
      KeysRun(s1, keys[1..]);
    }
  }

  lemma NoEvents(s: System)
    ensures Run(s, []) == s
  {
  }

  /** Card, PIN, and the answer of the bank. */
  function EnterCard(account: string, keys: seq<AtmMsg>): seq<Event> { Key(CardInserted(account)) + (Keys(keys) + Reply()) }

  /** Both actors have nothing to do, and the next customer can come. */
  predicate Ready(s: System) { s.state == WaitingForCard && s.incoming == [] && s.bank == [] && s.open }

  lemma {:induction false} CardRuns(s: System, account: string, keys: seq<AtmMsg>)
    requires Ready(s) && Enters("", keys)
    ensures var pin := Typed("", keys);
      Run(s, EnterCard(account, keys))
      == s.(account := account, pin := pin, state := if pin == "1937" then WaitForAction else DoneProcessing)
  {
    hide Run, Key, Reply, Keys, Enters;
    var s1 := s.(account := account, pin := "", state := GettingPin);
    RunAppend(s, Key(CardInserted(account)), Keys(keys) + Reply());
    KeyRuns(s, CardInserted(account));
    RunAppend(s1, Keys(keys), Reply());
    KeysRun(s1, keys);
    var pin := Typed("", keys);
    var check := VerifyPin(account, pin);
    var s2 := s1.(pin := pin, bank := [check], state := VerifyingPin);
    assert [] + [check] == [check] && [check][1..] == [];
    var answer := if pin == "1937" then PinVerified else PinIncorrect;
    assert [] + [answer] == [answer];
    ReplyRuns(s2, answer);
  }

  /** Ask for money; then the card is ejected and the bank takes note. */
  function Ask(amount: nat): seq<Event> { Key(WithdrawPressed(amount)) + (Reply() + [AtmRuns, BankRuns]) }

  function Session(account: string, keys: seq<AtmMsg>, amount: nat): seq<Event> {
    EnterCard(account, keys) + Ask(amount)
  }

  lemma {:induction false} AskRuns(s: System, amount: nat)
    requires s.state == WaitForAction && s.incoming == [] && s.bank == [] && s.open
    ensures var s' := Run(s, Ask(amount));
      && Ready(s') && s'.dropped == s.dropped && s'.shown == s.shown
      && if amount <= s.balance then s'.cash == s.cash + [amount] && s'.balance == s.balance - amount
         else s'.cash == s.cash && s'.balance == s.balance
  {
    hide Run, Key, Reply;
    var want := Withdraw(s.account, amount);
    RunAppend(s, Key(WithdrawPressed(amount)), Reply() + [AtmRuns, BankRuns]);
    KeyRuns(s, WithdrawPressed(amount));
    assert [] + [want] == [want] && [want][1..] == [];
    var s1 := s.(withdrawalAmount := amount, bank := [want], state := ProcessWithdrawal);
    RunAppend(s1, Reply(), [AtmRuns, BankRuns]);
    var answer := if amount <= s.balance then WithdrawOk(amount) else WithdrawDenied;
    assert [] + [answer] == [answer];
    ReplyRuns(s1, answer);
    var s2 := Run(s1, Reply());
    var note := WithdrawalProcessed(s.account, amount);
    assert [] + [note] == [note] && [note][1..] == [];
    TwoRun(s2);
  }

  lemma TwoRun(s: System)
    ensures Run(s, [AtmRuns, BankRuns]) == BankStep(AtmStep(s))
  {
    assert [AtmRuns, BankRuns][1..] == [BankRuns] && [BankRuns][1..] == [];
  }

  /** Without the right PIN the ATM only ejects the card. */
  lemma {:induction false} AskInVain(s: System, amount: nat)
    requires s.state == DoneProcessing && s.incoming == [] && s.bank == [] && s.open
    ensures Run(s, Ask(amount)) == s.(state := WaitingForCard)
  {
    var m := WithdrawPressed(amount);
    assert [] + [m] == [m] && [m][1..] == [];
    var s1 := s.(state := WaitingForCard, incoming := [m]);
    assert Ask(amount) == [Press(m), AtmRuns, BankRuns, AtmRuns, AtmRuns, BankRuns];
    hide Run;
    RunAppend(s, [Press(m), AtmRuns], [BankRuns, AtmRuns] + [AtmRuns, BankRuns]);
    RunAppend(s1, [BankRuns, AtmRuns], [AtmRuns, BankRuns]);
  }

  /** One customer: the amount is paid and deducted if the PIN is right and the balance covers it; nothing else changes. */
  lemma {:induction false} SessionRuns(s: System, account: string, keys: seq<AtmMsg>, amount: nat)
    requires Ready(s) && Enters("", keys)
    ensures var s' := Run(s, Session(account, keys, amount));
      && Ready(s') && s'.dropped == s.dropped && s'.shown == s.shown
      && if Typed("", keys) == "1937" && amount <= s.balance
         then s'.cash == s.cash + [amount] && s'.balance == s.balance - amount
         else s'.cash == s.cash && s'.balance == s.balance
  {
    hide Run, EnterCard, Ask, Typed, Enters;
    RunAppend(s, EnterCard(account, keys), Ask(amount));
    CardRuns(s, account, keys);
    var s1 := Run(s, EnterCard(account, keys));
    if Typed("", keys) == "1937" {
      AskRuns(s1, amount);
    } else {
      AskInVain(s1, amount);
    }
  }

  datatype Customer = Customer(account: string, keys: seq<AtmMsg>, amount: nat)

  function Day(customers: seq<Customer>): seq<Event> {
    if customers == [] then []
    else Session(customers[0].account, customers[0].keys, customers[0].amount) + Day(customers[1..])
  }

  /** The amounts paid out to those with the right PIN for as long as the balance covers them. */
  function Paid(customers: seq<Customer>, balance: nat): seq<nat> {
    if customers == [] then []
    else if Typed("", customers[0].keys) == "1937" && customers[0].amount <= balance then
      [customers[0].amount] + Paid(customers[1..], balance - customers[0].amount)
    else Paid(customers[1..], balance)
  }

  /** Any number of customers, one after the other. */
  lemma {:induction false} DayRuns(s: System, customers: seq<Customer>)
    requires Ready(s) && forall i | 0 <= i < |customers| :: Enters("", customers[i].keys)
    ensures var s' := Run(s, Day(customers)); Ready(s') && s'.cash == s.cash + Paid(customers, s.balance)
    decreases |customers|
  {
    hide Run, Session, Enters, Typed;
    if customers == [] {
      NoEvents(s);
    } else {
      var c := customers[0];
      RunAppend(s, Session(c.account, c.keys, c.amount), Day(customers[1..]));
      SessionRuns(s, c.account, c.keys, c.amount);
      DayRuns(Run(s, Session(c.account, c.keys, c.amount)), customers[1..]);
    }
  }

  /** Ask for the balance: it is shown, and the ATM waits for the next wish. */
  lemma {:induction false} BalanceShown(s: System)
    requires s.state == WaitForAction && s.incoming == [] && s.bank == [] && s.open
    ensures Run(s, Key(BalancePressed) + Reply()) == s.(shown := s.shown + [s.balance])
  {
    hide Run, Key, Reply;
    var ask := GetBalance(s.account);
    RunAppend(s, Key(BalancePressed), Reply());
    KeyRuns(s, BalancePressed);
    assert [] + [ask] == [ask] && [ask][1..] == [];
    var s1 := s.(bank := [ask], state := ProcessBalance);
    assert [] + [Balance(s.balance)] == [Balance(s.balance)];
    ReplyRuns(s1, Balance(s.balance));
  }

  /** Cancelling at any point before the money gives the card back and moves no money; the bank hears of a withdrawal. */
  lemma {:induction false} CancelEnds(s: System)
    requires s.incoming == []
    requires s.state in {GettingPin, VerifyingPin, WaitForAction, ProcessWithdrawal, ProcessBalance}
    ensures Run(s, Cancel()) == s.(state := WaitingForCard, bank :=
              if s.state == ProcessWithdrawal then s.bank + [CancelWithdrawal(s.account, s.withdrawalAmount)] else s.bank)
  {
    hide Run;
    RunAppend(s, Key(CancelPressed), [AtmRuns]);
    KeyRuns(s, CancelPressed);
    OneRun(Handle(s, CancelPressed));
  }

  lemma OneRun(s: System)
    ensures Run(s, [AtmRuns]) == AtmStep(s)
  {
    assert [AtmRuns][1..] == [];
  }

  // ---- Closing ----

  /** An ATM that takes close_queue stops, and nothing it could do happens any more. */
  lemma {:induction false} StopsForGood(s: System, events: seq<Event>)
    requires s.state == Stopped
    ensures var s' := Run(s, events); s'.state == Stopped && s'.cash == s.cash && s'.shown == s.shown && s'.dropped == s.dropped
    decreases |events|
  {
    if events != [] {
      StopsForGood(Step(s, events[0]), events[1..]);
    }
  }

  lemma CloseStops(s: System)
    requires s.state != Stopped && s.state != DoneProcessing && s.incoming != [] && s.incoming[0] == CloseQueue
    ensures AtmStep(s) == s.(incoming := s.incoming[1..], state := Stopped)
  {
  }

  /** A bank that has closed keeps its balance and answers nothing. */
  lemma {:induction false} BankStaysClosed(s: System, events: seq<Event>)
    requires !s.open
    ensures !Run(s, events).open && Run(s, events).balance == s.balance
    decreases |events|
  {
    if events != [] {
      BankStaysClosed(Step(s, events[0]), events[1..]);
    }
  }

  lemma BankCloses(s: System)
    requires s.open && s.bank != [] && s.bank[0] == CloseBank
    ensures BankStep(s) == s.(bank := s.bank[1..], open := false)
  {
  }

  // ---- What the bank grants, in any run ----

  /** The amounts of the withdrawals that the bank handles in a run, in order. */
  function Wanted(s: System, events: seq<Event>): seq<nat>
    decreases |events|
  {
    if events == [] then []
    else
      (if events[0] == BankRuns && s.open && s.bank != [] && s.bank[0].Withdraw? then [s.bank[0].amount] else [])
      + Wanted(Step(s, events[0]), events[1..])
  }

  /** What is left when every amount is granted that the balance covers. */
  function LeftOver(balance: nat, amounts: seq<nat>): nat {
    if amounts == [] then balance
    else LeftOver(if amounts[0] <= balance then balance - amounts[0] else balance, amounts[1..])
  }

  /** In every interleaving, the bank grants a withdrawal exactly when the balance of the moment covers it. */
  lemma {:induction false} BankGrants(s: System, events: seq<Event>)
    ensures Run(s, events).balance == LeftOver(s.balance, Wanted(s, events))
    decreases |events|
  {
    if events != [] {
      var s1, rest := Step(s, events[0]), Wanted(Step(s, events[0]), events[1..]);
      BankGrants(s1, events[1..]);
      BankBalance(s, events[0]);
      hide Run, Step;
      var first := Wanted(s, events)[..|Wanted(s, events)| - |rest|];
      assert Wanted(s, events) == first + rest;
      if first != [] {
        assert (first + rest)[1..] == rest;
      } else {
        assert first + rest == rest;
      }
    }
  }

  lemma BankBalance(s: System, e: Event)
    ensures Step(s, e).balance ==
      if e == BankRuns && s.open && s.bank != [] && s.bank[0].Withdraw? && s.bank[0].amount <= s.balance
      then s.balance - s.bank[0].amount else s.balance
  {
  }
}
