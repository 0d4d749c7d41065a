/**
 * The login, transfer, loan and close handlers of script.js as transitions of the
 * bank. Each returns the new bank and how the handler ended: it took its action,
 * declined (a guard failed; nothing changes) or threw a TypeError because
 * `currentAccount` was `undefined` (nothing changes either).
 */
module Session {
  import opened Wrappers
  import opened Movements
  import opened Accounts

  datatype Status = Accepted | Declined | Threw

  datatype Outcome = Outcome(bank: Bank, status: Status)

  /** `acc.movements.push(mov)` on the account object r. */
  function Push(b: Bank, r: Ref, mov: int): (b': Bank)
    requires WellFormed(b) && r < |b.store|
    ensures WellFormed(b')
    ensures b'.accounts == b.accounts && b'.current == b.current && |b'.store| == |b.store|
    ensures b'.store[r].movements == b.store[r].movements + [mov]
    ensures b'.store[r].(movements := b.store[r].movements) == b.store[r]
    ensures forall k :: 0 <= k < |b.store| && k != r ==> b'.store[k] == b.store[k]
  {
    var acc := b.store[r];
    b.(store := b.store[r := acc.(movements := acc.movements + [mov])])
  }

  /** Pushing a movement keeps the usernames, so it keeps the session invariant. */
  lemma PushValid(b: Bank, r: Ref, mov: int)
    requires Valid(b) && r < |b.store|
    ensures Valid(Push(b, r, mov))
  {
    var b' := Push(b, r, mov);
    assert forall k :: 0 <= k < |b.accounts| ==> UsernameAt(b', k) == UsernameAt(b, k);
  }

  // ---------------------------------------------------------------- login

  /**
   * The login handler as written, script.js:151-155: `currentAccount` is replaced by
   * the account found for the username before the pin is compared, so a failed
   * attempt still changes (or clears) the current account.
   */
  function LoginAsWritten(b: Bank, user: string, pin: int): (o: Outcome)
    requires WellFormed(b)
    ensures WellFormed(o.bank) && o.status != Threw
    ensures o.bank.store == b.store && o.bank.accounts == b.accounts
    ensures o.bank.current == Find(b, user)
    ensures o.status == Accepted <==> Find(b, user).Some? && b.store[Find(b, user).value].pin == pin
  {
    var found := Find(b, user);
    var b' := b.(current := found);
    if found.Some? && b.store[found.value].pin == pin then Outcome(b', Accepted) else Outcome(b', Declined)
  }

  /** A wrong pin for an existing username declines, yet makes that account current. */
  lemma LoginAsWrittenSwitchesOnFailure(b: Bank, user: string, pin: int)
    requires WellFormed(b)
    requires Find(b, user).Some? && b.store[Find(b, user).value].pin != pin
    ensures LoginAsWritten(b, user, pin).status == Declined
    ensures LoginAsWritten(b, user, pin).bank.current == Find(b, user)
  {
  }

  /**
   * Login, corrected: it succeeds exactly when the first listed account with that
   * username has that pin, and only then does it change the current account.
   */
  function Login(b: Bank, user: string, pin: int): (o: Outcome)
    requires WellFormed(b)
    ensures WellFormed(o.bank) && o.status != Threw
    ensures o.status == Accepted <==>
              exists k :: 0 <= k < |b.accounts| && UsernameAt(b, k) == user
                && (forall j :: 0 <= j < k ==> UsernameAt(b, j) != user)
                && b.store[b.accounts[k]].pin == pin
    ensures o.status == Accepted ==> Find(b, user).Some? && o.bank == b.(current := Find(b, user))
    ensures o.status == Declined ==> o.bank == b
    ensures (forall k :: 0 <= k < |b.accounts| ==> UsernameAt(b, k) != user) ==> o.status == Declined
  {
    var i := FindIndex(b, user);
    if i >= 0 && b.store[b.accounts[i]].pin == pin then
      Outcome(b.(current := Some(b.accounts[i])), Accepted)
    else
      assert forall k :: (0 <= k < |b.accounts| && UsernameAt(b, k) == user
               && (forall j :: 0 <= j < k ==> UsernameAt(b, j) != user)) ==> k == i;
      Outcome(b, Declined)
  }

  /** Where the corrected login succeeds, it does exactly what the script does. */
  lemma LoginAgreesOnSuccess(b: Bank, user: string, pin: int)
    requires WellFormed(b)
    ensures Login(b, user, pin).status == LoginAsWritten(b, user, pin).status
    ensures Login(b, user, pin).status == Accepted ==> Login(b, user, pin).bank == LoginAsWritten(b, user, pin).bank
  {
  }

  // ---------------------------------------------------------------- transfer

  /**
   * The transfer handler, script.js:178-189. The guard is evaluated left to right:
   * `currentAccount.balance` is only read, and only throws, once the amount is
   * positive and the receiver exists. The cached `balance` is the sum of the movements.
   */
  function Transfer(b: Bank, to: string, amount: int): (o: Outcome)
    requires WellFormed(b)
    ensures WellFormed(o.bank)
    ensures o.status == Threw <==> amount > 0 && Find(b, to).Some? && b.current.None?
    ensures o.status == Accepted <==>
              && amount > 0 && Find(b, to).Some? && b.current.Some?
              && Balance(b.store[b.current.value].movements) >= amount
              && b.current.value != Find(b, to).value
    ensures o.status != Accepted ==> o.bank == b
    ensures o.status == Accepted ==>
              var sender, receiver := b.current.value, Find(b, to).value;
              && o.bank.accounts == b.accounts && o.bank.current == b.current
              && |o.bank.store| == |b.store|
              && o.bank.store[sender].movements == b.store[sender].movements + [-amount]
              && o.bank.store[receiver].movements == b.store[receiver].movements + [amount]
              && o.bank.store[sender].(movements := b.store[sender].movements) == b.store[sender]
              && o.bank.store[receiver].(movements := b.store[receiver].movements) == b.store[receiver]
              && forall k :: 0 <= k < |b.store| && k != sender && k != receiver ==> o.bank.store[k] == b.store[k]
  {
    var receiver := Find(b, to);
    if !(amount > 0 && receiver.Some?) then Outcome(b, Declined)
    else if b.current.None? then Outcome(b, Threw)
    else
      var sender := b.current.value;
      if Balance(b.store[sender].movements) >= amount && sender != receiver.value then
        Outcome(Push(Push(b, sender, -amount), receiver.value, amount), Accepted)
      else Outcome(b, Declined)
  }

  /**
   * A transfer moves exactly the amount: the sender's balance drops by it, the
   * receiver's grows by it, and the total over all listed accounts is unchanged.
   */
  lemma TransferConserves(b: Bank, to: string, amount: int)
    requires Valid(b) && Transfer(b, to, amount).status == Accepted
    ensures var b', sender, receiver := Transfer(b, to, amount).bank, b.current.value, Find(b, to).value;
            && Balance(b'.store[sender].movements) == Balance(b.store[sender].movements) - amount
            && Balance(b'.store[receiver].movements) == Balance(b.store[receiver].movements) + amount
            && Total(b'.store, b'.accounts) == Total(b.store, b.accounts)
  {
    var sender, receiver := b.current.value, Find(b, to).value;
    TransferPushes(b, to, amount);
    var b1 := Push(b, sender, -amount);
    var b2 := Push(b1, receiver, amount);
    PushCredits(b, sender, -amount);
    assert b1.store[receiver] == b.store[receiver];
    PushCredits(b1, receiver, amount);
    assert b2.store[sender] == b1.store[sender];
  }

  /** An accepted transfer pushes onto two different listed accounts. */
  lemma TransferPushes(b: Bank, to: string, amount: int)
    requires Valid(b) && Transfer(b, to, amount).status == Accepted
    ensures var sender, receiver := b.current.value, Find(b, to).value;
            && sender in b.accounts && receiver in b.accounts && sender != receiver
            && Transfer(b, to, amount).bank == Push(Push(b, sender, -amount), receiver, amount)
  {
  }

  /** Pushing a movement onto a listed account moves its balance, and the listed total, by that movement. */
  lemma PushCredits(b: Bank, r: Ref, mov: int)
    requires Valid(b) && r in b.accounts
    ensures var b' := Push(b, r, mov);
            && Valid(b')
            && Balance(b'.store[r].movements) == Balance(b.store[r].movements) + mov
            && (forall k :: 0 <= k < |b.store| && k != r ==> b'.store[k] == b.store[k])
            && Total(b'.store, b'.accounts) == Total(b.store, b.accounts) + mov
  {
    var b' := Push(b, r, mov);
    PushValid(b, r, mov);
    BalanceAppend(b.store[r].movements, mov);
    ListedAreDistinct(b);
    TotalAfterUpdate(b.store, b.accounts, r, b'.store[r]);
    assert b'.store == b.store[r := b'.store[r]];
  }

  // ---------------------------------------------------------------- loan

  /** Some movement is at least a tenth of the amount: `mov >= amount * 0.1`, in exact arithmetic. */
  predicate HasQualifyingMovement(movs: seq<int>, amount: int)
  {
    exists mov :: mov in movs && 10 * mov >= amount
  }

  /**
   * The loan handler, script.js:202-209: a positive loan is granted when some
   * movement of the current account is at least a tenth of it.
   */
  function Loan(b: Bank, amount: int): (o: Outcome)
    requires WellFormed(b)
    ensures WellFormed(o.bank)
    ensures o.status == Threw <==> amount > 0 && b.current.None?
    ensures o.status == Accepted <==>
              && amount > 0 && b.current.Some?
              && HasQualifyingMovement(b.store[b.current.value].movements, amount)
    ensures o.status != Accepted ==> o.bank == b
    ensures o.status == Accepted ==>
              var r := b.current.value;
              && o.bank.accounts == b.accounts && o.bank.current == b.current
              && |o.bank.store| == |b.store|
              && o.bank.store[r].movements == b.store[r].movements + [amount]
              && o.bank.store[r].(movements := b.store[r].movements) == b.store[r]
              && forall k :: 0 <= k < |b.store| && k != r ==> o.bank.store[k] == b.store[k]
  {
    if amount <= 0 then Outcome(b, Declined)
    else if b.current.None? then Outcome(b, Threw)
    else if HasQualifyingMovement(b.store[b.current.value].movements, amount) then
      Outcome(Push(b, b.current.value, amount), Accepted)
    else Outcome(b, Declined)
  }

  /** A granted loan raises the borrower's balance, and the listed total, by exactly the amount. */
  lemma LoanCredits(b: Bank, amount: int)
    requires Valid(b) && Loan(b, amount).status == Accepted
    ensures var b', r := Loan(b, amount).bank, b.current.value;
            && Balance(b'.store[r].movements) == Balance(b.store[r].movements) + amount
            && Total(b'.store, b'.accounts) == Total(b.store, b.accounts) + amount
  {
    PushCredits(b, b.current.value, amount);
  }

  // ---------------------------------------------------------------- close

  /**
   * The close handler as written, script.js:220-231: with matching credentials it
   * splices out position `findIndex(username)`, even when that is -1, and leaves
   * `currentAccount` pointing at the closed account.
   */
  function CloseAsWritten(b: Bank, user: string, pin: int): (o: Outcome)
    requires WellFormed(b)
    ensures WellFormed(o.bank)
    ensures o.status == Threw <==> b.current.None?
    ensures o.status == Accepted <==>
              b.current.Some? && b.store[b.current.value].username == user && b.store[b.current.value].pin == pin
    ensures o.status != Accepted ==> o.bank == b
    ensures o.bank.store == b.store && o.bank.current == b.current
    ensures o.status == Accepted ==> o.bank.accounts == Splice1(b.accounts, FindIndex(b, user))
  {
    if b.current.None? then Outcome(b, Threw)
    else
      var acc := b.store[b.current.value];
      if acc.username == user && acc.pin == pin then
        Outcome(Splice(b, FindIndex(b, acc.username)), Accepted)
      else Outcome(b, Declined)
  }

  /**
   * When no listed account carries the current account's username (it was closed
   * already), the script's close removes the last listed account instead.
   */
  lemma CloseAsWrittenRemovesLast(b: Bank, user: string, pin: int)
    requires WellFormed(b) && b.current.Some? && b.accounts != []
    requires b.store[b.current.value].username == user && b.store[b.current.value].pin == pin
    requires forall k :: 0 <= k < |b.accounts| ==> UsernameAt(b, k) != user
    ensures CloseAsWritten(b, user, pin).status == Accepted
    ensures CloseAsWritten(b, user, pin).bank.accounts == b.accounts[..|b.accounts| - 1]
  {
  }

  /**
   * Close, corrected: with matching credentials it removes the current account from
   * the list, keeping the order of the others, and ends the session; an account that
   * is not listed is not removed, and nothing else is either.
   */
  function Close(b: Bank, user: string, pin: int): (o: Outcome)
    requires WellFormed(b)
    ensures WellFormed(o.bank)
    ensures o.status == Threw <==> b.current.None?
    ensures o.status != Accepted ==> o.bank == b
    ensures o.status == Accepted ==>
              && b.current.Some? && b.store[b.current.value].username == user && b.store[b.current.value].pin == pin
              && o.bank.store == b.store && o.bank.current == None
              && exists k :: 0 <= k < |b.accounts| && UsernameAt(b, k) == user
                   && o.bank.accounts == RemoveAt(b.accounts, k)
  {
    if b.current.None? then Outcome(b, Threw)
    else
      var acc := b.store[b.current.value];
      if acc.username == user && acc.pin == pin then
        var index := FindIndex(b, acc.username);
        if index >= 0 then
          Outcome(Delist(b, index), Accepted)
        else Outcome(b, Declined)
      else Outcome(b, Declined)
  }

  /**
   * In a valid session, matching credentials close exactly the current account:
   * one list entry, the current one, is removed, the rest keep their order.
   */
  lemma CloseRemovesCurrent(b: Bank, user: string, pin: int)
    requires Valid(b) && b.current.Some?
    requires b.store[b.current.value].username == user && b.store[b.current.value].pin == pin
    ensures Close(b, user, pin).status == Accepted
    ensures exists k :: 0 <= k < |b.accounts| && b.accounts[k] == b.current.value
              && Close(b, user, pin).bank.accounts == RemoveAt(b.accounts, k)
    ensures |Close(b, user, pin).bank.accounts| == |b.accounts| - 1
  {
    var k :| 0 <= k < |b.accounts| && b.accounts[k] == b.current.value;
    FindListed(b, k);
  }

  // ---------------------------------------------------------------- sessions

  /** Removing a listed entry keeps the remaining usernames unique. */
  lemma DelistValid(b: Bank, k: nat)
    requires Valid(b) && k < |b.accounts|
    ensures Valid(Delist(b, k))
  {
    var b' := Delist(b, k);
    forall i, j | 0 <= i < j < |b'.accounts|
      ensures UsernameAt(b', i) != UsernameAt(b', j)
    {
      var i0 := if i < k then i else i + 1;
      var j0 := if j < k then j else j + 1;
      assert UsernameAt(b', i) == UsernameAt(b, i0) && UsernameAt(b', j) == UsernameAt(b, j0);
    }
  }

  /** One click on a form button of the page, handled with the corrected login and close. */
  datatype Event =
    | LogIn(user: string, pin: int)
    | Send(to: string, amount: int)
    | Borrow(amount: int)
    | CloseAccount(user: string, pin: int)

  /** Dispatches a click; no handler creates or edits an account, movements only grow at the end. */
  function Handle(b: Bank, e: Event): (o: Outcome)
    requires WellFormed(b)
    ensures WellFormed(o.bank)
    ensures AppendOnly(b, o.bank)
  {
    match e
    case LogIn(user, pin) => Login(b, user, pin)
    case Send(to, amount) => Transfer(b, to, amount)
    case Borrow(amount) => Loan(b, amount)
    case CloseAccount(user, pin) => Close(b, user, pin)
  }

  /** A successful login makes a listed account current; a failed one changes nothing. */
  lemma LoginValid(b: Bank, user: string, pin: int)
    requires Valid(b)
    ensures Valid(Login(b, user, pin).bank)
  {
  }

  lemma TransferValid(b: Bank, to: string, amount: int)
    requires Valid(b)
    ensures Valid(Transfer(b, to, amount).bank)
  {
    if Transfer(b, to, amount).status == Accepted {
      var sender, receiver := b.current.value, Find(b, to).value;
      PushValid(b, sender, -amount);
      PushValid(Push(b, sender, -amount), receiver, amount);
    }
  }

  lemma LoanValid(b: Bank, amount: int)
    requires Valid(b)
    ensures Valid(Loan(b, amount).bank)
  {
    if Loan(b, amount).status == Accepted {
      PushValid(b, b.current.value, amount);
    }
  }

  lemma CloseValid(b: Bank, user: string, pin: int)
    requires Valid(b)
    ensures Valid(Close(b, user, pin).bank)
  {
    if Close(b, user, pin).status == Accepted {
      DelistValid(b, FindIndex(b, b.store[b.current.value].username));
    }
  }

  /** Every handler, with the corrected login and close, keeps the session invariant. */
  lemma HandleValid(b: Bank, e: Event)
    requires Valid(b)
    ensures Valid(Handle(b, e).bank)
  {
    match e
    case LogIn(user, pin) => LoginValid(b, user, pin);
    case Send(to, amount) => TransferValid(b, to, amount);
    case Borrow(amount) => LoanValid(b, amount);
    case CloseAccount(user, pin) => CloseValid(b, user, pin);
  }

  /** The bank after a sequence of clicks: accounts are never created or edited, movements only grow at the end. */
  function Run(b: Bank, events: seq<Event>): (b': Bank)
    requires WellFormed(b)
    ensures WellFormed(b')
    ensures AppendOnly(b, b')
    decreases events
  {
    if events == [] then b
    else
      var b1 := Handle(b, events[0]).bank;
      var b2 := Run(b1, events[1..]);
      AppendOnlyTransitive(b, b1, b2);
      b2
  }

  lemma {:induction false} RunValid(b: Bank, events: seq<Event>)
    requires Valid(b)
    ensures Valid(Run(b, events))
    decreases events
  {
    if events != [] {
      HandleValid(b, events[0]);
      RunValid(Handle(b, events[0]).bank, events[1..]);
    }
  }

  /**
   * With the corrected login and close, every bank reachable from the page load keeps
   * unique usernames and a listed current account; so a close always finds the
   * current account, and its `findIndex` never yields -1.
   */
  lemma ReachableValid(events: seq<Event>)
    ensures Valid(Run(Seed(), events))
  {
    SeedValid();
    RunValid(Seed(), events);
  }

  /** Accounts are never created or edited: movements only grow at the end, and nothing else changes. */
  predicate AppendOnly(b: Bank, b': Bank)
  {
    && |b'.store| == |b.store|
    && forall r :: 0 <= r < |b.store| ==>
         && b'.store[r].(movements := b.store[r].movements) == b.store[r]
         && b.store[r].movements <= b'.store[r].movements
  }

  lemma AppendOnlyTransitive(b0: Bank, b1: Bank, b2: Bank)
    requires AppendOnly(b0, b1) && AppendOnly(b1, b2)
    ensures AppendOnly(b0, b2)
  {
    forall r | 0 <= r < |b0.store|
      ensures b0.store[r].movements <= b2.store[r].movements
    {
      assert b0.store[r].movements <= b1.store[r].movements <= b2.store[r].movements;
    }
  }

  // ---------------------------------------------------------------- scenarios

  /**
   * After logging in as js, a failed login as jd with a wrong pin leaves jd's
   * account current in the script, and a loan request then credits jd's account.
   */
  lemma FailedLoginHijacksSession()
    ensures var b1 := LoginAsWritten(Seed(), "js", 1111);
            var b2 := LoginAsWritten(b1.bank, "jd", 0);
            var b3 := Loan(b2.bank, 100);
            && b1.status == Accepted && b2.status == Declined && b3.status == Accepted
            && b3.bank.store[1].movements == Seed().store[1].movements + [100]
  {
    var b0 := Seed();
    SeedValid();
    FindListed(b0, 0);
    FindListed(b0, 1);
    var b1 := LoginAsWritten(b0, "js", 1111);
    assert b1.bank == b0.(current := Some(0));
    FindIgnoresCurrent(b0, Some(0), "jd");
    var b2 := LoginAsWritten(b1.bank, "jd", 0);
    assert b2.bank == b0.(current := Some(1));
    assert b2.bank.store[1].movements[0] in b2.bank.store[1].movements;
  }

  /** With the corrected login the failed attempt changes nothing, so the loan goes to js. */
  lemma FailedLoginKeepsSession()
    ensures var b1 := Login(Seed(), "js", 1111);
            var b2 := Login(b1.bank, "jd", 0);
            var b3 := Loan(b2.bank, 100);
            && b1.status == Accepted && b2.status == Declined && b3.status == Accepted
            && b3.bank.store[0].movements == Seed().store[0].movements + [100]
            && b3.bank.store[1] == Seed().store[1]
  {
    var b0 := Seed();
    SeedValid();
    FindListed(b0, 0);
    FindListed(b0, 1);
    var b1 := Login(b0, "js", 1111);
    assert b1.bank == b0.(current := Some(0));
    FindIgnoresCurrent(b0, Some(0), "jd");
    var b2 := Login(b1.bank, "jd", 0);
    assert b2.bank == b1.bank;
    assert b2.bank.store[0].movements[1] in b2.bank.store[0].movements;
  }

  /**
   * In the script, js logs in and closes the account; the same close submitted again
   * finds no "js" (index -1) and `splice(-1, 1)` removes ss, the last account.
   */
  lemma SecondCloseRemovesLastAccount()
    ensures var b1 := LoginAsWritten(Seed(), "js", 1111);
            var b2 := CloseAsWritten(b1.bank, "js", 1111);
            var b3 := CloseAsWritten(b2.bank, "js", 1111);
            && b1.status == Accepted && b2.status == Accepted && b3.status == Accepted
            && b2.bank.accounts == [1, 2, 3]
            && b3.bank.accounts == [1, 2]
  {
    SeedLoginJonas();
    SeedCloseJonas();
    SeedCloseJonasAgain();
  }

  /** In the script, js logs in on the loaded page. */
  lemma SeedLoginJonas()
    ensures LoginAsWritten(Seed(), "js", 1111) == Outcome(Seed().(current := Some(0)), Accepted)
  {
    SeedValid();
    FindListed(Seed(), 0);
  }

  /**
   * A transfer out of a current account that is no longer listed takes the amount
   * from an account outside the total and adds it to a listed one: the total over
   * the listed accounts grows by the amount.
   */
  lemma TransferFromUnlistedCreatesMoney(b: Bank, to: string, amount: int)
    requires WellFormed(b) && Distinct(b.accounts)
    requires Transfer(b, to, amount).status == Accepted && b.current.value !in b.accounts
    ensures Total(Transfer(b, to, amount).bank.store, Transfer(b, to, amount).bank.accounts)
            == Total(b.store, b.accounts) + amount
  {
    var sender, receiver := b.current.value, Find(b, to).value;
    var b1 := Push(b, sender, -amount);
    var b2 := Push(b1, receiver, amount);
    assert Transfer(b, to, amount).bank == b2;
    TotalAfterUpdate(b.store, b.accounts, sender, b1.store[sender]);
    assert b1.store == b.store[sender := b1.store[sender]];
    assert b1.store[receiver] == b.store[receiver];
    BalanceAppend(b1.store[receiver].movements, amount);
    TotalAfterUpdate(b1.store, b.accounts, receiver, b2.store[receiver]);
    assert b2.store == b1.store[receiver := b2.store[receiver]];
  }

  /**
   * In the script, a close with matching credentials leaves the closed account
   * current but no longer listed; the remaining list stays free of repeats.
   */
  lemma CloseAsWrittenUnlistsCurrent(b: Bank, user: string, pin: int)
    requires Valid(b) && b.current.Some?
    requires b.store[b.current.value].username == user && b.store[b.current.value].pin == pin
    ensures var o := CloseAsWritten(b, user, pin);
            && o.status == Accepted && WellFormed(o.bank) && o.bank.current == b.current
            && b.current.value !in o.bank.accounts && Distinct(o.bank.accounts)
  {
    var k :| 0 <= k < |b.accounts| && b.accounts[k] == b.current.value;
    FindListed(b, k);
    ListedAreDistinct(b);
    RemoveAtDistinct(b.accounts, k);
  }

  /**
   * After the script's close, js is still current, so a transfer of 100 to jd is
   * accepted; by CloseAsWrittenUnlistsCurrent and TransferFromUnlistedCreatesMoney
   * it adds 100 to the listed accounts that no listed account lost.
   */
  lemma TransferFromClosedAccount()
    ensures Transfer(Seed().(current := Some(0), accounts := [1, 2, 3]), "jd", 100).status == Accepted
  {
  }

  /** In the script, the repeated close finds no "js" and splices out the last entry. */
  lemma SeedCloseJonasAgain()
    ensures var b2 := Seed().(current := Some(0), accounts := [1, 2, 3]);
            CloseAsWritten(b2, "js", 1111) == Outcome(b2.(accounts := [1, 2]), Accepted)
  {
    var b2 := Seed().(current := Some(0), accounts := [1, 2, 3]);
    assert forall k :: 0 <= k < |b2.accounts| ==> UsernameAt(b2, k) != "js";
    CloseAsWrittenRemovesLast(b2, "js", 1111);
  }

  /** In the script, js closes the account: entry 0 is spliced out and js stays current. */
  lemma SeedCloseJonas()
    ensures CloseAsWritten(Seed().(current := Some(0)), "js", 1111)
            == Outcome(Seed().(current := Some(0), accounts := [1, 2, 3]), Accepted)
  {
    var b1 := Seed().(current := Some(0));
    SeedValid();
    FindListed(Seed(), 0);
    FindIgnoresCurrent(Seed(), Some(0), "js");
    assert FindIndex(b1, "js") == 0;
  }

  /** With the corrected close the session ends, so the repeated close throws and removes nothing. */
  lemma SecondCloseRemovesNothing()
    ensures var b1 := Login(Seed(), "js", 1111);
            var b2 := Close(b1.bank, "js", 1111);
            var b3 := Close(b2.bank, "js", 1111);
            && b1.status == Accepted && b2.status == Accepted && b3.status == Threw
            && b3.bank.accounts == [1, 2, 3]
  {
    var b0 := Seed();
    SeedValid();
    FindListed(b0, 0);
  }
}
