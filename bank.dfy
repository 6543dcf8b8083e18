/** The Bankist ledger: the account records, the module-level `accounts`, `currentAccount`
    and `sorted` bindings, and the bodies of the login, transfer, loan, close and sort
    handlers as methods on that state. */
module Bank {
  import opened Wrappers
  import opened JsArray
  import opened Movements
  import opened Sorting
  import opened UserNames

  /** What a handler did: changed the state, was turned away by its guard, or threw a
      `TypeError` by reading a property of an undefined `currentAccount`. */
  datatype Outcome = Applied | Rejected | Crashed

  /** One account record. `movements`, `userName` and `balance` are assigned in place;
      `balance` stays `undefined` until the balance is first computed. */
  class Account {
    const owner: string
    const interestRate: real
    const pin: int
    var movements: seq<int>
    var userName: string
    var balance: Option<int>

    constructor (owner: string, movements: seq<int>, interestRate: real, pin: int)
      ensures this.owner == owner && this.movements == movements
      ensures this.interestRate == interestRate && this.pin == pin
      ensures userName == "" && balance == None
    {
      this.owner := owner;
      this.movements := movements;
      this.interestRate := interestRate;
      this.pin := pin;
      userName := "";
      balance := None;
    }

    /** `movements.push(mov)`. */
    method Push(mov: int)
      modifies this`movements
      ensures movements == old(movements) + [mov]
      ensures Sum(movements) == old(Sum(movements)) + mov
    {
      SumAppend(movements, mov);
      movements := movements + [mov];
    }

    /** The account's own invariant: its user name is derived from its owner and its cached
        balance is sound. */
    ghost predicate Sound()
      reads this`userName, this`balance, this`movements
    {
      Named() && CacheSound()
    }

    /** The cached balance never exceeds the money the movements hold. It may lag behind
        them: a transfer appends to the recipient without recomputing its balance. */
    ghost predicate CacheSound()
      reads this`balance, this`movements
    {
      balance.Some? ==> balance.value <= Sum(movements)
    }

    /** The user name is the one derived from the owner's name. */
    ghost predicate Named()
      reads this`userName
    {
      userName == UserName(owner)
    }
  }

  /** `calcDisplayBalance(acc)`: the cached balance becomes the sum of the movements. */
  method CalcDisplayBalance(acc: Account)
    modifies acc`balance
    ensures acc.balance == Some(Sum(acc.movements))
    ensures acc.CacheSound()
  {
    acc.balance := Some(Sum(acc.movements));
  }

  /** The effect of an accepted loan: `amount` pushed onto the account and its balance
      recomputed. Over the accounts `accs`, the total grows by `amount` when the account is
      listed and stays as it was when it is not. */
  method Credit(acc: Account, amount: int, ghost accs: seq<Account>)
    requires Distinct(accs) && acc.Sound()
    modifies acc`movements, acc`balance
    ensures acc.Sound()
    ensures acc.movements == old(acc.movements) + [amount]
    ensures acc.balance == Some(Sum(acc.movements))
    ensures Sum(acc.movements) == old(Sum(acc.movements)) + amount
    ensures Total(LedgerOf(accs)) == old(Total(LedgerOf(accs))) + (if acc in accs then amount else 0)
  {
    ghost var before := LedgerOf(accs);
    acc.Push(amount);
    CalcDisplayBalance(acc);
    if acc in accs {
      LedgerAfterAppend(before, accs, acc, amount);
    } else {
      assert LedgerOf(accs) == before;
    }
  }

  /** The effect of an accepted transfer: `-amount` pushed onto the sender, `amount` onto the
      recipient, and the sender's balance recomputed. The sender's cached balance covered
      the amount, so its movements still hold a non-negative sum. */
  method MoveMoney(sender: Account, recipient: Account, amount: int)
    requires sender != recipient && amount > 0 && Covers(sender.balance, amount)
    requires sender.Sound() && recipient.Sound()
    modifies sender`movements, sender`balance, recipient`movements
    ensures sender.movements == old(sender.movements) + [-amount]
    ensures recipient.movements == old(recipient.movements) + [amount]
    ensures sender.balance == Some(Sum(sender.movements))
    ensures Sum(sender.movements) >= 0
    ensures sender.Sound() && recipient.Sound()
  {
    sender.Push(-amount);
    recipient.Push(amount);
    CalcDisplayBalance(sender);
  }

  /** `createUserNames(accs)`: every account gets the user name derived from its owner. */
  method CreateUserNames(accs: seq<Account>)
    modifies accs`userName
    ensures forall k :: 0 <= k < |accs| ==> accs[k].userName == UserName(accs[k].owner)
    ensures forall a :: a in accs ==> a.Named()
    ensures forall a :: a in accs ==> a.movements == old(a.movements) && a.balance == old(a.balance)
  {
    for i := 0 to |accs|
      invariant forall k :: 0 <= k < i ==> accs[k].userName == UserName(accs[k].owner)
      invariant forall a :: a in accs ==> a.movements == old(a.movements) && a.balance == old(a.balance)
    {
      accs[i].userName := UserName(accs[i].owner);
    }
  }

  /** The user names of `accs`, in order: what `find` and `findIndex` compare against. */
  function UserNamesOf(accs: seq<Account>): (r: seq<string>)
    reads accs`userName
    ensures |r| == |accs|
    ensures forall k :: 0 <= k < |accs| ==> r[k] == accs[k].userName
  {
    if accs == [] then [] else UserNamesOf(accs[..|accs| - 1]) + [accs[|accs| - 1].userName]
  }

  /** `accs.find(acc => acc.userName === name)`: the first account carrying `name`, or
      `undefined` (null) when none does. */
  function Find(accs: seq<Account>, name: string): (r: Account?)
    reads accs`userName
    ensures r == null <==> forall k :: 0 <= k < |accs| ==> accs[k].userName != name
    ensures r != null ==>
              exists i :: 0 <= i < |accs| && accs[i] == r && r.userName == name &&
                          forall k :: 0 <= k < i ==> accs[k].userName != name
  {
    var names := UserNamesOf(accs);
    var i := FindIndex(names, name);
    if i == -1 then
      assert forall k :: 0 <= k < |accs| ==> names[k] == accs[k].userName;
      null
    else accs[i]
  }

  /** The movements of every account, in order. */
  ghost function LedgerOf(accs: seq<Account>): (r: seq<seq<int>>)
    reads accs`movements
    ensures |r| == |accs|
    ensures forall k :: 0 <= k < |accs| ==> r[k] == accs[k].movements
  {
    if accs == [] then [] else LedgerOf(accs[..|accs| - 1]) + [accs[|accs| - 1].movements]
  }

  /** When, against the ledger `before`, a listed account `acc` of a repetition-free `accs`
      gained the movement `mov` and every other listed account kept its movements, the
      accounts' total grew by `mov`. */
  lemma LedgerAfterAppend(before: seq<seq<int>>, accs: seq<Account>, acc: Account, mov: int)
    requires Distinct(accs) && acc in accs && |before| == |accs|
    requires forall k :: 0 <= k < |accs| && accs[k] == acc ==> accs[k].movements == before[k] + [mov]
    requires forall k :: 0 <= k < |accs| && accs[k] != acc ==> accs[k].movements == before[k]
    ensures Total(LedgerOf(accs)) == Total(before) + mov
  {
    var after := LedgerOf(accs);
    var i :| 0 <= i < |accs| && accs[i] == acc;
    forall k | 0 <= k < |accs| && k != i
      ensures after[k] == before[k]
    {
      assert accs[k] != acc;
    }
    TotalAfterAppend(before, after, i, mov);
  }

  /** When, against the ledger `before`, `sender` gained `-amount`, a different, listed
      `recipient` gained `amount` and every other listed account kept its movements, the
      accounts' total is unchanged if the sender is listed too, and grew by `amount` if not. */
  lemma LedgerAfterTransfer(before: seq<seq<int>>, accs: seq<Account>, sender: Account, recipient: Account, amount: int)
    requires Distinct(accs) && recipient in accs && sender != recipient && |before| == |accs|
    requires forall k :: 0 <= k < |accs| && accs[k] == sender ==> accs[k].movements == before[k] + [-amount]
    requires forall k :: 0 <= k < |accs| && accs[k] == recipient ==> accs[k].movements == before[k] + [amount]
    requires forall k :: 0 <= k < |accs| && accs[k] != sender && accs[k] != recipient ==> accs[k].movements == before[k]
    ensures Total(LedgerOf(accs)) == Total(before) + (if sender in accs then 0 else amount)
  {
    var after := LedgerOf(accs);
    var j :| 0 <= j < |accs| && accs[j] == recipient;
    if sender in accs {
      var i :| 0 <= i < |accs| && accs[i] == sender;
      forall k | 0 <= k < |accs| && k != i && k != j
        ensures after[k] == before[k]
      {
        assert accs[k] != sender && accs[k] != recipient;
      }
      TotalAfterTwoAppends(before, after, i, j, -amount, amount);
    } else {
      TotalAfterAppend(before, after, j, amount);
    }
  }

  /** The array `accounts.splice(accounts.findIndex(acc => acc.userName === name), 1)` leaves,
      with `names` the accounts' user names. */
  function CloseByName<T>(accs: seq<T>, names: seq<string>, name: string): (r: seq<T>)
    requires |names| == |accs|
    ensures name in names ==> |r| == |accs| - 1
    ensures name !in names && accs != [] ==> r == accs[..|accs| - 1]
  {
    SpliceOne(accs, FindIndex(names, name))
  }

  /** When some account has the name, the first account holding it is the one deleted and
      the others keep their order. */
  lemma CloseByNameDeletesFirstMatch<T>(accs: seq<T>, names: seq<string>, name: string)
    requires |names| == |accs| && name in names
    ensures exists i :: 0 <= i < |accs| && names[i] == name && (forall k :: 0 <= k < i ==> names[k] != name) &&
                        CloseByName(accs, names, name) == accs[..i] + accs[i + 1..]
  {
    var i := FindIndex(names, name);
    assert names[i] == name && (forall k :: 0 <= k < i ==> names[k] != name);
    assert SpliceOne(accs, i) == accs[..i] + accs[i + 1..];
  }


  /** Closing an account a second time: its name is no longer listed, so `findIndex` gives -1
      and the last account (Sarah Smith's, "ss") is deleted instead. */
  lemma ClosingTwiceDeletesLast()
    ensures CloseByName([2, 3, 4], ["jd", "stw", "ss"], "js") == [2, 3]
  {
  }

  /** Two owners with the same initials: closing the second "js" account deletes the first. */
  lemma SharedNameDeletesOther()
    ensures CloseByName([1, 2], ["js", "js"], "js") == [2]
  {
    assert FindIndex(["js", "js"], "js") == 0;
  }

  /** The four records the script starts with, their user names and balances not yet set. */
  method SeedAccounts() returns (accs: seq<Account>)
    ensures |accs| == 4 && Distinct(accs) && fresh(set a | a in accs)
    ensures accs[0].owner == "Jonas Schmedtmann" && accs[0].pin == 1111 && accs[0].interestRate == 1.2
    ensures accs[0].movements == [200, 450, -400, 3000, -650, -130, 70, 1300]
    ensures accs[1].owner == "Jessica Davis" && accs[1].pin == 2222 && accs[1].interestRate == 1.5
    ensures accs[1].movements == [5000, 3400, -150, -790, -3210, -1000, 8500, -30]
    ensures accs[2].owner == "Steven Thomas Williams" && accs[2].pin == 3333 && accs[2].interestRate == 0.7
    ensures accs[2].movements == [200, -200, 340, -300, -20, 50, 400, -460]
    ensures accs[3].owner == "Sarah Smith" && accs[3].pin == 4444 && accs[3].interestRate == 1.0
    ensures accs[3].movements == [430, 1000, 700, 50, 90]
    ensures forall a :: a in accs ==> a.userName == "" && a.balance == None
  {
    var account1 := new Account("Jonas Schmedtmann", [200, 450, -400, 3000, -650, -130, 70, 1300], 1.2, 1111);
    var account2 := new Account("Jessica Davis", [5000, 3400, -150, -790, -3210, -1000, 8500, -30], 1.5, 2222);
    var account3 := new Account("Steven Thomas Williams", [200, -200, 340, -300, -20, 50, 400, -460], 0.7, 3333);
    var account4 := new Account("Sarah Smith", [430, 1000, 700, 50, 90], 1.0, 4444);
    accs := [account1, account2, account3, account4];
  }

  /** `balance >= amount` on a cached balance that may still be `undefined`. */
  predicate Covers(balance: Option<int>, amount: int)
  {
    balance.Some? && balance.value >= amount
  }

  /** The loan guard after `amount > 0`: a positive cached balance and a movement covering
      a tenth of the amount. */
  predicate LoanGuard(amount: int, balance: Option<int>, movements: seq<int>)
  {
    balance.Some? && balance.value > 0 && CoversLoan(movements, amount)
  }

  /** The application state: the module-level `accounts`, `currentAccount` and `sorted`. */
  class App {
    var accounts: seq<Account>
    var currentAccount: Account?
    var sorted: bool

    /** The logged-in account, as a set: empty before anyone has logged in. */
    ghost function LoggedIn(): set<Account>
      reads this
    {
      if currentAccount == null then {} else {currentAccount}
    }

    /** The accounts are distinct records, and every reachable one, including a logged-in
        account that has since been closed, is sound. */
    ghost predicate Valid()
      reads this, accounts, currentAccount
    {
      Distinct(accounts) &&
      (forall a :: a in accounts ==> a.Sound()) &&
      (currentAccount != null ==> currentAccount.Sound())
    }

    /** The state after the script has loaded: `createUserNames(accounts)` has run, nobody is
        logged in and the movements are shown unsorted. */
    constructor (accs: seq<Account>)
      requires Distinct(accs)
      requires forall a :: a in accs ==> a.CacheSound()
      modifies accs`userName
      ensures Valid()
      ensures accounts == accs && currentAccount == null && !sorted
    {
      CreateUserNames(accs);
      accounts := accs;
      currentAccount := null;
      sorted := false;
    }

    /** The login handler: `currentAccount` becomes the account found by user name, whether
        or not the pin matches; the app is revealed and the balance recomputed only when the
        account exists and its pin is the entered one. */
    method Login(user: string, pin: int) returns (revealed: bool)
      requires Valid()
      modifies this`currentAccount, accounts`balance
      ensures Valid()
      ensures currentAccount == old(Find(accounts, user))
      ensures revealed <==> currentAccount != null && currentAccount.pin == pin
      ensures revealed ==> currentAccount.balance == Some(Sum(currentAccount.movements))
      ensures forall a :: a in accounts && !(revealed && a == currentAccount) ==> a.balance == old(a.balance)
    {
      currentAccount := Find(accounts, user);
      revealed := currentAccount != null && currentAccount.pin == pin;
      if revealed {
        CalcDisplayBalance(currentAccount);
      }
    }

    /** The transfer handler. The recipient is looked up first; the guard then reads the
        sender's cached balance, which throws when nobody is logged in. On success the sender
        is debited, the recipient credited and the sender's balance recomputed; the
        recipient's cached balance is left as it was. */
    method Transfer(amount: int, to: string) returns (outcome: Outcome)
      requires Valid()
      modifies accounts`movements, LoggedIn()`movements, LoggedIn()`balance
      ensures Valid()
      ensures outcome == Crashed <==> amount > 0 && old(Find(accounts, to)) != null && currentAccount == null
      ensures outcome == Applied <==>
                old(amount > 0 && Find(accounts, to) != null && currentAccount != null &&
                    Covers(currentAccount.balance, amount) &&
                    currentAccount.userName != Find(accounts, to).userName)
      ensures outcome != Applied ==> unchanged(accounts) && (currentAccount != null ==> unchanged(currentAccount))
      ensures outcome == Applied ==>
                var recipient := old(Find(accounts, to));
                recipient != null && currentAccount != null && recipient != currentAccount &&
                currentAccount.movements == old(currentAccount.movements) + [-amount] &&
                currentAccount.balance == Some(Sum(currentAccount.movements)) &&
                recipient.movements == old(recipient.movements) + [amount] &&
                (forall a :: a in accounts && a != currentAccount && a != recipient ==> unchanged(a))
      ensures outcome == Applied ==> Sum(currentAccount.movements) >= 0
      ensures outcome == Applied ==>
                Total(LedgerOf(accounts)) ==
                old(Total(LedgerOf(accounts))) + (if currentAccount in accounts then 0 else amount)
    {
      var recipient := Find(accounts, to);
      if !(amount > 0 && recipient != null) {
        return Rejected;
      }
      if currentAccount == null {
        return Crashed;
      }
      if !(Covers(currentAccount.balance, amount) && currentAccount.userName != recipient.userName) {
        return Rejected;
      }
      Send(recipient, amount);
      return Applied;
    }

    /** The accepted branch of the transfer handler: the logged-in account sends `amount` to
        a different, listed recipient and its balance is recomputed. */
    method Send(recipient: Account, amount: int)
      requires Valid() && recipient in accounts
      requires currentAccount != null && currentAccount != recipient
      requires amount > 0 && Covers(currentAccount.balance, amount)
      modifies recipient`movements, LoggedIn()`movements, LoggedIn()`balance
      ensures Valid()
      ensures currentAccount.movements == old(currentAccount.movements) + [-amount]
      ensures currentAccount.balance == Some(Sum(currentAccount.movements))
      ensures recipient.movements == old(recipient.movements) + [amount]
      ensures forall a :: a in accounts && a != currentAccount && a != recipient ==> unchanged(a)
      ensures Sum(currentAccount.movements) >= 0
      ensures Total(LedgerOf(accounts)) ==
              old(Total(LedgerOf(accounts))) + (if currentAccount in accounts then 0 else amount)
    {
      ghost var before := LedgerOf(accounts);
      MoveMoney(currentAccount, recipient, amount);
      LedgerAfterTransfer(before, accounts, currentAccount, recipient, amount);
    }

    /** The loan handler: `amount` is credited to the logged-in account when the guard holds. */
    method RequestLoan(amount: int) returns (outcome: Outcome)
      requires Valid()
      modifies currentAccount
      ensures Valid()
      ensures outcome == Crashed <==> amount > 0 && currentAccount == null
      ensures outcome == Applied <==>
                amount > 0 && currentAccount != null &&
                old(LoanGuard(amount, currentAccount.balance, currentAccount.movements))
      ensures outcome != Applied && currentAccount != null ==> unchanged(currentAccount)
      ensures outcome == Applied ==>
                currentAccount.movements == old(currentAccount.movements) + [amount] &&
                currentAccount.balance == Some(Sum(currentAccount.movements)) &&
                Sum(currentAccount.movements) == old(Sum(currentAccount.movements)) + amount
      ensures outcome == Applied ==>
                Total(LedgerOf(accounts)) ==
                old(Total(LedgerOf(accounts))) + (if currentAccount in accounts then amount else 0)
    {
      if !(amount > 0) {
        return Rejected;
      }
      if currentAccount == null {
        return Crashed;
      }
      if !LoanGuard(amount, currentAccount.balance, currentAccount.movements) {
        return Rejected;
      }
      Credit(currentAccount, amount, accounts);
      assert forall a :: a in accounts ==> a.Sound();
      return Applied;
    }

    /** The close handler as written: after checking the entered user name and pin against
        the logged-in account, it deletes the first account carrying that user name, or the
        last account when none does. `currentAccount` is not reset. */
    method Close(user: string, pin: int) returns (outcome: Outcome)
      requires Valid()
      modifies this`accounts
      ensures Valid()
      ensures outcome == Crashed <==> currentAccount == null
      ensures outcome == Applied <==>
                currentAccount != null && currentAccount.userName == user && currentAccount.pin == pin
      ensures outcome != Applied ==> accounts == old(accounts)
      ensures outcome == Applied ==> accounts == CloseByName(old(accounts), old(UserNamesOf(accounts)), user)
      ensures outcome == Applied && old(accounts) != [] ==> |accounts| == |old(accounts)| - 1
    {
      if currentAccount == null {
        return Crashed;
      }
      if !(currentAccount.userName == user && currentAccount.pin == pin) {
        return Rejected;
      }
      var index := FindIndex(UserNamesOf(accounts), currentAccount.userName);
      SpliceOneKeepsDistinct(accounts, index);
      accounts := SpliceOne(accounts, index);
      return Applied;
    }

    /** Closing as intended: under the same guard, the logged-in account itself is deleted,
        every other account is kept in order, and nothing is deleted when it was closed
        before. */
    method CloseCurrent(user: string, pin: int) returns (outcome: Outcome)
      requires Valid()
      modifies this`accounts
      ensures Valid()
      ensures outcome == Crashed <==> currentAccount == null
      ensures outcome == Applied <==>
                currentAccount != null && currentAccount.userName == user && currentAccount.pin == pin
      ensures outcome != Applied ==> accounts == old(accounts)
      ensures outcome == Applied ==>
                accounts == Remove(old(accounts), currentAccount) &&
                currentAccount !in accounts &&
                (forall a :: a in old(accounts) && a != currentAccount ==> a in accounts) &&
                (forall a :: a in accounts ==> a in old(accounts))
    {
      if currentAccount == null {
        return Crashed;
      }
      if !(currentAccount.userName == user && currentAccount.pin == pin) {
        return Rejected;
      }
      var rest := Remove(accounts, currentAccount);
      RemoveContents(accounts, currentAccount);
      assert forall a :: a in rest ==> a.Sound();
      accounts := rest;
      return Applied;
    }

    /** The sort handler: shows the movements sorted when they were shown unsorted and the
        other way round, then flips `sorted`. The movements themselves are not touched. */
    method Sort() returns (outcome: Outcome, view: seq<int>)
      requires Valid()
      modifies this`sorted
      ensures Valid()
      ensures outcome == Crashed <==> currentAccount == null
      ensures outcome != Applied ==> outcome == Crashed && sorted == old(sorted)
      ensures outcome == Applied ==>
                sorted == !old(sorted) &&
                multiset(view) == multiset(currentAccount.movements) &&
                (sorted ==> IsSorted(view)) &&
                (!sorted ==> view == currentAccount.movements)
    {
      if currentAccount == null {
        return Crashed, [];
      }
      view := DisplayedMovements(currentAccount.movements, !sorted);
      sorted := !sorted;
      outcome := Applied;
    }
  }
}
