# Bankist ledger in Dafny

Bankist is a single-page banking demo. Its logic is a small in-memory ledger: a list of
account records, each with an owner's name, a pin, an interest rate, a derived user name, a
cached balance and an ordered list of signed integer movements (deposits positive,
withdrawals negative). Handlers act on this ledger and on the module-level `currentAccount`
and `sorted` bindings:
- login looks the user name up and checks the pin;
- transfer pushes a movement onto two accounts;
- loan pushes onto one account;
- close splices the account list;
- sort flips the sorted view of the movements.

The project models that ledger and proves what each operation does to it.

- `wrappers.dfy` (`Wrappers`): `Option`, used for the cached balance. `None` is JavaScript's
  `undefined` before the balance is first computed.
- `js_array.dfy` (`JsArray`): the exact semantics of `findIndex` and `splice(start, 1)`,
  including a `-1` start, and an identity-based removal used by the corrected close.
- `movements.dfy` (`Movements`): the `reduce`/`filter`/`map` pipelines.
  - They compute the balance and the summary figures: incomes, outflows, and the thresholded
    per-deposit interest.
  - The loan-cover test.
  - The total held by a list of accounts.
- `sorting.dfy` (`Sorting`): the sorted copy that the movements view shows.
- `user_names.dfy` (`UserNames`): `toLowerCase().split(' ').map(name => name[0]).join('')`.
- `bank.dfy` (`Bank`): the account records as a class `Account` and the application state as
  a class `App`.
  - The handler bodies are methods on `App`.
  - `createUserNames` and `calcDisplayBalance` are methods that assign fields in place.

Login returns whether the app was revealed. It never crashes, because it reads the pin through
`currentAccount?.pin`. The other handlers return an `Outcome`:
- `Applied`: the state changed;
- `Rejected`: the guard turned the request away;
- `Crashed`: the handler reads a property of an `undefined` `currentAccount` and so throws a
  `TypeError`.

The guards are evaluated in the source's short-circuit order. So, for example, a transfer of
a non-positive amount is rejected even when nobody is logged in.

The class invariant `Bank.App.Valid` has two parts:
- the accounts are distinct records;
- every reachable account is sound: its user name is the one derived from its owner, and its
  cached balance never exceeds the sum of its movements.

The cached balance can lag behind the movements. A transfer pushes onto the recipient without
recomputing the recipient's balance. The proved bound is enough to show that an accepted
transfer never leaves the sender with a negative sum.

## Model

| member | source | states |
|---|---|---|
| Bank.Account.constructor | script.js:8-34 | a new record holds the given owner, movements, rate and pin, with no user name and no balance yet |
| Bank.SeedAccounts | script.js:8-36 | the four starting records, with their owners, pins, rates and movements, as four distinct fresh objects |
| Bank.Account.Push | script.js:175-176 | `push` appends the movement at the end and raises the sum of the movements by it |
| Bank.CalcDisplayBalance | script.js:85-88 | the cached balance becomes exactly the sum of the movements, and nothing else changes |
| Movements.Sum | script.js:86 | `reduce((acc, mov) => acc + mov, 0)`: the left fold from 0 (its properties are the lemmas below) |
| Movements.SumAppend | script.js:86 | the left fold of `reduce` grows by the appended element |
| Movements.Keep | script.js:93 | `filter` keeps only elements that pass the test and never lengthens the list |
| Movements.KeepMultiset | script.js:93 | `filter` keeps every passing element as often as it occurs and drops every failing one |
| Movements.KeepMembers | script.js:93 | `filter` holds exactly the elements of the list that pass the test |
| Movements.KeepAppend | script.js:93 | filtering a list with one more element adds that element exactly when it passes |
| Movements.Deposits | script.js:93 | `filter(mov => mov > 0)`: a value is among the deposits exactly when it is a positive movement |
| Movements.Withdrawals | script.js:98 | `filter(mov => mov < 0)`: a value is among the withdrawals exactly when it is a negative movement |
| Movements.Incomes | script.js:92-94 | the incomes are never negative, and are 0 exactly when no movement is a deposit |
| Movements.Out | script.js:97-99 | the outflow is never positive, and is 0 exactly when no movement is a withdrawal |
| Movements.IncomesAppend | script.js:92-94 | one more movement raises the incomes by itself if it is a deposit, and otherwise leaves them |
| Movements.OutAppend | script.js:97-99 | one more movement lowers the outflow by itself if it is a withdrawal, and otherwise leaves it |
| Movements.IncomesPlusOut | script.js:86-99 | incomes plus outflow equals the balance, because a zero movement counts in neither; incomes are never negative and the outflow never positive |
| Movements.DepositInterest | script.js:104 | `(deposite * account.interestRate) / 100`: one deposit's interest at the account's rate (its properties are `DepositInterestAdditive` and `DepositInterestNonNegative`) |
| Movements.InterestTerms | script.js:104 | `map` gives one term per deposit, in order, each term being the deposit's interest |
| Movements.InterestWith | script.js:102-106 | the `filter`/`map`/`filter`/`reduce` pipeline for any per-deposit interest function never gives a negative sum |
| Movements.Interest | script.js:102-106 | the interest at the account's rate; at a rate that is not positive it is 0, since no term reaches 1 |
| Movements.NothingKept | script.js:105 | when no term is at least 1, the `int >= 1` filter keeps nothing |
| Movements.NoTermKeptAtNonPositiveRate | script.js:102-105 | at a rate that is not positive, no deposit's interest passes the `int >= 1` filter |
| Movements.InterestTermsAppend | script.js:104 | mapping one more deposit appends exactly its term |
| Movements.KeptSumAppend | script.js:105-106 | one more term adds itself to the filtered sum when it is at least 1, and nothing otherwise |
| Movements.InterestWithAppend | script.js:102-106 | one more movement adds its own kept interest term if it is a deposit, and nothing if it is a withdrawal |
| Movements.InterestAppend | script.js:102-106 | the interest at a rate grows, movement by movement, by exactly that movement's accrued term |
| Movements.SmallDepositEarnsNothing | script.js:104-105 | a deposit whose own interest is below 1 leaves the interest where it was |
| Movements.KeptSumBounds | script.js:105-106 | the `int >= 1` filter never gives a negative sum, and on non-negative terms it never exceeds the unfiltered sum |
| Movements.SumOfTerms | script.js:104-106 | for an additive per-deposit function, summing its terms equals applying it to the sum of the deposits |
| Movements.DepositInterestAdditive | script.js:104 | `deposit * rate / 100` distributes over sums of deposits |
| Movements.UnthresholdedInterest | script.js:102-104 | without the threshold, the interest is exactly `rate` percent of the deposits' sum |
| Movements.DepositInterestNonNegative | script.js:104 | at a non-negative rate no deposit earns negative interest |
| Movements.InterestWithBounds | script.js:102-106 | for any additive interest function that never makes a deposit's interest negative, the thresholded interest lies between 0 and the function applied to the incomes |
| Movements.InterestBounds | script.js:102-106 | at a non-negative rate the interest is at least 0 and at most `incomes * rate / 100` |
| Movements.SummaryOf | script.js:91-108 | the three figures of the summary: incomes and outflow add up to the balance and have opposite signs, and the interest lies between 0 and rate percent of the incomes |
| Movements.CoversLoan | script.js:216 | `movements.some(mov => mov >= amount * 0.1)`: some movement covers a tenth of the loan (in integers: `CoversLoanInIntegers`) |
| Movements.CoversLoanInIntegers | script.js:216 | a movement is at least a tenth of the loan exactly when ten times it reaches the amount |
| Movements.Total | script.js:36 | the money held by the whole `accounts` list: the sum over accounts of the sum of their movements |
| Movements.TotalAppendAt | script.js:175-176 | appending a movement to one account changes the list's total by exactly that movement |
| Movements.TotalAfterAppend | script.js:218 | two lists differing only by one appended movement differ in total by that movement |
| Movements.TotalAfterTwoAppends | script.js:175-176 | appending `a` to one account and `b` to another changes the total by `a + b` |
| Sorting.Insert | script.js:68 | inserting into an ascending list keeps it ascending and adds exactly the one element |
| Sorting.SortedCopy | script.js:68 | `slice().sort((a, b) => a - b)` is ascending and a permutation of the movements |
| Sorting.SortedUnique | script.js:68 | an ascending permutation is unique, so any correct sort gives the same list as this one |
| Sorting.SortedCopyOfSorted | script.js:68 | sorting an ascending list returns it unchanged |
| Sorting.SortedCopyOfPermutation | script.js:68 | the sorted view depends only on which amounts occur, not on their order |
| Sorting.DisplayedMovements | script.js:65-68 | the list shown is a permutation of the movements: ascending when sorting, and the movements themselves otherwise |
| UserNames.LowerChar | script.js:115 | `toLowerCase` on one character maps each upper-case letter A-Z to its lower-case counterpart (32 code points on), fixes every other character, never yields an upper-case letter, and keeps spaces exactly where they were |
| UserNames.ToLower | script.js:115 | the lower-cased name has the same length, with each character lowered in place |
| UserNames.Split | script.js:116 | `split(' ')` gives at least one piece and no piece contains a space |
| UserNames.SplitChars | script.js:116 | every character of every piece comes from the split string |
| UserNames.JoinSplit | script.js:116 | joining the pieces with single spaces rebuilds the split string |
| UserNames.SplitAfterWord | script.js:116 | a space-free word followed by a space splits off as one piece |
| UserNames.SplitWord | script.js:116 | a string without spaces is a single piece |
| UserNames.SplitJoin | script.js:116 | splitting space-free words joined by single spaces gives back the words |
| UserNames.Initials | script.js:117-118 | mapping each word to its first character and joining gives at most one character per word |
| UserNames.InitialsOfWords | script.js:117-118 | with no empty word, the initials have one character per word, each the word's first, in order |
| UserNames.InitialsFromWords | script.js:117-118 | every character of the initials is the first character of some non-empty word |
| UserNames.UserName | script.js:114-118 | the user name has at most one character per word of the lower-cased name, and no upper-case letter |
| UserNames.UserNameOfWords | script.js:114-118 | when no word of the lower-cased name is empty, the user name has one character per word, each that word's first, in word order |
| UserNames.UserNameOfJoined | script.js:114-118 | for a name made of non-empty words separated by single spaces, the user name is the words' first characters, in order |
| UserNames.ToLowerAppend | script.js:115 | lower-casing distributes over concatenation |
| UserNames.LowerWords | script.js:115 | each word lower-cased, one per word |
| UserNames.ToLowerJoin | script.js:115-116 | lower-casing a name of words joined by single spaces lower-cases each word and keeps the spaces |
| UserNames.LowerWord | script.js:115-117 | lower-casing a non-empty word without spaces keeps it non-empty and space-free, and its first character is the lowered first character |
| UserNames.UserNameOfOwner | script.js:114-118 | for an owner's name made of non-empty words separated by single spaces, the user name is the lower-cased first letter of each word, in order |
| UserNames.JonasUserName | script.js:9 | the user name of "Jonas Schmedtmann" is "js" |
| UserNames.JessicaUserName | script.js:16 | the user name of "Jessica Davis" is "jd" |
| UserNames.StevenUserName | script.js:23 | the user name of "Steven Thomas Williams" is "stw" |
| UserNames.SarahUserName | script.js:30 | the user name of "Sarah Smith" is "ss" |
| Bank.CreateUserNames | script.js:111-121 | every account gets the user name derived from its owner; movements and balances are untouched |
| Bank.UserNamesOf | script.js:190-192 | the user names of the accounts, position by position |
| JsArray.FindIndex | script.js:190-192 | `findIndex` gives the first index holding the value, or -1 exactly when there is none |
| Bank.Find | script.js:138-140 | `find` gives null exactly when no account has the name, and otherwise the first account that has it |
| JsArray.SpliceStart | script.js:194 | `splice`'s start: never past the end; a start within one length either side of 0 is taken modulo the length, so a negative one counts back from the end; one further back is clamped to 0 and one past the end to the length |
| JsArray.SpliceOne | script.js:194 | `splice(start, 1)` deletes the element at a valid start and keeps the rest in order; a start of -1 deletes the last element; nothing is deleted from an empty list |
| JsArray.SpliceOneMultiset | script.js:194 | deleting at a valid index takes exactly that element out |
| JsArray.SpliceOneKeepsDistinct | script.js:190-194 | deleting at a `findIndex` result never introduces a repetition |
| Bank.CloseByName | script.js:190-194 | the account list after the close: one account fewer when the name is listed, and the last account dropped when it is not |
| Bank.CloseByNameDeletesFirstMatch | script.js:190-194 | when the name is listed, the deleted account is the first one carrying it and the others keep their order |
| Bank.ClosingTwiceDeletesLast | script.js:190-194 | closing a user name that is no longer listed deletes the last account |
| Bank.SharedNameDeletesOther | script.js:190-194 | with two owners sharing initials, closing the second one deletes the first |
| JsArray.Remove | script.js:190-194 | removing the logged-in record itself: nothing when it is absent, and exactly one element when it is present |
| JsArray.RemoveFirstOccurrence | script.js:190-194 | the element removed is the first occurrence, and the others keep their order |
| JsArray.RemoveContents | script.js:190-194 | removal keeps every other element and brings none in; in a list without repetitions it leaves the element out and no repetition behind |
| JsArray.RemoveMultiset | script.js:190-194 | removal takes exactly one copy of the element out, or nothing when it is absent |
| Bank.LedgerOf | script.js:175-176 | the movements of every listed account, position by position |
| Bank.LedgerAfterAppend | script.js:218 | when one listed account gains a movement and no other listed account changes, the total grows by that movement |
| Bank.LedgerAfterTransfer | script.js:175-176 | when the sender loses `amount`, a different listed recipient gains it and nothing else changes, the total is unchanged if the sender is listed and grows by `amount` if not |
| Bank.Credit | script.js:218-219 | the loan is appended, the balance recomputed and the sum raised by the amount; a list holding the account grows in total by the amount |
| Bank.MoveMoney | script.js:175-179 | the sender gets `-amount`, the recipient `amount`, and the sender's balance is recomputed; because the cached balance covered the amount, the sender's sum stays non-negative |
| Bank.Account.Sound | script.js:111-121 | an account's own invariant: its user name is the one `createUserNames` derives from its owner, and its cached balance, when set, never exceeds the sum of its movements |
| Bank.Covers | script.js:171 | `currentAccount.balance >= amount` on a balance that may still be `undefined`, which compares false |
| Bank.LoanGuard | script.js:214-216 | the loan guard after `amount > 0`: a positive cached balance and a movement covering a tenth of the amount |
| Bank.App.Valid | script.js:111-123 | the state every handler keeps: the listed accounts are distinct records, and every listed account and the logged-in one are sound |
| Bank.App.constructor | script.js:121-123 | after loading: user names derived, nobody logged in, movements unsorted, and the invariant established |
| Bank.App.Login | script.js:138-154 | `currentAccount` becomes the found account whether or not the pin matches; the app is revealed and that balance recomputed exactly when the account exists and the pin is its own; no other balance changes |
| Bank.App.Transfer | script.js:161-179 | applied exactly when the amount is positive, the recipient exists, the cached balance covers the amount and the names differ; it crashes when a valid request meets an undefined `currentAccount`. On success: the two pushes, the sender's recomputed balance, no other account changed, and the accounts' total conserved. Otherwise nothing changes |
| Bank.App.Send | script.js:175-179 | the accepted transfer keeps the invariant, changes no account besides the two involved, and conserves the listed total |
| Bank.App.RequestLoan | script.js:212-219 | granted exactly when the amount is positive, the cached balance is positive and some movement is at least a tenth of the amount. The amount is appended at the end and the sum grows by exactly it. The listed total grows by the amount when `currentAccount` is still listed, and stays the same when it was closed. Otherwise nothing changes |
| Bank.App.Close | script.js:186-194 | applied exactly when the entered user name and pin are the logged-in account's; the account list becomes the `findIndex`/`splice` result, one account shorter when the list is not empty |
| Bank.App.CloseCurrent | script.js:186-194 | under the same guard, the logged-in record itself is deleted, every other account is kept, and none is added |
| Bank.App.Sort | script.js:225-231 | crashes with nobody logged in; otherwise flips `sorted` and shows a permutation of the movements: the sorted copy when `sorted` is now set, the movements themselves otherwise; the movements themselves are untouched |

## Left out

- DOM lookups, HTML building, `insertAdjacentHTML`, `textContent` and `style` updates, `blur`, and the clearing of input fields (script.js:39-62, 66-81, 87, 95, 100, 107, 143-151, 166, 197-205, 221). These are presentation only. The order in which rows are inserted on screen is not modelled; `Sorting.DisplayedMovements` is the list handed to the rendering loop.
- Event registration and `preventDefault`. Each handler body is a method, and the entered values are its parameters.
- `Number(input.value)`: amounts and pins are already-parsed integers, so `NaN`, fractional amounts and non-numeric input are not modelled.
- IEEE-754 arithmetic. The model uses exact integers and exact rationals for `deposit * rate / 100` and `amount * 0.1`. In binary floating point `30 * 0.1` is slightly above 3, so in the script a movement of exactly a tenth of the loan can fail the test that `Movements.CoversLoan` passes.
- `toFixed(2)` and `Math.abs` in the displayed summary: `Movements.SummaryOf` gives the exact figures before formatting.
- UserNames.LowerChar: maps only the ASCII letters A-Z. JavaScript's `toLowerCase` maps upper-case letters across Unicode, and the model does not.
- UTF-16 code units: JavaScript's `name[0]` (script.js:117) is one UTF-16 code unit, while a Dafny `char` is a whole Unicode scalar value. A word that starts with a character outside the Basic Multilingual Plane gives a lone surrogate in the script and the whole character in the model.
- `calcDisplaySummary` has no effect on the state, so it is modelled as a function and is not called from the handler methods. The sort handler returns, as `view`, the list that `displayMovements` renders (`Sorting.DisplayedMovements`); the other handlers do not model the redraw.
- The welcome message built from the owner's first name (script.js:143-145).
- The commented-out lecture code and the separate exercise at the end of the file (script.js:233-668). Neither is part of the app.
- Bank.App.Transfer: conservation is stated as the total over the listed accounts. A sender that was closed while still logged in is no longer listed, so the total then grows by the amount. That case is stated rather than excluded.
- Bank.App.RequestLoan: the total is likewise stated over the listed accounts. A loan to a logged-in account that has since been closed leaves that total unchanged. That case is stated rather than excluded.
- The cached balance: one would expect the balance always to equal the sum of the movements. The code does not keep it so, because the recipient of a transfer keeps a stale `balance`. The model follows the code and proves only that a cached balance never exceeds the true sum.

## Findings

| source | as written | input that shows it | evidently intended | confidence | as-written member | corrected member |
|---|---|---|---|---|---|---|
| script.js:190-194 | close deletes `accounts[findIndex(userName === currentAccount.userName)]`; `currentAccount` is not reset, and user names need not be unique | close Jonas's account, then submit "js" and pin 1111 again: `findIndex` gives -1 and `splice(-1, 1)` deletes Sarah Smith's account. Likewise, with two owners whose initials are both "js", closing the second deletes the first | delete the logged-in account itself, and nothing when it is no longer listed | not executed | Bank.App.Close, Bank.ClosingTwiceDeletesLast, Bank.SharedNameDeletesOther | Bank.App.CloseCurrent, JsArray.Remove |
