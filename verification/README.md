# Bankist ledger, modelled in Dafny

Bankist is a single-page banking demo. Four accounts are hard-coded. Each has an
owner, a list of signed movements (deposits are positive, withdrawals negative),
an interest rate and a pin. When the page loads, every account gets a username:
the first letters of the owner's lower-cased names. A user logs in with a
username and pin, then may transfer money to another account, request a loan or
close the account. The page shows the movements, optionally sorted, together
with the balance, the income, the outflow and the interest.

This project models that core as pure Dafny:

- `Movements`: balance, income and outflow of a movement list, and how they relate.
- `Usernames`: username derivation (`toLowerCase`, `split(' ')`, first letters, `join('')`), with a one-pass reference definition and the four seed usernames.
- `Sorting`: the movement list as displayed, optionally sorted ascending. The sorted view is proved to be the unique ascending permutation.
- `Interest`: the interest line over exact reals. It comes in two versions: the script's `reduce` without a seed, and a version seeded with 0.
- `Accounts`: accounts and the bank state. Accounts are objects that `currentAccount` can keep referring to after they leave the `accounts` array. So the bank is a store of account records, the `accounts` array as a list of references into it, and the current account as an optional reference. This module also holds `findIndex`, `find`, `splice(start, 1)` with its negative-index rule, and the seed data.
- `Session`: the login, transfer, loan and close click handlers as transitions of the bank. Each reports `Accepted`, `Declined`, or `Threw` (a `TypeError` from reading a property of an undefined `currentAccount`; the bank is then unchanged). Also here: the session invariant (unique usernames, current account listed) that every handler keeps with the corrected login and close, and concrete click sequences.

## Model

| member | source | states |
|---|---|---|
| Movements.Income | script.js:122-124 | the income is never negative, and it is 0 exactly when the account has no deposit |
| Movements.Outflow | script.js:127-129 | the outflow is never negative, and it is 0 exactly when the account has no withdrawal |
| Movements.Filter | script.js:123 | `filter` keeps only elements that pass the test and never lengthens the list |
| Movements.FilterContents | script.js:123 | `filter` keeps every passing element as often as it occurs and drops every other one |
| Movements.FilterEmpty | script.js:123 | `filter` yields nothing exactly when no element passes |
| Movements.SumOfDeposits | script.js:122-124 | a sum of deposits is at least their count, so it is positive when there is one |
| Movements.SumOfWithdrawals | script.js:127-128 | a sum of withdrawals is at most minus their count |
| Movements.SumSplits | script.js:114-129 | the sum of all movements is the sum of the deposits plus the sum of the withdrawals |
| Movements.BalanceIsIncomeMinusOutflow | script.js:113-130 | the displayed balance always equals income minus outflow |
| Movements.BalanceAppend | script.js:114 | pushing a movement changes the balance by exactly that movement |
| Movements.SeedAccountFigures | script.js:10 | the first account shows balance 3840, income 5020 and outflow 1180 |
| Usernames.Username | script.js:101-105 | the username of an owner is the one-pass scan of the lower-cased name: every non-space character that starts it or follows a space |
| Usernames.Split | script.js:103 | `split(' ')` always yields at least one word, and no word contains a space |
| Usernames.Scan | script.js:101-105 | the reference definition of initials yields only non-space characters taken from the input, and is never longer than it |
| Usernames.JoinSplit | script.js:103 | joining the words of `split(' ')` with single spaces gives back the string |
| Usernames.SplitJoin | script.js:103 | splitting a space-joined list of space-free words gives back the words |
| Usernames.InitialsAreScan | script.js:104-105 | the first letters of the split words are the characters that start the string or follow a space |
| Usernames.UsernameShape | script.js:101-105 | a username is the reference scan of the lower-cased owner; it is no longer than the owner and holds no space and no upper-case letter |
| Usernames.UsernameOfWords | script.js:101-105 | an owner whose lower-cased name is a space-joined list of words has those words' first letters as username |
| Usernames.SeedUsernames | script.js:9-30 | the seed owners get the usernames js, jd, stw and ss |
| Sorting.Insert | script.js:79 | inserting into an ascending list keeps it ascending and adds exactly the one element |
| Sorting.SortAscending | script.js:79 | `sort((a, b) => a - b)` yields an ascending permutation of its input |
| Sorting.AscendingPermutationUnique | script.js:79 | two ascending lists with the same elements are equal |
| Sorting.DisplayedMovements | script.js:79 | the displayed list is a permutation of the movements; it is ascending when sorting is on, and is the movements unchanged when it is off |
| Sorting.SortedViewIsUnique | script.js:79 | the sorted view is the only ascending arrangement of the movements |
| Interest.Qualifying | script.js:132-137 | each kept earning is at least 1, and there are no more of them than deposits |
| Interest.InterestEarned | script.js:132-138 | the interest, seeded at 0, is at least the number of qualifying deposits, and is 0 exactly when no deposit earns at least 1 |
| Interest.InterestAsWritten | script.js:132-138 | the script's seedless `reduce` yields no value exactly when no deposit earns at least 1 |
| Interest.QualifyingCons | script.js:132-137 | the qualifying earnings of a list are those of its first movement followed by those of the rest |
| Interest.QualifyingEmpty | script.js:132-137 | nothing qualifies exactly when every deposit earns less than 1 |
| Interest.AddAll | script.js:138 | `reduce((acc, mov) => acc + mov)` from a given accumulator: adding earnings of at least 1 raises it by at least their count |
| Interest.InterestAgreesWhereDefined | script.js:132-138 | the script's seedless `reduce` fails exactly when no deposit earns 1, and otherwise agrees with the 0-seeded interest |
| Interest.InterestAsWrittenThrows | script.js:138 | an account whose only deposit is 50 at 1% makes the script's `reduce` throw; the seeded interest is 0 |
| Interest.SeedAccountInterest | script.js:8-13 | the first account's interest at 1.2% is 59.4, since the 0.84 earned on 70 is dropped |
| Accounts.FindIndexFrom | script.js:224-226 | the scan returns the first matching position at or after its start, or -1 exactly when none matches |
| Accounts.FindIndex | script.js:224-226 | `findIndex` returns the first position whose username matches, or -1 exactly when none does |
| Accounts.Find | script.js:151-153 | `find` returns the first listed account with the username, or undefined when there is none |
| Accounts.FindListed | script.js:151-153 | with unique usernames, looking up a listed account's username finds that account |
| Accounts.Splice1 | script.js:231 | `splice(start, 1)` removes the entry at a valid start, the last entry for start -1, and nothing past the end |
| Accounts.Splice | script.js:231 | `accounts.splice(start, 1)` changes only the list, as `Splice1` says, and keeps every reference inside the store |
| Accounts.RemoveAt | script.js:231 | removing one entry shortens the list by one and keeps the others in order |
| Accounts.TotalAfterUpdate | script.js:188-189 | changing one listed account changes the total over all listed accounts by the change in its balance |
| Accounts.CreateUserNames | script.js:98-107 | every account gets the username derived from its owner, and nothing else about it changes |
| Accounts.SeedUsernamesDerived | script.js:107 | the usernames of the loaded bank are those derived from the owners |
| Accounts.SeedIsCreated | script.js:8-36 | the loaded bank's accounts are exactly what `createUserNames` makes of the four records (script.js:107) |
| Accounts.SeedValid | script.js:8-36 | the bank as the page loads lists four accounts with unique usernames |
| Session.Push | script.js:188 | `push` appends the movement to that one account and changes nothing else |
| Session.LoginAsWritten | script.js:151-155 | the script's login accepts exactly when the found account has the pin, but in every case it makes the found account current, or none for an unknown user |
| Session.LoginAsWrittenSwitchesOnFailure | script.js:151-155 | a wrong pin for an existing username is declined, yet makes that account current |
| Session.Login | script.js:151-155 | the corrected login accepts exactly when the first account with the username has the pin, and then makes that found account current; otherwise nothing changes, and an unknown user is declined |
| Session.LoginAgreesOnSuccess | script.js:151-155 | the corrected login accepts exactly when the script's does, and then leaves the same bank |
| Session.Transfer | script.js:178-189 | a transfer throws exactly when nobody is logged in and the amount and receiver pass. It goes through exactly when the amount is positive, the receiver exists and is not the sender, and the balance covers the amount; it then appends -amount to the sender and +amount to the receiver, changes nothing else about either account, and leaves every other account as it was |
| Session.TransferConserves | script.js:182-189 | in a valid session (unique usernames, current account listed), a transfer lowers the sender's balance and raises the receiver's by the amount, and keeps the total over the listed accounts |
| Session.Loan | script.js:202-209 | a loan throws exactly when nobody is logged in and the amount is positive. It is granted exactly when the amount is positive and some movement is at least a tenth of it; it then appends the amount to the current account, changes nothing else about it, and leaves every other account as it was |
| Session.LoanCredits | script.js:204-209 | in a valid session (unique usernames, current account listed), a granted loan raises the borrower's balance and the total over the listed accounts by the amount |
| Session.CloseAsWritten | script.js:220-231 | the script's close throws exactly when nobody is logged in and accepts exactly when the current account's credentials match; it then splices position `findIndex(username)`, even when that is -1, and keeps the current account |
| Session.CloseAsWrittenUnlistsCurrent | script.js:220-231 | in the script, a close with matching credentials is accepted and leaves the closed account current but no longer listed |
| Session.TransferFromUnlistedCreatesMoney | script.js:182-189 | when the current account is not listed, an accepted transfer raises the total over the listed accounts by the amount |
| Session.TransferFromClosedAccount | script.js:182-189 | in the script, after js closes the account, a transfer of 100 from it to jd is still accepted |
| Session.CloseAsWrittenRemovesLast | script.js:224-231 | when the current account is no longer listed, the script's close removes the last listed account |
| Session.Close | script.js:220-235 | the corrected close removes only a listed account with the matching credentials, keeps the others in order and ends the session; otherwise nothing changes |
| Session.CloseRemovesCurrent | script.js:220-231 | in a valid session, matching credentials remove exactly the current account's entry |
| Session.PushValid | script.js:188-189 | appending a movement keeps the session invariant |
| Session.DelistValid | script.js:231 | removing a listed entry keeps the usernames unique |
| Session.LoginValid | script.js:151-155 | the corrected login keeps the session invariant |
| Session.TransferValid | script.js:182-189 | a transfer keeps the session invariant |
| Session.LoanValid | script.js:204-209 | a loan keeps the session invariant |
| Session.CloseValid | script.js:220-235 | the corrected close keeps the session invariant |
| Session.Handle | script.js:147-237 | one click, with the corrected login and close: no handler creates or edits an account, and movements only grow at the end |
| Session.Run | script.js:147-237 | over any sequence of clicks with the corrected login and close, movements only grow at the end and nothing else about an account changes |
| Session.HandleValid | script.js:147-237 | every click handler, with the corrected login and close, keeps the session invariant |
| Session.RunValid | script.js:147-237 | any sequence of clicks, with the corrected login and close, keeps the session invariant |
| Session.ReachableValid | script.js:36-237 | with the corrected login and close, every bank reachable from page load has unique usernames and a listed current account, so close always finds the current account. The script itself does not keep this (`SecondCloseRemovesLastAccount`) |
| Session.FailedLoginHijacksSession | script.js:151-155 | in the script, after js logs in, a failed login as jd leaves jd current, and a loan then credits jd |
| Session.FailedLoginKeepsSession | script.js:151-155 | with the corrected login, the failed attempt changes nothing and the loan credits js |
| Session.SecondCloseRemovesLastAccount | script.js:220-231 | in the script, js closes the account, and repeating the close removes ss, the last account |
| Session.SecondCloseRemovesNothing | script.js:220-235 | with the corrected close, the repeated close throws and removes nothing |

## Left out

- DOM work is not modelled: the labels, `insertAdjacentHTML` (which shows the list newest-first), opacity, clearing inputs, blur, the welcome message, `console.log`. The model keeps only the data each handler computes or changes.
- Form input parsing (`Number(...)`) is not modelled: amounts and pins are integers passed in directly. An empty field gives 0, so an empty amount is declined. Text that is not a number gives `NaN`, which fails every comparison, so the transfer or loan is declined; a close click with nobody logged in still throws first (script.js:221). Fractional amounts are not modelled.
- Loan: `mov >= amount * 0.1` is compared as `10 * mov >= amount` in exact arithmetic. Binary floating point can round `amount * 0.1` up (30 * 0.1 is 3.0000000000000004), and then a movement of exactly a tenth does not qualify in the browser.
- Movements are JavaScript numbers (IEEE doubles), exact for integers only within ±2^53; the model's integers are unbounded. The model matches the script only while every movement and every sum stays within ±2^53. Repeated tenfold loans can leave that range (after a loan of 8.5e16 a further loan of 1 no longer changes the script's balance), where `Balance` and `BalanceAppend` still add exactly.
- Interest: real arithmetic replaces binary floating point, so the displayed value may differ in the last digits (59.4 against a float sum).
- The seedless `reduce` never throws on the seed data: at their rates all four seed accounts have a qualifying deposit (account4 earns 4.3, 10 and 7), so the throw is latent. `InterestAsWrittenThrows` triggers it.
- Usernames: `toLowerCase` is modelled for ASCII letters only. Other characters are left as they are.
- Session.Transfer: the guard reads the current sum of movements, not the cached `balance` field that `updateUI` writes (script.js:114) and script.js:185 reads. The two agree only while the cache is fresh. Under the corrected login the current account's cache is refreshed at login and after each of its own changes. It still goes stale when money is received. In the script, a failed login can make current an account that never logged in; its `balance` is `undefined`, so every transfer from it is declined, where `Transfer` would accept one the movements cover.
- The sort button (script.js:243-247) toggles a flag and calls `displayMovements`. Only the displayed list is modelled (`DisplayedMovements`), not the toggle state.
- The lecture code after script.js:250 is not part of the core and is not modelled.
- Close: the script splices index -1 when the current account is no longer listed, which removes the last account (`CloseAsWritten`). After a close the script hides the account view (script.js:234), so the session is evidently meant to end there. The corrected `Close` ends it and removes only a listed account.

## Findings

| source | as written | input that shows it | evidently intended | confidence | as-written member | corrected member |
|---|---|---|---|---|---|---|
| script.js:151-155 | `currentAccount` is assigned the looked-up account before the pin is checked | log in as js/1111, then as jd with pin 0, then request a loan of 100 | a failed login leaves the session as it was | high (proved; not executed) | Session.LoginAsWritten | Session.Login |
| script.js:220-231 | after a close, `currentAccount` still refers to the closed account, and `findIndex` of an unlisted username is -1, which `splice(-1, 1)` reads as the last position | log in as js/1111, close js/1111, close js/1111 again: ss is removed. Or, after the close, transfer 100 to jd: it is accepted and the listed accounts gain 100 that no listed account lost | the session ends on close, and only the closing account is ever removed | high (proved; not executed) | Session.CloseAsWritten | Session.Close |
| script.js:132-138 | `reduce` without an initial value throws a `TypeError` when no deposit earns at least 1 | an account whose only deposit is 50 at a 1% rate | the interest of such an account is 0 | high (proved; not executed) | Interest.InterestAsWritten | Interest.InterestEarned |
