/**
 * The account records and the `accounts` array of the Bankist script.
 *
 * Accounts are mutable JavaScript objects, and `currentAccount` holds a reference
 * that can outlive the account's place in `accounts`. The model therefore keeps a
 * store of account records indexed by reference, the `accounts` array as a list of
 * references into it, and the current account as an optional reference.
 */
module Accounts {
  import opened Wrappers
  import opened Movements
  import opened Usernames

  /** A reference to an account object: its index in the store. */
  type Ref = nat

  datatype Account = Account(owner: string, movements: seq<int>, interestRate: real, pin: int, username: string)

  /**
   * `store` holds every account object, `accounts` is the script's `accounts` array
   * and `current` is `currentAccount` (None while it is `undefined`).
   */
  datatype Bank = Bank(store: seq<Account>, accounts: seq<Ref>, current: Option<Ref>)

  /** Every reference in the bank points into the store. */
  predicate WellFormed(b: Bank)
  {
    && (forall k :: 0 <= k < |b.accounts| ==> b.accounts[k] < |b.store|)
    && (b.current.Some? ==> b.current.value < |b.store|)
  }

  function UsernameAt(b: Bank, k: nat): string
    requires WellFormed(b) && k < |b.accounts|
  {
    b.store[b.accounts[k]].username
  }

  /** No two listed accounts share a username. */
  predicate UniqueUsernames(b: Bank)
    requires WellFormed(b)
  {
    forall i, j :: 0 <= i < j < |b.accounts| ==> UsernameAt(b, i) != UsernameAt(b, j)
  }

  /** The session invariant: usernames are unique and the current account, if any, is listed. */
  predicate Valid(b: Bank)
  {
    && WellFormed(b)
    && UniqueUsernames(b)
    && (b.current.Some? ==> b.current.value in b.accounts)
  }

  /** `accounts.findIndex((acc) => acc.username === name)`, scanning from position `from`. */
  function FindIndexFrom(b: Bank, name: string, from: nat): (i: int)
    requires WellFormed(b) && from <= |b.accounts|
    ensures i == -1 || from <= i < |b.accounts|
    ensures i == -1 <==> forall k :: from <= k < |b.accounts| ==> UsernameAt(b, k) != name
    ensures i >= 0 ==> UsernameAt(b, i) == name && forall k :: from <= k < i ==> UsernameAt(b, k) != name
    decreases |b.accounts| - from
  {
    if from == |b.accounts| then -1
    else if UsernameAt(b, from) == name then from
    else FindIndexFrom(b, name, from + 1)
  }

  /** `accounts.findIndex(...)`: the position of the first listed account with that username, or -1. */
  function FindIndex(b: Bank, name: string): (i: int)
    requires WellFormed(b)
    ensures -1 <= i < |b.accounts|
    ensures i == -1 <==> forall k :: 0 <= k < |b.accounts| ==> UsernameAt(b, k) != name
    ensures i >= 0 ==> UsernameAt(b, i) == name && forall k :: 0 <= k < i ==> UsernameAt(b, k) != name
  {
    FindIndexFrom(b, name, 0)
  }

  /** `accounts.find((acc) => acc.username === name)`: the first listed account with that username. */
  function Find(b: Bank, name: string): (r: Option<Ref>)
    requires WellFormed(b)
    ensures r.None? <==> forall k :: 0 <= k < |b.accounts| ==> UsernameAt(b, k) != name
    ensures r.Some? ==> r.value < |b.store| && r.value in b.accounts && b.store[r.value].username == name
    ensures r.Some? ==> FindIndex(b, name) >= 0 && r.value == b.accounts[FindIndex(b, name)]
  {
    var i := FindIndex(b, name);
    if i == -1 then None else Some(b.accounts[i])
  }

  /** With unique usernames, the listed account at position k is the one found by its username. */
  lemma FindListed(b: Bank, k: nat)
    requires Valid(b) && k < |b.accounts|
    ensures FindIndex(b, UsernameAt(b, k)) == k
    ensures Find(b, UsernameAt(b, k)) == Some(b.accounts[k])
  {
  }

  /** The list without its entry at position k; the others keep their order. */
  function RemoveAt(refs: seq<Ref>, k: nat): (r: seq<Ref>)
    requires k < |refs|
    ensures |r| == |refs| - 1
    ensures forall i :: 0 <= i < k ==> r[i] == refs[i]
    ensures forall i :: k <= i < |r| ==> r[i] == refs[i + 1]
  {
    refs[..k] + refs[k + 1..]
  }

  /** Removing an entry keeps every remaining reference inside the store. */
  lemma RemoveAtInStore(refs: seq<Ref>, k: nat, size: nat)
    requires k < |refs| && forall i :: 0 <= i < |refs| ==> refs[i] < size
    ensures forall i :: 0 <= i < |RemoveAt(refs, k)| ==> RemoveAt(refs, k)[i] < size
  {
    var r := RemoveAt(refs, k);
    forall i | 0 <= i < |r|
      ensures r[i] < size
    {
      if i < k {
        assert r[i] == refs[i];
      } else {
        assert r[i] == refs[i + 1];
      }
    }
  }

  /** The bank with the listed entry at position k taken out and nobody logged in. */
  function Delist(b: Bank, k: nat): (b': Bank)
    requires WellFormed(b) && k < |b.accounts|
    ensures WellFormed(b')
    ensures b'.store == b.store && b'.current == None
    ensures b'.accounts == RemoveAt(b.accounts, k)
  {
    RemoveAtInStore(b.accounts, k, |b.store|);
    Bank(b.store, RemoveAt(b.accounts, k), None)
  }

  /** Lookups read only the list and the store, not who is logged in. */
  lemma FindIgnoresCurrent(b: Bank, c: Option<Ref>, name: string)
    requires WellFormed(b) && WellFormed(b.(current := c))
    ensures FindIndex(b.(current := c), name) == FindIndex(b, name)
  {
    var b' := b.(current := c);
    assert forall k :: 0 <= k < |b.accounts| ==> UsernameAt(b', k) == UsernameAt(b, k);
  }

  /**
   * `refs.splice(start, 1)` as JavaScript defines it: a negative start counts from the
   * end (clamped at 0), a start past the end removes nothing.
   */
  function Splice1(refs: seq<Ref>, start: int): (r: seq<Ref>)
    ensures 0 <= start < |refs| ==> r == RemoveAt(refs, start)
    ensures start == -1 && refs != [] ==> r == RemoveAt(refs, |refs| - 1)
    ensures start >= |refs| || refs == [] ==> r == refs
    ensures r == refs || exists k :: 0 <= k < |refs| && r == RemoveAt(refs, k)
  {
    var len := |refs|;
    var k := if start < 0 then (if len + start < 0 then 0 else len + start) else (if start > len then len else start);
    if k < len then RemoveAt(refs, k) else refs
  }

  /** `accounts.splice(start, 1)` on the bank's list; nothing else changes. */
  function Splice(b: Bank, start: int): (b': Bank)
    requires WellFormed(b)
    ensures WellFormed(b')
    ensures b'.store == b.store && b'.current == b.current
    ensures b'.accounts == Splice1(b.accounts, start)
  {
    var r := Splice1(b.accounts, start);
    if r != b.accounts then
      var k :| 0 <= k < |b.accounts| && r == RemoveAt(b.accounts, k);
      RemoveAtInStore(b.accounts, k, |b.store|);
      b.(accounts := r)
    else b
  }

  /** Sum of the balances of the listed accounts. */
  function Total(store: seq<Account>, refs: seq<Ref>): int
    requires forall k :: 0 <= k < |refs| ==> refs[k] < |store|
  {
    if refs == [] then 0 else Balance(store[refs[0]].movements) + Total(store, refs[1..])
  }

  predicate Distinct(refs: seq<Ref>)
  {
    forall i, j :: 0 <= i < j < |refs| ==> refs[i] != refs[j]
  }

  /** Removing an entry from a list without repeats leaves one without repeats that lacks the entry. */
  lemma RemoveAtDistinct(refs: seq<Ref>, k: nat)
    requires k < |refs| && Distinct(refs)
    ensures Distinct(RemoveAt(refs, k)) && refs[k] !in RemoveAt(refs, k)
  {
    var r := RemoveAt(refs, k);
    forall i | 0 <= i < |r|
      ensures r[i] != refs[k]
    {
      if i < k {
        assert r[i] == refs[i];
      } else {
        assert r[i] == refs[i + 1];
      }
    }
    forall i, j | 0 <= i < j < |r|
      ensures r[i] != r[j]
    {
      var i0 := if i < k then i else i + 1;
      var j0 := if j < k then j else j + 1;
      assert r[i] == refs[i0] && r[j] == refs[j0];
    }
  }

  /** Unique usernames make the listed references distinct. */
  lemma ListedAreDistinct(b: Bank)
    requires Valid(b)
    ensures Distinct(b.accounts)
  {
    forall i, j | 0 <= i < j < |b.accounts|
      ensures b.accounts[i] != b.accounts[j]
    {
      assert UsernameAt(b, i) != UsernameAt(b, j);
    }
  }

  /** Replacing one account record changes the total by the change in that account's balance, if listed. */
  lemma {:induction false} TotalAfterUpdate(store: seq<Account>, refs: seq<Ref>, r: Ref, a: Account)
    requires forall k :: 0 <= k < |refs| ==> refs[k] < |store|
    requires r < |store| && Distinct(refs)
    ensures Total(store[r := a], refs)
            == Total(store, refs) + (if r in refs then Balance(a.movements) - Balance(store[r].movements) else 0)
  {
    if refs != [] {
      var tail := refs[1..];
      assert Distinct(tail) by {
        forall i, j | 0 <= i < j < |tail|
          ensures tail[i] != tail[j]
        {
          assert tail[i] == refs[i + 1] && tail[j] == refs[j + 1];
        }
      }
      TotalAfterUpdate(store, tail, r, a);
      assert refs == [refs[0]] + tail;
      if refs[0] == r {
        assert r !in tail by {
          forall j | 0 <= j < |tail|
            ensures tail[j] != r
          {
            assert tail[j] == refs[j + 1];
          }
        }
      }
    }
  }

  /** `createUserNames(accounts)`: every account gets the username derived from its owner. */
  function CreateUserNames(store: seq<Account>): (r: seq<Account>)
    ensures |r| == |store|
    ensures forall k :: 0 <= k < |r| ==> r[k].username == Username(store[k].owner)
    ensures forall k :: 0 <= k < |r| ==> r[k].(username := store[k].username) == store[k]
  {
    if store == [] then []
    else [store[0].(username := Username(store[0].owner))] + CreateUserNames(store[1..])
  }

  /** The four accounts of script.js:8-36, before `createUserNames` runs. */
  const SeedRecords: seq<Account> := [
    Account("Jonas Schmedtmann", [200, 450, -400, 3000, -650, -130, 70, 1300], 1.2, 1111, ""),
    Account("Jessica Davis", [5000, 3400, -150, -790, -3210, -1000, 8500, -30], 1.5, 2222, ""),
    Account("Steven Thomas Williams", [200, -200, 340, -300, -20, 50, 400, -460], 0.7, 3333, ""),
    Account("Sarah Smith", [430, 1000, 700, 50, 90], 1.0, 4444, "")
  ]

  /** The bank as the page loads, nobody logged in; SeedUsernamesDerived shows its usernames are the derived ones. */
  function Seed(): Bank
  {
    Bank([SeedRecords[0].(username := "js"), SeedRecords[1].(username := "jd"),
          SeedRecords[2].(username := "stw"), SeedRecords[3].(username := "ss")],
         [0, 1, 2, 3], None)
  }

  /**
   * Each seed account is its record with the username `createUserNames` derives
   * (script.js:107), so the seed store is what CreateUserNames makes of the records.
   */
  lemma SeedUsernamesDerived()
    ensures Seed().store[0].username == Username(SeedRecords[0].owner)
    ensures Seed().store[1].username == Username(SeedRecords[1].owner)
    ensures Seed().store[2].username == Username(SeedRecords[2].owner)
    ensures Seed().store[3].username == Username(SeedRecords[3].owner)
  {
    SeedUsernames();
  }

  /** Apart from the username, each seed account is its record unchanged. */
  lemma SeedRecordsKept()
    ensures |Seed().store| == |SeedRecords|
    ensures forall k :: 0 <= k < |SeedRecords| ==> Seed().store[k] == SeedRecords[k].(username := Seed().store[k].username)
  {
  }

  /** The seed store is what `createUserNames` makes of the four records. */
  lemma SeedIsCreated()
    ensures Seed().store == CreateUserNames(SeedRecords)
  {
    var store := Seed().store;
    SeedUsernamesDerived();
    SeedRecordsKept();
    forall k | 0 <= k < |store|
      ensures store[k].username == Username(SeedRecords[k].owner)
    {
      if k == 0 {
      } else if k == 1 {
      } else if k == 2 {
      } else {
      }
    }
    CreatedFrom(store, SeedRecords);
  }

  /** A store whose records differ from the given ones only in the derived usernames is what `createUserNames` makes. */
  lemma CreatedFrom(store: seq<Account>, records: seq<Account>)
    requires |store| == |records|
    requires forall k :: 0 <= k < |store| ==> store[k].username == Username(records[k].owner)
    requires forall k :: 0 <= k < |store| ==> store[k] == records[k].(username := store[k].username)
    ensures store == CreateUserNames(records)
  {
    var created := CreateUserNames(records);
    forall k | 0 <= k < |store|
      ensures created[k] == store[k]
    {
      assert created[k].(username := records[k].username) == records[k];
    }
  }

  /** The seed bank satisfies the session invariant. */
  lemma SeedValid()
    ensures Valid(Seed())
  {
  }
}
