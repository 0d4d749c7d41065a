/**
 * Derived figures of an account's movement list: balance, income and outflow.
 * A movement is a signed integer: positive for a deposit, negative for a withdrawal.
 */
module Movements {

  /**
   * `reduce((acc, mov) => acc + mov, 0)`: the sum of the movements, 0 for none.
   * Integer addition is associative, so the fold's direction does not matter.
   */
  function Sum(movs: seq<int>): int
  {
    if movs == [] then 0 else movs[0] + Sum(movs[1..])
  }

  predicate IsDeposit(mov: int) { mov > 0 }

  predicate IsWithdrawal(mov: int) { mov < 0 }

  /** `movs.filter(keep)`: the kept movements, in their original order. */
  function Filter(movs: seq<int>, keep: int -> bool): (kept: seq<int>)
    ensures forall i :: 0 <= i < |kept| ==> keep(kept[i])
    ensures |kept| <= |movs|
  {
    if movs == [] then []
    else (if keep(movs[0]) then [movs[0]] else []) + Filter(movs[1..], keep)
  }

  lemma {:induction false} SumAppend(movs: seq<int>, x: int)
    ensures Sum(movs + [x]) == Sum(movs) + x
  {
    if movs != [] {
      assert (movs + [x])[1..] == movs[1..] + [x];
      SumAppend(movs[1..], x);
    }
  }

  /** A sum of deposits is at least the number of deposits. */
  lemma {:induction false} SumOfDeposits(ds: seq<int>)
    requires forall i :: 0 <= i < |ds| ==> ds[i] > 0
    ensures Sum(ds) >= |ds|
  {
    if ds != [] {
      SumOfDeposits(ds[1..]);
    }
  }

  /** A sum of withdrawals is at most minus the number of withdrawals. */
  lemma {:induction false} SumOfWithdrawals(ws: seq<int>)
    requires forall i :: 0 <= i < |ws| ==> ws[i] < 0
    ensures Sum(ws) <= -|ws|
  {
    if ws != [] {
      SumOfWithdrawals(ws[1..]);
    }
  }

  /** The filtered list is empty exactly when no movement is kept. */
  lemma {:induction false} FilterEmpty(movs: seq<int>, keep: int -> bool)
    ensures Filter(movs, keep) == [] <==> forall i :: 0 <= i < |movs| ==> !keep(movs[i])
  {
    if movs != [] {
      FilterEmpty(movs[1..], keep);
      assert forall i :: 1 <= i < |movs| ==> movs[1..][i - 1] == movs[i];
    }
  }

  /** The filter keeps every occurrence of a kept value and no occurrence of any other. */
  lemma {:induction false} FilterContents(movs: seq<int>, keep: int -> bool)
    ensures forall x :: multiset(Filter(movs, keep))[x] == if keep(x) then multiset(movs)[x] else 0
  {
    if movs != [] {
      assert movs == [movs[0]] + movs[1..];
      FilterContents(movs[1..], keep);
    }
  }

  /** The account balance, script.js:114. */
  function Balance(movs: seq<int>): int
  {
    Sum(movs)
  }

  /** Sum of the deposits, script.js:122-124. */
  function Income(movs: seq<int>): (r: int)
    ensures r >= 0
    ensures r == 0 <==> forall i :: 0 <= i < |movs| ==> movs[i] <= 0
  {
    var deposits := Filter(movs, IsDeposit);
    SumOfDeposits(deposits);
    FilterEmpty(movs, IsDeposit);
    Sum(deposits)
  }

  /** Absolute value of the sum of the withdrawals, script.js:127-129. */
  function Outflow(movs: seq<int>): (r: int)
    ensures r >= 0
    ensures r == 0 <==> forall i :: 0 <= i < |movs| ==> movs[i] >= 0
  {
    var withdrawals := Filter(movs, IsWithdrawal);
    SumOfWithdrawals(withdrawals);
    FilterEmpty(movs, IsWithdrawal);
    var total := Sum(withdrawals);
    if total < 0 then -total else total
  }

  /** Appending one movement moves the balance by exactly that movement. */
  lemma BalanceAppend(movs: seq<int>, x: int)
    ensures Balance(movs + [x]) == Balance(movs) + x
  {
    SumAppend(movs, x);
  }

  /** The balance splits into income minus outflow. */
  lemma BalanceIsIncomeMinusOutflow(movs: seq<int>)
    ensures Balance(movs) == Income(movs) - Outflow(movs)
  {
    SumSplits(movs);
    SumOfWithdrawals(Filter(movs, IsWithdrawal));
  }

  /** Every movement is a deposit, a withdrawal or zero, so the sum splits in two. */
  lemma {:induction false} SumSplits(movs: seq<int>)
    ensures Sum(movs) == Sum(Filter(movs, IsDeposit)) + Sum(Filter(movs, IsWithdrawal))
  {
    if movs != [] {
      var first := movs[0];
      SumSplits(movs[1..]);
      var dr, wr := Filter(movs[1..], IsDeposit), Filter(movs[1..], IsWithdrawal);
      if IsDeposit(first) {
        assert Filter(movs, IsDeposit) == [first] + dr;
        assert Filter(movs, IsWithdrawal) == wr;
      } else if IsWithdrawal(first) {
        assert Filter(movs, IsDeposit) == dr;
        assert Filter(movs, IsWithdrawal) == [first] + wr;
      } else {
        assert Filter(movs, IsDeposit) == dr;
        assert Filter(movs, IsWithdrawal) == wr;
      }
    }
  }

  /** The first seed account's deposits (script.js:10). */
  lemma SeedAccountDeposits()
    ensures Filter([200, 450, -400, 3000, -650, -130, 70, 1300], IsDeposit) == [200, 450, 3000, 70, 1300]
  {
  }

  /** The first seed account's withdrawals (script.js:10). */
  lemma SeedAccountWithdrawals()
    ensures Filter([200, 450, -400, 3000, -650, -130, 70, 1300], IsWithdrawal) == [-400, -650, -130]
  {
  }

  /** The first seed account's figures, as displayed after logging in as "js". */
  lemma SeedAccountFigures()
    ensures Balance([200, 450, -400, 3000, -650, -130, 70, 1300]) == 3840
    ensures Income([200, 450, -400, 3000, -650, -130, 70, 1300]) == 5020
    ensures Outflow([200, 450, -400, 3000, -650, -130, 70, 1300]) == 1180
  {
    SeedAccountDeposits();
    SeedAccountWithdrawals();
    assert Sum([200, 450, 3000, 70, 1300]) == 5020;
    assert Sum([-400, -650, -130]) == -1180;
  }
}
