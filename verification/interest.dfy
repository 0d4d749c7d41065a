/**
 * The interest line of the account summary, script.js:132-138: each deposit earns
 * `deposit * interestRate / 100`, only earnings of at least 1 are kept, and the kept
 * earnings are added up. Rates and earnings are exact reals here, not binary floats.
 */
module Interest {
  import opened Wrappers
  import opened Movements

  /** The earnings of each deposit, in order, that reach 1. */
  function Qualifying(movs: seq<int>, rate: real): (qs: seq<real>)
    ensures forall i :: 0 <= i < |qs| ==> qs[i] >= 1.0
    ensures |qs| <= |Filter(movs, IsDeposit)|
  {
    Keep(Earnings(Filter(movs, IsDeposit), rate))
  }

  /** What one deposit earns at a rate given in percent. */
  function Earning(deposit: int, rate: real): real
  {
    deposit as real * rate / 100.0
  }

  /** No deposit earns at least 1. */
  predicate NothingQualifies(movs: seq<int>, rate: real)
  {
    forall i :: 0 <= i < |movs| && IsDeposit(movs[i]) ==> Earning(movs[i], rate) < 1.0
  }

  function Earnings(deposits: seq<int>, rate: real): (es: seq<real>)
    ensures |es| == |deposits|
  {
    if deposits == [] then [] else [Earning(deposits[0], rate)] + Earnings(deposits[1..], rate)
  }

  function Keep(es: seq<real>): (qs: seq<real>)
    ensures |qs| <= |es|
    ensures forall i :: 0 <= i < |qs| ==> qs[i] >= 1.0
  {
    if es == [] then [] else (if es[0] >= 1.0 then [es[0]] else []) + Keep(es[1..])
  }

  /** `reduce((acc, mov) => acc + mov, acc)` over reals: adds the list to the accumulator, left to right. */
  function AddAll(acc: real, qs: seq<real>): (r: real)
    ensures (forall i :: 0 <= i < |qs| ==> qs[i] >= 1.0) ==> r >= acc + |qs| as real
    decreases qs
  {
    if qs == [] then acc else AddAll(acc + qs[0], qs[1..])
  }

  /**
   * The script's version: `reduce` without a seed starts from the first element and
   * throws a TypeError on an empty list, so no interest can be shown (None).
   */
  function InterestAsWritten(movs: seq<int>, rate: real): (r: Option<real>)
    ensures r.None? <==> NothingQualifies(movs, rate)
  {
    QualifyingEmpty(movs, rate);
    var qs := Qualifying(movs, rate);
    if qs == [] then None else Some(AddAll(qs[0], qs[1..]))
  }

  /** The interest with an explicit seed of 0: defined for every account. */
  function InterestEarned(movs: seq<int>, rate: real): (r: real)
    ensures r >= |Qualifying(movs, rate)| as real
    ensures r == 0.0 <==> NothingQualifies(movs, rate)
  {
    var qs := Qualifying(movs, rate);
    QualifyingEmpty(movs, rate);
    AddAll(0.0, qs)
  }

  /** The qualifying earnings of a list: those of its first movement, then those of the rest. */
  lemma QualifyingCons(movs: seq<int>, rate: real)
    requires movs != []
    ensures Qualifying(movs, rate) ==
              (if IsDeposit(movs[0]) && Earning(movs[0], rate) >= 1.0 then [Earning(movs[0], rate)] else [])
              + Qualifying(movs[1..], rate)
  {
    var rest := Filter(movs[1..], IsDeposit);
    if IsDeposit(movs[0]) {
      var es := Earnings(Filter(movs, IsDeposit), rate);
      assert Filter(movs, IsDeposit) == [movs[0]] + rest;
      assert es == [Earning(movs[0], rate)] + Earnings(rest, rate);
      assert es[1..] == Earnings(rest, rate);
    } else {
      assert Filter(movs, IsDeposit) == rest;
    }
  }

  /** No earning qualifies exactly when no deposit earns at least 1. */
  lemma {:induction false} QualifyingEmpty(movs: seq<int>, rate: real)
    ensures Qualifying(movs, rate) == [] <==> NothingQualifies(movs, rate)
  {
    if movs != [] {
      QualifyingCons(movs, rate);
      QualifyingEmpty(movs[1..], rate);
      if NothingQualifies(movs[1..], rate) && !(IsDeposit(movs[0]) && Earning(movs[0], rate) >= 1.0) {
        forall i | 0 <= i < |movs| && IsDeposit(movs[i])
          ensures Earning(movs[i], rate) < 1.0
        {
          if i > 0 {
            assert movs[i] == movs[1..][i - 1];
          }
        }
      }
    }
  }

  /**
   * The seeded interest agrees with the script wherever the script produces a value,
   * and the script fails exactly when no deposit earns at least 1.
   */
  lemma InterestAgreesWhereDefined(movs: seq<int>, rate: real)
    ensures InterestAsWritten(movs, rate).None? <==> Qualifying(movs, rate) == []
    ensures InterestAsWritten(movs, rate).Some? ==> InterestAsWritten(movs, rate).value == InterestEarned(movs, rate)
  {
  }

  /** A single deposit of 50 at a 1% rate earns 0.5, so the script's reduce throws. */
  lemma InterestAsWrittenThrows()
    ensures InterestAsWritten([50], 1.0) == None
    ensures InterestEarned([50], 1.0) == 0.0
  {
  }

  /** The first seed account at 1.2%: earnings 2.4, 5.4, 36, 0.84 and 15.6, of which 0.84 is dropped. */
  lemma SeedAccountInterest()
    ensures InterestEarned([200, 450, -400, 3000, -650, -130, 70, 1300], 1.2) == 59.4
  {
    SeedAccountQualifying();
    assert AddAll(0.0, [2.4, 5.4, 36.0, 15.6]) == 59.4;
  }

  /** The earnings of the first seed account that reach 1. */
  lemma SeedAccountQualifying()
    ensures Qualifying([200, 450, -400, 3000, -650, -130, 70, 1300], 1.2) == [2.4, 5.4, 36.0, 15.6]
  {
    SeedAccountDeposits();
    SeedAccountEarnings();
  }

  lemma SeedAccountEarnings()
    ensures Keep(Earnings([200, 450, 3000, 70, 1300], 1.2)) == [2.4, 5.4, 36.0, 15.6]
  {
  }
}
