/** The arithmetic over an account's movements: the balance, the three summary figures and the
    total held by a whole book of accounts. Positive movements are deposits, negative ones
    withdrawals. Amounts are exact integers and interest is an exact rational (`real`). */
module Movements {

  /** The sum of `s`, folded from the left from 0 as `reduce((acc, mov) => acc + mov, 0)` does. */
  function Sum(s: seq<int>): int
  {
    if s == [] then 0 else Sum(s[..|s| - 1]) + s[|s| - 1]
  }

  /** The sum of a sequence of rationals, folded the same way. */
  function SumReal(s: seq<real>): real
  {
    if s == [] then 0.0 else SumReal(s[..|s| - 1]) + s[|s| - 1]
  }

  lemma SumAppend(s: seq<int>, x: int)
    ensures Sum(s + [x]) == Sum(s) + x
  {
    assert (s + [x])[..|s|] == s;
  }

  lemma SumRealAppend(s: seq<real>, x: real)
    ensures SumReal(s + [x]) == SumReal(s) + x
  {
    assert (s + [x])[..|s|] == s;
  }

  /** `s.filter(p)`: the elements of `s` that satisfy `p`, in their original order. */
  function Keep<T(!new)>(s: seq<T>, p: T -> bool): (r: seq<T>)
    ensures |r| <= |s|
    ensures forall k :: 0 <= k < |r| ==> p(r[k])
  {
    if s == [] then []
    else
      var init := s[..|s| - 1];
      assert s == init + [s[|s| - 1]];
      Keep(init, p) + (if p(s[|s| - 1]) then [s[|s| - 1]] else [])
  }

  /** `Keep` loses exactly the elements that fail `p`: each value occurs in the result as often
      as in `s` when it satisfies `p`, and not at all otherwise. */
  lemma {:induction false} KeepMultiset<T(!new)>(s: seq<T>, p: T -> bool)
    ensures forall x :: multiset(Keep(s, p))[x] == if p(x) then multiset(s)[x] else 0
  {
    if s != [] {
      var init := s[..|s| - 1];
      assert s == init + [s[|s| - 1]];
      KeepMultiset(init, p);
    }
  }

  /** `Keep` holds exactly the elements of `s` that satisfy `p`. */
  lemma KeepMembers<T(!new)>(s: seq<T>, p: T -> bool)
    ensures forall x :: x in Keep(s, p) <==> x in s && p(x)
  {
    KeepMultiset(s, p);
    forall x
      ensures x in Keep(s, p) <==> x in s && p(x)
    {
      assert x in Keep(s, p) <==> x in multiset(Keep(s, p));
      assert x in s <==> x in multiset(s);
    }
  }

  lemma KeepAppend<T(!new)>(s: seq<T>, x: T, p: T -> bool)
    ensures Keep(s + [x], p) == Keep(s, p) + (if p(x) then [x] else [])
  {
    assert (s + [x])[..|s|] == s;
  }

  predicate IsDeposit(mov: int) { mov > 0 }

  predicate IsWithdrawal(mov: int) { mov < 0 }

  /** The interest terms `filter` keeps: those of at least 1. */
  predicate CountsAsInterest(t: real) { t >= 1.0 }

  /** The deposits: `movements.filter(mov => mov > 0)`. */
  function Deposits(s: seq<int>): (r: seq<int>)
    ensures forall x :: x in r <==> x in s && x > 0
  {
    KeepMembers(s, IsDeposit);
    Keep(s, IsDeposit)
  }

  /** The withdrawals: `movements.filter(mov => mov < 0)`. */
  function Withdrawals(s: seq<int>): (r: seq<int>)
    ensures forall x :: x in r <==> x in s && x < 0
  {
    KeepMembers(s, IsWithdrawal);
    Keep(s, IsWithdrawal)
  }

  /** Total money in: the sum of the deposits, which is 0 exactly when there is no deposit. */
  function Incomes(s: seq<int>): (r: int)
    ensures r >= 0
    ensures r == 0 <==> forall k :: 0 <= k < |s| ==> s[k] <= 0
  {
    var deposits := Deposits(s);
    assert forall k :: 0 <= k < |deposits| ==> deposits[k] in deposits;
    SumOfPositives(deposits);
    assert forall k :: 0 <= k < |s| ==> s[k] in s;
    assert deposits != [] ==> deposits[0] in deposits;
    Sum(deposits)
  }

  /** Total money out: the sum of the withdrawals (a non-positive number; the display takes
      its absolute value), which is 0 exactly when there is no withdrawal. */
  function Out(s: seq<int>): (r: int)
    ensures r <= 0
    ensures r == 0 <==> forall k :: 0 <= k < |s| ==> s[k] >= 0
  {
    var withdrawals := Withdrawals(s);
    assert forall k :: 0 <= k < |withdrawals| ==> withdrawals[k] in withdrawals;
    SumOfNegatives(withdrawals);
    assert forall k :: 0 <= k < |s| ==> s[k] in s;
    assert withdrawals != [] ==> withdrawals[0] in withdrawals;
    Sum(withdrawals)
  }

  /** A sum of positive numbers is at least their count. */
  lemma {:induction false} SumOfPositives(s: seq<int>)
    requires forall k :: 0 <= k < |s| ==> s[k] > 0
    ensures Sum(s) >= |s|
  {
    if s != [] {
      var init := s[..|s| - 1];
      assert s == init + [s[|s| - 1]];
      SumOfPositives(init);
    }
  }

  /** A sum of negative numbers is at most minus their count. */
  lemma {:induction false} SumOfNegatives(s: seq<int>)
    requires forall k :: 0 <= k < |s| ==> s[k] < 0
    ensures Sum(s) <= -|s|
  {
    if s != [] {
      var init := s[..|s| - 1];
      assert s == init + [s[|s| - 1]];
      SumOfNegatives(init);
    }
  }

  /** The interest one deposit earns at `rate` percent: `deposit * rate / 100`. */
  function DepositInterest(rate: real): int -> real
  {
    (deposit: int) => deposit as real * rate / 100.0
  }

  /** `deposits.map(f)`: the interest term of each deposit. */
  function InterestTerms(deposits: seq<int>, f: int -> real): (r: seq<real>)
    ensures |r| == |deposits|
    ensures forall k :: 0 <= k < |r| ==> r[k] == f(deposits[k])
  {
    if deposits == [] then []
    else InterestTerms(deposits[..|deposits| - 1], f) + [f(deposits[|deposits| - 1])]
  }

  /** The interest pipeline for a per-deposit interest function `f`: map the deposits through
      `f`, keep the terms of at least 1, sum them. */
  function InterestWith(s: seq<int>, f: int -> real): (r: real)
    ensures r >= 0.0
  {
    KeptSumBounds(InterestTerms(Deposits(s), f));
    SumReal(Keep(InterestTerms(Deposits(s), f), CountsAsInterest))
  }

  /** The summary's interest at `rate` percent; at a rate that is not positive no deposit
      earns the 1 that the filter asks for, so there is none. */
  function Interest(s: seq<int>, rate: real): (r: real)
    ensures rate <= 0.0 ==> r == 0.0
  {
    NoTermKeptAtNonPositiveRate(s, rate);
    InterestWith(s, DepositInterest(rate))
  }

  /** At a rate that is not positive every deposit's interest is at most 0, so the `int >= 1`
      filter keeps no term. */
  lemma NoTermKeptAtNonPositiveRate(s: seq<int>, rate: real)
    ensures rate <= 0.0 ==> Keep(InterestTerms(Deposits(s), DepositInterest(rate)), CountsAsInterest) == []
  {
    if rate <= 0.0 {
      var terms := InterestTerms(Deposits(s), DepositInterest(rate));
      forall k | 0 <= k < |terms|
        ensures !CountsAsInterest(terms[k])
      {
        assert Deposits(s)[k] in Deposits(s);
        ProductNonPositive(Deposits(s)[k] as real, rate);
      }
      NothingKept(terms);
    }
  }

  /** A deposit at a rate that is not positive earns nothing. */
  lemma ProductNonPositive(a: real, b: real)
    requires a >= 0.0 && b <= 0.0
    ensures a * b / 100.0 <= 0.0
  {
  }

  /** When every term fails the `int >= 1` filter, nothing is kept. */
  lemma NothingKept(terms: seq<real>)
    requires forall k :: 0 <= k < |terms| ==> !CountsAsInterest(terms[k])
    ensures Keep(terms, CountsAsInterest) == []
  {
    KeepMembers(terms, CountsAsInterest);
  }

  /** What a term contributes once the `int >= 1` filter has run. */
  function Kept(t: real): real
  {
    if t >= 1.0 then t else 0.0
  }

  lemma InterestTermsAppend(deposits: seq<int>, d: int, f: int -> real)
    ensures InterestTerms(deposits + [d], f) == InterestTerms(deposits, f) + [f(d)]
  {
    assert (deposits + [d])[..|deposits|] == deposits;
  }

  /** Appending one term `t` adds `t` to the kept sum when `t >= 1`, and nothing otherwise. */
  lemma KeptSumAppend(terms: seq<real>, t: real)
    ensures SumReal(Keep(terms + [t], CountsAsInterest)) == SumReal(Keep(terms, CountsAsInterest)) + Kept(t)
  {
    KeepAppend(terms, t, CountsAsInterest);
    if t >= 1.0 {
      SumRealAppend(Keep(terms, CountsAsInterest), t);
    } else {
      assert Keep(terms + [t], CountsAsInterest) == Keep(terms, CountsAsInterest);
    }
  }

  /** Appending a movement adds the kept interest of that movement alone: a deposit whose
      own interest is below 1, and every withdrawal, contribute nothing. */
  lemma InterestWithAppend(s: seq<int>, mov: int, f: int -> real)
    ensures InterestWith(s + [mov], f) == InterestWith(s, f) + (if mov > 0 then Kept(f(mov)) else 0.0)
  {
    KeepAppend(s, mov, IsDeposit);
    if mov > 0 {
      assert Deposits(s + [mov]) == Deposits(s) + [mov];
      InterestTermsAppend(Deposits(s), mov, f);
      KeptSumAppend(InterestTerms(Deposits(s), f), f(mov));
    } else {
      assert Deposits(s + [mov]) == Deposits(s);
    }
  }

  /** The interest one movement adds at `rate` percent. */
  function Accrued(mov: int, rate: real): real
  {
    if mov > 0 then Kept(mov as real * rate / 100.0) else 0.0
  }

  /** Appending a movement raises the interest by exactly that movement's own accrued term. */
  lemma InterestAppend(s: seq<int>, mov: int, rate: real)
    ensures Interest(s + [mov], rate) == Interest(s, rate) + Accrued(mov, rate)
  {
    InterestWithAppend(s, mov, DepositInterest(rate));
    AccruedIsKeptShare(mov, rate);
  }

  /** A deposit whose own interest is below 1 leaves the interest where it was. */
  lemma SmallDepositEarnsNothing(s: seq<int>, mov: int, rate: real)
    requires mov > 0 && mov as real * rate / 100.0 < 1.0
    ensures Interest(s + [mov], rate) == Interest(s, rate)
  {
    InterestAppend(s, mov, rate);
  }

  lemma AccruedIsKeptShare(mov: int, rate: real)
    ensures Accrued(mov, rate) == if mov > 0 then Kept(DepositInterest(rate)(mov)) else 0.0
  {
  }

  lemma IncomesAppend(s: seq<int>, mov: int)
    ensures Incomes(s + [mov]) == Incomes(s) + (if mov > 0 then mov else 0)
  {
    KeepAppend(s, mov, IsDeposit);
    if mov > 0 {
      assert Deposits(s + [mov]) == Deposits(s) + [mov];
      SumAppend(Deposits(s), mov);
    } else {
      assert Deposits(s + [mov]) == Deposits(s);
    }
  }

  lemma OutAppend(s: seq<int>, mov: int)
    ensures Out(s + [mov]) == Out(s) + (if mov < 0 then mov else 0)
  {
    KeepAppend(s, mov, IsWithdrawal);
    if mov < 0 {
      assert Withdrawals(s + [mov]) == Withdrawals(s) + [mov];
      SumAppend(Withdrawals(s), mov);
    } else {
      assert Withdrawals(s + [mov]) == Withdrawals(s);
    }
  }

  /** Incomes and outflows split the balance: zero movements count in neither, so
      incomes plus out is the plain sum; incomes are never negative and out never positive. */
  lemma {:induction false} IncomesPlusOut(s: seq<int>)
    ensures Incomes(s) + Out(s) == Sum(s)
    ensures Incomes(s) >= 0 && Out(s) <= 0
  {
    if s != [] {
      var init, last := s[..|s| - 1], s[|s| - 1];
      assert s == init + [last];
      IncomesPlusOut(init);
      IncomesAppend(init, last);
      OutAppend(init, last);
      SumAppend(init, last);
    }
  }

  /** No term is negative. */
  ghost predicate AllNonNegative(terms: seq<real>)
  {
    forall k :: 0 <= k < |terms| ==> terms[k] >= 0.0
  }

  /** The `int >= 1` filter never makes the sum negative, and on non-negative terms it can only lower it. */
  lemma {:induction false} KeptSumBounds(terms: seq<real>)
    ensures 0.0 <= SumReal(Keep(terms, CountsAsInterest))
    ensures AllNonNegative(terms) ==> SumReal(Keep(terms, CountsAsInterest)) <= SumReal(terms)
  {
    if terms != [] {
      var init, last := terms[..|terms| - 1], terms[|terms| - 1];
      assert terms == init + [last];
      KeptSumBounds(init);
      KeptSumAppend(init, last);
      SumRealAppend(init, last);
    }
  }

  /** `f` distributes over the sum of `a` and `b`. */
  ghost predicate AddsUp(f: int -> real, a: int, b: int)
  {
    f(a) + f(b) == f(a + b)
  }

  /** A per-deposit interest function that distributes over sums of deposits. */
  ghost predicate Additive(f: int -> real)
  {
    f(0) == 0.0 && forall a: int, b: int :: AddsUp(f, a, b)
  }

  /** Summing an additive function's terms is applying it to the sum. */
  lemma {:induction false} SumOfTerms(deposits: seq<int>, f: int -> real)
    requires Additive(f)
    ensures SumReal(InterestTerms(deposits, f)) == f(Sum(deposits))
  {
    if deposits != [] {
      var init, last := deposits[..|deposits| - 1], deposits[|deposits| - 1];
      assert deposits == init + [last];
      SumOfTerms(init, f);
      InterestTermsAppend(init, last, f);
      SumRealAppend(InterestTerms(init, f), f(last));
      SumAppend(init, last);
      assert AddsUp(f, Sum(init), last);
    }
  }

  /** A fixed percentage distributes over sums. */
  lemma DepositInterestAdditive(rate: real)
    ensures Additive(DepositInterest(rate))
  {
    var f := DepositInterest(rate);
    forall a: int, b: int
      ensures AddsUp(f, a, b)
    {
      ScaleAdd(a, b, rate, a + b, f(a), f(b));
    }
  }

  /** Percentages add up. */
  lemma ScaleAdd(a: int, b: int, rate: real, sum: int, scaledA: real, scaledB: real)
    requires sum == a + b
    requires scaledA == a as real * rate / 100.0 && scaledB == b as real * rate / 100.0
    ensures scaledA + scaledB == sum as real * rate / 100.0
  {
  }

  /** Without the threshold, the deposits' interest is exactly `rate` percent of their sum. */
  lemma UnthresholdedInterest(deposits: seq<int>, rate: real)
    ensures SumReal(InterestTerms(deposits, DepositInterest(rate))) == Sum(deposits) as real * rate / 100.0
  {
    DepositInterestAdditive(rate);
    SumOfTerms(deposits, DepositInterest(rate));
  }

  /** A per-deposit interest function that gives no deposit negative interest. */
  ghost predicate NonNegativeOnDeposits(f: int -> real)
  {
    forall d: int :: d > 0 ==> f(d) >= 0.0
  }

  /** At a non-negative rate no deposit earns negative interest. */
  lemma DepositInterestNonNegative(rate: real)
    requires rate >= 0.0
    ensures NonNegativeOnDeposits(DepositInterest(rate))
  {
    forall d: int | d > 0
      ensures DepositInterest(rate)(d) >= 0.0
    {
      ProductNonNegative(d as real, rate);
    }
  }

  lemma ProductNonNegative(a: real, b: real)
    requires a >= 0.0 && b >= 0.0
    ensures a * b / 100.0 >= 0.0
  {
  }

  /** For an additive interest function that gives no deposit negative interest, the
      thresholded interest lies between 0 and the interest on all incomes. */
  lemma InterestWithBounds(s: seq<int>, f: int -> real)
    requires Additive(f) && NonNegativeOnDeposits(f)
    ensures 0.0 <= InterestWith(s, f) <= f(Incomes(s))
  {
    var deposits := Deposits(s);
    var terms := InterestTerms(deposits, f);
    assert AllNonNegative(terms) by {
      forall k | 0 <= k < |terms|
        ensures terms[k] >= 0.0
      {
        assert IsDeposit(deposits[k]);
      }
    }
    KeptSumBounds(terms);
    SumOfTerms(deposits, f);
  }

  /** For a non-negative rate the interest is at least 0 and at most `rate` percent of the incomes. */
  lemma InterestBounds(s: seq<int>, rate: real)
    requires rate >= 0.0
    ensures 0.0 <= Interest(s, rate) <= Incomes(s) as real * rate / 100.0
  {
    DepositInterestAdditive(rate);
    DepositInterestNonNegative(rate);
    InterestWithBounds(s, DepositInterest(rate));
  }

  /** The three figures `calcDisplaySummary` shows. */
  datatype Summary = Summary(incomes: int, out: int, interest: real)

  /** The summary of an account with these movements and this interest rate (in percent). */
  function SummaryOf(s: seq<int>, rate: real): (r: Summary)
    ensures r.incomes + r.out == Sum(s)
    ensures r.incomes >= 0 && r.out <= 0
    ensures rate >= 0.0 ==> 0.0 <= r.interest <= r.incomes as real * rate / 100.0
  {
    IncomesPlusOut(s);
    if rate >= 0.0 then InterestBounds(s, rate); Summary(Incomes(s), Out(s), Interest(s, rate))
    else Summary(Incomes(s), Out(s), Interest(s, rate))
  }

  /** `movements.some(mov => mov >= amount * 0.1)`: some movement covers a tenth of the requested loan. */
  predicate CoversLoan(s: seq<int>, amount: int)
  {
    exists k :: 0 <= k < |s| && s[k] as real >= amount as real * 0.1
  }

  /** The loan cover test in integers: a movement covers the loan iff ten times it reaches the amount. */
  lemma CoversLoanInIntegers(s: seq<int>, amount: int)
    ensures CoversLoan(s, amount) <==> exists k :: 0 <= k < |s| && 10 * s[k] >= amount
  {
  }

  /** The money held by a whole book: the sum of every account's balance. */
  function Total(ledger: seq<seq<int>>): int
  {
    if ledger == [] then 0 else Total(ledger[..|ledger| - 1]) + Sum(ledger[|ledger| - 1])
  }

  /** Appending `mov` to the movements of account `i` changes the book's total by exactly `mov`. */
  lemma {:induction false} TotalAppendAt(ledger: seq<seq<int>>, i: nat, mov: int)
    requires i < |ledger|
    ensures Total(ledger[i := ledger[i] + [mov]]) == Total(ledger) + mov
  {
    var n := |ledger| - 1;
    var updated := ledger[i := ledger[i] + [mov]];
    assert updated[..n] == if i == n then ledger[..n] else ledger[..n][i := ledger[i] + [mov]];
    if i == n {
      SumAppend(ledger[n], mov);
    } else {
      TotalAppendAt(ledger[..n], i, mov);
    }
  }

  /** A book that differs from another only by `mov` appended to account `i` holds `mov` more. */
  lemma TotalAfterAppend(ledger: seq<seq<int>>, ledger': seq<seq<int>>, i: nat, mov: int)
    requires |ledger'| == |ledger| && i < |ledger|
    requires ledger'[i] == ledger[i] + [mov]
    requires forall k :: 0 <= k < |ledger| && k != i ==> ledger'[k] == ledger[k]
    ensures Total(ledger') == Total(ledger) + mov
  {
    assert ledger' == ledger[i := ledger[i] + [mov]];
    TotalAppendAt(ledger, i, mov);
  }

  /** Appending `a` to one account and `b` to another changes the book's total by `a + b`. */
  lemma TotalAfterTwoAppends(ledger: seq<seq<int>>, ledger': seq<seq<int>>, i: nat, j: nat, a: int, b: int)
    requires |ledger'| == |ledger| && i < |ledger| && j < |ledger| && i != j
    requires ledger'[i] == ledger[i] + [a] && ledger'[j] == ledger[j] + [b]
    requires forall k :: 0 <= k < |ledger| && k != i && k != j ==> ledger'[k] == ledger[k]
    ensures Total(ledger') == Total(ledger) + a + b
  {
    var middle := ledger[i := ledger[i] + [a]];
    TotalAppendAt(ledger, i, a);
    TotalAfterAppend(middle, ledger', j, b);
  }
}
