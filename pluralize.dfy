/**
 * The Russian word for "second" agreeing with a count (main.py,
 * pluralize_seconds). The program defines this function but never calls it.
 */
module Pluralize {
  /** The three forms the timer can print. */
  const One := "секунда"    // 1, 21, 31, ... ("одна секунда")
  const Few := "секунды"    // 2-4, 22-24, ... ("две секунды")
  const Many := "секунд"    // 0, 5-20, 25-30, ... ("пять секунд")

  /**
   * An independent reference: the plural categories of Russian integers as
   * the usual grammar rule states them, one rule per category.
   */
  datatype Category = OneCategory | FewCategory | ManyCategory

  function CategoryOf(n: int): Category
  {
    if n % 10 == 1 && n % 100 != 11 then OneCategory
    else if 2 <= n % 10 <= 4 && !(12 <= n % 100 <= 14) then FewCategory
    else ManyCategory
  }

  function Word(c: Category): string
  {
    match c
    case OneCategory => One
    case FewCategory => Few
    case ManyCategory => Many
  }

  /**
   * The source's case split: the teens 11..14 (by the last two digits) come
   * first, then the last digit decides. `%` with the positive divisors 100
   * and 10 is the same in Dafny as in Python, negative `n` included.
   */
  function PluralizeSeconds(n: int): (r: string)
    ensures r == One || r == Few || r == Many
    ensures 11 <= n % 100 <= 14 ==> r == Many
    ensures !(11 <= n % 100 <= 14) && n % 10 == 1 ==> r == One
    ensures !(11 <= n % 100 <= 14) && 2 <= n % 10 <= 4 ==> r == Few
    ensures !(11 <= n % 100 <= 14) && (n % 10 == 0 || 5 <= n % 10) ==> r == Many
    ensures r == Word(CategoryOf(n))
  {
    if 11 <= n % 100 <= 14 then
      Many
    else
      var lastDigit := n % 10;
      if lastDigit == 1 then One
      else if 2 <= lastDigit <= 4 then Few
      else Many
  }

  /** The three forms are distinct words, so each `r == ...` above is exact. */
  lemma FormsDistinct()
    ensures One != Few && Few != Many && One != Many
  {
  }

  /** Which form is printed depends only on the last two digits. */
  lemma {:induction false} PluralizePeriodic(n: int, k: int)
    ensures PluralizeSeconds(n + 100 * k) == PluralizeSeconds(n)
    decreases if k < 0 then -k else k
  {
    if k > 0 {
      PluralizePeriodic(n, k - 1);
      PluralizeStep(n + 100 * (k - 1));
    } else if k < 0 {
      PluralizePeriodic(n, k + 1);
      PluralizeStep(n + 100 * k);
    }
  }

  lemma PluralizeStep(n: int)
    ensures PluralizeSeconds(n + 100) == PluralizeSeconds(n)
  {
    var q, m := n / 10, n % 10;
    assert n + 100 == (q + 10) * 10 + m;
    assert (n + 100) % 10 == m;
    assert (n + 100) % 100 == n % 100;
    assert CategoryOf(n + 100) == CategoryOf(n);
  }

  /** Concrete counts, including the teens that a last-digit rule alone gets wrong. */
  lemma PluralizeExamples()
    ensures PluralizeSeconds(1) == One && PluralizeSeconds(21) == One && PluralizeSeconds(101) == One
    ensures PluralizeSeconds(2) == Few && PluralizeSeconds(34) == Few
    ensures PluralizeSeconds(0) == Many && PluralizeSeconds(5) == Many && PluralizeSeconds(11) == Many
    ensures PluralizeSeconds(12) == Many && PluralizeSeconds(14) == Many && PluralizeSeconds(111) == Many
    ensures PluralizeSeconds(-1) == Many
  {
  }
}
