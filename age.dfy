/**
 * The swimmer's age on a given day, from the date of birth on the results
 * sheet: the difference of the calendar years, less one when this year's
 * birthday is still to come.
 */
module Age {

  /**
   * A calendar day as the `Date` getters report it: `getFullYear`,
   * `getMonth` and `getDate`. Only their order matters here.
   */
  datatype Date = Date(year: int, month: int, day: int)

  /** `a` is the same day as `b` or an earlier one. */
  predicate OnOrBefore(a: Date, b: Date) {
    a.year < b.year
    || (a.year == b.year && (a.month < b.month || (a.month == b.month && a.day <= b.day)))
  }

  /** The `n`-th birthday: same month and day, `n` years on. */
  function Anniversary(birth: Date, n: int): Date {
    Date(birth.year + n, birth.month, birth.day)
  }

  /** `n` is the age on `today`: the `n`-th birthday has come and the next one has not. */
  predicate IsAgeOn(birth: Date, today: Date, n: int) {
    OnOrBefore(Anniversary(birth, n), today) && !OnOrBefore(Anniversary(birth, n + 1), today)
  }

  /**
   * The age computation of the load step: start from the year difference and
   * take one off when the birthday has not yet passed this year.
   */
  method AgeOn(birth: Date, today: Date) returns (age: int)
    ensures IsAgeOn(birth, today, age)
    ensures age == today.year - birth.year
      <==> birth.month < today.month || (birth.month == today.month && birth.day <= today.day)
    ensures age == today.year - birth.year || age == today.year - birth.year - 1
  {
    age := today.year - birth.year;
    var birthdayPassed := today.month > birth.month
      || (today.month == birth.month && today.day >= birth.day);
    if !birthdayPassed {
      age := age - 1;
    }
  }

  /** A day has only one age. */
  lemma AgeIsUnique(birth: Date, today: Date, m: int, n: int)
    requires IsAgeOn(birth, today, m) && IsAgeOn(birth, today, n)
    ensures m == n
  {
    if m < n {
      AnniversaryMonotone(birth, m + 1, n, today);
    } else if n < m {
      AnniversaryMonotone(birth, n + 1, m, today);
    }
  }

  /** A birthday that has come means every earlier one has come too. */
  lemma AnniversaryMonotone(birth: Date, i: int, j: int, today: Date)
    requires i <= j && OnOrBefore(Anniversary(birth, j), today)
    ensures OnOrBefore(Anniversary(birth, i), today)
  {
  }

  /** On the `n`-th birthday itself the age is already `n`. */
  lemma AgeOnBirthday(birth: Date, n: int)
    ensures IsAgeOn(birth, Anniversary(birth, n), n)
  {
  }

  /** Born 15 March 2010: 13 on 14 March 2024, 14 on 15 March 2024. */
  lemma AgeExample()
    ensures IsAgeOn(Date(2010, 2, 15), Date(2024, 2, 14), 13)
    ensures IsAgeOn(Date(2010, 2, 15), Date(2024, 2, 15), 14)
  {
  }
}
