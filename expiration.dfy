/** The expiration rule: a fresh record expires ten calendar months after the
    current time; an existing expiration is moved by a number of days. */
module Expiration {
  import opened Wrappers

  /** A point in time, counted in whole days from an arbitrary epoch. */
  type Timestamp = int

  /** The platform calendar. Month arithmetic depends on month lengths and is
      supplied from outside; day arithmetic on a day count is addition. */
  datatype Calendar = Calendar(addMonths: (Timestamp, int) -> Timestamp)

  /** How far ahead a fresh record expires, in calendar months. */
  const DefaultMonths: int := 10

  /** The new expiration: `now` plus ten months when there is no current date
      (`day` is then ignored), otherwise `date` plus `day` days. */
  function GetOrUpdateExpirationDate(calendar: Calendar, now: Timestamp, day: int, date: Option<Timestamp>): Timestamp
  {
    match date
    case None => calendar.addMonths(now, DefaultMonths)
    case Some(t) => t + day
  }

  /** Without a current date the result is ten months after now, whatever `day` is. */
  lemma FreshIgnoresDay(calendar: Calendar, now: Timestamp, day1: int, day2: int)
    ensures GetOrUpdateExpirationDate(calendar, now, day1, None) == calendar.addMonths(now, DefaultMonths)
    ensures GetOrUpdateExpirationDate(calendar, now, day1, None) == GetOrUpdateExpirationDate(calendar, now, day2, None)
  {
  }

  /** With a current date the result is that date moved by exactly `day` days;
      neither the clock nor month arithmetic is consulted. */
  lemma ExtendByDays(calendar1: Calendar, calendar2: Calendar, now1: Timestamp, now2: Timestamp, day: int, t: Timestamp)
    ensures GetOrUpdateExpirationDate(calendar1, now1, day, Some(t)) - t == day
    ensures GetOrUpdateExpirationDate(calendar1, now1, day, Some(t)) == GetOrUpdateExpirationDate(calendar2, now2, day, Some(t))
  {
  }

  /** `day` is not validated: zero keeps the date, a negative value moves it
      earlier and a positive value later. */
  lemma ExtendDirection(calendar: Calendar, now: Timestamp, day: int, t: Timestamp)
    ensures day == 0 ==> GetOrUpdateExpirationDate(calendar, now, day, Some(t)) == t
    ensures day < 0 <==> GetOrUpdateExpirationDate(calendar, now, day, Some(t)) < t
    ensures day > 0 <==> GetOrUpdateExpirationDate(calendar, now, day, Some(t)) > t
  {
  }

  /** Two extensions in a row amount to one extension by their sum. */
  lemma ExtensionsCompose(calendar: Calendar, now1: Timestamp, now2: Timestamp, a: int, b: int, t: Timestamp)
    ensures GetOrUpdateExpirationDate(calendar, now2, b, Some(GetOrUpdateExpirationDate(calendar, now1, a, Some(t))))
         == GetOrUpdateExpirationDate(calendar, now1, a + b, Some(t))
  {
  }
}
