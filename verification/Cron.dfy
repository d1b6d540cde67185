/** Parsed five-field cron expressions. */
module Cron {

  datatype CronFields = CronFields(
    minutes: set<int>, hours: set<int>, daysOfMonth: set<int>, months: set<int>, daysOfWeek: set<int>,
    domRestricted: bool, dowRestricted: bool)

  /** What the parser guarantees of the time-of-day fields. */
  predicate ValidFields(f: CronFields) {
    && f.minutes != {} && (forall m :: m in f.minutes ==> 0 <= m < 60)
    && f.hours != {} && (forall h :: h in f.hours ==> 0 <= h < 24)
  }

  function MatchesDay(f: CronFields, dayOfMonth: int, dayOfWeek: int): bool {
    var domHit := dayOfMonth in f.daysOfMonth;
    var dowHit := dayOfWeek in f.daysOfWeek;
    if f.domRestricted && f.dowRestricted then domHit || dowHit
    else if f.domRestricted then domHit
    else if f.dowRestricted then dowHit
    else true
  }
}
