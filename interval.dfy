/**
  Interval algebra over date components: a set of calendar-field deltas
  (second, minute, hour, day, month, year), each either undefined or an
  integer, with addition, subtraction, negation, compound assignment, the
  integer constructors (`5.days`, `2.weeks`, ...) and the projection of an
  interval onto the current date (`fromNow`, `ago`).
 */
module TimeDateExtensions {

  datatype Option<+T> = None | Some(value: T)

  /** The six date-component fields that the operators read and write. */
  datatype Field = Second | Minute | Hour | Day | Month | Year

  /** A set of date components. `None` is an undefined field. */
  datatype Interval = Interval(
    second: Option<int>,
    minute: Option<int>,
    hour: Option<int>,
    day: Option<int>,
    month: Option<int>,
    year: Option<int>)

  /** A freshly allocated set of date components: every field undefined. */
  const Undefined: Interval := Interval(None, None, None, None, None, None)

  /** Every field defined and equal to zero. */
  const Zero: Interval := Interval(Some(0), Some(0), Some(0), Some(0), Some(0), Some(0))

  /** Reads one field. */
  function Get(a: Interval, f: Field): (r: Option<int>)
  {
    match f
    case Second => a.second
    case Minute => a.minute
    case Hour => a.hour
    case Day => a.day
    case Month => a.month
    case Year => a.year
  }

  predicate Defined(a: Interval, f: Field)
  {
    Get(a, f).Some?
  }

  /** Assigns one field (`comps.day = v`); the other five keep their values. */
  function Set(a: Interval, f: Field, v: int): (r: Interval)
    ensures Get(r, f) == Some(v)
    ensures forall g :: g != f ==> Get(r, g) == Get(a, g)
  {
    match f
    case Second => a.(second := Some(v))
    case Minute => a.(minute := Some(v))
    case Hour => a.(hour := Some(v))
    case Day => a.(day := Some(v))
    case Month => a.(month := Some(v))
    case Year => a.(year := Some(v))
  }

  /** Two intervals are equal exactly when they agree on every field. */
  lemma Extensionality(a: Interval, b: Interval)
    requires forall f :: Get(a, f) == Get(b, f)
    ensures a == b
  {
    assert Get(a, Second) == Get(b, Second);
    assert Get(a, Minute) == Get(b, Minute);
    assert Get(a, Hour) == Get(b, Hour);
    assert Get(a, Day) == Get(b, Day);
    assert Get(a, Month) == Get(b, Month);
    assert Get(a, Year) == Get(b, Year);
  }

  /** The value of a field, an undefined field counting as 0. */
  function ValueOrZero(o: Option<int>): (v: int)
  {
    match o
    case Some(x) => x
    case None => 0
  }

  /** The interval with every undefined field replaced by a defined 0. */
  function Fill(a: Interval): (r: Interval)
    ensures forall f :: Get(r, f) == Some(ValueOrZero(Get(a, f)))
  {
    Interval(
      Some(ValueOrZero(a.second)),
      Some(ValueOrZero(a.minute)),
      Some(ValueOrZero(a.hour)),
      Some(ValueOrZero(a.day)),
      Some(ValueOrZero(a.month)),
      Some(ValueOrZero(a.year)))
  }

  /**
    `combineComponents(left, right, multiplier)`: a fresh set of components
    whose six fields are all assigned, each to left + right * multiplier with
    undefined operands read as 0. A field undefined in both operands comes
    out defined as 0.
   */
  function Combine(left: Interval, right: Interval, multiplier: int): (c: Interval)
    ensures forall f :: Get(c, f) == Some(ValueOrZero(Get(left, f)) + ValueOrZero(Get(right, f)) * multiplier)
  {
    var c0 := Undefined;
    var c1 := Set(c0, Second, ValueOrZero(left.second) + ValueOrZero(right.second) * multiplier);
    var c2 := Set(c1, Minute, ValueOrZero(left.minute) + ValueOrZero(right.minute) * multiplier);
    var c3 := Set(c2, Hour, ValueOrZero(left.hour) + ValueOrZero(right.hour) * multiplier);
    var c4 := Set(c3, Day, ValueOrZero(left.day) + ValueOrZero(right.day) * multiplier);
    var c5 := Set(c4, Month, ValueOrZero(left.month) + ValueOrZero(right.month) * multiplier);
    Set(c5, Year, ValueOrZero(left.year) + ValueOrZero(right.year) * multiplier)
  }

  /** Binary `+`. */
  function Add(left: Interval, right: Interval): (s: Interval)
    ensures forall f :: Get(s, f) == Some(ValueOrZero(Get(left, f)) + ValueOrZero(Get(right, f)))
  {
    Combine(left, right, 1)
  }

  /** Binary `-`. */
  function Sub(left: Interval, right: Interval): (d: Interval)
    ensures forall f :: Get(d, f) == Some(ValueOrZero(Get(left, f)) - ValueOrZero(Get(right, f)))
  {
    Combine(left, right, -1)
  }

  /**
    Prefix `-`: a fresh set of components in which each field defined in the
    operand is assigned its negation; the other fields stay undefined.
   */
  function Neg(a: Interval): (n: Interval)
    ensures forall f :: Get(n, f) == if Defined(a, f) then Some(-Get(a, f).value) else None
  {
    var c0 := Undefined;
    var c1 := if a.second.Some? then Set(c0, Second, -a.second.value) else c0;
    var c2 := if a.minute.Some? then Set(c1, Minute, -a.minute.value) else c1;
    var c3 := if a.hour.Some? then Set(c2, Hour, -a.hour.value) else c2;
    var c4 := if a.day.Some? then Set(c3, Day, -a.day.value) else c3;
    var c5 := if a.month.Some? then Set(c4, Month, -a.month.value) else c4;
    if a.year.Some? then Set(c5, Year, -a.year.value) else c5
  }

  /** Exactly field `f` is defined, with value `v`; the other five are undefined. */
  predicate OnlyField(a: Interval, f: Field, v: int)
  {
    Get(a, f) == Some(v) && forall g :: g != f ==> Get(a, g) == None
  }

  /** `n.minutes` */
  function Minutes(n: int): (a: Interval)
    ensures OnlyField(a, Minute, n)
  {
    Set(Undefined, Minute, n)
  }

  /** `n.hours` */
  function Hours(n: int): (a: Interval)
    ensures OnlyField(a, Hour, n)
  {
    Set(Undefined, Hour, n)
  }

  /** `n.days` */
  function Days(n: int): (a: Interval)
    ensures OnlyField(a, Day, n)
  {
    Set(Undefined, Day, n)
  }

  /** `n.weeks`: a week is carried in the day field as seven days. */
  function Weeks(n: int): (a: Interval)
    ensures OnlyField(a, Day, 7 * n)
  {
    Set(Undefined, Day, 7 * n)
  }

  /** `n.months` */
  function Months(n: int): (a: Interval)
    ensures OnlyField(a, Month, n)
  {
    Set(Undefined, Month, n)
  }

  /** `n.years` */
  function Years(n: int): (a: Interval)
    ensures OnlyField(a, Year, n)
  {
    Set(Undefined, Year, n)
  }

  // ---------------------------------------------------------------------------
  // Laws of the algebra

  /** Every field of a combination is defined, whatever the operands. */
  lemma CombineDefinesEveryField(left: Interval, right: Interval, multiplier: int)
    ensures forall f :: Defined(Combine(left, right, multiplier), f)
    ensures Combine(left, Undefined, multiplier) == Fill(left)
  {
    Extensionality(Combine(left, Undefined, multiplier), Fill(left));
  }

  /**
    Adding the all-undefined interval is an identity only on intervals that
    have every field defined: otherwise the undefined fields come back as 0.
   */
  lemma AddUndefined(a: Interval)
    ensures Add(a, Undefined) == Fill(a)
    ensures Add(a, Undefined) == a <==> forall f :: Defined(a, f)
  {
    Extensionality(Add(a, Undefined), Fill(a));
    if forall f :: Defined(a, f) {
      forall f ensures Get(Fill(a), f) == Get(a, f) {
        assert Defined(a, f);
      }
      Extensionality(Fill(a), a);
    } else {
      var f :| !Defined(a, f);
      assert Get(Fill(a), f) != Get(a, f);
    }
  }

  /** Negation is an involution. */
  lemma NegInvolution(a: Interval)
    ensures Neg(Neg(a)) == a
  {
    Extensionality(Neg(Neg(a)), a);
  }

  /** Subtraction is addition of the negation, and addition is subtraction of it. */
  lemma SubIsAddNeg(a: Interval, b: Interval)
    ensures Sub(a, b) == Add(a, Neg(b))
    ensures Add(a, b) == Sub(a, Neg(b))
  {
    Extensionality(Sub(a, b), Add(a, Neg(b)));
    Extensionality(Add(a, b), Sub(a, Neg(b)));
  }

  /** `-a + a` and `a - a` have every field defined and equal to 0. */
  lemma NegAddSelfIsZero(a: Interval)
    ensures Add(Neg(a), a) == Zero
    ensures Sub(a, a) == Zero
  {
    Extensionality(Add(Neg(a), a), Zero);
    Extensionality(Sub(a, a), Zero);
  }

  /** Addition is commutative. */
  lemma AddCommutes(a: Interval, b: Interval)
    ensures Add(a, b) == Add(b, a)
  {
    Extensionality(Add(a, b), Add(b, a));
  }

  /** Addition is associative. */
  lemma AddAssociates(a: Interval, b: Interval, c: Interval)
    ensures Add(Add(a, b), c) == Add(a, Add(b, c))
  {
    Extensionality(Add(Add(a, b), c), Add(a, Add(b, c)));
  }

  /** Subtracting what was added gives back the left operand, with its undefined fields as 0. */
  lemma SubUndoesAdd(a: Interval, b: Interval)
    ensures Sub(Add(a, b), b) == Fill(a)
    ensures Add(Sub(a, b), b) == Fill(a)
  {
    Extensionality(Sub(Add(a, b), b), Fill(a));
    Extensionality(Add(Sub(a, b), b), Fill(a));
  }

  /** `1.weeks == 7.days`, and in general `n.weeks == (7 * n).days`. */
  lemma WeeksAreSevenDays(n: int)
    ensures Weeks(n) == Days(7 * n)
    ensures Weeks(1) == Days(7)
  {
  }

  /** `5.days + 3.months`: day 5, month 3, and the other four fields defined as 0. */
  lemma FiveDaysPlusThreeMonths()
    ensures Add(Days(5), Months(3)) == Interval(Some(0), Some(0), Some(0), Some(5), Some(3), Some(0))
  {
    Extensionality(Add(Days(5), Months(3)), Interval(Some(0), Some(0), Some(0), Some(5), Some(3), Some(0)));
  }

  // ---------------------------------------------------------------------------
  // Projection onto the current date

  /**
    `fromNow`: the calendar adds the interval to the current date. The calendar
    and the clock reading are parameters; `None` from the calendar is the case
    in which the source's forced unwrap traps.
   */
  function FromNow<D>(calendar: (Interval, D) -> Option<D>, now: D, a: Interval): (r: Option<D>)
  {
    calendar(a, now)
  }

  /** `ago`: the calendar adds the negated interval to the current date. */
  function Ago<D>(calendar: (Interval, D) -> Option<D>, now: D, a: Interval): (r: Option<D>)
  {
    calendar(Neg(a), now)
  }

  /** Going forward by an interval is going back by its negation. */
  lemma FromNowIsAgoOfNeg<D>(calendar: (Interval, D) -> Option<D>, now: D, a: Interval)
    ensures FromNow(calendar, now, a) == Ago(calendar, now, Neg(a))
  {
    NegInvolution(a);
  }

  /**
    `n.weeks.ago` is `(-7 * n).days.fromNow` for the same calendar and clock
    reading; in particular `2.weeks.ago` is `(-14).days.fromNow`.
   */
  lemma WeeksAgo<D>(calendar: (Interval, D) -> Option<D>, now: D, n: int)
    ensures Ago(calendar, now, Weeks(n)) == FromNow(calendar, now, Days(-7 * n))
    ensures Ago(calendar, now, Weeks(2)) == FromNow(calendar, now, Days(-14))
  {
    Extensionality(Neg(Weeks(n)), Days(-7 * n));
    Extensionality(Neg(Weeks(2)), Days(-14));
  }

  // ---------------------------------------------------------------------------
  // Compound assignment

  /** A variable holding a set of date components, rebound by `+=` and `-=`. */
  class IntervalVar {
    var value: Interval

    constructor (v: Interval)
      ensures value == v
    {
      value := v;
    }

    /** `left += right` */
    method AddAssign(right: Interval)
      modifies this
      ensures value == Add(old(value), right)
    {
      value := Add(value, right);
    }

    /** `left -= right` */
    method SubAssign(right: Interval)
      modifies this
      ensures value == Sub(old(value), right)
    {
      value := Sub(value, right);
    }
  }
}
