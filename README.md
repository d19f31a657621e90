# Date-component interval algebra

This project models the arithmetic core of the Swift extensions in
`SwiftDateTimeExtensions/timeDateExtensions.swift`. That file overloads operators on
`NSDateComponents` and adds constructors to `Int`. In the model, a set of date
components (an *interval*) is the datatype `Interval`. It has six fields: second,
minute, hour, day, month and year. Each field is `None` (undefined) or `Some(n)`.

Everything lives in module `TimeDateExtensions` (`interval.dfy`):

- `Get` and `Set` give a per-field view of an interval. `Set` models one field
  assignment such as `comps.day = v`. `Undefined` is a freshly allocated
  `NSDateComponents()`.
- `Combine` models `combineComponents`. It starts from `Undefined` and assigns all six
  fields in the source's order. Each field gets `left + right * multiplier`, where an
  undefined operand reads as 0 (`ValueOrZero`).
- `Add` models binary `+` (multiplier 1). `Sub` models binary `-` (multiplier -1).
- `Neg` models prefix `-`. It starts from `Undefined` and assigns the negation of each
  defined field only.
- `Minutes`, `Hours`, `Days`, `Weeks`, `Months` and `Years` model the `Int`
  extensions. Each sets one field. `Weeks` sets the day field to `7 * n`. There is no
  seconds constructor, because the source has none.
- `IntervalVar` is a variable of type `Interval`. Its methods `AddAssign` and
  `SubAssign` model `+=` and `-=` on an `inout` binding.
- `FromNow` and `Ago` model the projection onto the current date. The calendar
  (`dateByAddingComponents`) and the clock reading (`NSDate()`) are parameters.
  The calendar returns `None` where the source's forced unwrap would trap.

`combineComponents` assigns all six fields unconditionally (lines 35-47). So:

- a field that is undefined in both operands comes out as a defined 0;
- `a + allUndefined` is `a` with its undefined fields set to 0, and equals `a` only
  when every field of `a` is defined (`AddUndefined`);
- `5.days + 3.months` has day 5, month 3 and its four other fields defined as 0
  (`FiveDaysPlusThreeMonths`);
- `-a + a` has every field defined as 0, not only the fields defined in `a`
  (`NegAddSelfIsZero`).

## Model

| member | source | states |
|---|---|---|
| `TimeDateExtensions.Combine` | SwiftDateTimeExtensions/timeDateExtensions.swift:31-48 | every one of the six result fields is defined, and equals left + right * multiplier, with undefined operands read as 0 |
| `TimeDateExtensions.Add` | SwiftDateTimeExtensions/timeDateExtensions.swift:51-53 | every result field is defined and equals the sum of the operands' fields, with undefined read as 0 |
| `TimeDateExtensions.Sub` | SwiftDateTimeExtensions/timeDateExtensions.swift:56-58 | every result field is defined and equals left minus right, with undefined read as 0 |
| `TimeDateExtensions.Neg` | SwiftDateTimeExtensions/timeDateExtensions.swift:61-70 | a field of the result is defined exactly when it is defined in the operand, and then holds the negated value |
| `TimeDateExtensions.Minutes` | SwiftDateTimeExtensions/timeDateExtensions.swift:83-87 | only the minute field is defined, and it holds n |
| `TimeDateExtensions.Hours` | SwiftDateTimeExtensions/timeDateExtensions.swift:89-93 | only the hour field is defined, and it holds n |
| `TimeDateExtensions.Days` | SwiftDateTimeExtensions/timeDateExtensions.swift:95-99 | only the day field is defined, and it holds n |
| `TimeDateExtensions.Weeks` | SwiftDateTimeExtensions/timeDateExtensions.swift:101-105 | only the day field is defined, and it holds 7 * n |
| `TimeDateExtensions.Months` | SwiftDateTimeExtensions/timeDateExtensions.swift:107-111 | only the month field is defined, and it holds n |
| `TimeDateExtensions.Years` | SwiftDateTimeExtensions/timeDateExtensions.swift:113-117 | only the year field is defined, and it holds n |
| `TimeDateExtensions.IntervalVar.AddAssign` | SwiftDateTimeExtensions/timeDateExtensions.swift:73-75 | after `left += right`, the variable holds the old value plus right |
| `TimeDateExtensions.IntervalVar.SubAssign` | SwiftDateTimeExtensions/timeDateExtensions.swift:77-79 | after `left -= right`, the variable holds the old value minus right |
| `TimeDateExtensions.CombineDefinesEveryField` | SwiftDateTimeExtensions/timeDateExtensions.swift:35-48 | every field of a combination is defined, for any operands; combining with the all-undefined interval fills the left operand's undefined fields with 0, for any multiplier |
| `TimeDateExtensions.AddUndefined` | SwiftDateTimeExtensions/timeDateExtensions.swift:35-53 | `a + allUndefined` is `a` with its undefined fields set to 0, and it equals `a` if and only if every field of `a` is defined |
| `TimeDateExtensions.NegInvolution` | SwiftDateTimeExtensions/timeDateExtensions.swift:61-70 | negating twice gives back the original interval, undefined fields included |
| `TimeDateExtensions.SubIsAddNeg` | SwiftDateTimeExtensions/timeDateExtensions.swift:51-70 | `a - b == a + (-b)` and `a + b == a - (-b)` for all intervals |
| `TimeDateExtensions.NegAddSelfIsZero` | SwiftDateTimeExtensions/timeDateExtensions.swift:35-70 | `-a + a` and `a - a` have every field defined and equal to 0 |
| `TimeDateExtensions.AddCommutes` | SwiftDateTimeExtensions/timeDateExtensions.swift:35-53 | `a + b == b + a` |
| `TimeDateExtensions.AddAssociates` | SwiftDateTimeExtensions/timeDateExtensions.swift:35-53 | `(a + b) + c == a + (b + c)` |
| `TimeDateExtensions.SubUndoesAdd` | SwiftDateTimeExtensions/timeDateExtensions.swift:35-58 | `(a + b) - b` and `(a - b) + b` both give back `a` with its undefined fields set to 0 |
| `TimeDateExtensions.WeeksAreSevenDays` | SwiftDateTimeExtensions/timeDateExtensions.swift:95-105 | `n.weeks == (7 * n).days`, so `1.weeks == 7.days` |
| `TimeDateExtensions.FiveDaysPlusThreeMonths` | SwiftDateTimeExtensions/timeDateExtensions.swift:125 | `5.days + 3.months` has day 5, month 3, and second, minute, hour and year defined as 0 |
| `TimeDateExtensions.FromNowIsAgoOfNeg` | SwiftDateTimeExtensions/timeDateExtensions.swift:17-27 | `a.fromNow` equals `(-a).ago` with the same calendar and clock reading |
| `TimeDateExtensions.WeeksAgo` | SwiftDateTimeExtensions/timeDateExtensions.swift:24-27 | for every n, `n.weeks.ago` equals `(-7 * n).days.fromNow` with the same calendar and clock reading; in particular `2.weeks.ago` equals `(-14).days.fromNow` |

## Left out

- The sentinel `NSDateComponentUndefined`: the model marks an undefined field with `None`. In the source, a field whose real value equals `NSIntegerMax` cannot be told apart from an undefined field. The model has no such collision.
- Combine: does not model Swift `Int` overflow. Integers are unbounded, so a sum or product that would trap in the source has a value in the model.
- Neg: does not model the `Int` overflow trap on negating the smallest `Int`.
- Weeks: does not model the `Int` overflow trap on `7 * self`.
- Object identity: operands and results are values. The source always returns a freshly allocated object and never changes an operand; with values this holds by construction, and aliasing is not modelled.
- The other `NSDateComponents` fields (era, weekday, nanosecond and so on): `+`, `-` and prefix `-` build a fresh `NSDateComponents()` (lines 35 and 62) and set at most the six fields, so they discard every other field set on an operand. The model has only the six fields, so it does not show this loss.
- NegInvolution: holds in the source only for components whose set fields are all among the six (the negation drops the others), and not for a field holding `-NSIntegerMax`, whose double negation is the undefined sentinel.
- FromNowIsAgoOfNeg: holds in the source only for components whose set fields are all among the six. `fromNow` passes `self` whole to the calendar (line 20), but `ago` passes `-self` (line 26), which has lost the other fields.
- `FromNow` and `Ago`: the calendar arithmetic of `NSCalendar` and the system clock are external. They are parameters, so the model says nothing about the dates they produce. A `None` from the calendar stands for the trap of the forced unwrap.
- `tests()` (lines 121-126): it only prints example values. Its two interval expressions are stated as the lemmas `FiveDaysPlusThreeMonths` and `WeeksAgo`.
