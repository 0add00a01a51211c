# Bond calculator core, modelled in Dafny

This project models the computational core of a Vietnamese bond price
calculator. Two source files hold that core.

`utils.js` holds:
- the face-value text helpers (`formatVNDInput`, `parseVNDInput`);
- the DD/MM/YYYY date text helpers (`parseDateVN`, `formatDateVN`);
- UTC month arithmetic with end-of-month clamping and a weekend roll (`addMonthsUTC`);
- the Actual/365 day count (`actualDays`, `yearFrac`);
- the anchored coupon schedule (`buildSchedule`) and its lookups (`findPrevNext`, `getPaymentNumber`);
- floating-rate resolution (`getInterestRate`, the effective rate with its floor, `calculateAverageBankRate`);
- the two pricing routines (`priceBond`, `priceFloatingBond`).

`js/introTab.js`, the offering tab, holds:
- its own calendar helpers: `addMonths`, which lets the day spill into the next month; `subtractWorkingDays`; a weekend-rolled `buildSchedule`; and `findNextCoupon`;
- the bond selection and sort of `getBondsForDuration`.

Dates are integer day numbers counted from 1970-01-01, which is what a `Date`
built at UTC midnight is once milliseconds are divided out. Day 0 was a
Thursday, so `getUTCDay` is `(n + 4) % 7`. Amounts and rates are exact
reals. `Math.pow` is a function parameter `pow`, about which nothing is
assumed, so the pricing results are proved structurally: which flows are
emitted, in what order, at what amounts and rates, and how the prices
combine them.

Modules, one per file:
- `Wrappers`: `Option`.
- `Civil` (`civil.dfy`): the proleptic Gregorian calendar.
  - Conversion between day numbers and (year, month, day).
  - The ECMAScript `MakeDay` normalisation that `Date.UTC` and `setMonth` apply, and `Date.UTC`'s reading of the years 0 to 99 as 1900 to 1999.
  - Weekdays and the weekend roll.
- `Digits`: digit strings as `Number` reads them and `String` writes them.
- `VndText`: `formatVNDInput` and `parseVNDInput`.
- `DateText`: `parseDateVN` and `formatDateVN`.
- `DateMath`: `addMonthsUTC`, `actualDays` and `yearFrac`. `AddMonthsUTC` leaves out the 0-to-99 year mapping; `AddMonthsUTCAsWritten` keeps it.
- `Anchored`: the loop shape both `buildSchedule` functions share, proved once for any coupon-date function.
- `Schedule`: `buildSchedule`, `findPrevNext` and `getPaymentNumber` of `utils.js`.
- `Rates`: `getInterestRate`, the effective rate and `calculateAverageBankRate`.
- `Pricing`: `priceBond` and `priceFloatingBond`.
- `IntroCalendar`: the calendar helpers of the offering tab.
- `Offering`: `getBondsForDuration`.

## Model

| member | source | states |
|---|---|---|
| VndText.FormatVNDInputShape | utils.js:20-23 | the output consists of digits and dots only; it keeps exactly the digits of the input, in order, and has a "." exactly at the positions a positive multiple of four before the end, never first |
| VndText.ParseVNDInput | utils.js:25-27 | the result is a number (not NaN) exactly when the text without "." and "," is all digits |
| VndText.FormatThenParse | utils.js:20-27 | parsing formatted text gives the number spelled by the input's digits, 0 when there are none |
| DateText.ParseDateVN | utils.js:31-47 | the result is null exactly for empty text or text with neither "/" nor "-" |
| DateText.SlashFirst | utils.js:35-38 | any three slash-free parts joined by "/" take the "/" branch even when they hold '-', and read as day, month and year through `Date.UTC` |
| DateText.DashFallback | utils.js:40-44 | a text with no "/" and three dash-free parts joined by "-" reads as year, month and day through `Date.UTC` |
| DateText.UtcDate | utils.js:36-43 | the three parts give a date exactly when all three read as numbers, otherwise an Invalid Date, never null |
| DateText.ParseLayout | utils.js:31-38 | parsing the DD/MM/YYYY text of a date from year 100 on gives that date |
| DateText.ParseIsoLayout | utils.js:40-44 | parsing the YYYY-MM-DD fallback text of a date from year 100 on gives that date |
| DateText.FormatThenParse | utils.js:31-54 | `parseDateVN(formatDateVN(d))` is `d` for every day from year 100 on |
| DateText.ParseThenFormat | utils.js:31-54 | for a valid date with a four-digit year, parsing the zero-padded text and formatting the result gives the same ten-character text back |
| Digits.ValueOfToText | utils.js:50-52 | the decimal text `String(n)` reads back as `n` |
| Civil.CivilRoundTrip | utils.js:59-61 | reading year, month and day back from the day number of a valid date gives that date |
| Civil.RollOffWeekend | utils.js:66-72 | the rolled day is a weekday at most two days on, a weekday is kept, and only weekend days are skipped |
| DateMath.AddMonthsUTCLandsOnClampedDay | utils.js:58-74 | `addMonthsUTC` (with the target month's last day read back as day 0 of the next month) is the weekend roll of the target month's day `min(d, month length)` |
| DateMath.AddMonthsUTCCalendar | utils.js:58-74 | before the roll the result is the date (target year, target month, `min(d, month length)`); after it, a weekday at most two days later |
| DateMath.AddMonthsUTCIncreasing | utils.js:58-75 | for a fixed start, more months give a strictly later date |
| DateMath.AddMonthsUTCAfterStart | utils.js:58-75 | adding `k >= 1` months gives a date after the start, at least `28k - 30` days on |
| DateMath.UtcRollAgrees | utils.js:66-72 | rebuilding a weekend date from its year, month and day plus one or two days, through `Date.UTC`, is the move to the next Monday, for a date outside the years 0 to 99 |
| DateMath.AddMonthsUTCAsWrittenAgrees | utils.js:58-75 | `addMonthsUTC` as written, with `Date.UTC`'s mapping of the years 0 to 99, equals `DateMath.AddMonthsUTC` whenever neither the start year nor the target month's year lies in 0 to 99 |
| DateMath.YearFrac | utils.js:77-83 | 365 times the year fraction is the day difference, non-negative exactly when the dates are in order |
| DateMath.YearFracAdditive | utils.js:77-83 | year fractions of consecutive spans add up |
| Schedule.BuildSchedule | utils.js:87-106 | the schedule starts at the issue date; it is just the issue date when issue is not before maturity, and otherwise has at least two dates and ends at maturity |
| Schedule.BuildScheduleIncreasing | utils.js:87-106 | the schedule is strictly increasing |
| Schedule.BuildScheduleAnchored | utils.js:93-97 | every date strictly between the first and last is `addMonthsUTC(issue, k * step)` for its position `k`, before maturity |
| Schedule.BuildScheduleLastPeriod | utils.js:94-102 | the anchored date for the last position reaches or passes maturity, which replaced it |
| Schedule.BuildScheduleWeekdays | utils.js:87-106 | every date strictly between the first and last is a weekday |
| Anchored.BuildLoop | utils.js:87-106 | the while loop, with the overshoot replaced by maturity, computes the schedule |
| Schedule.FindPrevNext | utils.js:108-117 | the loop returns the last date on or before settlement and the first after it, null when there is none |
| Schedule.LastAtOrBefore | utils.js:108-117 | the index found holds a date on or before settlement and every later date is after it |
| Schedule.FirstAfter | utils.js:108-117 | the index found holds a date after settlement and every earlier date is on or before it |
| Schedule.FindPrevNextBounds | utils.js:108-117 | on an increasing schedule there is no `prev` exactly when settlement precedes the first date, and no `next` exactly when it is on or after the last |
| Schedule.FindNextEarliest | utils.js:108-117 | on an increasing schedule `next` is a schedule date after settlement, not later than any other such date |
| Schedule.GetPaymentNumber | utils.js:121-128 | the count is the index of the first equal date, or the length when there is none |
| Schedule.PaymentNumberIsIndex | utils.js:121-128 | on an increasing schedule every date's payment number is its position |
| Rates.GetInterestRateSpec | utils.js:130-139 | the entry returned is the highest-indexed one whose payment number is at most `paymentNum`; when none applies, entry 0; for an empty schedule, the default entry |
| Rates.GetInterestRateStep | utils.js:130-139 | on a schedule sorted by payment number, entry `i` governs exactly the payments from its own number up to the next entry's |
| Rates.LastApplicableMonotone | utils.js:130-139 | a later payment never falls back to an earlier entry |
| Rates.EffectiveRateSpec | utils.js:215-219 | the effective rate is the rate plus the bank rate for a floating entry; a non-zero floor raises it to at least the floor and never lowers it |
| Rates.CalculateAverageBankRate | utils.js:141-155 | 0 without a list; otherwise the mean of the listed banks' rates that are present in the table, 0 when none is |
| Rates.PresentRatesAllListed | utils.js:147-152 | when every listed bank is in the table, the rates averaged are exactly the listed banks' rates, in order |
| Rates.MeanBounds | utils.js:154 | the mean of rates that all lie in `[lo, hi]` lies in `[lo, hi]` |
| Pricing.DueFlowsOfSorted | utils.js:177-191 | on an increasing schedule the loop pushes one flow per date after settlement, in order, each for the period ending at that date |
| Pricing.FixedFlowsFollowSchedule | utils.js:177-191 | `priceBond`'s flow `n` is paid on the `n`-th date after settlement, for the period from the previous date (or the issue date) |
| Pricing.PriceBondDates | utils.js:159-191 | the payment dates of `priceBond`'s flows are exactly the schedule dates after settlement, in order |
| Pricing.PriceBondFaceValue | utils.js:181-185 | each flow pays the coupon on its period, plus the face value on the last flow only |
| Pricing.PriceBondPrevNext | utils.js:159-161 | no `prev` exactly when settlement precedes issue; no `next` exactly when settlement is on or after maturity |
| Pricing.PriceBondAfterMaturity | utils.js:159-194 | from maturity on there are no flows, no `next`, and the dirty price is 0 |
| Pricing.FixedNextIsFirstFlow | utils.js:159-194 | `next` is the date of the first flow, and absent exactly when there are no flows |
| Pricing.FixedAccrued | utils.js:163-166 | accrued interest is 0 without `prev`, otherwise the coupon from `prev` to settlement, non-negative for non-negative inputs; clean is dirty less accrued |
| Pricing.FloatingFlowsFollowSchedule | utils.js:233-265 | `priceFloatingBond`'s flow `n` is paid on the `n`-th date after settlement, for the period ending there |
| Pricing.PriceFloatingBondDates | utils.js:208-265 | the payment dates of `priceFloatingBond`'s flows are exactly the schedule dates after settlement, in order |
| Pricing.FloatingRates | utils.js:240-247 | flow `n` uses the effective rate of the schedule entry for its payment number, its position in the schedule |
| Pricing.FloatingFlowAt | utils.js:240-264 | the flow paid at position `k` records payment number `k`, the entry's own rate and the bank rate |
| Pricing.PriceFloatingBondFaceValue | utils.js:249-250 | each flow pays the coupon at its rate, plus the face value on the last flow only |
| Pricing.FloatingAccrued | utils.js:211-222 | accrued interest is 0 without `prev`, otherwise the coupon at the effective rate of `prev`'s payment from `prev` to settlement; clean is dirty less accrued |
| Pricing.PriceFloatingBondPrevNext | utils.js:208-209 | no `prev` exactly when settlement precedes issue; no `next` exactly when settlement is on or after maturity |
| Pricing.PriceFloatingBondAfterMaturity | utils.js:198-268 | from maturity on there are no flows, no `next`, and the dirty price is 0 |
| Pricing.FixedAsFloating | utils.js:159-268 | a fixed coupon priced as a one-entry floating schedule gives the same `prev`, `next`, accrued interest and flow dates, periods, amounts and rates; with one payment a year the prices agree too |
| Pricing.PriceBondAsFloating | utils.js:159-268 | the same comparison for the two routines on their own schedules |
| IntroCalendar.AddMonthsLands | js/introTab.js:31-35 | when the day exists in the target month, `addMonths` lands on it; otherwise the excess days spill into the next month |
| IntroCalendar.AddMonthsZero | js/introTab.js:31-35 | adding no months gives the date back |
| IntroCalendar.AddMonthsApart | js/introTab.js:31-35 | each extra month moves the result at least 28 days on |
| IntroCalendar.AddMonthsSpillExample | js/introTab.js:31-35 | 31 January 2023 plus one month is 3 March 2023 |
| IntroCalendar.SubtractWorkingDays | js/introTab.js:37-50 | for `days > 0` the result is a weekday before `dt`, and `[result, dt)` holds exactly `days` weekdays; otherwise it is `dt` |
| IntroCalendar.StepBack | js/introTab.js:41-47 | the loop from any point steps back over exactly the remaining number of weekdays and stops on a weekday |
| IntroCalendar.SubtractWorkingDaysLoop | js/introTab.js:37-50 | the while loop computes `subtractWorkingDays` |
| IntroCalendar.RecordingWindow | js/introTab.js:122-125 | a day before the coupon lies on or after `subtractWorkingDays(coupon, days)` exactly when fewer than `days` weekdays lie strictly between it and the coupon |
| IntroCalendar.BuildSchedule | js/introTab.js:52-80 | the schedule starts at the issue date, and ends at maturity when issue is before maturity |
| IntroCalendar.BuildScheduleIncreasing | js/introTab.js:52-80 | the schedule is strictly increasing |
| IntroCalendar.BuildScheduleShape | js/introTab.js:58-77 | every date strictly between the first and last is `addMonths(issue, k * step)` rolled off a weekend, a weekday, and before maturity |
| IntroCalendar.BuildScheduleLastPeriod | js/introTab.js:59-76 | the rolled anchored date for the last position reaches or passes maturity, so no coupon date before maturity is missing |
| IntroCalendar.FindNextCouponSpec | js/introTab.js:82-93 | there is a next coupon exactly when the start is before the last schedule date (maturity, or the issue date when that is not before maturity), and it is the earliest schedule date after the start |
| Offering.EndDateAfterStart | js/introTab.js:98-99 | the period ends at least 28 days per month after the start |
| Offering.CouponInPeriodFromSpec | js/introTab.js:113-130 | the scan flags a coupon exactly when some schedule date is a hit: in the period, or after it with the end date in its record window |
| Offering.HasCouponMeaning | js/introTab.js:113-130 | a coupon is flagged exactly when some date after the start lies on or before the end, or after it with fewer than `recordingDays` weekdays in between |
| Offering.EntryOffered | js/introTab.js:107-150 | a bond is pushed exactly when it is live at the start and, for 1M and 2M, has no coupon flagged |
| Offering.EntryFields | js/introTab.js:132-150 | a pushed listing has the bond's code, its next coupon and that date's text, and the coupon flag exactly for 3M, 6M and 1Y |
| Offering.ShortDurationRule | js/introTab.js:111-140 | for 1M and 2M a bond is listed exactly when it is live, no coupon falls in `(start, end]`, and no later coupon has the end date in its record window |
| Offering.LongDurationRule | js/introTab.js:141-150 | for 3M, 6M and 1Y every live bond is listed, flagged exactly when some coupon is a hit |
| Offering.OfferedNextCouponAfterPeriod | js/introTab.js:113-140 | for 1M and 2M an offered bond's next coupon lies after the period, with at least the record-period length of weekdays after the end |
| Offering.SelectSpec | js/introTab.js:101-151 | the pushed listings are exactly the entries of the offered bonds |
| Offering.SelectAppend | js/introTab.js:103-151 | a further bond adds at most its own listing, after those of the bonds before it |
| Offering.CompareMeaning | js/introTab.js:154-158 | the comparator asks for `a` first exactly when `a` has a later next coupon than `b`, or `b` has none |
| Offering.SortListings | js/introTab.js:153-158 | the sorted list is a permutation of the pushed listings, and no listing belongs before its predecessor |
| Offering.OrderedMeaning | js/introTab.js:153-158 | such a list runs latest next coupon first, with listings without a next coupon last |
| Offering.GetBondsForDurationMembers | js/introTab.js:95-161 | no bond data gives an empty list; otherwise the list holds exactly the offered bonds' entries, as many times as they are pushed |
| Offering.GetBondsForDurationOrder | js/introTab.js:153-160 | the list runs latest next coupon first, listings without one last |

## Left out

- `vndInt` and `vnd6` are locale-dependent `Intl` formatters, not modelled.
- The DOM and UI glue of the offering tab (`initIntroTab`) and the other tabs are not part of this model. So are the data loading, the clock and the `offeredRates` table.
- `Math.pow` is the parameter `pow`. Floating-point rounding of amounts and year fractions is not modelled: all arithmetic is exact.
- `actualDays` is the exact difference of day numbers. Its `Math.round` over milliseconds always gives that difference for dates at UTC midnight.
- Local time in the offering tab (`getDay`, `getMonth`, `setMonth`, `setDate`) is taken to be UTC.
- Dates carry no time of day. `Date` range limits (TimeClip) and Invalid Date propagation in date arithmetic are not modelled.
- `Number` on date and amount parts accepts only plain digit runs. The empty run reads as 0. Signs, whitespace, decimals and exponents read as NaN here, while JavaScript accepts some of them.
- Schedule.BuildSchedule: requires `12 / freq` to be a whole number. The source accepts any frequency: other values give fractional month steps, which `Date.UTC` truncates, and 0 gives an infinite step.
- IntroCalendar.BuildSchedule, Pricing.PriceBond, Pricing.PriceFloatingBond: require the same of the frequency.
- Offering.GetBondsForDuration: requires the same of every bond's frequency.
- Pricing.PriceBondAfterMaturity, Pricing.PriceFloatingBondAfterMaturity, Pricing.PriceBondPrevNext, Pricing.PriceFloatingBondPrevNext, Pricing.PriceBondFaceValue, Pricing.PriceFloatingBondFaceValue: require the issue date on or before maturity. Otherwise the schedule is the issue date alone, and it need not end at maturity.
- Pricing.FloatingRates, Pricing.FixedFlowsFollowSchedule, Pricing.FloatingFlowsFollowSchedule: are stated for any strictly increasing schedule. The bond-level lemmas apply them to the built schedule.
- DateMath.AddMonthsUTC: does not apply `Date.UTC`'s mapping of the years 0 to 99 to 1900 to 1999. In the source, a start date in those years (0050-01-15 plus one month gives 1950-02-15), or a target month in them, lands in the 1900s. `DateMath.AddMonthsUTCAsWritten` applies the mapping, and `DateMath.AddMonthsUTCAsWrittenAgrees` shows that the two agree outside those years. The simpler form keeps month addition increasing for every start date, which the anchored schedules rely on. Schedule.BuildSchedule and the pricing routines inherit this for issue dates before year 100.
- DateText.FormatThenParse: requires a year from 100 on. Below that, `Date.UTC` reads the years 0 to 99 as 1900 to 1999 (modelled by `Civil.UtcYear`), so the round trip fails there. Negative years are written with a sign that `Number` does not read here.
- DateText.ParseThenFormat: requires a four-digit year, so that the text is exactly ten characters.
- Offering.SortListings: the JavaScript comparator is not consistent for two listings without a next coupon (each asks to go after the other). The order of such listings is therefore implementation-defined in the source. The model sorts stably, and its contract does not state the order among listings that belong level.
- Offering.Duration: the five keys of `durationMonths`. An unknown key (which gives `NaN` months in the source) is not modelled.
- Offering.RecordingDays: `recordDays` is a whole number or absent. Other falsy or non-integer values are not modelled.
- Offering.Bond: the bond's issue and maturity are day numbers. Parsing its date text goes through `DateText.ParseDateVN`, modelled on its own.
- Pricing.CashFlow: the `date` of a cash flow is its day number rather than the `formatDateVN` text. The text is `DateText.FormatDateVN` of it.
- Rates.HasFloor: a floor takes part when present and non-zero, as JavaScript truthiness reads a number. NaN floors are not modelled.
