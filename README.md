# Slot availability of the clinic scheduling service

This project models the slot-availability decision of a small Go service. The service books occupational-health appointments in an external agenda system (SOC). The model covers:

- the GET branch of `handleAgendamento`, which answers "which half-hour slots of day D are open?" or "is slot H of day D open?";
- the holiday list it consults;
- the registry-number normalisers (CNPJ for companies, CPF for persons);
- the agenda-code cutoff of the POST branch.

The GET branch runs in this order. The model keeps the same order:

1. **Day gate.** A missing `data` parameter, a `data` that is not a `dd/mm/yyyy` date under Go's `02/01/2006` layout, and a Saturday or Sunday are rejected before any feed is consulted.
2. **Feeds.** Two booking feeds are fetched and then decoded: the general agenda and the "Agenda Proteger". A failure of either is a rejection.
3. **Past and holiday checks.** A day before today is rejected, and so is a listed holiday. The holiday check fails open.
4. **Tallies.** Each feed's records are folded into a map from slot text to the number of records on that day. A record whose date does not parse aborts the request.
5. **Decision.** The primary tally of each working slot is clamped to 5. Two counters are computed for the log. A slot is open when its primary tally is positive and its Proteger tally is exactly 2 or 3.
6. **Answer.** With `hora`, the rule is applied to that text as given. Without it, the nineteen working slots 07:30 … 16:30 are walked in order. When the day is today, slots whose text is `<=` the current `15:04` text are skipped.

Modules:

- `Wrappers`: `Option` and `Result`.
- `Text`: character removal, digit filtering, Go's string `<=`, and `strings.Split`/`Join`, with their round trips.
- `Calendar`: Go date layouts, formatting, day order, weekday, and the `15:04` clock text.
- `Holidays`: `parseDateIntervals`, `isDateInIntervals` and `isHoliday`.
- `Tally`: the per-feed tallies.
- `Slots`: the working slots, the clamp, the counters and the day listing.
- `Agendamento`: the GET branch as one method, and the agenda code.
- `Documents`: `formataCNPJ` and the CNPJ/CPF normalisers.

The feeds, the holiday resource and the clock are inputs. The clock is two calendar days plus the local time of day:

- the day of `now.Truncate(24h)`, which is a UTC day and drives the past check;
- the day of `now` in GMT-3, which is `hoje` and drives the elapsed-slot filter.

The handler mixes these two notions of "today", so the model keeps them apart rather than converting time zones.

Two points of the code's behaviour that are easy to misread:

- **Order of the weekend and past checks.** The handler rejects weekends before fetching either feed. It checks past days only after both feeds are read (main.go:161-167, 218-224).
- **Agenda-code cutoff.** The comment at main.go:127 speaks of 31 December 2024. The code compares against 1 December 2024 (main.go:128). `AgendaCode` models the code.

## Model

| member | source | states |
|---|---|---|
| Agendamento.HandleGet | main.go:142-369 | Each rejection happens exactly when its own condition holds and every earlier gate passed. The order is: missing date, bad date, weekend (no feed consulted), primary fetch, Proteger fetch, primary decode, Proteger decode, past day (against the UTC day), holiday (fail-open), unparseable record date. Success holds iff all gates pass. With `hora`, the answer is "open" iff that text's primary record count on the day is > 0 and its Proteger count is 2 or 3; there is no slot-list check and no elapsed filter. Without `hora`, the listing holds exactly the working slots that are open by record counts and are not elapsed when the day is the GMT-3 today. Every entry is dated with the request's date text, and entries are in strictly increasing order. |
| Agendamento.Decide | main.go:264-360 | Given maps equal to the record counts, the single-slot answer and the day listing satisfy the properties above. The clamp is shown not to change any decision. |
| Agendamento.AgendaCode | main.go:126-133 | A parsed booking date gets one of the two agenda codes. It gets "27295" exactly when it falls before December 2024, and "3015983" from 1 December 2024 on. |
| Tally.TallyFeed | main.go:233-263 | The result fails exactly when some record's date does not parse under `02/01/2006`. Otherwise every slot text maps to the number of records dated on the target day with that slot text, including texts outside working hours. A key is present exactly when its count is positive. |
| Tally.CountConcat | main.go:238-247 | The tally of two record lists is the sum of their tallies. |
| Tally.CountOtherDays | main.go:244-247 | Appending records for other dates does not change any slot's tally. |
| Tally.NoneOnDay | main.go:244-247 | Records all dated on other days tally zero for every slot. |
| Slots.WorkSlotClock | main.go:268 | Working slot i is the `15:04` text of 07:30 plus i half hours. |
| Slots.WorkSlotsSorted | main.go:268 | The working slots are in strictly increasing string order. |
| Slots.ElapsedMeansStarted | main.go:345 | The string test `slot <= now` holds exactly when the slot starts at or before the current minute. |
| Slots.ListingSound | main.go:343-359 | Every entry of the day listing is a working slot that is open and not elapsed, dated with the day text. |
| Slots.ListingComplete | main.go:343-359 | Every working slot that is open and not elapsed appears in the day listing. |
| Slots.ListingSorted | main.go:343-359 | The day listing keeps the working-slot order, so its slot texts strictly increase. |
| Slots.ListingFacts | main.go:343-359 | The listing over the nineteen working slots is sound, complete, strictly ordered and free of duplicates. |
| Slots.ClampedFacts | main.go:292-294 | Once every working slot is capped, working-slot tallies are at most 5, other tallies are untouched, only tallies above 5 changed, and positivity is unchanged. |
| Slots.ListOpenSlots | main.go:343-359 | The listing loop produces the specified listing. It contains exactly the open, non-elapsed working slots, strictly ordered, without duplicates, each dated with the day text. |
| Slots.ClampPrimary | main.go:289-321 | The clamp keeps the same keys and leaves every working-slot count at most 5. Counts outside the working slots are unchanged. A count changes only if it exceeded 5, and no count changes from positive to zero or back. The client total logged alongside is the sum of the clamped working-slot counts, between 0 and 95. |
| Slots.ClientTotalBounds | main.go:296-321 | The sum of clamped counts over n slots lies between 0 and 5n. |
| Slots.CountProtegerOpen | main.go:270-286 | The logged Proteger counter is the number of working slots whose Proteger count is 2 or 3, at most 19. |
| Slots.TierCountBound | main.go:273-286 | That counter never exceeds the number of slots walked. |
| Holidays.ParseDateIntervals | main.go:778-797 | Parsing succeeds exactly when every `-`-separated token parses as `dd/mm`. It then yields one degenerate pair [d, d] per token, in token order. |
| Holidays.IsDateInIntervals | main.go:800-811 | A date matches exactly when some pair's first day has the same month and day, whatever the years. |
| Holidays.IsHoliday | main.go:713-775 | A date is a holiday exactly when the resource was read and its text parses and lists the date's day and month. A failed fetch, decode or parse answers "not a holiday". |
| Holidays.JoinedTokensParse | main.go:780-793 | A text of k well-formed `dd/mm` tokens joined with `-` splits back into those k tokens in order, so it parses to k pairs. |
| Holidays.EmptyTextHasNoHolidays | main.go:780-787 | The empty resource text is one empty token, which fails to parse, so no day is a holiday. |
| Holidays.ListedHolidayIgnoresYear | main.go:800-811 | Two dates with the same day and month are both holidays or both not. |
| Holidays.ListedHolidayByText | main.go:778-811 | A day is listed exactly when every token parses and one token is the day's own `dd/mm` text. |
| Holidays.ChristmasAndNewYear | main.go:778-811 | The text "25/12-01/01" marks exactly 25 December and 1 January of every year. |
| Calendar.ParseDate | main.go:155 | A successful `02/01/2006` parse has a valid month and day for its year and a four-digit year. The text is two digits, '/', two digits, '/', four digits. |
| Calendar.ParseDayMonth | main.go:784 | A successful `02/01` parse is a valid day of year 0, from a five-character text with '/' in the middle. |
| Calendar.ParseFormatDayMonth | main.go:784 | Every valid day of year 0, 29 February included, printed as `dd/mm` parses back to that day. |
| Calendar.FormatParseDayMonth | main.go:784 | A token that parses is exactly the `dd/mm` text of the day and month it yields. |
| Calendar.ParseFormatDate | main.go:155-210 | Formatting a printable date as `02/01/2006` and parsing it gives the date back. |
| Calendar.FormatParseDate | main.go:155-210 | A text that parses formats back to the same text, so `diaAgendamento` equals the request's `data`. |
| Calendar.FormatDateInjective | main.go:210-217 | Two printable dates format to the same text exactly when they are equal, so `diaAgendamento == hoje` compares days. |
| Calendar.Weekday | main.go:161 | The weekday is a number from 0 (Sunday) to 6 (Saturday). |
| Calendar.WeekdayEpoch | main.go:161 | 1 January 1970 is day number 0 and a Thursday (4). With `NextWeekday`, this fixes the weekday of every valid date. |
| Calendar.NextWeekday | main.go:161 | The day after a valid date is valid and falls on the next weekday. |
| Calendar.NextDayNumber | main.go:161 | The day after a valid date has the next day number. |
| Calendar.ClockTextOrder | main.go:345 | Go's string `<=` on two `15:04` texts agrees with the order of the minutes they denote. |
| Documents.CnpjQuery | main.go:389-395 | The company lookup is the digit filter of the query, so it keeps the digits in order and with their multiplicities. It is refused exactly when more than 14 digits remain. |
| Documents.SyncCnpjKey | main.go:599-607 | The directory sync key is the digit filter of the CNPJ, so it keeps the digits in order and with their multiplicities. A company is skipped exactly when no digit remains. |
| Documents.CpfDigits | main.go:431-435 | The CPF lookup removes every '.' and '-' and keeps every other character with its multiplicity. |
| Documents.CpfDigitsIdempotent | main.go:431-435 | Normalising a normalised CPF changes nothing. |
| Documents.StripCnpj | main.go:1257-1259 | No '.', '/' or '-' is left after the first step of `formataCNPJ`. |
| Documents.StripCnpjConcat | main.go:1257-1259 | Removing the separators from a concatenation removes them from each part. |
| Documents.FormataCnpj | main.go:1255-1274 | When 14 characters remain after removing separators, the output is 18 characters with '.', '.', '/', '-' at positions 2, 6, 10 and 15. Removing its separators gives back those 14 characters. Otherwise the stripped text is returned. |
| Documents.LayoutStrips | main.go:1266-1273 | Removing the separators from the XX.XXX.XXX/XXXX-XX layout gives back the fourteen characters. |
| Documents.FormataCnpjIdempotent | main.go:1255-1274 | Formatting an already formatted CNPJ changes nothing. |
| Text.Strip | main.go:1257 | `strings.ReplaceAll(s, c, "")` leaves no `c` and shortens `s` by exactly the number of `c`s. |
| Text.StripKeepsAbsent | main.go:1257-1259 | Removing a character never introduces a character that was absent. |
| Text.StripKeepsOthers | main.go:433-434 | Removing one character keeps every other character's multiplicity. |
| Text.KeepDigits | main.go:389 | Removing non-digits leaves only digits, as many as `s` has. |
| Text.KeepDigitsKeepsDigits | main.go:389 | Removing non-digits keeps each digit's multiplicity. |
| Text.KeepDigitsConcat | main.go:389 | The digit filter works piece by piece: filtering `a + b` gives the filtered `a` followed by the filtered `b`, so the digits keep their order. |
| Text.Split | main.go:780 | `strings.Split` yields one more piece than there are separators, none containing the separator. |
| Text.SplitJoin | main.go:780 | Joining the pieces of a split gives back the text. |
| Text.JoinSplit | main.go:780 | Splitting a join of separator-free pieces gives back the pieces. |

## Left out

- HTTP plumbing: the authorization header, query extraction, the status codes and JSON encoding of answers. Each outcome is a `Result` of an answer or a named rejection.
- Network I/O: fetching and decoding the two booking feeds and the holiday resource. The feed replies and the holiday text are inputs, with the failure cases as distinct values. How the fetch window is built from the date's parts is not modelled.
- The clock and time zones: `time.Now`, `FixedZone` and `Truncate` are replaced by the two "today" inputs and the local hour and minute.
- Decoding feed bodies: the JSON records arrive already decoded as `Horario` values.
- Logging: the two counters that the handler only logs are computed and bounded, but never written anywhere.
- The POST branch apart from its agenda-code cutoff. The database sync, the SOAP requests and their WS-Security header, and charset decoding are I/O, foreign libraries or concurrency.
- Documents.FormataCnpj: Go's `len` and slicing count bytes while the model counts characters. The two agree on ASCII input; a CNPJ text with non-ASCII characters is not modelled byte by byte.
- Documents.CnpjQuery: `[^\d]` is applied per code point and `len` counts bytes. Only ASCII digits remain, so the two agree on the kept text.
- Calendar.ParseDate: Go's `time.Parse` error messages are not modelled, only success or failure. Years are limited to four digits, as the layout requires.
