# epicGo core in Dafny

epicGo keeps a local mirror of NASA's EPIC (Earth Polychromatic Imaging
Camera) archive up to date. It lists the observation dates the catalog
publishes and the dates the mirror already has. It reconciles the two lists,
fetches the image manifest of the first two missing dates, derives each
image's archive URL from its capture timestamp and downloads the file.

This project models the two pieces of that pipeline that are logic rather
than I/O, both from `epic.go`, and proves their properties:

- **Date reconciliation** (`MissingDates`). `Reconcile.MissingDates` is a
  method with the two loops of the Go function: one fills a set with the
  mirror's dates, the other appends each catalog date the set lacks. It is
  proved equal to `Reconcile.Missing`, a recursive filter. The lemmas about
  `Missing` state exact membership, multiplicity (a filter, not a
  deduplication), subsequence order, the length bound, and the test cases.
- **Archive URL resolution** (`getImageUrl`). `TimeLayout.Parse` models
  Go's `time.Parse` for the layout `2006-01-02 15:04:05`. It returns `None`
  where the Go code calls `log.Fatal`. `Digits.Decimal` is the `%d`
  rendering of a number. `Locator.ImageUrl` builds
  `{nasaUrl}/archive/natural/{year}/{month}/{day}/png/{image}.png?api_key={key}`,
  taking the key as a parameter. Parsing is proved to accept exactly the
  texts of the layout (`TimeLayout.Layout`), and to recover every timestamp
  from its canonical text `Format(t)`. The URL is proved to name the capture day (`ArchiveDate`
  decodes it) even though month and day are not zero-padded.
- **The driver's cutoff.** `Driver.Handled` keeps the first two missing
  dates, which are the only ones `main` fetches before `index > 1` returns.

Modules: `Options` (the failure type), `Records` (`Date`, `Image`, the
catalog URL), `Digits`, `TimeLayout`, `Locator`, `Reconcile`, `Driver`.

For this layout, `time.Parse` accepts more than the canonical text. The
model keeps that leniency:

- the hour field `15` takes one or two digits;
- the layout's space matches one or more spaces;
- a fractional second (`.` or `,` followed by digits) may follow the seconds;
- nothing else may follow.

The other field rules:

- year, month, day, minute and second have fixed widths;
- month is 1-12, hour below 24, minute and second below 60;
- the day is checked against the length of its month, with Gregorian leap years.

Whether the archive expects a zero-padded month and day is not settled by
the code. The model follows the code: `%d`, so June is `/6/`.

## Model

| member | source | states |
|---|---|---|
| Reconcile.MissingDates | epic.go:114-127 | the two loops (set of mirror dates, then appending every catalog date not in it) return exactly `Missing(nasa, epic)` |
| Reconcile.Missing | epic.go:119-125 | the report is never longer than the catalog's date list |
| Reconcile.MissingMembership | epic.go:115-125 | a date is reported iff the catalog lists it and the mirror does not (both directions) |
| Reconcile.MissingMultiplicity | epic.go:120-124 | each unmirrored date is reported exactly as often as the catalog lists it; mirrored dates never |
| Reconcile.MissingIsSubsequence | epic.go:119-125 | there is a strictly increasing index embedding of the report into the catalog's dates, so the catalog's order is kept |
| Reconcile.MissingAppend | epic.go:120-125 | reconciling a concatenated catalog is the concatenation of the parts' reports |
| Reconcile.MissingOfSelf | epic_test.go:55-59 | a list reconciled against itself reports nothing |
| Reconcile.MissingOfEmptyMirror | epic.go:116-124 | against an empty mirror every catalog date is reported, in order |
| Reconcile.MissingDependsOnMirrorSet | epic.go:115-118 | only the set of mirror dates matters, not their order or repetition |
| Reconcile.MissingCatalogOrder | epic.go:120-125 | permuting the catalog permutes the report (same dates, same multiplicities) |
| Reconcile.MissingExamples | epic_test.go:45-67 | `[2018-09-20, 2018-09-19]` against `[2018-09-20]` gives `[2018-09-19]`; against itself gives `[]` |
| Digits.Decimal | epic.go:181 | `%d` yields a non-empty digit string denoting `n`, with no leading zero unless it is "0" |
| Digits.DecimalOfValue | epic.go:181 | every digit string without a leading zero is the `%d` of its value, so `%d` is the unique unpadded rendering |
| TimeLayout.DaysIn | epic.go:173 | months have 28 to 31 days: 29 exactly for February of a leap year, 30 exactly for April, June, September, November; outside February the length is the closed form `31 - (month - 1) % 7 % 2` |
| TimeLayout.Parse | epic.go:173-176 | an accepted timestamp has in-range fields (day within its month), has `-` at 4 and 7 and a space at 10, and takes year, month and day from the digits at 0-3, 5-6, 8-9 |
| TimeLayout.ParseLayout | epic.go:173 | every text of the layout (any number of spaces, short or padded hour, optional fraction) with valid fields parses to its own timestamp, and the same text with anything other than a fraction after the seconds is rejected |
| TimeLayout.ParseFormat | epic.go:173 | the canonical `YYYY-MM-DD HH:MM:SS` text of a valid timestamp parses back to it |
| TimeLayout.ParseOnlyLayout | epic.go:173-176 | every accepted text is a text of the layout for the timestamp it yields, so anything else fails |
| TimeLayout.ParseDatePart | epic.go:173-179 | the first ten characters of an accepted text are exactly the zero-padded date of its timestamp |
| TimeLayout.ParseRejectsTrailingText | epic.go:173-176 | the canonical text of a valid timestamp followed by `x` parses, to that timestamp, exactly when `x` is empty or a fractional second; any other extra text fails |
| TimeLayout.ParseEndsWithDigit | epic.go:173-176 | every accepted text ends with a digit of the seconds or of their fraction |
| TimeLayout.ParseFebruary29 | epic.go:173-176 | `YYYY-02-29` is accepted only when YYYY is a leap year |
| TimeLayout.FormatOctoberExample | epic_test.go:128 | the canonical text of 2015-10-31 22:08:19 is "2015-10-31 22:08:19" |
| Locator.ImageUrl | epic.go:172-183 | a URL is produced iff the capture timestamp parses; otherwise the failure value |
| Locator.ImageUrlOfLayout | epic.go:173-181 | for every timestamp text of the layout the URL is exactly nasaUrl + "/archive/natural/" + dec(year) + "/" + dec(month) + "/" + dec(day) + "/png/" + image + ".png?api_key=" + key |
| Locator.ArchiveDateOfImageUrl | epic.go:177-181 | reading the three numbers after the archive prefix of a produced URL gives back the timestamp's year, month and day |
| Locator.ImageUrlSeparatesDays | epic.go:177-181 | two images whose URLs coincide were captured on the same day, despite the missing zero padding |
| Locator.ImageUrlIgnoresTimeOfDay | epic.go:177-181 | two accepted timestamps with the same date part give the same URL for the same image |
| Locator.ImageUrlExample | epic_test.go:82-128 | "2015-10-31 22:08:19" with image epic_1b_20151031221308 gives `.../archive/natural/2015/10/31/png/epic_1b_20151031221308.png?api_key=` + key |
| Locator.ImageUrlUnpaddedMonth | epic.go:181 | a June timestamp gives the path `/2015/6/13/`, not `/2015/06/13/` |
| Driver.HandledFrom | epic.go:69-72 | from index i the loop handles a prefix of the remaining dates, of length min(remaining, 2 - i), and nothing once i > 1 |
| Driver.Handled | epic.go:69-72 | main handles exactly the first two missing dates (fewer if there are fewer), in order |
| Driver.HandledAreMissing | epic.go:68-73 | every date main fetches a manifest for is in the catalog and not in the mirror |

## Left out

- `AvailableDates`, `getDate`, `DownloadImage` (epic.go:89-104, 139-170): HTTP fetches and file writes, which are network and file I/O.
- `ParseDates`, `ParseDate` (epic.go:106-112, 185-191): JSON decoding by `encoding/json`. The image record keeps only its `image` and `date` strings. The geometry blocks are `float64` values the core never reads.
- `Resize` (epic.go:129-137): runs the external `convert` program.
- `upload` (epic.go:193-204): file I/O. As written it does not compile: `io.Copy` is given a `[]byte`.
- The rest of `main` (epic.go:59-87): orchestration of the calls above. It does not compile either, because the `file` at epic.go:83 is unused. Only its two-date cutoff is modelled.
- The `apiKey` global read from the environment (epic.go:16): it is a parameter of `Locator.ImageUrl`.
- `log.Fatal`: process exit is modelled as the `None` result; the Go code never returns the error it would carry.
- `MissingDates` returns a nil slice in Go when nothing is missing; the model returns the empty sequence.
- TimeLayout.Parse: keeps year, month, day, hour, minute and second only. It skips a fractional second without keeping its value, and it has no time zone or `time.Time` internals. Neither is used by the URL.
- TimeLayout.Parse: follows current Go releases, which accept '.' or ',' before a fractional second; older releases accepted only '.'.
