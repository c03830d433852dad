# prometheus-dynamodb-adapter write path, in Dafny

This project models the DynamoDB client of the Prometheus remote-storage
adapter (`dynamodb/client.go`). It covers how one Prometheus sample becomes a
DynamoDB record, and how `Write` stores a batch of samples.

- **Label extraction** (`extractLabels`) copies every label except the reserved
  metric-name label `__name__`.
- **Record construction** (`putSample`):
  - `Metric` is the value of `__name__`, or `""` when that label is missing (Go's
    zero value for a map lookup).
  - `PartitionId` is the metric name, a `-`, and the sample's calendar day in the
    layout `"20060102"`.
  - `Labels` is the extracted label set and `Value` is the printed sample value.
- **Timestamps**: a sample timestamp is a signed 64-bit count of milliseconds.
  - `model.Time.Time()` divides it by 1000 with Go's truncating `/` and `%`.
    `time.Unix` then carries a negative nanosecond part into the seconds. Both
    steps are written out (`GoTime.GoQuo`, `GoTime.Unix`), and the result is proved
    to be the floor.
  - The day is taken in a time zone with a fixed UTC offset (`GoTime.Zone`).
  - Days become dates through a proleptic Gregorian calendar. `Calendar.CivilFromDays`
    peels off 400-, 100-, 4- and 1-year cycles. It is proved inverse to
    `Calendar.DaysFromCivil`, which counts years one at a time from 1970 and
    months one at a time from January.
- **Write** calls `putSample` once per sample, in order, with no early exit.
  - A `putSample` either fails at attribute marshalling, in which case no PutItem
    is sent, or makes exactly one PutItem call.
  - The error `Write` returns is the one of the last sample that failed, or nil
    when none failed.
  - Marshalling and PutItem are outside the adapter. A `Client.Backend` supplies
    their outcomes: `putItem(i, r)` is the answer to the PutItem for the `i`-th
    sample.

The code has no batching, no batch-write call and no retry or backoff. Every
sample gets at most one PutItem, and an error from it is only returned, never
retried. When marshalling fails, `putSample` returns that error without calling
PutItem, and `Write` reports it like any other failure (`dynamodb/client.go:74-78`).

Modules: `Options` (the nil-or-value result), `Calendar`, `GoTime`, `DateLayout`,
`Records` (label extraction and record construction), and `Client` (`putSample`
and `Write`).

## Model

| member | source | states |
|---|---|---|
| Records.ExtractLabels | dynamodb/client.go:38-47 | the result never holds `__name__`; its keys are exactly the input's keys minus `__name__`; each kept label has its input value |
| Records.ExtractLabelsSize | dynamodb/client.go:40-46 | exactly one entry is dropped when `__name__` is present, none otherwise |
| Records.ExtractLabelsIgnoresName | dynamodb/client.go:41-45 | the value of `__name__` has no influence on the extracted labels |
| Records.ExtractLabelsKeepsOthers | dynamodb/client.go:41-44 | setting any other label before extraction equals setting it in the extracted map: values pass through unaltered |
| Records.ExtractLabelsIdempotent | dynamodb/client.go:39-47 | extraction is idempotent, and it is the identity on label sets without `__name__` |
| Records.ToRecord | dynamodb/client.go:64-73 | `Metric` is the `__name__` value or `""` when absent; `PartitionId` is `Metric + "-" +` the day stamp of the local date; `Labels` are the input labels without `__name__`; the timestamp is exactly the normalised instant `ts.Time()` gives, denoting the same millisecond; `Value` is the printed value |
| Records.RecordRebuildsMetric | dynamodb/client.go:66-71 | for a sample with a metric name, `Labels` plus `__name__ := Metric` gives back the sample's label set, so nothing is lost or duplicated |
| Records.SamePartitionIffSameDay | dynamodb/client.go:68 | two samples of one metric share a `PartitionId` if and only if they fall on the same local day |
| Records.SameDayWindowSamePartition | dynamodb/client.go:65-68 | any two timestamps inside one local midnight-to-midnight window give the same `PartitionId`, whatever the time of day |
| Records.MetricName | dynamodb/client.go:66 | the metric name is `""` when the sample has no `__name__` label; otherwise it and the extracted labels together give back the whole label set |
| Records.PartitionId | dynamodb/client.go:68 | the key is the metric name, a `-`, and a stamp that reads back as a valid date whose day number is the sample's local day |
| Records.PartitionKey | dynamodb/client.go:68 | the key of a metric on a date is the metric name, a `-`, and a stamp that reads back as that date |
| Records.PartitionKeyDecodes | dynamodb/client.go:68 | for a date in year 0 or later, the part after the metric name and its `-` is all digits and reads back as the date; for a four-digit year it is 8 characters long |
| Records.PartitionKeyInjective | dynamodb/client.go:68 | for dates in year 0 or later, two keys are equal if and only if the metric names and the dates are equal |
| Records.PartitionKeyInjectiveForDashFreeNames | dynamodb/client.go:68 | for metric names without `-`, which covers every name matching the classic Prometheus rule `[a-zA-Z_:][a-zA-Z0-9_:]*`, two keys are equal if and only if the names and the dates are equal, in any year |
| Records.PartitionKeyNegativeYearCollision | dynamodb/client.go:68 | below year 0 the stamp starts with `-`: metric `x` on 1 January of year -1234 and metric `x-` on 1 January 1234 both get the key `x--12340101` |
| DateLayout.PadInt | dynamodb/client.go:68 | a number formatted for a layout field is at least the field's width, is all digits when the number is not negative, and reads back as the number, sign included; below zero it is a `-` followed by at least the width in digits; its digits carry no leading zero beyond what the width needs |
| DateLayout.Format | dynamodb/client.go:18 | formatting with the layout `"20060102"` gives the four-digit-padded year, then the two-digit-padded month and day |
| DateLayout.DayStamp | dynamodb/client.go:18 | formatting with the layout `"20060102"` gives the year with at least four digits (after a `-` below year 0), then the two-digit month and day; the stamp is all digits from year 0 on, and 8 digits long for years 0 to 9999 |
| DateLayout.StampRoundTrip | dynamodb/client.go:18 | the stamp of a valid date reads back as that date |
| DateLayout.StampInjective | dynamodb/client.go:18 | two valid dates have equal stamps if and only if they are equal |
| GoTime.Unix | dynamodb/client.go:70 | `time.Unix` carries an out-of-range nanosecond part into the seconds: the result's nanoseconds lie in [0, 1e9) and it denotes the same instant as its arguments |
| GoTime.ToInstant | dynamodb/client.go:70 | the millisecond timestamp becomes a normalised instant: nanoseconds in [0, 1e9), whole milliseconds, denoting exactly the input millisecond |
| GoTime.ToInstantFloors | dynamodb/client.go:70 | the instant's seconds are the floor of `t / 1000`, also before the epoch, despite Go's truncating division |
| GoTime.LocalDayWindow | dynamodb/client.go:68 | the local day of `t` is `D` if and only if `t` plus the zone offset lies in `[D * 86400000, (D + 1) * 86400000)` |
| GoTime.LocalDate | dynamodb/client.go:68 | the local date is a valid calendar date whose day number is the local day |
| GoTime.SameDateIffSameDay | dynamodb/client.go:68 | two instants have the same local date if and only if they have the same local day |
| Calendar.CivilFromDays | dynamodb/client.go:68 | the date computed from a day count is valid, and counting days to it by years and months gives back the day count |
| Calendar.YearOf | dynamodb/client.go:68 | the cycle decomposition yields a year and a day within it, shorter than that year's length, that add up to the day count |
| Calendar.MonthOf | dynamodb/client.go:68 | the month search yields a month in 1 to 12 and a day within that month's length that add up to the day of the year |
| Calendar.CivilRoundTrip | dynamodb/client.go:68 | every valid date is produced: converting its day number back yields the date itself |
| Calendar.DaysFromCivilInjective | dynamodb/client.go:68 | two valid dates have the same day number if and only if they are equal |
| Calendar.DaysBeforeYearClosedForm | dynamodb/client.go:68 | counting years one by one agrees with the closed leap-year formula `365 * years + leap days` |
| Client.PutSample | dynamodb/client.go:64-88 | the record is the one built from the sample; PutItem is sent only if marshalling succeeded; the result is nil only if marshalling and PutItem both succeeded; otherwise it is the error of the failing stage |
| Client.Write | dynamodb/client.go:90-102 | every sample is put exactly once, at its own position and in input order, regardless of failures; the result is nil if and only if every put returned nil; otherwise it is the error of a failing sample after which no sample failed |
| Client.SequentialEach | dynamodb/client.go:93-100 | the `n` steps of the loop apply the step to each element exactly once, at its own index |
| Client.LastFailureNoneIffAllSucceed | dynamodb/client.go:91-101 | the accumulated error is nil if and only if every result is nil |
| Client.LastFailureIsLast | dynamodb/client.go:95-101 | when the accumulated error is set, it is the error at some position with no failure after it |
| Client.LastFailureAppend | dynamodb/client.go:94-97 | after more results come in, the accumulated error is the last new failure if there is one, and otherwise the earlier error; earlier errors are discarded |

## Left out

- `NewClient`, the AWS session and the DynamoDB handle (`dynamodb/client.go:49-62`): connection setup with no logic to model.
- `dynamodbattribute.MarshalMap` and `PutItem`: foreign library and network calls. `Client.Backend` supplies their outcomes per record and per sample position. The attribute encoding itself is not modelled.
- Nil sample pointers: `model.Samples` is a slice of `*model.Sample` (`dynamodb/client.go:90-93`), and a nil entry makes `putSample` panic at `dynamodb/client.go:65-66`, stopping `Write` after the earlier PutItems are done, with no error returned. The model takes samples by value, so this panic is not modelled.
- Logging through go-kit `level.Error`: it has no effect on results.
- The `Value` field's float formatting (`fmt.Sprintf("%s", sample.Value)`): a sample value is represented by the text it prints as (`Records.SampleValue`).
- The local time zone: `model.Time.Time()` uses the process's local zone. The model takes a zone with one fixed UTC offset, so daylight-saving changes within a zone are not modelled.
- `Name`, `Read` and `HealthCheck` (`dynamodb/client.go:104-114`): a constant and two unimplemented stubs.
- The capacity hint `len(metric)-1` passed to `make`: it affects allocation only.
- `DateLayout.Format` knows only the layout elements "2006", "01" and "02". Every other character is treated as a literal. Go's other layout elements (hours, zone names, and so on) are not used by the adapter.
- Records.PartitionKeyInjective: stated only for dates in year 0 or later, and Records.PartitionKeyInjectiveForDashFreeNames only for metric names without `-`. Below year 0 the stamp starts with `-`, so a name ending in `-` can take another metric's key: `x` on -1234-01-01 and `x-` on 1234-01-01 both give `x--12340101` (Records.PartitionKeyNegativeYearCollision). Such years are reachable: int64 milliseconds go back to about year -292 million. Names matching the classic Prometheus rule `[a-zA-Z_:][a-zA-Z0-9_:]*` contain no `-`, so this never happens for them. The adapter itself does not validate names, and `Write` accepts whatever names it receives.
- Records.PartitionKeyDecodes: the all-digits part holds only for dates in year 0 or later, for the reason above, and the 8-character length only for four-digit years.
- Go's `time.Time` location and monotonic-clock fields: the model's `Instant` keeps only seconds and nanoseconds, which fix the instant.
