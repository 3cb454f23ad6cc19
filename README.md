# Badminton court booking: a Dafny model of the booking run

This project models the booking logic of `BadmintonBooking` in `badminton_booking.py`. A run
has three parts:

- **Candidate selection** (`find_available_courts_by_time`). The availability snapshot is the
  `data.openSlice` dictionary, taken in iteration order. The run keeps the courts whose
  `slice_time` equals the requested slot and whose `is_lock` is not 1. It then sorts them by
  `slice_name`, descending, with a stable sort.
- **Release gate** (`wait_until_10am_beijing`). The run waits until 10:00 in the Asia/Shanghai
  zone.
- **Claim loop** (`complete_booking_process`). The run first checks the verified identity and
  queries availability. It then makes one `create_order` call per candidate, in order. It
  stops at the first reply with no `error`, `actionState == 1` and a `data.codeUrl`.

Each file is one part of the model:

- `json_values.dfy`: the decoded JSON shapes the code inspects. A possibly missing key is an
  `Option`. It also holds Python's `== 1` and truthiness for those values.
- `text_order.dfy`: Python's `<` on `str` (code-point lexicographic order), and the order
  facts that a descending sort relies on.
- `catalog.dfy`: the snapshot, the filter and the stable descending sort. The sort is an
  in-place insertion sort over an `array`. It is proved equal to a specification function,
  and that function is proved to be the only stable descending order.
- `release_gate.dfy`: time is a `nat` count of microseconds since a local midnight. The
  file holds the loop as written, the evidence for the findings below, and the corrected gate.
- `booking.dfy`: the class `BadmintonBooking`, with the fields `token`, `userId` and
  `phoneStr`. It holds the candidate lookup, the claim loop and the whole run. The run
  returns a structured result and a trace of its external steps: identity query,
  availability query, wait, and each order request.

The remote platform is a parameter. The identity and availability replies are values of
`VerifiedInfoResponse` and `CourtsResponse`. The order endpoint is a function from an
`OrderRequest` to an `OrderResponse`. The clock is a sequence of readings, one per loop
iteration.

Three points of the code that are easy to get wrong:

- After 10:00 the wait does not return at once. Lines 278-279 of badminton_booking.py move
  the target to 10:00 the next day (`ReleaseGate.TargetFor`).
- A court counts as unlocked when `is_lock != 1` (`Catalog.Qualifies`, catalog.dfy:23-25).
  So a missing, null, 0 or any other value counts as unlocked.
- Under Python's code-point order "Court West" is larger than "Court East". So it sorts
  first and is tried first (`Catalog.WestBeforeEast`).

## Model

| member | source | states |
|---|---|---|
| `TextOrder.LessTrichotomy` | badminton_booking.py:157 | Any two names compare as less, equal or greater under Python's string order, so the sort key is a total order. |
| `TextOrder.LessTransitive` | badminton_booking.py:157 | Python's string `<` is transitive. |
| `TextOrder.LessEqTransitive` | badminton_booking.py:157 | Python's string `<=` is transitive, which the descending sort relies on. |
| `TextOrder.LessAtFirstDifference` | badminton_booking.py:157 | Two strings that agree up to a position are ordered by their first differing character. |
| `Catalog.QualifyingSound` | badminton_booking.py:148-154 | Every candidate the loop collects comes from an entry whose `slice_time` equals the slot and whose `is_lock` is not 1. It carries that entry's id, and its name or `""` when `slice_name` is missing. |
| `Catalog.QualifyingOnce` | badminton_booking.py:148-154 | With distinct dictionary keys, every qualifying entry's id occurs exactly once among the collected candidates. |
| `Catalog.InsertPermutes` | badminton_booking.py:157 | One insertion step adds exactly the inserted candidate. |
| `Catalog.SortDescPermutes` | badminton_booking.py:157 | The sort returns a permutation of its input. |
| `Catalog.InsertSorted` | badminton_booking.py:157 | Inserting into a name-descending list keeps it name-descending. |
| `Catalog.SortDescSorted` | badminton_booking.py:157 | The sorted list's names never increase. |
| `Catalog.InsertWithName` | badminton_booking.py:157 | An insertion puts the new candidate after all earlier candidates with the same name. |
| `Catalog.SortDescWithName` | badminton_booking.py:157 | For every name, the candidates with that name appear in the sorted list in their original order (stability under `reverse=True`). |
| `Catalog.SortDescIsStableDescSort` | badminton_booking.py:157 | The sort is a permutation, is name-descending, and keeps equal names in their input order. |
| `Catalog.StableDescSortUnique` | badminton_booking.py:157 | Any list that is name-descending and keeps every name's candidates in input order equals the modelled sort. So the insertion sort stands for Python's stable sort. |
| `Catalog.InsertIntoPrefix` | badminton_booking.py:157 | One in-place pass moves the cell at `i` into the sorted prefix, exactly as the specification's insertion step does. The cells after `i` are unchanged. |
| `Catalog.SortByNameDescending` | badminton_booking.py:157 | The in-place sort of the candidate array leaves exactly the specification's stable descending order. |
| `Catalog.IdsPermutation` | badminton_booking.py:157 | Reordering candidates reorders their ids alike, so no id is gained or lost by the sort. |
| `Catalog.ResolveCandidatesCorrect` | badminton_booking.py:142-157 | The returned list is a permutation of the qualifying entries. Its names never increase, and equal names keep their snapshot order. |
| `Catalog.ResolveCandidatesSound` | badminton_booking.py:148-157 | Every returned court comes from an entry for the requested slot whose `is_lock` is not 1. |
| `Catalog.ResolveCandidatesOnce` | badminton_booking.py:148-157 | With distinct keys, every qualifying court's id occurs exactly once in the returned list. |
| `Catalog.WestBeforeEast` | badminton_booking.py:148-157 | Two open courts "Court West" (A1) and "Court East" (A2) come back as A1 then A2. |
| `ReleaseGate.TargetFor` | badminton_booking.py:274-279 | The target is strictly after the reading, at most one day after it, and at 10:00 local time. So the computed gap is always positive. |
| `ReleaseGate.TargetIsNext` | badminton_booking.py:274-279 | No 10:00 lies strictly between the reading and the target: the target is the next 10:00. |
| `ReleaseGate.ExitWindow` | badminton_booking.py:281-286 | The loop leaves on a reading exactly when the reading lies in the open second before 10:00, that is, when less than one second remains. |
| `ReleaseGate.CountdownAsWritten` | badminton_booking.py:288-290 | Every countdown value printed lies between 1 and 5. |
| `ReleaseGate.WaitUntil10amAsWritten` | badminton_booking.py:267-295 | The loop leaves on the first reading where the truncated remaining seconds are 0, and on no earlier one. It prints the countdown for exactly the earlier readings with 1 to 5 seconds left. |
| `ReleaseGate.WholeSecondNeverReleases` | badminton_booking.py:271-293 | A reading that falls on a whole second never ends the loop. |
| `ReleaseGate.AsWrittenMissesRelease` | badminton_booking.py:271-293 | Readings at 09:59:59, 10:00:00 and 10:00:01, one second apart as `sleep(1)` spaces them, never end the loop. From 10:00:00 on, the target is the next day's 10:00. |
| `ReleaseGate.AsWrittenReleasesEarly` | badminton_booking.py:281-286 | A reading at 09:59:59.5 ends the loop before 10:00. |
| `ReleaseGate.AwaitRelease` | badminton_booking.py:267-295 | Corrected gate: the target is fixed by the first reading. The gate opens on the first reading at or after the target, never earlier, and never lets such a reading pass. |
| `ReleaseGate.ReplayWholeSecondClock` | badminton_booking.py:271-293 | On the clock 09:59:59, 10:00:00, 10:00:01 the loop as written never leaves, while the corrected gate opens on the second reading. |
| `Booking.BadmintonBooking.constructor` | badminton_booking.py:13-18 | A new booker has no token, no user id and no phone string. |
| `Booking.BadmintonBooking.GetUserVerifiedInfo` | badminton_booking.py:104-105 | The phone string is replaced by `data.phonestr` only when the reply has `actionState` 1 and `data`. Otherwise it keeps its old value. |
| `Booking.BadmintonBooking.FindAvailableCourtsByTime` | badminton_booking.py:138-158 | With no `data` or no `data.openSlice` the result is empty. Otherwise it is a permutation of the qualifying entries, name-descending, with equal names in snapshot order. |
| `Booking.BadmintonBooking.ClaimInOrder` | badminton_booking.py:196-229 | The loop returns a booking or the all-failed error, and makes no order when there are no candidates. Courts are tried strictly in candidate order. The k-th order carries the k-th court's id, the user id and the verified phone. Every court before the last one tried was refused. A booking names the last court tried, whose reply has no `error`, `actionState` 1 and a `codeUrl`, and carries that `codeUrl` and `data`. The all-failed error means all N courts were tried and refused. |
| `Booking.BadmintonBooking.CompleteBookingProcess` | badminton_booking.py:160-229 | A failed or phoneless identity returns that reply before any availability query. A query `error` returns that reply before any order. With no candidate, the no-court error comes back without waiting or ordering. With candidates, the run always waits and then ends in one of three ways. It returns "not released" exactly when no clock reading reaches the first reading's 10:00 target; then it makes no order. Otherwise it claims in order and returns the first booked court or the all-failed error, with a trace of exactly the orders made. |

## Left out

- The HTTP calls `send_sms_code`, `login_with_sms`, `get_available_courts`, the request in
  `get_user_verified_info` and the POST in `create_order` (badminton_booking.py:26-136) are
  network I/O with JSON decoding. Their results are inputs. `create_order`'s request body is
  kept as `Booking.OrderFor`.
- The login step inside `complete_booking_process` is commented out in the source
  (badminton_booking.py:164-168). So `token` is unused: the constructor sets it and nothing
  reads it. `userId` is only read, into the order request. The session-header update of
  `login_with_sms` is not modelled.
- `generate_qr_code`, `main`, `log_message` and `print` are left out: they are image and file
  I/O, interactive input and console output. Of the log lines, only the gate's countdown
  values are kept.
- `badminton_gui.py` is not part of this model. It is tkinter widgets and a worker thread
  around `complete_booking_process`. There is no cancellation of the wait in the code, so
  none is modelled.
- The real clock, `pytz` and `time.sleep` become a sequence of readings. The real loop waits
  for as long as it takes. The model returns `NotReleased` when the readings end before the
  gate opens.
- `total_seconds()` is a float. It is modelled as exact division of whole microseconds,
  which agrees with the float for gaps of at most one day.
- The order of `data.openSlice` is the dictionary's iteration order, given as a sequence.
  Distinct keys are assumed only where a lemma needs them (`KeysUnique`).
- `is_lock` is modelled as null, bool, int or str. A float `1.0`, which Python also treats
  as equal to 1, is not modelled.
- A `slice_time` that is not a string is modelled as missing; either way it never matches.
- A `slice_name` present as JSON null is not modelled. Python would keep `None` and the sort
  would raise a `TypeError` when there are two or more candidates.
- A `data` or `codeUrl` present but not an object or string, which would raise in Python or
  pass `None` on, is not modelled.
- An `openSlice` that is null or not a dictionary, and a `court_info` that is not a
  dictionary, are not modelled. `Option<seq<Entry>>` and `SliceInfo` cannot express them.
  Python raises `AttributeError` there (badminton_booking.py:148-149), and nothing in
  `complete_booking_process` catches it (line 183).
- `actionState` is modelled as `Option<int>`. Python's `True == 1` and `1.0 == 1` at
  badminton_booking.py:104 and 208 have no counterpart in the model.
- `error` is modelled as `Option<string>`. An `error` key with a value that is not a string
  cannot be expressed. Python's `"error" in ...` (badminton_booking.py:173, 179, 206) still
  treats it as an error.
- Replies that are not JSON objects are not modelled. `get_available_courts` and
  `create_order` return `response.json()` unchecked (badminton_booking.py:82-85, 130-133).
  With a JSON `null` reply, `"error" in courts_result` (line 179) or
  `"error" not in order_result` (line 206) raises `TypeError`, and nothing catches it.
  `CourtsResponse` and `OrderResponse` cannot express such a reply. `InfoData.phonestr` is an
  `Option<string>`, so a `phonestr` that is not a string is not modelled either.
- Python's Timsort is modelled by an insertion sort. `Catalog.StableDescSortUnique` shows
  that both give the same list.
- The candidate list is built as a sequence and then sorted in place in an array copy.
  Python sorts the same list object it appended to, and no aliasing is involved.
- Booking.BadmintonBooking.CompleteBookingProcess uses the corrected gate
  (`ReleaseGate.AwaitRelease`), not the loop as written. The loop as written is modelled
  separately, and its difference from the gate is listed under Findings.

## Findings

| source | as written | input that shows it | evidently intended | confidence | as-written member | corrected member |
|---|---|---|---|---|---|---|
| badminton_booking.py:271-286 | Every iteration recomputes the target from the new reading. Once a reading is at or after 10:00, the target becomes 10:00 of the next day. So the loop ends only on a reading inside the open second before 10:00, and one-second sleeps can step over that second. | Readings 09:59:59.000000, 10:00:00.000000, 10:00:01.000000 | Start booking on the first reading at or after the first 10:00 after the wait began (`TargetFor(clock[0])`) | not executed; proved on the model | `ReleaseGate.AsWrittenMissesRelease` | `ReleaseGate.AwaitRelease` |
| badminton_booking.py:281-286 | The exit test truncates the remaining time to whole seconds, so the loop ends as soon as less than one second remains. That is up to a second before 10:00. | Reading 09:59:59.500000 | Start booking no earlier than 10:00 | not executed; proved on the model | `ReleaseGate.AsWrittenReleasesEarly` | `ReleaseGate.AwaitRelease` |
