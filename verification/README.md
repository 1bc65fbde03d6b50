# Helmet detection: rider counting and request checking

This project models the decision logic of a small helmet-detection service.
The service receives an image from a road camera. It runs a vehicle detector
and a helmet detector over the image. Then it counts the motorcycles whose
rider wears a helmet and the ones whose rider does not.

Three pieces are modelled:

- **The rider counter** (`count` in `app/app.py`). Bike boxes are taken in
  order. Each bike scans the helmets that are still unused, also in order.
  The first helmet whose box lies in the bike's helmet zone is consumed, and
  the bike counts as helmeted. A bike with no such helmet counts as
  unhelmeted. Boxes are normalised first (smaller corner first). The zone is
  built from the bike's width `w`, height `h` and the expanding factor `ef`
  (default 0.30):
  `hx1 >= bx1 - w*ef`, `hx2 <= bx2 + w*ef`, `hy1 >= by2 - h*ef`,
  `hy2 <= by2 + h + h*ef`.
- **The list assembly** in `predict`. Vehicle detections are kept only when
  their class name is `motorcycle`. Helmet detections are all kept, with no
  filter on the class name.
- **The required-field check** (`check_request` in `app/my_helpers.py`).
  `timestamp` and `address` are looked up in the form, then `image` in the
  uploaded files, in that order. The first missing field is reported once
  to the error-logging callback and answered with `No <field> provided` and
  status 400.

Modules:

- `Geometry` (`geometry.dfy`): boxes, normalisation, the zone test `Matches`.
- `RiderCount` (`rider_count.dfy`): `GreedyPairing` is the reference
  definition of the pairing. `Count` is the imperative routine, with its
  working copy of the helmet list, a nested scan, `continue`, `break` and
  the Python `list.remove`. It is proved to compute the counts of
  `GreedyPairing`. The lemmas state what the pairing guarantees.
- `Detections` (`detections.dfy`): the two assembly loops and `Predict`,
  which chains them into `Count`.
- `RequestCheck` (`request_check.dfy`): `CheckRequest`.
- `Opt` (`option.dfy`): the `Option` type, standing for Python's `None`.

Modelling choices:

- Coordinates are unbounded integers. The expanding factor is an exact
  `real`, so `0.30` is exactly 3/10.
- The caller's helmet list is a sequence value. The working copy that
  `Count` shrinks is a separate local variable, so the caller's list cannot
  change. This matches the `.copy()` in `app/app.py:129`.
- `helmets.remove(helmet)` is modelled as Python's `list.remove`: it deletes
  the first element equal to the helmet (`RemoveFirst`). `ConsumeFirstMatch`
  proves that this is the element at the current scan index: an equal
  element earlier in the list would have matched first, so `RemoveFirstAt`
  applies.
- A detector's output is a sequence of result objects. Each result object
  is the sequence of its detections, as `(class name, box)` pairs.
- `request.form` is given by its set of keys. `request.files` is a map from
  key to an abstract file value. The calls to `log_error` are a log
  sequence: the method receives the log so far and returns it with its
  calls appended.

Where the code and its own description differ, the model follows the code:

- The comments of `count` describe the helmet zone as lying above the bike.
  The test at `app/app.py:158` anchors the window at the bike's bottom edge
  `by2`. With y growing downward, the window starts `h*ef` above that edge
  and ends `h + h*ef` below it. The docstring example at
  `app/app.py:117-120` claims `(2, 0)`; under the code both of its helmets
  lie above the window and the result is `(0, 2)`
  (`RiderCount.DocumentedExampleUnderCode`). For the same reason, a helmet
  such as `(120, 50, 180, 90)` does not match the bike `(100, 100, 200, 200)`.
- The code does not validate the timestamp's format and does not filter
  helmet detections by class name, so the model does neither.
- On success, `check_request` returns `None` for the timestamp and the
  address, not the submitted values. The model keeps this.

## Model

| member | source | states |
|---|---|---|
| `Geometry.NormalizeOrdersCorners` | app/app.py:138-150 | The normalised box has `x1 <= x2` and `y1 <= y2`, and on each axis it holds the two input coordinates, possibly exchanged |
| `Geometry.NormalizeIdempotent` | app/app.py:138-150 | Normalising a normalised box changes nothing |
| `Geometry.NormalizeIgnoresCornerOrder` | app/app.py:138-150 | Exchanging x1 and x2, y1 and y2, or both corners gives the same normalised box |
| `Geometry.MatchesWindow` | app/app.py:152-159 | A helmet passes both rejection tests exactly when, with both boxes normalised, `hx1 >= bx1 - w*ef`, `hx2 <= bx2 + w*ef`, `hy1 >= by2 - h*ef` and `hy2 <= by2 + h + h*ef` |
| `Geometry.MatchesDependsOnlyOnRects` | app/app.py:138-159 | The zone test gives the same answer for any two tuples that describe the same bike rectangle and the same helmet rectangle |
| `Geometry.MatchesIgnoresCornerOrder` | app/app.py:138-159 | Exchanging x1 and x2, or y1 and y2, in the bike or in the helmet tuple does not change the zone test |
| `Geometry.ZoneStartsAtBottomEdge` | app/app.py:156-159 | With a zero expanding factor, a matching helmet starts at or below the bike's bottom edge: the window is anchored at `by2` |
| `RiderCount.FirstMatch` | app/app.py:134-164 | Returns the index of a helmet in the bike's zone with no earlier helmet in the zone; returns nothing exactly when no helmet is in the zone |
| `RiderCount.FirstMatchUnique` | app/app.py:134-164 | Any index whose helmet is in the zone and has no earlier helmet in the zone is the one `FirstMatch` returns |
| `RiderCount.RemoveFirst` | app/app.py:162 | `list.remove` of a value in the list shortens it by one |
| `RiderCount.RemoveFirstMultiset` | app/app.py:162 | `list.remove` takes exactly one copy of the value out of the list's multiset |
| `RiderCount.ConsumeFirstMatch` | app/app.py:152-164 | When the scan reaches index `j` with no earlier helmet in the zone and helmet `j` in it, `j` is the first match and `list.remove` deletes exactly that element |
| `RiderCount.RemoveFirstAt` | app/app.py:161-164 | When `k` is the first index holding the value, `list.remove` deletes the element at `k` and keeps the rest in order |
| `RiderCount.GreedyPairing` | app/app.py:129-170 | Reference pairing, bike by bike; records one entry per bike |
| `RiderCount.StepConservesHelmets` | app/app.py:161-168 | Processing one bike moves at most one helmet from the unused list to the consumed ones, and counts that helmet once |
| `RiderCount.EachBikeCountedOnce` | app/app.py:130-168 | The two counters sum to the number of bikes; the helmeted counter equals the number of consumed helmets |
| `RiderCount.HelmetsConsumedOnce` | app/app.py:129-164 | The unused helmets plus the consumed helmets are exactly the input helmets as a multiset, and the unused list is shorter than the input by the helmeted count: no helmet is used twice |
| `RiderCount.WornHelmetMatchesItsBike` | app/app.py:152-164 | Every consumed helmet lies in the zone of the bike that consumed it |
| `RiderCount.PairingOfPrefix` | app/app.py:132-168 | The choices made for the first `i` bikes do not depend on the bikes after them |
| `RiderCount.TakenIsFirstRemainingMatch` | app/app.py:132-168 | Bike `i` is unhelmeted exactly when no helmet still unused after the earlier bikes is in its zone; otherwise it takes the first such helmet |
| `RiderCount.NoHelmetsAllUnhelmeted` | app/app.py:129-170 | With no helmets, the result is `(0, number of bikes)` |
| `RiderCount.FirstMatchSameRects` | app/app.py:134-159 | The helmet chosen for a bike does not depend on how the corners of the boxes were written |
| `RiderCount.CountIgnoresCornerOrder` | app/app.py:132-168 | The two counts do not change when the corners of any bike or helmet tuple are written in another order |
| `RiderCount.OneHelmetServesOneBike` | app/app.py:129-168 | Two identical bikes and one helmet in their zone give `(1, 1)`: the helmet is consumed by the first bike |
| `RiderCount.PairingDependsOnBikeOrder` | app/app.py:132-168 | The same bikes and helmets give `(2, 0)` in one bike order and one helmeted bike in the other: the matching is greedy, not maximal |
| `RiderCount.DocumentedExampleUnderCode` | app/app.py:152-159 | The inputs of the docstring example give `(0, 2)` under the window the code tests |
| `RiderCount.Count` | app/app.py:74-170 | Returns the counts of `GreedyPairing`; they sum to the number of bikes, the helmeted count is at most the number of helmets, and no helmets gives `(0, number of bikes)` |
| `Detections.MotorcycleBoxesAppend` | app/app.py:55-63 | Filtering keeps order: the filter of a concatenation is the concatenation of the filters |
| `Detections.MotorcycleBoxesMembers` | app/app.py:55-63 | A box is kept exactly when some detection labelled `motorcycle` carries it |
| `Detections.NoMotorcyclesNoBikes` | app/app.py:58-60 | Detections of other classes are all dropped |
| `Detections.MotorcycleBoxesWithinAll` | app/app.py:55-69 | Every bike box is a detection's box, kept no more often than detections carry it, so there are never more bikes than vehicle detections |
| `Detections.AllMotorcyclesAllKept` | app/app.py:55-63 | When every detection is a motorcycle, every box is kept, in order |
| `Detections.CollectBikes` | app/app.py:55-63 | Returns the boxes of the `motorcycle` detections of all result objects, in order |
| `Detections.CollectHelmets` | app/app.py:64-69 | Returns the boxes of all helmet detections of all result objects, in order, with no class filter |
| `Detections.Predict` | app/app.py:50-72 | Returns the counts of the greedy pairing of the assembled lists with the default factor; they sum to the number of motorcycle detections |
| `RequestCheck.MissingMessageInjective` | app/my_helpers.py:12 | Two missing-field messages are equal exactly when they name the same field, so the error says which field is missing |
| `RequestCheck.CheckRequest` | app/my_helpers.py:3-20 | A missing `timestamp` wins over everything else, then a missing `address`, then a missing file `image`; each is a 400 with its message. It accepts exactly when all three are present, with timestamp and address unset and the image file returned. A rejection is logged once with no timestamp and no address; an acceptance logs nothing |

## Left out

- The Flask routes `index` and `processImage` (`app/app.py:25-48`): HTTP
  glue that reads an image from a fixed path and writes to the database.
- Loading the two YOLO models and calling them (`app/app.py:15-19`,
  `app/app.py:51-52`): foreign inference. Their outputs are the parameters
  of `Detections.Predict`.
- The lookup of the class name through `names[int(box.cls[0])]`: each
  detection carries its class name already.
- The truncation of detector coordinates from float to int
  (`app/app.py:61-62`, `67-68`): coordinates are integers from the start.
- Floating-point rounding in the zone test: the expanding factor and the
  bounds are exact reals.
- The database client, `storeCount` and `display` (`app/app.py:9-13`,
  `172-184`), and loading the environment: network persistence and
  configuration.
- `app/testing.py`: an HTTP client script.
- Flask's `request` and `jsonify`: the form and files are parameters, and
  the JSON response is the message with its status.
