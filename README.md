# Pressure_Flow — a verified model of the sensor endpoints and the dashboard logic

Pressure_Flow collects pressure readings from field devices and shows them on
a web dashboard. This project models its core in Dafny and proves what the
code promises:

- **Ingestion** (`api/data.php`), in `ingest.dfy`. This covers the
  `Bearer\s+(.*)$` extraction under PCRE's rules: leftmost match, greedy
  quantifiers, `\s`, `.` and `$` as PCRE defines them. It also covers the
  token lookup with its expiry, and the four checks that each answer at once
  when they fail (header, token, JSON body, insert). The `sensor_data` table
  is a class with its rows and AUTO_INCREMENT counter. A successful insert
  appends one row and advances the counter. In the model, every other answer
  leaves both unchanged.
- **Queries** (`api/api.php`), in `api.dfy`. `sensor_data` returns the rows
  of one device newest first, or every row when `empty($device_id)` holds.
  `latest_data` returns the row with the maximum id of each device. `alerts`
  turns the latest rows with status "Alta", "Muy Alta" or "Muy Baja" into
  numbered alerts and appends a closing "Sistema Actualizado" alert. Any
  other action is answered with 400.
- **Device page** (`js/device.js`), in `device.dfy`. It covers the five
  pressure bands of the gauge and their labels and CSS classes, the needle
  angle, the label and category lookups, and the latest reading of one
  device.
- **History page** (`js/historial.js`), in `historial.dfy`. It covers the
  point colours, the table's status class built by lower-casing and
  replacing the first space, and the grid bands. It also covers the
  least-squares trendline. For that we prove the normal equations, that a
  line is its own trendline, and that the one-pass sums of the loop equal
  the specification's sums.
- **Dashboard** (`js/script.js`), in `devicelist.dfy`. It covers the latest
  reading per device (a `Map` filled from the readings sorted by id), the
  category filter, and the view state class. Its methods are hide one, show
  one, show all, the per-category "hide all" toggle, the active category,
  and the rule that enables the "add" button.

Shared pieces: `readings.dfy` holds the `sensor_data` row, "latest row of a
device", and the in-place sort by id. `util.dfy` holds the order-preserving
filter, the removal of an element, and ASCII lower-casing.

The clock (`NOW()`, `date()`), the HTTP request, the token table and the
result of the SQL insert are parameters.

## Model

| member | source | states |
|---|---|---|
| Util.Without | js/script.js:504 | the result holds exactly the elements other than the one removed |
| Util.RemoveUniqueOccurrence | js/script.js:504 | in a list without duplicates, removing an id deletes its one position and keeps the others in order |
| Util.WithoutNoDuplicates | js/script.js:504 | removing an id keeps the hidden list free of duplicates |
| Util.Lower | js/historial.js:262 | `toLowerCase` keeps the length |
| Util.FilterKeepsPairs | js/script.js:231-239 | filtering keeps any order or distinctness that holds between every element and every later one |
| Readings.LatestIsUnique | api/api.php:33-39 | when no device repeats an id (as with `id` as primary key), a device has at most one row carrying its maximum id |
| Readings.LatestExists | api/api.php:33-39 | every device that has a row has a row with its maximum id |
| Readings.SortByIdDescending | js/script.js:214 | sorting with `b.id - a.id` leaves the array ordered by id, largest first, and a permutation of its old contents |
| Device.StatusText | js/device.js:259-273 | the label is always one of the five band labels or "Desconocido" |
| Device.StatusTextBands | js/device.js:259-273 | on [0, 580] the label is the one of the band whose floor is the largest floor at or below the pressure; it is "Desconocido" exactly off that scale |
| Device.StatusTextMonotone | js/device.js:259-273 | a higher pressure never gets a lower band |
| Device.StatusTextBoundaries | js/device.js:242-273 | each floor 0, 25, 150, 250, 310 gets its own band's label; a pressure between one floor and the next gets the lower band's label; 580 is in the top band; every off-scale pressure is "Desconocido" with the "status-normal" colour |
| Device.StatusColor | js/device.js:242-256 | the indicator class for a pressure is the class that the label lookup gives for the pressure's label |
| Device.StatusClass | js/device.js:200-209 | any label other than the five band labels falls back to "status-normal"; the result is always one of the five classes |
| Device.CategoryName | js/device.js:212-220 | "automotriz", "domestico", "industrial" and "refrigeracion" get "Automotriz", "Doméstico", "Industrial" and "Refrigeración"; any other key is shown unchanged |
| Device.Rotation | js/device.js:235-236 | a pressure on the gauge's scale turns the needle between 0° and 360° |
| Device.RotationScale | js/device.js:235-236 | 0 PSI is 0°, 580 PSI is 360°, the angle is monotone and proportional to pressure |
| Device.LatestDeviceData | js/device.js:190-197 | null exactly when the device has no reading; otherwise a reading of that device with the largest id |
| Historial.StatusColor | js/historial.js:112-121 | red exactly for the two "Falla" labels, orange exactly for "Baja"/"Alta", green exactly for "Normal", grey exactly for any other label |
| Historial.TableStatusClass | js/historial.js:262 | the class is "status-" followed by as many characters as the label has |
| Historial.ReplaceFirstOnlyFirst | js/historial.js:262 | `replace(' ', '-')` changes only the first space, and nothing when there is none |
| Historial.HyphenateTwoWords | js/historial.js:262 | a label "word rest" gets the class "status-word-rest" |
| Historial.OneWordClass | js/historial.js:262 | a label without a space gets "status-" and its lower-case form |
| Historial.FallaClass | js/historial.js:262 | "Falla X" gets "status-falla-" and X lower-cased |
| Historial.FallaBajaClass | js/historial.js:262 | "Falla Baja" gets the same class from the table as from the lookup |
| Historial.FallaAltaClass | js/historial.js:262 | "Falla Alta" gets the same class from the table as from the lookup |
| Historial.OneWordClasses | js/historial.js:262 | "Baja", "Normal" and "Alta" get the same class from the table as from the lookup |
| Historial.TableStatusClassMatchesLookup | js/historial.js:262 | on the five band labels the computed table class equals `getStatusClass` |
| Historial.TableStatusClassOfAlertLabel | js/historial.js:262 | "Muy Alta" gets "status-muy-alta" from the table but "status-normal" from the lookup |
| Historial.GridColor | js/historial.js:213-227 | only negative ticks get the default colour; from 310 up the grid is red with no upper end |
| Historial.GridMatchesPointColours | js/historial.js:213-227 | on [0, 580] a grid band has the hue of a point with that band's label; above 580 the grid stays red while the point is grey |
| Historial.DenominatorClosedForm | js/historial.js:135 | over the indices 0..n-1 the denominator n·Σx² − (Σx)² equals n²(n²−1)/12 |
| Historial.DenominatorPositive | js/historial.js:135 | from two points on, the slope's denominator is positive |
| Historial.Fitted | js/historial.js:135-138 | the least-squares line has one value per data point |
| Historial.CalculateTrendline | js/historial.js:124-139 | the one-pass loop returns exactly the least-squares line evaluated at each index (empty for no data) |
| Historial.LineSum | js/historial.js:138 | the values a + b·i for i < n add up to n·a + b·Σi |
| Historial.LineIndexWeightedSum | js/historial.js:138 | Σ i·(a + b·i) = a·Σi + b·Σi² |
| Historial.NormalEquations | js/historial.js:135-136 | the computed slope and intercept satisfy both normal equations of least squares |
| Historial.ExactFit | js/historial.js:135-136 | sums taken from a line give back that line's slope and intercept |
| Historial.FittedKeepsSum | js/historial.js:124-139 | the trendline's values add up to the data's sum |
| Historial.FittedKeepsIndexWeightedSum | js/historial.js:124-139 | the residuals are uncorrelated with the index |
| Historial.FittedExactOnLines | js/historial.js:124-139 | data lying on a line are their own trendline |
| Historial.TrendlineExample | js/historial.js:124-139 | [10, 20, 30] is its own trendline |
| Ingest.SpaceEnd | api/data.php:38 | greedy `\s+` stops at the first non-whitespace character or at the end |
| Ingest.LineEnd | api/data.php:38 | greedy `.*` stops at the first line feed or at the end |
| Ingest.GreedyAttemptSuffices | api/data.php:38 | if any shorter split of `\s+` and `.*` satisfies `$`, the greedy attempt matches, so backtracking never changes the verdict |
| Ingest.ExtractBearer | api/data.php:38 | `preg_match` fails exactly when no position of the header starts a match; otherwise the token is the capture of the leftmost match |
| Ingest.MatchAt | api/data.php:38 | one attempt of the pattern at one position: the keyword in any case, a greedy whitespace run of at least one character, then the rest of the line, which must reach `$` |
| Ingest.ExtractFrom | api/data.php:38 | no match at or after a position exactly when no attempt there matches; otherwise the capture of the leftmost matching attempt |
| Ingest.TokenShape | api/data.php:38-44 | an extracted token never contains a line feed and never starts with whitespace |
| Ingest.CaptureShape | api/data.php:38 | what one attempt captures is a single line with no leading whitespace |
| Ingest.OneLineToken | api/data.php:38-44 | on a one-line header the token is everything after the whitespace that follows the first "Bearer" (any case) followed by whitespace |
| Ingest.BearerRoundTrip | api/data.php:38-44 | "Bearer" in any case, whitespace, then a one-line token without leading whitespace gives that token back |
| Ingest.SpaceRun | api/data.php:38 | `\s+` consumes exactly a maximal whitespace run |
| Ingest.Authenticate | api/data.php:9-14 | accepted exactly when some stored token equals it and expires strictly after now |
| Ingest.AuthenticateOverTime | api/data.php:11 | a token accepted now was accepted earlier; at or after its every expiry it is refused |
| Ingest.Respond | api/data.php:34-69 | every answer is 200, 400, 401 or 500, and only 200 carries a message instead of an error |
| Ingest.RespondAnswers | api/data.php:38-69 | no token in the header gives 401 "Missing or invalid authorization token"; a refused token gives 401 "Invalid or expired token"; a body that is not a record gives 400 "Invalid JSON"; a failed insert gives 500 "Failed to store data", or 500 with the exception's message; a successful one gives 200 "Data stored successfully" |
| Ingest.StoredIffAllChecksPass | api/data.php:34-69 | 200 exactly when the header matches, the token is valid, the body decodes to a record and the insert succeeds; every answer is 200, 400, 401 or 500, and only 200 carries a message |
| Ingest.EarlyExits | api/data.php:38-56 | once a check fails, token table, body, clock and insert outcome that later steps would read cannot change the answer |
| Ingest.StoredRow | api/data.php:19-31 | the inserted row carries the five fields verbatim, the next id and the server time |
| Ingest.StoredRowIsLatest | api/data.php:19-23 | a new row keeps ids unique and is the latest row of its device |
| Ingest.ReadingTable.InsertSensorData | api/data.php:16-32 | a successful insert appends exactly one row and advances the counter; otherwise nothing changes |
| Ingest.ReadingTable.Handle | api/data.php:34-69 | the reply is the ordered early-exit answer; on 200 one row is appended and the counter advances by one, and every other answer leaves the rows and the counter as they were |
| Api.NoFilter | api/api.php:18 | `empty($device_id)` holds for "" and "0" |
| Api.InsertByTime | api/api.php:19 | inserting into a newest-first list keeps it newest first and adds exactly that row |
| Api.SortByTime | api/api.php:19 | `ORDER BY created_at DESC` yields a newest-first permutation |
| Api.SensorData | api/api.php:15-29 | no filter (`""` or `"0"`) returns the table as it is; otherwise exactly the device's rows, newest first |
| Api.LatestData | api/api.php:32-45 | a row is returned exactly when no row of its device has a larger id |
| Api.LatestDataOnePerDevice | api/api.php:33-39 | every device with a row appears, and no device appears twice |
| Api.LatestDataDistinctDevices | api/api.php:33-39 | no device appears twice among the latest rows |
| Api.AlertRows | api/api.php:49-59 | exactly the latest rows whose status is "Alta", "Muy Alta" or "Muy Baja" |
| Api.StatusAlert | api/api.php:69-95 | an alert exactly for the three statuses, with the given id and the row's time; "warning" exactly for "Alta", "critical" for the other two |
| Api.StatusAlertTitle | api/api.php:72-82 | the title is the device id, " - Presión " and the status |
| Api.SystemAlert | api/api.php:99-105 | the closing alert is "info", with the given id and the server time |
| Api.AlertsOf | api/api.php:64-97 | the loop appends at most one alert per row |
| Api.AlertsOfSnoc | api/api.php:64-95 | one more row adds its alert, if it has one, numbered after the others |
| Api.AlertsMatchRows | api/api.php:61-97 | the status alerts are the alerting rows' alerts, in result order, numbered 1..k without a gap |
| Api.BuildAlerts | api/api.php:61-106 | the loop with its counter yields the status alerts followed by the closing alert numbered k + 1 |
| Api.AlertsAnswer | api/api.php:61-108 | for the selected rows, k + 1 alerts with ids 1..k+1; only the last is "info"; status alert i carries the time of selected row i |
| Api.AlertRowsAlert | api/api.php:49-59 | every row the alerts query selects has an alerting status |
| Api.StatusAlertsNumbered | api/api.php:61-97 | for rows that all alert, status alert i is numbered i + 1, is not "info", and has row i's time |
| Api.AlertList | api/api.php:61-106 | for rows that all alert: one alert per row, numbered 1..k in row order with the row's time, then the closing "info" alert k + 1 |
| Api.FrontEndLabelsRarelyAlert | api/api.php:56 | of the five front-end labels only "Alta" can raise an alert |
| Api.Query | api/api.php:11-112 | each known action gives its answer; any other action, a missing one included, gives 400 "Acción no válida" |
| Api.IngestedReadingIsServed | api/api.php:15-59 | a reading stored by the ingestion endpoint is the latest row of its device, is among its device's rows, and is selected for an alert when its status alerts |
| DeviceList.LatestDeviceStatus | js/script.js:210-224 | every returned reading is its device's latest; the returned devices are exactly the devices with readings, each once, in descending id order; when no device repeats an id, every latest reading is returned |
| DeviceList.KeepFirstDevices | js/script.js:217-221 | keeping the first reading of each device keeps every device and only existing readings |
| DeviceList.KeepFirstDistinct | js/script.js:217-221 | no device is kept twice |
| DeviceList.KeepFirstSorted | js/script.js:214-223 | on readings sorted by id, the kept readings stay sorted by id |
| DeviceList.KeepFirstIsLatest | js/script.js:214-221 | on readings sorted by id, largest first, the first reading of a device is its latest |
| DeviceList.SameReadings | js/script.js:214 | sorting the copy changes neither which readings are latest nor the set of devices |
| DeviceList.LatestRowsComplete | js/script.js:209-224 | when no device repeats an id, one latest reading per device means every latest reading |
| DeviceList.BuiltInIdsRepeatAcrossDevices | js/script.js:2-147 | the sixteen readings the page is loaded with repeat ids across devices, yet no device repeats an id |
| DeviceList.Flag | js/script.js:235 | a category flag that is on is a key of the state object; a missing key reads as off |
| DeviceList.Toggled | js/script.js:530 | the current category's flag is negated and every other entry is kept |
| DeviceList.ToggleTwice | js/script.js:530 | toggling twice restores the flag, and the whole state when the key existed |
| DeviceList.WithHidden | js/script.js:421-424 | the hidden list afterwards holds the device and exactly the devices it held before |
| DeviceList.HideThenShow | js/script.js:421-424 | hiding is idempotent and keeps the list free of duplicates; showing a newly hidden device restores the list exactly |
| DeviceList.LatestListShows | js/script.js:514-518 | the latest list has a device of the category only when some latest reading does; when no device repeats an id and the list holds every latest reading, exactly then |
| DeviceList.DeviceListView.constructor | js/script.js:175-183 | "automotriz" shown, nothing hidden, the five category flags off |
| DeviceList.DeviceListView.FilterDevicesByCategory | js/script.js:227-240 | nothing while the category's flag is on; otherwise only latest readings of the category (any category for "todos") whose device is not hidden, one per device, in descending id order; when no device repeats an id, every such reading |
| DeviceList.DeviceListView.HideSingleDevice | js/script.js:421-427 | the device is pushed unless already hidden; flags and category are untouched |
| DeviceList.DeviceListView.ShowSingleDevice | js/script.js:503-509 | the device leaves the hidden list, the rest keep their order |
| DeviceList.DeviceListView.ShowAllDevices | js/script.js:512-523 | no device becomes hidden, and a hidden device with no latest reading in the current category stays hidden; when no device repeats an id, a device stays hidden exactly when it was hidden and no latest reading of it is in the category |
| DeviceList.DeviceListView.ToggleHideAllDevices | js/script.js:526-544 | only the current category's flag flips |
| DeviceList.DeviceListView.SetActiveCategory | js/script.js:577-578 | the category changes and nothing else |
| DeviceList.DeviceListView.AddButtonDisabled | js/script.js:547-561 | disabled when the category's flag is on or no device whose latest reading is in the category is hidden; when no device repeats an id, exactly then |

## Left out

- The DOM is not modelled: rendering, modals, the buttons' text and classes, chart drawing, background images, the history filter modal and the alert panel. Only the state these handlers change and the values they compute are modelled.
- `js/reparaciones.js` is not part of this model. It is a separate repairs page, outside the sensor core.
- `formatDate` and `formatTime` are left out: they are date formatting through the JavaScript `Date` object.
- The clock is a parameter everywhere: `NOW()` and `date('Y-m-d H:i:s')` become a `Timestamp` argument.
- The SQL engine is not modelled. The queries are stated as functions over the table as a sequence of rows. String comparison uses exact equality; MySQL's case-insensitive collations are not modelled.
- Api.SortByTime: it picks one order among rows with equal `created_at`, where the database may return any; its contract states only what holds for every such order.
- Api.LatestData: rows come back in table order; the order of a join result is not specified by SQL.
- Api.SensorData: with no filter the rows come back in table order; `SELECT * FROM sensor_data` without `ORDER BY` promises no order.
- Ingest.Authenticate: the token table is a sequence of rows rather than a map, because the source does not declare `token` unique. A failure of the token query itself, such as a database error, is not modelled.
- Ingest.ReadingTable.InsertSensorData: a failed insert leaves the counter unchanged. With InnoDB an INSERT that fails after `execute` starts can use up an AUTO_INCREMENT value, leaving a gap in the ids; such gaps are not modelled.
- Ingest.ReadingTable.Handle: on a 500 answer the counter is stated unchanged, for the same reason as for InsertSensorData; the 400 and 401 answers run no INSERT, so for them the counter is unchanged in the source too.
- Ingest.ReadingTable.Handle: the JSON body is reduced to three cases: undecodable, falsy, or a record with the five fields. A truthy body that lacks fields (PHP passes null to the insert) and a body that decodes to a scalar are not modelled. The outcome of the insert is a parameter.
- Historial.CalculateTrendline: it requires a length other than one. For a single value the source divides 0 by 0 and returns [NaN]; floating point is modelled as exact reals, so NaN and rounding are left out.
- Device.StatusClass: JavaScript objects also answer inherited keys such as "constructor". Such a lookup returns a function, not the fallback class; the model treats every key outside the five labels as unknown.
- Device.CategoryName: the same inherited-key behaviour is left out.
- Historial.StatusColor: `colorMap[estatus] || "#95a5a6"` also answers inherited keys such as "constructor" or "toString" with the inherited member rather than grey; the model gives grey for every label outside the five.
- Util.Lower: only ASCII letters are case-folded; other Unicode case mappings of `toLowerCase` are not modelled.
- `getStatusClass` and `getCategoryName` in `js/script.js` (lines 186-207) are character-for-character the functions of `js/device.js`. They are modelled once, in `Device`.
- DeviceList.DeviceListView: the readings are the fixed array the page is loaded with (js/script.js:2-147), which numbers each device's readings from 1, so ids repeat across devices. The view accepts any readings. Its "exactly" statements are proved under `UniquePerDevice` (no device repeats an id), which that array meets (`DeviceList.BuiltInIdsRepeatAcrossDevices`, over all sixteen readings). When one device has two readings with its largest id, the methods still promise the one-sided halves of their contracts, but which of the two readings is shown is not stated.
- DeviceList.LatestDeviceStatus: readings of different devices with equal ids keep the relative order given by the sort. The source's order is that of JavaScript's stable `Array.prototype.sort`; the model does not state it, so the order of the returned devices is fixed only up to ties in id.
- Readings.SortByIdDescending: an insertion sort stands in for the engine's `Array.prototype.sort`. Its contract (sorted and a permutation) is all that callers use; stability among equal ids is not stated.
