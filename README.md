# PiHoleAlerts presence notifications, modelled in Dafny

PiHoleAlerts watches a fixed set of devices through the DNS-query log of a
Pi-hole. On each run it takes, for every configured device, the epoch time
of its latest query, classifies the device as active when that query lies
strictly within `LAST_SEEN_DELTA_MINS` minutes of the run's current
timestamp (line 97), and reconciles the
classification with the record `{status, notified}` stored for the device in
the configuration file. A notification goes out when the classification
differs from the stored status and the previous run sent no notification
for the device; the stored status always takes the new classification, and
`notified` is set to whether a notification was just sent. So `notified`
records only whether the previous run sent a notification, not whether the
stored status was ever announced: once a run has reported a device and the
next run has confirmed the same classification (which clears the flag), the
next change of classification is reported again.

The model has three modules:

- `Presence` (`presence.dfy`): `withinDeltaMins` as the pure function
  `WithinDeltaMins` over unbounded integers (Python integers do not wrap).
- `Transition` (`transition.dfy`): the device record `DeviceState`, the
  single-device step `Step`, and runs of one device over many cycles
  (`Emits`, `After`) with the edge-triggering properties proved over them.
- `Alerts` (`alerts.dfy`): the notification `Event`, the loop of `main` as
  the specification function `Reconcile`, the reference filter `Fired` of the
  devices that must be reported, and the class `Config` (the configuration
  document, which doubles as the state store) whose method `UpdateDevices`
  is the loop itself, written imperatively and proved equal to `Reconcile`.

The loop iterates over the dictionary built from the query log. Its
iteration order is the parameter `order` (distinct names, as dictionary keys
are), and the latest query time of each device is the map `lastQuery`.
`UpdateDevices` requires that every iterated name has a stored record and a
query time; the dictionary is built from the configured devices, so the
lookup at line 103 never fails in the program either.

One might expect `notified` to stay true while a notified device is
observed again, with or without a change of classification. The code
clears it whenever no notification is sent (line 128), and the model
follows the code: `StepTable` states the four rows as the code computes
them. One consequence, proved as
`ReversalAfterNotificationIsSilent` and `EventsBetweenHalfAndAllFlips`: a
classification that reverts in the cycle right after a notification is
never reported, so only at least half of the status changes, not all, are
announced.

## Model

| member | source | states |
|---|---|---|
| `Presence.WithinDeltaMins` | PiHoleAlerts.py:57-76 | true exactly when the signed difference of the two timestamps lies in the open interval (-deltaMins*60, deltaMins*60); true only for a positive window |
| `Presence.WithinDeltaMinsSymmetric` | PiHoleAlerts.py:70 | swapping the two timestamps does not change the answer |
| `Presence.WithinDeltaMinsBoundary` | PiHoleAlerts.py:73-76 | a difference of exactly deltaMins*60 seconds, in either direction, is outside the window; one second less is inside |
| `Presence.FiveMinuteExample` | PiHoleAlerts.py:73-76 | with a five-minute window, timestamps 1000 and 700 are not within it, 1000 and 701 are |
| `Transition.Step` | PiHoleAlerts.py:114-128 | one device's step: the status becomes the observation, notified records whether a notification was sent, a notification is sent only for a change of status, never right after a run that sent one, and always for a change after a run that sent none |
| `Transition.StepTable` | PiHoleAlerts.py:114-128 | the four rows of the per-device transition: only a change of classification after a run that sent no notification for the device sends one and leaves notified true; every other case clears notified; the status always becomes the observation |
| `Transition.RepeatedObservationIsSilent` | PiHoleAlerts.py:114-117 | the same observation fed twice: the second cycle sends nothing and keeps the status |
| `Transition.ReversalAfterNotificationIsSilent` | PiHoleAlerts.py:114-128 | a reversal in the cycle after a notification is not reported; the status flips back and notified is cleared |
| `Transition.Emits` | PiHoleAlerts.py:114-128 | one device's step composed over successive runs (the record carried between runs by the save at lines 134-135) yields one notification flag per run |
| `Transition.After` | PiHoleAlerts.py:117 | after a run of cycles the stored status is the latest observation; an empty run changes nothing |
| `Transition.NoConsecutiveEvents` | PiHoleAlerts.py:114-128 | in any run no device is reported in two consecutive cycles |
| `Transition.NotifiedMeansLastCycleReported` | PiHoleAlerts.py:121-128 | after a non-empty run, notified is true exactly when the last cycle sent a notification |
| `Transition.SteadyAgreementIsSilent` | PiHoleAlerts.py:114 | a device whose status matches a steady observation is never reported |
| `Transition.SteadyObservationReportedOnce` | PiHoleAlerts.py:114-128 | observed the same way for n cycles, a device is reported in the first cycle exactly when the observation differs from the stored status and the previous run sent no notification, and never later: at most one notification |
| `Transition.EventsBetweenHalfAndAllFlips` | PiHoleAlerts.py:114-128 | over any run, the number of notifications is at most the number of status changes and at least half of them (one more change may go unreported when the record starts notified) |
| `Alerts.Observed` | PiHoleAlerts.py:111 | a device counts as active exactly when its last query lies strictly within deltaMins*60 seconds of the run's timestamp, before or after |
| `Alerts.Event.Label` | PiHoleAlerts.py:120 | the status word of the message is ACTIVE or INACTIVE, and ACTIVE exactly when the new status is active |
| `Alerts.Reconcile` | PiHoleAlerts.py:100-131 | the loop of main as a function of the stored records: the device map keeps its keys and no more events than iterated devices are produced |
| `Alerts.ReconcileFirst` | PiHoleAlerts.py:103-131 | proof helper for the loop invariant of UpdateDevices: processing the next device and then the rest equals processing the remaining list |
| `Alerts.ReconcileIsPerDevice` | PiHoleAlerts.py:100-131 | for distinct names, an iterated device ends with one step from its original record, any other device keeps its record, and the events are those of the reference filter Fired |
| `Alerts.FiredSound` | PiHoleAlerts.py:120-125 | each event is for an iterated device whose step sends a notification, carrying its new status and last query time |
| `Alerts.FiredComplete` | PiHoleAlerts.py:121-125 | every iterated device whose step sends a notification has an event |
| `Alerts.FiredOncePerDevice` | PiHoleAlerts.py:100-131 | no device has two events in one cycle |
| `Alerts.CycleOutcome` | PiHoleAlerts.py:100-131 | after a cycle: keys unchanged, non-iterated devices unchanged, status equals the fresh classification, notified holds iff the status changed and the record was not notified before the cycle, iff the device has an event, each event's label is ACTIVE iff the new status is true, and at most one event per device |
| `Alerts.NoEventInConsecutiveCycles` | PiHoleAlerts.py:114-128 | a device reported in one cycle is not reported in the next, whatever the next observation |
| `Alerts.Config.constructor` | PiHoleAlerts.py:85-91 | the configuration holds the database path, the device records and the presence window |
| `Alerts.Config.UpdateDevices` | PiHoleAlerts.py:85-131 | the loop rewrites only the device map, which becomes Reconcile's map, and returns Reconcile's events; non-iterated devices keep their records, iterated ones take the fresh classification, are notified iff they changed and were not notified before the cycle, iff they have an event, and no device has two events |

## Left out

- `getNetworkInfo` (lines 13-54): the SQLite query is I/O; its result is the parameters `order` and `lastQuery`. Its crash when a device has no query (line 45) is an acquisition failure of that I/O and is not modelled.
- Reading and writing `config.json` (lines 134-135, 147-149): file and JSON I/O; the configuration is the in-memory `Config` object.
- `sendEmail` and `get911` (lines 10, 125, 155): the `Misc` module is not part of this model; the notifications sent are returned as the sequence of `Event`s instead.
- The clock (line 97): the model takes `currTimestamp` as the true epoch time. The program computes `int(datetime.datetime.utcnow().timestamp())`; `utcnow()` gives a naive datetime that `.timestamp()` reads as local time, so on a host whose time zone is not UTC the program's value is shifted by the UTC offset (3600 s early in UTC+1, so with a 5-minute window a device seen in the last minutes is classified inactive and one last seen about an hour before the run is classified active). That shift is not modelled.
- Date formatting (lines 108, 123): an `Event` keeps the epoch time of the last query; the message text with its formatted date is not built.
- Logging and the `try`/`except`/`finally` handler (lines 139-144, 151-157): an exception inside the loop (from `sendEmail` at line 125 or `utcfromtimestamp` at line 108) stops the loop, and the handler at lines 153-155 logs it without saving, so lines 134-135 are skipped and every record update of that run is lost; devices already emailed in that run keep their old `{status, notified}` and are emailed again in the next run. `UpdateDevices` always completes, and the multi-run lemmas `Transition.NoConsecutiveEvents`, `Transition.SteadyObservationReportedOnce`, `Transition.EventsBetweenHalfAndAllFlips`, `Transition.NotifiedMeansLastCycleReported` and `Alerts.NoEventInConsecutiveCycles` hold only for sequences of runs that each finish and save.
- `LAST_SEEN_DELTA_MINS` is modelled as an integer; a fractional number of minutes from JSON is not modelled.
- The device record is a dictionary updated in place and shared with the configuration; the model uses a value record written back into the device map (line 131), which gives the same final state but does not model the aliasing.
