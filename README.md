# LPU campus management: food pre-ordering and attendance, modelled in Dafny

The project models the core logic of a university campus web application with two
parts.

- **Food pre-ordering.** Students fill a session cart with menu items of a food stall and
  check out into a break slot of limited capacity. Stall owners move orders through the
  statuses Pending, Confirmed, Ready, Collected and Cancelled, and see the day's
  figures. An hourly demand counter feeds a peak-hour chart and a moving-average
  forecast of the next hour.
- **Attendance.** Faculty mark a session's enrolled students by hand (Present, Absent,
  Late or Excused), or from a class photo matched against the students' profile photos.
  Every mark recounts the student's per-course summary, and a low-attendance alert fires
  when the summary is below threshold after at least three sessions. Further views count
  a session's statuses, list its absentees, build the course report matrix and send each
  user to the dashboard of their role.

How the model is built:

- **Tables and dictionaries.** Every database table with a unique key and every Python
  dictionary the code mutates is a `Dict` (module `Dict`). A `Dict` is an
  insertion-ordered association list with distinct keys, with Python's update,
  insert-at-end and `del` semantics.
- **Databases.** The two databases are the classes `FoodModels.FoodDb` and
  `AttendanceModels.AttendanceDb`. The session cart is the class `FoodCart.SessionCart`.
- **Views.** The request handlers are methods that change the fields they name in
  `modifies`. Rendering, redirects and flash messages become outcome datatypes.
- **Face library.** It is replaced by oracle parameters:
  - `pathExists` for the file check;
  - `load` for loading and encoding a photo;
  - `detection` for the faces found in the class photo;
  - `distance` for the face distance;
  - `isMatch` for `compare_faces`.
- **System clock.** The current date and hour are parameters.

Modules:

| file | module |
|---|---|
| wrappers.dfy | `Wrappers`: Option |
| dict.dfy | `Dict`: ordered dictionary / keyed table |
| food_models.dfy | `FoodModels`: menu items, slots, orders, order lines, demand counters; slot capacity |
| food_cart.dfy | `FoodCart`: the session cart and its two handlers |
| food_views.dfy | `FoodViews`: checkout, demand counter, status updates, order progress step, owner dashboard |
| food_demand.dfy | `FoodDemand`: demand analytics and next-hour forecast |
| ai_service.dfy | `FaceRecognition`: photo encoding, registry of known faces, face matching |
| attendance_models.dfy | `AttendanceModels`: sessions, records, summaries, recounting |
| attendance_views.dfy | `AttendanceViews`: summary update, manual and AI marking, session counts, absentees, report, dashboard |

## Model

| member | source | states |
|---|---|---|
| FoodModels.Weekday | lpu_cms/food/models.py:163 | the stored day of week lies in 0..6, with Monday as 0 |
| FoodModels.Subtotal | lpu_cms/food/models.py:148-150 | price times quantity: 0 for quantity 0, and with a non-negative price never negative and at least the unit price for a positive quantity |
| FoodModels.ItemsTotalAppend | lpu_cms/food/models.py:127-132 | the total over a concatenation of order lines is the sum of the two totals, so the total does not depend on how lines are grouped |
| FoodModels.ItemsTotalBounds | lpu_cms/food/models.py:142-150 | with non-negative prices and positive quantities, the sum of price times quantity is non-negative and at least every line's price |
| FoodModels.CurrentOrderCount | lpu_cms/food/models.py:79-85 | the count of today's orders of a slot with status P, C or R is at most the number of orders, and 0 when no order holds a place |
| FoodModels.CountAfterPut | lpu_cms/food/models.py:79-85 | writing an order changes the slot's count by whether the old row held a place and whether the new one does, so a Collected or Cancelled order frees its place |
| FoodModels.SlotsLeft | lpu_cms/food/models.py:87-93 | slots_left is never negative; it is 0 exactly when is_full holds; otherwise count plus slots_left equals max_orders |
| FoodModels.ReleasingFreesFullSlot | lpu_cms/food/models.py:79-89 | a slot whose count of P, C and R orders equals max_orders is full (is_full), and moving one of those orders to Collected or Cancelled makes it not full with exactly one place left |
| FoodModels.FoodDb.constructor | lpu_cms/food/models.py:165-166 | an empty database, valid from the start: order statuses within STATUS_CHOICES and at most one demand counter per (stall, date, hour) |
| FoodModels.FoodDb.CalculateTotal | lpu_cms/food/models.py:127-132 | the returned total is the sum of the order's line subtotals; it is stored as the order's total and nothing else changes |
| FoodModels.OrdersPutValid | lpu_cms/food/models.py:103-115 | writing an order whose status is one of STATUS_CHOICES keeps every stored status within STATUS_CHOICES |
| FoodCart.Increment | lpu_cms/food/views.py:124-125 | the item's quantity becomes its old quantity plus 1, or 1 when it was absent; every other key is unchanged; the quantity sum grows by exactly 1; quantities stay positive |
| FoodCart.Decrement | lpu_cms/food/views.py:142-149 | an absent key leaves the cart unchanged; a quantity of 1 or less deletes the key; otherwise the quantity drops by 1; other keys are unchanged; the sum drops by 1; quantities stay positive |
| FoodCart.AddThenRemoveRestores | lpu_cms/food/views.py:124-148 | adding an item and then removing it restores the original cart exactly, including entry order |
| FoodCart.SessionCart.constructor | lpu_cms/food/views.py:33-35 | a session without a cart has the empty cart |
| FoodCart.SessionCart.TotalItems | lpu_cms/food/views.py:43-45 | cart_total_items is the sum of the quantities; with every quantity at least 1 it is at least the number of entries and 0 exactly for the empty cart |
| FoodCart.SessionCart.AddToCart | lpu_cms/food/views.py:116-133 | a non-POST request answers 405 and an unavailable or unknown item answers 404, both with the cart unchanged; otherwise the cart is incremented and the answer carries the new quantity and cart_count, which is the old total plus 1 |
| FoodCart.SessionCart.RemoveFromCart | lpu_cms/food/views.py:137-154 | a non-POST request answers 405 and leaves the cart; otherwise the cart is decremented; cart_count is the new sum of quantities, 1 less when the item was in the cart and unchanged otherwise |
| FoodCart.SessionCart.Clear | lpu_cms/food/views.py:158-162 | the cart becomes empty |
| FoodViews.CartLines | lpu_cms/food/views.py:265-280 | at most one order line per cart entry, since entries whose item is not on this stall's menu are skipped |
| FoodViews.CartLinesSound | lpu_cms/food/views.py:265-280 | every created line is for an item in the cart that is on this stall's menu, with a positive quantity and the current menu price |
| FoodViews.CartLinesComplete | lpu_cms/food/views.py:266-277 | every cart entry of an item of the stall does yield its line |
| FoodViews.CollectLines | lpu_cms/food/views.py:264-280 | the loop creates exactly the stall's cart lines in cart order, and grand_total is the sum of price times quantity over them |
| FoodViews.PlaceOrder | lpu_cms/food/views.py:254-290 | a Pending order for today is appended under the next id, with the stall's cart lines and their total; the demand counter of this hour grows by 1, other counters are unchanged; the cart is emptied |
| FoodViews.UpdateDemandRecord | lpu_cms/food/views.py:48-65 | the counter of (stall, today, hour) becomes its old count plus 1, or a new record with count 1 and today's weekday; all other counters are unchanged; keys stay unique |
| FoodViews.Checkout | lpu_cms/food/views.py:216-300 | each guard has its own answer, checked in order: stall not found, no student, empty cart, not POST, invalid slot, slot full; an order is placed iff all guards pass, and otherwise nothing changes; a placed order is Pending for today with the stall's cart lines and total equal to the sum of price times quantity; the demand counter grows by 1 and the cart is emptied |
| FoodViews.UpdateOrderStatus | lpu_cms/food/views.py:398-420 | an order not of the caller's stall is not found; a POST with a code of STATUS_CHOICES sets exactly that order's status; any other request answers 400 and leaves the orders unchanged |
| FoodViews.StatusStep | lpu_cms/food/views.py:313-320 | the progress step is at most 4, and it is 0 exactly for Cancelled |
| FoodViews.StatusStepsFollowProgress | lpu_cms/food/views.py:313-320 | Pending < Confirmed < Ready < Collected; Cancelled is step 0; the five codes get distinct steps; an unknown code shows as Pending |
| FoodViews.TodayOrders | lpu_cms/food/views.py:359-362 | exactly the stall's orders dated today |
| FoodViews.TodayOrdersAppend | lpu_cms/food/views.py:359-362 | a new order appears on its stall's list for its date, after the earlier ones |
| FoodViews.OwnerDashboard | lpu_cms/food/views.py:352-377 | no figures iff the caller owns no stall; the order total is bounded by the table size; with valid statuses, pending + confirmed + ready + collected never exceeds the total |
| FoodViews.DashboardCountsPartition | lpu_cms/food/views.py:370-377 | the five status counts add up to the order count, and the revenue is the sum of the Confirmed, Ready and Collected totals |
| FoodViews.PendingOrderEarnsNothing | lpu_cms/food/views.py:371-377 | a new Pending order adds one to the pending count and nothing to the revenue |
| FoodDemand.WeekRecords | lpu_cms/food/views.py:432-438 | exactly the stall's counters dated seven days ago or later, in table order |
| FoodDemand.HourTotalAbsent | lpu_cms/food/views.py:440-446 | an hour that no counter mentions has total 0 |
| FoodDemand.AggregateHourly | lpu_cms/food/views.py:440-442 | the loop builds the row-by-row fold HourlyFold; the keys of hourly_totals are exactly the hours of the records, each mapped to the sum of its order counts |
| FoodDemand.HourlyFoldTotals | lpu_cms/food/views.py:440-442 | the dictionary the loop builds row by row has exactly the hours of the rows, each mapped to the sum of its order counts |
| FoodDemand.ChartData | lpu_cms/food/views.py:445-446 | the chart has 13 entries, one per hour 8..20 |
| FoodDemand.PeakIndex | lpu_cms/food/views.py:449 | the first position holding the largest total, as max() picks it |
| FoodDemand.PeakHour | lpu_cms/food/views.py:449 | 12 when there are no totals, otherwise the hour at PeakIndex, the first entry holding the largest total |
| FoodDemand.PastCounts | lpu_cms/food/views.py:490-500 | seven counts, one per previous day |
| FoodDemand.RoundHalfEven | lpu_cms/food/views.py:512 | the result is within 1/2 of its argument, and a tie goes to the even integer |
| FoodDemand.Predict | lpu_cms/food/views.py:502-530 | no forecast exactly when the counts are empty or sum to 0; otherwise mean, rounded mean, variance and band |
| FoodDemand.PredictNextHour | lpu_cms/food/views.py:471-537 | the next hour is (hour + 1) mod 24 and lies in 0..23; the loop collects that hour's count for each of the seven previous days, 0 for a missing counter, and the result is the forecast of those counts |
| FoodDemand.DemandAnalytics | lpu_cms/food/views.py:425-468 | no page without an owned stall; otherwise the chart entry for 8+i is the week's total for that hour; the peak is PeakHour of the row-by-row hourly totals, so the first hour of largest total in the order hours first appear, and 12 without records; total_week is the chart's sum; the prediction is that of the next hour |
| FoodDemand.NoForecastExactlyWithoutOrders | lpu_cms/food/views.py:502-508 | with non-negative counts, there is no forecast exactly when every one of the counts is 0 |
| FoodDemand.ForecastVarianceNonNegative | lpu_cms/food/views.py:515-526 | the variance is never negative, and the band is High below 5, Medium below 20, Low otherwise |
| FoodDemand.SteadyDemandIsHighConfidence | lpu_cms/food/views.py:511-519 | the same positive count on all seven days forecasts that count with variance 0 and High confidence |
| FoodDemand.ForecastIsNearestInteger | lpu_cms/food/views.py:511-512 | a mean of seven counts never falls on a half, so the forecast is strictly the nearest integer |
| FaceRecognition.EncodeStudentFace | lpu_cms/attendance/ai_service.py:24-44 | an encoding is returned iff loading succeeded and found a face, and it is the first one; None when there are no faces or on an error |
| FaceRecognition.RosterIds | lpu_cms/attendance/ai_service.py:140 | the students' ids in roster order |
| FaceRecognition.GetKnownEncodings | lpu_cms/attendance/ai_service.py:131-153 | the map has unique keys, all of them roster ids; a student has an entry iff they have a photo whose path exists and whose encoding is not None, and the entry is that encoding |
| FaceRecognition.ArgMin | lpu_cms/attendance/ai_service.py:104 | the first index of a smallest distance |
| FaceRecognition.BestMatch | lpu_cms/attendance/ai_service.py:97-104 | no assignment iff no match flag is true; otherwise the first index of the smallest distance over all known faces |
| FaceRecognition.ScanFaces | lpu_cms/attendance/ai_service.py:94-111 | each face is assigned to its best match or counted as unrecognized, so assigned plus unrecognized equals the faces; every assigned id is a known key; the confidence keys are exactly the assigned ids, each valued by the last face assigned to it |
| FaceRecognition.RecognizeFacesInImage | lpu_cms/attendance/ai_service.py:47-128 | an error gives the empty result with total 0; no faces gives the same with total 0 and the no-faces error; otherwise total = faces; assigned faces plus unrecognized = total; the recognized set is the assignments without duplicates, all known keys; confidence keys are exactly that set, each valued by the last face assigned to it |
| FaceRecognition.EmptyRegistryRecognizesNobody | lpu_cms/attendance/ai_service.py:97-111 | with an empty known map no face is assigned |
| FaceRecognition.AssignmentsFromRegistry | lpu_cms/attendance/ai_service.py:94-109 | at most one assignment per face, and every assigned id is a key of the known map |
| FaceRecognition.ThresholdMatchPicksClosestMatch | lpu_cms/attendance/ai_service.py:97-105 | when matching means distance within a tolerance, the chosen student is a match and no known face is closer |
| AttendanceModels.SessionCount | lpu_cms/attendance/views.py:45 | the number of sessions of the course, at most the number of sessions |
| AttendanceModels.Attended | lpu_cms/attendance/views.py:46-50 | the student's Present records in sessions of the course |
| AttendanceModels.AttendedPutOther | lpu_cms/attendance/views.py:46-50 | a record written for another student or a session of another course leaves the attended count unchanged |
| AttendanceModels.RosterOf | lpu_cms/attendance/views.py:210 | the enrolled students of a course, none for an unknown course |
| AttendanceModels.CourseSessionIds | lpu_cms/attendance/views.py:292 | the course's session ids in table order: exactly the course's sessions, as many as SessionCount |
| AttendanceModels.AttendedCountsSessions | lpu_cms/attendance/views.py:46-50 | with one record per (session, student), the attended count is the number of distinct sessions the student attended |
| AttendanceModels.AttendedAtMostHeld | lpu_cms/attendance/views.py:45-56 | with one record per (session, student), classes_attended never exceeds total_classes |
| AttendanceViews.UpdateSummary | lpu_cms/attendance/views.py:44-63 | the summary is total = sessions of the course and attended = the student's Present records; it is stored under (student, course) by get-or-create; the alert fires iff below threshold and total >= 3; attended <= total |
| AttendanceViews.WithStatusMembers | lpu_cms/attendance/views.py:232-233 | the collected ids are exactly the roster students whose record has the given status |
| AttendanceViews.SaveStudent | lpu_cms/attendance/views.py:226-235 | the (session, student) record is upserted with the chosen mark of the old record, the (student, course) summary becomes the recount over the new records, and the alert flag is the low-attendance condition on that summary |
| AttendanceViews.SaveRoster | lpu_cms/attendance/views.py:221-240 | each roster student's record of the session is set to one mark; other records are unchanged; each roster student's summary is the recount over the final records; other summaries are unchanged; the absentees are the roster students marked Absent, in roster order |
| AttendanceViews.MarkAttendance | lpu_cms/attendance/views.py:195-257 | unknown session, not the creator, saved (POST with a valid form) and form shown each happen exactly under their conditions; nothing changes unless saved; the form shows already_marked and the student count; a save sets every enrolled student's status to the form's choice, 'A' when missing, and recounts summaries; absentees are exactly those marked Absent |
| AttendanceViews.SaveManualMarks | lpu_cms/attendance/views.py:218-235 | every enrolled student's record gets the submitted status ('A' when missing) and keeps its old AI flag, other records are unchanged; enrolled summaries are recounted, others unchanged; the absentees are exactly the students marked Absent, in roster order |
| AttendanceViews.ManualMarkKeepsFlag | lpu_cms/attendance/views.py:226-230 | manual marking sets only the status: an existing record keeps its AI flag, a new one gets the default |
| AttendanceViews.AbsenteesByStatus | lpu_cms/attendance/views.py:232-233 | the absentee list holds exactly the roster students whose chosen status is Absent |
| AttendanceViews.AiMarkAttendance | lpu_cms/attendance/views.py:409-503 | each abort (unknown session, not the creator, form shown, no students, no known encodings, no faces) happens exactly under its condition and writes nothing; otherwise each enrolled student is Present with ai_verified iff recognized and Absent otherwise; summaries are recounted; the detected and unrecognized figures come from recognition; present_count = enrolled − absentees = the Present students |
| AttendanceViews.SaveAiMarks | lpu_cms/attendance/views.py:459-485 | every enrolled student's record is Present and AI-verified iff recognized, Absent and unverified otherwise, other records are unchanged; enrolled summaries are recounted; the absentees are exactly the unrecognized students; enrolled minus absentees equals the Present students |
| AttendanceViews.PresentOrAbsent | lpu_cms/attendance/views.py:459-485 | when every student is marked P or A, present plus absent equals the roster size |
| AttendanceViews.SessionDetail | lpu_cms/attendance/views.py:260-284 | none iff the session is unknown; present + absent + late + excused = total, and total is bounded by the record table |
| AttendanceViews.StatusCountsPartition | lpu_cms/attendance/views.py:268-272 | the four per-status counts of a session add up to its record count |
| AttendanceViews.DetectAbsentees | lpu_cms/attendance/views.py:386-408 | none iff the session is unknown; a student is an absentee iff enrolled and without a Present record, so Late, Excused and unmarked students count |
| AttendanceViews.PresentRecordIff | lpu_cms/attendance/views.py:394-397 | with one record per (session, student), a Present row exists iff the student's status in the session is Present |
| AttendanceViews.AbsenteesAgreeWhenFullyMarked | lpu_cms/attendance/views.py:393-399 | when every enrolled student is marked P or A, the detected absentees are exactly the students marked Absent |
| AttendanceViews.CellFor | lpu_cms/attendance/views.py:299-303 | a report cell is the dash iff no record exists, and otherwise the record's status |
| AttendanceViews.CourseReport | lpu_cms/attendance/views.py:287-316 | none iff the course is unknown; one row per enrolled student in order, one cell per session of the course in order, and the student's stored summary |
| AttendanceViews.Dashboard | lpu_cms/attendance/views.py:75-94 | staff go to the admin dashboard, else faculty to the faculty dashboard, else students to the student dashboard, else the no-role page, each iff its condition |
| Dict.Put | lpu_cms/food/views.py:125 | assignment keeps unique keys, sets the key's value and leaves every other key's value |
| Dict.Remove | lpu_cms/food/views.py:148 | del removes the key and leaves every other key's value |

## Left out

- `FoodViews.UpdateOrderStatus`: a POST body that is not JSON makes `json.loads` raise, which the server answers with 500; the model takes the request's status field as already decoded and has no such case.
- Rendering, redirects, flash messages, JSON bodies, `login_required`, and the ORM and
  session plumbing. Outcomes are datatypes; tables are `Dict`s and maps.
- The current date and hour are parameters in place of `timezone.now()`. Dates are day
  ordinals.
- The face library (image loading, HOG detection, 128-d embeddings, `compare_faces`
  with tolerance 0.6) is oracle parameters. The model does not assume that a match means
  distance below 0.6; `FaceRecognition.ThresholdMatchPicksClosestMatch` takes any tolerance.
- `FaceRecognition.RecognizeFacesInImage`: the confidence is kept as the exact
  `(1 - d) * 100`, without rounding to one decimal. The exception message `str(e)` is
  the single error value `RecognitionFailed`.
- `FoodDemand.Predict`: mean and variance are exact reals, not floats. `round()` is
  half-to-even on the exact mean.
- The presentation percentages `present_pct` and the faculty attendance rate are floats
  and out of the model.
- The file field `face_image` (stored when present) has no reason to exist in the model,
  because the upload is not modelled.
- `is_below_threshold` and `percentage` live in attendance/models.py, and
  attendance/models.py is not part of this model. The threshold is an uninterpreted
  predicate `below(total, attended)`. The default of `ai_verified` for a new manual
  record is taken to be false.
- The e-mails and absence logging of attendance/notifications.py are not part of this
  model. The marking methods return the ids that would be notified: absentees and
  low-attendance alerts.
- Orderings such as `order_by('user__last_name')`, `order_by('date')` and
  `order_by('slot__start_time', '-created_at')` are represented by table order.
- Session cart keys are `str(item_id)`. Since `str` is injective on ids, the model keys
  the cart by the id itself.
- `FoodDemand.WeekRecords`: the filter `date >= today - 7` spans eight dates including
  today. The model keeps it exactly as written.
- Grouping the dashboard's orders by slot (`slots_data`) is display only.
- The views that are not in this core are out of the model: listing and menu pages,
  `cart_view`, `my_orders`, `slot_availability`, menu management, `start_session`, the
  admin, faculty and student dashboards, and `student_course_detail`.
- Concurrency: there is no locking around `update_summary`'s read-modify-write, and
  the model is sequential.
- Integer widths: counts and money are unbounded integers. Prices are whole paise, from
  the two-decimal DecimalField.
