# Clinic reception scheduling: a Dafny model

This project models the scheduling core of the Reception clinic backend. That backend is a Django REST service where admins (role 1), doctors (role 2) and patients (role 3) hold accounts. Doctors publish weekly working hours. Appointments are booked by username.

The model covers:

- the availability check and its two alternative lists;
- booking with its exact-triple duplicate test;
- the working-hour range and overlap validator;
- the record shapes and the cascade on user deletion;
- the appointment serializers' rules;
- the user soft-delete state machine with its username mangling;
- the login, update and search lookups the core relies on.

Time is a `Clock.Timestamp`: a day count from a fixed Monday plus a minute of the day (0..1439). `weekday()` is the day count modulo 7. The one-hour slot end is `(t + 1 hour).time()`, which wraps past midnight.

Tables are sequences read in stored order; `first()` is taken as the earliest match in that order, which agrees with Django's primary-key order when rows are kept in key order. `Query.Filter` and `Query.First` stand for `filter()` and `filter().first()`. The persistent state is the class `Store.Database`. The in-memory user whose `save` rewrites its own username is the class `Store.UserInstance`. The read-only views (`check`, `doctor_list`, `login`, `search_user`) are functions over the table values, so they cannot change the store.

Where the code and its documentation disagree, the model follows the code:

- `User.objects.get(username=..., role=2)` does not look at `is_deleted`, so a soft-deleted doctor is still found and still suggested.
- In `check`, a date or time that does not parse is an uncaught exception (a 500), not a 400, because the parse sits before the `try`.
- `create` has no future-time test and no test of the doctor's other appointments.

## Model

| member | source | states |
|---|---|---|
| Query.Filter | appointments/views.py:55-59 | a queryset filter returns exactly the stored rows that satisfy the predicate, each as many times as it is stored, and drops every other row |
| Query.First | authentication/views.py:66 | `filter().first()` returns a stored matching row, and nothing exactly when no row matches |
| Query.FirstIsEarliest | authentication/views.py:66 | the row `first()` returns is the earliest match in stored order, which agrees with the primary-key order of an unordered queryset when rows are kept in key order |
| Clock.BeforeIsAbsoluteOrder | appointments/serializers.py:59 | comparing datetimes by (date, time) agrees with comparing elapsed minutes |
| Clock.WeekdayOf | appointments/views.py:66 | `weekday()` lies in 0..6 and repeats every seven days |
| Clock.PlusOneHour | appointments/views.py:68 | `t + timedelta(hours=1)` is sixty minutes later, on the same or the next day |
| Clock.SlotEnd | appointments/views.py:68 | the slot end as a time of day is `(minute + 60) mod 1440`, and it is below the start exactly from 23:00 on |
| Clock.LateSlotEndsNextWeekday | appointments/views.py:66-68 | a slot starting at 23:00 or later ends on the next weekday, while the filter compares it against the starting weekday |
| Models.NewUser | authentication/models.py:16-17 | a new user gets role 1 (a role choice, neither doctor nor patient) and `is_deleted` false |
| Models.SameUsernameSameUser | authentication/models.py:15 | under the unique username index, two rows with one username are one row |
| Models.SameIdSameUser | authentication/models.py:14 | under unique primary keys, two rows with one key are one row |
| Models.GetUser | appointments/views.py:51 | `get(username, role)` finds a stored user with that username and role, and fails exactly when none exists |
| Models.GetUserIsTheMatch | appointments/views.py:133-134 | with unique usernames, `get` returns the one user holding that username and role |
| Models.FindActive | authentication/views.py:144-146 | the `update_user` and `soft_delete` lookup finds a live user with that key, and fails exactly when every row with the key is deleted |
| Models.ParseStatus | appointments/models.py:18-21 | only "scheduled" and "canceled" are accepted as status values |
| Models.StatusRoundTrip | appointments/models.py:18-21 | every status reads back as itself after being stored |
| Models.DeleteUser | appointments/models.py:5-32 | the cascade removes exactly the user, the appointments where they are doctor or patient, and their working hours |
| Models.DeleteUserKeepsReferences | appointments/models.py:5-32 | after the cascade every remaining foreign key still resolves |
| Store.IndexOfId | authentication/models.py:29 | the position of a primary key, or none exactly when no row holds it |
| Store.Upsert | authentication/models.py:29 | writing a row replaces the row with its key or appends it, and leaves every other row in place |
| Store.UpsertKeepsKeys | authentication/models.py:29 | a write keeps every existing primary key present |
| Store.SameIdAfterUpsert | authentication/models.py:29 | with unique keys, the write replaces exactly the row at its key's position |
| Store.UpsertPreservesSchema | authentication/models.py:15-29 | a write that keeps usernames unique keeps both unique indexes |
| Store.Database.SaveUserRow | authentication/models.py:29 | `Model.save()` succeeds exactly when no other row holds the username; it writes the row and keeps the schema valid, and otherwise leaves the table as it was |
| Store.Database.AddWorkingHour | appointments/validations.py:6-17 | with the validator wired in, a window is stored exactly when accepted and its doctor exists, and the schedules stay free of overlaps |
| Store.Mangle | authentication/models.py:27-28 | the mangled username differs from the old one and extends it |
| Store.ManglingStacks | authentication/models.py:27-28 | each further save of a deleted user appends one more suffix: the name grows, changes again, and keeps the previous name as a prefix |
| Store.UserInstance.Save | authentication/models.py:25-29 | a deleted user's username becomes `old + "-" + suffix` before the write, a live user's is kept; the write succeeds exactly when the name is free; nothing else in the database changes |
| Validation.OverlappingHours | appointments/validations.py:10-15 | the overlap query returns exactly the stored windows of the same doctor and weekday with `start < candidate.end` and `end > candidate.start` |
| Validation.ValidateWorkingHour | appointments/validations.py:6-17 | the range is rejected exactly when start >= end, and an overlap exactly when a well-formed candidate meets such a window |
| Validation.CleanAsWritten | appointments/validations.py:19 | as written, the final zero-argument `super()` call means no candidate is ever accepted |
| Validation.CleanAsWrittenRejectsAValidWindow | appointments/validations.py:6-19 | a valid window with nothing stored is rejected as written and accepted as intended |
| Validation.UnwiredValidatorAdmitsOverlap | appointments/models.py:26-43 | with `clean` not attached to `WorkingHour`, two overlapping Monday windows of one doctor can both be stored, which the validator would reject |
| Validation.TouchingWindowsAccepted | appointments/validations.py:13-14 | windows that only touch at either end are accepted |
| Validation.OtherSchedulesIgnored | appointments/validations.py:11-12 | windows of other doctors or weekdays never change the verdict |
| Validation.StoredWindowRejectedOnRecheck | appointments/validations.py:10-17 | a stored window revalidated against the store is rejected: the query does not exclude the window itself |
| Validation.AcceptedInsertKeepsNonOverlap | appointments/validations.py:6-17 | appending an accepted window keeps every doctor's weekday windows pairwise non-overlapping |
| Validation.InsertValidated | appointments/validations.py:6-17 | inserting candidates through the validator only ever appends to the stored windows |
| Validation.ValidatedInsertsStayNonOverlapping | appointments/validations.py:6-17 | whatever the candidates, if every insert passes the validator the schedules stay pairwise non-overlapping |
| Availability.ScheduledAt | appointments/views.py:55-61 | the busy test succeeds exactly when the doctor has a scheduled appointment at exactly that timestamp |
| Availability.CoveringWindows | appointments/views.py:66-68 | the inclusion filter keeps exactly the windows on the weekday with start <= slot start and end >= slot end (as a time of day) |
| Availability.AlternativeDoctors | appointments/views.py:64-82 | every listed name belongs to a role-2 user other than the requested doctor (exact membership and multiplicity are `Availability.AlternativeDoctorsMembers` and `Availability.AlternativeDoctorMultiplicity`) |
| Availability.AlternativeDoctorsMembers | appointments/views.py:64-82 | a username is listed exactly when it belongs to a role-2 user other than the requested doctor with a covering window; deleted users are not excluded |
| Availability.AlternativeDoctorMultiplicity | appointments/views.py:64-82 | with no `distinct` on the join, a doctor is listed once per covering window |
| Availability.RequestedDoctorNotSuggested | appointments/views.py:69 | the requested doctor is never their own alternative |
| Availability.AlternativeTimes | appointments/views.py:71-86 | at most one time per stored window, each the start and end of a window of the doctor on the requested weekday (exact membership is `Availability.AlternativeTimesMembers`) |
| Availability.AlternativeTimesMembers | appointments/views.py:71-86 | the listed times are exactly the doctor's windows on the weekday, minus those with start >= slot start and end <= slot end |
| Availability.AlternativeTimesCount | appointments/views.py:71-86 | exactly one time is listed per offered window, with nothing merged or split |
| Availability.ExactSlotWindowAsymmetry | appointments/views.py:67-76 | a window equal to the slot covers it for the doctor filter yet is dropped from the times |
| Availability.LateSlotCoveredByEveningWindow | appointments/views.py:68 | from 23:00 on the wrapped slot end lets a window reaching only the slot start cover the whole slot |
| Availability.Check | appointments/views.py:44-53 | a bad date or time is a 500, raised before the lookup; a missing role-2 user is a 404 exactly when the timestamp parses |
| Availability.CheckAvailableIff | appointments/views.py:55-62 | the doctor is available exactly when a role-2 user has the username and no scheduled appointment at exactly that timestamp |
| Availability.CheckUnavailable | appointments/views.py:64-89 | a busy doctor's response carries the alternatives computed for that doctor and timestamp |
| Availability.CheckIgnoresWorkingHours | appointments/views.py:55-62 | the availability verdict and status code do not depend on the working hours |
| Availability.NonBlockingAppointmentsIgnored | appointments/views.py:55-59 | a canceled appointment, or one at another time, never makes a free doctor busy |
| Availability.ScenarioBusyDoctor | appointments/views.py:44-89 | a doctor booked on Monday at 10:00 gets one alternative doctor, who works 09:00 to 17:00, and no alternative times |
| Availability.DoctorList | appointments/views.py:17-20 | the doctor list is exactly the role-2 users, deleted or not |
| Booking.Decide | appointments/views.py:126-149 | a booking is created only for a role-2 doctor and a role-3 patient with those usernames, a parsed timestamp and no stored triple |
| Booking.DecideFailures | appointments/views.py:132-160 | 404 exactly when the doctor or patient is missing; then 400 exactly on a bad timestamp; then 400 exactly on a stored triple |
| Booking.CanceledTripleStillDuplicate | appointments/views.py:140-142 | a canceled appointment with the same triple still blocks rebooking |
| Booking.DoubleBookingAccepted | appointments/views.py:140-149 | a second patient at the same doctor and time is booked; only the same patient again is refused |
| Booking.Book | appointments/views.py:126-155 | on success exactly one scheduled appointment is appended under the next key, which then advances, and both notices are produced; on failure nothing is written or sent and the key counter stays; the unique triples and role limits are preserved |
| Serializers.ValidateDateTime | appointments/serializers.py:57-61 | as intended, a value strictly before now is rejected and any other value is returned unchanged |
| Serializers.ValidateDateTimeAsWritten | appointments/serializers.py:59 | as written, `timezone.now()` raises, so no value is accepted |
| Serializers.ValidateDateTimeAsWrittenRejectsFuture | appointments/serializers.py:57-61 | a future appointment is rejected as written and accepted as intended |
| Serializers.ValidateDateTimeBoundary | appointments/serializers.py:59-60 | now itself is accepted, and one minute earlier is rejected |
| Serializers.FieldErrors | appointments/serializers.py:40-61 | as intended, with `django.utils.timezone.now`: `doctor_id` fails exactly when no role-2 user has that key, `patient_id` exactly when no role-3 user does, `date_time` exactly when it is in the past, and `status` exactly when it is neither "scheduled" nor "canceled" (as written, every write carrying `date_time` is a 500) |
| Serializers.CreateViaSerializer | appointments/serializers.py:38-65 | as intended, with `django.utils.timezone.now`: the serializer creates the row exactly when no field fails, with the given keys, timestamp and status, a role-2 doctor and a role-3 patient (as written, validation raises first and nothing is created) |
| Serializers.SerializerPathStoresDuplicates | appointments/models.py:4-21 | as intended, with `django.utils.timezone.now`: no uniqueness is declared, so a serializer write would store an existing triple again (as written, such writes fail with a 500 before reaching the table) |
| Serializers.ToRepresentation | appointments/serializers.py:27-35 | when unavailable, `alternatives` is rebuilt from the two lists, an absent list becoming empty; when available the base representation is kept |
| AuthViews.LoginOutcomes | authentication/views.py:64-73 | login succeeds exactly for a live user with that username whose password checks; USER_DOES_NOT_EXIST exactly when no live user has it; otherwise INVALID_INPUT |
| AuthViews.Login | authentication/views.py:64-73 | USER_DOES_NOT_EXIST exactly when every user with the username is deleted; tokens only for a live user with that username whose password checks (the full case split under unique usernames is `AuthViews.LoginOutcomes`) |
| AuthViews.PermissionTestUnreachable | authentication/views.py:170-172 | the role-4 permission test never fires on a target whose role is a role choice |
| AuthViews.SoftDelete | authentication/views.py:166-175 | an absent or deleted key fails and changes nothing; the delete succeeds exactly when the target is live, permitted and its mangled name is held by no other row; on success only the target row changes, to deleted with a mangled name, the old name is freed and a second delete fails; appointments, working hours and the appointment key counter stay |
| AuthViews.DeletedRowFreesName | authentication/models.py:26-28 | writing the deleted, renamed row leaves no row with the old username and no live row with that key |
| AuthViews.FoldAll | authentication/views.py:194 | the folded string has the same length, contains no capital letter, and agrees with the input character by character up to ASCII case |
| AuthViews.FoldAllIdempotent | authentication/views.py:194 | folding twice is folding once |
| AuthViews.CaseVariantsFoldAlike | authentication/views.py:194 | strings that agree character by character up to ASCII case fold to the same string |
| AuthViews.ContainsIff | authentication/views.py:194 | the substring test holds exactly when the query occurs at some position |
| AuthViews.SearchUsers | authentication/views.py:190-194 | search returns at most the stored users, and only live users outside role 4 (exact membership is `AuthViews.SearchUsersMembers`) |
| AuthViews.SearchUsersMembers | authentication/views.py:192-194 | search returns exactly the live users not in role 4 whose folded username contains the folded query, which defaults to "+" |
| AuthViews.SearchIgnoresCase | authentication/views.py:194 | queries that agree character by character up to ASCII letter case find the same users |

## Left out

- Date and time parsing (`strptime`, `timezone.make_aware`) is not modelled. Callers pass an optional timestamp, where none means the parse failed.
- The wall clock is not modelled. `now` is a parameter.
- Calendar arithmetic and naive versus aware datetimes are not modelled. A timestamp is a day count and a minute, and the weekday is the day count modulo 7.
- Telegram delivery (notifications/utils.py) is network I/O. `Booking.Book` returns the two messages instead of sending them. A failed send, which turns a committed booking into a 500, is not modelled.
- Password hashing, JWT issuing, `register`, `logout`, `change_password` and `auth_me` are plumbing. `check_password` is an opaque predicate parameter of `AuthViews.Login`.
- The field update behind `update_user`'s guard is serializer machinery. Only the guard is modelled, as `Models.FindActive`.
- A missing `username` or `password` key in the login body raises a KeyError. It is not modelled.
- Pagination of `search_user` is not modelled; `CustomPagination` is not part of this model.
- Case-insensitive matching is not full Unicode. `AuthViews.Fold` folds ASCII letters only, while the database's `icontains` may fold more.
- The uuid4 suffix is a parameter, not a random value.
- `Store.UserInstance.Save` does not model the `max_length=100` limit on usernames. A long mangled name would fail the write with a DataError, and the model lets it through.
- Join order of the alternative-doctor query is not modelled. Doctors are listed in user order, each repeated once per covering window.
- `Serializers.ToRepresentation` lists doctors as usernames. `AvailabilitySerializer` declares integer children, and the view does not use that serializer.
- Serializers.CreateViaSerializer: models the serializer's own `create`, which a POST does not reach because the view overrides `create` (that path is `Booking.Book`). The routed serializer write is the update (PUT) path; its row replacement is not modelled. The write is taken to carry every field, so the required-field errors of a non-partial write with a field missing are not modelled. As written, every such write raises in `validate_date_time` and is a 500.
- Concurrency is not modelled, including racing duplicate bookings: the model is sequential.
- Store.Database.AddWorkingHour: does not check that the window's doctor has role 2. It checks only that the doctor row exists; `limit_choices_to` is enforced by forms and by `full_clean()`, not by the table or by `save()`.
- Routing, the admin registration and authentication/serializers.py are not part of this model.

## Findings

| source | as written | input that shows it | evidently intended | confidence | as-written member | corrected member |
|---|---|---|---|---|---|---|
| appointments/validations.py:6-19 | `clean` is a module-level function, never attached to `WorkingHour`, and ends in a zero-argument `super().clean()` that raises outside a class | doctor 7 on Monday: 09:00-12:00 stored, then 11:00-13:00 saved; both are stored. Calling `clean` directly on any valid window raises instead of accepting | `WorkingHour.clean` rejects an empty range and overlaps, and accepts otherwise | not executed | Validation.UnwiredValidatorAdmitsOverlap | Validation.ValidatedInsertsStayNonOverlapping |
| appointments/serializers.py:1-61 | `timezone` is imported from `datetime`, so `timezone.now()` raises AttributeError on every validation | any `date_time`, for example tomorrow at 10:00 | `django.utils.timezone.now()`: reject only values before now | not executed | Serializers.ValidateDateTimeAsWrittenRejectsFuture | Serializers.ValidateDateTime |
