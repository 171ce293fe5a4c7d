# NCC School Management — a verified model of its record store and entity rules

NCC School Management is a Django back office for a language school. It stores
students, teachers, contracts, class groups, lessons, products, leads and
payments. Every entity inherits the same soft-delete record store
(`BaseModel`):

- `created_at` is set once at creation.
- `updated_at` is refreshed on every save.
- `delete()` only stamps `deleted_at` and saves.
- `hard_delete()` removes the row.
- The default manager hides soft-deleted rows. `all_with_deleted()` and `only_deleted()` are the two other views.

This project models that store and the rules each entity adds on top of it:

- field defaults and validation bounds;
- status and payment-method choices;
- `__str__` formats;
- default orderings;
- the contract pair constraint;
- the group's live member count;
- cascades on hard delete;
- the site-wide admin actions and dashboard counts.

Modules:

- `Common` (common.dfy) holds the store itself:
  - a table is a `map` from id to `Record`; the three manager views are functions on it;
  - `Table<T>` is a class whose methods `Create`, `Save`, `SoftDelete`, `DeleteRows` and `Update` change that map in place;
  - `Clock` stands for `timezone.now()`: every reading is strictly later than the one before.
- `Management`, `Financial`, `Comercial` and `Crm` hold each app's entities, validation (`full_clean` as a list of errors), `__str__` with a parser that proves the string determines what it prints, and orderings.
- `School` (school.dfy) gathers the tables that take part in foreign keys:
  - the `SchoolDb` class keeps every foreign key resolved and every contract pair unique;
  - its hard-delete methods carry out the cascades, which are specified by pure functions on a `Db` value.
- `Admin` (admin.dfy) holds:
  - `soft_delete_selected`, as a loop with invariants;
  - `make_active` and `make_inactive`, as one bulk update each;
  - the dashboard `stats`.
- `Money`, `Text`, `Ordering` and `Wrappers` are supporting definitions:
  - decimals as integer cents and their text form;
  - decimal digit strings;
  - a sort by a comparison, and lexicographic order on strings;
  - `Option` and `Result`.

Representation choices:

- Money is an integer number of cents (`max_digits=10, decimal_places=2`).
- Dates and date-times are natural numbers.
- A date-time prints as its number in decimal. This stands for Python's `str(datetime)`.
- Text order is code-point order.

## Model

| member | source | states |
|---|---|---|
| Common.DefaultView | common/models.py:13-17 | the default manager holds exactly the stored records whose deleted_at is null, each with its stored value |
| Common.OnlyDeleted | common/models.py:25-29 | `only_deleted()` holds exactly the stored records whose deleted_at is set |
| Common.AllWithDeleted | common/models.py:19-23 | `all_with_deleted()` holds every stored id, exactly those of the default view and of `only_deleted()` together, each with its stored record |
| Common.Record.IsDeleted | common/models.py:77-82 | `is_deleted`: deleted_at is set; the default view and `only_deleted()` split the table by it (Common.ViewsPartition) |
| Common.ViewsPartition | common/models.py:13-29 | the default view and `only_deleted()` are disjoint, their union is `all_with_deleted()`, and their sizes add up to the table's |
| Common.LiveWhere | common/models.py:13-17 | `objects.filter(p)` holds exactly the live records satisfying p |
| Common.SoftDeleteMovesRow | common/models.py:64-69 | after `delete()` the row is still stored and is in `only_deleted()`, not in the default view; it is deleted and keeps its fields and created_at; no other row changes; the default view loses exactly that id |
| Common.SoftDeleteCountWhere | common/models.py:64-69 | a filtered live count drops by one exactly when the deleted row was live and matched, otherwise it is unchanged |
| Common.SoftDeleteShrinksDefaultView | common/models.py:64-69 | soft-deleting a live row shrinks the default view by one and leaves `all_with_deleted()` the same size |
| Common.HardDeleteRemovesFromAllViews | common/models.py:71-75 | after `hard_delete()` no view holds the row, and every other row is kept as it was |
| Common.SaveKeepsViews | common/models.py:36-43 | a save keeps created_at and the row's view, and changes no other row |
| Common.ListingSpec | management/models.py:53 | a listing holds each row of the view exactly once, nothing else, and is sorted by the model's `Meta.ordering` |
| Common.Clock.Tick | common/models.py:68 | each reading of the clock is one later than the previous one |
| Common.Table.Create | common/models.py:36-43 | `objects.create` stores a new id, live, with created_at then updated_at read from the clock; the rest of the table is unchanged |
| Common.Table.Save | common/models.py:40-43 | a save writes the fields, moves updated_at strictly forward and keeps created_at |
| Common.Table.SoftDelete | common/models.py:64-82 | `delete()` stamps deleted_at from one clock reading and then saves with the next; the new rows are exactly the old ones with that row marked deleted, `is_deleted` holds, updated_at moves forward and deleting again moves deleted_at forward (what this does to the views is Common.SoftDeleteMovesRow) |
| Common.Table.DeleteRows | common/models.py:71-75 | `hard_delete()` leaves exactly the other rows |
| Common.Table.Update | ncc_school_management/admin.py:74 | `QuerySet.update` rewrites only the selected live rows, does not refresh updated_at, and returns how many rows it matched |
| Money.MoneyFieldBounds | comercial/models.py:22-26 | a two-place amount passes the (10, 2) decimal check exactly when its absolute value is below 10^10 cents |
| Money.MoneyRoundTrip | financial/models.py:50-51 | the printed form of an amount parses back to the same amount |
| Money.FloatLimitAcceptsFromTwoCents | financial/models.py:28-33 | measured against the float 0.01, an amount of c cents is not below the limit exactly when c >= 2 |
| Money.OneCentBelowFloatLimit | financial/models.py:31 | one cent is below the float 0.01 and two cents are not |
| Comercial.NewProductDefaults | comercial/models.py:17-33 | a product created without the optional fields is active and has no description |
| Comercial.ProductValidIff | comercial/models.py:13-26 | a product is valid exactly when its name has 1..255 characters and its price has fewer than 11 digits |
| Comercial.ProductErrors | comercial/models.py:13-26 | `full_clean()` of a product: the name's and the price's field errors in field order; its meaning is Comercial.ProductValidIff |
| Comercial.NegativePriceAccepted | comercial/models.py:22-26 | a negative price passes validation, since no lower bound is declared |
| Comercial.ProductStrIsName | comercial/models.py:41-42 | `str(product)` is its name |
| Comercial.ProductListing | comercial/models.py:39 | the product listing holds exactly the view's rows, sorted by name |
| Comercial.ProductOrderByName | comercial/models.py:39 | "A Course" is listed before "Z Course" and not after it |
| Crm.NewLeadOptionalFieldsNull | crm/models.py:23-38 | a lead created without interests, email or phone has all three null |
| Crm.LeadValidIff | crm/models.py:13-38 | a lead is valid exactly when its name has 1..255 characters, goals are non-empty, the email has at most 254 characters and the phone at most 20 |
| Crm.LeadErrors | crm/models.py:13-38 | `full_clean()` of a lead, field by field; its meaning is Crm.LeadValidIff |
| Crm.PhoneLengthBoundary | crm/models.py:33-38 | a 20-character phone is accepted and a 21-character one is rejected |
| Crm.LeadStrIsName | crm/models.py:46-47 | `str(lead)` is its name |
| Crm.LeadListing | crm/models.py:44 | the lead listing holds exactly the view's rows, newest created_at first |
| Financial.MethodValueRoundTrip | financial/models.py:10-16 | each payment method's stored value parses back to it and fits the 20-character column |
| Financial.MethodLabel | financial/models.py:10-16 | `get_payment_method_display()`: the label declared beside each choice; Financial.PaymentStrRoundTrip shows the labels tell the methods apart |
| Financial.MethodChoicesExact | financial/models.py:10-16 | the accepted values are exactly credit_card, pix and boleto |
| Financial.ValueValidIff | financial/models.py:28-33 | a payment value is valid exactly when it is at least 0.01 and below 10^8 units, that is 1 <= cents < 10^10 |
| Financial.ValueAsWrittenRejectsOneCent | financial/models.py:28-33 | the validator as written rejects 0.01 and accepts exactly 0.02 up to the digit limit; the corrected rule accepts 0.01 |
| Financial.PaymentValidIff | financial/models.py:23-42 | with the corrected minimum, a payment is valid exactly when 0.01 <= value < 10^8 and its description has at most 255 characters |
| Financial.TeacherPaymentValidIff | financial/models.py:58-83 | with the corrected minimum, a teacher payment is valid under the same rule as a payment |
| Financial.PaymentErrors | financial/models.py:23-42 | `full_clean()` of a payment: the value's errors, with the corrected minimum, then the description's; its meaning is Financial.PaymentValidIff |
| Financial.TeacherPaymentErrors | financial/models.py:58-83 | `full_clean()` of a teacher payment, with the corrected minimum; its meaning is Financial.TeacherPaymentValidIff |
| Financial.PaymentErrorsAsWritten | financial/models.py:28-42 | `full_clean()` of a payment as written, with `MinValueValidator(0.01)` comparing against the float; its meaning is Financial.PaymentAsWrittenValidIff |
| Financial.TeacherPaymentErrorsAsWritten | financial/models.py:64-83 | `full_clean()` of a teacher payment as written; its meaning is Financial.PaymentAsWrittenValidIff |
| Financial.PaymentAsWrittenValidIff | financial/models.py:28-42 | as written, a payment and a teacher payment are each valid exactly when 0.02 <= value < 10^8 and the description has at most 255 characters, so one cent is refused |
| Financial.PaymentStrRoundTrip | financial/models.py:50-51 | "Payment of {value} via {label}" determines the value and the payment method |
| Financial.PaymentStr | financial/models.py:50-51 | `str(payment)`: "Payment of {value} via {label}"; Financial.PaymentStrRoundTrip proves it determines the value and the method |
| Financial.TeacherPaymentStrRoundTrip | financial/models.py:91-92 | "Payment to {teacher}: {value} via {label}" determines the teacher's name, the value and the method, whatever the name |
| Financial.TeacherPaymentStr | financial/models.py:91-92 | `str(teacher_payment)`: "Payment to {teacher}: {value} via {label}"; Financial.TeacherPaymentStrRoundTrip proves it determines all three |
| Financial.PaymentsOf | financial/models.py:58-63 | `teacher.payments` holds exactly the live teacher payments whose teacher is that teacher |
| Financial.PaymentBelongsToOneTeacher | financial/models.py:58-63 | a live teacher payment is listed under its own teacher and under no other |
| Financial.PaymentListing | financial/models.py:48 | the payment listing holds exactly the view's rows, latest paid_at first |
| Financial.TeacherPaymentListing | financial/models.py:89 | the teacher payment listing holds exactly the view's rows, latest paid_at first |
| Management.StatusChoices | management/models.py:10-23 | the only status values are "active" and "former"; each parses back and fits the 10-character column |
| Management.CreationDefaults | management/models.py:42-47 | students and teachers are created active, extra_info null, and a group's max_students is 10, which passes validation |
| Management.GroupValidIff | management/models.py:134-138 | a group is valid exactly when 1 <= max_students <= 50; 0 and 51 each give the matching single error |
| Management.GroupErrors | management/models.py:134-138 | `full_clean()` of a group: the min then the max validator of max_students; its meaning is Management.GroupValidIff |
| Management.PersonValidIff | management/models.py:30-76 | students need a name of 1..255 characters; teachers need a name and a pix_key of 1..255 characters |
| Management.StudentErrors | management/models.py:30-47 | `full_clean()` of a student: the name's errors; its meaning is Management.PersonValidIff |
| Management.TeacherErrors | management/models.py:63-76 | `full_clean()` of a teacher: the name's then the pix_key's errors; its meaning is Management.PersonValidIff |
| Management.PersonStrIsName | management/models.py:55-85 | `str` of a student or a teacher is the name |
| Management.ContractStrDeterminesEachName | management/models.py:112-113 | "Contract: {student} - {product}" determines the product name given the student's, and the student name given the product's |
| Management.ContractStr | management/models.py:112-113 | `str(contract)`: "Contract: {student} - {product}"; Management.ContractStrDeterminesEachName proves what it determines |
| Management.GroupStrRoundTrip | management/models.py:146-147 | "Group with {teacher} at {scheduled_at}" determines the teacher's name and the time, whatever the name |
| Management.GroupStr | management/models.py:146-147 | `str(group)`: "Group with {teacher} at {scheduled_at}"; Management.GroupStrRoundTrip proves it round-trips |
| Management.LessonStrRoundTrip | management/models.py:188-189 | "Lesson with {teacher} at {occurred_at}" determines the teacher's name and the time, whatever the name |
| Management.LessonStr | management/models.py:188-189 | `str(lesson)`: "Lesson with {teacher} at {occurred_at}"; Management.LessonStrRoundTrip proves it round-trips |
| Management.ManagementOrderingsAreTotal | management/models.py:53-186 | students and teachers by name, contracts by -created_at, groups by scheduled_at and lessons by -occurred_at are each total and transitive |
| Management.StudentListing | management/models.py:53 | the student listing holds exactly the view's rows, in name order |
| Management.LessonListing | management/models.py:186 | the lesson listing holds exactly the view's rows, latest occurred_at first |
| Management.LiveMembers | management/models.py:149-154 | the group's members that are stored and not soft-deleted |
| Management.CurrentStudentsCount | management/models.py:149-154 | `current_students_count` never exceeds the number of linked students |
| Management.CountAfterStudentSoftDeleted | management/models.py:149-154 | soft-deleting a live member lowers the count by exactly one; soft-deleting anyone else leaves it unchanged |
| Management.CountAfterMemberAdded | management/models.py:123-154 | linking a live non-member raises the count by exactly one, whatever max_students is |
| School.InsertContractUnique | management/models.py:110 | a new contract keeps the pairs unique exactly when no stored contract, live or soft-deleted, holds its pair |
| School.DeleteStudentCascades | management/models.py:92-97 | hard-deleting a student removes their contracts and group links, keeps the database consistent and keeps every row that did not refer to the student |
| School.DeleteProductCascades | management/models.py:98-103 | hard-deleting a product removes its contracts and keeps everything else consistent |
| School.DeleteGroupCascades | management/models.py:161-166 | hard-deleting a group removes its lessons and member links and keeps everything else |
| School.DeleteTeacherCascades | management/models.py:128-172 | hard-deleting a teacher removes their groups, their lessons, their groups' lessons and links, and their payments; the result is consistent |
| School.DeleteStudent | management/models.py:92-97 | the rows a student's `hard_delete()` leaves: the student, their contracts and their group links removed; its properties are School.DeleteStudentCascades |
| School.DeleteProduct | management/models.py:98-103 | the rows a product's `hard_delete()` leaves: the product and its contracts removed; its properties are School.DeleteProductCascades |
| School.DeleteGroup | management/models.py:161-166 | the rows a group's `hard_delete()` leaves: the group, its lessons and its links removed; its properties are School.DeleteGroupCascades |
| School.DeleteTeacher | management/models.py:128-172 | the rows a teacher's `hard_delete()` leaves: the teacher, their groups with those groups' lessons and links, their own lessons and their payments removed; its properties are School.DeleteTeacherCascades |
| School.SchoolDb.CreateContract | management/models.py:88-110 | creating a contract fails exactly when the student or the product is not stored or any stored contract, even soft-deleted, holds the pair; a failure changes nothing |
| School.SchoolDb.InsertContract | management/models.py:88-110 | the INSERT of a contract whose keys resolve and whose pair is free stores exactly that row under a fresh id and keeps the tables consistent |
| School.SchoolDb.CreateGroup | management/models.py:116-138 | creating a group fails only when its teacher is not stored; max_students is not checked |
| School.SchoolDb.CreateLesson | management/models.py:157-172 | creating a lesson fails exactly when its group or its teacher is not stored |
| School.SchoolDb.CreateTeacherPayment | financial/models.py:58-63 | creating a teacher payment fails exactly when its teacher is not stored |
| School.SchoolDb.InsertGroup | management/models.py:116-138 | the INSERT of a group whose teacher is stored adds exactly that row under a fresh id and keeps the tables consistent |
| School.SchoolDb.InsertLesson | management/models.py:157-172 | the INSERT of a lesson whose group and teacher are stored adds exactly that row under a fresh id and keeps the tables consistent |
| School.SchoolDb.InsertTeacherPayment | financial/models.py:58-63 | the INSERT of a payment whose teacher is stored adds exactly that row under a fresh id and keeps the tables consistent |
| School.SchoolDb.CreateStudent | management/models.py:26-47 | a new student row is stored; the tables stay consistent |
| School.SchoolDb.CreateTeacher | management/models.py:59-76 | a new teacher row is stored; the tables stay consistent |
| School.SchoolDb.CreateProduct | comercial/models.py:9-33 | a new product row is stored; the tables stay consistent |
| School.SchoolDb.AddMember | management/models.py:123-127 | `group.students.add` links the pair once, fails only for a missing group or student, and never compares against max_students |
| School.SchoolDb.CurrentStudentsCountOf | management/models.py:149-154 | the count for a stored group never exceeds its linked students |
| School.SchoolDb.HardDeleteStudent | management/models.py:92-97 | the tables become exactly the student cascade of the old tables |
| School.SchoolDb.HardDeleteProduct | management/models.py:98-103 | the tables become exactly the product cascade of the old tables |
| School.SchoolDb.HardDeleteGroup | management/models.py:161-166 | the tables become exactly the group cascade of the old tables |
| School.SchoolDb.HardDeleteTeacher | management/models.py:128-172 | the tables become exactly the teacher cascade of the old tables |
| School.SchoolDb.DeleteTeacherRows | management/models.py:128-172 | the DELETE statements of a teacher's cascade leave the teachers, groups, lessons and payments tables exactly as the teacher cascade says |
| Admin.SoftDeleteNext | ncc_school_management/admin.py:99-101 | one `obj.delete()` of the loop, on a row not yet handled, takes two clock readings and keeps the loop's account true with that row added: the ids, fields and created_at of every row are as at the start, each handled row is deleted with deleted_at before updated_at, and every other row is as it was |
| Admin.DeleteEach | ncc_school_management/admin.py:98-101 | the loop soft-deletes every row of the queryset once, counts each one, and leaves every other row as it was |
| Admin.SoftDeleteSelected | ncc_school_management/admin.py:93-106 | every selected live row is soft-deleted with its fields and created_at kept; the count is the size of the queryset, which is the size of the selection when the selection holds only live rows; rows outside it are untouched; the default view loses exactly the selection |
| Admin.DeletedExactlyViews | ncc_school_management/admin.py:98-101 | after soft-deleting a set of rows no field changed and the default view lost exactly that set |
| Admin.SetActiveEffect | ncc_school_management/admin.py:69-90 | the bulk update sets is_active on the selected live products only, keeps their other fields and all timestamps, keeps every view, and repeating it changes nothing |
| Admin.MakeActive | ncc_school_management/admin.py:69-78 | every selected live product becomes active, and the reported number is the number of rows matched |
| Admin.MakeInactive | ncc_school_management/admin.py:81-90 | every selected live product becomes inactive, and the reported number is the number of rows matched |
| Admin.StatsSeeOnlyLiveRows | ncc_school_management/admin.py:41-48 | the dashboard counts are the same on the default views as on the whole tables, and the active counts never exceed the live counts |
| Admin.DashboardStats | ncc_school_management/admin.py:41-48 | the six dashboard counts each run on the default manager: the active counts never exceed the live rows, and no count exceeds the stored rows |
| Admin.StatsAfterStudentSoftDeleted | ncc_school_management/admin.py:42 | soft-deleting a student lowers active_students by one exactly when the student was live and active, and moves no other count |
| Admin.StatsAfterContractSoftDeleted | ncc_school_management/admin.py:45 | soft-deleting a live contract lowers total_contracts by one and moves no other count |

## Left out

- The REST API (`api/`) is not part of this model: views, routing, serializers, filtering, pagination and the token endpoint.
- The per-app admin configuration and the rest of `dashboard_view` are not modelled: template rendering, the permission check and the URL wiring.
- Settings, app configuration and test fixtures are not modelled.
- Email address syntax (`EmailField`) is not checked. Only its 254-character limit is modelled.
- Database integer ranges are not modelled, for example the upper bound of `PositiveIntegerField`. Integers here are unbounded.
- Amounts with more than two decimal places are not representable. Money is whole cents, so the decimal-places error of the (10, 2) check never arises.
- The text of a date-time is a stand-in: the model prints the reading in decimal, not Python's `str(datetime)` format.
- Name ordering is by code point, not by the database collation.
- Common.Table.SoftDelete: requires the row to still be stored. Deleting an instance whose row was hard-deleted elsewhere would make Django's `save()` insert it again; that path is not modelled.
- Common.Table.Save: requires the row to still be stored, for the same reason.
- School.SchoolDb.CreateContract: when several problems apply at once, the model reports the missing student first, then the missing product, then the duplicate pair. The error the database reports in that case depends on the backend.
- Validation is modelled on the field validators that `full_clean` runs. `Model.validate_unique`, which `full_clean` also runs and which queries the default manager and so sees live rows only, is not modelled; the pair constraint modelled is the database one, over all stored rows.
- Soft-deleting leads, payments and the other tables is the same `Common.Table.SoftDelete`; `School.SchoolDb` holds only the tables that take part in foreign keys, and the dashboard counts are stated on the row maps.
- Iteration order in `soft_delete_selected`: the changelist queryset is ordered (the model's `Meta.ordering` or the admin's ordering), and the model abstracts that order away. It picks any remaining row each time, so each row's deleted_at is stated only as a reading taken during the action.
- Concurrency and transactions are not modelled; every operation runs alone.
- Instances are assumed freshly loaded. Django's `save()`, and so `delete()`, writes every field of the in-memory instance; Common.Table.Save and Common.Table.SoftDelete instead keep the stored fields (and Save the stored deleted_at), so a stale instance that would overwrite newer values or clear deleted_at again is not modelled.
- Money.FormatMoney prints the stored two-place form of an amount. An instance whose Decimal was assigned in memory and not reloaded prints as assigned (`Decimal("100")` prints "100"); that is not modelled.
- Financial.PaymentErrors: uses the corrected minimum, value >= 0.01 compared in decimal. `MinValueValidator(0.01)` is an at-least check (its message says "greater than or equal to"), but as written it compares with the float 0.01 and so refuses one cent; that behaviour is Financial.PaymentErrorsAsWritten (see Findings).
- Financial.TeacherPaymentErrors: uses the corrected minimum for the same reason; the as-written form is Financial.TeacherPaymentErrorsAsWritten.

## Findings

| source | as written | input that shows it | evidently intended | confidence | as-written member | corrected member |
|---|---|---|---|---|---|---|
| financial/models.py:28-33, financial/models.py:64-69 | `MinValueValidator(0.01)` compares the Decimal value with the float 0.01, which is exactly 5764607523034235 / 2^59, slightly more than 1/100. Python compares Decimal with float exactly, so `Decimal("0.01") < 0.01` holds and the smallest accepted value is 0.02 | a payment or teacher payment with value 0.01 | every value of at least 0.01 (one cent) is accepted | not executed; follows from the binary value of the literal 0.01 | Financial.ValueAsWrittenRejectsOneCent | Financial.ValueValidIff |
