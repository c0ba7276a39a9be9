# Vet clinic records, modelled in Dafny

`Final.py` keeps a veterinary clinic in memory: animal records, each with
its own notes and an ordered list of appointments, a catalogue of priced
services read from `services.txt`, and a capacity of 20 open appointments
across the whole clinic. Its operations are:

- create an animal record under a fresh random id;
- book an appointment, checking the open slots first and adding up the
  prices of the chosen services;
- take full or partial payments;
- close an appointment;
- append notes to a record;
- produce a record's summary table;
- count the open slots.

The model has two layers.

- **Values** (`clinic_state.dfy`, module `ClinicState`). Each appointment
  and record is a datatype value, and the clinic is a
  `map<int, RecordState>`. Every operation that changes the clinic is a
  function from the old state to a result and the new state:
  `CreateRecord`, `AdmitAppointment`, `Pay`, `Close` and `Annotate`.
  `MedicalHistory` is a query: it returns only a result and leaves the
  state as it is. Module
  `ClinicProperties` (`clinic_properties.dfy`) proves what these
  operations guarantee:
  - the capacity bound;
  - identifiers that are in range and unique;
  - payment bookkeeping that stays consistent;
  - closing an open appointment frees exactly one slot, and closing again changes nothing;
  - refusals that change nothing.
- **Objects** (`clinic.dfy`, module `Clinic`). `Appointment`,
  `AnimalRecord` and `VetClinic` are classes whose fields are updated in
  place, as in the Python program. Each object has a ghost `View()` onto
  the value layer. Every public operation of `VetClinic` keeps `Valid()`,
  which is heap ownership plus the value-level invariant `Inv`, and ends in
  the state its value-level function gives:
  `(result, View()) == Pay(old(View()), ...)`. The lookup, counting,
  id-drawing and summary loops are `while` loops with invariants.

The service catalogue (`catalog.dfy`) parses lines that have already been
read. Each line is stripped, split on ',' into exactly three fields, and
the third field is parsed as `int`. A later duplicate key overwrites an
earlier one. `text.dfy` holds the part of Python's `str.strip`, `str.split`
and `int` that the parser uses.

Inputs the program reads interactively are parameters:

- `draws`: the values `random.randint(1000, 9999)` returns, in order;
- `timestamp`: the text of `datetime.now()`;
- `entries`: the answers to the service prompt, up to and including the
  first `done`;
- `amount`: the payment amount. `None` stands for text that `float()`
  rejects.

The model follows the program as written:

- a service key that is not in the catalogue is skipped;
- any numeric payment up to the amount due is accepted, a negative one included;
- a payment is taken whether the appointment is open or closed;
- the slot check runs before the record lookup;
- a later duplicate key in `services.txt` overwrites the earlier one;
- prices may be negative, since `int()` accepts a sign;
- id drawing retries without bound.

## Model

| member | source | states |
|---|---|---|
| Text.ParseIntToString | Final.py:69 | `int()` reads back the decimal text of every integer, so a price written out is parsed back unchanged |
| Text.StripSpec | Final.py:68 | `line.strip()`: the result is the part of the line between a leading and a trailing run of whitespace, and it neither starts nor ends with whitespace |
| Text.StripLeftSpec | Final.py:68 | the leading half of `strip` removes exactly the leading run of whitespace |
| Text.StripRightSpec | Final.py:68 | the trailing half of `strip` removes exactly the trailing run of whitespace |
| Text.Split | Final.py:68 | `split(',')`: at least one field, no field holds the separator, and the first field is a prefix of the text |
| Text.JoinSplit | Final.py:68 | joining the fields of a split with the separator gives back the text |
| Text.SplitJoin | Final.py:68 | splitting a join of separator-free fields gives back the fields |
| Text.ParseInt | Final.py:69 | `int(price)`: surrounding whitespace, an optional sign and one or more decimal digits, anything else the ValueError (None); `ParseIntToString` proves it reads back `str` |
| ServiceLine.ParseServiceLine | Final.py:68-69 | a line that parses gives a key and a name with no comma and a key that does not start with whitespace; which lines give None, and what the fields are, is stated by `ParsedLineFields` and `LineFromFields` |
| ServiceLine.ParsedLineFormats | Final.py:68-69 | writing back the entry of a line that parses gives a line that parses to the same entry |
| ServiceLine.ParsedLineFields | Final.py:68-69 | a stripped line that does not split into exactly three fields gives None (the unpacking ValueError); a line that parses is its key, its name and a comma-free price text joined with ',', where `int` reads that text as the price |
| ServiceLine.LineFromFields | Final.py:68-69 | conversely, a line whose stripped text is three comma-free fields joined with ',' parses to the first two and the integer of the third, and gives None exactly when `int` rejects the third |
| ServiceLine.ParseFormattedLine | Final.py:68-69 | a line `key,name,price`, whose key and name hold no comma and whose key does not start with a blank, parses back to that key, name and price |
| ServiceCatalog.Insert | Final.py:69 | `services[key] = ...` for each entry in file order; its keys and values are pinned down by `InsertKeys` and `InsertLastWins` |
| ServiceCatalog.ParseServices | Final.py:64-70 | the dictionary of the file, or None when any line raises; described by `AllLinesParse` and `ParseServicesLastWins` |
| ServiceCatalog.AllLinesParse | Final.py:64-70 | the load succeeds exactly when every line of the file parses |
| ServiceCatalog.ParseEntries | Final.py:67-69 | on success there is one entry per line, and each entry is what that line parses to |
| ServiceCatalog.InsertKeys | Final.py:69 | a key is in the dictionary exactly when some entry carries it |
| ServiceCatalog.InsertLastWins | Final.py:69 | the service kept under a key is the one from the last entry with that key |
| ServiceCatalog.ParseServicesLastWins | Final.py:64-70 | after a successful load, a key is present iff some line carries it, and its service comes from the last such line |
| ServiceCatalog.LoadServices | Final.py:64-70 | the loop over the lines builds the same dictionary as the parse, and fails when any line is malformed |
| ClinicState.NewAppointment | Final.py:43-53 | the value of a new appointment: the given id, date, services and cost, "open", "not paid", 0.0 paid |
| Clinic.Appointment.constructor | Final.py:43-53 | a new appointment has the given id, date, services and cost, is open and not paid, and has 0.0 paid |
| Clinic.AnimalRecord.constructor | Final.py:7-18 | a new record has the given identity data, empty notes and no appointments |
| Clinic.AnimalRecord.AddAppointment | Final.py:21-22 | the earlier appointments stay in place, the new one goes last, and the notes are untouched |
| Clinic.AnimalRecord.AddNotes | Final.py:25-26 | the notes become the old notes followed by timestamp, ": ", the note and a newline; the appointments are untouched |
| Clinic.AnimalRecord.GetSummary | Final.py:29-39 | the report built by the two loops is the header plus one row per appointment, in order |
| ClinicState.JoinNames | Final.py:32-36 | the services text, with ", " put in front of a name only when the text so far is not empty; `JoinNamesIsJoin` relates it to a plain join |
| ClinicState.SummaryRow | Final.py:37-38 | one summary line as values: id, date, services text, cost, status word, payment status word and cost minus amount paid |
| ClinicState.MedicalHistory | Final.py:168-177 | RecordNotFound for an unknown id, otherwise the summary of that record |
| ClinicState.SummaryRows | Final.py:31-38 | one row per appointment, row i built from appointment i |
| ClinicProperties.SummaryRowsFaithful | Final.py:29-39 | for an appointment with consistent payment bookkeeping, its row carries its id, date, cost and status words; the services column is the plain ", "-join of the names when none is empty; the amount left is 0 when fully paid, positive when partly paid and the whole cost when nothing is paid |
| ClinicProperties.JoinNamesIsJoin | Final.py:32-36 | the service text is the ", "-join of the names once leading empty names are dropped, and the plain join when no name is empty |
| Clinic.Locate | Final.py:210-211 | the lookup loop finds the first appointment with the id, or reports that none has it |
| ClinicState.FindAppointment | Final.py:210-211 | the index found holds the id and no earlier appointment holds it; when nothing is found, no appointment holds the id |
| Clinic.VetClinic.constructor | Final.py:57-61 | the clinic starts with no records, the loaded catalogue and a capacity of 20 |
| Clinic.VetClinic.IdExists | Final.py:76-84 | the scan answers true exactly when the id is some record's id or some appointment's id |
| Clinic.VetClinic.GenerateUniqueId | Final.py:73-98 | the id returned is the first draw not in use; it is neither a record id nor an appointment id, and it lies in 1000..9999 when the draws do |
| ClinicState.FirstFree | Final.py:73-98 | the first draw not in use is itself not in use, and every earlier draw is in use |
| ClinicProperties.FirstFreeIsFirstUnused | Final.py:86-96 | the retry loop stops at the first draw that is not in use |
| ClinicProperties.UnusedDrawAhead | Final.py:86-96 | while every draw tried so far is in use, a free draw is still ahead, so the loop does not run off the draws |
| ClinicProperties.FirstFreeInRange | Final.py:74 | a fresh id lies in the range `randint(1000, 9999)` draws from |
| ClinicProperties.FreeIdIsFresh | Final.py:73-98 | an id not in use is not a record key and is no appointment's id |
| ClinicState.CountOpen | Final.py:272-274 | the open appointments of one record: at most its number of appointments, and 0 exactly when all are closed |
| ClinicState.OpenCount | Final.py:269-274 | the open appointments summed over all records, taken in any order |
| ClinicState.OpenSlots | Final.py:268-275 | the capacity minus the open count, not clamped at 0 |
| Clinic.VetClinic.GetOpenSlots | Final.py:268-275 | the nested loops return the capacity minus the number of open appointments over all records |
| ClinicProperties.CountOpenUpdate | Final.py:272-274 | replacing one appointment changes a record's open count by the difference of the two |
| ClinicProperties.OpenInPick | Final.py:271-274 | the sum over the records does not depend on the order the dictionary yields them in |
| ClinicProperties.OpenInUpdate | Final.py:271-274 | replacing a record changes the sum over any set of keys by that record's difference |
| ClinicProperties.OpenInInsert | Final.py:271-274 | a record under a new key leaves the sum over the old keys unchanged |
| ClinicProperties.OpenCountInsert | Final.py:126 | filing a new record adds its open appointments to the clinic's count |
| ClinicProperties.OpenCountUpdate | Final.py:271-274 | replacing a record changes the clinic's open count by that record's difference |
| ClinicProperties.OpenCountUpdateAppointment | Final.py:259-263 | replacing one appointment changes the clinic's open count by the difference of the two |
| ClinicState.CreateRecord | Final.py:124-126 | the new state after `create_animal_record`: a record with no notes and no appointments filed under the first free draw; described by `CreateRecordEffect` |
| Clinic.VetClinic.CreateAnimalRecord | Final.py:101-127 | the record is filed under the first free draw, with no notes and no appointments, and the invariant is kept |
| Clinic.VetClinic.MakeRecord | Final.py:125 | the new record object has the given data and is not yet part of the clinic |
| Clinic.VetClinic.FileRecord | Final.py:126 | `self.records[animal_id] = record` adds exactly that record under its id |
| ClinicProperties.CreateRecordEffect | Final.py:101-127 | the id is in range and in use by nothing, the old records are unchanged, the new one is empty, the open count is unchanged and the invariant is kept |
| ClinicState.Selected | Final.py:155-156 | the services of the valid choices in the order chosen, invalid choices skipped; described by `SelectedConcat` and `SelectedFromCatalog` |
| ClinicState.Total | Final.py:155-157 | the running total of the prices of the valid choices; `TotalIsPriceSum` proves it the sum of the selected prices |
| Clinic.VetClinic.ChooseServices | Final.py:146-159 | the services are the catalogue entries of the choices before the first 'done', in order, with unknown keys skipped; the total is the sum of their prices |
| ClinicState.DoneIndex | Final.py:152-154 | the index of the first answer that lower-cases to 'done'; no earlier answer does |
| ClinicProperties.TotalIsPriceSum | Final.py:155-157 | the running total equals the sum of the prices of the selected services |
| ClinicProperties.SelectedConcat | Final.py:146-159 | the selection over two runs of choices is the selection over the first followed by the selection over the second |
| ClinicProperties.SelectedFromCatalog | Final.py:155-159 | every selected service comes from the catalogue; with only valid keys every choice is selected, with only invalid ones nothing is |
| ClinicState.AdmitAppointment | Final.py:130-165 | NoOpenSlots when no slot is open, then RecordNotFound, otherwise a new open, unpaid appointment under the first free draw appended to the record; described by `AdmitEffect` |
| Clinic.VetClinic.AddAppointment | Final.py:130-165 | no open slot means a refusal whatever the record id; then an unknown record means a refusal; otherwise one appointment is appended, and the invariant is kept |
| Clinic.VetClinic.BookAppointment | Final.py:160-162 | a new appointment under the first free draw, with the chosen services and total, goes last in the record |
| Clinic.VetClinic.MakeAppointment | Final.py:161 | the new appointment object is open and not paid, and is not yet part of the clinic |
| Clinic.VetClinic.EnterAppointment | Final.py:162 | filing an open, unpaid appointment under a free id while a slot is open keeps the invariant |
| Clinic.VetClinic.AppendToRecord | Final.py:162 | `self.records[record_id].add_appointment(appointment)` appends to that record only |
| Clinic.VetClinic.RecordAddAppointment | Final.py:21-22 | the record's view gains the appointment at the end; every other record keeps its view |
| ClinicProperties.AdmitEffect | Final.py:130-165 | a refusal changes nothing; no slot gives NoOpenSlots; an unknown record gives RecordNotFound; it succeeds exactly when a slot is open and the record exists, and success appends one open, unpaid appointment under an unused in-range id, priced at the sum of the valid choices; the open count grows by one and capacity is never exceeded |
| ClinicProperties.AppendEffect | Final.py:160-162 | appending an open, unpaid appointment under a fresh id while a slot is free takes exactly one slot and keeps the invariant |
| ClinicProperties.AppendKeepsIds | Final.py:160-162 | appending under a fresh in-range id keeps record keys, unique ids, id ranges and payment bookkeeping |
| ClinicState.ApplyPayment | Final.py:212-236 | one payment against one appointment, checks in source order; described by `ApplyPaymentRules` |
| ClinicState.Pay | Final.py:190-239 | RecordNotFound, AppointmentNotFound, or the payment applied to the first appointment with the id; described by `PayEffect` |
| Clinic.VetClinic.PayForServices | Final.py:190-239 | an unknown record or appointment id is refused; otherwise the first appointment with the id takes the payment by the payment rules, and the invariant is kept |
| Clinic.VetClinic.PayAt | Final.py:212-236 | the checks and the update on the appointment found, in source order: fully paid, non-numeric amount, amount over what is due, then add and set the status |
| Clinic.VetClinic.SetAppointmentFields | Final.py:230-235 | setting the mutable fields of one appointment object changes that appointment of the clinic and nothing else |
| Clinic.VetClinic.AssignAppointmentFields | Final.py:230-235 | the field updates change that appointment's record view at one position; every other record keeps its view |
| ClinicProperties.ApplyPaymentRules | Final.py:212-236 | refusals change nothing; AlreadyFullyPaid iff fully paid; an amount over what is due is refused with the amount due; success iff not fully paid, numeric and not over what is due; then the amount is added, paid never exceeds cost, fully paid iff paid >= cost, partly paid otherwise; the open/closed status plays no part |
| ClinicProperties.ApplyPaymentKeepsConsistency | Final.py:229-236 | payment status and amount paid stay consistent after any payment, whatever the amount's sign |
| ClinicProperties.ApplyPaymentNonNegative | Final.py:221-230 | with a non-negative amount the amount paid never goes down |
| ClinicProperties.PayEffect | Final.py:190-239 | a refusal changes nothing; RecordNotFound iff the record is unknown; AppointmentNotFound iff no appointment has the id; it succeeds exactly when the record and the appointment are found and the payment rules accept the amount, and success updates only the first matching appointment; the open count is unchanged and the invariant is kept |
| ClinicProperties.UpdateKeepsIds | Final.py:230-235 | changing an appointment without changing its id keeps every id invariant and the set of ids in use |
| ClinicProperties.UpdateKeepsPayments | Final.py:230-235 | replacing an appointment by a consistent one keeps the payment bookkeeping of the clinic |
| ClinicProperties.SameIdsUsed | Final.py:76-84 | two states with the same ids in the same places use the same ids |
| ClinicProperties.SameIdsTransfer | Final.py:76-84 | such states agree on the id invariants and on which ids are in use |
| ClinicState.Close | Final.py:242-265 | RecordNotFound, AppointmentNotFound, or the first appointment with the id marked closed; described by `CloseEffect` and `CloseIdempotent` |
| Clinic.VetClinic.CloseAppointment | Final.py:242-265 | an unknown record or appointment id is refused; otherwise the first appointment with the id is closed, paid or not, and the invariant is kept |
| ClinicProperties.CloseEffect | Final.py:242-265 | a refusal changes nothing; success changes only the status of the first matching appointment; the open slots grow by one when it was open, by zero otherwise; the invariant is kept |
| ClinicProperties.CloseIdempotent | Final.py:259-263 | closing the same appointment a second time gives the same result and the same state |
| ClinicState.Annotate | Final.py:180-187 | RecordNotFound, or the record's notes extended by timestamp, ": ", the note and a newline; described by `AnnotateEffect` |
| Clinic.VetClinic.AddNotes | Final.py:180-187 | an unknown record is refused; otherwise that record's notes gain the note and nothing else changes |
| Clinic.VetClinic.RecordAddNotes | Final.py:184 | the record's view gains the note; every other record keeps its view |
| ClinicProperties.AnnotateEffect | Final.py:180-187 | the old notes stay a prefix, the text added is exactly timestamp, ": ", the note and a newline, other records and appointments are untouched, and the invariant is kept |
| Clinic.VetClinic.GetMedicalHistory | Final.py:168-177 | an unknown record is refused; otherwise the result is the summary of that record, the header and one row per appointment that the file is written from |

## Left out

- The menu loop, the prompts and the messages (`main`, every `input` and `print`). Inputs are parameters and messages are `Failure` values.
- Reading `services.txt` and writing `medical_history_<id>.txt`. `LoadServices` takes the lines already read, and `GetMedicalHistory` returns the summary the file is written from.
- `datetime.now()`: `add_notes` takes the timestamp text as a parameter.
- Date validation with `datetime.strptime`. Dates are opaque strings, so the early return for an invalid birthday or appointment date is not modelled.
- `random.randint`: the draws are a parameter. The source retries without bound, so `GenerateUniqueId` requires that some draw is free.
- The re-prompt loop for the animal's sex. Sex is the two-valued datatype `Sex`.
- Float arithmetic: costs are `int`, and payments and amounts paid are exact `real`. Rounding, `nan` and `inf` amounts are not modelled.
- The text layout of `get_summary`'s lines: the four-space separators, the `$` before the cost and the amount left, the trailing newline and `str()` of each field. A summary is a header and a sequence of `Row` tuples that keep every field as a value.
- The appointment listings printed before the payment and close prompts. They are output only.
- The `ValueError` that `int(input(...))` raises for a non-numeric animal or appointment id. Ids are integers.
- Python's Unicode notion of whitespace and digits in `strip` and `int`. Only ASCII whitespace, the separators U+001C..U+001F and ASCII digits are recognised, and underscores between digits are not accepted.
- The service prompt never receiving 'done' (end of input). `AddAppointment` requires a 'done' among the answers.
- The order in which `self.records.values()` yields records. The model sums over the keys in any order and proves the result does not depend on it.
- ClinicState.PaymentConsistent: does not promise `amount_paid <= cost` for an appointment that is not paid, because a negative price lets a new appointment cost less than nothing. The bound is proved for every successful payment instead (`ApplyPaymentRules`).
