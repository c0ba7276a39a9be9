/**
 * The clinic's state as values: what each Appointment, AnimalRecord and the
 * VetClinic's dictionary of records hold, and what each operation of the
 * clinic does to that state. The classes in module Clinic are proved to
 * behave as these functions say.
 */
module ClinicState {
  import opened Wrappers
  import opened Text
  import opened ServiceLine

  /** How many appointments may be open at once across the clinic. */
  const Capacity: int := 20

  /** `random.randint(1000, 9999)` draws identifiers from this closed range. */
  const MinId: int := 1000
  const MaxId: int := 9999

  datatype Status = Open | Closed

  datatype PaymentStatus = NotPaid | PartlyPaid | FullyPaid

  datatype Sex = Female | Male

  /** The status strings the clinic stores and prints. */
  function StatusText(s: Status): string
  {
    match s
    case Open => "open"
    case Closed => "closed"
  }

  function PaymentStatusText(p: PaymentStatus): string
  {
    match p
    case NotPaid => "not paid"
    case PartlyPaid => "partly paid"
    case FullyPaid => "fully paid"
  }

  datatype AppointmentState = AppointmentState(
    id: int,
    date: string,
    services: seq<Service>,
    cost: int,
    status: Status,
    paymentStatus: PaymentStatus,
    amountPaid: real)

  datatype RecordState = RecordState(
    id: int,
    animalType: string,
    name: string,
    sex: Sex,
    birthday: string,
    breed: string,
    contactPerson: string,
    phoneNumber: string,
    notes: string,
    appointments: seq<AppointmentState>)

  /** The clinic's dictionary from record id to record. */
  type Records = map<int, RecordState>

  /** Why an operation did nothing. */
  datatype Failure =
    | NoOpenSlots
    | RecordNotFound
    | AppointmentNotFound
    | AlreadyFullyPaid
    | InvalidAmount
    | AmountExceedsDue(due: real)

  // ------------------------------------------------------------ appointment

  /** A fresh appointment: open, not paid, nothing paid yet. */
  function NewAppointment(id: int, date: string, services: seq<Service>, cost: int): AppointmentState
  {
    AppointmentState(id, date, services, cost, Open, NotPaid, 0.0)
  }

  /** What is left to pay. */
  function Remaining(a: AppointmentState): real
  {
    a.cost as real - a.amountPaid
  }

  /**
   * One payment against one appointment. `amount` is None when the entered
   * text is not a number. The open/closed status is not consulted.
   */
  function ApplyPayment(a: AppointmentState, amount: Option<real>): (Result<PaymentStatus, Failure>, AppointmentState)
  {
    if a.paymentStatus == FullyPaid then (Err(AlreadyFullyPaid), a)
    else if amount.None? then (Err(InvalidAmount), a)
    else if amount.value > Remaining(a) then (Err(AmountExceedsDue(Remaining(a))), a)
    else
      var paid := a.amountPaid + amount.value;
      var status := if paid >= a.cost as real then FullyPaid else PartlyPaid;
      (Ok(status), a.(amountPaid := paid, paymentStatus := status))
  }

  function MarkClosed(a: AppointmentState): AppointmentState
  {
    a.(status := Closed)
  }

  /**
   * The payment bookkeeping every appointment keeps: the payment status
   * agrees with the amount paid, and once anything is paid it never exceeds
   * the cost. (Prices are not checked for sign, so an unpaid appointment may
   * cost less than nothing.)
   */
  predicate PaymentConsistent(a: AppointmentState)
  {
    && (a.paymentStatus == NotPaid ==> a.amountPaid == 0.0)
    && (a.paymentStatus == PartlyPaid ==> a.amountPaid < a.cost as real)
    && (a.paymentStatus == FullyPaid ==> a.amountPaid == a.cost as real)
  }

  // ---------------------------------------------------------------- record

  /** The text `add_notes` appends: timestamp, ": ", the note, a newline. */
  function AppendNote(notes: string, timestamp: string, note: string): string
  {
    notes + timestamp + ": " + note + "\n"
  }

  function ServiceNames(services: seq<Service>): seq<string>
  {
    seq(|services|, i requires 0 <= i < |services| => services[i].name)
  }

  /**
   * The service description of a summary row, built the way `get_summary`
   * builds it: ", " goes in front of a name only when the text so far is
   * not empty.
   */
  function JoinNames(names: seq<string>): string
  {
    if names == [] then ""
    else
      var text := JoinNames(names[..|names| - 1]);
      (if text != "" then text + ", " else text) + names[|names| - 1]
  }

  const SummaryHeader: string := "ID   Date    Services    Cost    Status  Payment Status  Amount Left to Pay\n"

  /** One line of the medical history; money stays a number. */
  datatype Row = Row(
    id: int,
    date: string,
    services: string,
    cost: int,
    status: string,
    paymentStatus: string,
    remaining: real)

  datatype Report = Report(header: string, rows: seq<Row>)

  function SummaryRow(a: AppointmentState): Row
  {
    Row(a.id, a.date, JoinNames(ServiceNames(a.services)), a.cost,
        StatusText(a.status), PaymentStatusText(a.paymentStatus), Remaining(a))
  }

  /** One row per appointment, in the order the appointments were added. */
  function SummaryRows(appointments: seq<AppointmentState>): (rows: seq<Row>)
    ensures |rows| == |appointments|
    ensures forall i | 0 <= i < |appointments| :: rows[i] == SummaryRow(appointments[i])
  {
    if appointments == [] then []
    else SummaryRows(appointments[..|appointments| - 1]) + [SummaryRow(appointments[|appointments| - 1])]
  }

  function Summary(r: RecordState): Report
  {
    Report(SummaryHeader, SummaryRows(r.appointments))
  }

  // ----------------------------------------------------- open-slot counting

  /** 1 for an open appointment, 0 for a closed one. */
  function OpenWeight(a: AppointmentState): nat
  {
    if a.status == Open then 1 else 0
  }

  /** The number of open appointments in a list. */
  function CountOpen(appointments: seq<AppointmentState>): (n: nat)
    ensures n <= |appointments|
    ensures n == 0 <==> forall i | 0 <= i < |appointments| :: appointments[i].status == Closed
  {
    if appointments == [] then 0
    else CountOpen(appointments[..|appointments| - 1]) + OpenWeight(appointments[|appointments| - 1])
  }

  /** A non-empty set of keys has a member to pick. */
  lemma NonEmptyHasMember(keys: set<int>)
    requires keys != {}
    ensures exists k :: k in keys
  {
    if forall k :: k !in keys {
      assert false;
    }
  }

  /** Open appointments over the records with the given keys. */
  ghost function OpenIn(m: Records, keys: set<int>): nat
    requires keys <= m.Keys
    decreases keys
  {
    if keys == {} then 0
    else
      NonEmptyHasMember(keys);
      var k :| k in keys;
      CountOpen(m[k].appointments) + OpenIn(m, keys - {k})
  }

  /** Open appointments across the whole clinic. */
  ghost function OpenCount(m: Records): nat
  {
    OpenIn(m, m.Keys)
  }

  /** `get_open_slots`: capacity minus the open appointments. */
  ghost function OpenSlots(m: Records, capacity: int): int
  {
    capacity - OpenCount(m)
  }

  // ------------------------------------------------------------ identifiers

  predicate HasAppointmentId(appointments: seq<AppointmentState>, id: int)
  {
    exists i | 0 <= i < |appointments| :: appointments[i].id == id
  }

  /** `id` is some record's id or some appointment's id. */
  ghost predicate IdUsed(m: Records, id: int)
  {
    exists k | k in m :: m[k].id == id || HasAppointmentId(m[k].appointments, id)
  }

  predicate InIdRange(id: int)
  {
    MinId <= id <= MaxId
  }

  /** Every draw is a value `randint(1000, 9999)` can return. */
  predicate DrawsInRange(draws: seq<int>)
  {
    forall i | 0 <= i < |draws| :: InIdRange(draws[i])
  }

  /** Some draw is not in use yet, so the retry loop stops. */
  ghost predicate HasFreeDraw(m: Records, draws: seq<int>)
  {
    exists i | 0 <= i < |draws| :: !IdUsed(m, draws[i])
  }

  /** The draw the retry loop keeps: the first one not in use. */
  ghost function FirstFree(m: Records, draws: seq<int>): (id: int)
    requires HasFreeDraw(m, draws)
    ensures !IdUsed(m, id)
    ensures exists i | 0 <= i < |draws| :: draws[i] == id && forall j | 0 <= j < i :: IdUsed(m, draws[j])
  {
    if !IdUsed(m, draws[0]) then draws[0]
    else
      assert HasFreeDraw(m, draws[1..]) by {
        var i :| 0 <= i < |draws| && !IdUsed(m, draws[i]);
        assert draws[1..][i - 1] == draws[i];
      }
      var id := FirstFree(m, draws[1..]);
      assert exists i | 0 <= i < |draws| :: draws[i] == id && forall j | 0 <= j < i :: IdUsed(m, draws[j]) by {
        var i :| 0 <= i < |draws| - 1 && draws[1..][i] == id && forall j | 0 <= j < i :: IdUsed(m, draws[1..][j]);
        assert draws[i + 1] == id;
        assert forall j | 0 <= j < i + 1 :: IdUsed(m, draws[j]) by {
          forall j | 0 <= j < i + 1 ensures IdUsed(m, draws[j]) {
            if j > 0 { assert draws[j] == draws[1..][j - 1]; }
          }
        }
      }
      id
  }

  // ---------------------------------------------------------- selection

  /** `choice.lower() == 'done'`. */
  predicate IsDone(choice: string)
  {
    |choice| == 4 && Lower(choice[0]) == 'd' && Lower(choice[1]) == 'o'
    && Lower(choice[2]) == 'n' && Lower(choice[3]) == 'e'
  }

  /** The entries typed at the service prompt end with a 'done'. */
  predicate HasDone(entries: seq<string>)
  {
    exists i | 0 <= i < |entries| :: IsDone(entries[i])
  }

  /** Position of the first 'done' among the entries. */
  function DoneIndex(entries: seq<string>): (i: nat)
    requires HasDone(entries)
    ensures i < |entries| && IsDone(entries[i])
    ensures forall j | 0 <= j < i :: !IsDone(entries[j])
  {
    if IsDone(entries[0]) then 0
    else
      assert HasDone(entries[1..]) by {
        var i :| 0 <= i < |entries| && IsDone(entries[i]);
        assert entries[1..][i - 1] == entries[i];
      }
      1 + DoneIndex(entries[1..])
  }

  /** The choices the service loop reads before it stops at 'done'. */
  function ChoicesBeforeDone(entries: seq<string>): seq<string>
    requires HasDone(entries)
  {
    entries[..DoneIndex(entries)]
  }

  /** The services of the valid choices, in the order chosen; other choices are skipped. */
  function Selected(catalog: map<string, Service>, choices: seq<string>): seq<Service>
  {
    if choices == [] then []
    else
      var last := choices[|choices| - 1];
      Selected(catalog, choices[..|choices| - 1]) + (if last in catalog then [catalog[last]] else [])
  }

  /** The running total of the prices of the valid choices. */
  function Total(catalog: map<string, Service>, choices: seq<string>): int
  {
    if choices == [] then 0
    else
      var last := choices[|choices| - 1];
      Total(catalog, choices[..|choices| - 1]) + (if last in catalog then catalog[last].price else 0)
  }

  function PriceSum(services: seq<Service>): int
  {
    if services == [] then 0 else PriceSum(services[..|services| - 1]) + services[|services| - 1].price
  }

  // ---------------------------------------------------------- operations

  /** `create_animal_record`: a new record under a fresh id, no notes, no appointments. */
  ghost function CreateRecord(m: Records, draws: seq<int>, animalType: string, name: string, sex: Sex,
                              birthday: string, breed: string, contactPerson: string,
                              phoneNumber: string): (int, Records)
    requires HasFreeDraw(m, draws)
  {
    var id := FirstFree(m, draws);
    (id, m[id := RecordState(id, animalType, name, sex, birthday, breed, contactPerson, phoneNumber, "", [])])
  }

  /**
   * `add_appointment`: the capacity check comes first, then the record
   * lookup; then the valid choices are priced and a new appointment under a
   * fresh id is appended to the record.
   */
  ghost function AdmitAppointment(m: Records, capacity: int, catalog: map<string, Service>, recordId: int,
                                  date: string, choices: seq<string>, draws: seq<int>): (Result<int, Failure>, Records)
    requires OpenSlots(m, capacity) > 0 && recordId in m ==> HasFreeDraw(m, draws)
  {
    if OpenSlots(m, capacity) <= 0 then (Err(NoOpenSlots), m)
    else if recordId !in m then (Err(RecordNotFound), m)
    else
      var id := FirstFree(m, draws);
      var a := NewAppointment(id, date, Selected(catalog, choices), Total(catalog, choices));
      (Ok(id), m[recordId := m[recordId].(appointments := m[recordId].appointments + [a])])
  }

  /** Index of the first appointment with the given id. */
  function FindAppointment(appointments: seq<AppointmentState>, id: int): (r: Option<nat>)
    ensures r.Some? ==> r.value < |appointments| && appointments[r.value].id == id
    ensures r.Some? ==> forall j | 0 <= j < r.value :: appointments[j].id != id
    ensures r.None? ==> forall j | 0 <= j < |appointments| :: appointments[j].id != id
  {
    if appointments == [] then None
    else if appointments[0].id == id then Some(0)
    else match FindAppointment(appointments[1..], id)
      case None => None
      case Some(i) => Some(i + 1)
  }

  /** Replaces appointment `i` of record `k`. */
  function UpdateAppointment(m: Records, k: int, i: nat, a: AppointmentState): Records
    requires k in m && i < |m[k].appointments|
  {
    m[k := m[k].(appointments := m[k].appointments[i := a])]
  }

  /** `pay_for_services`: the first appointment with the id takes the payment. */
  function Pay(m: Records, recordId: int, appointmentId: int, amount: Option<real>): (Result<PaymentStatus, Failure>, Records)
  {
    if recordId !in m then (Err(RecordNotFound), m)
    else match FindAppointment(m[recordId].appointments, appointmentId)
      case None => (Err(AppointmentNotFound), m)
      case Some(i) =>
        var (result, a) := ApplyPayment(m[recordId].appointments[i], amount);
        if result.Err? then (result, m) else (result, UpdateAppointment(m, recordId, i, a))
  }

  /** `close_appointment`: the first appointment with the id becomes closed. */
  function Close(m: Records, recordId: int, appointmentId: int): (Result<(), Failure>, Records)
  {
    if recordId !in m then (Err(RecordNotFound), m)
    else match FindAppointment(m[recordId].appointments, appointmentId)
      case None => (Err(AppointmentNotFound), m)
      case Some(i) => (Ok(()), UpdateAppointment(m, recordId, i, MarkClosed(m[recordId].appointments[i])))
  }

  /** `VetClinic.add_notes`. */
  function Annotate(m: Records, recordId: int, timestamp: string, note: string): (Result<(), Failure>, Records)
  {
    if recordId !in m then (Err(RecordNotFound), m)
    else (Ok(()), m[recordId := m[recordId].(notes := AppendNote(m[recordId].notes, timestamp, note))])
  }

  /** `get_medical_history`, without writing the file. */
  function MedicalHistory(m: Records, recordId: int): Result<Report, Failure>
  {
    if recordId !in m then Err(RecordNotFound) else Ok(Summary(m[recordId]))
  }

  // ------------------------------------------------------------ invariant

  /** Each record is filed under its own id. */
  ghost predicate KeysAreIds(m: Records)
  {
    forall k | k in m :: m[k].id == k
  }

  /** No appointment shares an id with a record or with another appointment. */
  ghost predicate UniqueIds(m: Records)
  {
    && (forall k, k2, j | k in m && k2 in m && 0 <= j < |m[k2].appointments| ::
          m[k2].appointments[j].id != m[k].id)
    && (forall k1, i, k2, j |
          && k1 in m && k2 in m
          && 0 <= i < |m[k1].appointments| && 0 <= j < |m[k2].appointments|
          && m[k1].appointments[i].id == m[k2].appointments[j].id ::
          k1 == k2 && i == j)
  }

  ghost predicate IdsInRange(m: Records)
  {
    forall k | k in m ::
      InIdRange(m[k].id) && forall i | 0 <= i < |m[k].appointments| :: InIdRange(m[k].appointments[i].id)
  }

  ghost predicate PaymentsConsistent(m: Records)
  {
    forall k, i | k in m && 0 <= i < |m[k].appointments| :: PaymentConsistent(m[k].appointments[i])
  }

  /** What every operation of the clinic preserves. */
  ghost predicate Inv(m: Records, capacity: int)
  {
    && KeysAreIds(m)
    && UniqueIds(m)
    && IdsInRange(m)
    && PaymentsConsistent(m)
    && OpenCount(m) <= capacity
  }
}
