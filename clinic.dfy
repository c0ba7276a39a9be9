/**
 * The clinic as the program keeps it: Appointment, AnimalRecord and VetClinic
 * objects on the heap, updated in place. Each object has a ghost `View` into
 * the values of module ClinicState, and every method is proved to do to that
 * view what the matching function there says.
 */
module Clinic {
  import opened Wrappers
  import opened ServiceLine
  import opened ServiceCatalog
  import opened ClinicState
  import opened ClinicProperties

  /** One visit: fixed id, date, services and cost; status and payment change. */
  class Appointment {
    const id: int
    const date: string
    const services: seq<Service>
    const cost: int
    var status: Status
    var paymentStatus: PaymentStatus
    var amountPaid: real

    ghost function View(): AppointmentState
      reads this
    {
      AppointmentState(id, date, services, cost, status, paymentStatus, amountPaid)
    }

    /** A new appointment is open, not paid, with nothing paid yet. */
    constructor(id: int, date: string, services: seq<Service>, cost: int)
      ensures View() == NewAppointment(id, date, services, cost)
    {
      this.id := id;
      this.date := date;
      this.services := services;
      this.cost := cost;
      status := Open;
      paymentStatus := NotPaid;
      amountPaid := 0.0;
    }
  }

  /** The values of a list of appointments, in order. */
  ghost function Views(appointments: seq<Appointment>): (r: seq<AppointmentState>)
    reads appointments
    ensures |r| == |appointments|
    ensures forall i | 0 <= i < |appointments| :: r[i] == appointments[i].View()
  {
    seq(|appointments|, i reads appointments requires 0 <= i < |appointments| => appointments[i].View())
  }

  /** Index of the first appointment with the id, as the lookup loops find it. */
  method Locate(appointments: seq<Appointment>, id: int) returns (found: Option<nat>)
    ensures found == FindAppointment(Views(appointments), id)
  {
    var i := 0;
    while i < |appointments| && appointments[i].id != id
      invariant 0 <= i <= |appointments|
      invariant forall j | 0 <= j < i :: appointments[j].id != id
    {
      i := i + 1;
    }
    found := if i < |appointments| then Some(i) else None;
  }

  /** The inner loop of `get_open_slots`: the open appointments of one record. */
  method CountOpenOf(appointments: seq<Appointment>) returns (n: int)
    ensures n == CountOpen(Views(appointments))
  {
    ghost var states := Views(appointments);
    n := 0;
    var j := 0;
    while j < |appointments|
      invariant 0 <= j <= |appointments|
      invariant n == CountOpen(states[..j])
    {
      assert states[..j + 1][..j] == states[..j];
      if appointments[j].status == Open {
        n := n + 1;
      }
      j := j + 1;
    }
    assert states[..j] == states;
  }

  /** Two record maps with the same keys and the same record under each key are equal. */
  lemma MapExt(a: Records, b: Records)
    requires a.Keys == b.Keys && forall k | k in a :: a[k] == b[k]
    ensures a == b
  {
    forall k | k in a
      ensures k in b && a[k] == b[k]
    {
    }
    assert forall k :: k in a <==> k in b;
  }

  /** An animal's record: identity data, notes that only grow, and its appointments. */
  class AnimalRecord {
    const id: int
    const animalType: string
    const name: string
    const sex: Sex
    const birthday: string
    const breed: string
    const contactPerson: string
    const phoneNumber: string
    var notes: string
    var appointments: seq<Appointment>

    ghost function View(): RecordState
      reads this, appointments
    {
      RecordState(id, animalType, name, sex, birthday, breed, contactPerson, phoneNumber,
                  notes, Views(appointments))
    }

    /** A new record has no notes and no appointments. */
    constructor(id: int, animalType: string, name: string, sex: Sex, birthday: string,
                breed: string, contactPerson: string, phoneNumber: string)
      ensures View() == RecordState(id, animalType, name, sex, birthday, breed, contactPerson,
                                    phoneNumber, "", [])
    {
      this.id := id;
      this.animalType := animalType;
      this.name := name;
      this.sex := sex;
      this.birthday := birthday;
      this.breed := breed;
      this.contactPerson := contactPerson;
      this.phoneNumber := phoneNumber;
      notes := "";
      appointments := [];
    }

    /** `add_appointment`: the earlier appointments stay, the new one goes last. */
    method AddAppointment(appointment: Appointment)
      modifies this
      ensures appointments == old(appointments) + [appointment]
      ensures notes == old(notes)
      ensures View() == old(View()).(appointments := old(View().appointments) + [appointment.View()])
    {
      appointments := appointments + [appointment];
    }

    /** `add_notes`, with the clock's reading passed in as `timestamp`. */
    method AddNotes(note: string, timestamp: string)
      modifies this
      ensures appointments == old(appointments)
      ensures notes == AppendNote(old(notes), timestamp, note)
      ensures View() == old(View()).(notes := AppendNote(old(notes), timestamp, note))
    {
      notes := notes + timestamp + ": " + note + "\n";
    }

    /**
     * `get_summary`: the header and one row per appointment, in insertion
     * order, with the services' names and the amount left to pay.
     */
    method GetSummary() returns (report: Report)
      ensures report == Summary(View())
    {
      var rows: seq<Row> := [];
      var i := 0;
      while i < |appointments|
        invariant 0 <= i <= |appointments|
        invariant |rows| == i
        invariant forall k | 0 <= k < i :: rows[k] == SummaryRow(appointments[k].View())
      {
        var appointment := appointments[i];
        ghost var names := ServiceNames(appointment.services);
        var servicesDesc := "";
        var j := 0;
        while j < |appointment.services|
          invariant 0 <= j <= |appointment.services|
          invariant servicesDesc == JoinNames(names[..j])
        {
          assert names[..j + 1][..j] == names[..j];
          if servicesDesc != "" {
            servicesDesc := servicesDesc + ", ";
          }
          servicesDesc := servicesDesc + appointment.services[j].name;
          j := j + 1;
        }
        assert names[..j] == names;
        var remaining := appointment.cost as real - appointment.amountPaid;
        rows := rows + [Row(appointment.id, appointment.date, servicesDesc, appointment.cost,
                            StatusText(appointment.status), PaymentStatusText(appointment.paymentStatus),
                            remaining)];
        i := i + 1;
      }
      report := Report(SummaryHeader, rows);
      assert rows == SummaryRows(Views(appointments));
    }
  }

  /**
   * The clinic: the records by id, the service catalogue and the capacity
   * of 20 open appointments.
   */
  class VetClinic {
    var records: map<int, AnimalRecord>
    const services: Catalog
    const capacity: int
    /** This object, its records and their appointments. */
    ghost var Repr: set<object>

    ghost predicate Owned()
      reads this, Repr
    {
      && this in Repr
      && (forall k | k in records :: records[k] in Repr)
      && (forall k, i | k in records && 0 <= i < |records[k].appointments| :: records[k].appointments[i] in Repr)
    }

    ghost function View(): Records
      requires Owned()
      reads this, Repr
    {
      map k | k in records :: records[k].View()
    }

    ghost predicate Valid()
      reads this, Repr
    {
      Owned() && Inv(View(), capacity)
    }

    /** The clinic starts with no records and the catalogue `load_services` read. */
    constructor(services: Catalog)
      ensures Valid() && fresh(Repr)
      ensures View() == map[] && this.services == services && capacity == Capacity
    {
      records := map[];
      this.services := services;
      capacity := Capacity;
      Repr := {this};
      new;
      assert OpenCount(View()) == 0;
    }

    /**
     * Different keys hold different records, and different places hold
     * different appointments: ids are fixed and unique.
     */
    lemma Distinct()
      requires Valid()
      ensures forall k1, k2 | k1 in records && k2 in records && k1 != k2 :: records[k1] != records[k2]
      ensures forall k1, i, k2, j |
        && k1 in records && k2 in records
        && 0 <= i < |records[k1].appointments| && 0 <= j < |records[k2].appointments|
        && records[k1].appointments[i] == records[k2].appointments[j] ::
        k1 == k2 && i == j
    {
      var m := View();
      assert forall k | k in records :: records[k].id == m[k].id;
      assert forall k, i | k in records && 0 <= i < |records[k].appointments| ::
        records[k].appointments[i].id == m[k].appointments[i].id;
    }

    /** The id test `generate_unique_id` runs over every record and appointment. */
    method IdExists(id: int) returns (found: bool)
      requires Owned()
      ensures found == IdUsed(View(), id)
    {
      ghost var m := View();
      found := false;
      var todo := records.Keys;
      while todo != {}
        invariant todo <= records.Keys
        invariant found ==> IdUsed(m, id)
        invariant !found ==> forall k | k in records.Keys - todo ::
          m[k].id != id && !HasAppointmentId(m[k].appointments, id)
        decreases todo
      {
        NonEmptyHasMember(todo);
        var k :| k in todo;
        todo := todo - {k};
        var record := records[k];
        if record.id == id {
          assert m[k].id == id;
          found := true;
          break;
        }
        var appointments := record.appointments;
        var j := 0;
        while j < |appointments|
          invariant 0 <= j <= |appointments|
          invariant found ==> IdUsed(m, id)
          invariant !found ==> forall i | 0 <= i < j :: m[k].appointments[i].id != id
        {
          if appointments[j].id == id {
            assert m[k].appointments[j].id == id;
            found := true;
            break;
          }
          j := j + 1;
        }
      }
    }

    /**
     * `generate_unique_id`: draws until one is neither a record id nor an
     * appointment id. `draws` are the values `randint(1000, 9999)` returns.
     */
    method GenerateUniqueId(draws: seq<int>) returns (id: int)
      requires Owned() && HasFreeDraw(View(), draws)
      ensures id == FirstFree(View(), draws)
      ensures !IdUsed(View(), id)
      ensures DrawsInRange(draws) ==> InIdRange(id)
    {
      ghost var m := View();
      var n := 0;
      assert 0 < |draws| by {
        var i :| 0 <= i < |draws| && !IdUsed(m, draws[i]);
      }
      id := draws[0];
      var used := IdExists(id);
      while used
        invariant View() == m
        invariant 0 <= n < |draws| && id == draws[n]
        invariant used == IdUsed(m, id)
        invariant forall j | 0 <= j < n :: IdUsed(m, draws[j])
        decreases |draws| - n
      {
        UnusedDrawAhead(m, draws, n);
        n := n + 1;
        id := draws[n];
        used := IdExists(id);
      }
      FirstFreeIsFirstUnused(m, draws, n);
      if DrawsInRange(draws) {
        FirstFreeInRange(m, draws);
      }
    }

    /** `get_open_slots`: the capacity less the open appointments of every record. */
    method GetOpenSlots() returns (slots: int)
      requires Owned()
      ensures slots == OpenSlots(View(), capacity)
    {
      ghost var m := View();
      assert m.Keys == records.Keys;
      var total := 0;
      var todo := records.Keys;
      while todo != {}
        invariant todo <= records.Keys
        invariant total + OpenIn(m, todo) == OpenCount(m)
        decreases todo
      {
        NonEmptyHasMember(todo);
        var k :| k in todo;
        var open := CountOpenOf(records[k].appointments);
        total := total + open;
        OpenInPick(m, todo, k);
        todo := todo - {k};
      }
      slots := capacity - total;
    }

    /**
     * `create_animal_record`: files a new record, with no notes and no
     * appointments, under a fresh id; the prompts' answers are parameters.
     */
    method CreateAnimalRecord(draws: seq<int>, animalType: string, name: string, sex: Sex, birthday: string,
                              breed: string, contactPerson: string, phoneNumber: string) returns (id: int)
      requires Valid() && DrawsInRange(draws) && HasFreeDraw(View(), draws)
      modifies this
      ensures Valid() && fresh(Repr - old(Repr))
      ensures (id, View()) == CreateRecord(old(View()), draws, animalType, name, sex, birthday, breed,
                                           contactPerson, phoneNumber)
    {
      ghost var m := View();
      id := GenerateUniqueId(draws);
      FreeIdIsFresh(m, id);
      var record := MakeRecord(id, animalType, name, sex, birthday, breed, contactPerson, phoneNumber);
      FileRecord(record);
      CreateRecordEffect(m, capacity, draws, animalType, name, sex, birthday, breed, contactPerson, phoneNumber);
    }

    /** A new record, outside the clinic until it is filed. */
    method MakeRecord(id: int, animalType: string, name: string, sex: Sex, birthday: string,
                      breed: string, contactPerson: string, phoneNumber: string) returns (record: AnimalRecord)
      requires Owned()
      ensures fresh(record) && record.id == id && record.appointments == []
      ensures record.View() == RecordState(id, animalType, name, sex, birthday, breed, contactPerson,
                                           phoneNumber, "", [])
      ensures Owned() && View() == old(View())
    {
      record := new AnimalRecord(id, animalType, name, sex, birthday, breed, contactPerson, phoneNumber);
      assert forall k | k in records :: records[k].View() == old(records[k].View());
      MapExt(View(), old(View()));
    }

    /** `self.records[record.id] = record` for a new record under a new key. */
    method FileRecord(record: AnimalRecord)
      requires Owned() && record !in Repr && record.id !in records && record.appointments == []
      modifies this
      ensures Owned() && Repr == old(Repr) + {record}
      ensures View() == old(View())[record.id := record.View()]
    {
      AddToRepr(record);
      ghost var m := View();
      ghost var before := records;
      records := records[record.id := record];
      forall k | k in before
        ensures records[k].View() == m[k]
      {
        assert records[k] == before[k];
      }
      ghost var v := View();
      ghost var e := m[record.id := record.View()];
      assert v.Keys == e.Keys;
      assert forall k | k in v :: v[k] == e[k];
      MapExt(v, e);
    }

    /**
     * The service prompt of `add_appointment`: keys are read up to the first
     * 'done'; a key in the catalogue adds its service and its price, any
     * other key is skipped.
     */
    method ChooseServices(entries: seq<string>) returns (selected: seq<Service>, totalCost: int)
      requires HasDone(entries)
      ensures selected == Selected(services, ChoicesBeforeDone(entries))
      ensures totalCost == PriceSum(selected)
    {
      selected := [];
      totalCost := 0;
      var i := 0;
      while !IsDone(entries[i])
        invariant 0 <= i <= DoneIndex(entries)
        invariant selected == Selected(services, entries[..i])
        invariant totalCost == Total(services, entries[..i])
        decreases DoneIndex(entries) - i
      {
        assert entries[..i + 1][..i] == entries[..i];
        var choice := entries[i];
        if choice in services {
          selected := selected + [services[choice]];
          totalCost := totalCost + services[choice].price;
        }
        i := i + 1;
      }
      assert entries[..i] == ChoicesBeforeDone(entries);
      TotalIsPriceSum(services, entries[..i]);
    }

    /**
     * `add_appointment`: refuses when no slot is open, then when the record
     * is unknown; otherwise reads service choices up to the first 'done',
     * skipping keys not in the catalogue, and appends one new appointment
     * under a fresh id. `entries` are the answers to the service prompt.
     */
    method AddAppointment(recordId: int, date: string, entries: seq<string>, draws: seq<int>)
      returns (result: Result<int, Failure>)
      requires Valid() && DrawsInRange(draws) && HasDone(entries)
      requires OpenSlots(View(), capacity) > 0 && recordId in View() ==> HasFreeDraw(View(), draws)
      modifies Repr
      ensures Valid() && fresh(Repr - old(Repr))
      ensures (result, View()) == AdmitAppointment(old(View()), capacity, services, recordId, date,
                                                   ChoicesBeforeDone(entries), draws)
    {
      ghost var m := View();
      var slots := GetOpenSlots();
      if slots <= 0 {
        return Err(NoOpenSlots);
      }
      if recordId !in records {
        return Err(RecordNotFound);
      }
      assert recordId in m && OpenSlots(m, capacity) > 0;
      var selected, totalCost := ChooseServices(entries);
      var id := BookAppointment(recordId, date, selected, totalCost, draws);
      ghost var choices := ChoicesBeforeDone(entries);
      TotalIsPriceSum(services, choices);
      ghost var a := NewAppointment(id, date, Selected(services, choices), Total(services, choices));
      assert View() == m[recordId := m[recordId].(appointments := m[recordId].appointments + [a])];
      result := Ok(id);
    }

    /**
     * The success path of `add_appointment`: a new open, unpaid appointment
     * under the first free drawn id joins the record.
     */
    method BookAppointment(recordId: int, date: string, selected: seq<Service>, totalCost: int, draws: seq<int>)
      returns (id: int)
      requires Valid() && DrawsInRange(draws) && recordId in records
      requires OpenSlots(View(), capacity) > 0 && HasFreeDraw(View(), draws)
      modifies Repr
      ensures Valid() && fresh(Repr - old(Repr))
      ensures id == FirstFree(old(View()), draws)
      ensures View() == old(View())[recordId := old(View())[recordId].(appointments :=
                          old(View())[recordId].appointments + [NewAppointment(id, date, selected, totalCost)])]
    {
      ghost var m := View();
      id := GenerateUniqueId(draws);
      var appointment := MakeAppointment(id, date, selected, totalCost);
      EnterAppointment(recordId, appointment, m);
    }

    /** A new appointment, outside the clinic until it is filed. */
    method MakeAppointment(id: int, date: string, selected: seq<Service>, totalCost: int) returns (appointment: Appointment)
      requires Owned()
      ensures fresh(appointment) && appointment.View() == NewAppointment(id, date, selected, totalCost)
      ensures Owned() && View() == old(View())
    {
      appointment := new Appointment(id, date, selected, totalCost);
      assert forall k | k in records :: records[k].View() == old(records[k].View());
      MapExt(View(), old(View()));
    }

    /**
     * Files a new open, unpaid appointment under a free id with a record
     * while a slot is open; the invariant is kept.
     */
    method EnterAppointment(recordId: int, appointment: Appointment, ghost m: Records)
      requires Valid() && View() == m && recordId in records && appointment !in Repr
      requires OpenSlots(m, capacity) > 0
      requires !IdUsed(m, appointment.id) && InIdRange(appointment.id)
      requires appointment.status == Open && appointment.paymentStatus == NotPaid && appointment.amountPaid == 0.0
      modifies records[recordId], this
      ensures Valid() && Repr == old(Repr) + {appointment}
      ensures View() == m[recordId := m[recordId].(appointments := m[recordId].appointments + [appointment.View()])]
    {
      Distinct();
      AppendToRecord(recordId, appointment);
      AppendEffect(m, capacity, recordId, appointment.View());
    }

    /** Brings a new object under the clinic's footprint; nothing visible changes. */
    method AddToRepr(o: object)
      requires Owned()
      modifies this
      ensures Owned() && Repr == old(Repr) + {o} && records == old(records)
      ensures View() == old(View())
    {
      Repr := Repr + {o};
      assert forall k | k in records :: records[k].View() == old(records[k].View());
      MapExt(View(), old(View()));
    }

    /** `self.records[recordId].add_appointment(appointment)` for a new appointment. */
    method AppendToRecord(recordId: int, appointment: Appointment)
      requires Owned() && recordId in records && appointment !in Repr
      requires forall k | k in records && k != recordId :: records[k] != records[recordId]
      modifies records[recordId], this
      ensures Owned() && Repr == old(Repr) + {appointment}
      ensures View() == old(View())[recordId := old(View())[recordId].(appointments :=
                          old(View())[recordId].appointments + [appointment.View()])]
    {
      AddToRepr(appointment);
      ghost var m := View();
      RecordAddAppointment(recordId, appointment);
      Reassemble(recordId, m, m[recordId].(appointments := m[recordId].appointments + [appointment.View()]));
    }

    /** The record call itself; every other record keeps its view. */
    method RecordAddAppointment(recordId: int, appointment: Appointment)
      requires Owned() && recordId in records && appointment in Repr
      requires forall k | k in records && k != recordId :: records[k] != records[recordId]
      modifies records[recordId]
      ensures Owned()
      ensures records[recordId].View() == old(records[recordId].View()).(appointments :=
                old(records[recordId].View()).appointments + [appointment.View()])
      ensures forall k | k in records && k != recordId :: records[k].View() == old(records[k].View())
    {
      records[recordId].AddAppointment(appointment);
    }

    /** The clinic's view after one record changed and the others kept theirs. */
    lemma Reassemble(recordId: int, m: Records, r: RecordState)
      requires Owned() && recordId in records && m.Keys == records.Keys
      requires records[recordId].View() == r
      requires forall k | k in records && k != recordId :: records[k].View() == m[k]
      ensures View() == m[recordId := r]
    {
      ghost var v := View();
      ghost var e := m[recordId := r];
      assert v.Keys == e.Keys;
      assert forall k | k in v :: v[k] == e[k];
      MapExt(v, e);
    }

    /**
     * Sets the changing fields of appointment `i` of record `recordId`, as
     * the payment and closing code does on the object it found.
     */
    method SetAppointmentFields(recordId: int, i: nat, status: Status, paymentStatus: PaymentStatus, amountPaid: real)
      requires Owned() && recordId in records && i < |records[recordId].appointments|
      requires forall k | k in records && k != recordId :: records[k] != records[recordId]
      requires forall k, j | k in records && 0 <= j < |records[k].appointments| && (k != recordId || j != i) ::
                 records[k].appointments[j] != records[recordId].appointments[i]
      modifies records[recordId].appointments[i]
      ensures Owned()
      ensures View() == UpdateAppointment(old(View()), recordId, i, old(View())[recordId].appointments[i].(
                          status := status, paymentStatus := paymentStatus, amountPaid := amountPaid))
    {
      ghost var m := View();
      ghost var a := m[recordId].appointments[i].(status := status, paymentStatus := paymentStatus, amountPaid := amountPaid);
      AssignAppointmentFields(recordId, i, status, paymentStatus, amountPaid);
      Reassemble(recordId, m, m[recordId].(appointments := m[recordId].appointments[i := a]));
    }

    /** The field updates on the appointment object; every other record keeps its view. */
    method AssignAppointmentFields(recordId: int, i: nat, status: Status, paymentStatus: PaymentStatus, amountPaid: real)
      requires Owned() && recordId in records && i < |records[recordId].appointments|
      requires forall k | k in records && k != recordId :: records[k] != records[recordId]
      requires forall k, j | k in records && 0 <= j < |records[k].appointments| && (k != recordId || j != i) ::
                 records[k].appointments[j] != records[recordId].appointments[i]
      modifies records[recordId].appointments[i]
      ensures Owned()
      ensures records[recordId].View() == old(records[recordId].View()).(appointments :=
                old(records[recordId].View()).appointments[i := old(records[recordId].appointments[i].View()).(
                  status := status, paymentStatus := paymentStatus, amountPaid := amountPaid)])
      ensures forall k | k in records && k != recordId :: records[k].View() == old(records[k].View())
    {
      var record := records[recordId];
      var app := record.appointments[i];
      ghost var before := Views(record.appointments);
      app.status, app.paymentStatus, app.amountPaid := status, paymentStatus, amountPaid;
      assert forall j | 0 <= j < |record.appointments| && j != i :: record.appointments[j].View() == before[j];
      assert Views(record.appointments) == before[i := app.View()];
    }

    /**
     * `pay_for_services`: refuses an unknown record, leaves things as they
     * are when no appointment has the id, refuses a fully paid appointment,
     * a non-numeric amount and an amount above what is due; otherwise adds
     * the amount and marks the appointment fully or partly paid.
     */
    method PayForServices(recordId: int, appointmentId: int, amount: Option<real>)
      returns (result: Result<PaymentStatus, Failure>)
      requires Valid()
      modifies Repr
      ensures Valid() && Repr == old(Repr)
      ensures (result, View()) == Pay(old(View()), recordId, appointmentId, amount)
    {
      ghost var m := View();
      if recordId !in records {
        return Err(RecordNotFound);
      }
      var found := Locate(records[recordId].appointments, appointmentId);
      if found.None? {
        return Err(AppointmentNotFound);
      }
      var i := found.value;
      Distinct();
      result := PayAt(recordId, i, amount);
      assert Pay(m, recordId, appointmentId, amount) == (result, View());
      if result.Ok? {
        PayEffect(m, capacity, recordId, appointmentId, amount);
      }
    }

    /**
     * The payment against the appointment found: the fully paid check, the
     * amount check and the update, in the order `pay_for_services` runs them.
     */
    method PayAt(recordId: int, i: nat, amount: Option<real>) returns (result: Result<PaymentStatus, Failure>)
      requires Owned() && recordId in records && i < |records[recordId].appointments|
      requires forall k | k in records && k != recordId :: records[k] != records[recordId]
      requires forall k, j | k in records && 0 <= j < |records[k].appointments| && (k != recordId || j != i) ::
                 records[k].appointments[j] != records[recordId].appointments[i]
      modifies records[recordId].appointments[i]
      ensures Owned()
      ensures var (r, a) := ApplyPayment(old(View())[recordId].appointments[i], amount);
        result == r && View() == if r.Ok? then UpdateAppointment(old(View()), recordId, i, a) else old(View())
    {
      var app := records[recordId].appointments[i];
      ghost var a := View()[recordId].appointments[i];
      assert a == app.View();
      if app.paymentStatus == FullyPaid {
        return Err(AlreadyFullyPaid);
      }
      var due := app.cost as real - app.amountPaid;
      if amount.None? {
        return Err(InvalidAmount);
      }
      if amount.value > due {
        return Err(AmountExceedsDue(due));
      }
      var paid := app.amountPaid + amount.value;
      var status := if paid >= app.cost as real then FullyPaid else PartlyPaid;
      assert Remaining(a) == due && a.amountPaid + amount.value == paid;
      assert ApplyPayment(a, amount) == (Ok(status), a.(amountPaid := paid, paymentStatus := status));
      SetAppointmentFields(recordId, i, app.status, status, paid);
      result := Ok(status);
    }

    /**
     * `close_appointment`: refuses an unknown record, leaves things as they
     * are when no appointment has the id, and otherwise closes the first
     * appointment with it, paid or not.
     */
    method CloseAppointment(recordId: int, appointmentId: int) returns (result: Result<(), Failure>)
      requires Valid()
      modifies Repr
      ensures Valid() && Repr == old(Repr)
      ensures (result, View()) == Close(old(View()), recordId, appointmentId)
    {
      ghost var m := View();
      if recordId !in records {
        return Err(RecordNotFound);
      }
      var found := Locate(records[recordId].appointments, appointmentId);
      if found.None? {
        return Err(AppointmentNotFound);
      }
      var i := found.value;
      var app := records[recordId].appointments[i];
      ghost var a := m[recordId].appointments[i];
      assert a == app.View();
      Distinct();
      SetAppointmentFields(recordId, i, Closed, app.paymentStatus, app.amountPaid);
      assert Close(m, recordId, appointmentId) == (Ok(()), View());
      CloseEffect(m, capacity, recordId, appointmentId);
      result := Ok(());
    }

    /** `VetClinic.add_notes`: refuses an unknown record, otherwise appends the note. */
    method AddNotes(recordId: int, note: string, timestamp: string) returns (result: Result<(), Failure>)
      requires Valid()
      modifies Repr
      ensures Valid() && Repr == old(Repr)
      ensures (result, View()) == Annotate(old(View()), recordId, timestamp, note)
    {
      ghost var m := View();
      if recordId !in records {
        return Err(RecordNotFound);
      }
      Distinct();
      RecordAddNotes(recordId, note, timestamp);
      Reassemble(recordId, m, m[recordId].(notes := AppendNote(m[recordId].notes, timestamp, note)));
      AnnotateEffect(m, capacity, recordId, timestamp, note);
      result := Ok(());
    }

    /** `self.records[record_id].add_notes(note)`; every other record keeps its view. */
    method RecordAddNotes(recordId: int, note: string, timestamp: string)
      requires Owned() && recordId in records
      requires forall k | k in records && k != recordId :: records[k] != records[recordId]
      modifies records[recordId]
      ensures Owned()
      ensures records[recordId].View() == old(records[recordId].View()).(notes :=
                AppendNote(old(records[recordId].notes), timestamp, note))
      ensures forall k | k in records && k != recordId :: records[k].View() == old(records[k].View())
    {
      records[recordId].AddNotes(note, timestamp);
    }

    /**
     * `get_medical_history`: the summary of the record that would be written
     * to its file, or a refusal for an unknown record.
     */
    method GetMedicalHistory(recordId: int) returns (result: Result<Report, Failure>)
      requires Valid()
      ensures result == MedicalHistory(View(), recordId)
    {
      if recordId !in records {
        return Err(RecordNotFound);
      }
      var report := records[recordId].GetSummary();
      result := Ok(report);
    }
  }
}
