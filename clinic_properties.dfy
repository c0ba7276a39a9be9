/**
 * What the clinic's operations guarantee, proved about the value-level
 * definitions of module ClinicState: the open-slot accounting, the capacity
 * bound, unique identifiers, the payment rules and the summary text.
 */
module ClinicProperties {
  import opened Wrappers
  import opened Text
  import opened ServiceLine
  import opened ClinicState

  // ------------------------------------------------------ counting open

  lemma {:induction false} CountOpenAppend(appointments: seq<AppointmentState>, a: AppointmentState)
    ensures CountOpen(appointments + [a]) == CountOpen(appointments) + OpenWeight(a)
  {
    assert (appointments + [a])[..|appointments|] == appointments;
  }

  /** Replacing one appointment changes the open count by the difference of the two. */
  lemma {:induction false} CountOpenUpdate(appointments: seq<AppointmentState>, i: nat, a: AppointmentState)
    requires i < |appointments|
    ensures CountOpen(appointments[i := a]) == CountOpen(appointments) - OpenWeight(appointments[i]) + OpenWeight(a)
    decreases |appointments|
  {
    var n := |appointments| - 1;
    if i < n {
      assert appointments[i := a][..n] == appointments[..n][i := a];
      CountOpenUpdate(appointments[..n], i, a);
    } else {
      assert appointments[i := a][..n] == appointments[..n];
    }
  }

  /** The sum over a set of keys does not depend on which key is taken first. */
  lemma {:induction false} OpenInPick(m: Records, keys: set<int>, k: int)
    requires keys <= m.Keys && k in keys
    ensures OpenIn(m, keys) == CountOpen(m[k].appointments) + OpenIn(m, keys - {k})
    decreases keys
  {
    NonEmptyHasMember(keys);
    var j :| j in keys && OpenIn(m, keys) == CountOpen(m[j].appointments) + OpenIn(m, keys - {j});
    if j != k {
      OpenInPick(m, keys - {j}, k);
      OpenInPick(m, keys - {k}, j);
      assert keys - {j} - {k} == keys - {k} - {j};
    }
  }

  /** Replacing the record under key `k` changes the sum by that record's difference. */
  lemma {:induction false} OpenInUpdate(m: Records, keys: set<int>, k: int, r: RecordState)
    requires keys <= m.Keys && k in m
    ensures OpenIn(m[k := r], keys)
            == OpenIn(m, keys) + (if k in keys then CountOpen(r.appointments) - CountOpen(m[k].appointments) else 0)
    decreases keys
  {
    if keys != {} {
      NonEmptyHasMember(keys);
      var j :| j in keys;
      OpenInPick(m, keys, j);
      OpenInPick(m[k := r], keys, j);
      OpenInUpdate(m, keys - {j}, k, r);
    }
  }

  /** A record under a new key leaves the sum over the old keys alone. */
  lemma {:induction false} OpenInInsert(m: Records, keys: set<int>, k: int, r: RecordState)
    requires keys <= m.Keys && k !in m
    ensures OpenIn(m[k := r], keys) == OpenIn(m, keys)
    decreases keys
  {
    if keys != {} {
      NonEmptyHasMember(keys);
      var j :| j in keys;
      OpenInPick(m, keys, j);
      OpenInPick(m[k := r], keys, j);
      OpenInInsert(m, keys - {j}, k, r);
    }
  }

  /** Filing a new record adds its open appointments to the clinic's count. */
  lemma OpenCountInsert(m: Records, k: int, r: RecordState)
    requires k !in m
    ensures OpenCount(m[k := r]) == OpenCount(m) + CountOpen(r.appointments)
  {
    var m' := m[k := r];
    assert m'.Keys - {k} == m.Keys;
    OpenInPick(m', m'.Keys, k);
    OpenInInsert(m, m.Keys, k, r);
  }

  /** Replacing a record changes the clinic's count by that record's difference. */
  lemma OpenCountUpdate(m: Records, k: int, r: RecordState)
    requires k in m
    ensures OpenCount(m[k := r]) == OpenCount(m) - CountOpen(m[k].appointments) + CountOpen(r.appointments)
  {
    assert m[k := r].Keys == m.Keys;
    OpenInUpdate(m, m.Keys, k, r);
  }

  /** Replacing one appointment changes the clinic's count by the difference of the two. */
  lemma OpenCountUpdateAppointment(m: Records, k: int, i: nat, a: AppointmentState)
    requires k in m && i < |m[k].appointments|
    ensures OpenCount(UpdateAppointment(m, k, i, a))
            == OpenCount(m) - OpenWeight(m[k].appointments[i]) + OpenWeight(a)
  {
    CountOpenUpdate(m[k].appointments, i, a);
    OpenCountUpdate(m, k, m[k].(appointments := m[k].appointments[i := a]));
  }

  // ------------------------------------------------- invariant, piecewise

  /** Two states whose records and appointments carry the same ids in the same places. */
  ghost predicate SameIds(m: Records, m': Records)
  {
    && m'.Keys == m.Keys
    && (forall k | k in m :: m'[k].id == m[k].id && |m'[k].appointments| == |m[k].appointments|)
    && (forall k, j | k in m && 0 <= j < |m[k].appointments| :: m'[k].appointments[j].id == m[k].appointments[j].id)
  }

  lemma SameIdsUsed(m: Records, m': Records, id: int)
    requires SameIds(m, m') && IdUsed(m, id)
    ensures IdUsed(m', id)
  {
    var k :| k in m && (m[k].id == id || HasAppointmentId(m[k].appointments, id));
    if m[k].id != id {
      var j :| 0 <= j < |m[k].appointments| && m[k].appointments[j].id == id;
      assert m'[k].appointments[j].id == id;
    }
  }

  /** The id invariants and the set of used ids depend on nothing but the ids. */
  lemma SameIdsTransfer(m: Records, m': Records)
    requires SameIds(m, m') && KeysAreIds(m) && UniqueIds(m) && IdsInRange(m)
    ensures KeysAreIds(m') && UniqueIds(m') && IdsInRange(m')
    ensures forall id :: IdUsed(m', id) <==> IdUsed(m, id)
  {
    forall id ensures IdUsed(m', id) <==> IdUsed(m, id) {
      if IdUsed(m, id) {
        SameIdsUsed(m, m', id);
      }
      if IdUsed(m', id) {
        SameIdsUsed(m', m, id);
      }
    }
  }

  /** An appointment replaced by one with the same id keeps every id invariant. */
  lemma UpdateKeepsIds(m: Records, k: int, i: nat, a: AppointmentState)
    requires k in m && i < |m[k].appointments| && a.id == m[k].appointments[i].id
    requires KeysAreIds(m) && UniqueIds(m) && IdsInRange(m)
    ensures var m' := UpdateAppointment(m, k, i, a);
      KeysAreIds(m') && UniqueIds(m') && IdsInRange(m')
      && forall id :: IdUsed(m', id) <==> IdUsed(m, id)
  {
    SameIdsTransfer(m, UpdateAppointment(m, k, i, a));
  }

  lemma UpdateKeepsPayments(m: Records, k: int, i: nat, a: AppointmentState)
    requires k in m && i < |m[k].appointments|
    requires PaymentsConsistent(m) && PaymentConsistent(a)
    ensures PaymentsConsistent(UpdateAppointment(m, k, i, a))
  {
  }

  // --------------------------------------------------------------- payment

  /**
   * One payment: a fully paid appointment, a non-number and an amount over
   * what is left are refused and change nothing; otherwise the amount is
   * added and the status becomes fully paid exactly when the cost is
   * reached, partly paid otherwise. The open/closed status plays no part.
   */
  lemma ApplyPaymentRules(a: AppointmentState, amount: Option<real>)
    ensures var (result, a') := ApplyPayment(a, amount);
      && (result.Err? ==> a' == a)
      && (result == Err(AlreadyFullyPaid) <==> a.paymentStatus == FullyPaid)
      && ((a.paymentStatus != FullyPaid && amount.Some? && amount.value > Remaining(a))
            ==> result == Err(AmountExceedsDue(Remaining(a))))
      && (result.Ok? <==> a.paymentStatus != FullyPaid && amount.Some? && amount.value <= Remaining(a))
      && (result.Ok? ==>
            && a'.amountPaid == a.amountPaid + amount.value
            && a'.amountPaid <= a.cost as real
            && a'.paymentStatus == result.value
            && (a'.paymentStatus == FullyPaid <==> a'.amountPaid >= a.cost as real)
            && (a'.paymentStatus == PartlyPaid <==> a'.amountPaid < a.cost as real)
            && a'.(amountPaid := a.amountPaid, paymentStatus := a.paymentStatus) == a)
      && ApplyPayment(a.(status := Closed), amount) == (result, a'.(status := Closed))
  {
  }

  /** Payments keep the bookkeeping consistent, whatever the amount's sign. */
  lemma ApplyPaymentKeepsConsistency(a: AppointmentState, amount: Option<real>)
    requires PaymentConsistent(a)
    ensures PaymentConsistent(ApplyPayment(a, amount).1)
  {
  }

  /** With a non-negative amount the amount paid never goes down nor below zero. */
  lemma ApplyPaymentNonNegative(a: AppointmentState, amount: Option<real>)
    requires 0.0 <= a.amountPaid
    requires amount.Some? ==> 0.0 <= amount.value
    ensures a.amountPaid <= ApplyPayment(a, amount).1.amountPaid
  {
  }

  /**
   * `pay_for_services` on the whole clinic: a refusal changes nothing, a
   * payment touches only the first appointment with the id, the open count
   * is unchanged and the invariant is kept.
   */
  lemma PayEffect(m: Records, capacity: int, recordId: int, appointmentId: int, amount: Option<real>)
    requires Inv(m, capacity)
    ensures var (result, m') := Pay(m, recordId, appointmentId, amount);
      && Inv(m', capacity)
      && OpenCount(m') == OpenCount(m)
      && (result.Err? ==> m' == m)
      && (result == Err(RecordNotFound) <==> recordId !in m)
      && (result == Err(AppointmentNotFound) <==>
            recordId in m && !HasAppointmentId(m[recordId].appointments, appointmentId))
      && (result.Ok? <==>
            && recordId in m
            && FindAppointment(m[recordId].appointments, appointmentId).Some?
            && ApplyPayment(m[recordId].appointments[FindAppointment(m[recordId].appointments, appointmentId).value],
                            amount).0.Ok?)
      && (result.Ok? ==>
            var i := FindAppointment(m[recordId].appointments, appointmentId).value;
            m' == UpdateAppointment(m, recordId, i, ApplyPayment(m[recordId].appointments[i], amount).1))
  {
    var (result, m') := Pay(m, recordId, appointmentId, amount);
    if recordId in m {
      var found := FindAppointment(m[recordId].appointments, appointmentId);
      if found.Some? {
        var i := found.value;
        var a := m[recordId].appointments[i];
        ApplyPaymentRules(a, amount);
        if result.Ok? {
          var a' := ApplyPayment(a, amount).1;
          ApplyPaymentKeepsConsistency(a, amount);
          UpdateKeepsIds(m, recordId, i, a');
          UpdateKeepsPayments(m, recordId, i, a');
          OpenCountUpdateAppointment(m, recordId, i, a');
        }
      }
    }
  }

  // ----------------------------------------------------------------- close

  /**
   * `close_appointment`: only the first appointment with the id is closed,
   * closing an open one frees exactly one slot, and the invariant is kept.
   */
  lemma CloseEffect(m: Records, capacity: int, recordId: int, appointmentId: int)
    requires Inv(m, capacity)
    ensures var (result, m') := Close(m, recordId, appointmentId);
      && Inv(m', capacity)
      && (result.Err? ==> m' == m)
      && (result == Err(RecordNotFound) <==> recordId !in m)
      && (result == Err(AppointmentNotFound) <==>
            recordId in m && !HasAppointmentId(m[recordId].appointments, appointmentId))
      && (result.Ok? ==>
            var i := FindAppointment(m[recordId].appointments, appointmentId).value;
            && m' == UpdateAppointment(m, recordId, i, m[recordId].appointments[i].(status := Closed))
            && OpenSlots(m', capacity) == OpenSlots(m, capacity) + OpenWeight(m[recordId].appointments[i]))
  {
    var (result, m') := Close(m, recordId, appointmentId);
    if result.Ok? {
      var i := FindAppointment(m[recordId].appointments, appointmentId).value;
      var closed := MarkClosed(m[recordId].appointments[i]);
      UpdateKeepsIds(m, recordId, i, closed);
      UpdateKeepsPayments(m, recordId, i, closed);
      OpenCountUpdateAppointment(m, recordId, i, closed);
    }
  }

  /** Closing the same appointment twice is the same as closing it once. */
  lemma CloseIdempotent(m: Records, recordId: int, appointmentId: int)
    ensures var (result, m') := Close(m, recordId, appointmentId);
      Close(m', recordId, appointmentId) == (result, m')
  {
    var (result, m') := Close(m, recordId, appointmentId);
    if result.Ok? {
      var i := FindAppointment(m[recordId].appointments, appointmentId).value;
      var closed := MarkClosed(m[recordId].appointments[i]);
      var apps' := m'[recordId].appointments;
      assert forall j | 0 <= j < |apps'| :: apps'[j].id == m[recordId].appointments[j].id;
      assert FindAppointment(apps', appointmentId) == Some(i);
      assert apps'[i := MarkClosed(apps'[i])] == apps';
      assert m'[recordId].(appointments := apps') == m'[recordId];
      assert UpdateAppointment(m', recordId, i, MarkClosed(apps'[i])) == m';
      assert Close(m', recordId, appointmentId) == (Ok(()), UpdateAppointment(m', recordId, i, MarkClosed(apps'[i])));
    }
  }

  // ------------------------------------------------------- add appointment

  /** The cost stored with a new appointment is the sum of the prices of its services. */
  lemma {:induction false} TotalIsPriceSum(catalog: map<string, Service>, choices: seq<string>)
    ensures Total(catalog, choices) == PriceSum(Selected(catalog, choices))
  {
    if choices != [] {
      var init := choices[..|choices| - 1];
      var last := choices[|choices| - 1];
      TotalIsPriceSum(catalog, init);
      if last in catalog {
        var s := Selected(catalog, choices);
        assert s[..|s| - 1] == Selected(catalog, init);
      } else {
        assert Selected(catalog, choices) == Selected(catalog, init);
      }
    }
  }

  /** Choosing in two rounds selects the services of both rounds, in order. */
  lemma {:induction false} SelectedConcat(catalog: map<string, Service>, first: seq<string>, second: seq<string>)
    ensures Selected(catalog, first + second) == Selected(catalog, first) + Selected(catalog, second)
    decreases |second|
  {
    if second != [] {
      var init := second[..|second| - 1];
      assert (first + second)[..|first + second| - 1] == first + init;
      SelectedConcat(catalog, first, init);
    } else {
      assert first + second == first;
    }
  }

  /** Every selected service is a catalogue entry, and invalid choices add nothing. */
  lemma {:induction false} SelectedFromCatalog(catalog: map<string, Service>, choices: seq<string>)
    ensures |Selected(catalog, choices)| <= |choices|
    ensures forall i | 0 <= i < |Selected(catalog, choices)| :: Selected(catalog, choices)[i] in catalog.Values
    ensures (forall i | 0 <= i < |choices| :: choices[i] in catalog) ==> |Selected(catalog, choices)| == |choices|
    ensures (forall i | 0 <= i < |choices| :: choices[i] !in catalog) ==> Selected(catalog, choices) == []
  {
    if choices != [] {
      var init := choices[..|choices| - 1];
      SelectedFromCatalog(catalog, init);
      assert forall i | 0 <= i < |init| :: init[i] == choices[i];
    }
  }

  /** The first draw not in use is the one the retry loop stops at. */
  lemma FirstFreeIsFirstUnused(m: Records, draws: seq<int>, n: nat)
    requires n < |draws| && !IdUsed(m, draws[n])
    requires forall j | 0 <= j < n :: IdUsed(m, draws[j])
    ensures HasFreeDraw(m, draws) && FirstFree(m, draws) == draws[n]
  {
    var id := FirstFree(m, draws);
    var i :| 0 <= i < |draws| && draws[i] == id && forall j | 0 <= j < i :: IdUsed(m, draws[j]);
  }

  /** While the draws tried so far are all in use, a free one is still ahead. */
  lemma UnusedDrawAhead(m: Records, draws: seq<int>, n: nat)
    requires HasFreeDraw(m, draws) && n < |draws|
    requires forall j | 0 <= j <= n :: IdUsed(m, draws[j])
    ensures n + 1 < |draws|
  {
    var i :| 0 <= i < |draws| && !IdUsed(m, draws[i]);
    assert n < i;
  }

  /** A fresh identifier lies in the range `randint(1000, 9999)` draws from. */
  lemma FirstFreeInRange(m: Records, draws: seq<int>)
    requires HasFreeDraw(m, draws) && DrawsInRange(draws)
    ensures InIdRange(FirstFree(m, draws))
  {
  }

  /** A draw that is not in use is neither a record key nor an appointment id. */
  lemma FreeIdIsFresh(m: Records, id: int)
    requires KeysAreIds(m) && !IdUsed(m, id)
    ensures id !in m
    ensures forall k, j | k in m && 0 <= j < |m[k].appointments| :: m[k].appointments[j].id != id
  {
    forall k, j | k in m && 0 <= j < |m[k].appointments|
      ensures m[k].appointments[j].id != id
    {
      assert !HasAppointmentId(m[k].appointments, id);
    }
  }

  /**
   * `add_appointment`: with no open slot nothing changes, whatever the record
   * id; an unknown record changes nothing; otherwise exactly one open, unpaid
   * appointment is appended to that record, priced at the sum of the valid
   * choices, under an id nothing else uses. The capacity bound and the rest
   * of the invariant are kept.
   */
  lemma AdmitEffect(m: Records, capacity: int, catalog: map<string, Service>, recordId: int,
                    date: string, choices: seq<string>, draws: seq<int>)
    requires Inv(m, capacity) && DrawsInRange(draws)
    requires OpenSlots(m, capacity) > 0 && recordId in m ==> HasFreeDraw(m, draws)
    ensures var (result, m') := AdmitAppointment(m, capacity, catalog, recordId, date, choices, draws);
      && Inv(m', capacity)
      && (result.Err? ==> m' == m)
      && (result == Err(NoOpenSlots) <==> OpenSlots(m, capacity) <= 0)
      && (result == Err(RecordNotFound) <==> OpenSlots(m, capacity) > 0 && recordId !in m)
      && (result.Ok? <==> OpenSlots(m, capacity) > 0 && recordId in m)
      && (result.Ok? ==>
            var services := Selected(catalog, choices);
            var a := NewAppointment(result.value, date, services, PriceSum(services));
            && recordId in m
            && !IdUsed(m, result.value) && InIdRange(result.value)
            && m' == m[recordId := m[recordId].(appointments := m[recordId].appointments + [a])]
            && OpenCount(m') == OpenCount(m) + 1)
  {
    var (result, m') := AdmitAppointment(m, capacity, catalog, recordId, date, choices, draws);
    if result.Ok? {
      TotalIsPriceSum(catalog, choices);
      var a := NewAppointment(result.value, date, Selected(catalog, choices), Total(catalog, choices));
      AppendEffect(m, capacity, recordId, a);
    }
  }

  /**
   * Appending an open, unpaid appointment under a fresh id while a slot is
   * free takes exactly that slot and keeps the invariant.
   */
  lemma AppendEffect(m: Records, capacity: int, k: int, a: AppointmentState)
    requires Inv(m, capacity) && k in m && OpenCount(m) < capacity
    requires !IdUsed(m, a.id) && InIdRange(a.id)
    requires a.status == Open && a.paymentStatus == NotPaid && a.amountPaid == 0.0
    ensures var m' := m[k := m[k].(appointments := m[k].appointments + [a])];
      Inv(m', capacity) && OpenCount(m') == OpenCount(m) + 1
  {
    var r' := m[k].(appointments := m[k].appointments + [a]);
    CountOpenAppend(m[k].appointments, a);
    OpenCountUpdate(m, k, r');
    AppendKeepsIds(m, k, a);
  }

  /** Appending an appointment under a fresh id keeps every id invariant. */
  lemma AppendKeepsIds(m: Records, k: int, a: AppointmentState)
    requires k in m && KeysAreIds(m) && UniqueIds(m) && IdsInRange(m) && PaymentsConsistent(m)
    requires !IdUsed(m, a.id) && InIdRange(a.id) && PaymentConsistent(a)
    ensures var m' := m[k := m[k].(appointments := m[k].appointments + [a])];
      KeysAreIds(m') && UniqueIds(m') && IdsInRange(m') && PaymentsConsistent(m')
  {
    var n := |m[k].appointments|;
    var m' := m[k := m[k].(appointments := m[k].appointments + [a])];
    FreeIdIsFresh(m, a.id);
    assert forall k2, j | k2 in m' && 0 <= j < |m'[k2].appointments| && !(k2 == k && j == n) ::
      m'[k2].appointments[j] == m[k2].appointments[j];
    assert m'[k].appointments[n] == a;
  }

  // ---------------------------------------------------------- new record

  /**
   * `create_animal_record`: the record is filed under an id nothing else
   * uses, with no notes and no appointments; nothing else changes and the
   * invariant is kept.
   */
  lemma CreateRecordEffect(m: Records, capacity: int, draws: seq<int>, animalType: string, name: string,
                           sex: Sex, birthday: string, breed: string, contactPerson: string, phoneNumber: string)
    requires Inv(m, capacity) && DrawsInRange(draws) && HasFreeDraw(m, draws)
    ensures var (id, m') := CreateRecord(m, draws, animalType, name, sex, birthday, breed, contactPerson, phoneNumber);
      && Inv(m', capacity)
      && id !in m && !IdUsed(m, id) && InIdRange(id)
      && m'.Keys == m.Keys + {id}
      && (forall k | k in m :: m'[k] == m[k])
      && m'[id].notes == "" && m'[id].appointments == []
      && OpenCount(m') == OpenCount(m)
  {
    var (id, m') := CreateRecord(m, draws, animalType, name, sex, birthday, breed, contactPerson, phoneNumber);
    FreeIdIsFresh(m, id);
    OpenCountInsert(m, id, m'[id]);
  }

  // ----------------------------------------------------------------- notes

  /** `add_notes`: the old notes stay a prefix; only that record's notes change. */
  lemma AnnotateEffect(m: Records, capacity: int, recordId: int, timestamp: string, note: string)
    requires Inv(m, capacity)
    ensures var (result, m') := Annotate(m, recordId, timestamp, note);
      && Inv(m', capacity)
      && (result.Err? <==> recordId !in m)
      && (result.Err? ==> m' == m)
      && (result.Ok? ==>
            && m'.Keys == m.Keys
            && (forall k | k in m && k != recordId :: m'[k] == m[k])
            && m'[recordId].appointments == m[recordId].appointments
            && m'[recordId].notes[..|m[recordId].notes|] == m[recordId].notes
            && m'[recordId].notes[|m[recordId].notes|..] == timestamp + ": " + note + "\n")
  {
    var (result, m') := Annotate(m, recordId, timestamp, note);
    if result.Ok? {
      assert m'[recordId].notes == m[recordId].notes + (timestamp + ": " + note + "\n");
      RecordDataKeepsInv(m, capacity, recordId, m'[recordId]);
    }
  }

  /** A record whose id and appointments stay as they were keeps the invariant. */
  lemma RecordDataKeepsInv(m: Records, capacity: int, k: int, r: RecordState)
    requires Inv(m, capacity) && k in m
    requires r.id == m[k].id && r.appointments == m[k].appointments
    ensures Inv(m[k := r], capacity)
  {
    var m' := m[k := r];
    OpenCountUpdate(m, k, r);
    SameIdsTransfer(m, m');
    assert PaymentsConsistent(m');
  }

  // --------------------------------------------------------------- summary

  /** The names left once the leading empty ones are dropped. */
  function DropLeadingEmpty(names: seq<string>): seq<string>
  {
    if names == [] then [] else if names[0] == "" then DropLeadingEmpty(names[1..]) else names
  }

  lemma {:induction false} DropLeadingEmptySnoc(names: seq<string>, x: string)
    ensures DropLeadingEmpty(names) != [] ==> DropLeadingEmpty(names + [x]) == DropLeadingEmpty(names) + [x]
    ensures DropLeadingEmpty(names) == [] ==> DropLeadingEmpty(names + [x]) == (if x == "" then [] else [x])
    ensures DropLeadingEmpty(names) != [] ==> DropLeadingEmpty(names)[0] != ""
  {
    if names != [] {
      assert (names + [x])[1..] == names[1..] + [x];
      DropLeadingEmptySnoc(names[1..], x);
    }
  }

  lemma {:induction false} JoinNotEmpty(names: seq<string>, sep: string)
    requires names != [] && names[0] != ""
    ensures Join(names, sep) != ""
  {
    if |names| > 1 {
      assert |Join(names, sep)| >= |names[0]|;
    }
  }

  /**
   * The service text of a summary row is the ", "-join of the names once the
   * leading empty names are dropped; in particular it is the plain join when
   * no name is empty.
   */
  lemma {:induction false} JoinNamesIsJoin(names: seq<string>)
    ensures JoinNames(names) == Join(DropLeadingEmpty(names), ", ")
    ensures (forall i | 0 <= i < |names| :: names[i] != "") ==> JoinNames(names) == Join(names, ", ")
  {
    if names != [] {
      var init := names[..|names| - 1];
      var x := names[|names| - 1];
      assert names == init + [x];
      JoinNamesIsJoin(init);
      DropLeadingEmptySnoc(init, x);
      var d := DropLeadingEmpty(init);
      if d != [] {
        JoinNotEmpty(d, ", ");
        JoinSnoc(d, x, ", ");
      }
    }
  }

  /**
   * What a reader of `get_summary` can rely on, for an appointment whose
   * payment bookkeeping is consistent: its row carries its id, date and
   * status words; the services column is the plain ", "-join of the names
   * when none is empty; and the amount left is 0 once fully paid, positive
   * while partly paid, and the whole cost while nothing is paid.
   */
  lemma SummaryRowsFaithful(r: RecordState, i: nat)
    requires i < |r.appointments| && PaymentConsistent(r.appointments[i])
    ensures var a := r.appointments[i];
      var row := Summary(r).rows[i];
      && |Summary(r).rows| == |r.appointments|
      && row.id == a.id && row.date == a.date && row.cost == a.cost
      && row.status == StatusText(a.status)
      && row.paymentStatus == PaymentStatusText(a.paymentStatus)
      && ((forall j | 0 <= j < |a.services| :: a.services[j].name != "") ==>
            row.services == Join(ServiceNames(a.services), ", "))
      && (a.paymentStatus == FullyPaid ==> row.remaining == 0.0)
      && (a.paymentStatus == PartlyPaid ==> row.remaining > 0.0)
      && (a.paymentStatus == NotPaid ==> row.remaining == a.cost as real)
  {
    JoinNamesIsJoin(ServiceNames(r.appointments[i].services));
  }
}
