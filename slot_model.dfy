/** The storage side of `SlotService`: the two repositories as values, and the idempotent
    "insert or merge" of one ingested slot (`addSlot`) and of a batch (`addSlots`) as
    functions over them. The class in module SlotServices runs these steps imperatively
    and is proved to agree with the functions here. */
module SlotModel {
  import opened Wrappers
  import opened Validation

  /** The identifier system under which a source's own ids are recorded
      (`ORIGINAL_ID_SYSTEM`). Its value is defined in common.Constants, which is not part of
      this model; nothing here depends on it. */
  const OriginalIdSystem: string

  /** The profile every ingested slot is validated against. */
  const SlotProfile: string := "http://fhir-registry.smarthealthit.org/StructureDefinition/vaccine-slot"

  datatype Identifier = Identifier(system: string, value: string)

  /** A stored schedule: its database key and the identifiers it carries. */
  datatype Schedule = Schedule(key: nat, identifiers: set<Identifier>)

  /** An incoming FHIR vaccine slot: its id, the reference to its schedule, and the rest of
      the resource, which the core never looks into. */
  datatype VaccineSlot<P> = VaccineSlot(id: string, scheduleRef: string, fields: P)

  /** A stored slot: its id in `OriginalIdSystem`, the key of its parent schedule, and its
      business fields. */
  datatype SlotEntity<P> = SlotEntity(originalId: string, schedule: nat, fields: P)

  /** Both repositories. Slots are keyed by their database key; `nextKey` is the key the
      next inserted slot receives. */
  datatype Store<P> = Store(schedules: seq<Schedule>, slots: map<nat, SlotEntity<P>>, nextKey: nat)

  /** The two exceptions `addSlot` throws: `ValidationFailureException` and the
      `IllegalStateException` for a missing schedule. */
  datatype SlotError = ValidationFailure(issues: seq<string>) | MissingSchedule(message: string)

  const MissingScheduleMessage: string := "Cannot add to missing schedule"

  /** What one `addSlot` returns, together with the store it leaves behind. */
  datatype Upserted<P> = Upserted(result: Result<SlotEntity<P>, SlotError>, store: Store<P>)

  /** What one `addSlots` returns, together with the store it leaves behind. */
  datatype UpsertedAll<P> = UpsertedAll(result: Result<seq<SlotEntity<P>>, SlotError>, store: Store<P>)

  // ---------------------------------------------------------------------------------------
  // Validation

  /** `validateSlot`: the resource is checked against `SlotProfile`; a failing result
      becomes a `ValidationFailure` carrying the validator's issues. */
  function ValidateSlot<P>(validator: (VaccineSlot<P>, string) -> ValidationResult, resource: VaccineSlot<P>)
    : (r: Option<SlotError>)
    ensures r.Some? <==> !validator(resource, SlotProfile).successful
    ensures r.Some? ==> r.value == ValidationFailure(validator(resource, SlotProfile).issues)
  {
    var result := validator(resource, SlotProfile);
    if !result.successful then Some(ValidationFailure(result.issues)) else None
  }

  // ---------------------------------------------------------------------------------------
  // Schedule lookup

  predicate HasOriginalId(s: Schedule, ref: string) {
    Identifier(OriginalIdSystem, ref) in s.identifiers
  }

  /** Some schedule carries identifier `(OriginalIdSystem, ref)`. */
  ghost predicate ScheduleExists(schedules: seq<Schedule>, ref: string) {
    exists s :: s in schedules && HasOriginalId(s, ref)
  }

  /** The schedules carrying identifier `(OriginalIdSystem, ref)`, in repository order
      (`scheduleRepository.findAll(hasIdentifier(...))`). */
  function SchedulesWithIdentifier(schedules: seq<Schedule>, ref: string): (r: seq<Schedule>)
    ensures |r| <= |schedules|
    ensures forall s :: s in r <==> s in schedules && HasOriginalId(s, ref)
  {
    if schedules == [] then []
    else
      var rest := SchedulesWithIdentifier(schedules[1..], ref);
      if HasOriginalId(schedules[0], ref) then [schedules[0]] + rest else rest
  }

  /** The schedule `addSlot` links a new slot to is the earliest matching one in
      repository order. */
  lemma {:induction false} FirstMatchIsEarliest(schedules: seq<Schedule>, ref: string)
    requires SchedulesWithIdentifier(schedules, ref) != []
    ensures exists i :: (0 <= i < |schedules| && schedules[i] == SchedulesWithIdentifier(schedules, ref)[0]
                         && forall j :: 0 <= j < i ==> !HasOriginalId(schedules[j], ref))
  {
    if HasOriginalId(schedules[0], ref) {
      assert schedules[0] == SchedulesWithIdentifier(schedules, ref)[0];
    } else {
      var tail := schedules[1..];
      assert SchedulesWithIdentifier(schedules, ref) == SchedulesWithIdentifier(tail, ref);
      FirstMatchIsEarliest(tail, ref);
      var i :| 0 <= i < |tail| && tail[i] == SchedulesWithIdentifier(tail, ref)[0]
        && forall j :: 0 <= j < i ==> !HasOriginalId(tail[j], ref);
      assert schedules[i + 1] == tail[i];
      forall j | 0 <= j < i + 1 ensures !HasOriginalId(schedules[j], ref) {
        if j > 0 { assert schedules[j] == tail[j - 1]; }
      }
    }
  }

  // ---------------------------------------------------------------------------------------
  // Slot lookup and the store invariant

  /** The keys of the slots whose original id is `id` (`withIdentifier(ORIGINAL_ID_SYSTEM, id)`). */
  function SlotsWithId<P>(slots: map<nat, SlotEntity<P>>, id: string): set<nat> {
    set k | k in slots && slots[k].originalId == id
  }

  /** At most one slot per original id. */
  ghost predicate UniqueIds<P>(slots: map<nat, SlotEntity<P>>) {
    forall k1, k2 :: k1 in slots && k2 in slots && slots[k1].originalId == slots[k2].originalId ==> k1 == k2
  }

  /** The store invariant: ids are unique and every key in use lies below `nextKey`. */
  ghost predicate StoreValid<P>(st: Store<P>) {
    && UniqueIds(st.slots)
    && forall k :: k in st.slots ==> k < st.nextKey
  }

  /** Under the invariant, the lookup by original id finds at most one slot, which is
      what makes `findOne` well defined. */
  lemma AtMostOneMatch<P>(slots: map<nat, SlotEntity<P>>, id: string, k1: nat, k2: nat)
    requires UniqueIds(slots)
    requires k1 in SlotsWithId(slots, id) && k2 in SlotsWithId(slots, id)
    ensures k1 == k2
  {
  }

  // ---------------------------------------------------------------------------------------
  // The upsert

  /** `SlotEntity.fromFHIR`: a new slot for `resource`, linked to `schedule`. */
  function FromFhir<P>(schedule: Schedule, resource: VaccineSlot<P>): SlotEntity<P> {
    SlotEntity(resource.id, schedule.key, resource.fields)
  }

  /** `SlotEntity.merge`: combines a stored slot with an incoming candidate. Which fields
      it takes from which side, the schedule link included, is left to this function. */
  type SlotMerge<!P> = (SlotEntity<P>, SlotEntity<P>) -> SlotEntity<P>

  /** `existing.merge(candidate)`: the slot `merge` produces, still carrying the original
      id it was looked up by (which the existing slot and the candidate share). */
  function MergeInto<P>(existing: SlotEntity<P>, candidate: SlotEntity<P>, merge: SlotMerge<P>): SlotEntity<P> {
    merge(existing, candidate).(originalId := existing.originalId)
  }

  /** `addSlot`: validate, find the parent schedule, then merge into the slot with the
      same original id or insert a new one. */
  ghost function Upsert<P>(st: Store<P>, validator: (VaccineSlot<P>, string) -> ValidationResult,
                           merge: SlotMerge<P>, resource: VaccineSlot<P>): (o: Upserted<P>)
    // schedules are only read
    ensures o.store.schedules == st.schedules
    // a failure leaves both repositories as they were
    ensures o.result.Failure? ==> o.store == st
    // on success the returned slot is the one now stored for the resource's id
    ensures o.result.Success? ==> (o.result.value.originalId == resource.id
                                   && exists k :: k in o.store.slots && o.store.slots[k] == o.result.value)
  {
    var invalid := ValidateSlot(validator, resource);
    if invalid.Some? then Upserted(Failure(invalid.value), st)
    else
      var matching := SchedulesWithIdentifier(st.schedules, resource.scheduleRef);
      if matching == [] then Upserted(Failure(MissingSchedule(MissingScheduleMessage)), st)
      else
        var candidate := FromFhir(matching[0], resource);
        var existing := SlotsWithId(st.slots, resource.id);
        if existing == {} then
          var inserted := st.slots[st.nextKey := candidate];
          assert inserted[st.nextKey] == candidate;
          Upserted(Success(candidate), st.(slots := inserted, nextKey := st.nextKey + 1))
        else
          var k :| k in existing;
          var merged := MergeInto(st.slots[k], candidate, merge);
          assert st.slots[k := merged][k] == merged;
          Upserted(Success(merged), st.(slots := st.slots[k := merged]))
  }

  /** A resource the validator rejects fails with the validator's issues and changes nothing. */
  lemma InvalidResourceChangesNothing<P>(st: Store<P>, validator: (VaccineSlot<P>, string) -> ValidationResult,
                                        merge: SlotMerge<P>, resource: VaccineSlot<P>)
    requires !validator(resource, SlotProfile).successful
    ensures Upsert(st, validator, merge, resource)
      == Upserted(Failure(ValidationFailure(validator(resource, SlotProfile).issues)), st)
  {
  }

  /** A valid resource fails with "missing schedule" exactly when no schedule carries its
      schedule reference, and then changes nothing. */
  lemma MissingScheduleChangesNothing<P>(st: Store<P>, validator: (VaccineSlot<P>, string) -> ValidationResult,
                                        merge: SlotMerge<P>, resource: VaccineSlot<P>)
    requires validator(resource, SlotProfile).successful
    ensures Upsert(st, validator, merge, resource).result == Failure(MissingSchedule(MissingScheduleMessage))
      <==> !ScheduleExists(st.schedules, resource.scheduleRef)
    ensures Upsert(st, validator, merge, resource).result.Failure? ==> Upsert(st, validator, merge, resource).store == st
  {
    var matching := SchedulesWithIdentifier(st.schedules, resource.scheduleRef);
    if matching != [] {
      assert matching[0] in matching;
    }
  }

  /** The first-time insert: with no slot for the resource's id, a new slot linked to the
      first matching schedule is stored under a fresh key, the slot count grows by one and
      every other slot stays as it was. */
  lemma InsertWhenAbsent<P>(st: Store<P>, validator: (VaccineSlot<P>, string) -> ValidationResult,
                           merge: SlotMerge<P>, resource: VaccineSlot<P>)
    requires StoreValid(st)
    requires validator(resource, SlotProfile).successful
    requires SchedulesWithIdentifier(st.schedules, resource.scheduleRef) != []
    requires forall k :: k in st.slots ==> st.slots[k].originalId != resource.id
    ensures var o := Upsert(st, validator, merge, resource);
      && o.result == Success(FromFhir(SchedulesWithIdentifier(st.schedules, resource.scheduleRef)[0], resource))
      && st.nextKey !in st.slots
      && o.store.slots == st.slots[st.nextKey := o.result.value]
      && |o.store.slots| == |st.slots| + 1
      && (forall k :: k in st.slots ==> k in o.store.slots && o.store.slots[k] == st.slots[k])
  {
    assert SlotsWithId(st.slots, resource.id) == {};
    var o := Upsert(st, validator, merge, resource);
    assert o.store.slots.Keys == st.slots.Keys + {st.nextKey};
  }

  /** The merge: with a slot already stored under key `k` for the resource's id, that
      slot is replaced by its merge with the candidate, under the same key; the count and
      every other slot stay as they were. */
  lemma MergeWhenPresent<P>(st: Store<P>, validator: (VaccineSlot<P>, string) -> ValidationResult,
                           merge: SlotMerge<P>, resource: VaccineSlot<P>, k: nat)
    requires StoreValid(st)
    requires validator(resource, SlotProfile).successful
    requires SchedulesWithIdentifier(st.schedules, resource.scheduleRef) != []
    requires k in st.slots && st.slots[k].originalId == resource.id
    ensures var o := Upsert(st, validator, merge, resource);
      var candidate := FromFhir(SchedulesWithIdentifier(st.schedules, resource.scheduleRef)[0], resource);
      && o.result == Success(MergeInto(st.slots[k], candidate, merge))
      && o.store.slots == st.slots[k := o.result.value]
      && |o.store.slots| == |st.slots|
      && o.store.nextKey == st.nextKey
      && (forall j :: j in st.slots && j != k ==> j in o.store.slots && o.store.slots[j] == st.slots[j])
  {
    var o := Upsert(st, validator, merge, resource);
    var existing := SlotsWithId(st.slots, resource.id);
    assert k in existing;
    forall j | j in existing ensures j == k {
      AtMostOneMatch(st.slots, resource.id, j, k);
    }
    assert o.store.slots.Keys == st.slots.Keys;
  }

  /** `addSlot` preserves the store invariant, and afterwards exactly one slot carries
      the resource's id. */
  lemma UpsertKeepsIdsUnique<P>(st: Store<P>, validator: (VaccineSlot<P>, string) -> ValidationResult,
                               merge: SlotMerge<P>, resource: VaccineSlot<P>)
    requires StoreValid(st)
    ensures StoreValid(Upsert(st, validator, merge, resource).store)
    ensures Upsert(st, validator, merge, resource).result.Success?
      ==> |SlotsWithId(Upsert(st, validator, merge, resource).store.slots, resource.id)| == 1
  {
    var o := Upsert(st, validator, merge, resource);
    if o.result.Success? {
      var existing := SlotsWithId(st.slots, resource.id);
      if existing == {} {
        forall k | k in st.slots ensures st.slots[k].originalId != resource.id {
          assert k !in existing;
        }
        InsertWhenAbsent(st, validator, merge, resource);
        assert SlotsWithId(o.store.slots, resource.id) == {st.nextKey};
      } else {
        var k :| k in existing;
        MergeWhenPresent(st, validator, merge, resource, k);
        assert SlotsWithId(o.store.slots, resource.id) == {k};
      }
    }
  }

  /** Adding the same resource twice leaves exactly one slot for its id, and the second
      call does not allocate a new key. */
  lemma UpsertTwiceLeavesOneSlot<P>(st: Store<P>, validator: (VaccineSlot<P>, string) -> ValidationResult,
                                   merge: SlotMerge<P>, resource: VaccineSlot<P>)
    requires StoreValid(st)
    ensures var once := Upsert(st, validator, merge, resource);
      var twice := Upsert(once.store, validator, merge, resource);
      && StoreValid(twice.store)
      && (once.result.Success? ==> (&& twice.result.Success?
                                    && |SlotsWithId(twice.store.slots, resource.id)| == 1
                                    && |twice.store.slots| == |once.store.slots|
                                    && twice.store.nextKey == once.store.nextKey))
      && (once.result.Failure? ==> twice == once)
  {
    var once := Upsert(st, validator, merge, resource);
    UpsertKeepsIdsUnique(st, validator, merge, resource);
    UpsertKeepsIdsUnique(once.store, validator, merge, resource);
    if once.result.Success? {
      var k :| k in once.store.slots && once.store.slots[k] == once.result.value;
      MergeWhenPresent(once.store, validator, merge, resource, k);
    }
  }

  /** When merging is idempotent in the incoming slot (merging the same candidate again
      changes nothing, and merging a slot with itself changes nothing), redelivering a
      resource leaves the store and the result exactly as the first delivery did. */
  lemma UpsertIdempotent<P>(st: Store<P>, validator: (VaccineSlot<P>, string) -> ValidationResult,
                           merge: SlotMerge<P>, resource: VaccineSlot<P>)
    requires StoreValid(st)
    requires forall a: SlotEntity<P>, b: SlotEntity<P> {:trigger MergeInto(MergeInto(a, b, merge), b, merge)}
      :: MergeInto(MergeInto(a, b, merge), b, merge) == MergeInto(a, b, merge)
    requires forall b: SlotEntity<P> {:trigger MergeInto(b, b, merge)} :: MergeInto(b, b, merge) == b
    ensures var once := Upsert(st, validator, merge, resource);
      Upsert(once.store, validator, merge, resource) == once
  {
    var once := Upsert(st, validator, merge, resource);
    if once.result.Success? {
      var candidate := FromFhir(SchedulesWithIdentifier(st.schedules, resource.scheduleRef)[0], resource);
      var k: nat;
      if j :| j in st.slots && st.slots[j].originalId == resource.id {
        MergeWhenPresent(st, validator, merge, resource, j);
        k := j;
        assert once.store.slots[k] == MergeInto(st.slots[k], candidate, merge);
        assert MergeInto(once.store.slots[k], candidate, merge) == once.store.slots[k];
      } else {
        InsertWhenAbsent(st, validator, merge, resource);
        k := st.nextKey;
        assert once.store.slots[k] == candidate;
        assert MergeInto(candidate, candidate, merge) == candidate;
      }
      UpsertKeepsIdsUnique(st, validator, merge, resource);
      MergeWhenPresent(once.store, validator, merge, resource, k);
      assert once.store.slots[k := once.store.slots[k]] == once.store.slots;
    }
  }

  // ---------------------------------------------------------------------------------------
  // The batch

  /** `addSlots`: `addSlot` applied to the resources in order; the first failure ends the
      batch and is what the batch reports. Defined on the last element so that it follows a
      loop over the input. */
  ghost function UpsertAll<P>(st: Store<P>, validator: (VaccineSlot<P>, string) -> ValidationResult,
                              merge: SlotMerge<P>, resources: seq<VaccineSlot<P>>): (o: UpsertedAll<P>)
    ensures o.store.schedules == st.schedules
    ensures o.result.Success? ==> |o.result.value| == |resources|
    decreases |resources|
  {
    if resources == [] then UpsertedAll(Success([]), st)
    else
      var before := UpsertAll(st, validator, merge, resources[..|resources| - 1]);
      if before.result.Failure? then before
      else
        var step := Upsert(before.store, validator, merge, resources[|resources| - 1]);
        match step.result
        case Failure(e) => UpsertedAll(Failure(e), step.store)
        case Success(s) => UpsertedAll(Success(before.result.value + [s]), step.store)
  }

  /** Once a prefix of the batch has failed, the rest of the input is never looked at:
      the batch reports that failure and leaves the store where the failure left it. */
  lemma {:induction false} FailureIsFinal<P>(st: Store<P>, validator: (VaccineSlot<P>, string) -> ValidationResult,
                                            merge: SlotMerge<P>, resources: seq<VaccineSlot<P>>, n: nat)
    requires n <= |resources|
    requires UpsertAll(st, validator, merge, resources[..n]).result.Failure?
    ensures UpsertAll(st, validator, merge, resources) == UpsertAll(st, validator, merge, resources[..n])
    decreases |resources| - n
  {
    if n < |resources| {
      var longer := resources[..n + 1];
      assert longer[..n] == resources[..n];
      assert UpsertAll(st, validator, merge, longer) == UpsertAll(st, validator, merge, resources[..n]);
      FailureIsFinal(st, validator, merge, resources, n + 1);
    } else {
      assert resources[..n] == resources;
    }
  }

  /** A successful batch reports one slot per input resource, in input order, each the
      stored slot for that resource's id. */
  lemma {:induction false} UpsertAllInOrder<P>(st: Store<P>, validator: (VaccineSlot<P>, string) -> ValidationResult,
                                              merge: SlotMerge<P>, resources: seq<VaccineSlot<P>>)
    requires UpsertAll(st, validator, merge, resources).result.Success?
    ensures var r := UpsertAll(st, validator, merge, resources).result.value;
      |r| == |resources| && forall i :: 0 <= i < |r| ==> r[i].originalId == resources[i].id
  {
    if resources != [] {
      var init := resources[..|resources| - 1];
      UpsertAllInOrder(st, validator, merge, init);
    }
  }

  /** `addSlots` preserves the store invariant, whether it succeeds or fails part-way. */
  lemma {:induction false} UpsertAllKeepsIdsUnique<P>(st: Store<P>, validator: (VaccineSlot<P>, string) -> ValidationResult,
                                                     merge: SlotMerge<P>, resources: seq<VaccineSlot<P>>)
    requires StoreValid(st)
    ensures StoreValid(UpsertAll(st, validator, merge, resources).store)
  {
    if resources != [] {
      var init := resources[..|resources| - 1];
      UpsertAllKeepsIdsUnique(st, validator, merge, init);
      var before := UpsertAll(st, validator, merge, init);
      if before.result.Success? {
        UpsertKeepsIdsUnique(before.store, validator, merge, resources[|resources| - 1]);
      }
    }
  }

  /** One resource the validator rejects makes the whole batch fail: no result list is
      returned. */
  lemma {:induction false} InvalidElementFailsBatch<P>(st: Store<P>, validator: (VaccineSlot<P>, string) -> ValidationResult,
                                                      merge: SlotMerge<P>, resources: seq<VaccineSlot<P>>, i: nat)
    requires i < |resources|
    requires !validator(resources[i], SlotProfile).successful
    ensures UpsertAll(st, validator, merge, resources).result.Failure?
  {
    var init := resources[..|resources| - 1];
    if i < |resources| - 1 {
      assert init[i] == resources[i];
      InvalidElementFailsBatch(st, validator, merge, init, i);
    }
  }

  /** When every resource passes validation and names an existing schedule, the batch
      succeeds. */
  lemma {:induction false} AllAcceptableBatchSucceeds<P>(st: Store<P>, validator: (VaccineSlot<P>, string) -> ValidationResult,
                                                        merge: SlotMerge<P>, resources: seq<VaccineSlot<P>>)
    requires forall i :: 0 <= i < |resources| ==> validator(resources[i], SlotProfile).successful
    requires forall i :: 0 <= i < |resources| ==> ScheduleExists(st.schedules, resources[i].scheduleRef)
    ensures UpsertAll(st, validator, merge, resources).result.Success?
  {
    if resources != [] {
      var init := resources[..|resources| - 1];
      forall i | 0 <= i < |init|
        ensures validator(init[i], SlotProfile).successful
        ensures ScheduleExists(st.schedules, init[i].scheduleRef)
      {
        assert init[i] == resources[i];
      }
      AllAcceptableBatchSucceeds(st, validator, merge, init);
      var before := UpsertAll(st, validator, merge, init);
      var last := resources[|resources| - 1];
      var s :| s in st.schedules && HasOriginalId(s, last.scheduleRef);
      assert s in SchedulesWithIdentifier(before.store.schedules, last.scheduleRef);
    }
  }

  /** One valid resource whose schedule reference matches no stored schedule makes the
      whole batch fail: a missing parent is not skipped. */
  lemma {:induction false} MissingScheduleFailsBatch<P>(st: Store<P>, validator: (VaccineSlot<P>, string) -> ValidationResult,
                                                       merge: SlotMerge<P>, resources: seq<VaccineSlot<P>>, i: nat)
    requires i < |resources|
    requires !ScheduleExists(st.schedules, resources[i].scheduleRef)
    ensures UpsertAll(st, validator, merge, resources).result.Failure?
  {
    var init := resources[..|resources| - 1];
    if i < |resources| - 1 {
      assert init[i] == resources[i];
      MissingScheduleFailsBatch(st, validator, merge, init, i);
    } else {
      var before := UpsertAll(st, validator, merge, init);
      if before.result.Success? {
        var last := resources[|resources| - 1];
        if validator(last, SlotProfile).successful {
          MissingScheduleChangesNothing(before.store, validator, merge, last);
        }
      }
    }
  }

  /** The batch succeeds exactly when every resource passes validation and names an
      existing schedule. */
  lemma BatchSucceedsExactlyWhenAllAcceptable<P>(st: Store<P>, validator: (VaccineSlot<P>, string) -> ValidationResult,
                                                merge: SlotMerge<P>, resources: seq<VaccineSlot<P>>)
    ensures UpsertAll(st, validator, merge, resources).result.Success?
      <==> forall i :: 0 <= i < |resources| ==>
             validator(resources[i], SlotProfile).successful && ScheduleExists(st.schedules, resources[i].scheduleRef)
  {
    if forall i :: 0 <= i < |resources| ==>
         validator(resources[i], SlotProfile).successful && ScheduleExists(st.schedules, resources[i].scheduleRef) {
      AllAcceptableBatchSucceeds(st, validator, merge, resources);
    } else {
      var i :| 0 <= i < |resources| && !(validator(resources[i], SlotProfile).successful
                                        && ScheduleExists(st.schedules, resources[i].scheduleRef));
      if !validator(resources[i], SlotProfile).successful {
        InvalidElementFailsBatch(st, validator, merge, resources, i);
      } else {
        MissingScheduleFailsBatch(st, validator, merge, resources, i);
      }
    }
  }
}
