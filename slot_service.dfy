/** `SlotService`: the slot and schedule repositories it writes through, the upsert of
    ingested slots, and the choice of query for a location search. */
module SlotServices {
  import opened Wrappers
  import opened Validation
  import opened SlotModel

  /** The service with its two repositories held as fields. `validator` stands for the
      HAPI validator and `merge` for `SlotEntity.merge`; both are
      foreign to this model and fixed when the service is built. */
  class SlotService<P> {
    var schedules: seq<Schedule>
    var slots: map<nat, SlotEntity<P>>
    var nextKey: nat
    const validator: (VaccineSlot<P>, string) -> ValidationResult
    const merge: SlotMerge<P>

    /** The repositories as one value. */
    ghost function State(): Store<P>
      reads this
    {
      Store(schedules, slots, nextKey)
    }

    ghost predicate Valid()
      reads this
    {
      StoreValid(State())
    }

    /** A service over the given schedules and an empty slot repository. */
    constructor (schedules: seq<Schedule>, validator: (VaccineSlot<P>, string) -> ValidationResult, merge: SlotMerge<P>)
      ensures Valid()
      ensures this.schedules == schedules && slots == map[] && nextKey == 0
      ensures this.validator == validator && this.merge == merge
    {
      this.schedules := schedules;
      this.slots := map[];
      this.nextKey := 0;
      this.validator := validator;
      this.merge := merge;
    }

    /** `addSlot`: stores one ingested slot, merging it into the slot with the same
        original id when there is one. Keeps at most one slot per original id. */
    method AddSlot(resource: VaccineSlot<P>) returns (r: Result<SlotEntity<P>, SlotError>)
      requires Valid()
      modifies this
      ensures Valid()
      ensures Upserted(r, State()) == Upsert(old(State()), validator, merge, resource)
    {
      var invalid := ValidateSlot(validator, resource);
      if invalid.Some? {
        return Failure(invalid.value);
      }
      var schedule := SchedulesWithIdentifier(schedules, resource.scheduleRef);
      if schedule == [] {
        return Failure(MissingSchedule(MissingScheduleMessage));
      }
      var entity := FromFhir(schedule[0], resource);
      var maybeExists := SlotsWithId(slots, resource.id);
      if maybeExists != {} {
        var k :| k in maybeExists;
        ghost var chosen :| chosen in maybeExists;
        AtMostOneMatch(slots, resource.id, k, chosen);
        var existing := MergeInto(slots[k], entity, merge);
        slots := slots[k := existing];
        r := Success(existing);
      } else {
        slots := slots[nextKey := entity];
        nextKey := nextKey + 1;
        r := Success(entity);
      }
      UpsertKeepsIdsUnique(old(State()), validator, merge, resource);
    }

    /** `addSlots`: `addSlot` on each resource in turn; the first failure is returned
        and no list of slots is. */
    method AddSlots(resources: seq<VaccineSlot<P>>) returns (r: Result<seq<SlotEntity<P>>, SlotError>)
      requires Valid()
      modifies this
      ensures Valid()
      ensures UpsertedAll(r, State()) == UpsertAll(old(State()), validator, merge, resources)
    {
      var saved: seq<SlotEntity<P>> := [];
      var i := 0;
      while i < |resources|
        invariant i <= |resources|
        invariant Valid()
        invariant UpsertAll(old(State()), validator, merge, resources[..i]) == UpsertedAll(Success(saved), State())
      {
        var one := AddSlot(resources[i]);
        assert resources[..i + 1][..i] == resources[..i];
        if one.Failure? {
          FailureIsFinal(old(State()), validator, merge, resources, i + 1);
          return Failure(one.error);
        }
        saved := saved + [one.value];
        i := i + 1;
      }
      assert resources[..i] == resources;
      r := Success(saved);
    }
  }

  /** The two shapes of a location search: by location alone, or by location within a
      date range. The date range is passed through untouched. */
  datatype SlotQuery<D> = ForLocation(location: string) | ForLocationAndTime(location: string, dates: D)

  /** `buildLocationSearchQuery`: `locationId` is the id part of the location reference,
      already read as a UUID. */
  function BuildLocationSearchQuery<D>(locationId: string, dateParam: Option<D>): (q: SlotQuery<D>)
    ensures q.location == locationId
    ensures q.ForLocation? <==> dateParam.None?
    ensures q.ForLocationAndTime? ==> q.dates == dateParam.value
  {
    if dateParam.None? then ForLocation(locationId) else ForLocationAndTime(locationId, dateParam.value)
  }

  /** The search parameters a query was built from. */
  function QueryParameters<D>(q: SlotQuery<D>): (string, Option<D>) {
    match q
    case ForLocation(l) => (l, None)
    case ForLocationAndTime(l, d) => (l, Some(d))
  }

  /** Every query is built from exactly one pair of parameters: building and reading back
      are inverse in both directions, so no two searches share a query and no query shape
      is unreachable. */
  lemma LocationQueryRoundTrip<D>(locationId: string, dateParam: Option<D>, q: SlotQuery<D>)
    ensures QueryParameters(BuildLocationSearchQuery(locationId, dateParam)) == (locationId, dateParam)
    ensures BuildLocationSearchQuery(QueryParameters(q).0, QueryParameters(q).1) == q
  {
  }
}
