/**
 * The data repository as the student portal sees it: the active-attendance map,
 * one ledger file per session and the global device registry. `Check` and
 * `Submit` are the student block of the portal, step by step, with every
 * repository read and write turned into a read or an assignment of a field.
 */
module Store {
  import opened Session
  import opened Submission

  /** `pd.DataFrame(load_json_from_repo(path))`: a missing file loads as no records. */
  function LedgerOf(ledgers: map<string, seq<Record>>, path: string): seq<Record> {
    if path in ledgers then ledgers[path] else []
  }

  /** Every ledger keeps the ledger invariant. */
  predicate LedgersValid(ledgers: map<string, seq<Record>>) {
    forall path :: path in ledgers ==> LedgerInvariant(ledgers[path])
  }

  /** The registry holds only eleven-digit matric numbers. */
  predicate RegistryValid(registry: map<string, string>) {
    forall d :: d in registry ==> IsMatric(registry[d])
  }

  predicate RepositoryInvariant(ledgers: map<string, seq<Record>>, registry: map<string, string>) {
    LedgersValid(ledgers) && RegistryValid(registry)
  }

  /** Writing back one ledger that keeps the ledger invariant keeps every ledger valid. */
  lemma WriteLedgerKeepsValid(ledgers: map<string, seq<Record>>, path: string, ledger: seq<Record>)
    requires LedgersValid(ledgers) && LedgerInvariant(ledger)
    ensures LedgersValid(ledgers[path := ledger])
  {
    var updated := ledgers[path := ledger];
    forall p | p in updated
      ensures LedgerInvariant(updated[p])
    {
      if p != path {
        assert updated[p] == ledgers[p];
      }
    }
  }

  /** Registering one well-formed matric number keeps the registry valid. */
  lemma RegisterKeepsValid(registry: map<string, string>, deviceId: string, matric: string)
    requires RegistryValid(registry) && IsMatric(matric)
    ensures RegistryValid(registry[deviceId := matric])
  {
    var updated := registry[deviceId := matric];
    forall d | d in updated
      ensures IsMatric(updated[d])
    {
      if d != deviceId {
        assert updated[d] == registry[d];
      }
    }
  }

  /** An accepted check-in, written back as the session's ledger with the new record
      appended and the device mapped to the matric, keeps the repository invariant. */
  lemma AcceptKeepsRepositoryInvariant(session: ActiveSession, now: int, form: Form, deviceId: string,
                                       time: string, ledgers: map<string, seq<Record>>,
                                       registry: map<string, string>, path: string)
    requires Decide(session, now, form, deviceId, time, registry, LedgerOf(ledgers, path)).Accepted?
    ensures var record := Decide(session, now, form, deviceId, time, registry, LedgerOf(ledgers, path)).record;
            RepositoryInvariant(ledgers, registry) ==>
            RepositoryInvariant(ledgers[path := LedgerOf(ledgers, path) + [record]],
                                registry[deviceId := form.matric])
  {
    if RepositoryInvariant(ledgers, registry) {
      var ledger := LedgerOf(ledgers, path);
      var record := Decide(session, now, form, deviceId, time, registry, ledger).record;
      assert LedgerInvariant(ledger) by {
        if path in ledgers {
          assert ledger == ledgers[path];
        }
      }
      AcceptPreservesLedgerInvariant(session, now, form, deviceId, time, registry, ledger);
      WriteLedgerKeepsValid(ledgers, path, ledger + [record]);
      RegisterKeepsValid(registry, deviceId, form.matric);
    }
  }

  class AttendanceRepository {
    /** `active_attendance.json`: session key to code and expiry. */
    var active: map<string, ActiveSession>
    /** The `attendance_<key>.json` files, by path; a path with no entry is a missing file. */
    var ledgers: map<string, seq<Record>>
    /** `device_registry.json`: device identifier to the matric number it submitted. */
    var registry: map<string, string>

    ghost predicate Valid()
      reads this
    {
      RepositoryInvariant(ledgers, registry)
    }

    /** A repository with the given open sessions, no ledger files and an empty registry. */
    constructor (active: map<string, ActiveSession>)
      ensures this.active == active && ledgers == map[] && registry == map[]
      ensures Valid()
    {
      this.active := active;
      ledgers := map[];
      registry := map[];
    }

    /** The checks of the student block, in the portal's order, reading the
        repository but changing nothing: the session must be open, then `Decide`'s
        checks apply to the stored registry and to the session's ledger. */
    method Check(school: string, department: string, level: nat, form: Form, deviceId: string,
                 now: int, time: string) returns (outcome: Outcome)
      ensures var key := SessionKey(school, department, level);
              outcome == if IsActive(key, active)
                         then Decide(active[key], now, form, deviceId, time, registry,
                                     LedgerOf(ledgers, LedgerPath(key)))
                         else NoActiveAttendance
    {
      var key := SessionKey(school, department, level);
      if !IsActive(key, active) {
        return NoActiveAttendance;
      }
      var session := active[key];
      if !CodeAccepted(session, form.code, now) {
        return InvalidOrExpiredCode;
      }
      var deviceRegistry := registry;
      if !ValidInput(form) {
        return InvalidInput;
      }
      if DeviceRegistered(deviceId, deviceRegistry) {
        return DeviceAlreadyUsed;
      }
      var ledger := LedgerOf(ledgers, LedgerPath(key));
      var fullName := form.surname + " " + form.otherNames;
      if IsDuplicate(fullName, form.matric, ledger) {
        return DuplicateSubmission;
      }
      outcome := Accepted(Record(|ledger| + 1, fullName, form.matric, time));
    }

    /** One student check-in for the session (school, department, level): the
        outcome of `Check`; an accepted record is appended to that session's ledger
        only and the device is registered; any other outcome leaves the repository
        as it was. */
    method Submit(school: string, department: string, level: nat, form: Form, deviceId: string,
                  now: int, time: string) returns (outcome: Outcome)
      modifies this`ledgers, this`registry
      ensures var key := SessionKey(school, department, level);
              outcome == if IsActive(key, active)
                         then Decide(active[key], now, form, deviceId, time, old(registry),
                                     LedgerOf(old(ledgers), LedgerPath(key)))
                         else NoActiveAttendance
      ensures var path := LedgerPath(SessionKey(school, department, level));
              if outcome.Accepted? then
                ledgers == old(ledgers)[path := LedgerOf(old(ledgers), path) + [outcome.record]] &&
                registry == old(registry)[deviceId := form.matric]
              else
                ledgers == old(ledgers) && registry == old(registry)
      ensures (outcome.Accepted? && LedgerPath(SessionKey(school, department, level)) !in old(ledgers))
              ==> outcome.record.sn == 1
      ensures forall d :: d in old(registry) ==> d in registry && registry[d] == old(registry)[d]
      ensures old(Valid()) ==> Valid()
    {
      outcome := Check(school, department, level, form, deviceId, now, time);
      if outcome.Accepted? {
        var key := SessionKey(school, department, level);
        var path := LedgerPath(key);
        var ledger := LedgerOf(ledgers, path);
        AcceptKeepsRepositoryInvariant(active[key], now, form, deviceId, time, ledgers, registry, path);
        ledgers := ledgers[path := ledger + [outcome.record]];
        registry := registry[deviceId := form.matric];
      }
    }
  }
}
