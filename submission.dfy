/**
 * The student check-in decision of the attendance portal: the ordered validation
 * of a submitted form against the session's code, the device registry and the
 * session's ledger, and the record an accepted submission appends.
 */
module Submission {
  import opened Text
  import opened Session

  /** One row of a session's ledger: `S/N`, `Full Name`, `Matric Number`, `Time`. */
  datatype Record = Record(sn: int, fullName: string, matric: string, time: string)

  /** The four fields a student types: the attendance code, surname, other names
      and matriculation number. */
  datatype Form = Form(code: string, surname: string, otherNames: string, matric: string)

  /** Every way a check-in can end, one per message the portal shows. */
  datatype Outcome =
    | NoActiveAttendance      // "No active attendance for this level in this department."
    | InvalidOrExpiredCode    // "Invalid or expired code."
    | InvalidInput            // "Invalid input!"
    | DeviceAlreadyUsed       // "This device has already submitted attendance."
    | DuplicateSubmission     // "Duplicate name or matric detected!"
    | Accepted(record: Record)

  /** The code typed equals the session's code and the clock is strictly before expiry. */
  predicate CodeAccepted(session: ActiveSession, code: string, now: int) {
    code == session.currentToken && now < session.expiry
  }

  /** Exactly eleven characters, all decimal digits. */
  predicate IsMatric(m: string) {
    |m| == 11 && IsDigitString(m)
  }

  /** Both names non-empty and an eleven-digit matriculation number. */
  predicate ValidInput(form: Form) {
    form.surname != [] && form.otherNames != [] && IsMatric(form.matric)
  }

  /** `f"{surname} {other_names}"` */
  function FullName(form: Form): string {
    form.surname + " " + form.otherNames
  }

  /** `device_registered`: the device already has an entry in the registry. */
  predicate DeviceRegistered(deviceId: string, registry: map<string, string>) {
    deviceId in registry
  }

  /** The `Full Name` column, lower-cased. */
  function LowerNames(ledger: seq<Record>): seq<string> {
    seq(|ledger|, i requires 0 <= i < |ledger| => Lower(ledger[i].fullName))
  }

  /** The `Matric Number` column. */
  function Matrics(ledger: seq<Record>): seq<string> {
    seq(|ledger|, i requires 0 <= i < |ledger| => ledger[i].matric)
  }

  /** `is_duplicate`: the candidate name is stripped and lower-cased, the stored
      names only lower-cased; matric numbers are compared as they are. */
  predicate IsDuplicate(name: string, matric: string, ledger: seq<Record>) {
    var nameLower := Lower(Strip(name));
    |ledger| > 0 && (nameLower in LowerNames(ledger) || matric in Matrics(ledger))
  }

  /** `is_duplicate` is false on an empty ledger and otherwise holds exactly when
      some record clashes on the normalised name or on the matric number. */
  lemma IsDuplicateExactly(name: string, matric: string, ledger: seq<Record>)
    ensures ledger == [] ==> !IsDuplicate(name, matric, ledger)
    ensures IsDuplicate(name, matric, ledger) <==>
      exists i :: 0 <= i < |ledger| &&
        (Lower(ledger[i].fullName) == Lower(Strip(name)) || ledger[i].matric == matric)
  {
    if IsDuplicate(name, matric, ledger) {
      if Lower(Strip(name)) in LowerNames(ledger) {
        var i :| 0 <= i < |ledger| && LowerNames(ledger)[i] == Lower(Strip(name));
        assert Lower(ledger[i].fullName) == Lower(Strip(name));
      } else {
        var i :| 0 <= i < |ledger| && Matrics(ledger)[i] == matric;
        assert ledger[i].matric == matric;
      }
    }
    if exists i :: 0 <= i < |ledger| &&
        (Lower(ledger[i].fullName) == Lower(Strip(name)) || ledger[i].matric == matric) {
      var i :| 0 <= i < |ledger| &&
        (Lower(ledger[i].fullName) == Lower(Strip(name)) || ledger[i].matric == matric);
      assert LowerNames(ledger)[i] == Lower(ledger[i].fullName);
      assert Matrics(ledger)[i] == ledger[i].matric;
    }
  }

  /** The student block of the portal, once the session is known to be open: the
      code and expiry first, then the shape of the input, then the device, then
      duplicates; an accepted form becomes the record the ledger will append. */
  function Decide(session: ActiveSession, now: int, form: Form, deviceId: string, time: string,
                  registry: map<string, string>, ledger: seq<Record>): (r: Outcome)
    ensures r != NoActiveAttendance
    ensures !CodeAccepted(session, form.code, now) ==> r == InvalidOrExpiredCode
    ensures CodeAccepted(session, form.code, now) && !ValidInput(form) ==> r == InvalidInput
    ensures (CodeAccepted(session, form.code, now) && ValidInput(form) &&
             DeviceRegistered(deviceId, registry)) ==> r == DeviceAlreadyUsed
    ensures (CodeAccepted(session, form.code, now) && ValidInput(form) &&
             !DeviceRegistered(deviceId, registry) && IsDuplicate(FullName(form), form.matric, ledger))
            ==> r == DuplicateSubmission
    ensures r == DuplicateSubmission ==> IsDuplicate(FullName(form), form.matric, ledger)
    ensures r.Accepted? <==>
              CodeAccepted(session, form.code, now) && ValidInput(form) &&
              !DeviceRegistered(deviceId, registry) && !IsDuplicate(FullName(form), form.matric, ledger)
    ensures r.Accepted? ==>
              r.record.sn == |ledger| + 1 && r.record.fullName == form.surname + " " + form.otherNames &&
              r.record.matric == form.matric && r.record.time == time
    ensures r.Accepted? ==>
              forall i :: 0 <= i < |ledger| ==>
                ledger[i].matric != form.matric && Lower(ledger[i].fullName) != Lower(Strip(FullName(form)))
  {
    if !CodeAccepted(session, form.code, now) then InvalidOrExpiredCode
    else if !ValidInput(form) then InvalidInput
    else if DeviceRegistered(deviceId, registry) then DeviceAlreadyUsed
    else if IsDuplicate(FullName(form), form.matric, ledger) then
      DuplicateSubmission
    else
      IsDuplicateExactly(FullName(form), form.matric, ledger);
      Accepted(Record(|ledger| + 1, FullName(form), form.matric, time))
  }

  /** A wrong or expired code hides everything else: two submissions with the same
      code at the same moment get the same answer whatever their names, matric
      numbers, devices, registries and ledgers. */
  lemma CodeCheckRevealsNothing(session: ActiveSession, now: int, form1: Form, form2: Form,
                                device1: string, device2: string, time1: string, time2: string,
                                registry1: map<string, string>, registry2: map<string, string>,
                                ledger1: seq<Record>, ledger2: seq<Record>)
    requires form1.code == form2.code
    requires !CodeAccepted(session, form1.code, now)
    ensures Decide(session, now, form1, device1, time1, registry1, ledger1)
         == Decide(session, now, form2, device2, time2, registry2, ledger2)
         == InvalidOrExpiredCode
  {
  }

  /** The expiry comparison is strict: at the expiry instant the code is refused. */
  lemma ExpiryIsExclusive(session: ActiveSession, form: Form, deviceId: string, time: string,
                          registry: map<string, string>, ledger: seq<Record>)
    ensures Decide(session, session.expiry, form, deviceId, time, registry, ledger) == InvalidOrExpiredCode
  {
  }

  // ---------------------------------------------------------------------------
  // The ledger invariant that accepted submissions keep

  /** `S/N` runs 1, 2, ..., n with no gap. */
  predicate SerialNumbered(ledger: seq<Record>) {
    forall i :: 0 <= i < |ledger| ==> ledger[i].sn == i + 1
  }

  /** No two records share a matric number. */
  predicate MatricsDistinct(ledger: seq<Record>) {
    forall i, j :: 0 <= i < j < |ledger| ==> ledger[i].matric != ledger[j].matric
  }

  /** No record's normalised name equals an earlier record's lower-cased name: what
      the name test of `is_duplicate` guarantees, since it strips only the candidate. */
  predicate LaterNamesUnmatched(ledger: seq<Record>) {
    forall i, j :: 0 <= i < j < |ledger| ==> Lower(ledger[i].fullName) != Lower(Strip(ledger[j].fullName))
  }

  /** Every record carries an eleven-digit matric number. */
  predicate MatricsWellFormed(ledger: seq<Record>) {
    forall i :: 0 <= i < |ledger| ==> IsMatric(ledger[i].matric)
  }

  predicate LedgerInvariant(ledger: seq<Record>) {
    SerialNumbered(ledger) && MatricsDistinct(ledger) &&
    LaterNamesUnmatched(ledger) && MatricsWellFormed(ledger)
  }

  /** Appending an accepted record keeps the ledger invariant: the new record is
      numbered one past the last and clashes with no earlier matric or name. */
  lemma AcceptPreservesLedgerInvariant(session: ActiveSession, now: int, form: Form, deviceId: string,
                                       time: string, registry: map<string, string>, ledger: seq<Record>)
    requires LedgerInvariant(ledger)
    requires Decide(session, now, form, deviceId, time, registry, ledger).Accepted?
    ensures LedgerInvariant(ledger + [Decide(session, now, form, deviceId, time, registry, ledger).record])
  {
    var record := Decide(session, now, form, deviceId, time, registry, ledger).record;
    assert record.sn == |ledger| + 1 && IsMatric(record.matric);
    assert forall i :: 0 <= i < |ledger| ==>
      ledger[i].matric != record.matric && Lower(ledger[i].fullName) != Lower(Strip(record.fullName));
    AppendKeepsInvariant(ledger, record);
  }

  /** The ledger invariant survives appending a record that is numbered one past
      the last, has a well-formed matric, and clashes with no earlier record. */
  lemma AppendKeepsInvariant(ledger: seq<Record>, record: Record)
    requires LedgerInvariant(ledger)
    requires record.sn == |ledger| + 1 && IsMatric(record.matric)
    requires forall i :: 0 <= i < |ledger| ==>
      ledger[i].matric != record.matric && Lower(ledger[i].fullName) != Lower(Strip(record.fullName))
    ensures LedgerInvariant(ledger + [record])
  {
    AppendKeepsNumbering(ledger, record);
    AppendKeepsMatrics(ledger, record);
    AppendKeepsNames(ledger, record);
  }

  lemma AppendKeepsNumbering(ledger: seq<Record>, record: Record)
    requires SerialNumbered(ledger) && MatricsWellFormed(ledger)
    requires record.sn == |ledger| + 1 && IsMatric(record.matric)
    ensures SerialNumbered(ledger + [record]) && MatricsWellFormed(ledger + [record])
  {
    var ledger' := ledger + [record];
    forall i | 0 <= i < |ledger'|
      ensures ledger'[i].sn == i + 1 && IsMatric(ledger'[i].matric)
    {
      if i < |ledger| {
        assert ledger'[i] == ledger[i];
      }
    }
  }

  lemma AppendKeepsMatrics(ledger: seq<Record>, record: Record)
    requires MatricsDistinct(ledger)
    requires forall i :: 0 <= i < |ledger| ==> ledger[i].matric != record.matric
    ensures MatricsDistinct(ledger + [record])
  {
    var ledger' := ledger + [record];
    forall i, j | 0 <= i < j < |ledger'|
      ensures ledger'[i].matric != ledger'[j].matric
    {
      assert ledger'[i] == ledger[i];
      if j < |ledger| {
        assert ledger'[j] == ledger[j];
      }
    }
  }

  lemma AppendKeepsNames(ledger: seq<Record>, record: Record)
    requires LaterNamesUnmatched(ledger)
    requires forall i :: 0 <= i < |ledger| ==> Lower(ledger[i].fullName) != Lower(Strip(record.fullName))
    ensures LaterNamesUnmatched(ledger + [record])
  {
    var ledger' := ledger + [record];
    forall i, j | 0 <= i < j < |ledger'|
      ensures Lower(ledger'[i].fullName) != Lower(Strip(ledger'[j].fullName))
    {
      assert ledger'[i] == ledger[i];
      if j < |ledger| {
        assert ledger'[j] == ledger[j];
      }
    }
  }

  /** Where every stored name has no whitespace at either end, the invariant makes
      names distinct ignoring case, in both orders. */
  lemma TrimmedNamesDistinct(ledger: seq<Record>)
    requires LaterNamesUnmatched(ledger)
    requires forall i :: 0 <= i < |ledger| ==> Trimmed(ledger[i].fullName)
    ensures forall i, j :: 0 <= i < |ledger| && 0 <= j < |ledger| && i != j ==>
              Lower(ledger[i].fullName) != Lower(ledger[j].fullName)
  {
    forall i, j | 0 <= i < |ledger| && 0 <= j < |ledger| && i != j
      ensures Lower(ledger[i].fullName) != Lower(ledger[j].fullName)
    {
      var lo, hi := if i < j then i else j, if i < j then j else i;
      assert Strip(ledger[hi].fullName) == ledger[hi].fullName;
      assert Lower(ledger[lo].fullName) != Lower(ledger[hi].fullName);
    }
  }

  /** A stored name with whitespace at either end is never matched by the name test
      of `is_duplicate`, whatever the candidate: the candidate is stripped, the
      stored name is not. */
  lemma PaddedStoredNameNeverMatches(stored: string, candidate: string)
    requires !Trimmed(stored)
    ensures Lower(stored) != Lower(Strip(candidate))
  {
    LowerKeepsTrimmed(stored);
    LowerKeepsTrimmed(Strip(candidate));
  }

  /** So a name with a trailing or leading space, once stored, can be accepted again
      under a new matric number, and the ledger then holds two records with the same
      name. */
  lemma PaddedNameAcceptedTwice(session: ActiveSession, now: int, form: Form, deviceId: string, time: string,
                                registry: map<string, string>, ledger: seq<Record>, i: nat)
    requires CodeAccepted(session, form.code, now) && ValidInput(form) && !DeviceRegistered(deviceId, registry)
    requires i < |ledger| && ledger[i].fullName == FullName(form) && !Trimmed(FullName(form))
    requires forall j :: 0 <= j < |ledger| ==> ledger[j].matric != form.matric
    requires forall j :: 0 <= j < |ledger| && j != i ==> Lower(ledger[j].fullName) != Lower(Strip(FullName(form)))
    ensures Decide(session, now, form, deviceId, time, registry, ledger).Accepted?
    ensures Decide(session, now, form, deviceId, time, registry, ledger).record.fullName == ledger[i].fullName
  {
    PaddedStoredNameNeverMatches(ledger[i].fullName, FullName(form));
    IsDuplicateExactly(FullName(form), form.matric, ledger);
  }

  lemma ExampleMatricsWellFormed()
    ensures IsMatric("20231234567") && IsMatric("20231234568")
  {
  }

  // ---------------------------------------------------------------------------
  // Consequences across submissions

  /** Once accepted, the same matric number is refused as a duplicate in that
      session, whatever name and device come with it. */
  lemma ResubmittedMatricIsDuplicate(session: ActiveSession, now: int, form: Form, deviceId: string,
                                     time: string, registry: map<string, string>, ledger: seq<Record>,
                                     now2: int, form2: Form, device2: string, time2: string)
    requires Decide(session, now, form, deviceId, time, registry, ledger).Accepted?
    requires form2.matric == form.matric
    requires CodeAccepted(session, form2.code, now2) && ValidInput(form2)
    requires device2 !in registry[deviceId := form.matric]
    ensures Decide(session, now2, form2, device2, time2, registry[deviceId := form.matric],
                   ledger + [Decide(session, now, form, deviceId, time, registry, ledger).record])
            == DuplicateSubmission
  {
    var ledger' := ledger + [Decide(session, now, form, deviceId, time, registry, ledger).record];
    assert Matrics(ledger')[|ledger|] == form.matric;
  }

  /** Once accepted, the device is refused in every session, whatever identity it
      presents, and every other device keeps the status it had. */
  lemma DeviceRegisteredAfterAccept(session: ActiveSession, now: int, form: Form, deviceId: string,
                                    time: string, registry: map<string, string>, ledger: seq<Record>,
                                    session2: ActiveSession, now2: int, form2: Form, time2: string,
                                    ledger2: seq<Record>)
    requires Decide(session, now, form, deviceId, time, registry, ledger).Accepted?
    requires CodeAccepted(session2, form2.code, now2) && ValidInput(form2)
    ensures !DeviceRegistered(deviceId, registry)
    ensures forall d :: DeviceRegistered(d, registry[deviceId := form.matric]) <==>
                          d == deviceId || DeviceRegistered(d, registry)
    ensures Decide(session2, now2, form2, deviceId, time2, registry[deviceId := form.matric], ledger2)
            == DeviceAlreadyUsed
  {
  }

  // ---------------------------------------------------------------------------
  // Worked examples

  /** A ten-digit matric number and an eleven-character one with a letter are both
      refused as invalid input. */
  lemma ShortOrLetteredMatricRejected(session: ActiveSession, now: int, deviceId: string, time: string,
                                      registry: map<string, string>, ledger: seq<Record>)
    requires CodeAccepted(session, "4821", now)
    ensures Decide(session, now, Form("4821", "Jane", "Doe", "1234567890"), deviceId, time, registry, ledger)
            == InvalidInput
    ensures Decide(session, now, Form("4821", "Jane", "Doe", "1234567890a"), deviceId, time, registry, ledger)
            == InvalidInput
  {
    assert !IsDigitChar("1234567890a"[10]);
  }

  /** Session `SICT_Computer Science_100` with code "4821" open until t = 300: a first
      check-in at t = 10 on a new device, into the missing (empty) ledger, is recorded
      as S/N 1 under the name "Jane Doe". */
  lemma FirstCheckInAccepted()
    ensures Decide(ActiveSession("4821", 300), 10, Form("4821", "Jane", "Doe", "20231234567"), "device-1", "t+10",
                   map[], [])
            == Accepted(Record(1, "Jane Doe", "20231234567", "t+10"))
  {
    var form := Form("4821", "Jane", "Doe", "20231234567");
    ExampleMatricsWellFormed();
    assert ValidInput(form);
    assert FullName(form) == "Jane Doe";
    assert !IsDuplicate(FullName(form), form.matric, []);
  }

  /** In the same session, the same matric under another name and device at t = 20
      is a duplicate. */
  lemma SameMatricLaterIsDuplicate()
    ensures Decide(ActiveSession("4821", 300), 20, Form("4821", "John", "Roe", "20231234567"), "device-2", "t+20",
                   map["device-1" := "20231234567"], [Record(1, "Jane Doe", "20231234567", "t+10")])
            == DuplicateSubmission
  {
    ExampleMatricsWellFormed();
    assert Matrics([Record(1, "Jane Doe", "20231234567", "t+10")])[0] == "20231234567";
  }

  /** In the same session, the right code at t = 310 has expired. */
  lemma LateCheckInExpired()
    ensures Decide(ActiveSession("4821", 300), 310, Form("4821", "Jane", "Doe", "20231234567"), "device-3", "t+310",
                   map[], [])
            == InvalidOrExpiredCode
  {
  }
}
