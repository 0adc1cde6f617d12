/**
 * The row values the three table updates of src/app/api/route.ts write:
 * an application (`adopt`), the ownership commit (`updateOwner`) and the
 * mint flag (`updateNFT`). Each reads the current row and returns either
 * the row to write back or the reason nothing is written.
 */
module Rows {
  import opened Wrappers
  import opened PetModel

  /** Why an update wrote nothing; `RowMissing` is the failed single-row fetch. */
  datatype UpdateError = RowMissing | AlreadyApplied | RosterFull | SameOwner

  /** `q` differs from `p` at most in the three application fields. */
  predicate SameExceptApplication(p: Pet, q: Pet)
  {
    q == p.(applicants := q.applicants, status := q.status, applicationStartTime := q.applicationStartTime)
  }

  /** `q` differs from `p` at most in the owner and the three application fields. */
  predicate SameExceptOwnership(p: Pet, q: Pet)
  {
    q == p.(owner := q.owner, applicants := q.applicants, status := q.status,
            applicationStartTime := q.applicationStartTime)
  }

  /** The application step: reject a repeated address, reject when exactly three
      have applied, otherwise append the applicant, move an Adoptable pet to
      Pending and stamp the start time unless one is already set. */
  function AdoptRow(p: Pet, address: Address, now: int): (r: Result<Pet, UpdateError>)
    ensures r.Failure? <==> address in p.applicants || |p.applicants| == MaxApplicants
    ensures r.Failure? ==> r.error == (if address in p.applicants then AlreadyApplied else RosterFull)
    ensures r.Success? ==> r.value.applicants == p.applicants + [address]
    ensures r.Success? ==> r.value.status == (if p.status == Adoptable then Pending else p.status)
    ensures r.Success? ==> r.value.applicationStartTime == (if p.applicationStartTime != 0 then p.applicationStartTime else now)
    ensures r.Success? ==> SameExceptApplication(p, r.value)
  {
    if address in p.applicants then Failure(AlreadyApplied)
    else if |p.applicants| == MaxApplicants then Failure(RosterFull)
    else Success(p.(
      applicants := p.applicants + [address],
      status := if p.status == Adoptable then Pending else p.status,
      applicationStartTime := if p.applicationStartTime != 0 then p.applicationStartTime else now))
  }

  /** A successful application keeps the roster invariant: the guard `== 3`
      suffices because a well-formed roster never holds more than three. */
  lemma AdoptKeepsRoster(p: Pet, address: Address, now: int)
    requires RosterOk(p)
    ensures AdoptRow(p, address, now).Success? ==> RosterOk(AdoptRow(p, address, now).value)
  {
    var r := AdoptRow(p, address, now);
    if r.Success? {
      var s := r.value.applicants;
      forall i, j | 0 <= i < j < |s| ensures s[i] != s[j] {
        if j == |s| - 1 {
          assert s[i] == p.applicants[i];
        }
      }
    }
  }

  /** The guard compares with `==`, so a roster already above three (which no
      sequence of applications produces) would keep growing. */
  lemma AdoptAboveCapacityStillAdmits(p: Pet, address: Address, now: int)
    requires |p.applicants| > MaxApplicants && address !in p.applicants
    ensures AdoptRow(p, address, now).Success?
    ensures |AdoptRow(p, address, now).value.applicants| == |p.applicants| + 1
  {
  }

  /** The ownership commit: fail when the new owner equals the current one
      (an exact, case-sensitive comparison); otherwise set the owner, mark the
      pet Adopted, clear the roster and reset the start time. */
  function CommitRow(p: Pet, newOwner: Address): (r: Result<Pet, UpdateError>)
    ensures r.Failure? <==> p.owner == newOwner
    ensures r.Failure? ==> r.error == SameOwner
    ensures r.Success? ==> r.value.owner == newOwner && r.value.status == Adopted
    ensures r.Success? ==> r.value.applicants == [] && r.value.applicationStartTime == 0
    ensures r.Success? ==> SameExceptOwnership(p, r.value) && r.value.hasNFT == p.hasNFT
    ensures r.Success? ==> RosterOk(r.value)
  {
    if p.owner == newOwner then Failure(SameOwner)
    else Success(p.(owner := newOwner, status := Adopted, applicants := [], applicationStartTime := 0))
  }

  /** Committing the same owner twice: the second call is the same-owner failure. */
  lemma CommitTwiceFails(p: Pet, newOwner: Address)
    requires CommitRow(p, newOwner).Success?
    ensures CommitRow(CommitRow(p, newOwner).value, newOwner) == Failure(SameOwner)
  {
  }

  /** The mint flag: set `hasNFT` and nothing else. */
  function MintRow(p: Pet): (r: Pet)
    ensures r.hasNFT
    ensures r.(hasNFT := p.hasNFT) == p
  {
    p.(hasNFT := true)
  }

  /** Setting the mint flag twice gives the row of setting it once. */
  lemma MintIdempotent(p: Pet)
    ensures MintRow(MintRow(p)) == MintRow(p)
  {
  }

  /** Statuses in the order the lifecycle visits them. */
  function StatusRank(s: PetStatus): nat
  {
    match s
    case Adoptable => 0
    case Pending => 1
    case Adopted => 2
  }

  /** Neither write moves a status backwards in the lifecycle. */
  lemma StatusNeverBackward(p: Pet, address: Address, now: int, newOwner: Address)
    ensures AdoptRow(p, address, now).Success? ==> StatusRank(p.status) <= StatusRank(AdoptRow(p, address, now).value.status)
    ensures CommitRow(p, newOwner).Success? ==> StatusRank(p.status) <= StatusRank(CommitRow(p, newOwner).value.status)
  {
  }

  /** One `adopt` request: who applies and the second it is handled at. */
  datatype Application = Application(address: Address, time: int)

  /** The row after a sequence of `adopt` requests, handled one after the
      other; a rejected request leaves the row as it was. */
  function AdoptAll(p: Pet, reqs: seq<Application>): Pet
    decreases |reqs|
  {
    if reqs == [] then p
    else
      var next := match AdoptRow(p, reqs[0].address, reqs[0].time)
        case Success(q) => q
        case Failure(_) => p;
      AdoptAll(next, reqs[1..])
  }

  /** No sequence of applications breaks the roster invariant. */
  lemma {:induction false} AdoptAllKeepsRoster(p: Pet, reqs: seq<Application>)
    requires RosterOk(p)
    ensures RosterOk(AdoptAll(p, reqs))
    decreases |reqs|
  {
    if reqs != [] {
      AdoptKeepsRoster(p, reqs[0].address, reqs[0].time);
      var r := AdoptRow(p, reqs[0].address, reqs[0].time);
      AdoptAllKeepsRoster(if r.Success? then r.value else p, reqs[1..]);
    }
  }

  /** Once set, the start time survives every later application. */
  lemma {:induction false} AdoptAllKeepsStartTime(p: Pet, reqs: seq<Application>)
    requires p.applicationStartTime != 0
    ensures AdoptAll(p, reqs).applicationStartTime == p.applicationStartTime
    decreases |reqs|
  {
    if reqs != [] {
      var r := AdoptRow(p, reqs[0].address, reqs[0].time);
      AdoptAllKeepsStartTime(if r.Success? then r.value else p, reqs[1..]);
    }
  }

  /** The first admitted application (at a nonzero time) fixes the start time
      for good: it equals that application's time after any later requests. */
  lemma FirstAdmittedSetsStartTime(p: Pet, first: Application, rest: seq<Application>)
    requires p.applicationStartTime == 0 && first.time != 0
    requires AdoptRow(p, first.address, first.time).Success?
    ensures AdoptAll(p, [first] + rest).applicationStartTime == first.time
  {
    var q := AdoptRow(p, first.address, first.time).value;
    assert ([first] + rest)[1..] == rest;
    AdoptAllKeepsStartTime(q, rest);
  }

  /** A rejected application is invisible to the rest of the sequence. */
  lemma RejectedIsSkipped(p: Pet, first: Application, rest: seq<Application>)
    requires AdoptRow(p, first.address, first.time).Failure?
    ensures AdoptAll(p, [first] + rest) == AdoptAll(p, rest)
  {
    assert ([first] + rest)[1..] == rest;
  }
}
