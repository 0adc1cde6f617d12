/**
 * The records of the adoption application (src/app/util/index.ts).
 * Addresses are the hexadecimal strings the wallet hands out; they are
 * compared as plain strings except where a caller lower-cases them.
 */
module PetModel {
  import opened Wrappers

  type Address = string

  datatype PetType = Cat | Dog | Other

  datatype Breed = Persian | Ragdoll | GermanShepard | ShibaInu | UnknownBreed

  datatype PetStatus = Adoptable | Adopted | Pending

  datatype HealthStatus = Healthy | Unhealthy

  datatype Gender = Male | Female

  /** One row of the PetInfo table. */
  datatype Pet = Pet(
    id: int,
    name: string,
    petType: PetType,
    breed: Breed,
    birthDate: string,
    image: string,
    description: string,
    status: PetStatus,
    health: HealthStatus,
    gender: Gender,
    vaccinated: Option<bool>,
    neutered: Option<bool>,
    trained: Option<bool>,
    owner: Address,
    applicants: seq<Address>,
    applicationStartTime: int,
    tokenUri: string,
    hasNFT: bool)

  /** A row as the admin page shows it: the row plus the values computed for display. */
  datatype PetView = PetView(
    pet: Pet,
    age: Option<string>,
    deadLine: Option<string>,
    remainSeconds: Option<int>,
    canHandle: Option<bool>)

  /** The string each status is stored as. */
  function StatusText(s: PetStatus): (t: string)
    ensures t in {"adoptable", "adopted", "pending"}
  {
    match s
    case Adoptable => "adoptable"
    case Adopted => "adopted"
    case Pending => "pending"
  }

  /** Distinct statuses are stored as distinct strings. */
  lemma StatusTextInjective(s: PetStatus, u: PetStatus)
    ensures StatusText(s) == StatusText(u) <==> s == u
  {
  }

  /** The most applicants a pet takes before its roster is full. */
  const MaxApplicants := 3

  predicate NoDuplicates(s: seq<Address>)
  {
    forall i, j :: 0 <= i < j < |s| ==> s[i] != s[j]
  }

  /** The roster invariant the applications keep: at most three, none twice. */
  predicate RosterOk(p: Pet)
  {
    |p.applicants| <= MaxApplicants && NoDuplicates(p.applicants)
  }
}
