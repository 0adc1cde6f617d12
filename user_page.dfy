/**
 * The user page (src/app/user/page.tsx): the split of the fetched rows into
 * the user's adopted pets and pending applications, the token ids read from
 * the NFT contract, the IPFS gateway rewrite of token URIs, and the handling
 * of the mint's Transfer logs. Contract reads are the parameter `tokenAt`.
 */
module UserPage {
  import opened Wrappers
  import opened PetModel
  import opened Strings
  import opened Lists

  /** Adopted and owned by `address`, compared exactly (case-sensitively). */
  function AdoptedBy(address: Address): Pet -> bool
  {
    (p: Pet) => p.status == Adopted && p.owner == address
  }

  /** Pending with `address` among its applicants. */
  function AppliedBy(address: Address): Pet -> bool
  {
    (p: Pet) => p.status == Pending && address in p.applicants
  }

  /** `loadUseInfo`: with no connected address (the empty string) the lists
      shown so far stay as they are; otherwise, once the rows are fetched,
      one pass pushes each row onto at most one of the two lists. */
  method LoadUserInfo(data: seq<Pet>, address: Address, shownPending: seq<Pet>, shownAdopted: seq<Pet>)
    returns (pendingPets: seq<Pet>, adoptedPets: seq<Pet>)
    ensures address == "" ==> pendingPets == shownPending && adoptedPets == shownAdopted
    ensures address != "" ==> adoptedPets == Keep(data, AdoptedBy(address))
    ensures address != "" ==> pendingPets == Keep(data, AppliedBy(address))
  {
    if address == "" {
      return shownPending, shownAdopted;
    }
    pendingPets, adoptedPets := [], [];
    for i := 0 to |data|
      invariant adoptedPets == Keep(data[..i], AdoptedBy(address))
      invariant pendingPets == Keep(data[..i], AppliedBy(address))
    {
      var pet := data[i];
      assert data[..i + 1] == data[..i] + [pet];
      KeepSnoc(data[..i], pet, AdoptedBy(address));
      KeepSnoc(data[..i], pet, AppliedBy(address));
      if pet.status == Adopted && pet.owner == address {
        adoptedPets := adoptedPets + [pet];
      } else if pet.status == Pending && address in pet.applicants {
        pendingPets := pendingPets + [pet];
      }
    }
    assert data[..|data|] == data;
  }

  /** A row is listed as adopted exactly when it is Adopted and owned by the
      address, as pending exactly when it is Pending and the address applied,
      and never as both. */
  lemma UserListsMeaning(data: seq<Pet>, address: Address, p: Pet)
    ensures p in Keep(data, AdoptedBy(address)) <==> p in data && p.status == Adopted && p.owner == address
    ensures p in Keep(data, AppliedBy(address)) <==> p in data && p.status == Pending && address in p.applicants
    ensures !(p in Keep(data, AdoptedBy(address)) && p in Keep(data, AppliedBy(address)))
  {
    KeepMembership(data, AdoptedBy(address), p);
    KeepMembership(data, AppliedBy(address), p);
  }

  /** An owner written in another letter case does not count as the user. */
  lemma OwnerComparedExactly(p: Pet, address: Address)
    requires p.status == Adopted && p.owner != address
    ensures Keep([p], AdoptedBy(address)) == []
  {
    KeepSnoc([], p, AdoptedBy(address));
    assert [] + [p] == [p];
  }

  /** `fetchUserNFTs`'s index loop: the token id at each index below the balance, in index order. */
  method CollectTokenIds(balance: nat, tokenAt: nat -> int) returns (tokenIds: seq<int>)
    ensures |tokenIds| == balance
    ensures forall i :: 0 <= i < balance ==> tokenIds[i] == tokenAt(i)
  {
    tokenIds := [];
    var i := 0;
    while i < balance
      invariant 0 <= i <= balance && |tokenIds| == i
      invariant forall j :: 0 <= j < i ==> tokenIds[j] == tokenAt(j)
    {
      tokenIds := tokenIds + [tokenAt(i)];
      i := i + 1;
    }
  }

  const IpfsScheme := "ipfs://"
  const IpfsGateway := "https://ipfs.io/ipfs/"

  /** The gateway rewrite of a token URI: an `ipfs://` URI becomes the
      gateway URL of the same path; any other URI is kept. */
  function ResolveUri(uri: string): (r: string)
    ensures StartsWith(uri, IpfsScheme) ==> r == IpfsGateway + uri[|IpfsScheme|..]
    ensures !StartsWith(uri, IpfsScheme) ==> r == uri
  {
    if StartsWith(uri, IpfsScheme) then
      ReplaceFirstAtStart(uri, IpfsScheme, "");
      IpfsGateway + ReplaceFirst(uri, IpfsScheme, "")
    else uri
  }

  /** A resolved URI is left alone by a second rewrite. */
  lemma ResolveUriIdempotent(uri: string)
    ensures ResolveUri(ResolveUri(uri)) == ResolveUri(uri)
  {
    if StartsWith(uri, IpfsScheme) {
      var r := ResolveUri(uri);
      assert r[0] == 'h';
      assert !StartsWith(r, IpfsScheme);
    }
  }

  /** The `Transfer(from, to, tokenId)` log of the NFT contract. */
  datatype TransferLog = TransferLog(from: Address, to: Address, tokenId: int)

  /** The `updatePetNFT` calls one batch of logs causes: one for every log
      whose token id is the pet's, since `unwatch` does not stop the batch. */
  function TransferCalls(logs: seq<TransferLog>, petId: int): (calls: seq<int>)
    ensures forall i :: 0 <= i < |calls| ==> calls[i] == petId
    ensures |calls| <= |logs|
    decreases |logs|
  {
    if logs == [] then []
    else (if logs[0].tokenId == petId then [petId] else []) + TransferCalls(logs[1..], petId)
  }

  /** The number of logs in a batch that carry the pet's token id. */
  function Matching(logs: seq<TransferLog>, petId: int): nat
    decreases |logs|
  {
    if logs == [] then 0 else (if logs[0].tokenId == petId then 1 else 0) + Matching(logs[1..], petId)
  }

  /** One call per matching log: none for a batch without the token id, and
      more than one when the batch repeats it. */
  lemma {:induction false} TransferCallsCount(logs: seq<TransferLog>, petId: int)
    ensures |TransferCalls(logs, petId)| == Matching(logs, petId)
    decreases |logs|
  {
    if logs != [] {
      TransferCallsCount(logs[1..], petId);
    }
  }

  /** Two matching logs in one batch give two calls: delivery is not exactly once. */
  lemma DuplicateLogTwoCalls(log: TransferLog, petId: int)
    requires log.tokenId == petId
    ensures TransferCalls([log, log], petId) == [petId, petId]
  {
    assert [log, log][1..] == [log];
    assert [log][1..] == [];
  }

  /** The subscription over successive batches: batches pass without effect
      until one has a match; that batch's calls are made and the watch ends. */
  function WatchCalls(batches: seq<seq<TransferLog>>, petId: int): (calls: seq<int>)
    ensures forall i :: 0 <= i < |calls| ==> calls[i] == petId
    decreases |batches|
  {
    if batches == [] then []
    else
      var calls := TransferCalls(batches[0], petId);
      if calls != [] then calls else WatchCalls(batches[1..], petId)
  }

  /** A batch without the pet's token id causes no call and leaves the watch running. */
  lemma WatchSkipsQuietBatch(b: seq<TransferLog>, later: seq<seq<TransferLog>>, petId: int)
    requires Matching(b, petId) == 0
    ensures WatchCalls([b] + later, petId) == WatchCalls(later, petId)
  {
    TransferCallsCount(b, petId);
    assert ([b] + later)[0] == b && ([b] + later)[1..] == later;
  }

  /** After any run of batches without the pet's token id, the first batch
      with it makes one call per matching log, and no later batch is looked at. */
  lemma {:induction false} WatchStopsAfterMatch(quiet: seq<seq<TransferLog>>, first: seq<TransferLog>,
                                                later: seq<seq<TransferLog>>, petId: int)
    requires forall k :: 0 <= k < |quiet| ==> Matching(quiet[k], petId) == 0
    requires Matching(first, petId) > 0
    ensures WatchCalls(quiet + [first] + later, petId) == TransferCalls(first, petId)
    ensures |WatchCalls(quiet + [first] + later, petId)| == Matching(first, petId)
    decreases |quiet|
  {
    TransferCallsCount(first, petId);
    if quiet == [] {
      assert quiet + [first] + later == [first] + later;
      assert ([first] + later)[0] == first;
    } else {
      var rest := quiet[1..];
      assert quiet + [first] + later == [quiet[0]] + (rest + [first] + later);
      WatchSkipsQuietBatch(quiet[0], rest + [first] + later, petId);
      WatchStopsAfterMatch(rest, first, later, petId);
    }
  }

  /** `adoptedPets.map(item => item.id === petId ? data : item)`. */
  function ReplaceById(items: seq<Pet>, petId: int, data: Pet): (r: seq<Pet>)
    ensures |r| == |items|
    ensures forall i :: 0 <= i < |items| ==> r[i] == if items[i].id == petId then data else items[i]
  {
    seq(|items|, i requires 0 <= i < |items| => if items[i].id == petId then data else items[i])
  }

  /** `updatePetNFT` after the reply: on 200 the pet's entries become the
      returned row, otherwise the list is kept. */
  function AfterUpdateNft(adoptedPets: seq<Pet>, petId: int, status: int, data: Pet): (r: seq<Pet>)
    ensures |r| == |adoptedPets|
    ensures forall i :: 0 <= i < |adoptedPets| && adoptedPets[i].id != petId ==> r[i] == adoptedPets[i]
    ensures status != 200 ==> r == adoptedPets
    ensures status == 200 ==> forall i :: 0 <= i < |adoptedPets| && adoptedPets[i].id == petId ==> r[i] == data
  {
    if status == 200 then ReplaceById(adoptedPets, petId, data) else adoptedPets
  }

  /** Replacing with the row the server returned for the same id is idempotent,
      and afterwards every entry of that id is that row. */
  lemma ReplaceByIdIdempotent(items: seq<Pet>, petId: int, data: Pet)
    requires data.id == petId
    ensures ReplaceById(ReplaceById(items, petId, data), petId, data) == ReplaceById(items, petId, data)
    ensures forall x :: x in ReplaceById(items, petId, data) && x.id == petId ==> x == data
  {
  }
}
