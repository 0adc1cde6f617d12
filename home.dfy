/**
 * The home page (src/app/page.tsx): `filterPetList` sorts the fetched rows
 * into the adoptable, pending and adopted lists, and the page shows a
 * section per list.
 */
module Home {
  import opened PetModel
  import opened Lists

  const IsAdopted: Pet -> bool := (p: Pet) => p.status == Adopted

  const IsPending: Pet -> bool := (p: Pet) => p.status == Pending

  /** The final `else`: any status that is neither Adopted nor Pending. */
  const IsOtherStatus: Pet -> bool := (p: Pet) => p.status != Adopted && p.status != Pending

  /** `filterPetList`: one pass over the rows, pushing each onto exactly one list. */
  method FilterPetList(data: seq<Pet>) returns (adoptableList: seq<Pet>, adoptedList: seq<Pet>, pendingList: seq<Pet>)
    ensures adoptedList == Keep(data, IsAdopted)
    ensures pendingList == Keep(data, IsPending)
    ensures adoptableList == Keep(data, IsOtherStatus)
    ensures multiset(adoptableList) + multiset(adoptedList) + multiset(pendingList) == multiset(data)
    ensures |adoptableList| + |adoptedList| + |pendingList| == |data|
  {
    adoptableList, adoptedList, pendingList := [], [], [];
    for i := 0 to |data|
      invariant adoptedList == Keep(data[..i], IsAdopted)
      invariant pendingList == Keep(data[..i], IsPending)
      invariant adoptableList == Keep(data[..i], IsOtherStatus)
    {
      var pet := data[i];
      assert data[..i + 1][..i] == data[..i];
      if pet.status == Adopted {
        adoptedList := adoptedList + [pet];
      } else if pet.status == Pending {
        pendingList := pendingList + [pet];
      } else {
        adoptableList := adoptableList + [pet];
      }
    }
    assert data[..|data|] == data;
    FilterPartitions(data);
  }

  /** The three lists partition the input: together they hold every row
      exactly as often as the input does, so their lengths add up to its length. */
  lemma FilterPartitions(data: seq<Pet>)
    ensures multiset(Keep(data, IsOtherStatus)) + multiset(Keep(data, IsAdopted)) + multiset(Keep(data, IsPending))
      == multiset(data)
    ensures |Keep(data, IsOtherStatus)| + |Keep(data, IsAdopted)| + |Keep(data, IsPending)| == |data|
  {
    KeepPartition(data, IsOtherStatus, IsAdopted, IsPending);
    var a, b, c := Keep(data, IsOtherStatus), Keep(data, IsAdopted), Keep(data, IsPending);
    assert |multiset(a) + multiset(b) + multiset(c)| == |multiset(data)|;
  }

  /** Each list holds only rows of its status. */
  lemma FilterStatuses(data: seq<Pet>)
    ensures forall p :: p in Keep(data, IsAdopted) ==> p in data && p.status == Adopted
    ensures forall p :: p in Keep(data, IsPending) ==> p in data && p.status == Pending
    ensures forall p :: p in Keep(data, IsOtherStatus) ==> p in data && p.status == Adoptable
  {
    forall p ensures p in Keep(data, IsAdopted) ==> p in data && p.status == Adopted {
      KeepMembership(data, IsAdopted, p);
    }
    forall p ensures p in Keep(data, IsPending) ==> p in data && p.status == Pending {
      KeepMembership(data, IsPending, p);
    }
    forall p ensures p in Keep(data, IsOtherStatus) ==> p in data && p.status == Adoptable {
      KeepMembership(data, IsOtherStatus, p);
    }
  }

  datatype Section = AdoptableSection | PendingSection | AdoptedSection

  /** The sections the page renders, top to bottom: the adoptable section
      always, the pending and adopted sections only for non-empty lists. */
  function Sections(adoptableList: seq<Pet>, pendingList: seq<Pet>, adoptedList: seq<Pet>): (r: seq<Section>)
    ensures |r| >= 1 && r[0] == AdoptableSection
    ensures PendingSection in r <==> |pendingList| > 0
    ensures AdoptedSection in r <==> |adoptedList| > 0
    ensures |r| == 1 + (if |pendingList| > 0 then 1 else 0) + (if |adoptedList| > 0 then 1 else 0)
    ensures forall i, j :: 0 <= i < j < |r| ==> r[i] != r[j]
  {
    [AdoptableSection]
      + (if |pendingList| > 0 then [PendingSection] else [])
      + (if |adoptedList| > 0 then [AdoptedSection] else [])
  }
}
