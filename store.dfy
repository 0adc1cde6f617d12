/**
 * The PetInfo table of src/app/api/route.ts as an object: the rows keyed by
 * their `id` column, and the table's `created_at` column kept beside them.
 * The three update helpers read one row and write the updated row back; the
 * three query helpers read the table.
 */
module Store {
  import opened Wrappers
  import opened PetModel
  import opened Rows

  predicate DistinctIds(r: seq<Pet>)
  {
    forall i, j :: 0 <= i < j < |r| ==> r[i].id != r[j].id
  }

  predicate Distinct(ids: seq<int>)
  {
    forall i, j :: 0 <= i < j < |ids| ==> ids[i] != ids[j]
  }

  /** `ids` lists keys of `created` in non-decreasing creation time. */
  predicate SortedByCreation(ids: seq<int>, created: map<int, int>)
    requires forall i :: 0 <= i < |ids| ==> ids[i] in created
  {
    forall i, j :: 0 <= i < j < |ids| ==> created[ids[i]] <= created[ids[j]]
  }

  class PetTable {
    var rows: map<int, Pet>
    var created: map<int, int>
    /** The order the table holds its rows in, which a query without an
        `order` clause returns them in. */
    var order: seq<int>

    /** Every row is stored under its own id, has a creation time and appears
        exactly once in the storage order. */
    ghost predicate Valid()
      reads this
    {
      && rows.Keys == created.Keys
      && (forall k :: k in rows ==> rows[k].id == k)
      && Distinct(order)
      && (forall k :: k in rows <==> k in order)
    }

    /** Every roster in the table is well formed. */
    ghost predicate RostersOk()
      reads this
    {
      forall k :: k in rows ==> RosterOk(rows[k])
    }

    /** `r` lists rows of this table, each at most once. */
    ghost predicate ListsRows(r: seq<Pet>)
      reads this
    {
      DistinctIds(r) && forall i :: 0 <= i < |r| ==> r[i].id in rows && rows[r[i].id] == r[i]
    }

    constructor (initial: map<int, Pet>, createdAt: map<int, int>, storage: seq<int>)
      requires initial.Keys == createdAt.Keys
      requires forall k :: k in initial ==> initial[k].id == k
      requires Distinct(storage) && forall k :: k in initial <==> k in storage
      ensures Valid() && rows == initial && created == createdAt && order == storage
    {
      rows := initial;
      created := createdAt;
      order := storage;
    }

    /** `adopt`: fetch the row (failing when there is none), then write the
        application step's row back, or write nothing when it is rejected. */
    method Adopt(address: Address, petId: int, now: int) returns (r: Result<Pet, UpdateError>)
      requires Valid()
      modifies this
      ensures Valid() && created == old(created) && order == old(order)
      ensures petId !in old(rows) ==> r == Failure(RowMissing)
      ensures petId in old(rows) ==> r == AdoptRow(old(rows)[petId], address, now)
      ensures rows == if r.Success? then old(rows)[petId := r.value] else old(rows)
      ensures old(RostersOk()) ==> RostersOk()
    {
      if petId !in rows {
        return Failure(RowMissing);
      }
      var row := rows[petId];
      r := AdoptRow(row, address, now);
      if r.Success? {
        if RostersOk() {
          AdoptKeepsRoster(row, address, now);
        }
        rows := rows[petId := r.value];
      }
    }

    /** `updateOwner`: fetch the row, reject the same owner, otherwise write the commit. */
    method UpdateOwner(petId: int, newOwner: Address) returns (r: Result<Pet, UpdateError>)
      requires Valid()
      modifies this
      ensures Valid() && created == old(created) && order == old(order)
      ensures petId !in old(rows) ==> r == Failure(RowMissing)
      ensures petId in old(rows) ==> r == CommitRow(old(rows)[petId], newOwner)
      ensures rows == if r.Success? then old(rows)[petId := r.value] else old(rows)
      ensures old(RostersOk()) ==> RostersOk()
    {
      if petId !in rows {
        return Failure(RowMissing);
      }
      r := CommitRow(rows[petId], newOwner);
      if r.Success? {
        rows := rows[petId := r.value];
      }
    }

    /** `updateNFT`: set the mint flag of the row; with no such row nothing
        matches and the single-row result is an error. */
    method UpdateNFT(petId: int) returns (r: Result<Pet, UpdateError>)
      requires Valid()
      modifies this
      ensures Valid() && created == old(created) && order == old(order)
      ensures petId !in old(rows) ==> r == Failure(RowMissing)
      ensures petId in old(rows) ==> r == Success(MintRow(old(rows)[petId]))
      ensures rows == if r.Success? then old(rows)[petId := r.value] else old(rows)
      ensures old(RostersOk()) ==> RostersOk()
    {
      if petId !in rows {
        return Failure(RowMissing);
      }
      var minted := MintRow(rows[petId]);
      rows := rows[petId := minted];
      r := Success(minted);
    }

    /** `getPetById`: the single row with that id, if there is one. */
    function PetById(id: int): (r: Option<Pet>)
      reads this
      requires Valid()
      ensures r.Some? <==> id in rows
      ensures r.Some? ==> r.value == rows[id] && r.value.id == id
    {
      if id in rows then Some(rows[id]) else None
    }

    /** `getPetsByStatus`: every row whose stored status text is `text`, in storage order. */
    function PetsByStatus(text: string): (r: seq<Pet>)
      reads this
      requires Valid()
      ensures ListsRows(r)
      ensures forall i :: 0 <= i < |r| ==> StatusText(r[i].status) == text
      ensures forall k :: k in rows && StatusText(rows[k].status) == text ==> exists i :: 0 <= i < |r| && r[i].id == k
    {
      var ids := SelectByStatus(rows, order, text);
      RowsOfDistinct(rows, ids);
      RowsOf(rows, ids)
    }

    /** `getPets`: every row, ordered by `created_at` ascending. */
    function PetsByCreation(): (r: seq<Pet>)
      reads this
      requires Valid()
      ensures ListsRows(r) && |r| == |order|
      ensures forall k :: k in rows ==> exists i :: 0 <= i < |r| && r[i].id == k
      ensures forall i, j :: 0 <= i < j < |r| ==> created[r[i].id] <= created[r[j].id]
    {
      assert forall k :: k in order ==> k in created;
      var ids := SortByCreation(order, created);
      RowsOfDistinct(rows, ids);
      RowsOf(rows, ids)
    }
  }

  /** The ids of `ord` whose row has status text `text`, in the order of `ord`. */
  function SelectByStatus(m: map<int, Pet>, ord: seq<int>, text: string): (ids: seq<int>)
    requires Distinct(ord)
    ensures Distinct(ids)
    ensures forall i :: 0 <= i < |ids| ==> ids[i] in ord && ids[i] in m && StatusText(m[ids[i]].status) == text
    ensures forall k :: k in ord && k in m && StatusText(m[k].status) == text ==> k in ids
    decreases |ord|
  {
    if ord == [] then []
    else
      var prev, k := ord[..|ord| - 1], ord[|ord| - 1];
      assert ord == prev + [k];
      var ids := SelectByStatus(m, prev, text);
      if k in m && StatusText(m[k].status) == text then ids + [k] else ids
  }

  /** The first position of `ids` whose creation time exceeds that of `k`. */
  function InsertPos(ids: seq<int>, c: map<int, int>, k: int): (j: nat)
    requires forall i :: 0 <= i < |ids| ==> ids[i] in c
    requires k in c
    ensures j <= |ids|
    ensures forall i :: 0 <= i < j ==> c[ids[i]] <= c[k]
    ensures j < |ids| ==> c[k] < c[ids[j]]
    decreases |ids|
  {
    if ids == [] || c[k] < c[ids[0]] then 0 else 1 + InsertPos(ids[1..], c, k)
  }

  /** The ids of `ord` in non-decreasing creation time, each exactly once. */
  function SortByCreation(ord: seq<int>, c: map<int, int>): (ids: seq<int>)
    requires forall k :: k in ord ==> k in c
    requires Distinct(ord)
    ensures |ids| == |ord|
    ensures forall x :: x in ids <==> x in ord
    ensures forall i :: 0 <= i < |ids| ==> ids[i] in c
    ensures Distinct(ids) && SortedByCreation(ids, c)
    decreases |ord|
  {
    if ord == [] then []
    else
      var prev, k := ord[..|ord| - 1], ord[|ord| - 1];
      assert ord == prev + [k];
      var ids := SortByCreation(prev, c);
      var j := InsertPos(ids, c, k);
      InsertSorted(ids, c, j, k);
      ids[..j] + [k] + ids[j..]
  }

  /** The rows stored under `ids`, in that order. */
  function RowsOf(m: map<int, Pet>, ids: seq<int>): (r: seq<Pet>)
    requires forall i :: 0 <= i < |ids| ==> ids[i] in m
    requires forall k :: k in m ==> m[k].id == k
    ensures |r| == |ids|
    ensures forall i :: 0 <= i < |r| ==> r[i] == m[ids[i]] && r[i].id == ids[i]
  {
    seq(|ids|, i requires 0 <= i < |ids| => m[ids[i]])
  }

  /** The positions of `ids[..j] + [k] + ids[j..]`: the prefix, then `k`, then the rest shifted by one. */
  lemma InsertAt(ids: seq<int>, j: nat, k: int)
    requires j <= |ids|
    ensures var s := ids[..j] + [k] + ids[j..];
      && |s| == |ids| + 1
      && (forall i :: 0 <= i < j ==> s[i] == ids[i])
      && s[j] == k
      && (forall i :: j < i < |s| ==> s[i] == ids[i - 1])
      && (forall x :: x in s <==> x in ids || x == k)
  {
    assert ids == ids[..j] + ids[j..];
  }

  /** Rows looked up under distinct ids have distinct ids, and every id looked up is among them. */
  lemma RowsOfDistinct(m: map<int, Pet>, ids: seq<int>)
    requires forall i :: 0 <= i < |ids| ==> ids[i] in m
    requires forall k :: k in m ==> m[k].id == k
    requires Distinct(ids)
    ensures DistinctIds(RowsOf(m, ids))
    ensures forall k :: k in ids ==> exists i :: 0 <= i < |RowsOf(m, ids)| && RowsOf(m, ids)[i].id == k
  {
    var r := RowsOf(m, ids);
    forall k | k in ids
      ensures exists i :: 0 <= i < |r| && r[i].id == k
    {
      var i :| 0 <= i < |ids| && ids[i] == k;
      assert r[i].id == k;
    }
  }

  /** Inserting `k` at the first position whose creation time exceeds its own
      keeps a sorted, duplicate-free id list sorted and duplicate free. */
  lemma InsertSorted(ids: seq<int>, c: map<int, int>, j: nat, k: int)
    requires forall i :: 0 <= i < |ids| ==> ids[i] in c
    requires k in c && k !in ids
    requires j <= |ids| && Distinct(ids) && SortedByCreation(ids, c)
    requires forall i :: 0 <= i < j ==> c[ids[i]] <= c[k]
    requires j < |ids| ==> c[k] < c[ids[j]]
    ensures var s := ids[..j] + [k] + ids[j..];
      && |s| == |ids| + 1
      && (forall x :: x in s <==> x in ids || x == k)
      && (forall i :: 0 <= i < |s| ==> s[i] in c)
      && Distinct(s) && SortedByCreation(s, c)
  {
    var s := ids[..j] + [k] + ids[j..];
    InsertAt(ids, j, k);
    assert forall i :: 0 <= i < |s| ==> s[i] in c;
    forall a, b | 0 <= a < b < |s|
      ensures s[a] != s[b] && c[s[a]] <= c[s[b]]
    {
      if b < j {
      } else if b == j {
      } else if a < j {
      } else if a == j {
        assert c[ids[j]] <= c[ids[b - 1]];
      } else {
      }
    }
  }
}
