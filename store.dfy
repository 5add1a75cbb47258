/** The task collection behind the hub. The document store's own code is not
    part of this model; these functions state what the hub relies on from
    `Task.find`, `Task.create`, `Task.findByIdAndUpdate(id, data, { new: true })`
    and `Task.findByIdAndDelete`: the collection is a sequence in insertion
    order, a created record gets an id no record has had, an update replaces
    the record with the id and returns it (or returns null), and a delete
    removes the record with the id if there is one. */
module Store {
  import opened Tasks
  import opened Reconcile

  /** The position of the first record carrying `id`. */
  function IndexOf(store: seq<Task>, id: Id): (r: Option<nat>)
    ensures r.None? <==> !HasId(store, id)
    ensures r.Some? ==> r.value < |store| && store[r.value].id == id &&
                        forall j :: 0 <= j < r.value ==> store[j].id != id
  {
    if store == [] then None
    else if store[0].id == id then Some(0)
    else match IndexOf(store[1..], id)
      case None => None
      case Some(i) => Some(i + 1)
  }

  /** `Task.create(data)`: the stored record carries the submitted fields and
      the id `newId`, and is added after the existing ones. */
  function Create(store: seq<Task>, data: Draft, newId: Id): (r: seq<Task>)
    ensures |r| == |store| + 1 && r[..|store|] == store
    ensures r[|store|] == data.WithId(newId)
  {
    store + [data.WithId(newId)]
  }

  /** What `findByIdAndUpdate` returns and the collection it leaves. */
  datatype Updated = Updated(record: Option<Task>, store: seq<Task>)

  /** `Task.findByIdAndUpdate(data._id, data, { new: true })`: the post-update
      record, or null and no change when no record has the id. */
  function FindByIdAndUpdate(store: seq<Task>, data: Task): (u: Updated)
    ensures u.record.None? <==> !HasId(store, data.id)
    ensures u.record.None? ==> u.store == store
    ensures u.record.Some? ==>
              (u.record.value == data && |u.store| == |store| &&
               exists i :: 0 <= i < |store| && store[i].id == data.id && u.store == store[i := data])
  {
    match IndexOf(store, data.id)
    case None => Updated(None, store)
    case Some(i) => Updated(Some(data), store[i := data])
  }

  /** `Task.findByIdAndDelete(id)`: the record with the id is gone; without one
      nothing changes. */
  function FindByIdAndDelete(store: seq<Task>, id: Id): (r: seq<Task>)
    ensures !HasId(store, id) ==> r == store
    ensures HasId(store, id) ==> |r| == |store| - 1
    ensures HasId(store, id) ==>
              exists i :: 0 <= i < |store| && store[i].id == id && r == store[..i] + store[i + 1..]
  {
    match IndexOf(store, id)
    case None => store
    case Some(i) => store[..i] + store[i + 1..]
  }

  // ---------------------------------------------------------------------------
  // Ids stay unique

  /** A create with an unused id keeps ids unique and below the next free one. */
  lemma CreateKeepsIds(store: seq<Task>, data: Draft, newId: Id)
    requires UniqueIds(store) && IdsBelow(store, newId)
    ensures UniqueIds(Create(store, data, newId)) && IdsBelow(Create(store, data, newId), newId + 1)
    ensures !HasId(store, newId)
  {
  }

  /** An update keeps the set of ids and their positions. */
  lemma UpdateKeepsIds(store: seq<Task>, data: Task, next: Id)
    requires UniqueIds(store) && IdsBelow(store, next)
    ensures var s := FindByIdAndUpdate(store, data).store;
            UniqueIds(s) && IdsBelow(s, next)
  {
  }

  /** A delete keeps ids unique and below the next free one. */
  lemma DeleteKeepsIds(store: seq<Task>, id: Id, next: Id)
    requires UniqueIds(store) && IdsBelow(store, next)
    ensures var s := FindByIdAndDelete(store, id);
            UniqueIds(s) && IdsBelow(s, next) && !HasId(s, id)
  {
    DeleteIsRemove(store, id);
    RemoveByIdKeepsUnique(store, id);
    RemoveByIdRemoves(store, id);
  }

  // ---------------------------------------------------------------------------
  // The store's operations agree with the sessions' list expressions

  /** With unique ids, the store's update and the sessions' map-replace give the
      same list. */
  lemma UpdateIsReplace(store: seq<Task>, data: Task)
    requires UniqueIds(store)
    ensures FindByIdAndUpdate(store, data).store == ReplaceById(store, data)
  {
    match IndexOf(store, data.id)
    case None =>
      ReplaceByIdNoMatch(store, data);
    case Some(i) =>
      assert forall j :: 0 <= j < |store| && j != i ==> store[j].id != data.id;
  }

  /** Filtering out the id carried by the record at `i` and by no other cuts
      exactly that record out. */
  lemma {:induction false} RemoveTheOne(xs: seq<Task>, i: nat, id: Id)
    requires i < |xs| && xs[i].id == id
    requires forall j :: 0 <= j < |xs| && j != i ==> xs[j].id != id
    ensures RemoveById(xs, id) == xs[..i] + xs[i + 1..]
    decreases i
  {
    if i == 0 {
      TailUnmatched(xs, id);
      assert xs[..0] + xs[1..] == xs[1..];
    } else {
      var rest := xs[1..];
      TailKeepsUnmatched(xs, i, id);
      RemoveTheOne(rest, i - 1, id);
      KeptHead(xs, i, id);
    }
  }

  /** The filter drops a first record that carries the id, and nothing after it. */
  lemma TailUnmatched(xs: seq<Task>, id: Id)
    requires xs != [] && xs[0].id == id
    requires forall j :: 0 < j < |xs| ==> xs[j].id != id
    ensures RemoveById(xs, id) == xs[1..]
  {
    var rest := xs[1..];
    assert !HasId(rest, id) by {
      forall k | 0 <= k < |rest| ensures rest[k].id != id {
        assert rest[k] == xs[k + 1];
      }
    }
    RemoveByIdNoMatch(rest, id);
  }

  /** The only record of `xs[1..]` that carries the id is at `i - 1`. */
  lemma TailKeepsUnmatched(xs: seq<Task>, i: nat, id: Id)
    requires 0 < i < |xs|
    requires forall j :: 0 <= j < |xs| && j != i ==> xs[j].id != id
    ensures forall j :: 0 <= j < |xs[1..]| && j != i - 1 ==> xs[1..][j].id != id
  {
  }

  /** A first record without the id stays in front of whatever the filter
      leaves of the rest. */
  lemma KeptHead(xs: seq<Task>, i: nat, id: Id)
    requires 0 < i < |xs| && xs[0].id != id
    requires RemoveById(xs[1..], id) == xs[1..][..i - 1] + xs[1..][i..]
    ensures RemoveById(xs, id) == xs[..i] + xs[i + 1..]
  {
    assert xs[1..][..i - 1] == xs[1..i];
    assert xs[1..][i..] == xs[i + 1..];
    assert xs[..i] == [xs[0]] + xs[1..i];
  }

  /** With unique ids, the store's delete and the sessions' filter give the same list. */
  lemma DeleteIsRemove(store: seq<Task>, id: Id)
    requires UniqueIds(store)
    ensures FindByIdAndDelete(store, id) == RemoveById(store, id)
  {
    match IndexOf(store, id)
    case None =>
      RemoveByIdNoMatch(store, id);
    case Some(i) =>
      RemoveTheOne(store, i, id);
  }
}
