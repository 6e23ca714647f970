/** The connection tracker as the C code keeps it: a static array of growable lists whose entries
    are appended, searched front to back and marked in place, and a running counter. */
module ConnectionTable {
  import opened Bytes
  import opened Connections
  import opened Buckets

  /** src/slist.c: an array with spare capacity, doubled when it is full. */
  class SList {
    var data: array<Cell>
    var size: nat

    ghost predicate Valid()
      reads this
    {
      size <= data.Length && data.Length > 0
    }

    ghost function Contents(): Bucket
      requires Valid()
      reads this, data
    {
      data[..size]
    }

    constructor (capacity: nat)
      requires capacity > 0
      ensures Valid() && Contents() == [] && fresh(data) && data.Length == capacity
    {
      data := new Cell[capacity](_ => Cell(Entry(Key(0, 0, 0, 0), true), 0, 0, 0));
      size := 0;
    }

    /** slist_alloc. */
    method Alloc(growth: nat)
      requires Valid()
      modifies this`data
      ensures Valid() && Contents() == old(Contents()) && fresh(data)
      ensures data.Length == old(data.Length) + growth
    {
      var bigger := new Cell[data.Length + growth](_ => Cell(Entry(Key(0, 0, 0, 0), true), 0, 0, 0));
      forall i | 0 <= i < size { bigger[i] := data[i]; }
      data := bigger;
    }

    /** slist_put. */
    method Put(c: Cell)
      requires Valid()
      modifies this, data
      ensures Valid() && Contents() == old(Contents()) + [c]
      ensures data == old(data) || fresh(data)
      ensures data.Length == if old(size) == old(data.Length) then 2 * old(data.Length) else old(data.Length)
    {
      if size == data.Length {
        Alloc(data.Length);
      }
      data[size] := c;
      size := size + 1;
    }

    /** slist_find with connection_id_cmp: the first element equal to the entry. */
    method Find(e: Entry) returns (found: bool, i: nat)
      requires Valid()
      ensures found ==> i < |Contents()| && Contents()[i].entry == e
      ensures found ==> forall j :: 0 <= j < i ==> Contents()[j].entry != e
      ensures !found ==> forall j :: 0 <= j < |Contents()| ==> Contents()[j].entry != e
    {
      i := 0;
      while i < size
        invariant i <= size
        invariant forall j :: 0 <= j < i ==> data[j].entry != e
      {
        if data[i].entry == e {
          return true, i;
        }
        i := i + 1;
      }
      found := false;
    }

    method Mark(i: nat)
      requires Valid() && i < size
      modifies data
      ensures Valid()
      ensures Contents() == old(Contents())[i := old(data[i]).(entry := old(data[i]).entry.(finished := true))]
    {
      data[i] := data[i].(entry := data[i].entry.(finished := true));
    }

    /** The two calls of entry_put for a new connection. */
    method Open(k: Key, id: nat, seqno: u32)
      requires Valid()
      modifies this, data
      ensures Valid() && Contents() == Opened(old(Contents()), k, id, seqno)
      ensures data == old(data) || fresh(data)
    {
      var n := size;
      Put(Cell(Entry(k, false), seqno, id, n + 1));
      Put(Cell(Entry(k.Reverse(), false), seqno, id, n));
    }

    method Close(i: nat)
      requires Valid() && i < size && data[i].sibling < size
      modifies data
      ensures Valid() && Contents() == Closed(old(Contents()), i)
    {
      var j := data[i].sibling;
      Mark(i);
      Mark(j);
    }

    /** The changes a new connection makes to its list; the new entries are appended before the
        old ones, if any, are marked. */
    method Enter(k: Key, id: nat, seqno: u32, found: bool, i: nat)
      requires Valid() && (found ==> i < |Contents()| && Paired(Contents()))
      modifies this, data
      ensures Valid() && Contents() == Entered(old(Contents()), found, i, k, id, seqno)
      ensures data == old(data) || fresh(data)
    {
      ghost var before := Contents();
      Open(k, id, seqno);
      if found {
        assert Contents()[i] == before[i];
        CloseThenOpen(before, i, k, id, seqno);
        Close(i);
      }
    }
  }

  class Table {
    const list: array<SList>
    var counter: nat

    /** The contents of the lists, and the map they stand for. */
    ghost var views: seq<Bucket>
    ghost var model: Tracker

    /** The lists share no memory and hold the buckets `views`. */
    ghost predicate Stored()
      reads this`views, list, list[..], set n | 0 <= n < list.Length :: list[n].data
    {
      && list.Length == BUCKET_COUNT == |views|
      && (forall n :: 0 <= n < list.Length ==> list[n].Valid() && list[n].Contents() == views[n])
      && (forall n, m :: 0 <= n < m < list.Length ==> list[n] != list[m] && list[n].data != list[m].data)
    }

    ghost predicate Valid()
      reads this, list, list[..], set n | 0 <= n < list.Length :: list[n].data
    {
      Stored() && Refines(views, counter, model)
    }

    constructor ()
      ensures Valid() && model == NEW
      ensures fresh(list) && forall n :: 0 <= n < list.Length ==> fresh(list[n]) && fresh(list[n].data)
    {
      var first := new SList(32);
      var ls := new SList[BUCKET_COUNT](_ => first);
      list := ls;
      counter, model := 0, NEW;
      views := seq(BUCKET_COUNT, _ => []);
      new;
      for i := 0 to BUCKET_COUNT
        invariant fresh(list) && list.Length == BUCKET_COUNT && counter == 0 && model == NEW
        invariant views == seq(BUCKET_COUNT, _ => [])
        invariant forall n :: 0 <= n < i ==> fresh(list[n]) && fresh(list[n].data)
        invariant forall n :: 0 <= n < i ==> list[n].Valid() && list[n].Contents() == []
        invariant forall n, m :: 0 <= n < m < i ==> list[n] != list[m] && list[n].data != list[m].data
      {
        var l := new SList(32);
        list[i] := l;
      }
    }

    /** slist_find for the forward entry of a packet. */
    method Search(n: nat, k: Key) returns (found: bool, i: nat, c: Cell)
      requires Stored() && n < list.Length
      ensures found ==> i < |views[n]| && Live(views[n][i], k) && c == views[n][i]
      ensures !found ==> forall j :: 0 <= j < |views[n]| ==> !Live(views[n][j], k)
    {
      found, i := list[n].Find(Entry(k, false));
      assert views[n] == list[n].Contents();
      c := list[n].data[if found then i else 0];
    }

    /** A new connection in bucket `n`, closing the one at `i` if there is one. */
    method Enter(n: nat, k: Key, id: nat, seqno: u32, found: bool, i: nat)
      requires Stored() && n < list.Length
      requires found ==> i < |views[n]| && Paired(views[n])
      modifies this`views, list[n], list[n].data
      ensures list[n].data == old(list[n].data) || fresh(list[n].data)
      ensures Stored() && views == old(views)[n := Entered(old(views)[n], found, i, k, id, seqno)]
    {
      list[n].Enter(k, id, seqno, found, i);
      views := views[n := Entered(views[n], found, i, k, id, seqno)];
    }

    /** A packet that no live entry answers for: the next id, entered for both directions. */
    method Register(k: Key, t: Transport, found: bool, i: nat) returns (id: nat)
      requires Valid() && Buckets.Select(k) < list.Length
      requires found ==> i < |views[Buckets.Select(k)]| && Live(views[Buckets.Select(k)][i], k)
      requires found ==> !Answers(views[Buckets.Select(k)][i], t)
      requires !found ==> forall j :: 0 <= j < |views[Buckets.Select(k)]| ==> !Live(views[Buckets.Select(k)][j], k)
      modifies this, list[Buckets.Select(k)], list[Buckets.Select(k)].data
      ensures Valid() && model == Track(old(model), Tracked(k, t)).0 && id == Track(old(model), Tracked(k, t)).1
      ensures list[Buckets.Select(k)].data == old(list[Buckets.Select(k)].data) || fresh(list[Buckets.Select(k)].data)
    {
      TrackStep(views, counter, model, k, t, found, i);
      id := counter + 1;
      counter, model := id, Track(model, Tracked(k, t)).0;
      Enter(Buckets.Select(k), k, id, FirstSeq(t), found, i);
    }

    /** connection_id. */
    method ConnectionId(p: Packet) returns (id: nat)
      requires Valid()
      modifies this, list[..], set n | 0 <= n < list.Length :: list[n].data
      ensures Valid() && model == Track(old(model), p).0 && id == Track(old(model), p).1
      ensures forall n :: 0 <= n < list.Length ==> list[n].data == old(list[n].data) || fresh(list[n].data)
    {
      if p.Untracked? {
        return CONNECTION_ID_NONE;
      }
      SelectIsUndirected(p.key);
      var found, i, c := Search(Buckets.Select(p.key), p.key);
      if found && Answers(c, p.transport) {
        RefinesKnown(views, counter, model, p.key, p.transport, i);
        return c.id;
      }
      id := Register(p.key, p.transport, found, i);
    }
  }

  /** Over every packet sequence the table gives the ids of the plain map. */
  method TrackAll(ps: seq<Packet>) returns (ids: seq<nat>)
    ensures ids == Run(NEW, ps).1
  {
    var table := new Table();
    ids := [];
    for i := 0 to |ps|
      invariant fresh(table) && fresh(table.list) && table.Valid()
      invariant forall n :: 0 <= n < table.list.Length ==> fresh(table.list[n]) && fresh(table.list[n].data)
      invariant table.model == Run(NEW, ps[..i]).0 && ids == Run(NEW, ps[..i]).1
    {
      RunSnoc(NEW, ps[..i], ps[i]);
      assert ps[..i + 1] == ps[..i] + [ps[i]];
      var id := table.ConnectionId(ps[i]);
      ids := ids + [id];
    }
    assert ps[..|ps|] == ps;
  }
}
