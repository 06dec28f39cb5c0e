/**
 The ring of photo-provider/cache.c, updated in place. Every method is the body of one critical
 section (the mutex is held from its first statement to its last), and every one is proved to do
 to the ring what the matching operation does to the unbounded roll of module PhotoRoll.
 */
module PhotoCache {
  import opened Modular
  import opened PhotoRoll
  import opened Wrappers

  /** The slot of a logical position. */
  function SlotOf(pos: int, cap: nat): (j: nat)
    requires cap > 0
    ensures j < cap
  {
    pos % cap
  }

  /** Positions less than one capacity apart never share a slot. */
  lemma SlotsDiffer(i: int, j: int, cap: nat)
    requires cap > 0 && i < j < i + cap
    ensures SlotOf(i, cap) != SlotOf(j, cap)
  {
    ResiduesDiffer(i, j, cap);
  }

  /** In a window of one capacity, a position has its slot to itself. */
  lemma OthersDiffer(i: int, from: int, cap: nat)
    requires cap > 0 && from <= i < from + cap
    ensures forall k :: from <= k < from + cap && k != i ==> SlotOf(k, cap) != SlotOf(i, cap)
  {
    forall k | from <= k < from + cap && k != i
      ensures SlotOf(k, cap) != SlotOf(i, cap)
    {
      if k < i { SlotsDiffer(k, i, cap); } else { SlotsDiffer(i, k, cap); }
    }
  }

  class Cache {
    const depths: Limits
    const buf: array<Option<Photo>>
    var head: int
    var cursor: int
    var tail: int
    var generation: nat
    var shutdown: bool

    /** Every photo placed since the last flush, and the cursor. */
    ghost var roll: Roll
    /** Every descriptor handed to close(), in order. */
    ghost var closed: seq<nat>

    /** The state the mutex protects, as the operations of module PhotoRoll see it. */
    ghost function State(): CacheState
      reads this
    {
      CacheState(roll, generation, shutdown, closed)
    }

    ghost predicate Valid()
      reads this, buf
    {
      && buf.Length == depths.Capacity()
      && roll.Valid(buf.Length)
      && cursor == roll.cursor
      && tail == |roll.photos|
      && head == roll.Head(buf.Length)
      && (forall i :: head <= i < tail ==> buf[SlotOf(i, buf.Length)] == Some(roll.photos[i]))
      && (forall i :: tail <= i < head + buf.Length ==> buf[SlotOf(i, buf.Length)] == None)
    }

    constructor (historyDepth: nat, cacheDepth: nat)
      ensures Valid() && fresh(buf)
      ensures depths == Depths(historyDepth, if cacheDepth == 0 then 1 else cacheDepth)
      ensures State() == CacheState(EMPTY, 0, false, [])
    {
      depths := Depths(historyDepth, if cacheDepth == 0 then 1 else cacheDepth);
      buf := new Option<Photo>[historyDepth + 1 + (if cacheDepth == 0 then 1 else cacheDepth)](_ => None);
      head, cursor, tail := 0, -1, 0;
      generation, shutdown := 0, false;
      roll, closed := EMPTY, [];
    }

    method EntryClose(j: nat)
      requires j < buf.Length
      modifies buf, this`closed
      ensures buf[j] == None
      ensures forall k :: 0 <= k < buf.Length && k != j ==> buf[k] == old(buf[k])
      ensures closed == old(closed) + (if old(buf[j]).Some? then [old(buf[j]).value.fd] else [])
    {
      if buf[j].Some? {
        closed := closed + [buf[j].value.fd];
      }
      buf[j] := None;
    }

    /** The loop of flush_locked: every slot of the window ends up empty. */
    method CloseWindow()
      requires Valid()
      modifies this`closed, buf
      ensures forall k :: head <= k < head + buf.Length ==> buf[SlotOf(k, buf.Length)] == None
      ensures closed == old(closed) + Fds(roll.Held(buf.Length))
    {
      var i := head;
      while i < tail
        invariant head <= i <= tail
        invariant forall k :: i <= k < tail ==> buf[SlotOf(k, buf.Length)] == Some(roll.photos[k])
        invariant forall k :: head <= k < i || tail <= k < head + buf.Length ==> buf[SlotOf(k, buf.Length)] == None
        invariant closed == old(closed) + Fds(roll.photos[head..i])
      {
        OthersDiffer(i, head, buf.Length);
        EntryClose(SlotOf(i, buf.Length));
        FdsGrow(roll.photos, head, i);
        i := i + 1;
      }
    }

    /** Closes exactly the held photos, once each, and starts an empty roll. */
    method FlushLocked()
      requires Valid()
      modifies this`head, this`cursor, this`tail, this`roll, this`closed, buf
      ensures Valid() && State() == old(State()).Flush(buf.Length)
    {
      CloseWindow();
      forall j | 0 <= j < buf.Length
        ensures buf[j] == None
      {
        var k := ResidueReached(head, j, buf.Length);
        assert buf[SlotOf(k, buf.Length)] == None;
      }
      head, tail, cursor := 0, 0, -1;
      roll := EMPTY;
    }

    method Invalidate()
      requires Valid()
      modifies this`head, this`cursor, this`tail, this`roll, this`closed, this`generation, buf
      ensures Valid() && State() == old(State()).Invalidate(buf.Length)
    {
      FlushLocked();
      generation := generation + 1;
    }

    method ShouldFetchLocked() returns (should: bool)
      requires Valid()
      ensures should == roll.ShouldFetch(depths)
    {
      var ahead := tail - cursor - 1;
      if ahead >= depths.prefetch {
        return false;
      }
      var occupied := tail - head;
      if occupied < buf.Length {
        return true;
      }
      return head < cursor;
    }

    /** Evicts from the old end while the ring is full, stopping short of the photo on screen. */
    method MakeRoom()
      requires Valid()
      modifies this`head, this`closed, buf
      ensures !roll.HasRoom(buf.Length) ==> Valid() && closed == old(closed) && tail - head == buf.Length
      ensures roll.HasRoom(buf.Length) ==>
          && tail - head < buf.Length
          && head == old(head) + (if tail - old(head) < buf.Length then 0 else 1)
          && closed == old(closed) + roll.Evicted(buf.Length)
          && (forall k :: head <= k < tail ==> buf[SlotOf(k, buf.Length)] == Some(roll.photos[k]))
          && (forall k :: tail <= k < head + buf.Length ==> buf[SlotOf(k, buf.Length)] == None)
    {
      while tail - head >= buf.Length && head < cursor
        invariant old(head) <= head <= old(head) + 1
        invariant head == old(head) ==> closed == old(closed)
        invariant head == old(head) ==> forall j :: 0 <= j < buf.Length ==> buf[j] == old(buf[j])
        invariant head > old(head) ==>
            && tail - old(head) == buf.Length && old(head) < cursor
            && closed == old(closed) + [roll.photos[old(head)].fd]
            && buf[SlotOf(old(head), buf.Length)] == None
            && (forall j :: 0 <= j < buf.Length && j != SlotOf(old(head), buf.Length) ==> buf[j] == old(buf[j]))
        decreases cursor - head
      {
        EntryClose(SlotOf(head, buf.Length));
        head := head + 1;
      }
      OthersDiffer(old(head), old(head), buf.Length);
      ResidueRepeats(old(head), buf.Length);
    }

    /**
     What the worker does with a fetched photo once it has the mutex again: discard it when the
     configuration moved on, else make room, else drop it.
     */
    method Place(gen: nat, photo: Photo)
      requires Valid()
      modifies this`head, this`tail, this`roll, this`closed, buf
      ensures Valid() && State() == old(State()).Place(gen, photo, buf.Length)
    {
      if gen != generation || shutdown {
        closed := closed + [photo.fd];
        return;
      }
      MakeRoom();
      if tail - head >= buf.Length {
        closed := closed + [photo.fd];
        return;
      }
      OthersDiffer(tail, head, buf.Length);
      assert buf[SlotOf(tail, buf.Length)] == None;  // the slot was free: no descriptor is overwritten
      buf[SlotOf(tail, buf.Length)] := Some(photo);
      tail := tail + 1;
      roll := roll.Offer(photo, buf.Length);
    }

    /** One attempt to deliver the next photo; None sends the caller to (or back to) its timed wait. */
    method PopLocked() returns (photo: Option<Photo>)
      requires Valid()
      modifies this`cursor, this`roll
      ensures Valid() && State() == old(State()).Pop()
      ensures photo == if old(roll).Starved() then None else Some(roll.photos[roll.cursor])
    {
      if cursor + 1 >= tail {
        return None;
      }
      cursor := cursor + 1;
      roll := roll.Advance();
      photo := buf[SlotOf(cursor, buf.Length)];
    }

    method PopPrev() returns (photo: Option<Photo>)
      requires Valid()
      modifies this`cursor, this`roll
      ensures Valid() && State() == old(State()).PopPrev(buf.Length)
      ensures photo == if old(roll).HasPrev(buf.Length) then Some(roll.photos[roll.cursor]) else None
    {
      if cursor <= head {
        return None;
      }
      cursor := cursor - 1;
      roll := roll.Retreat();
      photo := buf[SlotOf(cursor, buf.Length)];
    }
  }
}
