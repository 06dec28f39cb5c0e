/**
 The photo cache as its users think of it: an unbounded roll of photos, in the order they were
 fetched since the last flush, and a cursor on the photo on screen. The bounded ring of cache.c
 (module PhotoCache) keeps the end of this roll, and the interleaving model (module
 PhotoProvider) runs on it directly.
 */
module PhotoRoll {
  /** The settings a photo is rendered for by the server. */
  datatype Config = Config(w: nat, h: nat, qr: bool)

  /** A fetched photo: its memfd, its metadata, and the settings the server knew when it served it. */
  datatype Photo = Photo(fd: nat, meta: string, cfg: Config)

  /** How many delivered photos are kept for "prev", and how many are fetched ahead. */
  datatype Depths = Depths(history: nat, prefetch: nat) {
    function Capacity(): (c: nat)
      ensures c > history && c > prefetch
    {
      history + 1 + prefetch
    }
  }

  type Limits = d: Depths | d.prefetch >= 1 witness Depths(0, 1)

  /** `cursor` is -1 until the first photo is delivered. */
  datatype Roll = Roll(photos: seq<Photo>, cursor: int) {
    /** The oldest position still held by a ring of capacity `cap`. */
    function Head(cap: nat): nat {
      if |photos| <= cap then 0 else |photos| - cap
    }

    function Held(cap: nat): seq<Photo> {
      photos[Head(cap)..]
    }

    /** The cursor is on a held photo, or nothing was delivered yet. */
    ghost predicate Valid(cap: nat) {
      && -1 <= cursor < |photos|
      && if cursor == -1 then Head(cap) == 0 else Head(cap) <= cursor
    }

    /** A consumer that asks for the next photo has to wait. */
    predicate Starved() {
      cursor + 1 >= |photos|
    }

    predicate HasPrev(cap: nat) {
      cursor > Head(cap)
    }

    /** There is a free place, or one that can be freed without touching the photo on screen. */
    predicate HasRoom(cap: nat) {
      |photos| - Head(cap) < cap || Head(cap) < cursor
    }

    predicate ShouldFetch(d: Depths) {
      |photos| - cursor - 1 < d.prefetch && HasRoom(d.Capacity())
    }

    function Advance(): Roll {
      this.(cursor := cursor + 1)
    }

    function Retreat(): Roll {
      this.(cursor := cursor - 1)
    }

    /** The roll after a fetched photo is offered: it joins the end, or is dropped. */
    function Offer(p: Photo, cap: nat): Roll {
      if HasRoom(cap) then this.(photos := photos + [p]) else this
    }

    /** The descriptor of the photo that a push into a full ring evicts. */
    function Evicted(cap: nat): seq<nat> {
      if HasRoom(cap) && |photos| - Head(cap) >= cap && Head(cap) < |photos| then [photos[Head(cap)].fd] else []
    }
  }

  const EMPTY := Roll([], -1)

  function Fds(ps: seq<Photo>): (fds: seq<nat>)
    ensures |fds| == |ps|
    ensures forall i :: 0 <= i < |ps| ==> fds[i] == ps[i].fd
  {
    seq(|ps|, i requires 0 <= i < |ps| => ps[i].fd)
  }

  lemma FdsGrow(ps: seq<Photo>, from: nat, i: nat)
    requires from <= i < |ps|
    ensures Fds(ps[from..i + 1]) == Fds(ps[from..i]) + [ps[i].fd]
  {
    assert ps[from..i + 1] == ps[from..i] + [ps[i]];
  }

  /** All the mutex of the cache protects; `closed` lists the descriptors handed to close(), in order. */
  datatype CacheState = CacheState(roll: Roll, generation: nat, shutdown: bool, closed: seq<nat>) {
    function Flush(cap: nat): CacheState {
      this.(roll := EMPTY, closed := closed + Fds(roll.Held(cap)))
    }

    function Invalidate(cap: nat): CacheState {
      this.(roll := EMPTY, closed := closed + Fds(roll.Held(cap)), generation := generation + 1)
    }

    /** A photo fetched under generation `gen` can still be used, and there is a place for it. */
    predicate Accepts(gen: nat, cap: nat) {
      gen == generation && !shutdown && roll.HasRoom(cap)
    }

    /** A photo fetched under generation `gen` comes back to the cache. */
    function Place(gen: nat, photo: Photo, cap: nat): CacheState {
      if Accepts(gen, cap) then
        this.(roll := roll.Offer(photo, cap), closed := closed + roll.Evicted(cap))
      else
        this.(closed := closed + [photo.fd])
    }

    function Pop(): CacheState {
      if roll.Starved() then this else this.(roll := roll.Advance())
    }

    function PopPrev(cap: nat): CacheState {
      if roll.HasPrev(cap) then this.(roll := roll.Retreat()) else this
    }

    /** Every descriptor that is closed or held, as often as it is. */
    ghost function Accounts(cap: nat): multiset<nat> {
      multiset(closed + Fds(roll.Held(cap)))
    }
  }

  lemma InsertOne(a: seq<nat>, x: nat, b: seq<nat>)
    ensures multiset(a + [x] + b) == multiset(a + b) + multiset{x}
  {
    assert multiset(a + [x] + b) == multiset(a) + multiset{x} + multiset(b);
    assert multiset(a + b) == multiset(a) + multiset(b);
  }

  lemma Regroup(closed: seq<nat>, evicted: seq<nat>, after: seq<nat>, held: seq<nat>, fd: nat)
    requires evicted + after == held + [fd]
    ensures multiset(closed + evicted + after) == multiset(closed + held) + multiset{fd}
  {
    assert closed + evicted + after == closed + (evicted + after) == closed + held + [fd] + [];
    InsertOne(closed + held, fd, []);
    assert closed + held + [] == closed + held;
  }

  /** What a push closes and what it leaves held are, in order, what was held and the new photo. */
  lemma OfferShifts(r: Roll, photo: Photo, cap: nat)
    requires cap > 0 && r.HasRoom(cap)
    ensures r.Evicted(cap) + Fds(r.Offer(photo, cap).Held(cap)) == Fds(r.Held(cap)) + [photo.fd]
  {
  }

  /** Placing a photo adds its descriptor, and no other, to what is closed or held: eviction loses none. */
  lemma PlaceConserves(c: CacheState, gen: nat, photo: Photo, cap: nat)
    requires cap > 0
    ensures c.Place(gen, photo, cap).Accounts(cap) == c.Accounts(cap) + multiset{photo.fd}
  {
    var held := Fds(c.roll.Held(cap));
    if c.Accepts(gen, cap) {
      OfferShifts(c.roll, photo, cap);
      Regroup(c.closed, c.roll.Evicted(cap), Fds(c.roll.Offer(photo, cap).Held(cap)), held, photo.fd);
    } else {
      InsertOne(c.closed, photo.fd, held);
    }
  }

  /** Flushing closes every held descriptor once and holds none. */
  lemma FlushConserves(c: CacheState, cap: nat)
    ensures c.Flush(cap).Accounts(cap) == c.Invalidate(cap).Accounts(cap) == c.Accounts(cap)
    ensures multiset(c.Flush(cap).closed) == c.Accounts(cap)
  {
    var fds := c.closed + Fds(c.roll.Held(cap));
    assert EMPTY.Held(cap) == [] && fds + Fds([]) == fds;
  }

  /** A starved consumer always leaves the worker something to do, so the two never wait for each other. */
  lemma StarvedMeansFetch(r: Roll, d: Limits)
    requires r.Valid(d.Capacity())
    requires r.Starved()
    ensures r.ShouldFetch(d)
  {
  }

  /** Stepping back needs no wake-up: it never gives an idle worker anything to do. */
  lemma RetreatKeepsIdle(r: Roll, d: Limits)
    requires r.HasPrev(d.Capacity())
    requires !r.ShouldFetch(d)
    ensures !r.Retreat().ShouldFetch(d)
  {
  }

  /** No operation loses the photo on screen, and every one keeps the cursor on a held photo. */
  lemma RollStaysValid(r: Roll, p: Photo, d: Limits)
    requires r.Valid(d.Capacity())
    ensures EMPTY.Valid(d.Capacity())
    ensures r.Offer(p, d.Capacity()).Valid(d.Capacity())
    ensures !r.Starved() ==> r.Advance().Valid(d.Capacity())
    ensures r.HasPrev(d.Capacity()) ==> r.Retreat().Valid(d.Capacity())
  {
  }
}
