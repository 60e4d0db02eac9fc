/**
 SelectSet (click/lib/selectset.cc, the select build): elements wait for file
 descriptors to become readable or writable.  _pollfds lists the descriptors
 in use without gaps, _selinfo is indexed by descriptor, and each points into
 the other.  To its callers the set is a map from descriptor and event to the
 element that waits.
 */
module SelectSet {
  import opened Wrappers

  const FD_SETSIZE := 1024

  datatype Event = Read | Write

  /** One entry of _pollfds. */
  datatype Pollfd = Pollfd(fd: nat, events: set<Event>)

  /** One entry of _selinfo; elements are numbers. */
  datatype Info = Info(read: Option<nat>, write: Option<nat>, pollfd: Option<nat>) {
    function At(ev: Event): Option<nat> {
      if ev == Read then read else write
    }

    function With(ev: Event, element: Option<nat>): Info {
      if ev == Read then this.(read := element) else this.(write := element)
    }
  }

  /** _pollfds and _selinfo. */
  datatype Table = Table(pollfds: seq<Pollfd>, selinfo: seq<Info>) {

    /** The two indices are inverse. */
    ghost predicate Indexed() {
      && (forall i :: 0 <= i < |pollfds| ==> pollfds[i].fd < |selinfo| && selinfo[pollfds[i].fd].pollfd == Some(i))
      && (forall fd: nat :: InUse(fd) ==> selinfo[fd].pollfd.value < |pollfds| && pollfds[selinfo[fd].pollfd.value].fd == fd)
    }

    predicate InUse(fd: nat) {
      fd < |selinfo| && selinfo[fd].pollfd.Some?
    }

    /** The events a descriptor is polled for. */
    function Events(fd: nat): set<Event> {
      if InUse(fd) && selinfo[fd].pollfd.value < |pollfds| then pollfds[selinfo[fd].pollfd.value].events else {}
    }

    /** The element that waits for an event. */
    function Waiting(fd: nat, ev: Event): Option<nat> {
      if fd < |selinfo| then selinfo[fd].At(ev) else None
    }
  }

  // ---- what every operation keeps -----------------------------------------

  /** An event is polled for iff an element waits for it, or the descriptor is read for the set's own sake. */
  ghost predicate Marked(t: Table, bare: set<nat>) {
    forall fd: nat, ev :: ev in t.Events(fd) <==> Wanted(t, bare, fd, ev)
  }

  predicate Wanted(t: Table, bare: set<nat>, fd: nat, ev: Event) {
    t.Waiting(fd, ev).Some? || (ev == Read && fd in bare)
  }

  /** No descriptor is in use for nothing. */
  ghost predicate Live(t: Table) {
    forall fd: nat :: t.InUse(fd) ==> t.Events(fd) != {}
  }

  /** An fd_set: the descriptors below FD_SETSIZE polled for the event. */
  ghost predicate IsSet(t: Table, fds: set<nat>, ev: Event) {
    forall fd: nat :: fd in fds <==> fd < FD_SETSIZE && ev in t.Events(fd)
  }

  /** The greatest descriptor in use below FD_SETSIZE, -1 if there is none. */
  ghost predicate IsMax(t: Table, max: int) {
    && -1 <= max < FD_SETSIZE
    && (max >= 0 ==> t.InUse(max))
    && (forall fd: nat :: t.InUse(fd) && fd < FD_SETSIZE ==> fd <= max)
  }

  // ---- changes to the table -----------------------------------------------

  /** Nothing about the descriptors but what is said of fd has changed. */
  ghost predicate Changed(t: Table, t': Table, fd: nat, inUse: bool, events: set<Event>) {
    && t'.Indexed()
    && (forall f: nat :: t'.InUse(f) <==> if f == fd then inUse else t.InUse(f))
    && (forall f: nat :: t'.Events(f) == if f == fd then events else t.Events(f))
    && (forall f: nat, ev :: t'.Waiting(f, ev) == t.Waiting(f, ev))
  }

  /** The start of register_select(): an entry for the descriptor, if it has none. */
  function Placed(t: Table, fd: nat): (t': Table)
    ensures t'.InUse(fd)
  {
    var grown := if fd >= |t.selinfo| then t.selinfo + seq(fd + 1 - |t.selinfo|, i => Info(None, None, None)) else t.selinfo;
    if grown[fd].pollfd.Some? then t.(selinfo := grown)
    else Table(t.pollfds + [Pollfd(fd, {})], grown[fd := grown[fd].(pollfd := Some(|t.pollfds|))])
  }

  lemma PlacedChanges(t: Table, fd: nat)
    requires t.Indexed()
    ensures Changed(t, Placed(t, fd), fd, true, t.Events(fd))
    ensures Placed(t, fd).selinfo[fd].pollfd.value < |Placed(t, fd).pollfds|
  {
    var t' := Placed(t, fd);
    assert forall f: nat :: f < |t.selinfo| && f != fd ==> t'.selinfo[f] == t.selinfo[f];
    assert forall f: nat :: t'.InUse(f) <==> f == fd || t.InUse(f);
    assert forall i :: 0 <= i < |t.pollfds| ==> t'.pollfds[i] == t.pollfds[i];
  }

  /** The events of one entry replaced. */
  function WithEvents(t: Table, pi: nat, events: set<Event>): Table
    requires pi < |t.pollfds|
  {
    t.(pollfds := t.pollfds[pi := t.pollfds[pi].(events := events)])
  }

  lemma WithEventsChanges(t: Table, pi: nat, events: set<Event>)
    requires t.Indexed() && pi < |t.pollfds|
    ensures t.InUse(t.pollfds[pi].fd) && t.Events(t.pollfds[pi].fd) == t.pollfds[pi].events
    ensures Changed(t, WithEvents(t, pi, events), t.pollfds[pi].fd, true, events)
  {}

  /** The end of remove_pollfd(): the last entry takes the place of the one removed. */
  function Dropped(t: Table, pi: nat): (t': Table)
    requires pi < |t.pollfds| && (forall i :: 0 <= i < |t.pollfds| ==> t.pollfds[i].fd < |t.selinfo|)
    ensures |t'.pollfds| == |t.pollfds| - 1 && |t'.selinfo| == |t.selinfo|
  {
    var n, fd := |t.pollfds| - 1, t.pollfds[pi].fd;
    var pollfds := t.pollfds[pi := t.pollfds[n]][..n];
    var selinfo := t.selinfo[fd := t.selinfo[fd].(pollfd := None)];
    if pi < n then Table(pollfds, selinfo[pollfds[pi].fd := selinfo[pollfds[pi].fd].(pollfd := Some(pi))])
    else Table(pollfds, selinfo)
  }

  /** How the entries and the links back look after the last entry has moved. */
  lemma DroppedLayout(t: Table, pi: nat)
    requires t.Indexed() && pi < |t.pollfds|
    ensures var t', n := Dropped(t, pi), |t.pollfds| - 1;
            && (forall i :: 0 <= i < n ==> t'.pollfds[i] == if i == pi then t.pollfds[n] else t.pollfds[i])
            && (forall f: nat :: f < |t.selinfo| ==>
                  t'.selinfo[f] == if f == t.pollfds[pi].fd then t.selinfo[f].(pollfd := None)
                                   else if f == t.pollfds[n].fd then t.selinfo[f].(pollfd := Some(pi))
                                   else t.selinfo[f])
    ensures forall i :: 0 <= i < |t.pollfds| && i != pi ==> t.pollfds[i].fd != t.pollfds[pi].fd
    ensures forall i :: 0 <= i < |t.pollfds| - 1 ==> t.pollfds[i].fd != t.pollfds[|t.pollfds| - 1].fd
  {
    assert forall i, j :: 0 <= i < j < |t.pollfds| ==> t.pollfds[i].fd != t.pollfds[j].fd;
  }

  lemma DroppedIndexed(t: Table, pi: nat)
    requires t.Indexed() && pi < |t.pollfds|
    ensures Dropped(t, pi).Indexed()
  {
    hide Dropped;
    DroppedLayout(t, pi);
  }

  lemma DroppedChanges(t: Table, pi: nat)
    requires t.Indexed() && pi < |t.pollfds|
    ensures Changed(t, Dropped(t, pi), t.pollfds[pi].fd, false, {})
  {
    hide Dropped;
    DroppedLayout(t, pi);
    DroppedIndexed(t, pi);
    var t', fd := Dropped(t, pi), t.pollfds[pi].fd;
    assert forall f: nat :: t'.InUse(f) <==> f != fd && t.InUse(f);
    assert forall f: nat :: t'.Events(f) == if f == fd then {} else t.Events(f);
  }

  /** The element that waits for an event replaced. */
  function WithWaiting(t: Table, fd: nat, ev: Event, element: Option<nat>): Table
    requires fd < |t.selinfo|
  {
    t.(selinfo := t.selinfo[fd := t.selinfo[fd].With(ev, element)])
  }

  lemma WithWaitingChanges(t: Table, fd: nat, ev: Event, element: Option<nat>)
    requires t.Indexed() && fd < |t.selinfo|
    ensures var t' := WithWaiting(t, fd, ev, element);
            && t'.Indexed()
            && (forall f: nat :: t'.InUse(f) <==> t.InUse(f))
            && (forall f: nat :: t'.Events(f) == t.Events(f))
            && (forall f: nat, e :: t'.Waiting(f, e) == if f == fd && e == ev then element else t.Waiting(f, e))
  {
    var t' := WithWaiting(t, fd, ev, element);
    assert forall f: nat :: f < |t.selinfo| ==> t'.selinfo[f].pollfd == t.selinfo[f].pollfd;
    assert forall f: nat :: t'.InUse(f) <==> t.InUse(f);
  }

  // ---- the set ------------------------------------------------------------

  lemma MaxRaised(t: Table, t': Table, fd: nat, events: set<Event>, max: int)
    requires IsMax(t, max) && Changed(t, t', fd, true, events)
    ensures IsMax(t', if fd < FD_SETSIZE && fd > max then fd else max)
  {}

  lemma SetKept(t: Table, t': Table, fd: nat, inUse: bool, events: set<Event>, fds: set<nat>, ev: Event)
    requires IsSet(t, fds, ev) && Changed(t, t', fd, inUse, events)
    ensures IsSet(t', if fd >= FD_SETSIZE then fds else if ev in events then fds + {fd} else fds - {fd}, ev)
  {}

  lemma ChangedTwice(t: Table, t1: Table, t2: Table, fd: nat, inUse1: bool, events1: set<Event>, inUse2: bool, events2: set<Event>)
    requires Changed(t, t1, fd, inUse1, events1) && Changed(t1, t2, fd, inUse2, events2)
    ensures Changed(t, t2, fd, inUse2, events2)
  {}

  lemma ChangedIndexed(t: Table, t': Table, fd: nat, inUse: bool, events: set<Event>)
    requires Changed(t, t', fd, inUse, events)
    ensures t'.Indexed()
  {}

  lemma PlacedEvents(t: Table, fd: nat)
    requires t.Indexed()
    ensures var t' := Placed(t, fd);
            && t'.selinfo[fd].pollfd.value < |t'.pollfds|
            && t'.pollfds[t'.selinfo[fd].pollfd.value] == Pollfd(fd, t.Events(fd))
  {}

  /** Adding to an fd_set a descriptor that is in it, or taking out one that is not, changes nothing. */
  lemma SetUnchanged(t: Table, fds: set<nat>, ev: Event, fd: nat)
    requires IsSet(t, fds, ev)
    ensures ev in t.Events(fd) && fd < FD_SETSIZE ==> fds + {fd} == fds
    ensures ev !in t.Events(fd) ==> fds - {fd} == fds
  {}

  /** Someone else waits for the event. */
  predicate Taken(t: Table, fd: nat, ev: Event, element: nat) {
    t.Waiting(fd, ev).Some? && t.Waiting(fd, ev) != Some(element)
  }

  /** Only who waits differs. */
  ghost predicate Reused(t: Table, t': Table) {
    && t'.Indexed()
    && (forall f: nat :: t'.InUse(f) <==> t.InUse(f))
    && (forall f: nat :: t'.Events(f) == t.Events(f))
  }

  lemma SameUse(t: Table, t': Table, readSet: set<nat>, writeSet: set<nat>, max: int)
    requires IsSet(t, readSet, Read) && IsSet(t, writeSet, Write) && IsMax(t, max) && Reused(t, t')
    ensures t'.Indexed() && IsSet(t', readSet, Read) && IsSet(t', writeSet, Write) && IsMax(t', max)
  {}

  lemma WithWaitingReused(t1: Table, t: Table, fd: nat, ev: Event, element: nat)
    requires Reused(t1, t) && fd < |t.selinfo|
    ensures Reused(t1, WithWaiting(t, fd, ev, Some(element)))
  {
    WithWaitingChanges(t, fd, ev, Some(element));
  }

  lemma RegisteredInUse(t: Table, t1: Table, fd: nat, addRead: bool, addWrite: bool)
    requires Changed(t, t1, fd, true, t.Events(fd) + (if addRead then {Read} else {}) + (if addWrite then {Write} else {}))
    ensures fd < |t1.selinfo| && Reused(t1, t1)
    ensures forall f: nat, ev :: t1.Waiting(f, ev) == t.Waiting(f, ev)
  {}

  lemma AddedMarked(t: Table, t1: Table, t2: Table, bare: set<nat>, fd: nat, element: nat, addRead: bool, addWrite: bool)
    requires Marked(t, bare) && Live(t) && Reused(t1, t2) && (addRead || addWrite)
    requires Changed(t, t1, fd, true, t.Events(fd) + (if addRead then {Read} else {}) + (if addWrite then {Write} else {}))
    requires forall f: nat, ev :: t2.Waiting(f, ev) ==
               if f == fd && (if ev == Read then addRead else addWrite) then Some(element) else t.Waiting(f, ev)
    ensures Marked(t2, bare) && Live(t2)
  {
    hide Table.Indexed, Table.Events, Table.Waiting, Table.InUse;
    forall f: nat, ev
      ensures ev in t2.Events(f) <==> Wanted(t2, bare, f, ev)
    {
      assert ev == Read || ev == Write;
    }
  }

  function Fds(pollfds: seq<Pollfd>): (r: seq<nat>)
    ensures |r| == |pollfds| && forall i :: 0 <= i < |r| ==> r[i] == pollfds[i].fd
  {
    seq(|pollfds|, i requires 0 <= i < |pollfds| => pollfds[i].fd)
  }

  /** The last takes the place of the i-th. */
  function Without(fds: seq<nat>, i: nat): (r: seq<nat>)
    requires i < |fds|
    ensures |r| == |fds| - 1
  {
    fds[i := fds[|fds| - 1]][..|fds| - 1]
  }

  lemma SameFds(pollfds: seq<Pollfd>, pollfds': seq<Pollfd>)
    ensures Fds(pollfds') == Fds(pollfds) ==> |pollfds'| == |pollfds| && forall i :: 0 <= i < |pollfds| ==> pollfds'[i].fd == pollfds[i].fd
  {
    if Fds(pollfds') == Fds(pollfds) {
      forall i | 0 <= i < |pollfds|
        ensures i < |pollfds'| && pollfds'[i].fd == pollfds[i].fd
      {
        assert Fds(pollfds')[i] == Fds(pollfds)[i];
      }
    }
  }

  lemma ListedMax(t: Table, max: int)
    requires t.Indexed() && -1 <= max < FD_SETSIZE
    requires max >= 0 ==> exists i :: 0 <= i < |t.pollfds| && t.pollfds[i].fd == max
    requires forall i :: 0 <= i < |t.pollfds| && t.pollfds[i].fd < FD_SETSIZE ==> t.pollfds[i].fd <= max
    ensures IsMax(t, max)
  {}

  /** One event of one descriptor is no longer polled for, and no one waits for it. */
  ghost predicate Unmarked(t: Table, t': Table, fd: nat, ev: Event) {
    && t'.Indexed()
    && (forall f: nat :: t'.InUse(f) <==> t.InUse(f))
    && (forall f: nat :: t'.Events(f) == if f == fd then t.Events(f) - {ev} else t.Events(f))
    && (forall f: nat, e :: t'.Waiting(f, e) == if f == fd && e == ev then None else t.Waiting(f, e))
  }

  lemma UnmarkStep(t: Table, pi: nat, ev: Event)
    requires t.Indexed() && pi < |t.pollfds|
    ensures var fd := t.pollfds[pi].fd;
            && fd < |t.selinfo| && t.Events(fd) == t.pollfds[pi].events && t.InUse(fd)
            && Unmarked(t, WithWaiting(WithEvents(t, pi, t.pollfds[pi].events - {ev}), fd, ev, None), fd, ev)
  {
    var fd := t.pollfds[pi].fd;
    var t1 := WithEvents(t, pi, t.pollfds[pi].events - {ev});
    WithEventsChanges(t, pi, t.pollfds[pi].events - {ev});
    WithWaitingChanges(t1, fd, ev, None);
  }

  lemma UnmarkedSets(t: Table, t': Table, fd: nat, ev: Event, readSet: set<nat>, writeSet: set<nat>)
    requires Unmarked(t, t', fd, ev) && IsSet(t, readSet, Read) && IsSet(t, writeSet, Write)
    ensures IsSet(t', if fd < FD_SETSIZE && ev == Read then readSet - {fd} else readSet, Read)
    ensures IsSet(t', if fd < FD_SETSIZE && ev == Write then writeSet - {fd} else writeSet, Write)
  {
    hide Table.Indexed, Table.InUse, Table.Events, Table.Waiting;
  }

  lemma UnmarkedRest(t: Table, t': Table, fd: nat, ev: Event, events: set<Event>, bare: set<nat>, max: int)
    requires Unmarked(t, t', fd, ev) && Marked(t, bare) && Live(t) && IsMax(t, max) && events == t.Events(fd) - {ev}
    ensures t'.Indexed() && IsMax(t', max) && Marked(t', if ev == Read then bare - {fd} else bare)
    ensures events != {} ==> Live(t')
    ensures forall f: nat :: t'.InUse(f) && f != fd ==> t'.Events(f) != {}
    ensures forall f: nat, e :: t'.Waiting(f, e) == if f == fd && e == ev then None else t.Waiting(f, e)
    ensures t'.Events(fd) == events
  {
    hide Table.Indexed, Table.InUse, Table.Events, Table.Waiting;
    var bare' := if ev == Read then bare - {fd} else bare;
    forall f: nat, e
      ensures e in t'.Events(f) <==> Wanted(t', bare', f, e)
    {
      assert e in t.Events(f) <==> Wanted(t, bare, f, e);
    }
  }

  lemma DropStep(t: Table, pi: nat)
    requires t.Indexed() && pi < |t.pollfds|
    ensures forall i :: 0 <= i < |t.pollfds| ==> t.pollfds[i].fd < |t.selinfo|
    ensures Changed(t, Dropped(t, pi), t.pollfds[pi].fd, false, {})
  {
    DroppedChanges(t, pi);
  }

  lemma DroppedSets(t: Table, t': Table, fd: nat, bare: set<nat>, readSet: set<nat>, writeSet: set<nat>, max: int)
    requires Changed(t, t', fd, false, {}) && t.Events(fd) == {}
    requires IsSet(t, readSet, Read) && IsSet(t, writeSet, Write) && Marked(t, bare) && IsMax(t, max)
    requires forall f: nat :: t.InUse(f) && f != fd ==> t.Events(f) != {}
    ensures t'.Indexed() && IsSet(t', readSet, Read) && IsSet(t', writeSet, Write) && Marked(t', bare) && Live(t')
    ensures max != fd ==> IsMax(t', max)
    ensures forall f: nat, e :: t'.Waiting(f, e) == t.Waiting(f, e)
  {
    hide Table.Indexed, Table.InUse, Table.Events, Table.Waiting;
    forall f: nat, e
      ensures e in t'.Events(f) <==> Wanted(t', bare, f, e)
    {
      assert e in t.Events(f) <==> Wanted(t, bare, f, e);
    }
  }

  // ---- a dying router -----------------------------------------------------

  /** An element of the router waits for the event. */
  predicate Dies(t: Table, routerOf: nat -> nat, router: nat, fd: nat, ev: Event) {
    t.Waiting(fd, ev).Some? && routerOf(t.Waiting(fd, ev).value) == router
  }

  /** The first pi entries are rid of the router, and nothing else is gone. */
  ghost predicate Killing(t0: Table, t: Table, routerOf: nat -> nat, router: nat, bare0: set<nat>, bare: set<nat>, fds: seq<nat>, pi: int) {
    && (forall i, ev :: 0 <= i < pi && i < |fds| ==> !Dies(t, routerOf, router, fds[i], ev))
    && (forall f: nat, ev :: t.Waiting(f, ev) == t0.Waiting(f, ev) || (t.Waiting(f, ev).None? && Dies(t0, routerOf, router, f, ev)))
    && (forall f: nat :: f in bare <==> f in bare0 && !(Dies(t0, routerOf, router, f, Read) && t.Waiting(f, Read).None?))
  }

  lemma KillStart(t: Table, routerOf: nat -> nat, router: nat, bare: set<nat>, pollfds: seq<Pollfd>)
    ensures Killing(t, t, routerOf, router, bare, bare, Fds(pollfds), 0)
  {}

  lemma DiesHere(t: Table, routerOf: nat -> nat, router: nat, fd: nat)
    requires fd < |t.selinfo|
    ensures Dies(t, routerOf, router, fd, Read) <==> t.selinfo[fd].read.Some? && routerOf(t.selinfo[fd].read.value) == router
    ensures Dies(t, routerOf, router, fd, Write) <==> t.selinfo[fd].write.Some? && routerOf(t.selinfo[fd].write.value) == router
    ensures forall ev :: t.Waiting(fd, ev) == t.selinfo[fd].At(ev)
  {}

  lemma KillStep(t0: Table, t: Table, t': Table, routerOf: nat -> nat, router: nat, bare0: set<nat>, bare: set<nat>, bare': set<nat>,
                 fds: seq<nat>, fds': seq<nat>, pi: nat)
    requires Killing(t0, t, routerOf, router, bare0, bare, fds, pi) && pi < |fds|
    requires forall f: nat, ev :: t'.Waiting(f, ev) == if f == fds[pi] && Dies(t, routerOf, router, f, ev) then None else t.Waiting(f, ev)
    requires bare' == if Dies(t, routerOf, router, fds[pi], Read) then bare - {fds[pi]} else bare
    requires fds' == fds || fds' == Without(fds, pi)
    ensures Killing(t0, t', routerOf, router, bare0, bare', fds', if pi < |fds'| && fds'[pi] != fds[pi] then pi else pi + 1)
  {
    hide Table.Waiting;
    forall i, ev | 0 <= i <= pi && i < |fds'| && fds'[i] == fds[i]
      ensures !Dies(t', routerOf, router, fds'[i], ev)
    {
      assert i < pi ==> !Dies(t, routerOf, router, fds[i], ev);
      assert t'.Waiting(fds[i], ev) == if fds[i] == fds[pi] && Dies(t, routerOf, router, fds[i], ev) then None else t.Waiting(fds[i], ev);
    }
  }

  class Set {
    /** The router an element belongs to. */
    const routerOf: nat -> nat
    var pollfds: seq<Pollfd>
    var selinfo: seq<Info>
    var readSet: set<nat>
    var writeSet: set<nat>
    var maxFd: int
    /** Descriptors read without an element: the wake pipe. */
    ghost var bare: set<nat>

    function T(): Table
      reads this
    {
      Table(pollfds, selinfo)
    }

    /** The parts of the invariant that hold between steps, too. */
    ghost predicate Sound()
      reads this
    {
      T().Indexed() && IsSet(T(), readSet, Read) && IsSet(T(), writeSet, Write) && IsMax(T(), maxFd)
    }

    ghost predicate Valid()
      reads this
    {
      Sound() && Marked(T(), bare) && Live(T())
    }

    constructor (routerOf: nat -> nat)
      ensures Valid() && this.routerOf == routerOf && selinfo == [] && bare == {}
    {
      this.routerOf := routerOf;
      pollfds, selinfo, readSet, writeSet, maxFd, bare := [], [], {}, {}, -1, {};
    }

    /** The start of register_select(). */
    method Place(fd: nat)
      requires T().Indexed()
      modifies this`pollfds, this`selinfo
      ensures Changed(old(T()), T(), fd, true, old(T()).Events(fd))
      ensures T().InUse(fd) && selinfo[fd].pollfd.value < |pollfds|
      ensures pollfds[selinfo[fd].pollfd.value].fd == fd && pollfds[selinfo[fd].pollfd.value].events == old(T()).Events(fd)
    {
      hide Changed;
      PlacedChanges(T(), fd);
      PlacedEvents(T(), fd);
      if fd >= |selinfo| {
        selinfo := selinfo + seq(fd + 1 - |selinfo|, i => Info(None, None, None));
      }
      if selinfo[fd].pollfd.None? {
        selinfo := selinfo[fd := selinfo[fd].(pollfd := Some(|pollfds|))];
        pollfds := pollfds + [Pollfd(fd, {})];
      }
      assert T() == Placed(old(T()), fd);
    }

    /** events |= event */
    method AddEvent(pi: nat, ev: Event, ghost fd: nat, ghost t0: Table)
      requires T().Indexed() && pi < |pollfds| && pollfds[pi].fd == fd
      requires Changed(t0, T(), fd, true, pollfds[pi].events)
      modifies this`pollfds
      ensures Changed(t0, T(), fd, true, old(pollfds)[pi].events + {ev})
      ensures pi < |pollfds| && pollfds[pi] == Pollfd(fd, old(pollfds)[pi].events + {ev})
    {
      hide Changed;
      WithEventsChanges(T(), pi, pollfds[pi].events + {ev});
      ghost var t1, events := T(), pollfds[pi].events;
      pollfds := pollfds[pi := pollfds[pi].(events := pollfds[pi].events + {ev})];
      ChangedTwice(t0, t1, T(), fd, true, events, true, events + {ev});
    }

    /** register_select() */
    method RegisterSelect(fd: nat, addRead: bool, addWrite: bool)
      requires Sound()
      modifies this`pollfds, this`selinfo, this`readSet, this`writeSet, this`maxFd
      ensures Sound()
      ensures Changed(old(T()), T(), fd, true,
                      old(T()).Events(fd) + (if addRead then {Read} else {}) + (if addWrite then {Write} else {}))
    {
      hide Changed, IsSet, IsMax;
      ghost var t0 := T();
      Place(fd);
      ChangedIndexed(t0, T(), fd, true, t0.Events(fd));
      var pi := selinfo[fd].pollfd.value;
      if addRead {
        AddEvent(pi, Read, fd, t0);
      }
      ChangedIndexed(t0, T(), fd, true, pollfds[pi].events);
      if addWrite {
        AddEvent(pi, Write, fd, t0);
      }
      ghost var events := pollfds[pi].events;
      assert events == t0.Events(fd) + (if addRead then {Read} else {}) + (if addWrite then {Write} else {});
      ChangedIndexed(t0, T(), fd, true, events);
      SetKept(t0, T(), fd, true, events, readSet, Read);
      SetKept(t0, T(), fd, true, events, writeSet, Write);
      SetUnchanged(t0, readSet, Read, fd);
      SetUnchanged(t0, writeSet, Write, fd);
      MaxRaised(t0, T(), fd, events, maxFd);
      if fd < FD_SETSIZE {
        if addRead {
          readSet := readSet + {fd};
        }
        if addWrite {
          writeSet := writeSet + {fd};
        }
        if fd > maxFd {
          maxFd := fd;
        }
      }
    }

    /** initialize(): the wake pipe is read, and no element waits for it. */
    method Initialize(wake: nat)
      requires Valid()
      modifies this
      ensures Valid() && bare == old(bare) + {wake}
      ensures forall fd: nat, ev :: T().Waiting(fd, ev) == old(T()).Waiting(fd, ev)
    {
      hide IsSet, IsMax;
      RegisterSelect(wake, true, false);
      bare := bare + {wake};
    }

    /** add_select(): refused, without effect, when another element already waits for one of the events. */
    method AddSelect(fd: int, element: nat, mask: set<Event>) returns (r: int)
      requires Valid()
      modifies this
      ensures Valid() && bare == old(bare)
      ensures r == if fd < 0 || exists ev :: ev in mask && Taken(old(T()), fd, ev, element) then -1 else 0
      ensures forall f: nat, ev :: T().Waiting(f, ev) == if r == 0 && f == fd && ev in mask then Some(element) else old(T()).Waiting(f, ev)
    {
      if fd < 0 {
        return -1;
      }
      if mask == {} {
        return 0;
      }
      var addRead, addWrite := false, false;
      if Read in mask {
        if fd >= |selinfo| || selinfo[fd].read.None? {
          addRead := true;
        } else if selinfo[fd].read != Some(element) {
          assert Taken(T(), fd, Read, element);
          return -1;
        }
      }
      if Write in mask {
        if fd >= |selinfo| || selinfo[fd].write.None? {
          addWrite := true;
        } else if selinfo[fd].write != Some(element) {
          assert Taken(T(), fd, Write, element);
          return -1;
        }
      }
      if !addRead && !addWrite {
        forall ev | ev in mask
          ensures T().Waiting(fd, ev) == Some(element)
        {
          assert ev == Read || ev == Write;
        }
        return 0;
      }
      Add(fd, element, addRead, addWrite);
      return 0;
    }

    /** The end of add_select(): poll for the events, and remember who waits. */
    method Add(fd: nat, element: nat, addRead: bool, addWrite: bool)
      requires Valid() && (addRead ==> T().Waiting(fd, Read).None?) && (addWrite ==> T().Waiting(fd, Write).None?)
      requires addRead || addWrite
      modifies this
      ensures Valid() && bare == old(bare)
      ensures forall f: nat, ev :: T().Waiting(f, ev) ==
                if f == fd && (if ev == Read then addRead else addWrite) then Some(element) else old(T()).Waiting(f, ev)
    {
      hide IsSet, IsMax, Changed, Marked, Live, Reused, Table.Indexed;
      ghost var t0 := T();
      RegisterSelect(fd, addRead, addWrite);
      ghost var t1 := T();
      RegisteredInUse(t0, t1, fd, addRead, addWrite);
      if addRead {
        WithWaitingReused(t1, T(), fd, Read, element);
        selinfo := selinfo[fd := selinfo[fd].(read := Some(element))];
      }
      if addWrite {
        WithWaitingReused(t1, T(), fd, Write, element);
        selinfo := selinfo[fd := selinfo[fd].(write := Some(element))];
      }
      assert Reused(t1, T());
      SameUse(t1, T(), readSet, writeSet, maxFd);
      AddedMarked(t0, t1, T(), bare, fd, element, addRead, addWrite);
    }

    /** The loop that looks for the greatest descriptor anew. */
    method Recompute()
      requires T().Indexed()
      modifies this`maxFd
      ensures IsMax(T(), maxFd)
    {
      hide Table.Indexed, IsMax;
      maxFd := -1;
      for pix := 0 to |pollfds|
        invariant -1 <= maxFd < FD_SETSIZE
        invariant maxFd >= 0 ==> exists i :: 0 <= i < pix && pollfds[i].fd == maxFd
        invariant forall i :: 0 <= i < pix && pollfds[i].fd < FD_SETSIZE ==> pollfds[i].fd <= maxFd
      {
        if pollfds[pix].fd < FD_SETSIZE && pollfds[pix].fd > maxFd {
          maxFd := pollfds[pix].fd;
          assert pollfds[pix].fd == maxFd;
        }
      }
      ListedMax(T(), maxFd);
    }

    /** remove_pollfd(): with its last event an entry goes, and the last entry takes its place. */
    method RemovePollfd(pi: nat, ev: Event)
      requires Valid() && pi < |pollfds|
      modifies this
      ensures Valid()
      ensures var fd := old(pollfds)[pi].fd;
              && bare == (if ev == Read then old(bare) - {fd} else old(bare))
              && (forall f: nat, e :: T().Waiting(f, e) == if f == fd && e == ev then None else old(T()).Waiting(f, e))
              && Fds(pollfds) == if old(pollfds)[pi].events - {ev} != {} then old(Fds(pollfds)) else Without(old(Fds(pollfds)), pi)
    {
      hide Table.Indexed, Table.InUse, Table.Events, Table.Waiting, IsSet, IsMax, Marked, Live, Changed, Unmarked;
      var fd := pollfds[pi].fd;
      ghost var t0, events, bare0 := T(), pollfds[pi].events - {ev}, bare;
      Unmark(pi, ev);
      ghost var t1 := T();
      UnmarkedRest(t0, t1, fd, ev, events, bare0, maxFd);
      bare := if ev == Read then bare - {fd} else bare;
      if pollfds[pi].events != {} {
        return;
      }
      Drop(pi);
      DroppedSets(t1, T(), fd, bare, readSet, writeSet, maxFd);
      if fd == maxFd {
        Recompute();
      }
    }

    /** The event goes from the entry, from its element and from its fd_set. */
    method Unmark(pi: nat, ev: Event)
      requires Sound() && pi < |pollfds|
      modifies this`pollfds, this`selinfo, this`readSet, this`writeSet
      ensures Unmarked(old(T()), T(), old(pollfds)[pi].fd, ev)
      ensures IsSet(T(), readSet, Read) && IsSet(T(), writeSet, Write)
      ensures |pollfds| == |old(pollfds)| && pollfds[pi].fd == old(pollfds)[pi].fd && Fds(pollfds) == old(Fds(pollfds))
      ensures pollfds[pi].events == old(T()).Events(pollfds[pi].fd) - {ev} == old(pollfds)[pi].events - {ev}
    {
      hide Table.Indexed, Table.InUse, Table.Events, Table.Waiting, IsSet, IsMax, Unmarked;
      var fd := pollfds[pi].fd;
      UnmarkStep(T(), pi, ev);
      pollfds := pollfds[pi := pollfds[pi].(events := pollfds[pi].events - {ev})];
      selinfo := selinfo[fd := selinfo[fd].With(ev, None)];
      UnmarkedSets(old(T()), T(), fd, ev, readSet, writeSet);
      if fd < FD_SETSIZE {
        if ev == Read {
          readSet := readSet - {fd};
        } else {
          writeSet := writeSet - {fd};
        }
      }
    }

    /** The whole entry goes. */
    method Drop(pi: nat)
      requires T().Indexed() && pi < |pollfds|
      modifies this`pollfds, this`selinfo
      ensures Changed(old(T()), T(), old(pollfds)[pi].fd, false, {})
      ensures Fds(pollfds) == Without(old(Fds(pollfds)), pi)
    {
      hide Table.Indexed, Table.InUse, Table.Events, Table.Waiting, Changed;
      var fd := pollfds[pi].fd;
      DropStep(T(), pi);
      pollfds := pollfds[pi := pollfds[|pollfds| - 1]][..|pollfds| - 1];
      selinfo := selinfo[fd := selinfo[fd].(pollfd := None)];
      if pi < |pollfds| {
        selinfo := selinfo[pollfds[pi].fd := selinfo[pollfds[pi].fd].(pollfd := Some(pi))];
      }
      assert T() == Dropped(old(T()), pi);
    }

    /** remove_select(): takes out the element's own registrations among those named. */
    method RemoveSelect(fd: int, element: nat, mask: set<Event>) returns (r: int)
      requires Valid()
      modifies this
      ensures Valid()
      ensures r == if fd >= 0 && exists ev :: ev in mask && old(T()).Waiting(fd, ev) == Some(element) then 0 else -1
      ensures forall f: nat, ev :: T().Waiting(f, ev) ==
                if f == fd && ev in mask && old(T()).Waiting(f, ev) == Some(element) then None else old(T()).Waiting(f, ev)
      ensures forall f: nat :: f in bare <==> f in old(bare) && !(f == fd && Read in mask && old(T()).Waiting(f, Read) == Some(element))
    {
      if fd < 0 {
        return -1;
      }
      var removeRead := Read in mask && fd < |selinfo| && selinfo[fd].read == Some(element);
      var removeWrite := Write in mask && fd < |selinfo| && selinfo[fd].write == Some(element);
      assert removeRead <==> Read in mask && T().Waiting(fd, Read) == Some(element);
      assert removeWrite <==> Write in mask && T().Waiting(fd, Write) == Some(element);
      if !removeRead && !removeWrite {
        forall ev | ev in mask
          ensures T().Waiting(fd, ev) != Some(element)
        {
          assert ev == Read || ev == Write;
        }
        return -1;
      }
      assert exists ev :: ev in mask && T().Waiting(fd, ev) == Some(element);
      WaitingInUse(fd, if removeRead then Read else Write);
      RemoveBoth(selinfo[fd].pollfd.value, removeRead, removeWrite);
      return 0;
    }

    /** Who waits is polled for, so its descriptor has an entry. */
    lemma WaitingInUse(fd: nat, ev: Event)
      requires Valid() && T().Waiting(fd, ev).Some?
      ensures T().InUse(fd) && selinfo[fd].pollfd.value < |pollfds| && pollfds[selinfo[fd].pollfd.value].fd == fd
      ensures ev in pollfds[selinfo[fd].pollfd.value].events
    {
      assert Wanted(T(), bare, fd, ev);
      assert ev in T().Events(fd);
    }

    /** Up to two removals at one position: the entry cannot go with the first while the second is due. */
    method RemoveBoth(pi: nat, read: bool, write: bool)
      requires Valid() && pi < |pollfds| && (read || write)
      requires read ==> T().Waiting(pollfds[pi].fd, Read).Some?
      requires write ==> T().Waiting(pollfds[pi].fd, Write).Some?
      modifies this
      ensures Valid()
      ensures var fd := old(pollfds)[pi].fd;
              && bare == (if read then old(bare) - {fd} else old(bare))
              && (forall f: nat, e :: T().Waiting(f, e) ==
                    if f == fd && (if e == Read then read else write) then None else old(T()).Waiting(f, e))
              && (Fds(pollfds) == old(Fds(pollfds)) || Fds(pollfds) == Without(old(Fds(pollfds)), pi))
    {
      hide IsSet, IsMax, Marked, Live, Without;
      var fd := pollfds[pi].fd;
      if write {
        WaitingHere(pi, Write);
        assert Write in pollfds[pi].events - {Read};
      }
      if read {
        RemovePollfd(pi, Read);
        SameFds(old(pollfds), pollfds);
      }
      if write {
        RemovePollfd(pi, Write);
      }
      forall f: nat, e
        ensures T().Waiting(f, e) == if f == fd && (if e == Read then read else write) then None else old(T()).Waiting(f, e)
      {
        assert e == Read || e == Write;
      }
    }

    lemma WaitingHere(pi: nat, ev: Event)
      requires Valid() && pi < |pollfds| && T().Waiting(pollfds[pi].fd, ev).Some?
      ensures ev in pollfds[pi].events
    {
      WaitingInUse(pollfds[pi].fd, ev);
    }

    lemma EntryListed(pi: nat)
      requires Valid() && pi < |pollfds|
      ensures pollfds[pi].fd < |selinfo|
    {}

    /** With every entry looked at, no element of the router waits for anything. */
    lemma AllKilled(t0: Table, router: nat, bare0: set<nat>, pi: int)
      requires Valid() && pi >= |pollfds| && Killing(t0, T(), routerOf, router, bare0, bare, Fds(pollfds), pi)
      ensures forall f: nat, ev :: T().Waiting(f, ev) == if Dies(t0, routerOf, router, f, ev) then None else t0.Waiting(f, ev)
      ensures bare == set fd | fd in bare0 && !Dies(t0, routerOf, router, fd, Read)
    {
      hide Table.Indexed, Table.InUse, Table.Events, Table.Waiting, IsSet, IsMax, Marked, Live;
      forall f: nat, ev
        ensures !Dies(T(), routerOf, router, f, ev)
      {
        if T().Waiting(f, ev).Some? {
          WaitingInUse(f, ev);
          assert Fds(pollfds)[selinfo[f].pollfd.value] == f;
        }
      }
      forall f: nat, ev
        ensures T().Waiting(f, ev) == if Dies(t0, routerOf, router, f, ev) then None else t0.Waiting(f, ev)
      {
        assert !Dies(T(), routerOf, router, f, ev);
      }
    }

    /** kill_router(): the loop looks again at a position whose entry was replaced. */
    method KillRouter(router: nat)
      requires Valid()
      modifies this
      ensures Valid()
      ensures forall f: nat, ev :: T().Waiting(f, ev) == if Dies(old(T()), routerOf, router, f, ev) then None else old(T()).Waiting(f, ev)
      ensures bare == set fd | fd in old(bare) && !Dies(old(T()), routerOf, router, fd, Read)
    {
      hide Table.Indexed, Table.InUse, Table.Events, IsSet, IsMax, Marked, Live, Dies;
      var pi: int := 0;
      ghost var t0, bare0 := T(), bare;
      KillStart(t0, routerOf, router, bare0, pollfds);
      while pi < |pollfds|
        invariant 0 <= pi && Valid()
        invariant Killing(t0, T(), routerOf, router, bare0, bare, Fds(pollfds), pi)
        decreases |pollfds| - pi
      {
        ghost var t, fds, b := T(), Fds(pollfds), bare;
        EntryListed(pi);
        var fd := pollfds[pi].fd;
        var read := selinfo[fd].read.Some? && routerOf(selinfo[fd].read.value) == router;
        var write := selinfo[fd].write.Some? && routerOf(selinfo[fd].write.value) == router;
        DiesHere(t, routerOf, router, fd);
        if read || write {
          RemoveBoth(pi, read, write);
        }
        KillStep(t0, t, T(), routerOf, router, bare0, b, bare, fds, Fds(pollfds), pi);
        if pi < |pollfds| && pollfds[pi].fd != fd {
          pi := pi - 1;
        }
        pi := pi + 1;
      }
      AllKilled(t0, router, bare0, pi);
    }
  }
}
