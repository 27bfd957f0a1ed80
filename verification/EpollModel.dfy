/** The interest set of an epoll instance as a finite map, and its in-order listing. */
module EpollModel {
  import opened RbShape

  type Bits = bv32

  const EPOLLIN: Bits := 0x001
  const EPOLLOUT: Bits := 0x004
  const EPOLLERR: Bits := 0x008
  const EPOLLHUP: Bits := 0x010

  const FD_READABLE: Bits := 1
  const FD_WRITABLE: Bits := 2
  const FD_ERROR: Bits := 4
  const FD_HANGUP: Bits := 8

  datatype Item = Item(fd: int, events: Bits, data: nat, revents: Bits)

  datatype Interest = Interest(events: Bits, data: nat)

  datatype Event = Event(events: Bits, data: nat)

  type Items = map<int, Item>

  predicate Listed(items: Items, q: seq<int>) {
    forall i :: 0 <= i < |q| ==> q[i] in items
  }

  /** The nodes are in strictly ascending order of their descriptors. */
  predicate Ascending(items: Items, q: seq<int>)
    requires Listed(items, q)
  {
    forall i, j :: 0 <= i < j < |q| ==> items[q[i]].fd < items[q[j]].fd
  }

  function InterestOf(it: Item): Interest {
    Interest(it.events, it.data)
  }

  /** The map from descriptor to interest that a list of nodes stands for. */
  function Interests(items: Items, q: seq<int>): map<int, Interest>
    requires Listed(items, q)
  {
    if q == [] then map[]
    else
      assert Listed(items, q[1..]);
      Interests(items, q[1..])[items[q[0]].fd := InterestOf(items[q[0]])]
  }

  /** The descriptors of a list of nodes. */
  function Fds(items: Items, q: seq<int>): (fds: seq<int>)
    requires Listed(items, q)
    ensures |fds| == |q| && forall i :: 0 <= i < |q| ==> fds[i] == items[q[i]].fd
  {
    seq(|q|, i requires 0 <= i < |q| => items[q[i]].fd)
  }

  lemma {:induction false} InterestsKeys(items: Items, q: seq<int>)
    requires Listed(items, q)
    ensures forall fd :: fd in Interests(items, q) <==> fd in Fds(items, q)
  {
    if q != [] {
      assert Listed(items, q[1..]);
      InterestsKeys(items, q[1..]);
      assert Fds(items, q) == [items[q[0]].fd] + Fds(items, q[1..]);
    }
  }

  /** Each listed node contributes its own interest. */
  lemma {:induction false} InterestsAt(items: Items, q: seq<int>, i: nat)
    requires Listed(items, q) && Ascending(items, q) && i < |q|
    ensures items[q[i]].fd in Interests(items, q) && Interests(items, q)[items[q[i]].fd] == InterestOf(items[q[i]])
  {
    if i > 0 {
      assert Listed(items, q[1..]);
      InterestsAt(items, q[1..], i - 1);
      assert items[q[0]].fd < items[q[i]].fd;
    }
  }

  /** A node with a descriptor of its own adds one binding, wherever it stands. */
  lemma {:induction false} InterestsInsert(items: Items, a: seq<int>, n: int, b: seq<int>)
    requires Listed(items, a + [n] + b) && Ascending(items, a + [n] + b)
    ensures n in items && Listed(items, a + b) && items[n].fd !in Interests(items, a + b)
    ensures Interests(items, a + [n] + b) == Interests(items, a + b)[items[n].fd := InterestOf(items[n])]
  {
    var q := a + [n] + b;
    assert q[|a|] == n;
    forall i | 0 <= i < |a + b| ensures (a + b)[i] in items && items[(a + b)[i]].fd != items[n].fd {
      assert (a + b)[i] == q[if i < |a| then i else i + 1];
    }
    InterestsKeys(items, a + b);
    if a == [] {
      assert q[1..] == a + b;
    } else {
      assert q[1..] == a[1..] + [n] + b && (a + b)[1..] == a[1..] + b;
      InterestsInsert(items, a[1..], n, b);
      assert items[q[0]].fd < items[n].fd;
    }
  }

  /** Items off the list, and returned events, do not matter. */
  lemma {:induction false} InterestsFrame(items: Items, items': Items, q: seq<int>)
    requires Listed(items, q) && Listed(items', q)
    requires forall i :: 0 <= i < |q| ==> items'[q[i]].fd == items[q[i]].fd && InterestOf(items'[q[i]]) == InterestOf(items[q[i]])
    ensures Interests(items', q) == Interests(items, q) && (Ascending(items, q) ==> Ascending(items', q))
  {
    if q != [] {
      assert Listed(items, q[1..]) && Listed(items', q[1..]);
      InterestsFrame(items, items', q[1..]);
    }
  }

  /** There are as many bindings as listed nodes. */
  lemma {:induction false} InterestsSize(items: Items, q: seq<int>)
    requires Listed(items, q) && Ascending(items, q)
    ensures |Interests(items, q)| == |q|
  {
    if q != [] {
      var rest := q[1..];
      assert Listed(items, rest) && Ascending(items, rest);
      InterestsSize(items, rest);
      InterestsKeys(items, rest);
      forall i | 0 <= i < |rest| ensures items[rest[i]].fd != items[q[0]].fd { assert items[q[0]].fd < items[q[i + 1]].fd; }
      var m := Interests(items, rest);
      assert Interests(items, q).Keys == m.Keys + {items[q[0]].fd};
      assert |Interests(items, q)| == |Interests(items, q).Keys| && |m| == |m.Keys|;
    }
  }

  // ---------------------------------------------------------------- polling

  /** Descriptor flags as epoll events. */
  function Translated(flags: Bits): Bits {
    (if flags & FD_READABLE != 0 then EPOLLIN else 0) |
    (if flags & FD_WRITABLE != 0 then EPOLLOUT else 0) |
    (if flags & FD_ERROR != 0 then EPOLLERR else 0) |
    (if flags & FD_HANGUP != 0 then EPOLLHUP else 0)
  }

  /** Which flag raises which event, bit by bit. */
  lemma {:induction false} TranslatedBits(flags: Bits)
    ensures Raises(flags, Translated(flags))
  {
  }

  predicate Raises(flags: Bits, events: Bits) {
    && (events & 0x001 != 0 <==> flags & 1 != 0) && (events & 0x004 != 0 <==> flags & 2 != 0)
    && (events & 0x008 != 0 <==> flags & 4 != 0) && (events & 0x010 != 0 <==> flags & 8 != 0)
    && events & 0xFFFF_FFE2 == 0
  }

  /** Something is both raised and asked for. */
  predicate Wanted(flags: Bits, it: Interest) {
    || (flags & 1 != 0 && it.events & 0x001 != 0) || (flags & 2 != 0 && it.events & 0x004 != 0)
    || (flags & 4 != 0 && it.events & 0x008 != 0) || (flags & 8 != 0 && it.events & 0x010 != 0)
  }

  /** The event has exactly the bits both raised and asked for, and the interest's data. */
  predicate Matches(e: Event, flags: Bits, it: Interest) {
    && e.data == it.data && e.events & 0xFFFF_FFE2 == 0
    && (e.events & 0x001 != 0 <==> flags & 1 != 0 && it.events & 0x001 != 0)
    && (e.events & 0x004 != 0 <==> flags & 2 != 0 && it.events & 0x004 != 0)
    && (e.events & 0x008 != 0 <==> flags & 4 != 0 && it.events & 0x008 != 0)
    && (e.events & 0x010 != 0 <==> flags & 8 != 0 && it.events & 0x010 != 0)
  }

  /** The event reported for one descriptor, if any: what is both raised and asked for. */
  function Report(flags: Bits, it: Interest): seq<Event> {
    var r := Translated(flags) & it.events;
    if r != 0 then [Event(r, it.data)] else []
  }

  lemma {:induction false} ReportExact(flags: Bits, it: Interest)
    ensures |Report(flags, it)| == if Wanted(flags, it) then 1 else 0
    ensures Wanted(flags, it) ==> Matches(Report(flags, it)[0], flags, it)
  {
    TranslatedBits(flags);
    MaskedBits(flags, Translated(flags), it.events);
  }

  lemma {:induction false} MaskedBits(flags: Bits, raised: Bits, asked: Bits)
    requires Raises(flags, raised)
    ensures raised & asked != 0 <==> Wanted(flags, Interest(asked, 0))
    ensures Matches(Event(raised & asked, 0), flags, Interest(asked, 0))
  {
  }

  /** The events reported for descriptors `fds`, in that order. */
  function Ready(m: map<int, Interest>, fds: seq<int>, poll: int -> Bits): seq<Event>
    requires forall i :: 0 <= i < |fds| ==> fds[i] in m
  {
    if fds == [] then [] else Report(poll(fds[0]), m[fds[0]]) + Ready(m, fds[1..], poll)
  }

  lemma {:induction false} ReadySnoc(m: map<int, Interest>, fds: seq<int>, fd: int, poll: int -> Bits)
    requires forall i :: 0 <= i < |fds| ==> fds[i] in m
    requires fd in m
    ensures forall i :: 0 <= i < |fds + [fd]| ==> (fds + [fd])[i] in m
    ensures Ready(m, fds + [fd], poll) == Ready(m, fds, poll) + Report(poll(fd), m[fd])
  {
    hide Report;
    if fds == [] {
      assert fds + [fd] == [fd] && [fd][1..] == [];
    } else {
      ReadySnoc(m, fds[1..], fd, poll);
      assert (fds + [fd])[1..] == fds[1..] + [fd];
      AssocEvents(Report(poll(fds[0]), m[fds[0]]), Ready(m, fds[1..], poll), Report(poll(fd), m[fd]));
    }
  }

  lemma {:induction false} AssocEvents(a: seq<Event>, b: seq<Event>, c: seq<Event>)
    ensures a + (b + c) == a + b + c
  {
  }

  lemma {:induction false} ReadyPrefix(m: map<int, Interest>, fds: seq<int>, i: nat, poll: int -> Bits)
    requires forall j :: 0 <= j < |fds| ==> fds[j] in m
    requires i <= |fds|
    ensures Ready(m, fds[..i], poll) <= Ready(m, fds, poll)
    decreases |fds| - i
  {
    if i == |fds| {
      assert fds[..i] == fds;
    } else {
      assert fds[..i + 1] == fds[..i] + [fds[i]];
      ReadySnoc(m, fds[..i], fds[i], poll);
      ReadyPrefix(m, fds, i + 1, poll);
    }
  }

  /** `from` lists, in order, the positions of the descriptors that have an event to report. */
  ghost predicate Chosen(m: map<int, Interest>, fds: seq<int>, poll: int -> Bits, from: seq<int>)
    requires forall i :: 0 <= i < |fds| ==> fds[i] in m
  {
    && (forall i, j :: 0 <= i < j < |from| ==> from[i] < from[j])
    && (forall i :: 0 <= i < |from| ==> 0 <= from[i] < |fds|)
    && (forall k :: 0 <= k < |fds| ==> (k in from <==> Wanted(poll(fds[k]), m[fds[k]])))
  }

  /** One event for each descriptor that has something to report, in order. */
  lemma {:induction false} ReadyExact(m: map<int, Interest>, fds: seq<int>, poll: int -> Bits) returns (from: seq<int>)
    requires forall i :: 0 <= i < |fds| ==> fds[i] in m
    ensures Chosen(m, fds, poll, from) && AllMatch(m, fds, poll, from, Ready(m, fds, poll))
  {
    if fds == [] {
      from := [];
    } else {
      var n := |fds| - 1;
      var before, fd := fds[..n], fds[n];
      var prior := ReadyExact(m, before, poll);
      assert fds == before + [fd];
      hide Report, Wanted, Matches, Ready, AllMatch, Chosen;
      ReadySnoc(m, before, fd, poll);
      ReportExact(poll(fd), m[fd]);
      from := if Wanted(poll(fd), m[fd]) then prior + [n] else prior;
      ChosenSnoc(m, before, fd, poll, prior);
      MatchSnoc(m, before, fd, poll, prior, Ready(m, before, poll), Report(poll(fd), m[fd]));
    }
  }

  ghost predicate AllMatch(m: map<int, Interest>, fds: seq<int>, poll: int -> Bits, from: seq<int>, events: seq<Event>)
    requires forall i :: 0 <= i < |fds| ==> fds[i] in m
  {
    |events| == |from| && forall i :: 0 <= i < |from| ==>
      0 <= from[i] < |fds| && Matches(events[i], poll(fds[from[i]]), m[fds[from[i]]])
  }

  lemma {:induction false} ChosenSnoc(m: map<int, Interest>, fds: seq<int>, fd: int, poll: int -> Bits, from: seq<int>)
    requires (forall i :: 0 <= i < |fds| ==> fds[i] in m) && fd in m && Chosen(m, fds, poll, from)
    ensures forall i :: 0 <= i < |fds + [fd]| ==> (fds + [fd])[i] in m
    ensures Chosen(m, fds + [fd], poll, if Wanted(poll(fd), m[fd]) then from + [|fds|] else from)
  {
    hide Wanted;
    var from' := if Wanted(poll(fd), m[fd]) then from + [|fds|] else from;
    forall k | 0 <= k < |fds + [fd]| ensures k in from' <==> Wanted(poll((fds + [fd])[k]), m[(fds + [fd])[k]]) {
      if k < |fds| { assert (fds + [fd])[k] == fds[k]; }
    }
  }

  lemma {:induction false} MatchSnoc(m: map<int, Interest>, fds: seq<int>, fd: int, poll: int -> Bits, from: seq<int>,
                                     events: seq<Event>, last: seq<Event>)
    requires (forall i :: 0 <= i < |fds| ==> fds[i] in m) && fd in m && AllMatch(m, fds, poll, from, events)
    requires |last| == if Wanted(poll(fd), m[fd]) then 1 else 0
    requires Wanted(poll(fd), m[fd]) ==> Matches(last[0], poll(fd), m[fd])
    ensures forall i :: 0 <= i < |fds + [fd]| ==> (fds + [fd])[i] in m
    ensures AllMatch(m, fds + [fd], poll, if Wanted(poll(fd), m[fd]) then from + [|fds|] else from, events + last)
  {
    hide Wanted, Matches;
    var fds', events' := fds + [fd], events + last;
    var from' := if Wanted(poll(fd), m[fd]) then from + [|fds|] else from;
    forall i | 0 <= i < |from'|
      ensures 0 <= from'[i] < |fds'| && Matches(events'[i], poll(fds'[from'[i]]), m[fds'[from'[i]]])
    {
      if i < |from| {
        assert from'[i] == from[i] && events'[i] == events[i] && fds'[from[i]] == fds[from[i]];
      } else {
        assert from'[i] == |fds| && events'[i] == last[0] && fds'[|fds|] == fd;
      }
    }
  }
}
