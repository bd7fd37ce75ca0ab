/** One client's watches: the request loop and the event loop of mydis/watch.go. */
module Watching {
  import opened Bytes
  import opened Keys

  datatype WatchRequest = WatchRequest(key: Bytes, prefix: bool, cancel: bool, rev: int, id: int)

  /** What the stream keeps per open watch. */
  datatype OpenWatch = OpenWatch(key: Bytes, end: Bytes, rev: int)

  datatype KeyValue = KeyValue(key: Bytes, value: Bytes)

  datatype StoreEvent = StoreEvent(kind: int, kv: KeyValue, previous: Option<KeyValue>)

  datatype ClientEvent = ClientEvent(kind: int, current: KeyValue, previous: KeyValue)

  const NO_VALUE := KeyValue([], [])

  /** RequestID: the key under which a request is remembered. */
  function RequestID(r: WatchRequest): Bytes {
    if r.prefix then r.key + PREFIX_SUFFIX else r.key
  }

  // ---------- what the loop does, on values ----------

  datatype Book = Book(watching: map<Bytes, WatchRequest>, stream: map<int, OpenWatch>, nextId: int, replies: nat)

  const EMPTY_BOOK := Book(map[], map[], 0, 0)

  function RangeOf(r: WatchRequest): OpenWatch {
    OpenWatch(r.key, if r.prefix then PrefixEnd(r.key) else [], r.rev)
  }

  /** One request: cancel a known watch, ignore a duplicate, or open a new watch. */
  function AfterRequest(b: Book, r: WatchRequest): Book {
    var hash := RequestID(r);
    if hash in b.watching && r.cancel then
      b.(watching := b.watching - {hash}, stream := b.stream - {b.watching[hash].id}, replies := b.replies + 1)
    else if hash in b.watching then
      b.(replies := b.replies + 1)
    else
      b.(watching := b.watching[hash := r.(id := b.nextId)], stream := b.stream[b.nextId := RangeOf(r)],
         nextId := b.nextId + 1, replies := b.replies + 1)
  }

  function AfterRequests(rs: seq<WatchRequest>): Book {
    if rs == [] then EMPTY_BOOK else AfterRequest(AfterRequests(rs[..|rs| - 1]), rs[|rs| - 1])
  }

  /** The open watches of the stream and the remembered requests are in one-to-one correspondence. */
  ghost predicate Matched(b: Book) {
    && (forall h :: h in b.watching ==>
          RequestID(b.watching[h]) == h && b.watching[h].id in b.stream &&
          b.stream[b.watching[h].id] == RangeOf(b.watching[h]))
    && (forall g, h :: g in b.watching && h in b.watching && b.watching[g].id == b.watching[h].id ==> g == h)
    && (forall i :: i in b.stream ==> exists h :: h in b.watching && b.watching[h].id == i)
    && (forall i :: i in b.stream ==> i < b.nextId)
  }

  /** The id a request is given changes neither what it watches nor how it is remembered. */
  lemma IdIsNoPartOfIt(r: WatchRequest, id: int)
    ensures RequestID(r.(id := id)) == RequestID(r) && RangeOf(r.(id := id)) == RangeOf(r)
  {
  }

  lemma OpeningKeepsMatched(b: Book, r: WatchRequest)
    requires Matched(b) && RequestID(r) !in b.watching
    ensures Matched(AfterRequest(b, r))
  {
    IdIsNoPartOfIt(r, b.nextId);
    hide RangeOf, RequestID;
    var hash, b' := RequestID(r), AfterRequest(b, r);
    assert b.nextId !in b.stream;
    forall i | i in b'.stream ensures exists h :: h in b'.watching && b'.watching[h].id == i {
      if i == b.nextId {
        assert b'.watching[hash].id == i;
      } else {
        var h :| h in b.watching && b.watching[h].id == i;
        assert b'.watching[h].id == i;
      }
    }
  }

  lemma CancellingKeepsMatched(b: Book, r: WatchRequest)
    requires Matched(b) && RequestID(r) in b.watching && r.cancel
    ensures Matched(AfterRequest(b, r))
  {
    hide RangeOf, RequestID;
    var hash, b' := RequestID(r), AfterRequest(b, r);
    forall i | i in b'.stream ensures exists h :: h in b'.watching && b'.watching[h].id == i {
      var h :| h in b.watching && b.watching[h].id == i;
      assert h in b'.watching && b'.watching[h].id == i;
    }
  }

  lemma RequestKeepsMatched(b: Book, r: WatchRequest)
    requires Matched(b)
    ensures Matched(AfterRequest(b, r))
  {
    hide RangeOf, RequestID;
    if RequestID(r) !in b.watching {
      OpeningKeepsMatched(b, r);
    } else if r.cancel {
      CancellingKeepsMatched(b, r);
    }
  }

  /** After any requests: watches and entries correspond, and every request got exactly one reply. */
  lemma {:induction false} BooksAlwaysMatched(rs: seq<WatchRequest>)
    ensures Matched(AfterRequests(rs)) && AfterRequests(rs).replies == |rs|
    decreases |rs|
  {
    hide Matched;
    if rs == [] {
      assert Matched(EMPTY_BOOK) by { EmptyMatched(); }
    } else {
      BooksAlwaysMatched(rs[..|rs| - 1]);
      RequestKeepsMatched(AfterRequests(rs[..|rs| - 1]), rs[|rs| - 1]);
    }
  }

  lemma EmptyMatched()
    ensures Matched(EMPTY_BOOK)
  {
  }

  /**
   Which watches a request opens and closes: a duplicate opens none, cancelling a known one closes exactly
   its own, and anything else opens one. That includes cancelling what was never asked for, which opens it.
   */
  lemma RequestOpensAndCloses(b: Book, r: WatchRequest)
    requires Matched(b)
    ensures var b' := AfterRequest(b, r); var known := RequestID(r) in b.watching;
            && (known && !r.cancel ==> b'.stream == b.stream && b'.watching == b.watching)
            && (known && r.cancel ==>
                  b'.stream.Keys == b.stream.Keys - {b.watching[RequestID(r)].id} && |b'.stream| == |b.stream| - 1 &&
                  RequestID(r) !in b'.watching)
            && (!known ==>
                  b'.stream.Keys == b.stream.Keys + {b.nextId} && |b'.stream| == |b.stream| + 1 &&
                  b'.stream[b.nextId] == RangeOf(r) && RequestID(r) in b'.watching)
  {
    hide RangeOf, RequestID;
    var known := RequestID(r) in b.watching;
    if known && r.cancel {
      OneFewer(b.stream, b.watching[RequestID(r)].id);
    } else if !known {
      OneMore(b.stream, b.nextId, RangeOf(r));
    }
  }

  /** Every open watch is on what one of the requests asked for: its key, its revision, and the keys it covers. */
  lemma WatchesAsAsked(rs: seq<WatchRequest>, id: int)
    requires id in AfterRequests(rs).stream
    ensures var w := AfterRequests(rs).stream[id];
            exists n :: 0 <= n < |rs| && w.key == rs[n].key && w.rev == rs[n].rev &&
                        forall k :: InRange(k, w.key, w.end) <==> k == rs[n].key || (rs[n].prefix && HasPrefix(k, rs[n].key))
  {
    BooksAlwaysMatched(rs);
    hide AfterRequests, InRange, RequestID;
    var b := AfterRequests(rs);
    var h :| h in b.watching && b.watching[h].id == id;
    var n := RememberedAsAsked(rs, h);
    forall k ensures InRange(k, rs[n].key, b.stream[id].end) <==> k == rs[n].key || (rs[n].prefix && HasPrefix(k, rs[n].key)) {
      WantsItsRange(rs[n], k);
    }
  }

  lemma {:induction false} RememberedAsAsked(rs: seq<WatchRequest>, h: Bytes) returns (n: nat)
    requires h in AfterRequests(rs).watching
    ensures n < |rs| && AfterRequests(rs).watching[h] == rs[n].(id := AfterRequests(rs).watching[h].id)
    decreases |rs|
  {
    hide RangeOf;
    var m := |rs| - 1;
    var before := AfterRequests(rs[..m]);
    if h in before.watching {
      n := RememberedAsAsked(rs[..m], h);
    } else {
      n := m;
    }
  }

  lemma OneFewer(m: map<int, OpenWatch>, id: int)
    requires id in m
    ensures (m - {id}).Keys == m.Keys - {id} && |m - {id}| == |m| - 1
  {
    assert m.Keys == (m - {id}).Keys + {id};
  }

  lemma OneMore(m: map<int, OpenWatch>, id: int, w: OpenWatch)
    requires id !in m
    ensures m[id := w].Keys == m.Keys + {id} && |m[id := w]| == |m| + 1
  {
  }

  /** A plain watch on a key that ends in the prefix suffix is taken for a prefix watch. */
  lemma RequestIDsCanCollide(key: Bytes)
    ensures RequestID(WatchRequest(key, true, false, 0, 0)) == RequestID(WatchRequest(key + PREFIX_SUFFIX, false, false, 0, 0))
    ensures WatchRequest(key, true, false, 0, 0) != WatchRequest(key + PREFIX_SUFFIX, false, false, 0, 0)
  {
  }

  /** Two requests share an identity exactly if they watch the same, or one of them spells out the suffix. */
  lemma RequestIDsCollideExactly(r: WatchRequest, q: WatchRequest)
    ensures RequestID(r) == RequestID(q) <==>
              if r.prefix == q.prefix then r.key == q.key
              else if r.prefix then q.key == r.key + PREFIX_SUFFIX else r.key == q.key + PREFIX_SUFFIX
  {
    if r.prefix && q.prefix {
      assert RequestID(r)[..|RequestID(r)| - |PREFIX_SUFFIX|] == r.key;
      assert RequestID(q)[..|RequestID(q)| - |PREFIX_SUFFIX|] == q.key;
    }
  }

  // ---------- events ----------

  /** The filter applied to each incoming event. */
  predicate Wants(r: WatchRequest, key: Bytes) {
    r.key == key || (r.prefix && HasPrefix(key, r.key))
  }

  /** It lets through exactly the keys in the range its own watch was opened on. */
  lemma WantsItsRange(r: WatchRequest, key: Bytes)
    ensures Wants(r, key) <==> InRange(key, RangeOf(r).key, RangeOf(r).end)
  {
    if r.prefix {
      SentinelExactlyWhenUnbounded(r.key);
      PrefixRangeExact(key, r.key);
    }
  }

  function Interested(watching: map<Bytes, WatchRequest>, key: Bytes): set<Bytes> {
    set h | h in watching && Wants(watching[h], key)
  }

  function Translated(e: StoreEvent): ClientEvent {
    ClientEvent(e.kind, e.kv, if e.previous.Some? then e.previous.value else NO_VALUE)
  }

  function Copies(e: ClientEvent, n: nat): seq<ClientEvent> {
    seq(n, _ => e)
  }

  /** Each event, in order, once for every entry that wants it. */
  function Delivered(watching: map<Bytes, WatchRequest>, events: seq<StoreEvent>): seq<ClientEvent> {
    if events == [] then []
    else
      Delivered(watching, events[..|events| - 1]) +
      Copies(Translated(events[|events| - 1]), |Interested(watching, events[|events| - 1].kv.key)|)
  }

  lemma DeliverOne(watching: map<Bytes, WatchRequest>, events: seq<StoreEvent>, n: nat)
    requires n < |events|
    ensures Delivered(watching, events[..n + 1]) ==
            Delivered(watching, events[..n]) + Copies(Translated(events[n]), |Interested(watching, events[n].kv.key)|)
  {
    assert events[..n + 1][..n] == events[..n] && events[..n + 1][n] == events[n];
  }

  lemma AllMet(watching: map<Bytes, WatchRequest>, key: Bytes, e: ClientEvent)
    ensures Interested(watching, key) - watching.Keys == {} && Copies(e, 0) == []
  {
  }

  /** Walking one entry further meets one more interested entry exactly if it wants the key. */
  lemma MeetOne(watching: map<Bytes, WatchRequest>, key: Bytes, rest: set<Bytes>, h: Bytes, e: ClientEvent)
    requires rest <= watching.Keys && h in rest
    ensures var n := |Interested(watching, key) - rest|;
            Copies(e, |Interested(watching, key) - (rest - {h})|) == if Wants(watching[h], key) then Copies(e, n) + [e] else Copies(e, n)
  {
    hide Wants;
    var all := Interested(watching, key);
    if Wants(watching[h], key) {
      assert all - (rest - {h}) == (all - rest) + {h};
    } else {
      assert all - (rest - {h}) == all - rest;
    }
  }

  /**
   Everything a client is sent stems from an event the store reported: same kind, same key and value, the
   previous key and value where there was one and none where there was not, to somebody who asked for that key.
   */
  lemma {:induction false} SentAsReported(watching: map<Bytes, WatchRequest>, events: seq<StoreEvent>, c: ClientEvent)
    requires c in Delivered(watching, events)
    ensures exists n, h :: 0 <= n < |events| && h in watching && Reports(c, events[n], watching[h])
    decreases |events|
  {
    hide Reports;
    var n := |events| - 1;
    if c in Delivered(watching, events[..n]) {
      SentAsReported(watching, events[..n], c);
      var m, h :| 0 <= m < |events[..n]| && h in watching && Reports(c, events[..n][m], watching[h]);
      assert events[..n][m] == events[m];
    } else {
      var who := Interested(watching, events[n].kv.key);
      assert c in Copies(Translated(events[n]), |who|);
      var h :| h in who;
      assert Reports(c, events[n], watching[h]) by { TranslationReports(events[n], watching[h]); }
    }
  }

  /** Events go out in the order they came in. */
  lemma {:induction false} DeliveredInOrder(watching: map<Bytes, WatchRequest>, a: seq<StoreEvent>, b: seq<StoreEvent>)
    ensures Delivered(watching, a + b) == Delivered(watching, a) + Delivered(watching, b)
    decreases |b|
  {
    hide Copies, Interested, Translated;
    if b == [] {
      assert a + b == a;
    } else {
      var n := |b| - 1;
      assert (a + b)[..|a| + n] == a + b[..n] && (a + b)[|a| + n] == b[n];
      DeliveredInOrder(watching, a, b[..n]);
    }
  }

  /** One event goes out as often as there are remembered requests that cover its key. */
  lemma OncePerRequest(watching: map<Bytes, WatchRequest>, e: StoreEvent)
    ensures |Delivered(watching, [e])| ==
            |set h | h in watching && (watching[h].key == e.kv.key || (watching[h].prefix && HasPrefix(e.kv.key, watching[h].key)))|
  {
    assert [e][..0] == [];
    assert Interested(watching, e.kv.key) ==
           set h | h in watching && (watching[h].key == e.kv.key || (watching[h].prefix && HasPrefix(e.kv.key, watching[h].key)));
  }

  ghost predicate Reports(c: ClientEvent, e: StoreEvent, r: WatchRequest) {
    && c.kind == e.kind
    && c.current.key == e.kv.key && c.current.value == e.kv.value
    && (e.previous.Some? ==> c.previous.key == e.previous.value.key && c.previous.value == e.previous.value.value)
    && (e.previous.None? ==> c.previous.key == [] && c.previous.value == [])
    && (r.key == e.kv.key || (r.prefix && HasPrefix(e.kv.key, r.key)))
  }

  lemma TranslationReports(e: StoreEvent, r: WatchRequest)
    requires Wants(r, e.kv.key)
    ensures Reports(Translated(e), e, r)
  {
  }

  // ---------- the loop itself ----------

  class Watcher {
    var watching: map<Bytes, WatchRequest>
    var stream: map<int, OpenWatch> // the open watches of the store's watch stream
    var nextId: int
    var replies: nat // sent on resCh
    var sent: seq<ClientEvent> // sent on eventCh
    ghost var received: seq<WatchRequest>

    constructor ()
      ensures Valid() && received == [] && sent == [] && watching == map[]
    {
      watching, stream, nextId, replies, sent := map[], map[], 0, 0, [];
      received := [];
    }

    ghost function State(): Book
      reads this
    {
      Book(watching, stream, nextId, replies)
    }

    /** The fields are what the requests received so far lead to. */
    ghost predicate Valid()
      reads this
    {
      State() == AfterRequests(received)
    }

    /** stream.Watch hands out a new id. */
    method Open(w: OpenWatch) returns (id: int)
      modifies this`stream, this`nextId
      ensures id == old(nextId) && nextId == id + 1 && stream == old(stream)[id := w]
    {
      id := nextId;
      stream, nextId := stream[id := w], nextId + 1;
    }

    method Reply()
      modifies this`replies
      ensures replies == old(replies) + 1
    {
      replies := replies + 1;
    }

    /** The `case r := <-w.reqCh` branch. */
    method Handle(request: WatchRequest)
      requires Valid()
      modifies this
      ensures Valid() && received == old(received) + [request]
      ensures State() == AfterRequest(old(State()), request) && sent == old(sent)
    {
      assert (received + [request])[..|received|] == received;
      received := received + [request];
      var r := request;
      var hash := RequestID(r);
      if hash in watching && r.cancel {
        stream := stream - {watching[hash].id};
        watching := watching - {hash};
        Reply();
        return;
      } else if hash in watching {
        Reply();
        return;
      }
      var end: Bytes := [];
      if r.prefix {
        end := GetPrefix(r.key);
      }
      var id := Open(OpenWatch(r.key, end, r.rev));
      r := r.(id := id);
      watching := watching[hash := r];
      Reply();
    }

    /** One event goes out once for each entry that wants it; the entries are walked in any order. */
    method Emit(ev: ClientEvent, key: Bytes)
      modifies this`sent
      ensures sent == old(sent) + Copies(ev, |Interested(watching, key)|)
    {
      hide Wants, Copies, Interested;
      var rest := watching.Keys;
      ghost var all := Interested(watching, key);
      AllMet(watching, key, ev);
      assert sent == old(sent) + Copies(ev, |all - rest|);
      while rest != {}
        invariant rest <= watching.Keys
        invariant sent == old(sent) + Copies(ev, |all - rest|)
        decreases rest
      {
        var h :| h in rest;
        MeetOne(watching, key, rest, h, ev);
        rest := rest - {h};
        if Wants(watching[h], key) {
          sent := sent + [ev];
        }
      }
      assert all - rest == all;
    }

    /** The `case r := <-streamCh` branch. */
    method Deliver(events: seq<StoreEvent>)
      requires Valid()
      modifies this`sent
      ensures sent == old(sent) + Delivered(watching, events)
    {
      hide Interested, Copies, AfterRequests;
      assert events[..0] == [];
      for n := 0 to |events|
        invariant sent == old(sent) + Delivered(watching, events[..n])
      {
        var e := events[n];
        var ev := ClientEvent(e.kind, e.kv, NO_VALUE);
        if e.previous.Some? {
          ev := ev.(previous := e.previous.value);
        }
        Emit(ev, e.kv.key);
        DeliverOne(watching, events, n);
      }
      assert events[..|events|] == events;
    }
  }
}
