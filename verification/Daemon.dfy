/** The sync daemon's bookkeeping: pinned peers, running syncs, one budget. */
module Daemon {
  import opened Options
  import opened Order
  import opened RateLimit
  import opened Peers

  datatype PeerEntry = PeerEntry(
    name: string, addr: Option<string>, discovered: bool, lastSync: Option<(string, nat)>, inFlight: bool)

  type Pinned = map<string, PeerEntry>

  /** `live` are the outbound syncs that have started and not yet finished;
      `acted` logs each served request and each started sync with its time. */
  datatype State = State(peers: Pinned, limiter: Limiter, live: multiset<string>, acted: seq<(string, nat)>)

  function FromRecord(r: Record): PeerEntry {
    PeerEntry(r.name, None, false, None, false)
  }

  // ----- reloading the peer table -----------------------------------------

  /** `apply_peers` as a fold: what is left of the old map, and what is kept. */
  function ApplyRecords(old_: Pinned, records: seq<Record>, parses: string -> bool): (Pinned, Pinned) {
    if records == [] then (old_, map[]) else
      var (left, keep) := ApplyRecords(old_, records[..|records| - 1], parses);
      var r := records[|records| - 1];
      if !parses(r.peerId) then (left, keep)
      else
        var entry := if r.peerId in left then left[r.peerId].(name := r.name) else FromRecord(r);
        (left - {r.peerId}, keep[r.peerId := entry])
  }

  function Reloaded(s: State, reload: Option<seq<Record>>, parses: string -> bool): State {
    match reload
    case None => s
    case Some(records) => s.(peers := ApplyRecords(s.peers, records, parses).1)
  }

  function LastName(records: seq<Record>, id: string): string {
    if records == [] then "" else
      var r := records[|records| - 1];
      if r.peerId == id then r.name else LastName(records[..|records| - 1], id)
  }

  /** After a reload exactly the listed ids are pinned.  A peer that was pinned
      keeps its runtime state exactly when its id is listed once: a second
      record for the same id starts it afresh. */
  lemma {:induction false} ReloadExactly(old_: Pinned, records: seq<Record>, parses: string -> bool, id: string)
    ensures var (left, keep) := ApplyRecords(old_, records, parses);
            var n := if parses(id) then Occurrences(records, id) else 0;
            && (id in keep <==> n > 0)
            && (id in left <==> id in old_ && n == 0)
            && (id in left ==> left[id] == old_[id])
            && (n > 0 ==> keep[id] == if id in old_ && n == 1 then old_[id].(name := LastName(records, id))
                                      else PeerEntry(LastName(records, id), None, false, None, false))
  {
    if records != [] {
      ReloadExactly(old_, records[..|records| - 1], parses, id);
    }
  }

  // ----- events -------------------------------------------------------------

  datatype Event =
    | Inbound(peer: string, now: nat, reload: Option<seq<Record>>)
    | Discovered(peer: string, addr: string, now: nat, reload: Option<seq<Record>>)
    | Expired(peer: string, reload: Option<seq<Record>>)
    | FilesChanged(now: nat)
    | SyncFinished(peer: string, action: Option<string>, at: nat)

  function SetFlag(peers: Pinned, peer: string, flag: bool): Pinned {
    if peer in peers then peers[peer := peers[peer].(inFlight := flag)] else peers
  }

  /** Take one attempt from the peer's budget; log it when granted. */
  function Admit(s: State, peer: string, now: nat): (State, bool)
    requires s.limiter.maxAttempts >= 1
  {
    var (limiter, v) := Check(s.limiter, peer, now);
    if v.Accepted? then (s.(limiter := limiter, acted := s.acted + [(peer, now)]), true)
    else (s.(limiter := limiter), false)
  }

  function Spawn(s: State, peer: string, now: nat): State
    requires s.limiter.maxAttempts >= 1
  {
    var (t, ok) := Admit(s, peer, now);
    if ok then t.(live := t.live + multiset{peer}) else t.(peers := SetFlag(t.peers, peer, false))
  }

  function SpawnAll(s: State, order: seq<string>, now: nat): (t: State)
    requires s.limiter.maxAttempts >= 1
    ensures t.limiter.maxAttempts == s.limiter.maxAttempts
  {
    if order == [] then s else Spawn(SpawnAll(s, order[..|order| - 1], now), order[|order| - 1], now)
  }

  function KnownIdle(peers: Pinned): set<string> {
    set p | p in peers && peers[p].addr.Some? && !peers[p].inFlight
  }

  function FlagAll(peers: Pinned, chosen: set<string>): Pinned {
    map p | p in peers :: if p in chosen then peers[p].(inFlight := true) else peers[p]
  }

  function Step(s: State, e: Event, parses: string -> bool): (t: State)
    requires s.limiter.maxAttempts >= 1
    ensures t.limiter.maxAttempts == s.limiter.maxAttempts
  {
    match e
    case Inbound(peer, now, reload) =>
      var r := Reloaded(s, reload, parses);
      if peer in r.peers then Admit(r, peer, now).0 else r
    case Discovered(peer, addr, now, reload) =>
      var r := Reloaded(s, reload, parses);
      if peer !in r.peers then r
      else
        var seen := r.peers[peer].(discovered := true, addr := Some(addr));
        if seen.inFlight then r.(peers := r.peers[peer := seen])
        else Spawn(r.(peers := r.peers[peer := seen.(inFlight := true)]), peer, now)
    case Expired(peer, reload) =>
      var r := Reloaded(s, reload, parses);
      if peer in r.peers then r.(peers := r.peers[peer := r.peers[peer].(discovered := false)]) else r
    case FilesChanged(now) =>
      var chosen := KnownIdle(s.peers);
      SpawnAll(s.(peers := FlagAll(s.peers, chosen)), Sorted(chosen), now)
    case SyncFinished(peer, action, at) =>
      var t := s.(live := s.live - multiset{peer});
      if peer !in t.peers then t
      else
        var idle := t.peers[peer].(inFlight := false);
        t.(peers := t.peers[peer := if action.Some? then idle.(lastSync := Some((action.value, at))) else idle])
  }

  // ----- the in-flight flag -------------------------------------------------

  /** A pinned peer's flag is set exactly while one sync to it runs. */
  ghost predicate FlagExact(s: State, p: string) {
    p in s.peers ==> s.live[p] == if s.peers[p].inFlight then 1 else 0
  }

  /** A sync only finishes if it runs. */
  ghost predicate Possible(s: State, e: Event) {
    e.SyncFinished? ==> s.live[e.peer] > 0
  }

  function ReloadOf(e: Event): Option<seq<Record>> {
    if e.Inbound? || e.Discovered? || e.Expired? then e.reload else None
  }

  /** The event does not unpin `p`, nor list it twice. */
  ghost predicate KeepsPinned(e: Event, p: string, parses: string -> bool) {
    ReloadOf(e).Some? ==> parses(p) && Occurrences(ReloadOf(e).value, p) == 1
  }

  /** Reloading keeps the flag exact for a peer exactly when it is unpinned,
      idle, or was pinned before and is listed once. */
  lemma ReloadKeepsFlagExactly(s: State, records: seq<Record>, parses: string -> bool, p: string)
    requires FlagExact(s, p)
    ensures var t := Reloaded(s, Some(records), parses);
            FlagExact(t, p) <==> p !in t.peers || s.live[p] == 0 || (p in s.peers && Occurrences(records, p) == 1)
  {
    ReloadExactly(s.peers, records, parses, p);
  }

  lemma SpawnEffect(s: State, peer: string, now: nat, p: string)
    requires s.limiter.maxAttempts >= 1
    requires peer == p ==> p in s.peers && s.peers[p].inFlight && s.live[p] == 0
    ensures var t := Spawn(s, peer, now);
            && (p in t.peers <==> p in s.peers)
            && (peer == p ==> FlagExact(t, p))
            && (peer != p ==> t.live[p] == s.live[p] && (p in s.peers ==> t.peers[p] == s.peers[p]))
  {
  }

  lemma {:induction false} SpawnAllEffect(s: State, order: seq<string>, now: nat, p: string)
    requires s.limiter.maxAttempts >= 1 && StrictlySorted(order)
    requires p in order ==> p in s.peers && s.peers[p].inFlight && s.live[p] == 0
    ensures var t := SpawnAll(s, order, now);
            && (p in t.peers <==> p in s.peers)
            && (p in order ==> FlagExact(t, p))
            && (p !in order ==> t.live[p] == s.live[p] && (p in s.peers ==> t.peers[p] == s.peers[p]))
  {
    if order != [] {
      var n := |order| - 1;
      var init := order[..n];
      assert order == init + [order[n]];
      if p in init && p == order[n] {
        var i :| 0 <= i < n && order[i] == p;
        LessTotal(order[i], order[n]);
      }
      SpawnAllEffect(s, init, now, p);
      SpawnEffect(SpawnAll(s, init, now), order[n], now, p);
    }
  }

  /** Every event keeps the flag exact for a peer it leaves pinned. */
  lemma StepKeepsFlag(s: State, e: Event, parses: string -> bool, p: string)
    requires s.limiter.maxAttempts >= 1 && Possible(s, e)
    requires p in s.peers && FlagExact(s, p) && KeepsPinned(e, p, parses)
    ensures var t := Step(s, e, parses); p in t.peers && FlagExact(t, p)
  {
    var r := Reloaded(s, ReloadOf(e), parses);
    if ReloadOf(e).Some? { ReloadExactly(s.peers, ReloadOf(e).value, parses, p); }
    assert p in r.peers && r.peers[p].inFlight == s.peers[p].inFlight;
    match e
    case Discovered(peer, addr, now, _) =>
      if peer in r.peers {
        var seen := r.peers[peer].(discovered := true, addr := Some(addr));
        if !seen.inFlight {
          SpawnEffect(r.(peers := r.peers[peer := seen.(inFlight := true)]), peer, now, p);
        }
      }
    case FilesChanged(now) =>
      var chosen := KnownIdle(s.peers);
      SpawnAllEffect(s.(peers := FlagAll(s.peers, chosen)), Sorted(chosen), now, p);
    case _ =>
  }

  /** The one attempt an event makes on behalf of `p` for an outbound sync:
      `p` is pinned and idle, and was just discovered or has a known address. */
  ghost predicate Dials(s: State, e: Event, parses: string -> bool, p: string) {
    var r := Reloaded(s, ReloadOf(e), parses);
    && p in r.peers && !r.peers[p].inFlight
    && ((e.Discovered? && e.peer == p) || (e.FilesChanged? && r.peers[p].addr.Some?))
  }

  ghost predicate SameBudget(l: Limiter, m: Limiter, p: string) {
    l.maxAttempts == m.maxAttempts && l.window == m.window && BucketOf(l, p) == BucketOf(m, p)
  }

  lemma SpawnStarts(s: State, peer: string, now: nat, p: string)
    requires s.limiter.maxAttempts >= 1
    ensures var t := Spawn(s, peer, now);
            && (p != peer ==> SameBudget(t.limiter, s.limiter, p))
            && t.live[p] == s.live[p] + if p == peer && Check(s.limiter, p, now).1.Accepted? then 1 else 0
  {
    if p != peer { OtherKeysUntouched(s.limiter, peer, p, now); }
  }

  lemma {:induction false} SpawnAllStarts(s: State, order: seq<string>, now: nat, p: string)
    requires s.limiter.maxAttempts >= 1 && StrictlySorted(order)
    ensures var t := SpawnAll(s, order, now);
            && (p !in order ==> SameBudget(t.limiter, s.limiter, p))
            && t.live[p] == s.live[p] + if p in order && Check(s.limiter, p, now).1.Accepted? then 1 else 0
  {
    if order != [] {
      var n := |order| - 1;
      var init, last := order[..n], order[n];
      assert order == init + [last];
      if last in init {
        var i :| 0 <= i < n && order[i] == last;
        LessTotal(order[i], order[n]);
      }
      SpawnAllStarts(s, init, now, p);
      SpawnStarts(SpawnAll(s, init, now), last, now, p);
    }
  }

  lemma FilesChangedStarts(s: State, now: nat, parses: string -> bool, p: string)
    requires s.limiter.maxAttempts >= 1
    ensures Step(s, FilesChanged(now), parses).live[p] ==
              s.live[p] + if p in KnownIdle(s.peers) && Check(s.limiter, p, now).1.Accepted? then 1 else 0
  {
    var chosen := KnownIdle(s.peers);
    SpawnAllStarts(s.(peers := FlagAll(s.peers, chosen)), Sorted(chosen), now, p);
  }

  /** A sync to `p` starts exactly when the event dials `p` and the budget
      admits it, and ends only when it reports. */
  lemma StepStartsExactly(s: State, e: Event, parses: string -> bool, p: string)
    requires s.limiter.maxAttempts >= 1 && !e.SyncFinished?
    ensures Step(s, e, parses).live[p] ==
              s.live[p] + if Dials(s, e, parses, p) && Check(s.limiter, p, e.now).1.Accepted? then 1 else 0
  {
    match e
    case FilesChanged(now) =>
      FilesChangedStarts(s, now, parses, p);
    case Discovered(peer, addr, now, reload) =>
      var r := Reloaded(s, reload, parses);
      if peer in r.peers {
        var seen := r.peers[peer].(discovered := true, addr := Some(addr), inFlight := true);
        SpawnStarts(r.(peers := r.peers[peer := seen]), peer, now, p);
      }
    case _ =>
  }

  /** What the status of a peer shows. */
  function StatusOf(e: PeerEntry): (Option<string>, bool, Option<(string, nat)>) {
    (e.addr, e.discovered, e.lastSync)
  }

  ghost predicate Shows(s: State, p: string, status: (Option<string>, bool, Option<(string, nat)>)) {
    p in s.peers && StatusOf(s.peers[p]) == status
  }

  lemma ReloadShows(s: State, e: Event, parses: string -> bool, p: string)
    requires p in s.peers && KeepsPinned(e, p, parses)
    ensures Shows(Reloaded(s, ReloadOf(e), parses), p, StatusOf(s.peers[p]))
  {
    if ReloadOf(e).Some? { ReloadExactly(s.peers, ReloadOf(e).value, parses, p); }
  }

  lemma SpawnShows(s: State, peer: string, now: nat, p: string)
    requires s.limiter.maxAttempts >= 1 && p in s.peers
    ensures Shows(Spawn(s, peer, now), p, StatusOf(s.peers[p]))
  {
  }

  lemma {:induction false} SpawnAllShows(s: State, order: seq<string>, now: nat, p: string)
    requires s.limiter.maxAttempts >= 1 && p in s.peers
    ensures Shows(SpawnAll(s, order, now), p, StatusOf(s.peers[p]))
  {
    if order != [] {
      var init, last := order[..|order| - 1], order[|order| - 1];
      SpawnAllShows(s, init, now, p);
      SpawnShows(SpawnAll(s, init, now), last, now, p);
    }
  }

  /** A peer's address is the last one discovered, it is visible from a
      discovery to the matching expiry, and its last sync is the last one that
      finished without an error. */
  function NextStatus(old_: PeerEntry, e: Event, p: string): (Option<string>, bool, Option<(string, nat)>) {
    match e
    case Discovered(peer, addr, _, _) => if peer == p then (Some(addr), true, old_.lastSync) else StatusOf(old_)
    case Expired(peer, _) => if peer == p then (old_.addr, false, old_.lastSync) else StatusOf(old_)
    case SyncFinished(peer, Some(action), at) =>
      if peer == p then (old_.addr, old_.discovered, Some((action, at))) else StatusOf(old_)
    case _ => StatusOf(old_)
  }

  lemma FilesChangedShows(s: State, now: nat, parses: string -> bool, p: string)
    requires s.limiter.maxAttempts >= 1 && p in s.peers
    ensures Shows(Step(s, FilesChanged(now), parses), p, StatusOf(s.peers[p]))
  {
    var chosen := KnownIdle(s.peers);
    SpawnAllShows(s.(peers := FlagAll(s.peers, chosen)), Sorted(chosen), now, p);
  }

  lemma DiscoveredShows(s: State, peer: string, addr: string, now: nat, reload: Option<seq<Record>>,
                        parses: string -> bool, p: string, was: (Option<string>, bool, Option<(string, nat)>))
    requires s.limiter.maxAttempts >= 1 && Shows(Reloaded(s, reload, parses), p, was)
    ensures Shows(Step(s, Discovered(peer, addr, now, reload), parses), p,
                  if peer == p then (Some(addr), true, was.2) else was)
  {
    var r := Reloaded(s, reload, parses);
    if peer in r.peers {
      var seen := r.peers[peer].(discovered := true, addr := Some(addr), inFlight := true);
      SpawnShows(r.(peers := r.peers[peer := seen]), peer, now, p);
    }
  }

  lemma InboundShows(s: State, peer: string, now: nat, reload: Option<seq<Record>>, parses: string -> bool, p: string,
                     was: (Option<string>, bool, Option<(string, nat)>))
    requires s.limiter.maxAttempts >= 1 && Shows(Reloaded(s, reload, parses), p, was)
    ensures Shows(Step(s, Inbound(peer, now, reload), parses), p, was)
  {
  }

  lemma ExpiredShows(s: State, peer: string, reload: Option<seq<Record>>, parses: string -> bool, p: string,
                     was: (Option<string>, bool, Option<(string, nat)>))
    requires s.limiter.maxAttempts >= 1 && Shows(Reloaded(s, reload, parses), p, was)
    ensures Shows(Step(s, Expired(peer, reload), parses), p, if peer == p then (was.0, false, was.2) else was)
  {
  }

  lemma FinishedShows(s: State, e: Event, parses: string -> bool, p: string)
    requires s.limiter.maxAttempts >= 1 && p in s.peers && e.SyncFinished?
    ensures Shows(Step(s, e, parses), p, NextStatus(s.peers[p], e, p))
  {
  }

  lemma StepShows(s: State, e: Event, parses: string -> bool, p: string)
    requires s.limiter.maxAttempts >= 1 && p in s.peers && KeepsPinned(e, p, parses)
    ensures Shows(Step(s, e, parses), p, NextStatus(s.peers[p], e, p))
  {
    var was := StatusOf(s.peers[p]);
    assert Shows(Reloaded(s, ReloadOf(e), parses), p, was) by { ReloadShows(s, e, parses, p); }
    match e
    case Inbound(peer, now, reload) => InboundShows(s, peer, now, reload, parses, p, was);
    case Discovered(peer, addr, now, reload) => DiscoveredShows(s, peer, addr, now, reload, parses, p, was);
    case Expired(peer, reload) => ExpiredShows(s, peer, reload, parses, p, was);
    case FilesChanged(now) => FilesChangedShows(s, now, parses, p);
    case SyncFinished(_, _, _) => FinishedShows(s, e, parses, p);
  }

  // ----- the shared budget --------------------------------------------------

  /** The times at which a request of `p` was served or a sync to it started. */
  function Times(acted: seq<(string, nat)>, p: string): seq<nat> {
    if acted == [] then [] else
      var (q, t) := acted[|acted| - 1];
      Times(acted[..|acted| - 1], p) + if q == p then [t] else []
  }

  lemma AdmitTracks(s: State, peer: string, before: nat, now: nat, p: string)
    requires s.limiter.maxAttempts >= 1 && s.limiter.window <= now && before <= now
    requires Tracks(s.limiter, p, Times(s.acted, p), before)
    ensures var t := Admit(s, peer, now).0;
            Tracks(t.limiter, p, Times(t.acted, p), now) && t.limiter.window == s.limiter.window
  {
    StepTracks(s.limiter, peer, p, Times(s.acted, p), before, now);
    assert Times(s.acted, p) + [] == Times(s.acted, p);
  }

  lemma SpawnTracks(s: State, peer: string, before: nat, now: nat, p: string)
    requires s.limiter.maxAttempts >= 1 && s.limiter.window <= now && before <= now
    requires Tracks(s.limiter, p, Times(s.acted, p), before)
    ensures var t := Spawn(s, peer, now);
            Tracks(t.limiter, p, Times(t.acted, p), now) && t.limiter.window == s.limiter.window
  {
    AdmitTracks(s, peer, before, now, p);
  }

  lemma {:induction false} SpawnAllTracks(s: State, order: seq<string>, before: nat, now: nat, p: string)
    requires s.limiter.maxAttempts >= 1 && s.limiter.window <= now && before <= now
    requires Tracks(s.limiter, p, Times(s.acted, p), before)
    ensures var t := SpawnAll(s, order, now);
            Tracks(t.limiter, p, Times(t.acted, p), now) && t.limiter.window == s.limiter.window
  {
    if order == [] {
      LaterTracks(s.limiter, p, Times(s.acted, p), before, now);
    } else {
      SpawnAllTracks(s, order[..|order| - 1], before, now, p);
      SpawnTracks(SpawnAll(s, order[..|order| - 1], now), order[|order| - 1], now, now, p);
    }
  }

  function TimeOf(e: Event, before: nat): nat {
    if e.Inbound? || e.Discovered? || e.FilesChanged? then e.now else before
  }

  lemma StepTracksBudget(s: State, e: Event, parses: string -> bool, before: nat, p: string)
    requires s.limiter.maxAttempts >= 1
    requires TimeOf(e, before) >= before && (TimeOf(e, before) >= s.limiter.window || e.Expired? || e.SyncFinished?)
    requires Tracks(s.limiter, p, Times(s.acted, p), before)
    ensures var t := Step(s, e, parses);
            Tracks(t.limiter, p, Times(t.acted, p), TimeOf(e, before)) && t.limiter.window == s.limiter.window
  {
    var r := Reloaded(s, ReloadOf(e), parses);
    LaterTracks(s.limiter, p, Times(s.acted, p), before, TimeOf(e, before));
    match e
    case Inbound(peer, now, _) =>
      AdmitTracks(r, peer, before, now, p);
    case Discovered(peer, addr, now, _) =>
      if peer in r.peers {
        var seen := r.peers[peer].(discovered := true, addr := Some(addr), inFlight := true);
        SpawnTracks(r.(peers := r.peers[peer := seen]), peer, before, now, p);
      }
    case FilesChanged(now) =>
      var chosen := KnownIdle(s.peers);
      SpawnAllTracks(s.(peers := FlagAll(s.peers, chosen)), Sorted(chosen), before, now, p);
    case _ =>
  }

  // ----- who is served ------------------------------------------------------

  /** A record of the table carries the id. */
  ghost predicate Listed(records: seq<Record>, id: string) {
    exists i :: 0 <= i < |records| && records[i].peerId == id
  }

  /** The peer is in the table as it is after the reload, if there is one. */
  ghost predicate PinnedAfter(s: State, reload: Option<seq<Record>>, parses: string -> bool, p: string) {
    match reload
    case None => p in s.peers
    case Some(records) => parses(p) && Listed(records, p)
  }

  lemma PinnedExactly(s: State, reload: Option<seq<Record>>, parses: string -> bool, p: string)
    ensures p in Reloaded(s, reload, parses).peers <==> PinnedAfter(s, reload, parses, p)
    ensures var r := Reloaded(s, reload, parses);
            r.limiter == s.limiter && r.live == s.live && r.acted == s.acted
  {
    if reload.Some? {
      ReloadExactly(s.peers, reload.value, parses, p);
      OccurrencesMember(reload.value, p);
    }
  }

  /** A request is served, and logged, exactly when its sender is a pinned peer
      and fewer of its actions than the budget lie in the window that ends now.
      A stranger's request does not even touch its budget; nobody's starts a
      sync or changes the table. */
  lemma InboundExactly(s: State, peer: string, now: nat, reload: Option<seq<Record>>, parses: string -> bool, before: nat)
    requires s.limiter.maxAttempts >= 1 && s.limiter.window <= now && before <= now
    requires Tracks(s.limiter, peer, Times(s.acted, peer), before)
    ensures var t := Step(s, Inbound(peer, now, reload), parses);
            var pinned := PinnedAfter(s, reload, parses, peer);
            var spent := Count(Times(s.acted, peer), now - s.limiter.window, now);
            && t.acted == s.acted + (if pinned && spent < s.limiter.maxAttempts then [(peer, now)] else [])
            && t.limiter == (if pinned then Check(s.limiter, peer, now).0 else s.limiter)
            && t.live == s.live && t.peers == Reloaded(s, reload, parses).peers
  {
    PinnedExactly(s, reload, parses, peer);
    AdmittedExactly(s.limiter, peer, Times(s.acted, peer), before, now);
    assert s.acted + [] == s.acted;
  }

  lemma AdmittedExactly(l: Limiter, peer: string, granted: seq<nat>, before: nat, now: nat)
    requires l.maxAttempts >= 1 && l.window <= now && before <= now && Tracks(l, peer, granted, before)
    ensures Check(l, peer, now).1.Accepted? <==> Count(granted, now - l.window, now) < l.maxAttempts
  {
    RefusedExactly(l, peer, granted, before, now);
    TrackedWithinBudget(l, peer, granted, before);
    assert Count(granted, now - l.window, now) <= l.maxAttempts;
  }

  lemma TimesMore(acted: seq<(string, nat)>, q: string, now: nat, p: string)
    ensures Times(acted + [(q, now)], p) == Times(acted, p) + if q == p then [now] else []
  {
    assert (acted + [(q, now)])[..|acted|] == acted;
  }

  lemma SpawnLogs(s: State, peer: string, now: nat, p: string)
    requires s.limiter.maxAttempts >= 1
    ensures Times(Spawn(s, peer, now).acted, p) ==
              Times(s.acted, p) + if p == peer && Check(s.limiter, p, now).1.Accepted? then [now] else []
  {
    TimesMore(s.acted, peer, now, p);
    assert Times(s.acted, p) + [] == Times(s.acted, p);
  }

  lemma {:induction false} SpawnAllLogs(s: State, order: seq<string>, now: nat, p: string)
    requires s.limiter.maxAttempts >= 1 && StrictlySorted(order)
    ensures Times(SpawnAll(s, order, now).acted, p) ==
              Times(s.acted, p) + if p in order && Check(s.limiter, p, now).1.Accepted? then [now] else []
  {
    if order == [] {
      assert Times(s.acted, p) + [] == Times(s.acted, p);
    } else {
      var n := |order| - 1;
      var init, last := order[..n], order[n];
      assert order == init + [last];
      if last in init {
        var i :| 0 <= i < n && order[i] == last;
        LessTotal(order[i], order[n]);
      }
      SpawnAllLogs(s, init, now, p);
      SpawnAllStarts(s, init, now, p);
      SpawnLogs(SpawnAll(s, init, now), last, now, p);
      JoinLogs(Times(s.acted, p), p in init && Check(s.limiter, p, now).1.Accepted?, now);
    }
  }

  lemma JoinLogs(times: seq<nat>, more: bool, now: nat)
    ensures times + [] == times && (times + if more then [now] else []) + [] == times + if more then [now] else []
  {
  }

  /** The log of a peer grows by one exactly when a pinned peer's request or a
      sync to it is admitted. */
  lemma StepLogsExactly(s: State, e: Event, parses: string -> bool, p: string)
    requires s.limiter.maxAttempts >= 1
    ensures Times(Step(s, e, parses).acted, p) ==
              Times(s.acted, p) +
              if (Dials(s, e, parses, p) || (e.Inbound? && e.peer == p && PinnedAfter(s, e.reload, parses, p)))
                 && Check(s.limiter, p, e.now).1.Accepted? then [e.now] else []
  {
    var r := Reloaded(s, ReloadOf(e), parses);
    PinnedExactly(s, ReloadOf(e), parses, p);
    assert Times(s.acted, p) + [] == Times(s.acted, p);
    match e
    case Inbound(peer, now, reload) =>
      TimesMore(s.acted, peer, now, p);
    case Discovered(peer, addr, now, reload) =>
      if peer in r.peers {
        var seen := r.peers[peer].(discovered := true, addr := Some(addr), inFlight := true);
        SpawnLogs(r.(peers := r.peers[peer := seen]), peer, now, p);
      }
    case FilesChanged(now) =>
      var chosen := KnownIdle(s.peers);
      SpawnAllLogs(s.(peers := FlagAll(s.peers, chosen)), Sorted(chosen), now, p);
    case _ =>
  }

  /** A finished sync is one less live sync to its peer; nothing else is live or
      logged on its account, and no budget is given back. */
  lemma FinishExactly(s: State, peer: string, action: Option<string>, at: nat, parses: string -> bool, p: string)
    requires s.limiter.maxAttempts >= 1
    ensures var t := Step(s, SyncFinished(peer, action, at), parses);
            && t.live[p] == (if p == peer && s.live[p] > 0 then s.live[p] - 1 else s.live[p])
            && t.acted == s.acted && t.limiter == s.limiter && t.peers.Keys == s.peers.Keys
  {
  }

  /** A peer that is in no table is never served and never dialled. */
  lemma {:induction false} StrangersNeverAct(s: State, events: seq<Event>, parses: string -> bool, q: string)
    requires s.limiter.maxAttempts >= 1 && q !in s.peers
    requires forall e :: e in events && ReloadOf(e).Some? ==> !(parses(q) && Listed(ReloadOf(e).value, q))
    ensures var t := Run(s, events, parses);
            q !in t.peers && Times(t.acted, q) == Times(s.acted, q) && BucketOf(t.limiter, q) == BucketOf(s.limiter, q)
  {
    if events != [] {
      var init, last := events[..|events| - 1], events[|events| - 1];
      assert last in events && forall e :: e in init ==> e in events;
      StrangersNeverAct(s, init, parses, q);
      StrangerStep(Run(s, init, parses), last, parses, q);
    }
  }

  lemma {:induction false} SpawnAllKeepsPeers(s: State, order: seq<string>, now: nat)
    requires s.limiter.maxAttempts >= 1
    ensures SpawnAll(s, order, now).peers.Keys == s.peers.Keys
  {
    if order != [] { SpawnAllKeepsPeers(s, order[..|order| - 1], now); }
  }

  lemma StrangerStep(s: State, e: Event, parses: string -> bool, q: string)
    requires s.limiter.maxAttempts >= 1 && q !in s.peers
    requires ReloadOf(e).Some? ==> !(parses(q) && Listed(ReloadOf(e).value, q))
    ensures var t := Step(s, e, parses);
            q !in t.peers && Times(t.acted, q) == Times(s.acted, q) && BucketOf(t.limiter, q) == BucketOf(s.limiter, q)
  {
    var r := Reloaded(s, ReloadOf(e), parses);
    PinnedExactly(s, ReloadOf(e), parses, q);
    StepLogsExactly(s, e, parses, q);
    assert Times(s.acted, q) + [] == Times(s.acted, q);
    match e
    case Inbound(peer, now, _) =>
      if peer in r.peers { OtherKeysUntouched(r.limiter, peer, q, now); }
    case Discovered(peer, addr, now, _) =>
      if peer in r.peers { OtherKeysUntouched(r.limiter, peer, q, now); }
    case FilesChanged(now) =>
      var chosen := KnownIdle(s.peers);
      var flagged := s.(peers := FlagAll(s.peers, chosen));
      SpawnAllKeepsPeers(flagged, Sorted(chosen), now);
      SpawnAllStarts(flagged, Sorted(chosen), now, q);
    case _ =>
  }

  // ----- runs ---------------------------------------------------------------

  function Run(s: State, events: seq<Event>, parses: string -> bool): (t: State)
    requires s.limiter.maxAttempts >= 1
    ensures t.limiter.maxAttempts == s.limiter.maxAttempts
  {
    if events == [] then s else Step(Run(s, events[..|events| - 1], parses), events[|events| - 1], parses)
  }

  function Clock(events: seq<Event>): nat {
    if events == [] then 0 else TimeOf(events[|events| - 1], Clock(events[..|events| - 1]))
  }

  /** The clock never goes back and is at least one window old; a sync only
      finishes if it runs. */
  ghost predicate Plausible(s: State, events: seq<Event>, parses: string -> bool)
    requires s.limiter.maxAttempts >= 1
  {
    events != [] ==>
      var init, last := events[..|events| - 1], events[|events| - 1];
      && Plausible(s, init, parses)
      && Possible(Run(s, init, parses), last)
      && (last.Expired? || last.SyncFinished? || (Clock(init) <= last.now && s.limiter.window <= last.now))
  }

  /** Over any run of events that keep `p` pinned, its flag is set exactly
      while one outbound sync to it is live: there are never two. */
  lemma {:induction false} RunKeepsFlag(s: State, events: seq<Event>, parses: string -> bool, p: string)
    requires s.limiter.maxAttempts >= 1 && Plausible(s, events, parses)
    requires p in s.peers && FlagExact(s, p)
    requires forall e :: e in events ==> KeepsPinned(e, p, parses)
    ensures var t := Run(s, events, parses);
            p in t.peers && FlagExact(t, p) && t.live[p] <= 1
  {
    if events != [] {
      var init, last := events[..|events| - 1], events[|events| - 1];
      assert last in events && forall e :: e in init ==> e in events;
      RunKeepsFlag(s, init, parses, p);
      StepKeepsFlag(Run(s, init, parses), last, parses, p);
    }
  }

  lemma PlausibleLast(s: State, events: seq<Event>, parses: string -> bool)
    requires s.limiter.maxAttempts >= 1 && Plausible(s, events, parses) && events != []
    ensures var init, last := events[..|events| - 1], events[|events| - 1];
            && Plausible(s, init, parses)
            && Run(s, events, parses) == Step(Run(s, init, parses), last, parses)
            && Clock(events) == TimeOf(last, Clock(init)) && Clock(init) <= Clock(events)
            && (Clock(events) >= s.limiter.window || last.Expired? || last.SyncFinished?)
  {
  }

  ghost predicate Budgeted(t: State, window: nat, p: string, now: nat) {
    t.limiter.window == window && Tracks(t.limiter, p, Times(t.acted, p), now)
  }

  lemma {:induction false} RunTracksBudget(s: State, events: seq<Event>, parses: string -> bool, p: string)
    requires s.limiter.maxAttempts >= 1 && Plausible(s, events, parses)
    requires s.limiter.buckets == map[] && s.acted == []
    ensures Budgeted(Run(s, events, parses), s.limiter.window, p, Clock(events))
  {
    if events != [] {
      var init, last := events[..|events| - 1], events[|events| - 1];
      PlausibleLast(s, events, parses);
      RunTracksBudget(s, init, parses, p);
      StepTracksBudget(Run(s, init, parses), last, parses, Clock(init), p);
    }
  }

  /** Over any run, served requests plus started syncs of each peer, pinned
      throughout or not, stay within the shared budget of every window. */
  lemma RunSharesBudget(s: State, events: seq<Event>, parses: string -> bool, p: string)
    requires s.limiter.maxAttempts >= 1 && Plausible(s, events, parses)
    requires s.limiter.buckets == map[] && s.acted == []
    ensures WithinBudget(Times(Run(s, events, parses).acted, p), s.limiter.maxAttempts, s.limiter.window)
  {
    RunTracksBudget(s, events, parses, p);
    var t := Run(s, events, parses);
    TrackedWithinBudget(t.limiter, p, Times(t.acted, p), Clock(events));
  }

  // ----- the daemon ---------------------------------------------------------

  class DaemonState {
    var peers: Pinned
    const ratelimit: AttemptLog
    ghost var live: multiset<string>
    ghost var acted: seq<(string, nat)>

    ghost function Value(): State
      reads this, ratelimit
    {
      State(peers, ratelimit.State(), live, acted)
    }

    constructor (ratelimit: AttemptLog)
      ensures this.ratelimit == ratelimit && peers == map[] && live == multiset{} && acted == []
    {
      this.ratelimit, peers, live, acted := ratelimit, map[], multiset{}, [];
    }

    method ApplyPeers(records: seq<Record>, parses: string -> bool)
      modifies this`peers
      ensures Value() == Reloaded(old(Value()), Some(records), parses)
    {
      var keep: Pinned := map[];
      for i := 0 to |records|
        invariant (peers, keep) == ApplyRecords(old(peers), records[..i], parses)
        invariant live == old(live) && acted == old(acted)
      {
        assert records[..i + 1][..i] == records[..i];
        var r := records[i];
        if parses(r.peerId) {
          var entry := FromRecord(r);
          if r.peerId in peers { entry := peers[r.peerId].(name := r.name); }
          peers := peers - {r.peerId};
          keep := keep[r.peerId := entry];
        }
      }
      assert records[..|records|] == records;
      peers := keep;
    }

    method Reload(reload: Option<seq<Record>>, parses: string -> bool)
      modifies this`peers
      ensures Value() == Reloaded(old(Value()), reload, parses)
    {
      if reload.Some? { ApplyPeers(reload.value, parses); }
    }

    method Admission(peer: string, now: nat) returns (ok: bool)
      requires ratelimit.maxAttempts >= 1
      modifies this`acted, ratelimit
      ensures (Value(), ok) == Admit(old(Value()), peer, now)
    {
      var v := ratelimit.CheckAndRecord(peer, now);
      ok := v.Accepted?;
      if ok { acted := acted + [(peer, now)]; }
    }

    method HandleInbound(peer: string, now: nat, reload: Option<seq<Record>>, parses: string -> bool) returns (served: bool)
      requires ratelimit.maxAttempts >= 1
      modifies this, ratelimit
      ensures Value() == Step(old(Value()), Inbound(peer, now, reload), parses)
      ensures served <==> acted != old(acted)
    {
      Reload(reload, parses);
      if peer !in peers { return false; }
      served := Admission(peer, now);
    }

    method SpawnSyncWithPeer(peer: string, now: nat)
      requires ratelimit.maxAttempts >= 1
      modifies this, ratelimit
      ensures Value() == Spawn(old(Value()), peer, now)
    {
      var ok := Admission(peer, now);
      if ok {
        live := live + multiset{peer};
      } else if peer in peers {
        peers := peers[peer := peers[peer].(inFlight := false)];
      }
    }

    method HandleDiscovered(peer: string, addr: string, now: nat, reload: Option<seq<Record>>, parses: string -> bool)
      requires ratelimit.maxAttempts >= 1
      modifies this, ratelimit
      ensures Value() == Step(old(Value()), Discovered(peer, addr, now, reload), parses)
    {
      Reload(reload, parses);
      if peer !in peers { return; }
      var entry := peers[peer].(discovered := true, addr := Some(addr));
      if entry.inFlight {
        peers := peers[peer := entry];
      } else {
        peers := peers[peer := entry.(inFlight := true)];
        SpawnSyncWithPeer(peer, now);
      }
    }

    method HandleExpired(peer: string, reload: Option<seq<Record>>, parses: string -> bool)
      modifies this
      ensures Value() == Step(old(Value()), Expired(peer, reload), parses)
      requires ratelimit.maxAttempts >= 1
    {
      Reload(reload, parses);
      if peer in peers { peers := peers[peer := peers[peer].(discovered := false)]; }
    }

    method SpawnEach(candidates: seq<string>, now: nat)
      requires ratelimit.maxAttempts >= 1
      modifies this, ratelimit
      ensures Value() == SpawnAll(old(Value()), candidates, now)
    {
      for i := 0 to |candidates|
        invariant Value() == SpawnAll(old(Value()), candidates[..i], now)
      {
        assert candidates[..i + 1][..i] == candidates[..i];
        SpawnSyncWithPeer(candidates[i], now);
      }
      assert candidates[..|candidates|] == candidates;
    }

    method SyncKnownPeers(now: nat)
      requires ratelimit.maxAttempts >= 1
      modifies this, ratelimit
      ensures Value() == Step(old(Value()), FilesChanged(now), s => true)
    {
      var chosen := KnownIdle(peers);
      peers := FlagAll(peers, chosen);
      SpawnEach(Sorted(chosen), now);
    }

    method FinishSync(peer: string, action: Option<string>, at: nat)
      requires ratelimit.maxAttempts >= 1
      modifies this
      ensures Value() == Step(old(Value()), SyncFinished(peer, action, at), s => true)
    {
      live := live - multiset{peer};
      if peer in peers {
        var entry := peers[peer].(inFlight := false);
        if action.Some? { entry := entry.(lastSync := Some((action.value, at))); }
        peers := peers[peer := entry];
      }
    }
  }
}
