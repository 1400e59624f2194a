/** Whole runs of bans, unbans and restarts with texts of any kind: when file and memory agree throughout. */
module BanHistory {
  import opened BanFormat
  import opened BanStore
  import BanJson

  /** File and memory have agreed at every point of this run. */
  ghost predicate AlwaysInStep(events: seq<Event>) {
    forall k | 0 <= k <= |events| :: InStep(Run(events[..k]))
  }

  /** Whenever the server was restarted in this run, all entries were plain. */
  ghost predicate PlainAtRestarts(events: seq<Event>) {
    forall k | 0 <= k < |events| && events[k].Restart? :: AllPlain(Run(events[..k]).entries)
  }

  lemma OneMoreEvent(events: seq<Event>, k: nat)
    requires k < |events|
    ensures Run(events[..k + 1]) == Step(Run(events[..k]), events[k])
  {
    var next := events[..k + 1];
    assert next[..|next| - 1] == events[..k];
  }

  /** Plain bans are enough for that. */
  lemma PlainBansArePlain(events: seq<Event>)
    requires forall i | 0 <= i < |events| :: PlainBan(events[i])
    ensures PlainAtRestarts(events)
  {
    forall k | 0 <= k < |events|
      ensures AllPlain(Run(events[..k]).entries)
    {
      DiskAndMemoryAgree(events[..k]);
    }
  }

  /** After a restart file and memory agree exactly when nothing was lost. */
  lemma RestartKeepsInStep(s: Store)
    requires InStep(s)
    ensures InStep(Reload(s)) <==> AllPlain(s.entries)
  {
    RestartIsHarmless(s);
    if s.file.Some? && InStep(Reload(s)) {
      BanJson.RenderIsInjective(s.entries, Reload(s).entries);
    }
  }

  lemma StepKeepsInStep(s: Store, ev: Event)
    requires InStep(s) && DistinctIds(s.entries) && (ev.Restart? ==> AllPlain(s.entries))
    ensures InStep(Step(s, ev)) && DistinctIds(Step(s, ev).entries)
  {
    if ev.Restart? {
      RestartIsHarmless(s);
    } else {
      EditKeepsInStep(s, ev);
    }
  }

  /** As long as all entries are plain at every restart, file and memory agree and ids are distinct. */
  lemma {:induction false} InStepSoFar(events: seq<Event>, k: nat)
    requires k <= |events| && PlainAtRestarts(events)
    ensures InStep(Run(events[..k])) && DistinctIds(Run(events[..k]).entries)
  {
    if k > 0 {
      InStepSoFar(events, k - 1);
      OneMoreEvent(events, k - 1);
      StepKeepsInStep(Run(events[..k - 1]), events[k - 1]);
    }
  }

  /** A restart that keeps file and memory in step found plain entries. */
  lemma PlainAtRestart(events: seq<Event>, k: nat)
    requires k < |events| && events[k].Restart?
    requires InStep(Run(events[..k])) && InStep(Run(events[..k + 1]))
    ensures AllPlain(Run(events[..k]).entries)
  {
    OneMoreEvent(events, k);
    RestartKeepsInStep(Run(events[..k]));
  }

  /** Main result: whatever is banned and unbanned, file and memory agree at every point of a run exactly when all
      entries are plain at each restart. */
  lemma InStepExactlyWhen(events: seq<Event>)
    ensures AlwaysInStep(events) <==> PlainAtRestarts(events)
  {
    if PlainAtRestarts(events) {
      forall k | 0 <= k <= |events|
        ensures InStep(Run(events[..k]))
      {
        InStepSoFar(events, k);
      }
    } else {
      var k :| 0 <= k < |events| && events[k].Restart? && !AllPlain(Run(events[..k]).entries);
      if InStep(Run(events[..k])) && InStep(Run(events[..k + 1])) {
        PlainAtRestart(events, k);
      }
    }
  }

  // ---------- where the entries come from ----------

  /** At position `k` this id is banned, and no later event takes the ban back. */
  predicate BansForGood(events: seq<Event>, k: nat, id: string)
    requires k < |events|
  {
    && events[k].Ban? && events[k].id == id && id != ""
    && forall j | k < j < |events| :: events[j] != Unban(id)
  }

  /** The event at position `k` is a ban that counts: no later event takes it back, and no earlier ban of the same id
      is still in force. */
  predicate Stands(events: seq<Event>, k: nat)
    requires k < |events|
  {
    && events[k].Ban? && BansForGood(events, k, events[k].id)
    && forall j | 0 <= j < k :: !BansForGood(events, j, events[k].id)
  }

  function EntryOf(ev: Event): BanEntry
    requires ev.Ban?
  {
    BanEntry(ev.id, ev.reason, ev.now)
  }

  /** What the event at position `k` leaves on the list. */
  function Adds(events: seq<Event>, k: nat): seq<BanEntry>
    requires k < |events|
  {
    if Stands(events, k) then [EntryOf(events[k])] else []
  }

  function AllAdds(events: seq<Event>): (parts: seq<seq<BanEntry>>)
    ensures |parts| == |events| && forall k | 0 <= k < |events| :: parts[k] == Adds(events, k)
  {
    seq(|events|, k requires 0 <= k < |events| => Adds(events, k))
  }

  function Flat(parts: seq<seq<BanEntry>>): seq<BanEntry> {
    if parts == [] then [] else Flat(parts[..|parts| - 1]) + parts[|parts| - 1]
  }

  /** The entries of the events that count, in their order. */
  function Standing(events: seq<Event>): seq<BanEntry> { Flat(AllAdds(events)) }

  /** The list without the entries of this id. */
  function Dropped(es: seq<BanEntry>, id: string): seq<BanEntry> {
    if es == [] then []
    else
      var n := |es| - 1;
      Dropped(es[..n], id) + (if es[n].accountId == id then [] else [es[n]])
  }

  lemma GoodBansLater(events: seq<Event>, ev: Event, k: nat, id: string)
    requires k < |events|
    ensures BansForGood(events + [ev], k, id) <==> BansForGood(events, k, id) && ev != Unban(id)
  {
    var all := events + [ev];
    if BansForGood(all, k, id) {
      forall j | k < j < |events|
        ensures events[j] != Unban(id)
      {
        assert all[j] == events[j];
      }
      assert all[|events|] == ev;
    }
  }

  lemma StandsLater(events: seq<Event>, ev: Event, k: nat)
    requires k < |events| && events[k].Ban?
    ensures Stands(events + [ev], k) <==> Stands(events, k) && ev != Unban(events[k].id)
  {
    var all, id := events + [ev], events[k].id;
    assert all[k] == events[k];
    GoodBansLater(events, ev, k, id);
    forall j | 0 <= j < k
      ensures BansForGood(all, j, id) <==> BansForGood(events, j, id) && ev != Unban(id)
    {
      GoodBansLater(events, ev, j, id);
    }
  }

  lemma {:induction false} DroppedSum(a: seq<BanEntry>, b: seq<BanEntry>, id: string)
    ensures Dropped(a + b, id) == Dropped(a, id) + Dropped(b, id)
    decreases b
  {
    if b == [] {
      assert a + b == a;
    } else {
      var n := |b| - 1;
      assert (a + b)[..|a + b| - 1] == a + b[..n];
      DroppedSum(a, b[..n], id);
    }
  }

  lemma DroppedOne(e: BanEntry, id: string)
    ensures Dropped([e], id) == if e.accountId == id then [] else [e]
  {
    assert Dropped([e][..0], id) == [];
  }

  lemma AddsLater(events: seq<Event>, ev: Event, k: nat)
    requires k < |events|
    ensures Adds(events + [ev], k) == if ev.Unban? then Dropped(Adds(events, k), ev.id) else Adds(events, k)
  {
    if events[k].Ban? {
      StandsLater(events, ev, k);
      if ev.Unban? {
        DroppedOne(EntryOf(events[k]), ev.id);
      }
    }
  }

  lemma {:induction false} FlatDropped(parts: seq<seq<BanEntry>>, dropped: seq<seq<BanEntry>>, id: string)
    requires |dropped| == |parts| && forall k | 0 <= k < |parts| :: dropped[k] == Dropped(parts[k], id)
    ensures Flat(dropped) == Dropped(Flat(parts), id)
    decreases parts
  {
    if parts != [] {
      var n := |parts| - 1;
      FlatDropped(parts[..n], dropped[..n], id);
      DroppedSum(Flat(parts[..n]), parts[n], id);
    }
  }

  /** With one event more: an unban drops the entries of its id, and the event adds what it adds. */
  lemma StandingGrows(events: seq<Event>, ev: Event)
    ensures Standing(events + [ev]) ==
            (if ev.Unban? then Dropped(Standing(events), ev.id) else Standing(events))
            + Adds(events + [ev], |events|)
  {
    var n, parts, all := |events|, AllAdds(events), AllAdds(events + [ev]);
    forall k | 0 <= k < n
      ensures all[k] == if ev.Unban? then Dropped(parts[k], ev.id) else parts[k]
    {
      AddsLater(events, ev, k);
    }
    if ev.Unban? {
      FlatDropped(parts, all[..n], ev.id);
    } else {
      assert all[..n] == parts;
    }
  }

  predicate Listed(es: seq<BanEntry>, id: string) { exists i :: 0 <= i < |es| && es[i].accountId == id }

  /** Of the bans in force of an id the first one stands. */
  lemma {:induction false} FirstStands(events: seq<Event>, k: nat, id: string) returns (j: nat)
    requires k < |events| && BansForGood(events, k, id)
    ensures j <= k && Stands(events, j) && events[j].id == id
  {
    j := k;
    if !Stands(events, k) {
      var i :| 0 <= i < k && BansForGood(events, i, id);
      j := FirstStands(events, i, id);
    }
  }

  lemma {:induction false} FlatListed(parts: seq<seq<BanEntry>>, id: string)
    ensures Listed(Flat(parts), id) <==> exists k :: 0 <= k < |parts| && Listed(parts[k], id)
  {
    if parts != [] {
      var n := |parts| - 1;
      FlatListed(parts[..n], id);
      ListedInSum(Flat(parts[..n]), parts[n], id);
      assert forall k | 0 <= k < n :: parts[..n][k] == parts[k];
      if k :| 0 <= k < |parts| && Listed(parts[k], id) {
        assert k == n || Listed(parts[..n][k], id);
      }
    }
  }

  /** An id is among the standing entries exactly when some ban of it is in force. */
  lemma ListedWhenStanding(events: seq<Event>, id: string)
    ensures Listed(Standing(events), id) <==> exists k :: 0 <= k < |events| && BansForGood(events, k, id)
  {
    var parts := AllAdds(events);
    FlatListed(parts, id);
    if k :| 0 <= k < |parts| && Listed(parts[k], id) {
      ListedAdds(events, k, id);
    }
    if k :| 0 <= k < |events| && BansForGood(events, k, id) {
      var j := FirstStands(events, k, id);
      ListedAdds(events, j, id);
    }
  }

  lemma ListedAdds(events: seq<Event>, k: nat, id: string)
    requires k < |events|
    ensures Listed(Adds(events, k), id) <==> Stands(events, k) && events[k].id == id
  {
    if Stands(events, k) {
      assert Adds(events, k)[0] == EntryOf(events[k]);
    }
  }

  lemma ListedInSum(a: seq<BanEntry>, b: seq<BanEntry>, id: string)
    ensures Listed(a + b, id) <==> Listed(a, id) || Listed(b, id)
  {
    if Listed(a, id) {
      var i :| 0 <= i < |a| && a[i].accountId == id;
      assert (a + b)[i] == a[i];
    }
    if Listed(b, id) {
      var i :| 0 <= i < |b| && b[i].accountId == id;
      assert (a + b)[|a| + i] == b[i];
    }
  }

  lemma ListedIsHas(es: seq<BanEntry>, id: string)
    ensures Listed(es, id) <==> HasId(es, id)
  {
    var i := IndexOf(es, id);
  }

  lemma {:induction false} NothingDropped(es: seq<BanEntry>, id: string)
    requires forall i | 0 <= i < |es| :: es[i].accountId != id
    ensures Dropped(es, id) == es
  {
    if es != [] {
      var n := |es| - 1;
      NothingDropped(es[..n], id);
      assert es == es[..n] + [es[n]];
    }
  }

  /** With distinct ids, removing an id takes one entry out. */
  lemma {:induction false} DroppedIsRemoved(es: seq<BanEntry>, id: string, i: nat)
    requires DistinctIds(es) && i < |es| && es[i].accountId == id
    ensures Dropped(es, id) == es[..i] + es[i + 1..]
  {
    var n := |es| - 1;
    if i == n {
      NothingDropped(es[..n], id);
      assert es[n + 1..] == [];
    } else {
      DroppedIsRemoved(es[..n], id, i);
      assert es[..n][..i] == es[..i];
      assert es[i + 1..] == es[..n][i + 1..] + [es[n]];
    }
  }

  lemma RemovalDrops(s: Store, id: string)
    requires DistinctIds(s.entries)
    ensures RemoveFrom(s, id).entries == Dropped(s.entries, id)
  {
    var i := IndexOf(s.entries, id);
    if i < |s.entries| {
      DroppedIsRemoved(s.entries, id, i);
    } else {
      NothingDropped(s.entries, id);
    }
  }

  // ---------- one event more ----------

  /** The last event stands if it is a ban of an id that no ban is in force for. */
  lemma LastStands(events: seq<Event>, ev: Event)
    ensures Stands(events + [ev], |events|) <==> ev.Ban? && ev.id != "" && !Listed(Standing(events), ev.id)
  {
    var all, n := events + [ev], |events|;
    if ev.Ban? {
      ListedWhenStanding(events, ev.id);
      forall j | 0 <= j < n
        ensures BansForGood(all, j, ev.id) <==> BansForGood(events, j, ev.id)
      {
        GoodBansLater(events, ev, j, ev.id);
      }
    }
  }

  lemma StandingStep(s: Store, events: seq<Event>, ev: Event)
    requires InStep(s) && DistinctIds(s.entries) && (ev.Restart? ==> AllPlain(s.entries))
    requires s.entries == Standing(events)
    ensures Step(s, ev).entries == Standing(events + [ev])
  {
    LastStands(events, ev);
    StandingGrows(events, ev);
    match ev
    case Ban(id, reason, now) => ListedIsHas(s.entries, id);
    case Unban(id) => RemovalDrops(s, id);
    case Restart => RestartIsHarmless(s);
  }

  lemma PlainBefore(events: seq<Event>)
    requires events != [] && PlainAtRestarts(events)
    ensures PlainAtRestarts(events[..|events| - 1])
  {
    var before := events[..|events| - 1];
    forall k | 0 <= k < |before| && before[k].Restart?
      ensures AllPlain(Run(before[..k]).entries)
    {
      assert before[..k] == events[..k] && before[k] == events[k];
    }
  }

  lemma RunGrows(before: seq<Event>, last: Event)
    ensures Run(before + [last]) == Step(Run(before), last)
  {
    OneMoreEvent(before + [last], |before|);
    assert (before + [last])[..|before|] == before && (before + [last])[..|before| + 1] == before + [last];
  }

  lemma PlainAtLast(before: seq<Event>, last: Event)
    requires PlainAtRestarts(before + [last]) && last.Restart?
    ensures AllPlain(Run(before).entries)
  {
    var events := before + [last];
    assert events[|before|].Restart? && events[..|before|] == before;
  }

  lemma InStepAtEnd(events: seq<Event>)
    requires PlainAtRestarts(events)
    ensures InStep(Run(events)) && DistinctIds(Run(events).entries)
  {
    InStepSoFar(events, |events|);
    assert events[..|events|] == events;
  }

  /** Main result: after a run with plain entries at each restart, the list has exactly the bans that count, with the
      id, the reason and the time they were given, in the order they were made. */
  lemma {:induction false} ListIsWhatStands(events: seq<Event>)
    requires PlainAtRestarts(events)
    ensures Run(events).entries == Standing(events)
  {
    if events != [] {
      var before, last := events[..|events| - 1], events[|events| - 1];
      assert events == before + [last];
      PlainBefore(events);
      ListIsWhatStands(before);
      InStepAtEnd(before);
      RunGrows(before, last);
      if last.Restart? {
        PlainAtLast(before, last);
      }
      StandingStep(Run(before), before, last);
    }
  }

  lemma {:induction false} FlatMembers(parts: seq<seq<BanEntry>>, e: BanEntry)
    ensures e in Flat(parts) <==> exists k :: 0 <= k < |parts| && e in parts[k]
  {
    if parts != [] {
      var n := |parts| - 1;
      FlatMembers(parts[..n], e);
      assert forall k | 0 <= k < n :: parts[..n][k] == parts[k];
      if k :| 0 <= k < |parts| && e in parts[k] {
        assert k == n || e in parts[..n][k];
      }
    }
  }

  /** An entry is on the list exactly when some ban that counts gave it its id, reason and time. */
  lemma EntriesHaveTheirBans(events: seq<Event>, e: BanEntry)
    requires PlainAtRestarts(events)
    ensures e in Run(events).entries <==>
            exists k :: 0 <= k < |events| && Stands(events, k)
                        && events[k] == Ban(e.accountId, e.reason, e.timestamp)
  {
    ListIsWhatStands(events);
    FlatMembers(AllAdds(events), e);
    if k :| 0 <= k < |events| && Stands(events, k) && events[k] == Ban(e.accountId, e.reason, e.timestamp) {
      assert e in AllAdds(events)[k];
    }
  }
}
