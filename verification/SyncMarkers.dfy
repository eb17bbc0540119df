/** The marker the server takes after drawing and waits for before it touches the pixels. */
module SyncMarkers {

  /** Work goes out in order. A marker stands for all the work issued before it was taken. */
  class Markers {
    var syncMarker: nat
    var markerSynced: nat
    var idles: nat
    ghost var issued: nat
    ghost var finished: nat
    ghost var before: seq<nat>

    constructor ()
      ensures Valid() && syncMarker == 0 && markerSynced == 0 && issued == 0 && finished == 0 && before == [0]
    {
      syncMarker, markerSynced, idles, issued, finished, before := 0, 0, 0, 0, 0, [0];
    }

    /** The marker last waited for covers finished work only. */
    ghost predicate Valid()
      reads this
    {
      && finished <= issued && |before| == syncMarker + 1 && markerSynced <= syncMarker
      && before[markerSynced] <= finished
      && forall m :: 0 <= m <= syncMarker ==> before[m] <= issued
    }

    /** The GPU is done with what a marker stands for. */
    ghost predicate Passed(marker: nat)
      reads this
    {
      marker < |before| && before[marker] <= finished
    }

    ghost method Issue()
      requires Valid()
      modifies `issued
      ensures Valid() && issued == old(issued) + 1
    {
      issued := issued + 1;
    }

    /** The GPU gets on with the work whenever it likes. */
    ghost method Progress(done: nat)
      requires Valid() && finished <= done <= issued
      modifies `finished
      ensures Valid() && finished == done
    {
      finished := done;
    }

    /** A download waits for everything. */
    ghost method FinishAll()
      requires Valid()
      modifies `finished
      ensures Valid() && finished == issued
    {
      finished := issued;
    }

    method MarkSync() returns (marker: nat)
      requires Valid()
      modifies `syncMarker, `before
      ensures Valid() && marker == syncMarker == old(syncMarker) + 1
      ensures before == old(before) + [issued]
    {
      syncMarker := syncMarker + 1;
      before := before + [issued];
      marker := syncMarker;
    }

    /** After waiting for a marker all the work before it is done; a marker waited for last time costs no wait. */
    method Sync(marker: nat)
      requires Valid() && marker <= syncMarker
      modifies `markerSynced, `idles, `finished
      ensures Valid() && markerSynced == marker && Passed(marker) && finished >= old(finished)
      ensures idles == old(idles) + if marker == old(markerSynced) then 0 else 1
    {
      if markerSynced != marker {
        idles := idles + 1;
        finished := issued;
        markerSynced := marker;
      }
    }

    /** A download has waited for everything already and says so. */
    method AfterDownload()
      requires Valid() && finished == issued
      modifies `markerSynced
      ensures Valid() && markerSynced == syncMarker && Passed(syncMarker)
    {
      markerSynced := syncMarker;
    }
  }

  /** What happens on the card and around it. */
  datatype Event = Work | GpuRuns(work: nat) | Mark | Wait(marker: nat) | Download

  /** The markers taken in a run. */
  function Marks(events: seq<Event>): nat {
    if events == [] then 0 else Marks(events[..|events| - 1]) + if events[|events| - 1] == Mark then 1 else 0
  }

  /** The work issued in a run. */
  function Works(events: seq<Event>): nat {
    if events == [] then 0 else Works(events[..|events| - 1]) + if events[|events| - 1] == Work then 1 else 0
  }

  /** The work issued before marker m was taken. */
  function WorkBefore(events: seq<Event>, m: nat): nat {
    if events == [] then 0
    else
      var earlier := events[..|events| - 1];
      if events[|events| - 1] == Mark && m == Marks(earlier) + 1 then Works(earlier) else WorkBefore(earlier, m)
  }

  /** Some idle up to event i came after marker m was taken. */
  ghost predicate Covered(events: seq<Event>, idles: seq<nat>, i: nat, m: nat)
    requires i <= |events|
  {
    exists k :: 0 <= k < |idles| && idles[k] <= i && m <= Marks(events[..idles[k]])
  }

  lemma StillCovered(events: seq<Event>, idles: seq<nat>, i: nat, more: seq<nat>, j: nat, m: nat)
    requires i <= j <= |events| && Covered(events, idles, i, m)
    ensures Covered(events, idles + more, j, m)
  {
    var k :| 0 <= k < |idles| && idles[k] <= i && m <= Marks(events[..idles[k]]);
    assert (idles + more)[k] == idles[k];
  }

  lemma CoveredNow(events: seq<Event>, idles: seq<nat>, i: nat, m: nat)
    requires i <= |events| && m <= Marks(events[..i])
    ensures Covered(events, idles + [i], i, m)
  {
    assert (idles + [i])[|idles|] == i;
  }

  /** Every wait for a marker taken before it is covered by an idle. */
  ghost predicate AllCovered(events: seq<Event>, idles: seq<nat>, end: nat)
    requires end <= |events|
  {
    forall i :: 0 <= i < end && events[i].Wait? && 0 < events[i].marker <= Marks(events[..i]) ==>
      Covered(events, idles, i, events[i].marker)
  }

  lemma AllStillCovered(events: seq<Event>, idles: seq<nat>, more: seq<nat>, end: nat)
    requires end <= |events| && AllCovered(events, idles, end)
    ensures AllCovered(events, idles + more, end)
  {
    forall i | 0 <= i < end && events[i].Wait? && 0 < events[i].marker <= Marks(events[..i])
      ensures Covered(events, idles + more, i, events[i].marker)
    {
      StillCovered(events, idles, i, more, i, events[i].marker);
    }
  }

  /** The marker that is waited for last after an event. */
  function SyncedAfter(e: Event, marks: nat, synced: nat): nat {
    match e
    case Wait(marker) => if marker <= marks then marker else synced
    case Download => marks
    case _ => synced
  }

  predicate Idles(e: Event, marks: nat, synced: nat) {
    e == Download || (e.Wait? && e.marker <= marks && e.marker != synced)
  }

  /** So far every wait was covered, the marker waited for last still is, and the engine idled for no other reason. */
  ghost predicate SoFar(events: seq<Event>, idles: seq<nat>, synced: nat, i: nat)
    requires i <= |events|
  {
    && AllCovered(events, idles, i) && (synced > 0 ==> Covered(events, idles, i, synced))
    && forall k :: 0 <= k < |idles| ==> idles[k] < i && (events[idles[k]].Wait? || events[idles[k]] == Download)
  }

  lemma OneMoreEvent(events: seq<Event>, idles: seq<nat>, synced: nat, i: nat, more: seq<nat>)
    requires i < |events| && SoFar(events, idles, synced, i)
    requires more == if Idles(events[i], Marks(events[..i]), synced) then [i] else []
    ensures SoFar(events, idles + more, SyncedAfter(events[i], Marks(events[..i]), synced), i + 1)
  {
    var e, marks := events[i], Marks(events[..i]);
    var next := SyncedAfter(e, marks, synced);
    AllStillCovered(events, idles, more, i);
    if next > 0 {
      if more == [i] {
        CoveredNow(events, idles, i, next);
      } else {
        StillCovered(events, idles, i, more, i, next);
      }
      StillCovered(events, idles + more, i, [], i + 1, next);
      assert idles + more + [] == idles + more;
    }
  }

  /** One event. The markers taken before keep what they stand for. */
  method Perform(s: Markers, e: Event) returns (idled: bool)
    requires s.Valid()
    modifies s
    ensures s.Valid() && s.syncMarker == old(s.syncMarker) + if e == Mark then 1 else 0
    ensures s.markerSynced == SyncedAfter(e, old(s.syncMarker), old(s.markerSynced))
    ensures s.issued == old(s.issued) + if e == Work then 1 else 0
    ensures s.before == old(s.before) + if e == Mark then [old(s.issued)] else []
    ensures s.finished >= old(s.finished) && (e.Wait? && e.marker <= s.syncMarker ==> s.Passed(e.marker))
    ensures e == Download ==> s.finished == s.issued
    ensures idled <==> Idles(e, old(s.syncMarker), old(s.markerSynced))
  {
    idled := false;
    match e {
      case Work => s.Issue();
      case GpuRuns(work) => if s.finished <= work <= s.issued { s.Progress(work); }
      case Mark => var marker := s.MarkSync();
      case Wait(marker) =>
        if marker <= s.syncMarker {
          var idles := s.idles;
          s.Sync(marker);
          idled := s.idles != idles;
        }
      case Download =>
        idled := true;
        s.FinishAll();
        s.AfterDownload();
    }
  }

  /** What the driver counts is what happened in the run. */
  ghost predicate Counts(s: Markers, events: seq<Event>)
    requires s.Valid()
    reads s
  {
    && s.syncMarker == Marks(events) && s.issued == Works(events)
    && forall m :: 0 <= m <= s.syncMarker ==> s.before[m] == WorkBefore(events, m)
  }

  /** After event i the GPU, done with `was` pieces of work before, is done with `now` of them, and with no more than
      were issued: after a wait at least with those issued before the marker was taken, after a download with all. */
  predicate WorkDone(events: seq<Event>, i: nat, was: nat, now: nat)
    requires i < |events|
  {
    && was <= now <= Works(events[..i + 1])
    && (events[i] == Download ==> now == Works(events[..i]))
    && (events[i].Wait? && events[i].marker <= Marks(events[..i]) ==>
          WorkBefore(events[..i], events[i].marker) <= now)
  }

  predicate DoneAt(events: seq<Event>, done: seq<nat>, i: nat)
    requires i < |done| <= |events|
  {
    WorkDone(events, i, if i == 0 then 0 else done[i - 1], done[i])
  }

  ghost predicate AllWorkDone(events: seq<Event>, done: seq<nat>)
    requires |done| <= |events|
  {
    forall i :: 0 <= i < |done| ==> DoneAt(events, done, i)
  }

  lemma MoreWorkDone(events: seq<Event>, done: seq<nat>, now: nat)
    requires |done| < |events| && AllWorkDone(events, done)
    requires WorkDone(events, |done|, if done == [] then 0 else done[|done| - 1], now)
    ensures AllWorkDone(events, done + [now])
  {
    forall i | 0 <= i <= |done| ensures DoneAt(events, done + [now], i) {
      if i < |done| {
        assert DoneAt(events, done, i);
      }
    }
  }

  method Step(s: Markers, events: seq<Event>, i: nat) returns (idled: bool)
    requires s.Valid() && i < |events| && Counts(s, events[..i])
    modifies s
    ensures s.Valid() && Counts(s, events[..i + 1]) && WorkDone(events, i, old(s.finished), s.finished)
    ensures s.markerSynced == SyncedAfter(events[i], old(s.syncMarker), old(s.markerSynced))
    ensures idled <==> Idles(events[i], old(s.syncMarker), old(s.markerSynced))
  {
    assert events[..i + 1][..i] == events[..i];
    idled := Perform(s, events[i]);
  }

  /** Any run at all. However often the driver skips a wait, the engine has been idle between the taking of a marker
      and the end of every wait for it; so the work issued before the marker is done, however far the GPU gets by
      itself. Markers not taken yet are never waited for. */
  method Session(events: seq<Event>) returns (idles: seq<nat>, ghost done: seq<nat>)
    ensures AllCovered(events, idles, |events|)
    ensures forall k :: 0 <= k < |idles| ==>
              idles[k] < |events| && (events[idles[k]].Wait? || events[idles[k]] == Download)
    ensures |done| == |events| && AllWorkDone(events, done)
  {
    var s := new Markers();
    idles, done := [], [];
    var i := 0;
    while i < |events|
      invariant i <= |events| && s.Valid() && fresh(s) && Counts(s, events[..i])
      invariant SoFar(events, idles, s.markerSynced, i)
      invariant |done| == i && s.finished == if i == 0 then 0 else done[i - 1]
      invariant AllWorkDone(events, done)
    {
      OneMoreEvent(events, idles, s.markerSynced, i,
                   if Idles(events[i], s.syncMarker, s.markerSynced) then [i] else []);
      var idled := Step(s, events, i);
      MoreWorkDone(events, done, s.finished);
      idles := idles + if idled then [i] else [];
      done := done + [s.finished];
      i := i + 1;
    }
  }
}
