/**
 * The frame stack and the tracer's entry point.  `TraceEvent` keeps the stack
 * in step with the engine's call tree using only each event's query
 * identifier and parent identifier: it pops frames until the event's frame or
 * its parent is on top, merging the accesses of every popped frame that did
 * not fail into the frame below, pushes a child frame when the event's parent
 * is on top, and lets the top frame handle the event.
 */
module Tracing {
  import opened Ast
  import opened Provenance
  import opened Frames

  // ---------------------------------------------------------------------------
  // The stack discipline on identifiers
  // ---------------------------------------------------------------------------

  /** A frame the pop loop stops at: the event's own frame or its parent. */
  predicate Matches(id: nat, e: Event)
  {
    id == e.queryID || id == e.parentID
  }

  /** Some frame on the stack is the event's frame or its parent. */
  predicate Reaches(ids: seq<nat>, e: Event)
  {
    e.queryID in ids || e.parentID in ids
  }

  /** The index of the topmost frame the pop loop stops at. */
  function TopMatch(ids: seq<nat>, e: Event): (r: nat)
    requires Reaches(ids, e)
    ensures r < |ids| && Matches(ids[r], e)
    ensures forall i :: r < i < |ids| ==> !Matches(ids[i], e)
    decreases |ids|
  {
    var n := |ids|;
    if Matches(ids[n - 1], e) then n - 1
    else
      ReachesBelow(ids, e);
      TopMatch(ids[..n - 1], e)
  }

  /** A child frame is pushed when the event did not come from the top frame
      and the frame the pop loop stopped at is the event's parent. */
  predicate PushesChild(ids: seq<nat>, e: Event)
    requires Reaches(ids, e)
  {
    ids[|ids| - 1] != e.queryID && ids[TopMatch(ids, e)] == e.parentID
  }

  /** The identifiers on the stack after `TraceEvent`: the root frame on an
      empty stack, otherwise the frames up to the one the pop loop stopped at,
      and the event's own frame when it is a new child. */
  function SyncIds(ids: seq<nat>, e: Event): (r: seq<nat>)
    requires |ids| == 0 || Reaches(ids, e)
    ensures |r| > 0 && r[|r| - 1] == e.queryID
    ensures |r| <= |ids| + 1
    ensures r[..|r| - 1] <= ids
  {
    if |ids| == 0 then [e.queryID]
    else
      var k := TopMatch(ids, e) + 1;
      ids[..k] + (if PushesChild(ids, e) then [e.queryID] else [])
  }

  // ---------------------------------------------------------------------------
  // Merge-on-success
  // ---------------------------------------------------------------------------

  /** What a run of popped frames (lowest first) delivers to the frame below
      them: a frame passes on its own accesses and what it received from above,
      unless it failed. */
  function Carried(accs: seq<set<string>>, fails: seq<bool>): set<string>
    requires |accs| == |fails|
  {
    if accs == [] then {}
    else if fails[0] then {}
    else accs[0] + Carried(accs[1..], fails[1..])
  }

  /** An access reaches the frame below exactly when some popped frame recorded
      it and neither that frame nor any frame between it and the frame below
      failed. */
  lemma {:induction false} CarriedMember(accs: seq<set<string>>, fails: seq<bool>, x: string)
    requires |accs| == |fails|
    ensures x in Carried(accs, fails) <==>
      exists j :: 0 <= j < |accs| && x in accs[j] && forall i :: 0 <= i <= j ==> !fails[i]
    decreases |accs|
  {
    if accs != [] && !fails[0] {
      CarriedMember(accs[1..], fails[1..], x);
      if x in Carried(accs, fails) && x !in accs[0] {
        var j :| 0 <= j < |accs| - 1 && x in accs[1..][j] && forall i :: 0 <= i <= j ==> !fails[1..][i];
        assert forall i :: 1 <= i <= j + 1 ==> fails[i] == fails[1..][i - 1];
        assert x in accs[j + 1];
      }
      if exists j :: 0 <= j < |accs| && x in accs[j] && forall i :: 0 <= i <= j ==> !fails[i] {
        var j :| 0 <= j < |accs| && x in accs[j] && forall i :: 0 <= i <= j ==> !fails[i];
        if j > 0 {
          assert x in accs[1..][j - 1];
          assert forall i :: 0 <= i <= j - 1 ==> fails[1..][i] == fails[i + 1];
        }
      }
    }
  }

  /** A failed frame delivers nothing, not even what it received from above. */
  lemma FailedFrameDeliversNothing(accs: seq<set<string>>, fails: seq<bool>)
    requires |accs| == |fails| && |fails| > 0 && fails[0]
    ensures Carried(accs, fails) == {}
  {
  }

  /** The concatenation of a run of frames' stored accesses. */
  lemma {:induction false} CarriedMergeLast(accs: seq<set<string>>, fails: seq<bool>)
    requires |accs| == |fails| >= 2
    ensures var m := |accs|;
      Carried(accs[..m - 2] + [accs[m - 2] + (if fails[m - 1] then {} else accs[m - 1])], fails[..m - 1])
      == Carried(accs, fails)
    decreases |accs|
  {
    var m := |accs|;
    var merged := accs[..m - 2] + [accs[m - 2] + (if fails[m - 1] then {} else accs[m - 1])];
    if fails[0] {
      assert fails[..m - 1][0];
    } else if m == 2 {
      assert Carried(accs[1..], fails[1..]) == if fails[1] then {} else accs[1] + Carried([], []);
      assert Carried(merged, fails[..1]) == merged[0] + Carried([], []);
    } else {
      CarriedMergeLast(accs[1..], fails[1..]);
      assert merged[1..] == accs[1..][..m - 3] + [accs[1..][m - 3] + (if fails[1..][m - 2] then {} else accs[1..][m - 2])];
      assert fails[..m - 1][1..] == fails[1..][..m - 2];
      assert Carried(merged, fails[..m - 1]) == merged[0] + Carried(merged[1..], fails[..m - 1][1..]);
    }
  }

  // ---------------------------------------------------------------------------
  // The stack step on frame states
  // ---------------------------------------------------------------------------

  function IdsOf(ss: seq<FrameState>): (r: seq<nat>)
  {
    seq(|ss|, i requires 0 <= i < |ss| => ss[i].id)
  }

  function AccessesOf(ss: seq<FrameState>): (r: seq<set<string>>)
  {
    seq(|ss|, i requires 0 <= i < |ss| => ss[i].inputAccesses)
  }

  function FailedOf(ss: seq<FrameState>): (r: seq<bool>)
  {
    seq(|ss|, i requires 0 <= i < |ss| => ss[i].failed)
  }

  /** Every frame satisfies the frame invariant. */
  predicate FramesOk(ss: seq<FrameState>)
  {
    forall i :: 0 <= i < |ss| ==> FrameInv(ss[i])
  }

  /** One iteration of the pop loop: the top frame is popped and, unless it
      failed, its accesses are merged into the frame below. */
  function MergeDown(ss: seq<FrameState>): (r: seq<FrameState>)
    requires |ss| >= 2
    ensures |r| == |ss| - 1 && r[..|r| - 1] == ss[..|ss| - 2]
    ensures IdsOf(r) == IdsOf(ss)[..|ss| - 1]
  {
    var n := |ss|;
    var top := ss[n - 1];
    var below := ss[n - 2];
    ss[..n - 2] + [if top.failed then below else below.(inputAccesses := below.inputAccesses + top.inputAccesses)]
  }

  /** The stack after the pop loop: frames are popped and merged down until
      the event's frame or its parent is on top. */
  function Unwind(ss: seq<FrameState>, e: Event): (r: seq<FrameState>)
    requires Reaches(IdsOf(ss), e)
    ensures 0 < |r| <= |ss| && Matches(r[|r| - 1].id, e)
    decreases |ss|
  {
    var n := |ss|;
    if Matches(ss[n - 1].id, e) then ss
    else
      ReachesBelow(IdsOf(ss), e);
      Unwind(MergeDown(ss), e)
  }

  lemma ReachesBelow(ids: seq<nat>, e: Event)
    requires Reaches(ids, e) && !Matches(ids[|ids| - 1], e)
    ensures Reaches(ids[..|ids| - 1], e)
  {
    assert ids == ids[..|ids| - 1] + [ids[|ids| - 1]];
  }

  /** One step of the pop loop leaves the unwound stack unchanged. */
  lemma UnwindStep(ss: seq<FrameState>, e: Event)
    requires Reaches(IdsOf(ss), e) && !Matches(ss[|ss| - 1].id, e)
    ensures |ss| >= 2 && Reaches(IdsOf(MergeDown(ss)), e) && Unwind(MergeDown(ss), e) == Unwind(ss, e)
  {
    ReachesBelow(IdsOf(ss), e);
  }

  /** Popping a frame that does not match leaves the topmost match where it was. */
  lemma TopMatchBelow(ss: seq<FrameState>, e: Event)
    requires |ss| >= 2 && Reaches(IdsOf(ss), e) && !Matches(ss[|ss| - 1].id, e)
    ensures Reaches(IdsOf(MergeDown(ss)), e)
    ensures TopMatch(IdsOf(MergeDown(ss)), e) == TopMatch(IdsOf(ss), e)
  {
    var ids := IdsOf(ss);
    assert !Matches(ids[|ids| - 1], e);
    ReachesBelow(ids, e);
  }

  /** Below the frame that receives the merge, the accesses and failure flags
      of a merged-down stack are those of the original with the top two
      entries combined. */
  lemma MergeDownViews(ss: seq<FrameState>, k: nat)
    requires 0 < k < |ss| - 1
    ensures var A := AccessesOf(ss[k..]);
      var F := FailedOf(ss[k..]);
      var m := |A|;
      && m >= 2
      && AccessesOf(MergeDown(ss)[k..]) == A[..m - 2] + [A[m - 2] + (if F[m - 1] then {} else A[m - 1])]
      && FailedOf(MergeDown(ss)[k..]) == F[..m - 1]
  {
    var n := |ss|;
    var ms := MergeDown(ss);
    var A := AccessesOf(ss[k..]);
    var F := FailedOf(ss[k..]);
    var m := |A|;
    forall i | k <= i < n - 2
      ensures ms[i] == ss[i]
    {
      assert ms[..n - 2][i] == ss[..n - 2][i];
    }
    assert ms[n - 2].inputAccesses == A[m - 2] + (if F[m - 1] then {} else A[m - 1]);
    assert ms[n - 2].failed == F[m - 2];
    var MA := AccessesOf(ms[k..]);
    var MF := FailedOf(ms[k..]);
    assert |MA| == m - 1;
    forall i | 0 <= i < m - 1
      ensures MA[i] == (A[..m - 2] + [A[m - 2] + (if F[m - 1] then {} else A[m - 1])])[i]
      ensures MF[i] == F[..m - 1][i]
    {
      assert ms[k..][i] == ms[k + i];
      assert ss[k..][i] == ss[k + i];
    }
  }

  /** What the frame at `k - 1` holds once the frames above it have been
      popped: its own accesses and what they carry down. */
  function Receiving(ss: seq<FrameState>, k: nat): FrameState
    requires 0 < k <= |ss|
  {
    ss[k - 1].(inputAccesses := ss[k - 1].inputAccesses + Carried(AccessesOf(ss[k..]), FailedOf(ss[k..])))
  }

  /** With nothing above it, a frame receives nothing. */
  lemma ReceivingTop(ss: seq<FrameState>)
    requires |ss| > 0
    ensures ss[..|ss| - 1] + [Receiving(ss, |ss|)] == ss
  {
    var n := |ss|;
    assert AccessesOf(ss[n..]) == [];
    assert ss[n - 1].inputAccesses + {} == ss[n - 1].inputAccesses;
  }

  /** Merging the top frame down does not change what the frame at `k - 1`
      receives. */
  lemma ReceivingMergeDown(ss: seq<FrameState>, k: nat)
    requires 0 < k < |ss|
    ensures var ms := MergeDown(ss);
      ms[..k - 1] + [Receiving(ms, k)] == ss[..k - 1] + [Receiving(ss, k)]
  {
    var n := |ss|;
    var ms := MergeDown(ss);
    var A := AccessesOf(ss[k..]);
    var F := FailedOf(ss[k..]);
    if k == n - 1 {
      assert Carried(A, F) == if F[0] then {} else A[0] + Carried(A[1..], F[1..]);
      assert A[1..] == [] && F[1..] == [];
      assert AccessesOf(ms[k..]) == [];
      assert ms[..k - 1] == ss[..k - 1];
      assert ss[k..][0] == ss[n - 1];
      assert A[0] == ss[n - 1].inputAccesses && F[0] == ss[n - 1].failed;
      if F[0] {
        assert Receiving(ms, k).inputAccesses == Receiving(ss, k).inputAccesses;
      } else {
        assert ms[k - 1] == ss[k - 1].(inputAccesses := ss[k - 1].inputAccesses + A[0]);
        assert Receiving(ms, k).inputAccesses == ss[k - 1].inputAccesses + A[0] + {};
      }
      assert Receiving(ms, k) == Receiving(ss, k);
    } else {
      MergeDownViews(ss, k);
      CarriedMergeLast(A, F);
      assert Carried(AccessesOf(ms[k..]), FailedOf(ms[k..])) == Carried(A, F);
      assert ms[k - 1] == ss[k - 1] && ms[..k - 1] == ss[..k - 1] by {
        assert ms[..n - 2][k - 1] == ss[..n - 2][k - 1];
        assert ms[..k - 1] == ms[..n - 2][..k - 1];
      }
      assert Receiving(ms, k) == Receiving(ss, k);
    }
  }

  /** The pop loop stops at the topmost frame that is the event's frame or its
      parent; every frame below it is kept, and that frame receives what the
      popped frames above it carry down. */
  lemma {:induction false} UnwindCarried(ss: seq<FrameState>, e: Event)
    requires Reaches(IdsOf(ss), e)
    ensures var k := TopMatch(IdsOf(ss), e) + 1;
      Unwind(ss, e) == ss[..k - 1] + [Receiving(ss, k)]
    decreases |ss|
  {
    var n := |ss|;
    if Matches(ss[n - 1].id, e) {
      assert IdsOf(ss)[n - 1] == ss[n - 1].id;
      ReceivingTop(ss);
    } else {
      var ms := MergeDown(ss);
      var k := TopMatch(IdsOf(ss), e) + 1;
      assert IdsOf(ss)[n - 1] == ss[n - 1].id;
      assert k < n;
      UnwindStep(ss, e);
      TopMatchBelow(ss, e);
      UnwindCarried(ms, e);
      assert Unwind(ms, e) == ms[..k - 1] + [Receiving(ms, k)];
      ReceivingMergeDown(ss, k);
    }
  }

  /** The pop loop keeps the frame invariant. */
  lemma {:induction false} UnwindOk(ss: seq<FrameState>, e: Event)
    requires Reaches(IdsOf(ss), e) && FramesOk(ss)
    ensures FramesOk(Unwind(ss, e))
    decreases |ss|
  {
    var n := |ss|;
    if !Matches(ss[n - 1].id, e) {
      ReachesBelow(IdsOf(ss), e);
      var ms := MergeDown(ss);
      assert FrameInv(ms[n - 2]);
      assert forall i :: 0 <= i < n - 2 ==> ms[i] == ms[..n - 2][i];
      UnwindOk(ms, e);
    }
  }

  /** The stack `TraceEvent` leaves before the top frame handles the event:
      the root frame on an empty stack; when the event does not come from the
      top frame, the stack unwound to the event's frame or parent, and a new
      child frame, seeded with the parent's next input, when it is the parent. */
  function Synced(ss: seq<FrameState>, e: Event): (r: seq<FrameState>)
    requires |ss| == 0 || Reaches(IdsOf(ss), e)
    ensures |r| > 0
  {
    var base := if |ss| == 0 then [NewFrame(e, Some(RootRecords()))] else ss;
    if base[|base| - 1].id == e.queryID then base
    else
      var ps := Unwind(base, e);
      var current := ps[|ps| - 1];
      if e.parentID == current.id then ps + [NewFrame(e, current.nextInput)] else ps
  }

  /** The frame states after `TraceEvent(e)`. */
  function Trace(ss: seq<FrameState>, e: Event): (r: seq<FrameState>)
    requires WellFormedEvent(e)
    requires |ss| == 0 || Reaches(IdsOf(ss), e)
    ensures |r| == |Synced(ss, e)|
    ensures r[..|r| - 1] == Synced(ss, e)[..|r| - 1]
    ensures r[|r| - 1].locals == e.locals && r[|r| - 1].id == Synced(ss, e)[|r| - 1].id
  {
    var synced := Synced(ss, e);
    synced[..|synced| - 1] + [Handle(synced[|synced| - 1], e)]
  }

  /** The pop loop keeps the identifiers up to the topmost match. */
  lemma UnwindIds(ss: seq<FrameState>, e: Event)
    requires Reaches(IdsOf(ss), e)
    ensures IdsOf(Unwind(ss, e)) == IdsOf(ss)[..TopMatch(IdsOf(ss), e) + 1]
  {
    UnwindCarried(ss, e);
  }

  /** The identifiers on the stack follow the call tree: `Trace` leaves the
      stack `SyncIds` describes. */
  lemma TraceIds(ss: seq<FrameState>, e: Event)
    requires WellFormedEvent(e)
    requires |ss| == 0 || Reaches(IdsOf(ss), e)
    ensures IdsOf(Trace(ss, e)) == SyncIds(IdsOf(ss), e)
  {
    var synced := Synced(ss, e);
    var r := Trace(ss, e);
    assert IdsOf(r) == IdsOf(synced) by {
      assert r[..|r| - 1] == synced[..|synced| - 1];
    }
    if |ss| > 0 {
      SyncedIds(ss, e);
    }
  }

  lemma SyncedIds(ss: seq<FrameState>, e: Event)
    requires |ss| > 0 && Reaches(IdsOf(ss), e)
    ensures IdsOf(Synced(ss, e)) == SyncIds(IdsOf(ss), e)
  {
    if ss[|ss| - 1].id == e.queryID {
      SyncedIdsSame(ss, e);
    } else {
      SyncedIdsOther(ss, e);
    }
  }

  lemma SyncedIdsSame(ss: seq<FrameState>, e: Event)
    requires |ss| > 0 && ss[|ss| - 1].id == e.queryID
    ensures Reaches(IdsOf(ss), e)
    ensures IdsOf(Synced(ss, e)) == SyncIds(IdsOf(ss), e)
  {
    var ids := IdsOf(ss);
    var n := |ss|;
    assert ids[n - 1] == e.queryID;
    assert TopMatch(ids, e) == n - 1;
    assert ids[..n] == ids;
    assert SyncIds(ids, e) == ids;
    assert Synced(ss, e) == ss;
  }

  lemma SyncedIdsOther(ss: seq<FrameState>, e: Event)
    requires |ss| > 0 && Reaches(IdsOf(ss), e) && ss[|ss| - 1].id != e.queryID
    ensures IdsOf(Synced(ss, e)) == SyncIds(IdsOf(ss), e)
  {
    var ids := IdsOf(ss);
    var k := TopMatch(ids, e) + 1;
    var u := Unwind(ss, e);
    assert IdsOf(u) == ids[..k] by {
      UnwindIds(ss, e);
    }
    assert |u| == k && u[k - 1].id == ids[k - 1] by {
      assert |IdsOf(u)| == |u| && IdsOf(u)[k - 1] == u[k - 1].id;
    }
    assert SyncIds(ids, e) == ids[..k] + (if e.parentID == ids[k - 1] then [e.queryID] else []) by {
      assert ids[|ss| - 1] != e.queryID;
    }
    if e.parentID == u[k - 1].id {
      var child := NewFrame(e, u[k - 1].nextInput);
      assert Synced(ss, e) == u + [child];
      IdsOfSnoc(u, child);
    } else {
      assert Synced(ss, e) == u;
    }
  }

  lemma IdsOfSnoc(ss: seq<FrameState>, f: FrameState)
    ensures IdsOf(ss + [f]) == IdsOf(ss) + [f.id]
  {
    var l, r := IdsOf(ss + [f]), IdsOf(ss) + [f.id];
    assert |l| == |r|;
    forall i | 0 <= i < |l|
      ensures l[i] == r[i]
    {
      if i < |ss| {
        assert (ss + [f])[i] == ss[i];
      }
    }
  }

  /** What `TraceEvent` does to the frames: the frames below the one the pop
      loop stops at are untouched; that frame gains what the popped frames
      carry down; then either it handles the event, or a new child frame
      seeded with its next input is pushed and handles the event. */
  lemma TraceFrames(ss: seq<FrameState>, e: Event)
    requires WellFormedEvent(e)
    requires |ss| > 0 && Reaches(IdsOf(ss), e)
    ensures var ids := IdsOf(ss);
      var k := TopMatch(ids, e) + 1;
      var merged := Receiving(ss, k);
      Trace(ss, e) ==
        if PushesChild(ids, e) then ss[..k - 1] + [merged, Handle(NewFrame(e, merged.nextInput), e)]
        else ss[..k - 1] + [Handle(merged, e)]
  {
    if ss[|ss| - 1].id == e.queryID {
      TraceSameFrame(ss, e);
    } else {
      TraceOtherFrame(ss, e);
    }
  }

  /** An event from the top frame is handled there. */
  lemma TraceSameFrame(ss: seq<FrameState>, e: Event)
    requires WellFormedEvent(e)
    requires |ss| > 0 && ss[|ss| - 1].id == e.queryID
    ensures Reaches(IdsOf(ss), e) && TopMatch(IdsOf(ss), e) == |ss| - 1
    ensures Trace(ss, e) == ss[..|ss| - 1] + [Handle(Receiving(ss, |ss|), e)]
  {
    var n := |ss|;
    assert IdsOf(ss)[n - 1] == e.queryID;
    ReceivingTop(ss);
    assert Synced(ss, e) == ss;
  }

  /** An event from another frame is handled after the pop loop, in a new
      child frame when the loop stopped at its parent. */
  lemma TraceOtherFrame(ss: seq<FrameState>, e: Event)
    requires WellFormedEvent(e)
    requires |ss| > 0 && Reaches(IdsOf(ss), e) && ss[|ss| - 1].id != e.queryID
    ensures var k := TopMatch(IdsOf(ss), e) + 1;
      var merged := Receiving(ss, k);
      Trace(ss, e) ==
        if e.parentID == ss[k - 1].id then ss[..k - 1] + [merged, Handle(NewFrame(e, merged.nextInput), e)]
        else ss[..k - 1] + [Handle(merged, e)]
  {
    var k := TopMatch(IdsOf(ss), e) + 1;
    var merged := Receiving(ss, k);
    var synced := Synced(ss, e);
    UnwindCarried(ss, e);
    var ps := Unwind(ss, e);
    assert ps == ss[..k - 1] + [merged];
    if e.parentID == merged.id {
      assert synced == ps + [NewFrame(e, merged.nextInput)];
      assert synced[..|synced| - 1] == ps;
    } else {
      assert synced == ps;
    }
  }

  /** The root frame: on an empty stack the event is handled by a frame whose
      `input` is the root document. */
  lemma TraceRoot(e: Event)
    requires WellFormedEvent(e)
    ensures Trace([], e) == [Handle(NewFrame(e, Some(RootRecords())), e)]
  {
  }

  /** Every frame `TraceEvent` leaves satisfies the frame invariant. */
  lemma TraceOk(ss: seq<FrameState>, e: Event)
    requires WellFormedEvent(e)
    requires |ss| == 0 || Reaches(IdsOf(ss), e)
    requires FramesOk(ss)
    ensures FramesOk(Trace(ss, e))
  {
    var synced := Synced(ss, e);
    var base := if |ss| == 0 then [NewFrame(e, Some(RootRecords()))] else ss;
    assert FramesOk(base);
    if base[|base| - 1].id != e.queryID {
      UnwindOk(base, e);
    }
    assert FramesOk(synced);
    var r := Trace(ss, e);
    assert r[..|r| - 1] == synced[..|synced| - 1];
  }

  // ---------------------------------------------------------------------------
  // The classes
  // ---------------------------------------------------------------------------

  /** No frame object occurs twice on a stack. */
  ghost predicate Distinct(qs: seq<Query>)
  {
    |qs| == 0 || (Distinct(qs[..|qs| - 1]) && qs[|qs| - 1] !in qs[..|qs| - 1])
  }

  lemma DistinctLast(qs: seq<Query>)
    requires |qs| > 0 && Distinct(qs)
    ensures forall i :: 0 <= i < |qs| - 1 ==> qs[i] != qs[|qs| - 1]
  {
    assert forall i :: 0 <= i < |qs| - 1 ==> qs[i] == qs[..|qs| - 1][i];
  }

  lemma PrefixDrop<T>(a: seq<T>, b: seq<T>)
    requires 0 < |a| && a <= b
    ensures a[..|a| - 1] <= b
  {
  }

  /** The states of the frames on a stack. */
  ghost function StatesOf(qs: seq<Query>): (r: seq<FrameState>)
    reads qs
  {
    seq(|qs|, i reads qs requires 0 <= i < |qs| => qs[i].State())
  }

  /** `QueryStack`: the frames from the root (first) to the current one (last). */
  class QueryStack {
    var frames: seq<Query>

    /** `NewQueryStack` */
    constructor NewQueryStack()
      ensures frames == []
    {
      frames := [];
    }

    /** `QueryStack.Len` */
    function Len(): (n: nat)
      reads this
      ensures n == 0 <==> frames == []
    {
      |frames|
    }

    /** `QueryStack.First`: the root frame. */
    function First(): (q: Query)
      reads this
      requires |frames| > 0
      ensures q in frames
      ensures |frames| == 1 ==> q == Last()
    {
      frames[0]
    }

    /** `QueryStack.Last`: the current frame. */
    function Last(): (q: Query)
      reads this
      requires |frames| > 0
      ensures q in frames
    {
      frames[|frames| - 1]
    }

    /** `QueryStack.Push` */
    method Push(q: Query)
      modifies this
      ensures frames == old(frames) + [q]
      ensures Last() == q && Len() == old(Len()) + 1
    {
      frames := frames + [q];
    }

    /** `QueryStack.Pop` */
    method Pop() returns (q: Query)
      requires |frames| > 0
      modifies this
      ensures q == old(frames[|frames| - 1]) && frames == old(frames[..|frames| - 1])
      ensures q == old(Last()) && Len() == old(Len()) - 1
    {
      q := frames[|frames| - 1];
      frames := frames[..|frames| - 1];
    }
  }

  /** `QueryTracer` */
  class QueryTracer {
    const queryStack: QueryStack

    /** The frames on the stack are distinct objects and each satisfies the
        frame invariant. */
    ghost predicate Valid()
      reads this, queryStack, queryStack.frames
    {
      && Distinct(queryStack.frames)
      && FramesOk(StatesOf(queryStack.frames))
    }

    /** `NewQueryTracer` */
    constructor NewQueryTracer()
      ensures Valid() && fresh(queryStack) && queryStack.frames == []
    {
      queryStack := new QueryStack.NewQueryStack();
    }

    /** The pop loop of `TraceEvent`. */
    method PopFrames(e: Event) returns (current: Query)
      requires Distinct(queryStack.frames)
      requires |queryStack.frames| > 0 && Reaches(IdsOf(StatesOf(queryStack.frames)), e)
      modifies queryStack, queryStack.frames
      ensures queryStack.frames <= old(queryStack.frames) && Distinct(queryStack.frames)
      ensures |queryStack.frames| > 0 && current == queryStack.frames[|queryStack.frames| - 1]
      ensures StatesOf(queryStack.frames) == Unwind(old(StatesOf(queryStack.frames)), e)
    {
      ghost var F := queryStack.frames;
      ghost var ss := StatesOf(F);
      ghost var unwound := Unwind(ss, e);
      current := queryStack.Last();
      while e.queryID != current.id && e.parentID != current.id
        invariant 0 < |queryStack.frames| && queryStack.frames <= F
        invariant Distinct(queryStack.frames)
        invariant current == queryStack.frames[|queryStack.frames| - 1]
        invariant StatesOf(queryStack.frames) == ss
        invariant Reaches(IdsOf(ss), e)
        invariant Unwind(ss, e) == unwound
        decreases |queryStack.frames|
      {
        assert ss[|ss| - 1].id == current.id;
        UnwindStep(ss, e);
        PrefixDrop(queryStack.frames, F);
        current := PopOne(current, ss);
        ss := MergeDown(ss);
      }
    }

    /** One iteration of the pop loop: pops `current` and, unless it failed,
        merges its accesses into the frame below, which becomes current. */
    method PopOne(current: Query, ghost before: seq<FrameState>) returns (next: Query)
      requires |queryStack.frames| >= 2 && current == queryStack.frames[|queryStack.frames| - 1]
      requires StatesOf(queryStack.frames) == before
      requires Distinct(queryStack.frames)
      modifies queryStack, queryStack.frames[|queryStack.frames| - 2]
      ensures queryStack.frames == old(queryStack.frames[..|queryStack.frames| - 1])
      ensures Distinct(queryStack.frames)
      ensures next == queryStack.frames[|queryStack.frames| - 1]
      ensures StatesOf(queryStack.frames) == MergeDown(before)
    {
      ghost var F := queryStack.frames;
      ghost var c := |F| - 1;
      var _ := queryStack.Pop();
      next := queryStack.Last();
      assert next == F[c - 1];
      if !current.failed {
        next.MergeInputAccesses(current);
      }
      assert queryStack.frames == F[..c];
      assert F[..c][..c - 1] == F[..c - 1];
      forall i | 0 <= i < c - 1
        ensures F[i].State() == before[i]
      {
        assert F[..c - 1][i] == F[i];
      }
    }

    /** The part of `TraceEvent` before the event is handled: seeds the root
        frame on an empty stack, pops to the event's frame or its parent, and
        pushes a child frame when the parent is on top. */
    method Sync(e: Event) returns (current: Query)
      requires Distinct(queryStack.frames)
      requires |queryStack.frames| == 0 || Reaches(IdsOf(StatesOf(queryStack.frames)), e)
      modifies queryStack, queryStack.frames
      ensures Distinct(queryStack.frames)
      ensures |queryStack.frames| > 0 && current == queryStack.frames[|queryStack.frames| - 1]
      ensures current in old(queryStack.frames) || fresh(current)
      ensures StatesOf(queryStack.frames) == Synced(old(StatesOf(queryStack.frames)), e)
    {
      if queryStack.Len() < 1 {
        current := PushFrame(e, Some(RootRecords()));
        assert current.State() == StatesOf(queryStack.frames)[0];
      } else {
        current := queryStack.Last();
      }
      if e.queryID != current.id {
        current := PopFrames(e);
        if e.parentID == current.id {
          current := PushFrame(e, current.nextInput);
        }
      }
    }

    /** Pushes a new frame for the query of `e`. */
    method PushFrame(e: Event, inputRefs: Option<seq<InputRef>>) returns (next: Query)
      requires Distinct(queryStack.frames)
      modifies queryStack
      ensures fresh(next) && queryStack.frames == old(queryStack.frames) + [next]
      ensures Distinct(queryStack.frames)
      ensures StatesOf(queryStack.frames) == old(StatesOf(queryStack.frames)) + [NewFrame(e, inputRefs)]
    {
      ghost var before := queryStack.frames;
      ghost var S := StatesOf(before);
      next := new Query.NewQuery(e, inputRefs);
      assert StatesOf(before) == S;
      queryStack.Push(next);
      ghost var after := queryStack.frames;
      assert after == before + [next];
      assert after[..|before|] == before;
      assert next !in before;
      assert StatesOf(after) == S + [NewFrame(e, inputRefs)] by {
        forall i | 0 <= i < |after|
          ensures StatesOf(after)[i] == (S + [NewFrame(e, inputRefs)])[i]
        {
          if i < |before| {
            assert after[i] == before[i];
            assert StatesOf(before)[i] == before[i].State();
          }
        }
      }
    }

    /** `QueryTracer.TraceEvent` */
    method TraceEvent(e: Event)
      requires Valid() && WellFormedEvent(e)
      requires |queryStack.frames| == 0 || Reaches(IdsOf(StatesOf(queryStack.frames)), e)
      modifies queryStack, queryStack.frames
      ensures Valid()
      ensures StatesOf(queryStack.frames) == Trace(old(StatesOf(queryStack.frames)), e)
    {
      ghost var S := StatesOf(queryStack.frames);
      var current := Sync(e);
      HandleOnTop(current, e);
      TraceOk(S, e);
    }

    /** The last step of `TraceEvent`: the frame on top handles the event. */
    method HandleOnTop(current: Query, e: Event)
      requires Distinct(queryStack.frames) && WellFormedEvent(e)
      requires |queryStack.frames| > 0 && current == queryStack.frames[|queryStack.frames| - 1]
      modifies current
      ensures var S := old(StatesOf(queryStack.frames));
        StatesOf(queryStack.frames) == S[..|S| - 1] + [Handle(S[|S| - 1], e)]
    {
      ghost var synced := StatesOf(queryStack.frames);
      ghost var n := |synced|;
      DistinctLast(queryStack.frames);
      current.HandleEvent(e);
      forall i | 0 <= i < n
        ensures StatesOf(queryStack.frames)[i] == (synced[..n - 1] + [Handle(synced[n - 1], e)])[i]
      {
        if i < n - 1 {
          assert queryStack.frames[i] != current;
        }
      }
    }
  }
}
