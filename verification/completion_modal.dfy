/**
  The end-of-game notice on the game page. One slot remembers the status seen at
  the previous update; the notice opens only when the status moves into
  `completed` from a known status that was not `completed`.
 */
module CompletionModal {
  import opened Wrappers
  import opened GameApi

  /** The remembered status (`null` before the first snapshot) and whether the
      notice is showing. */
  datatype Tracker = Tracker(prevStatus: Option<Status>, modalOpen: bool)

  /** Nothing remembered, notice hidden. */
  const Mounted := Tracker(None, false)

  /** Whether an update to `next` opens the notice after `prev` was recorded. */
  predicate Fires(prev: Option<Status>, next: Option<Status>) {
    next == Some(Completed) && prev.Some? && prev.value != Completed
  }

  /** The effect run on a status update: maybe open the notice, then remember the
      new status. */
  function OnStatus(t: Tracker, next: Option<Status>): (t': Tracker)
    ensures t'.prevStatus == next
    ensures t.modalOpen ==> t'.modalOpen
    ensures !t.modalOpen ==>
              (t'.modalOpen <==> next == Some(Completed) && t.prevStatus.Some? && t.prevStatus != Some(Completed))
    ensures next != Some(Completed) ==> t'.modalOpen == t.modalOpen
  {
    Tracker(next, t.modalOpen || Fires(t.prevStatus, next))
  }

  /** The notice's close button hides it and leaves the remembered status alone. */
  function Dismiss(t: Tracker): (t': Tracker)
    ensures !t'.modalOpen && t'.prevStatus == t.prevStatus
  {
    t.(modalOpen := false)
  }

  /** The effect only runs when the status differs from the previous render's. A
      run whose status equals the remembered one changes nothing, whatever else
      happened since (the notice closed, or nothing arrived yet after mounting),
      so running it on every update describes the same behaviour. */
  lemma RerunIsNoop(t: Tracker, s: Option<Status>)
    ensures t.prevStatus == s ==> OnStatus(t, s) == t
    ensures OnStatus(OnStatus(t, s), s) == OnStatus(t, s)
    ensures OnStatus(Dismiss(OnStatus(t, s)), s) == Dismiss(OnStatus(t, s))
  {
  }

  /** For each update of a sequence, whether it opened the notice. */
  function FireTrace(t: Tracker, updates: seq<Option<Status>>): (trace: seq<bool>)
    ensures |trace| == |updates|
    decreases |updates|
  {
    if updates == [] then []
    else [Fires(t.prevStatus, updates[0])] + FireTrace(OnStatus(t, updates[0]), updates[1..])
  }

  /** The status remembered just before update `k`. */
  function PrevAt(t: Tracker, updates: seq<Option<Status>>, k: nat): Option<Status>
    requires k < |updates|
  {
    if k == 0 then t.prevStatus else updates[k - 1]
  }

  /** The notice opens at update `k` exactly when update `k` is `completed` and
      the update before it (or, for the first one, the remembered status) was a
      known non-completed status. */
  lemma {:induction false} FireTraceCharacterized(t: Tracker, updates: seq<Option<Status>>)
    ensures forall k :: 0 <= k < |updates| ==>
              (FireTrace(t, updates)[k] <==> Fires(PrevAt(t, updates, k), updates[k]))
    decreases |updates|
  {
    if updates != [] {
      var t' := OnStatus(t, updates[0]);
      var rest := updates[1..];
      FireTraceCharacterized(t', rest);
      forall k | 0 <= k < |updates|
        ensures FireTrace(t, updates)[k] <==> Fires(PrevAt(t, updates, k), updates[k])
      {
        if k > 0 {
          assert FireTrace(t, updates)[k] == FireTrace(t', rest)[k - 1];
          assert rest[k - 1] == updates[k];
          if k > 1 {
            assert PrevAt(t', rest, k - 1) == rest[k - 2] == updates[k - 1];
          }
        }
      }
    }
  }

  /** Statuses that never leave `completed` once they reach it. */
  predicate StaysCompleted(updates: seq<Option<Status>>) {
    forall i, j :: 0 <= i < j < |updates| && updates[i] == Some(Completed) ==> updates[j] == Some(Completed)
  }

  /** From the freshly mounted page, along statuses that stay completed once
      completed, the notice opens at most once. */
  lemma FiresAtMostOnce(updates: seq<Option<Status>>)
    requires StaysCompleted(updates)
    ensures forall i, j ::
              (0 <= i < |updates| && 0 <= j < |updates| &&
               FireTrace(Mounted, updates)[i] && FireTrace(Mounted, updates)[j]) ==> i == j
  {
    FireTraceCharacterized(Mounted, updates);
    var trace := FireTrace(Mounted, updates);
    forall i, j | 0 <= i < j < |updates| && trace[i]
      ensures !trace[j]
    {
      assert updates[i] == Some(Completed);
      if i < j - 1 {
        assert updates[j - 1] == Some(Completed);
      }
    }
  }

  /** If no status other than `completed` is ever known, the notice never opens;
      in particular when the first snapshot is already completed. */
  lemma NeverFiresWithoutEarlierStatus(updates: seq<Option<Status>>)
    requires forall i :: 0 <= i < |updates| ==> updates[i] == None || updates[i] == Some(Completed)
    ensures forall k :: 0 <= k < |updates| ==> !FireTrace(Mounted, updates)[k]
  {
    FireTraceCharacterized(Mounted, updates);
  }

  /** The updates `in_progress, in_progress, completed, completed` open the notice
      on the third update only. */
  lemma ExampleFiresOnThird()
    ensures FireTrace(Mounted, [Some(InProgress), Some(InProgress), Some(Completed), Some(Completed)])
         == [false, false, true, false]
  {
  }
}
