/** One poll tick: resolve both channels, fetch the responses, and announce
    every response whose whole-row identity is not yet in the ledger,
    committing it to the ledger once its sends have gone out. */
module Poll {
  import opened PyDict
  import opened Sheet
  import opened Announce

  /** How a tick ended: it went through every response, it stopped because a
      channel lookup gave nothing, or a send raised while announcing `row`
      (the exception ends the tick). */
  datatype Status = Completed | ChannelMissing | SendFailed(row: Response)

  /** The effect of a tick: the ledger afterwards, the sends that went out,
      in order, and how the tick ended. */
  datatype Run = Run(seen: set<Response>, sent: seq<Send>, status: Status)

  /** Whether the send attempted as number `k` of the tick goes out; an
      attempt past the end of `outcomes` goes out. */
  predicate Delivers(outcomes: seq<bool>, k: nat)
  {
    k >= |outcomes| || outcomes[k]
  }

  function Prepend(sent: seq<Send>, run: Run): Run
  {
    Run(run.seen, sent + run.sent, run.status)
  }

  /** The loop over the fetched responses, from `seen`, with `k` sends
      already attempted in this tick. */
  function Process(seen: set<Response>, rs: seq<Response>, outcomes: seq<bool>, k: nat): Run
    decreases |rs|
  {
    if rs == [] then Run(seen, [], Completed)
    else
      var r := rs[0];
      if r in seen then Process(seen, rs[1..], outcomes, k)
      else if !Delivers(outcomes, k) then Run(seen, [], SendFailed(r))
      else if !MentionEligible(r) then
        Prepend([BroadcastOf(r)], Process(seen + {r}, rs[1..], outcomes, k + 1))
      else if !Delivers(outcomes, k + 1) then Run(seen, [BroadcastOf(r)], SendFailed(r))
      else Prepend([BroadcastOf(r), MentionOf(r)], Process(seen + {r}, rs[1..], outcomes, k + 2))
  }

  /** A whole tick: both channel lookups must succeed before anything is fetched. */
  function TickSpec(seen: set<Response>, mainFound: bool, mentionFound: bool, f: Fetch, outcomes: seq<bool>): Run
  {
    if !mainFound || !mentionFound then Run(seen, [], ChannelMissing)
    else Process(seen, FormResponses(f), outcomes, 0)
  }

  // ---------------------------------------------------------------------
  // Reference definitions: which responses a tick ought to announce, and with what.

  /** The responses of `rs` not in `seen`, in order, a repeated one only the first time. */
  function NewRows(seen: set<Response>, rs: seq<Response>): seq<Response>
    decreases |rs|
  {
    if rs == [] then []
    else if rs[0] in seen then NewRows(seen, rs[1..])
    else [rs[0]] + NewRows(seen + {rs[0]}, rs[1..])
  }

  /** The announcements of `rows`, one after another. */
  function AnnounceAll(rows: seq<Response>): seq<Send>
  {
    if rows == [] then [] else Announcement(rows[0]) + AnnounceAll(rows[1..])
  }

  /** The responses whose broadcasts appear in `sent`, in order. */
  function Broadcasts(sent: seq<Send>): seq<Response>
  {
    if sent == [] then []
    else (if sent[0].Broadcast? then [sent[0].source] else []) + Broadcasts(sent[1..])
  }

  function Elems(rows: seq<Response>): set<Response>
  {
    set r | r in rows
  }

  /** The new rows are exactly the responses not yet seen, each once. */
  lemma {:induction false} NewRowsSpec(seen: set<Response>, rs: seq<Response>)
    ensures forall r :: r in NewRows(seen, rs) <==> r in rs && r !in seen
    ensures forall i, j :: 0 <= i < j < |NewRows(seen, rs)| ==> NewRows(seen, rs)[i] != NewRows(seen, rs)[j]
    decreases |rs|
  {
    if rs != [] {
      var r := rs[0];
      assert forall x :: x in rs <==> x == r || x in rs[1..];
      if r in seen {
        NewRowsSpec(seen, rs[1..]);
      } else {
        NewRowsSpec(seen + {r}, rs[1..]);
        var tail := NewRows(seen + {r}, rs[1..]);
        assert NewRows(seen, rs) == [r] + tail;
        assert r !in tail;
        forall i, j | 0 <= i < j < |[r] + tail| ensures ([r] + tail)[i] != ([r] + tail)[j] {
          if i > 0 {
            assert ([r] + tail)[i] == tail[i - 1] && ([r] + tail)[j] == tail[j - 1];
          } else {
            assert ([r] + tail)[j] == tail[j - 1];
          }
        }
      }
    }
  }

  /** `idx` picks the elements of `a` out of `b` at strictly increasing
      positions, each at its first occurrence in `b`. */
  ghost predicate EmbedsAt(idx: seq<nat>, a: seq<Response>, b: seq<Response>)
  {
    && |idx| == |a|
    && (forall i :: 0 <= i < |idx| ==> idx[i] < |b| && b[idx[i]] == a[i] && a[i] !in b[..idx[i]])
    && (forall i, j :: 0 <= i < j < |idx| ==> idx[i] < idx[j])
  }

  /** `a` is `b` with some elements left out, the rest in their order, each
      taken where it first occurs in `b`. */
  ghost predicate FirstOccurrences(a: seq<Response>, b: seq<Response>)
  {
    exists idx :: EmbedsAt(idx, a, b)
  }

  /** Every position of `idx`, one further on. */
  function Shift(idx: seq<nat>): seq<nat>
  {
    seq(|idx|, i requires 0 <= i < |idx| => idx[i] + 1)
  }

  /** An embedding into `b[1..]` that avoids `b[0]` is one into `b`, one
      position further on. */
  lemma EmbedsShift(idx: seq<nat>, a: seq<Response>, b: seq<Response>)
    requires b != [] && EmbedsAt(idx, a, b[1..]) && b[0] !in a
    ensures EmbedsAt(Shift(idx), a, b)
  {
    forall i | 0 <= i < |idx| ensures b[idx[i] + 1] == a[i] && a[i] !in b[..idx[i] + 1] {
      assert b[1..][idx[i]] == b[idx[i] + 1];
      assert b[..idx[i] + 1] == [b[0]] + b[1..][..idx[i]];
      assert a[i] != b[0];
    }
  }

  /** Keeping the first element of `b` as well puts position 0 in front. */
  lemma EmbedsCons(idx: seq<nat>, a: seq<Response>, b: seq<Response>)
    requires b != [] && EmbedsAt(idx, a, b[1..]) && b[0] !in a
    ensures EmbedsAt([0] + Shift(idx), [b[0]] + a, b)
  {
    EmbedsShift(idx, a, b);
    var full := [0] + Shift(idx);
    forall i | 0 <= i < |full|
      ensures full[i] < |b| && b[full[i]] == ([b[0]] + a)[i] && ([b[0]] + a)[i] !in b[..full[i]]
    {
      if i > 0 {
        assert full[i] == Shift(idx)[i - 1];
      }
    }
  }

  /** The new rows keep the order in which the fetch lists them, each taken
      at its first occurrence. */
  lemma {:induction false} NewRowsOrder(seen: set<Response>, rs: seq<Response>)
    ensures FirstOccurrences(NewRows(seen, rs), rs)
    decreases |rs|
  {
    if rs == [] {
      assert EmbedsAt([], [], rs);
    } else if rs[0] in seen {
      NewRowsOrder(seen, rs[1..]);
      var idx :| EmbedsAt(idx, NewRows(seen, rs[1..]), rs[1..]);
      NewRowsUnseen(seen, rs[1..], rs[0]);
      EmbedsShift(idx, NewRows(seen, rs[1..]), rs);
    } else {
      var tail := NewRows(seen + {rs[0]}, rs[1..]);
      NewRowsOrder(seen + {rs[0]}, rs[1..]);
      var idx :| EmbedsAt(idx, tail, rs[1..]);
      NewRowsUnseen(seen + {rs[0]}, rs[1..], rs[0]);
      EmbedsCons(idx, tail, rs);
      assert NewRows(seen, rs) == [rs[0]] + tail;
    }
  }

  /** Nothing is new when every response is already in the ledger. */
  lemma {:induction false} NewRowsAllSeen(seen: set<Response>, rs: seq<Response>)
    requires forall r :: r in rs ==> r in seen
    ensures NewRows(seen, rs) == []
    decreases |rs|
  {
    if rs != [] {
      assert rs[0] in rs;
      NewRowsAllSeen(seen, rs[1..]);
    }
  }

  lemma {:induction false} BroadcastsAppend(a: seq<Send>, b: seq<Send>)
    ensures Broadcasts(a + b) == Broadcasts(a) + Broadcasts(b)
  {
    if a == [] {
      assert a + b == b;
    } else {
      assert (a + b)[0] == a[0] && (a + b)[1..] == a[1..] + b;
      BroadcastsAppend(a[1..], b);
    }
  }

  /** The broadcasts of a prefix are a prefix of the broadcasts. */
  lemma BroadcastsPrefix(a: seq<Send>, b: seq<Send>)
    requires a <= b
    ensures Broadcasts(a) <= Broadcasts(b)
  {
    assert b == a + b[|a|..];
    BroadcastsAppend(a, b[|a|..]);
  }

  lemma AnnouncementBroadcasts(r: Response)
    ensures Broadcasts(Announcement(r)) == [r]
  {
    var a := Announcement(r);
    if |a| == 2 {
      assert a[1..][0].Mention? && a[1..][1..] == [];
      assert Broadcasts(a[1..]) == [];
    } else {
      assert a[1..] == [];
    }
  }

  /** The announcements of `rows` broadcast exactly `rows`, in order. */
  lemma {:induction false} AnnounceAllBroadcasts(rows: seq<Response>)
    ensures Broadcasts(AnnounceAll(rows)) == rows
  {
    if rows != [] {
      AnnounceAllBroadcasts(rows[1..]);
      BroadcastsAppend(Announcement(rows[0]), AnnounceAll(rows[1..]));
      AnnouncementBroadcasts(rows[0]);
    }
  }

  /** Every message announcing `rows` comes from one of `rows`; each
      broadcast lists the shown fields of its response; a mention is there
      exactly for the eligible rows, carrying that row's id and name. */
  lemma {:induction false} AnnounceAllMessages(rows: seq<Response>)
    ensures forall s :: s in AnnounceAll(rows) ==> s.source in rows
    ensures forall s :: s in AnnounceAll(rows) && s.Broadcast? ==> s.fields == BroadcastFields(s.source)
    ensures forall s :: s in AnnounceAll(rows) && s.Mention? ==>
      MentionEligible(s.source) && s == MentionOf(s.source)
    ensures forall r :: r in rows && MentionEligible(r) ==> MentionOf(r) in AnnounceAll(rows)
  {
    if rows != [] {
      var a := Announcement(rows[0]);
      var rest := AnnounceAll(rows[1..]);
      AnnounceAllMessages(rows[1..]);
      assert forall s :: s in a ==> s.source == rows[0] && (s.Broadcast? ==> s == BroadcastOf(rows[0]));
      assert forall s :: s in a && s.Mention? ==> MentionEligible(rows[0]) && s == MentionOf(rows[0]);
      assert forall s :: s in AnnounceAll(rows) <==> s in a || s in rest;
      assert forall r :: r in rows <==> r == rows[0] || r in rows[1..];
      if MentionEligible(rows[0]) {
        assert a[1] == MentionOf(rows[0]);
      }
    }
  }

  predicate NoRepeats<T(==)>(xs: seq<T>)
  {
    forall i, j :: 0 <= i < j < |xs| ==> xs[i] != xs[j]
  }

  /** Two message lists without repeats and with no message in common join
      into one without repeats. */
  lemma NoRepeatsAppend(a: seq<Send>, b: seq<Send>)
    requires NoRepeats(a) && NoRepeats(b) && forall s :: s in a ==> s !in b
    ensures NoRepeats(a + b)
  {
    forall i, j | 0 <= i < j < |a + b| ensures (a + b)[i] != (a + b)[j] {
      if j < |a| {
        assert (a + b)[i] == a[i] && (a + b)[j] == a[j];
      } else if i < |a| {
        assert (a + b)[i] == a[i] && a[i] in a && (a + b)[j] == b[j - |a|] && b[j - |a|] in b;
      } else {
        assert (a + b)[i] == b[i - |a|] && (a + b)[j] == b[j - |a|];
      }
    }
  }

  lemma NoRepeatsTail(rows: seq<Response>)
    requires rows != [] && NoRepeats(rows)
    ensures NoRepeats(rows[1..]) && rows[0] !in rows[1..]
  {
    forall i, j | 0 <= i < j < |rows[1..]| ensures rows[1..][i] != rows[1..][j] {
      assert rows[1..][i] == rows[i + 1] && rows[1..][j] == rows[j + 1];
    }
    forall i | 0 <= i < |rows[1..]| ensures rows[1..][i] != rows[0] {
      assert rows[1..][i] == rows[i + 1];
    }
  }

  /** Announcing distinct rows never sends the same message twice. */
  lemma {:induction false} AnnounceAllNoRepeats(rows: seq<Response>)
    requires NoRepeats(rows)
    ensures NoRepeats(AnnounceAll(rows))
  {
    if rows != [] {
      var a := Announcement(rows[0]);
      var rest := AnnounceAll(rows[1..]);
      NoRepeatsTail(rows);
      AnnounceAllNoRepeats(rows[1..]);
      AnnounceAllMessages(rows[1..]);
      assert forall s :: s in a ==> s.source == rows[0];
      assert NoRepeats(a) by {
        if |a| == 2 {
          assert a[0].Broadcast? && a[1].Mention?;
        }
      }
      NoRepeatsAppend(a, rest);
    }
  }

  // ---------------------------------------------------------------------
  // The tick against the reference.

  /** Every send attempt numbered `k` up to `k + n - 1` goes out. */
  predicate AllDeliver(outcomes: seq<bool>, k: nat, n: nat)
  {
    forall j :: k <= j < k + n ==> Delivers(outcomes, j)
  }

  /** `run`, started from ledger `seen` with `k` sends already attempted,
      agrees with the plan of announcing the new rows `nr`: it performs a
      prefix of their announcements, in order; it completes exactly when
      every attempted send goes out, and then it has announced every new row
      and committed exactly those. When a send raises, every earlier attempt
      went out, the attempt that raised is the next message of the plan, the
      response it announces is the one reported, and that response is the
      only announced one left out of the ledger. */
  ghost predicate Agrees(seen: set<Response>, nr: seq<Response>, outcomes: seq<bool>, k: nat, run: Run)
  {
    AgreesWith(seen, nr, AnnounceAll(nr), outcomes, k, run)
  }

  /** `Agrees`, with the announcements of `nr` given as `plan`. */
  ghost predicate AgreesWith(seen: set<Response>, nr: seq<Response>, plan: seq<Send>, outcomes: seq<bool>, k: nat, run: Run)
  {
    && run.sent <= plan
    && seen <= run.seen
    && !run.status.ChannelMissing?
    && (run.status == Completed <==> AllDeliver(outcomes, k, |plan|))
    && (run.status == Completed ==> run.sent == plan && run.seen == seen + Elems(nr))
    && (run.status.SendFailed? ==>
          && AllDeliver(outcomes, k, |run.sent|)
          && !Delivers(outcomes, k + |run.sent|)
          && |run.sent| < |plan|
          && plan[|run.sent|].source == run.status.row
          && run.status.row in nr
          && run.status.row !in run.seen
          && run.seen == seen + (Elems(Broadcasts(run.sent)) - {run.status.row}))
  }

  lemma AnnounceAllCons(r: Response, nr: seq<Response>)
    ensures AnnounceAll([r] + nr) == Announcement(r) + AnnounceAll(nr)
  {
    assert ([r] + nr)[0] == r && ([r] + nr)[1..] == nr;
  }

  /** The broadcast of a new row raises: nothing went out, nothing is committed. */
  lemma AgreesBroadcastFails(seen: set<Response>, r: Response, nr: seq<Response>, outcomes: seq<bool>, k: nat)
    requires r !in seen && !Delivers(outcomes, k)
    ensures Agrees(seen, [r] + nr, outcomes, k, Run(seen, [], SendFailed(r)))
  {
    AnnounceAllCons(r, nr);
    assert Elems(Broadcasts([])) == {};
  }

  /** The mention of a new row raises: only its broadcast went out, and it is not committed. */
  lemma AgreesMentionFails(seen: set<Response>, r: Response, nr: seq<Response>, outcomes: seq<bool>, k: nat)
    requires r !in seen && MentionEligible(r) && Delivers(outcomes, k) && !Delivers(outcomes, k + 1)
    ensures Agrees(seen, [r] + nr, outcomes, k, Run(seen, [BroadcastOf(r)], SendFailed(r)))
  {
    AnnounceAllCons(r, nr);
    var a := Announcement(r);
    assert [BroadcastOf(r)] == a[..1];
    assert Broadcasts([BroadcastOf(r)]) == [r];
  }

  lemma AllDeliverJoin(outcomes: seq<bool>, k: nat, m: nat, n: nat)
    requires AllDeliver(outcomes, k, m) && AllDeliver(outcomes, k + m, n)
    ensures AllDeliver(outcomes, k, m + n)
  {
    forall j | k <= j < k + m + n ensures Delivers(outcomes, j) {
      if j >= k + m {
        assert k + m <= j < k + m + n;
      }
    }
  }

  /** A new row announced in full, followed by a run that agrees with the plan for the rest. */
  lemma AgreesCons(seen: set<Response>, r: Response, nr: seq<Response>, outcomes: seq<bool>, k: nat, rest: Run)
    requires r !in seen && r !in nr
    requires AllDeliver(outcomes, k, |Announcement(r)|)
    requires Agrees(seen + {r}, nr, outcomes, k + |Announcement(r)|, rest)
    ensures Agrees(seen, [r] + nr, outcomes, k, Prepend(Announcement(r), rest))
  {
    var a := Announcement(r);
    AnnounceAllCons(r, nr);
    BroadcastsAppend(a, rest.sent);
    AnnouncementBroadcasts(r);
    if rest.status == Completed {
      AgreesConsCompleted(seen, r, nr, a, AnnounceAll(nr), outcomes, k, rest);
    } else {
      AgreesConsFailed(seen, r, nr, AnnounceAll(nr), outcomes, k, rest);
    }
  }

  lemma AgreesConsCompleted(seen: set<Response>, r: Response, nr: seq<Response>, a: seq<Send>, plan: seq<Send>,
                            outcomes: seq<bool>, k: nat, rest: Run)
    requires r !in seen && r !in nr && rest.status == Completed
    requires AllDeliver(outcomes, k, |a|)
    requires AgreesWith(seen + {r}, nr, plan, outcomes, k + |a|, rest)
    ensures AgreesWith(seen, [r] + nr, a + plan, outcomes, k, Prepend(a, rest))
  {
    AllDeliverJoin(outcomes, k, |a|, |plan|);
    assert Elems([r] + nr) == {r} + Elems(nr);
  }

  /** The conditions of `AgreesWith` for a run that ended with a raising
      send, one by one. */
  lemma AgreesWithFailed(seen: set<Response>, nr: seq<Response>, plan: seq<Send>, outcomes: seq<bool>, k: nat, run: Run)
    requires run.status.SendFailed? && run.sent <= plan && seen <= run.seen
    requires AllDeliver(outcomes, k, |run.sent|) && !Delivers(outcomes, k + |run.sent|)
    requires |run.sent| < |plan| && plan[|run.sent|].source == run.status.row
    requires run.status.row in nr && run.status.row !in run.seen
    requires run.seen == seen + (Elems(Broadcasts(run.sent)) - {run.status.row})
    ensures AgreesWith(seen, nr, plan, outcomes, k, run)
  {
    assert k <= k + |run.sent| < k + |plan|;
  }

  lemma AgreesConsFailed(seen: set<Response>, r: Response, nr: seq<Response>, plan: seq<Send>,
                         outcomes: seq<bool>, k: nat, rest: Run)
    requires r !in seen && r !in nr && rest.status != Completed
    requires Broadcasts(Announcement(r) + rest.sent) == [r] + Broadcasts(rest.sent)
    requires AllDeliver(outcomes, k, |Announcement(r)|)
    requires AgreesWith(seen + {r}, nr, plan, outcomes, k + |Announcement(r)|, rest)
    ensures AgreesWith(seen, [r] + nr, Announcement(r) + plan, outcomes, k, Prepend(Announcement(r), rest))
  {
    var a := Announcement(r);
    var run := Prepend(a, rest);
    var row := rest.status.row;
    AllDeliverJoin(outcomes, k, |a|, |rest.sent|);
    PlanAfter(a, rest.sent, plan);
    ElemsCons(r, Broadcasts(rest.sent));
    LedgerAfterFailure(seen, r, row, rest.seen, Elems(Broadcasts(rest.sent)));
    assert row in [r] + nr;
    AgreesWithFailed(seen, [r] + nr, a + plan, outcomes, k, run);
  }

  /** Sends that follow `a` in the run follow it in the plan. */
  lemma PlanAfter(a: seq<Send>, sent: seq<Send>, plan: seq<Send>)
    requires sent <= plan && |sent| < |plan|
    ensures a + sent <= a + plan && |a + sent| < |a + plan|
    ensures (a + plan)[|a + sent|] == plan[|sent|]
  {
  }

  lemma ElemsCons(r: Response, rows: seq<Response>)
    ensures Elems([r] + rows) == {r} + Elems(rows)
  {
  }

  lemma LedgerAfterFailure(seen: set<Response>, r: Response, row: Response, ledger: set<Response>, announced: set<Response>)
    requires row != r && ledger == seen + {r} + (announced - {row})
    ensures ledger == seen + (({r} + announced) - {row})
  {
  }

  // The loop's first turn on a new response, case by case, against the plan.

  lemma ProcessBroadcastFails(seen: set<Response>, rs: seq<Response>, outcomes: seq<bool>, k: nat)
    requires rs != [] && rs[0] !in seen && !Delivers(outcomes, k)
    ensures Agrees(seen, NewRows(seen, rs), outcomes, k, Process(seen, rs, outcomes, k))
  {
    var r := rs[0];
    var nr := NewRows(seen + {r}, rs[1..]);
    assert NewRows(seen, rs) == [r] + nr;
    assert Process(seen, rs, outcomes, k) == Run(seen, [], SendFailed(r));
    AgreesBroadcastFails(seen, r, nr, outcomes, k);
  }

  lemma ProcessMentionFails(seen: set<Response>, rs: seq<Response>, outcomes: seq<bool>, k: nat)
    requires rs != [] && rs[0] !in seen && Delivers(outcomes, k)
    requires MentionEligible(rs[0]) && !Delivers(outcomes, k + 1)
    ensures Agrees(seen, NewRows(seen, rs), outcomes, k, Process(seen, rs, outcomes, k))
  {
    var r := rs[0];
    var nr := NewRows(seen + {r}, rs[1..]);
    assert NewRows(seen, rs) == [r] + nr;
    assert Process(seen, rs, outcomes, k) == Run(seen, [BroadcastOf(r)], SendFailed(r));
    AgreesMentionFails(seen, r, nr, outcomes, k);
  }

  /** One turn on a new response whose sends all go out: its announcement,
      then the rest of the loop with the response committed. */
  lemma ProcessAnnouncedStep(seen: set<Response>, rs: seq<Response>, outcomes: seq<bool>, k: nat)
    requires rs != [] && rs[0] !in seen && Delivers(outcomes, k)
    requires MentionEligible(rs[0]) ==> Delivers(outcomes, k + 1)
    ensures Process(seen, rs, outcomes, k) ==
      Prepend(Announcement(rs[0]), Process(seen + {rs[0]}, rs[1..], outcomes, k + |Announcement(rs[0])|))
  {
  }

  lemma AnnouncementDelivers(r: Response, outcomes: seq<bool>, k: nat)
    requires Delivers(outcomes, k) && (MentionEligible(r) ==> Delivers(outcomes, k + 1))
    ensures AllDeliver(outcomes, k, |Announcement(r)|)
  {
  }

  lemma NewRowsUnseen(seen: set<Response>, rs: seq<Response>, x: Response)
    requires x in seen
    ensures x !in NewRows(seen, rs)
  {
    NewRowsSpec(seen, rs);
  }

  lemma NewRowsCons(seen: set<Response>, rs: seq<Response>)
    requires rs != [] && rs[0] !in seen
    ensures NewRows(seen, rs) == [rs[0]] + NewRows(seen + {rs[0]}, rs[1..])
  {
  }

  /** A new response announced in full, with `nrAll` and `run` standing for
      the new rows and the run of the whole loop. */
  lemma AgreesAnnounced(seen: set<Response>, r: Response, nr: seq<Response>, nrAll: seq<Response>,
                        outcomes: seq<bool>, k: nat, rest: Run, run: Run)
    requires r !in seen && r !in nr && Delivers(outcomes, k)
    requires MentionEligible(r) ==> Delivers(outcomes, k + 1)
    requires Agrees(seen + {r}, nr, outcomes, k + |Announcement(r)|, rest)
    requires nrAll == [r] + nr && run == Prepend(Announcement(r), rest)
    ensures Agrees(seen, nrAll, outcomes, k, run)
  {
    AnnouncementDelivers(r, outcomes, k);
    AgreesCons(seen, r, nr, outcomes, k, rest);
  }

  lemma ProcessAnnounced(seen: set<Response>, rs: seq<Response>, outcomes: seq<bool>, k: nat)
    requires rs != [] && rs[0] !in seen && Delivers(outcomes, k)
    requires MentionEligible(rs[0]) ==> Delivers(outcomes, k + 1)
    requires var m := |Announcement(rs[0])|;
      Agrees(seen + {rs[0]}, NewRows(seen + {rs[0]}, rs[1..]), outcomes, k + m,
        Process(seen + {rs[0]}, rs[1..], outcomes, k + m))
    ensures Agrees(seen, NewRows(seen, rs), outcomes, k, Process(seen, rs, outcomes, k))
  {
    var r := rs[0];
    var nr := NewRows(seen + {r}, rs[1..]);
    var rest := Process(seen + {r}, rs[1..], outcomes, k + |Announcement(r)|);
    NewRowsCons(seen, rs);
    ProcessAnnouncedStep(seen, rs, outcomes, k);
    NewRowsUnseen(seen + {r}, rs[1..], r);
    AgreesAnnounced(seen, r, nr, NewRows(seen, rs), outcomes, k, rest, Process(seen, rs, outcomes, k));
  }

  /** The loop over the responses agrees with the plan of announcing the new rows. */
  lemma {:induction false} ProcessAgainstReference(seen: set<Response>, rs: seq<Response>, outcomes: seq<bool>, k: nat)
    ensures Agrees(seen, NewRows(seen, rs), outcomes, k, Process(seen, rs, outcomes, k))
    decreases |rs|
  {
    if rs == [] {
      return;
    }
    var r := rs[0];
    if r in seen {
      ProcessAgainstReference(seen, rs[1..], outcomes, k);
    } else if !Delivers(outcomes, k) {
      ProcessBroadcastFails(seen, rs, outcomes, k);
    } else if MentionEligible(r) && !Delivers(outcomes, k + 1) {
      ProcessMentionFails(seen, rs, outcomes, k);
    } else {
      ProcessAgainstReference(seen + {r}, rs[1..], outcomes, k + |Announcement(r)|);
      ProcessAnnounced(seen, rs, outcomes, k);
    }
  }

  /** A tick whose channels both resolve agrees with the plan of announcing
      the new rows of its fetch; one whose channel lookup fails changes and
      sends nothing. */
  lemma TickAgainstReference(seen: set<Response>, mainFound: bool, mentionFound: bool, f: Fetch, outcomes: seq<bool>)
    ensures var run := TickSpec(seen, mainFound, mentionFound, f, outcomes);
      && (!mainFound || !mentionFound ==> run == Run(seen, [], ChannelMissing))
      && (mainFound && mentionFound ==> Agrees(seen, NewRows(seen, FormResponses(f)), outcomes, 0, run))
  {
    if mainFound && mentionFound {
      ProcessAgainstReference(seen, FormResponses(f), outcomes, 0);
    }
  }

  /** Every broadcast a tick sends lists the shown fields of its response,
      and every mention goes to an eligible response with that response's
      id and name. When no send fails, every new eligible response gets its
      mention. */
  lemma MentionIffEligible(seen: set<Response>, f: Fetch, outcomes: seq<bool>)
    ensures var run := TickSpec(seen, true, true, f, outcomes);
      && (forall s :: s in run.sent && s.Broadcast? ==> s.fields == BroadcastFields(s.source))
      && (forall s :: s in run.sent && s.Mention? ==> MentionEligible(s.source) && s == MentionOf(s.source))
      && (run.status == Completed ==>
            forall r :: r in FormResponses(f) && r !in seen && MentionEligible(r) ==> MentionOf(r) in run.sent)
  {
    var rs := FormResponses(f);
    var nr := NewRows(seen, rs);
    var run := TickSpec(seen, true, true, f, outcomes);
    ProcessAgainstReference(seen, rs, outcomes, 0);
    NewRowsSpec(seen, rs);
    AnnounceAllMessages(nr);
    assert forall s :: s in run.sent ==> s in AnnounceAll(nr);
  }

  /** No tick announces a response already in the ledger, none broadcasts
      the same response twice, even when the fetch repeats it, and none sends
      the same message twice. A response whose send raised is not in the
      ledger, so a later tick does announce it again. */
  lemma NoReannouncement(seen: set<Response>, mainFound: bool, mentionFound: bool, f: Fetch, outcomes: seq<bool>)
    ensures var run := TickSpec(seen, mainFound, mentionFound, f, outcomes);
      && (forall s :: s in run.sent ==> s.source !in seen)
      && (forall i, j :: 0 <= i < j < |Broadcasts(run.sent)| ==> Broadcasts(run.sent)[i] != Broadcasts(run.sent)[j])
      && NoRepeats(run.sent)
  {
    var run := TickSpec(seen, mainFound, mentionFound, f, outcomes);
    if mainFound && mentionFound {
      var rs := FormResponses(f);
      var nr := NewRows(seen, rs);
      ProcessAgainstReference(seen, rs, outcomes, 0);
      NewRowsSpec(seen, rs);
      AnnounceAllBroadcasts(nr);
      AnnounceAllMessages(nr);
      BroadcastsPrefix(run.sent, AnnounceAll(nr));
      forall s | s in run.sent ensures s.source !in seen {
        assert s in AnnounceAll(nr);
      }
      assert Broadcasts(run.sent) <= nr;
      AnnounceAllNoRepeats(nr);
      assert forall i :: 0 <= i < |run.sent| ==> run.sent[i] == AnnounceAll(nr)[i];
    }
  }

  /** The ledger only grows, and what a tick adds are responses it fetched. */
  lemma LedgerGrows(seen: set<Response>, mainFound: bool, mentionFound: bool, f: Fetch, outcomes: seq<bool>)
    ensures var run := TickSpec(seen, mainFound, mentionFound, f, outcomes);
      seen <= run.seen && forall r :: r in run.seen - seen ==> r in FormResponses(f)
  {
    var run := TickSpec(seen, mainFound, mentionFound, f, outcomes);
    if mainFound && mentionFound {
      var rs := FormResponses(f);
      ProcessAgainstReference(seen, rs, outcomes, 0);
      NewRowsSpec(seen, rs);
      var nr := NewRows(seen, rs);
      AnnounceAllBroadcasts(nr);
      BroadcastsPrefix(run.sent, AnnounceAll(nr));
      forall r | r in run.seen - seen ensures r in rs {
        if run.status.SendFailed? {
          assert r in Broadcasts(run.sent);
        }
      }
    }
  }

  /** When every send goes out, a tick announces every new response exactly
      once, in fetch order (broadcast, then the mention when eligible), and
      commits all of them. */
  lemma TickAllDelivered(seen: set<Response>, f: Fetch)
    ensures TickSpec(seen, true, true, f, []) ==
      Run(seen + Elems(NewRows(seen, FormResponses(f))), AnnounceAll(NewRows(seen, FormResponses(f))), Completed)
  {
    ProcessAgainstReference(seen, FormResponses(f), [], 0);
  }

  /** A fetch that failed, found an empty sheet or only a header makes the
      tick send nothing and leave the ledger as it was. */
  lemma EmptyFetchNoSends(seen: set<Response>, f: Fetch, outcomes: seq<bool>)
    requires f.FetchError? || |f.values| <= 1
    ensures TickSpec(seen, true, true, f, outcomes) == Run(seen, [], Completed)
  {
  }

  /** A tick that repeats the previous completed tick's fetch sends nothing
      and leaves the ledger unchanged. */
  lemma RepeatTickSilent(seen: set<Response>, f: Fetch, outcomes1: seq<bool>, outcomes2: seq<bool>)
    requires TickSpec(seen, true, true, f, outcomes1).status == Completed
    ensures var seen1 := TickSpec(seen, true, true, f, outcomes1).seen;
      TickSpec(seen1, true, true, f, outcomes2) == Run(seen1, [], Completed)
  {
    var rs := FormResponses(f);
    var seen1 := TickSpec(seen, true, true, f, outcomes1).seen;
    ProcessAgainstReference(seen, rs, outcomes1, 0);
    NewRowsSpec(seen, rs);
    NewRowsSpec(seen1, rs);
    assert forall r :: r in rs ==> r in seen1;
    NewRowsAllSeen(seen1, rs);
    ProcessAgainstReference(seen1, rs, outcomes2, 0);
  }

  /** The same response fetched twice in one tick is broadcast once. */
  lemma DuplicateInOneTick(seen: set<Response>, r: Response, outcomes: seq<bool>)
    requires r !in seen
    ensures Process(seen, [r, r], outcomes, 0).sent <= Announcement(r)
    ensures Broadcasts(Process(seen, [r, r], outcomes, 0).sent) <= [r]
  {
    var rs := [r, r];
    assert rs[1..] == [r];
    assert NewRows(seen + {r}, [r]) == [];
    assert NewRows(seen, rs) == [r];
    assert AnnounceAll([r]) == Announcement(r);
    ProcessAgainstReference(seen, rs, outcomes, 0);
    AnnounceAllBroadcasts([r]);
    BroadcastsPrefix(Process(seen, rs, outcomes, 0).sent, Announcement(r));
  }

  /** A response whose mention fields are not both valid still gets its
      broadcast and is still committed. */
  lemma IneligibleStillAnnounced(seen: set<Response>, r: Response, outcomes: seq<bool>)
    requires r !in seen && !MentionEligible(r)
    requires Delivers(outcomes, 0)
    ensures Process(seen, [r], outcomes, 0) == Run(seen + {r}, [Broadcast(r, BroadcastFields(r))], Completed)
  {
    assert [r][1..] == [];
  }

  lemma PrependTwice(a: seq<Send>, b: seq<Send>, run: Run)
    ensures Prepend(a, Prepend(b, run)) == Prepend(a + b, run)
  {
    assert a + (b + run.sent) == (a + b) + run.sent;
  }

  // One turn of the loop at position `i` of the fetched responses, case by case.

  lemma StepSeen(seen: set<Response>, rs: seq<Response>, i: nat, outcomes: seq<bool>, k: nat)
    requires i < |rs| && rs[i] in seen
    ensures Process(seen, rs[i..], outcomes, k) == Process(seen, rs[i + 1..], outcomes, k)
  {
    assert rs[i..][0] == rs[i] && rs[i..][1..] == rs[i + 1..];
  }

  lemma StepBroadcastFails(seen: set<Response>, rs: seq<Response>, i: nat, outcomes: seq<bool>, k: nat)
    requires i < |rs| && rs[i] !in seen && !Delivers(outcomes, k)
    ensures Process(seen, rs[i..], outcomes, k) == Run(seen, [], SendFailed(rs[i]))
  {
    assert rs[i..][0] == rs[i];
  }

  lemma StepMentionFails(seen: set<Response>, rs: seq<Response>, i: nat, outcomes: seq<bool>, k: nat)
    requires i < |rs| && rs[i] !in seen && Delivers(outcomes, k)
    requires MentionEligible(rs[i]) && !Delivers(outcomes, k + 1)
    ensures Process(seen, rs[i..], outcomes, k) == Run(seen, [BroadcastOf(rs[i])], SendFailed(rs[i]))
  {
    assert rs[i..][0] == rs[i];
  }

  lemma StepBroadcastOnly(seen: set<Response>, rs: seq<Response>, i: nat, outcomes: seq<bool>, k: nat)
    requires i < |rs| && rs[i] !in seen && Delivers(outcomes, k) && !MentionEligible(rs[i])
    ensures Process(seen, rs[i..], outcomes, k) ==
      Prepend([BroadcastOf(rs[i])], Process(seen + {rs[i]}, rs[i + 1..], outcomes, k + 1))
  {
    assert rs[i..][0] == rs[i] && rs[i..][1..] == rs[i + 1..];
  }

  lemma StepBroadcastAndMention(seen: set<Response>, rs: seq<Response>, i: nat, outcomes: seq<bool>, k: nat)
    requires i < |rs| && rs[i] !in seen && Delivers(outcomes, k)
    requires MentionEligible(rs[i]) && Delivers(outcomes, k + 1)
    ensures Process(seen, rs[i..], outcomes, k) ==
      Prepend([BroadcastOf(rs[i]), MentionOf(rs[i])], Process(seen + {rs[i]}, rs[i + 1..], outcomes, k + 2))
  {
    assert rs[i..][0] == rs[i] && rs[i..][1..] == rs[i + 1..];
  }

  // ---------------------------------------------------------------------
  // The ledger: the set `processed_responses` and the tick that updates it.

  class Ledger {
    /** The identities of the responses already announced. */
    var seen: set<Response>

    constructor ()
      ensures seen == {}
    {
      seen := {};
    }

    /** One tick. `mainFound` and `mentionFound` say whether the two channel
        lookups gave a channel, `f` is what the spreadsheet read produced and
        `outcomes` which send attempts go out. Returns the sends that went
        out and how the tick ended. */
    method Tick(mainFound: bool, mentionFound: bool, f: Fetch, outcomes: seq<bool>)
      returns (sent: seq<Send>, status: Status)
      modifies this
      ensures Run(seen, sent, status) == TickSpec(old(seen), mainFound, mentionFound, f, outcomes)
      ensures old(seen) <= seen
    {
      ghost var spec := TickSpec(seen, mainFound, mentionFound, f, outcomes);
      ghost var seen0 := seen;
      sent := [];
      if !mainFound || !mentionFound {
        return sent, ChannelMissing;
      }
      var responses := GetFormResponses(f);
      var attempts := 0;
      var i := 0;
      while i < |responses|
        invariant 0 <= i <= |responses|
        invariant seen0 <= seen
        invariant spec == Prepend(sent, Process(seen, responses[i..], outcomes, attempts))
      {
        var response := responses[i];
        if response !in seen {
          ghost var sent0, k0 := sent, attempts;
          if !Delivers(outcomes, attempts) {
            StepBroadcastFails(seen, responses, i, outcomes, attempts);
            assert sent0 + [] == sent0;
            return sent, SendFailed(response);
          }
          sent := sent + [BroadcastOf(response)];
          attempts := attempts + 1;
          if MentionEligible(response) {
            if !Delivers(outcomes, attempts) {
              StepMentionFails(seen, responses, i, outcomes, k0);
              return sent, SendFailed(response);
            }
            sent := sent + [MentionOf(response)];
            attempts := attempts + 1;
            StepBroadcastAndMention(seen, responses, i, outcomes, k0);
            PrependTwice(sent0, [BroadcastOf(response), MentionOf(response)],
              Process(seen + {response}, responses[i + 1..], outcomes, attempts));
            assert sent == sent0 + [BroadcastOf(response), MentionOf(response)];
          } else {
            StepBroadcastOnly(seen, responses, i, outcomes, k0);
            PrependTwice(sent0, [BroadcastOf(response)],
              Process(seen + {response}, responses[i + 1..], outcomes, attempts));
          }
          seen := seen + {response};
        } else {
          StepSeen(seen, responses, i, outcomes, attempts);
        }
        i := i + 1;
      }
      assert responses[i..] == [];
      status := Completed;
    }
  }
}
