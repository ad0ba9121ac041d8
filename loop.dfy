/**
  The harvest loop of Floodgate.js stated on values: the record the loop
  builds and checkpoints (`objGame`), one loop iteration (`Step`), a whole run
  over a sequence of fetch outcomes (`Harvest`) and resume adoption (`Adopt`).
  The classes in floodgate.dfy are proved to follow these functions; the
  lemmas here say what the functions guarantee.
*/
module Loop {
  import opened Options
  import opened Histogram

  /** A clock reading (`getDate()`), kept opaque. */
  type Time = int

  /** Plays per page of the remote API: the constant in `numPlays -= 100 * page++`. */
  const PageSize := 100

  /** The game record that is built in memory and written to the store. */
  datatype Record = Record(
    id: int,              // bggid, the store key
    name: string,
    page: int,            // 1-based cursor: the next page to fetch
    counts: Counts,       // playerCounts
    start: Time,          // time.start
    finish: Option<Time>) // time.finish, set once the loop has seen the end

  /**
    What one fetch yields: a parsed page (its `total` attribute, its plays,
    and the clock reading when it is processed), or a failure (network error,
    HTTP status that is not OK).
  */
  datatype Response = Page(total: int, plays: seq<Play>, clock: Time) | Failure

  /** How a run ended: the last page was seen, a fetch failed, or the responses ran out. */
  datatype Status = Finished | Aborted | Interrupted

  /** The record after one iteration, and the new value of `numPlays`. */
  datatype StepResult = StepResult(next: Record, remaining: int)

  /** A run: the record it ends with, every checkpoint it wrote in order, how it ended. */
  datatype Trace = Trace(last: Record, checkpoints: seq<Record>, status: Status)

  /** The record at script start: page 1, no counts, no finish time. */
  function Fresh(id: int, name: string, now: Time): (r: Record)
    ensures r.id == id && r.name == name && r.start == now
    ensures r.page == 1 && r.counts == [] && r.finish.None?
  {
    Record(id, name, 1, [], now, None)
  }

  /**
    Resume adoption: a stored record without a finish time supplies the page,
    the counts and the start time; otherwise the in-memory record is kept.
  */
  function Adopt(r: Record, stored: Option<Record>): (a: Record)
    ensures stored.Some? && stored.value.finish.None? ==>
      a.page == stored.value.page && a.counts == stored.value.counts && a.start == stored.value.start
    ensures a.id == r.id && a.name == r.name && a.finish == r.finish
    ensures stored.None? || stored.value.finish.Some? ==> a == r
  {
    if stored.Some? && stored.value.finish.None? then
      r.(page := stored.value.page, counts := stored.value.counts, start := stored.value.start)
    else r
  }

  /**
    One iteration of the loop, including the gap fill that precedes the
    checkpoint. The page cursor rises by one after a page unless that page was
    the last, when the increment is undone and the finish time is set.
  */
  function Step(r: Record, response: Response): (res: StepResult)
    ensures Filled(res.next.counts) && |res.next.counts| >= |r.counts|
    ensures res.next.id == r.id && res.next.name == r.name && res.next.start == r.start
    ensures res.next.page == (if res.remaining > 0 then r.page + 1 else r.page)
    ensures res.next.finish.Some? && res.next.finish != r.finish ==> response.Page? && res.remaining < 1
  {
    match response
    case Failure => StepResult(r.(counts := Fill(r.counts)), -1)
    case Page(total, plays, clock) =>
      var remaining := total - PageSize * r.page;
      var counts := Fill(FoldPlays(r.counts, plays));
      if remaining < 1 then StepResult(r.(counts := counts, finish := Some(clock)), remaining)
      else StepResult(r.(page := r.page + 1, counts := counts), remaining)
  }

  /** What a response adds to cell `n`. */
  function Gain(response: Response, n: nat): nat
  {
    if response.Page? then Sum(response.plays, n) else 0
  }

  /** What a sequence of responses adds to cell `n`. */
  function Tally(responses: seq<Response>, n: nat): nat
    decreases |responses|
  {
    if responses == [] then 0 else Gain(responses[0], n) + Tally(responses[1..], n)
  }

  /** Puts checkpoints already written in front of a trace's checkpoints. */
  function Continue(done: seq<Record>, t: Trace): Trace
  {
    t.(checkpoints := done + t.checkpoints)
  }

  /**
    A run of `while (numPlays > 0)` over the given responses, one per fetch,
    starting from `r`; `numPlays` starts at 1, so a response is always
    consumed when there is one. Every iteration writes one checkpoint.
  */
  function Harvest(r: Record, responses: seq<Response>): (t: Trace)
    ensures |t.checkpoints| <= |responses|
    ensures responses != [] <==> t.checkpoints != []
    ensures t.status == Interrupted ==> |t.checkpoints| == |responses|
    decreases |responses|
  {
    if responses == [] then Trace(r, [], Interrupted)
    else
      var s := Step(r, responses[0]);
      if s.remaining > 0 then Continue([s.next], Harvest(s.next, responses[1..]))
      else Trace(s.next, [s.next], if responses[0].Failure? then Aborted else Finished)
  }

  /**
    Where a loop stands relative to the run it carries out: `done` are the
    checkpoints written so far and `cur` the current record; while numPlays
    is positive the rest of the run is the run from `cur` over the remaining
    responses, and once it is not the run has ended on `cur`.
  */
  ghost predicate Reaches(trace: Trace, done: seq<Record>, cur: Record,
                          responses: seq<Response>, k: nat, remaining: int)
  {
    && k <= |responses|
    && (remaining > 0 ==> trace == Continue(done, Harvest(cur, responses[k..])))
    && (remaining <= 0 ==> trace.last == cur && trace.checkpoints == done)
  }

  /** One more iteration keeps the loop on its run. */
  lemma ReachesNext(trace: Trace, done: seq<Record>, cur: Record,
                    responses: seq<Response>, k: nat, remaining: int)
    requires Reaches(trace, done, cur, responses, k, remaining)
    requires remaining > 0 && k < |responses|
    ensures var s := Step(cur, responses[k]);
      Reaches(trace, done + [s.next], s.next, responses, k + 1, s.remaining)
  {
    var tail := responses[k..];
    assert tail[0] == responses[k];
    assert tail[1..] == responses[k + 1..];
    var s := Step(cur, tail[0]);
    if s.remaining > 0 {
      var u := Harvest(s.next, tail[1..]);
      assert Harvest(cur, tail) == Continue([s.next], u);
      assert Continue(done, Continue([s.next], u)).checkpoints == (done + [s.next]) + u.checkpoints;
    }
  }

  /** A loop on its run, once it stops, has produced the whole run. */
  lemma ReachesEnd(trace: Trace, done: seq<Record>, cur: Record,
                   responses: seq<Response>, k: nat, remaining: int)
    requires Reaches(trace, done, cur, responses, k, remaining)
    requires remaining <= 0 || k == |responses|
    ensures trace.last == cur && trace.checkpoints == done
  {
    if remaining > 0 {
      assert responses[k..] == [];
    }
  }

  /** Last page the loop fetches when every page reports `total` and it starts at `page`. */
  function LastPage(page: int, total: int): int
  {
    var pages := (total + PageSize - 1) / PageSize;  // total / 100 rounded up
    if page < pages then pages else page
  }

  /**
    One iteration: on a page, the numPlays value is `total - 100 * page` with
    the page before its increment, every cell gains that page's quantity for
    its player count, and the cursor rises by one unless the page was the
    last, when it stays and the finish time is set. On a failure numPlays is
    -1 and the cursor, finish time and every cell's number stay. Either way
    the histogram has no hole and the identity and start time are kept.
  */
  lemma StepEffect(r: Record, response: Response, n: nat)
    ensures var s := Step(r, response);
      && s.next.id == r.id && s.next.name == r.name && s.next.start == r.start
      && Filled(s.next.counts)
      && Cell(s.next.counts, n) == Cell(r.counts, n) + Gain(response, n)
      && (response.Failure? ==> s.remaining == -1 && s.next.page == r.page && s.next.finish == r.finish)
      && (response.Page? ==> s.remaining == response.total - PageSize * r.page)
      && (response.Page? && s.remaining > 0 ==> s.next.page == r.page + 1 && s.next.finish == r.finish)
      && (response.Page? && s.remaining <= 0 ==> s.next.page == r.page && s.next.finish == Some(response.clock))
  {
    FillCell(r.counts, n);
    if response.Page? {
      FoldPlaysCell(r.counts, response.plays, n);
      FillCell(FoldPlays(r.counts, response.plays), n);
    }
  }

  /** A failed fetch on a histogram without holes changes nothing at all. */
  lemma StepFailureKeeps(r: Record)
    requires Filled(r.counts)
    ensures Step(r, Failure) == StepResult(r, -1)
  {
    FillIdempotent(r.counts);
  }

  /**
    The shape of a run: it writes one checkpoint per response it consumes, at
    least one when there is a response, and its last checkpoint is the record
    it ends with; it runs out of responses only after consuming them all;
    every response before the last one consumed was a page, and the run is
    aborted exactly when the last one consumed was a failure.
  */
  lemma {:induction false} HarvestShape(r: Record, responses: seq<Response>)
    ensures var t := Harvest(r, responses);
      && |t.checkpoints| <= |responses|
      && (responses != [] <==> t.checkpoints != [])
      && (t.checkpoints != [] ==> t.checkpoints[|t.checkpoints| - 1] == t.last)
      && (t.status == Interrupted ==> |t.checkpoints| == |responses|)
      && (t.status != Interrupted ==>
            (t.status == Aborted <==> responses[|t.checkpoints| - 1].Failure?))
      && (forall i :: 0 <= i < |t.checkpoints| && (i < |t.checkpoints| - 1 || t.status == Interrupted) ==>
            responses[i].Page?)
    decreases |responses|
  {
    if responses != [] {
      var s := Step(r, responses[0]);
      if s.remaining > 0 {
        var rest := responses[1..];
        HarvestShape(s.next, rest);
        var t' := Harvest(s.next, rest);
        var t := Harvest(r, responses);
        assert t.checkpoints == [s.next] + t'.checkpoints;
        forall i | 0 <= i < |t.checkpoints| && (i < |t.checkpoints| - 1 || t.status == Interrupted)
          ensures responses[i].Page?
        {
          if i > 0 { assert responses[i] == rest[i - 1]; }
        }
        if t.status != Interrupted {
          assert responses[|t.checkpoints| - 1] == rest[|t'.checkpoints| - 1];
        }
      }
    }
  }

  /**
    What every record of a run keeps: each checkpoint, and the record the run
    ends with, is free of holes and keeps the identity and the start time of
    the record the run began from.
  */
  lemma {:induction false} HarvestKeeps(r: Record, responses: seq<Response>)
    ensures var t := Harvest(r, responses);
      && (forall i :: 0 <= i < |t.checkpoints| ==> Filled(t.checkpoints[i].counts))
      && (forall i :: 0 <= i < |t.checkpoints| ==>
            t.checkpoints[i].id == r.id && t.checkpoints[i].name == r.name && t.checkpoints[i].start == r.start)
      && t.last.id == r.id && t.last.name == r.name && t.last.start == r.start
    decreases |responses|
  {
    if responses != [] {
      var s := Step(r, responses[0]);
      if s.remaining > 0 {
        var rest := responses[1..];
        HarvestKeeps(s.next, rest);
        var t' := Harvest(s.next, rest);
        var t := Harvest(r, responses);
        assert t.checkpoints == [s.next] + t'.checkpoints;
        forall i | 0 < i < |t.checkpoints|
          ensures t.checkpoints[i] == t'.checkpoints[i - 1]
        {
        }
      }
    }
  }

  /**
    The cursor during a run: the i-th checkpoint holds the page that follows
    the i-th page fetched (start page + i), except the last one of a run that
    finished or failed, which holds the page it fetched. So the cursor never
    falls below its starting value and ends `checkpoints - 1` pages above it,
    or `checkpoints` pages above it when the responses ran out.
  */
  lemma {:induction false} HarvestCursor(r: Record, responses: seq<Response>)
    ensures var t := Harvest(r, responses);
      && (forall i :: 0 <= i < |t.checkpoints| ==>
            t.checkpoints[i].page
              == r.page + i + (if i == |t.checkpoints| - 1 && t.status != Interrupted then 0 else 1))
      && t.last.page == r.page + |t.checkpoints| - (if t.status == Interrupted then 0 else 1)
      && t.last.page >= r.page
    decreases |responses|
  {
    HarvestShape(r, responses);
    if responses != [] {
      var s := Step(r, responses[0]);
      StepEffect(r, responses[0], 0);
      if s.remaining > 0 {
        var rest := responses[1..];
        HarvestCursor(s.next, rest);
        var t' := Harvest(s.next, rest);
        var t := Harvest(r, responses);
        assert t.checkpoints == [s.next] + t'.checkpoints;
        forall i | 0 <= i < |t.checkpoints|
          ensures t.checkpoints[i].page
            == r.page + i + (if i == |t.checkpoints| - 1 && t.status != Interrupted then 0 else 1)
        {
          if i > 0 { assert t.checkpoints[i] == t'.checkpoints[i - 1]; }
        }
      }
    }
  }

  /**
    The finish time: starting from a record without one, a run ends with a
    finish time exactly when it finished, that time is the clock of the last
    page, and no checkpoint before the last carries one.
  */
  lemma {:induction false} HarvestFinish(r: Record, responses: seq<Response>)
    requires r.finish.None?
    ensures var t := Harvest(r, responses);
      && (t.last.finish.Some? <==> t.status == Finished)
      && (t.status == Finished ==>
            && 0 < |t.checkpoints| <= |responses|
            && responses[|t.checkpoints| - 1].Page?
            && t.last.finish == Some(responses[|t.checkpoints| - 1].clock))
      && (forall i :: 0 <= i < |t.checkpoints| - 1 ==> t.checkpoints[i].finish.None?)
    decreases |responses|
  {
    if responses != [] {
      var s := Step(r, responses[0]);
      StepEffect(r, responses[0], 0);
      var t := Harvest(r, responses);
      if s.remaining <= 0 {
        assert t == Trace(s.next, [s.next], if responses[0].Failure? then Aborted else Finished);
      } else {
        var rest := responses[1..];
        HarvestFinish(s.next, rest);
        var t' := Harvest(s.next, rest);
        assert t == Continue([s.next], t');
        assert t.checkpoints == [s.next] + t'.checkpoints;
        forall i | 0 <= i < |t.checkpoints| - 1
          ensures t.checkpoints[i].finish.None?
        {
          if i > 0 { assert t.checkpoints[i] == t'.checkpoints[i - 1]; }
        }
        if t.status == Finished {
          assert responses[|t.checkpoints| - 1] == rest[|t'.checkpoints| - 1];
        }
      }
    }
  }

  /**
    The histogram after a run: every cell holds what it held at the start
    plus the quantities, for its player count, of the pages the run consumed;
    a failed fetch contributes nothing.
  */
  lemma {:induction false} HarvestCells(r: Record, responses: seq<Response>, n: nat)
    ensures var t := Harvest(r, responses);
      |t.checkpoints| <= |responses| &&
      Cell(t.last.counts, n) == Cell(r.counts, n) + Tally(responses[..|t.checkpoints|], n)
    decreases |responses|
  {
    HarvestShape(r, responses);
    if responses != [] {
      var s := Step(r, responses[0]);
      StepEffect(r, responses[0], n);
      var t := Harvest(r, responses);
      if s.remaining > 0 {
        var rest := responses[1..];
        HarvestCells(s.next, rest, n);
        var t' := Harvest(s.next, rest);
        assert responses[..|t.checkpoints|][1..] == rest[..|t'.checkpoints|];
      } else {
        assert responses[..1][1..] == [];
      }
    }
  }

  /**
    The histogram at every checkpoint: the i-th checkpoint holds, in every
    cell, what the cell held at the start plus the quantities of the first
    i + 1 responses consumed. Each checkpoint is thus a consistent point to
    resume from: together with HarvestCursor, its page is the next one whose
    plays it does not hold yet.
  */
  lemma {:induction false} HarvestCheckpointCells(r: Record, responses: seq<Response>, n: nat, i: nat)
    requires i < |Harvest(r, responses).checkpoints|
    ensures i < |responses|
    ensures Cell(Harvest(r, responses).checkpoints[i].counts, n)
         == Cell(r.counts, n) + Tally(responses[..i + 1], n)
    decreases |responses|
  {
    assert responses != [];
    var s := Step(r, responses[0]);
    StepEffect(r, responses[0], n);
    var t := Harvest(r, responses);
    var rest := responses[1..];
    if i > 0 {
      var t' := Harvest(s.next, rest);
      assert t.checkpoints == [s.next] + t'.checkpoints;
      HarvestCheckpointCells(s.next, rest, n, i - 1);
      assert t.checkpoints[i] == t'.checkpoints[i - 1];
    } else {
      assert t.checkpoints[0] == s.next;
    }
    var prefix := responses[..i + 1];
    assert prefix[0] == responses[0];
    assert prefix[1..] == rest[..i];
    assert Tally(prefix, n) == Gain(responses[0], n) + Tally(prefix[1..], n);
  }

  /**
    The termination arithmetic: when every page reports the same `total`, a
    run from page p fetches pages p, p+1, ..., LastPage(p, total) and
    finishes there, i.e. max(1, ceil((total - 100 (p - 1)) / 100)) pages,
    provided the responses last that long.
  */
  lemma {:induction false} HarvestConstantTotal(r: Record, responses: seq<Response>, total: int)
    requires forall i :: 0 <= i < |responses| ==> responses[i].Page? && responses[i].total == total
    requires |responses| >= LastPage(r.page, total) - r.page + 1
    ensures var t := Harvest(r, responses);
      && t.status == Finished
      && |t.checkpoints| == LastPage(r.page, total) - r.page + 1
      && t.last.page == LastPage(r.page, total)
    decreases |responses|
  {
    var s := Step(r, responses[0]);
    StepEffect(r, responses[0], 0);
    var pages := (total + PageSize - 1) / PageSize;
    if r.page < pages {
      assert s.remaining > 0;
      var rest := responses[1..];
      HarvestConstantTotal(s.next, rest, total);
    } else {
      assert s.remaining <= 0;
    }
  }

  /**
    With a constant total of 250 plays a fresh run fetches pages 1, 2 and 3,
    finishes, and leaves page 3 in the record.
  */
  lemma TwoHundredFiftyPlays(id: int, name: string, now: Time, responses: seq<Response>)
    requires |responses| >= 3
    requires forall i :: 0 <= i < |responses| ==> responses[i].Page? && responses[i].total == 250
    ensures var t := Harvest(Fresh(id, name, now), responses);
      && t.status == Finished
      && |t.checkpoints| == 3
      && t.checkpoints[0].page == 2 && t.checkpoints[1].page == 3 && t.checkpoints[2].page == 3
      && t.last.page == 3
  {
    HarvestConstantTotal(Fresh(id, name, now), responses, 250);
    HarvestCursor(Fresh(id, name, now), responses);
  }

  /**
    A fresh run whose first three pages leave plays to fetch and whose fourth
    fetch fails stops there, resumable: the record holds page 4, no finish
    time, and exactly the plays of pages 1 to 3.
  */
  lemma FailureOnFourthPage(id: int, name: string, now: Time, responses: seq<Response>, n: nat)
    requires |responses| == 4
    requires forall i :: 0 <= i < 3 ==> responses[i].Page? && responses[i].total > PageSize * (i + 1)
    requires responses[3].Failure?
    ensures var t := Harvest(Fresh(id, name, now), responses);
      && t.status == Aborted
      && |t.checkpoints| == 4
      && t.last.page == 4
      && t.last.finish.None?
      && Cell(t.last.counts, n)
           == Sum(responses[0].plays, n) + Sum(responses[1].plays, n) + Sum(responses[2].plays, n)
  {
    var r0 := Fresh(id, name, now);
    var r1 := Step(r0, responses[0]).next;
    StepEffect(r0, responses[0], n);
    var r2 := Step(r1, responses[1]).next;
    StepEffect(r1, responses[1], n);
    var r3 := Step(r2, responses[2]).next;
    StepEffect(r2, responses[2], n);
    var r4 := Step(r3, responses[3]).next;
    StepEffect(r3, responses[3], n);
    assert Harvest(r3, responses[3..]) == Trace(r4, [r4], Aborted);
    assert responses[2..][1..] == responses[3..];
    assert Harvest(r2, responses[2..]) == Continue([r3], Harvest(r3, responses[3..]));
    assert responses[1..][1..] == responses[2..];
    assert Harvest(r1, responses[1..]) == Continue([r2], Harvest(r2, responses[2..]));
    assert Harvest(r0, responses) == Continue([r1], Harvest(r1, responses[1..]));
  }

  /**
    Resuming an unfinished stored record: the run fetches from the stored
    page, keeps the stored start time, and adds the new plays to the stored
    counts instead of starting from an empty histogram.
  */
  lemma ResumeKeepsProgress(id: int, name: string, now: Time, stored: Record,
                            responses: seq<Response>, n: nat)
    requires stored.finish.None?
    ensures var r := Adopt(Fresh(id, name, now), Some(stored));
      var t := Harvest(r, responses);
      && r.page == stored.page
      && t.last.page >= stored.page
      && t.last.start == stored.start
      && |t.checkpoints| <= |responses|
      && Cell(t.last.counts, n) == Cell(stored.counts, n) + Tally(responses[..|t.checkpoints|], n)
  {
    var r := Adopt(Fresh(id, name, now), Some(stored));
    HarvestCursor(r, responses);
    HarvestKeeps(r, responses);
    HarvestCells(r, responses, n);
  }
}
