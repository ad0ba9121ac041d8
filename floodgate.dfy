/**
  The running harvester of Floodgate.js: the store that stands for IndexedDB,
  and the in-memory game record (`objGame`) whose fields the loop updates in
  place. Each method is proved to follow the functions of module Loop.
*/
module Floodgate {
  import opened Options
  import opened Histogram
  import opened Loop

  /**
    The object store keyed by bggid. `writes` records every put, in order, so
    that what the loop checkpoints can be stated.
  */
  class Store {
    var records: map<int, Record>
    ghost var writes: seq<Record>

    /** The key path is the record's id: every record is stored under its own id. */
    ghost predicate Valid()
      reads this
    {
      forall k :: k in records ==> records[k].id == k
    }

    /**
      Every stored record is one a run can resume from: its page cursor is at
      least 1 and its histogram has no holes. The records the loop writes are
      all of this kind.
    */
    ghost predicate Resumable()
      reads this
    {
      forall k :: k in records ==> records[k].page >= 1 && Filled(records[k].counts)
    }

    constructor (records: map<int, Record>)
      requires forall k :: k in records ==> records[k].id == k
      ensures Valid()
      ensures this.records == records && writes == []
    {
      this.records := records;
      writes := [];
    }

    /** `store.get(key)`: absence is a normal outcome. */
    function Get(id: int): (r: Option<Record>)
      reads this
      ensures r.Some? <==> id in records
      ensures r.Some? ==> r.value == records[id]
      ensures Valid() && r.Some? ==> r.value.id == id
    {
      if id in records then Some(records[id]) else None
    }

    /** `store.put(record)`: an upsert keyed by the record's id. */
    method Put(r: Record)
      requires Valid()
      modifies this
      ensures Valid()
      ensures records == old(records)[r.id := r]
      ensures writes == old(writes) + [r]
    {
      records := records[r.id := r];
      writes := writes + [r];
    }
  }

  /** `objGame`: the record the loop builds, updated field by field. */
  class Harvester {
    const id: int
    const name: string
    var page: int
    var counts: Counts
    var start: Time
    var finish: Option<Time>

    /** The record as it would be written to the store now. */
    function Snapshot(): Record
      reads this
    {
      Record(id, name, page, counts, start, finish)
    }

    /** The initial `objGame`: page 1, an empty histogram, started now, not finished. */
    constructor (id: int, name: string, now: Time)
      ensures Snapshot() == Fresh(id, name, now)
      ensures page == 1 && counts == [] && start == now && finish == None
    {
      this.id := id;
      this.name := name;
      page := 1;
      counts := [];
      start := now;
      finish := None;
    }

    /** Reads the stored record for this game and adopts it when it has no finish time. */
    method Resume(store: Store)
      modifies this
      ensures Snapshot() == Adopt(old(Snapshot()), store.Get(id))
    {
      var stored := store.Get(id);
      if stored.Some? && stored.value.finish.None? {
        page := stored.value.page;
        counts := stored.value.counts;
        start := stored.value.start;
      }
    }

    /** Folds the plays of one page into the histogram, one play at a time. */
    method AddPlays(plays: seq<Play>)
      modifies this
      ensures counts == FoldPlays(old(counts), plays)
      ensures page == old(page) && start == old(start) && finish == old(finish)
    {
      for i := 0 to |plays|
        invariant FoldPlays(counts, plays[i..]) == FoldPlays(old(counts), plays)
        invariant page == old(page) && start == old(start) && finish == old(finish)
      {
        assert plays[i..][1..] == plays[i + 1..];
        counts := Fold(counts, plays[i].players, plays[i].quantity);
      }
      assert plays[|plays|..] == [];
    }

    /** Rewrites every empty cell below the length to 0. */
    method FillGaps()
      modifies this
      ensures counts == Fill(old(counts))
      ensures page == old(page) && start == old(start) && finish == old(finish)
    {
      for i := 0 to |counts|
        invariant |counts| == |old(counts)|
        invariant forall j :: 0 <= j < i ==> counts[j] == Fill(old(counts))[j]
        invariant forall j :: i <= j < |counts| ==> counts[j] == old(counts)[j]
        invariant page == old(page) && start == old(start) && finish == old(finish)
      {
        if counts[i].None? {
          counts := counts[i := Some(0)];
        }
      }
    }

    /**
      One iteration of the loop body: fold the page (or note the failure),
      update numPlays and the cursor, fill the gaps and write a checkpoint.
    */
    method ProcessPage(response: Response, store: Store) returns (remaining: int)
      requires store.Valid()
      modifies this, store
      ensures store.Valid()
      ensures Snapshot() == Step(old(Snapshot()), response).next
      ensures remaining == Step(old(Snapshot()), response).remaining
      ensures store.records == old(store.records)[id := Snapshot()]
      ensures store.writes == old(store.writes) + [Snapshot()]
    {
      match response {
        case Failure =>
          remaining := -1;
        case Page(total, plays, clock) =>
          AddPlays(plays);
          remaining := total - PageSize * page;
          page := page + 1;
          if remaining < 1 {
            page := page - 1;
            finish := Some(clock);
          }
      }
      FillGaps();
      store.Put(Snapshot());
    }

    /**
      `loopThroughPlays`: fetch, fold and checkpoint until numPlays is no
      longer positive, consuming one response per fetch.
    */
    method Run(responses: seq<Response>, store: Store)
      requires store.Valid()
      modifies this, store
      ensures store.Valid()
      ensures Snapshot() == Harvest(old(Snapshot()), responses).last
      ensures store.writes == old(store.writes) + Harvest(old(Snapshot()), responses).checkpoints
      ensures responses == [] ==> store.records == old(store.records)
      ensures responses != [] ==> store.records == old(store.records)[id := Snapshot()]
    {
      ghost var cur := Snapshot();
      ghost var trace := Harvest(cur, responses);
      ghost var done: seq<Record> := [];
      assert responses[0..] == responses;
      assert Reaches(trace, done, cur, responses, 0, 1);
      var remaining := 1;
      var k := 0;
      while remaining > 0 && k < |responses|
        invariant cur == Snapshot()
        invariant store.Valid()
        invariant store.writes == old(store.writes) + done
        invariant k == 0 ==> remaining > 0
        invariant store.records == if k == 0 then old(store.records) else old(store.records)[id := cur]
        invariant Reaches(trace, done, cur, responses, k, remaining)
        decreases |responses| - k
      {
        ReachesNext(trace, done, cur, responses, k, remaining);
        ghost var step := Step(cur, responses[k]);
        remaining := ProcessPage(responses[k], store);
        cur := step.next;
        done := done + [cur];
        k := k + 1;
      }
      ReachesEnd(trace, done, cur, responses, k, remaining);
    }
  }

  /**
    The script: build the initial record, resume from the store, run the
    loop. The run that follows starts from the adopted record.
  */
  method Session(id: int, name: string, now: Time, store: Store, responses: seq<Response>)
    returns (game: Harvester)
    requires store.Valid()
    modifies store
    ensures store.Valid()
    ensures responses == [] ==> store.records == old(store.records)
    ensures responses != [] ==> store.records == old(store.records)[id := game.Snapshot()]
    ensures game.Snapshot() == Harvest(Adopt(Fresh(id, name, now), old(store.Get(id))), responses).last
    ensures store.writes
      == old(store.writes) + Harvest(Adopt(Fresh(id, name, now), old(store.Get(id))), responses).checkpoints
    ensures old(store.Resumable()) ==>
      store.Resumable() && game.Snapshot().page >= 1 && Filled(game.Snapshot().counts)
  {
    ghost var adopted := Adopt(Fresh(id, name, now), store.Get(id));
    ghost var resumable := store.Resumable();
    game := new Harvester(id, name, now);
    game.Resume(store);
    game.Run(responses, store);
    if resumable {
      assert adopted.page >= 1 && Filled(adopted.counts);
      HarvestShape(adopted, responses);
      HarvestCursor(adopted, responses);
      HarvestKeeps(adopted, responses);
    }
  }

  /**
    Two script runs in a row: when the first one was stopped by a failed
    fetch, the second one adopts the record the first one checkpointed, so it
    fetches from the page the first one failed on and keeps its counts and
    start time.
  */
  method ResumeAfterFailure(id: int, name: string, now: Time, later: Time, store: Store,
                            first: seq<Response>, second: seq<Response>)
    returns (game: Harvester)
    requires store.Valid()
    requires store.Get(id).None? || store.Get(id).value.finish.Some?
    requires first != [] && Harvest(Fresh(id, name, now), first).status == Aborted
    modifies store
    ensures var stopped := Harvest(Fresh(id, name, now), first).last;
      && game.Snapshot() == Harvest(Adopt(Fresh(id, name, later), Some(stopped)), second).last
      && game.Snapshot().start == now
      && game.Snapshot().page >= stopped.page
    ensures old(store.Resumable()) ==> store.Resumable()
  {
    var g := Session(id, name, now, store, first);
    HarvestFinish(Fresh(id, name, now), first);
    HarvestKeeps(Fresh(id, name, now), first);
    var resumed := Adopt(Fresh(id, name, later), Some(g.Snapshot()));
    HarvestKeeps(resumed, second);
    HarvestCursor(resumed, second);
    game := Session(id, name, later, store, second);
  }
}
