/** Offset pagination: what the loop fetches from any server, and what that is for an honest one. */
module Pagination {
  import opened Options

  datatype Page<T> = Page(items: seq<T>, total: Option<int>)

  /** A server may answer differently each time it is asked, so it sees the number of the call. */
  type Server<!T> = (nat, int) -> Page<T>

  datatype Fetched<T> = Fetched(items: seq<T>, pages: nat)

  /** The pages from call number `call` on, with `budget` pages left. */
  function FetchFrom<T>(server: Server<T>, call: nat, start: int, budget: nat): Fetched<T>
    decreases budget
  {
    if budget == 0 then Fetched([], 0)
    else
      var body := server(call, start);
      var next := start + |body.items|;
      if body.items == [] || (body.total.Some? && next >= body.total.value) then Fetched(body.items, 1)
      else
        var rest := FetchFrom(server, call + 1, next, budget - 1);
        Fetched(body.items + rest.items, 1 + rest.pages)
  }

  /** The generator's loop, its yields gathered in order. */
  method PaginateOffset<T(==)>(server: Server<T>, first: int, maxPages: nat) returns (yielded: seq<T>, pages: nat)
    ensures Fetched(yielded, pages) == FetchFrom(server, 0, first, maxPages)
  {
    yielded, pages := [], 0;
    var start := first;
    assert yielded + FetchFrom(server, 0, first, maxPages).items == FetchFrom(server, 0, first, maxPages).items;
    while pages < maxPages
      invariant pages <= maxPages
      invariant var rest := FetchFrom(server, pages, start, maxPages - pages);
        FetchFrom(server, 0, first, maxPages) == Fetched(yielded + rest.items, pages + rest.pages)
    {
      var body := server(pages, start);
      pages := pages + 1;
      yielded := yielded + body.items;
      if body.items == [] { break; }
      start := start + |body.items|;
      if body.total.Some? && start >= body.total.value { break; }
    }
  }

  /**
   Each page is a slice of one fixed list beginning where it was asked for: never longer than
   asked, never empty before the end, and its total, if sent, is the length of the list.
   */
  ghost predicate IsHonest<T(!new)>(server: Server<T>, list: seq<T>, pageSize: nat) {
    forall call: nat, start: nat :: IsHonestPage(server(call, start), list, start, pageSize)
  }

  ghost predicate IsHonestPage<T>(p: Page<T>, list: seq<T>, start: nat, pageSize: nat) {
    && (p.total == None || p.total == Some(|list|))
    && (if start >= |list| then p.items == []
        else 1 <= |p.items| <= pageSize && start + |p.items| <= |list|
             && p.items == list[start..start + |p.items|])
  }

  /** A contiguous run of the list from `start`, complete unless it used up its pages. */
  ghost predicate IsRun<T>(r: Fetched<T>, list: seq<T>, start: nat, budget: nat) {
    && r.pages <= budget
    && |r.items| >= r.pages - 1
    && (if start >= |list| then r.items == []
        else start + |r.items| <= |list| && r.items == list[start..start + |r.items|])
    && (start + |r.items| >= |list| || r.pages == budget)
  }

  lemma RunContinues<T>(p: Page<T>, rest: Fetched<T>, list: seq<T>, start: nat, pageSize: nat, budget: nat)
    requires budget > 0 && p.items != [] && IsHonestPage(p, list, start, pageSize)
    requires IsRun(rest, list, start + |p.items|, budget - 1)
    ensures IsRun(Fetched(p.items + rest.items, 1 + rest.pages), list, start, budget)
  {
    var next := start + |p.items|;
    if next < |list| {
      assert list[start..next] + list[next..next + |rest.items|] == list[start..next + |rest.items|];
    } else {
      assert p.items + rest.items == p.items;
    }
  }

  lemma RunEnds<T>(p: Page<T>, list: seq<T>, start: nat, pageSize: nat, budget: nat)
    requires budget > 0 && IsHonestPage(p, list, start, pageSize)
    requires p.items == [] || (p.total.Some? && start + |p.items| >= p.total.value)
    ensures IsRun(Fetched(p.items, 1), list, start, budget)
  {
  }

  /**
   Main result: a contiguous run of the list from the first offset, with no gap and no repeat; the
   whole remainder unless the page budget ends it; and every page but the last brings something.
   */
  lemma {:induction false} HonestRun<T(!new)>(server: Server<T>, list: seq<T>, pageSize: nat,
                                              call: nat, start: nat, budget: nat)
    requires IsHonest(server, list, pageSize)
    ensures IsRun(FetchFrom(server, call, start, budget), list, start, budget)
    decreases budget
  {
    if budget == 0 {
    } else {
      var body := server(call, start);
      assert IsHonestPage(body, list, start, pageSize);
      hide IsRun, IsHonest, IsHonestPage;
      var next := start + |body.items|;
      if body.items == [] || (body.total.Some? && next >= body.total.value) {
        RunEnds(body, list, start, pageSize, budget);
      } else {
        HonestRun(server, list, pageSize, call + 1, next, budget - 1);
        RunContinues(body, FetchFrom(server, call + 1, next, budget - 1), list, start, pageSize, budget);
      }
    }
  }

  /** A server that always says how long the list is. */
  ghost predicate Announces<T(!new)>(server: Server<T>) {
    forall call: nat, start: nat :: server(call, start).total.Some?
  }

  /** With the length announced no page is asked for in vain: each one fetched brings something. */
  lemma {:induction false} AnnouncedLengthSavesAPage<T(!new)>(server: Server<T>, list: seq<T>, pageSize: nat,
                                                              call: nat, start: nat, budget: nat)
    requires IsHonest(server, list, pageSize) && Announces(server) && start < |list|
    ensures |FetchFrom(server, call, start, budget).items| >= FetchFrom(server, call, start, budget).pages
    decreases budget
  {
    if budget == 0 {
    } else {
      var body := server(call, start);
      assert IsHonestPage(body, list, start, pageSize);
      var next := start + |body.items|;
      if next < |list| {
        AnnouncedLengthSavesAPage(server, list, pageSize, call + 1, next, budget - 1);
      }
    }
  }
}
