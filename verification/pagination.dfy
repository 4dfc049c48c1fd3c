/** The cursor walk shared by the three helpers: list a page with the
    current cursor, handle the page, and continue with the page's
    `nextPageToken` until a response omits it. Any rejection ends the walk. */
module Pagination {
  import opened Wrappers
  import opened Seqs
  import opened Mailbox

  /** The requests handling one page issued, and either the stubs it adds to
      the collected list or the error that rejects the run. */
  datatype PageStep = PageStep(requests: seq<Request>, outcome: Result<seq<Stub>, Error>)

  /** Every request in `reqs` was carried out by the service. */
  predicate AllAccepted(reqs: seq<Request>, rejected: set<Id>)
  {
    forall i :: 0 <= i < |reqs| ==> Accepted(reqs[i], rejected)
  }

  /** The step failed because its last request was refused, after all the
      requests before it had been carried out. */
  predicate RejectedAtLast(step: PageStep, rejected: set<Id>)
  {
    && step.outcome.Failure?
    && step.outcome.error.DeleteRejected?
    && |step.requests| > 0
    && !step.requests[|step.requests| - 1].List?
    && step.requests[|step.requests| - 1].ids == step.outcome.error.ids
    && !Accepted(step.requests[|step.requests| - 1], rejected)
    && AllAccepted(step.requests[..|step.requests| - 1], rejected)
  }

  /** Handling a page never issues a list call. */
  ghost predicate NeverLists(act: Page -> PageStep)
  {
    forall page, i :: 0 <= i < |act(page).requests| ==> !act(page).requests[i].List?
  }

  /** A page action never lists; when it succeeds every request it issued was
      carried out; when it fails it either issued nothing because the page
      lacked its item field, or its last request is the one refused. */
  ghost predicate StepsFailFast(act: Page -> PageStep, rejected: set<Id>)
  {
    && NeverLists(act)
    && forall page ::
      && (act(page).outcome.Success? ==> AllAccepted(act(page).requests, rejected))
      && (act(page).outcome.Failure? ==>
            || (act(page).outcome.error == ThreadsMissing && act(page).requests == [])
            || RejectedAtLast(act(page), rejected))
  }

  /** Handling the page succeeded and the page carries a cursor, so the walk lists again. */
  predicate Continues(act: Page -> PageStep, page: Page)
  {
    page.nextPageToken.Some? && act(page).outcome.Success?
  }

  /** The walk moves past this reply to another list call. */
  predicate Advances(act: Page -> PageStep, reply: ListReply)
  {
    reply.Listed? && Continues(act, reply.page)
  }

  /** The loop of the helpers from the list call made with `token` on: the
      k-th remaining list call gets `replies[k]`. */
  function Walk(coll: Collection, q: string, act: Page -> PageStep, replies: seq<ListReply>, token: string): (r: Run<seq<Stub>>)
    ensures |r.trace| > 0 && r.trace[0] == ListRequest(coll, q, token)
    decreases |replies|
  {
    var call := ListRequest(coll, q, token);
    if |replies| == 0 then Run([call], Failure(RepliesExhausted))
    else
      match replies[0]
      case ListFailed(status) => Run([call], Failure(ListError(status)))
      case Listed(page) =>
        var step := act(page);
        if step.outcome.Failure? then Run([call] + step.requests, Failure(step.outcome.error))
        else if page.nextPageToken.None? then Run([call] + step.requests, step.outcome)
        else
          var rest := Walk(coll, q, act, replies[1..], page.nextPageToken.value);
          Run([call] + step.requests + rest.trace,
              if rest.outcome.Failure? then rest.outcome
              else Success(step.outcome.value + rest.outcome.value))
  }

  /** The index of the first reply the walk does not move past, or
      `|replies|` when it moves past all of them. */
  function StopIndex(act: Page -> PageStep, replies: seq<ListReply>): (m: nat)
    ensures m <= |replies|
    ensures forall k :: 0 <= k < m ==> Advances(act, replies[k])
    ensures m < |replies| ==> !Advances(act, replies[m])
    decreases |replies|
  {
    if |replies| == 0 || !Advances(act, replies[0]) then 0
    else
      var m := 1 + StopIndex(act, replies[1..]);
      assert forall k :: 1 <= k < |replies| ==> replies[k] == replies[1..][k - 1];
      m
  }

  predicate AllContinue(act: Page -> PageStep, pages: seq<Page>)
  {
    forall k :: 0 <= k < |pages| ==> Continues(act, pages[k])
  }

  predicate AllHandled(act: Page -> PageStep, pages: seq<Page>)
  {
    forall k :: 0 <= k < |pages| ==> act(pages[k]).outcome.Success?
  }

  /** The cursor of the list call made after the first `k` pages. */
  function TokenBefore(start: string, pages: seq<Page>, k: nat): string
    requires k <= |pages|
    requires forall j :: 0 <= j < k ==> pages[j].nextPageToken.Some?
  {
    if k == 0 then start else pages[k - 1].nextPageToken.value
  }

  /** The pages of the first `m` replies. */
  function PagesOf(replies: seq<ListReply>, m: nat): (pages: seq<Page>)
    requires m <= |replies|
    requires forall k :: 0 <= k < m ==> replies[k].Listed?
    ensures |pages| == m
    ensures forall k :: 0 <= k < m ==> pages[k] == replies[k].page
  {
    seq(m, k requires 0 <= k < m => replies[k].page)
  }

  /** The requests for page `i`: the list call that fetched it, then the
      requests handling it issued. */
  function Segment(coll: Collection, q: string, act: Page -> PageStep, start: string, pages: seq<Page>, i: nat): seq<Request>
    requires AllContinue(act, pages)
    requires i < |pages|
  {
    [ListRequest(coll, q, TokenBefore(start, pages, i))] + act(pages[i]).requests
  }

  /** The requests for a known sequence of pages, page by page. */
  function PagesTrace(coll: Collection, q: string, act: Page -> PageStep, start: string, pages: seq<Page>): seq<Request>
    requires AllContinue(act, pages)
  {
    Flatten(seq(|pages|, i requires 0 <= i < |pages| => Segment(coll, q, act, start, pages, i)))
  }

  /** What handling a known sequence of pages collected, page by page. */
  function Collected(act: Page -> PageStep, pages: seq<Page>): seq<Stub>
    requires AllHandled(act, pages)
  {
    Flatten(seq(|pages|, i requires 0 <= i < |pages| => act(pages[i]).outcome.value))
  }

  lemma PagesTraceCons(coll: Collection, q: string, act: Page -> PageStep, start: string, pages: seq<Page>)
    requires AllContinue(act, pages)
    requires |pages| > 0
    ensures AllContinue(act, pages[1..])
    ensures PagesTrace(coll, q, act, start, pages)
         == [ListRequest(coll, q, start)] + act(pages[0]).requests
          + PagesTrace(coll, q, act, pages[0].nextPageToken.value, pages[1..])
  {
    var t := pages[0].nextPageToken.value;
    var rest := pages[1..];
    var s := seq(|pages|, i requires 0 <= i < |pages| => Segment(coll, q, act, start, pages, i));
    var s' := seq(|rest|, i requires 0 <= i < |rest| => Segment(coll, q, act, t, rest, i));
    forall i | 0 <= i < |rest|
      ensures s[1..][i] == s'[i]
    {
      assert TokenBefore(start, pages, i + 1) == TokenBefore(t, rest, i);
      assert pages[i + 1] == rest[i];
    }
    assert s[1..] == s';
    assert s[0] == [ListRequest(coll, q, start)] + act(pages[0]).requests;
    assert AllContinue(act, rest) by {
      forall k | 0 <= k < |rest| ensures Continues(act, rest[k]) {
        assert rest[k] == pages[k + 1];
      }
    }
    assert PagesTrace(coll, q, act, start, pages) == Flatten(s);
    assert PagesTrace(coll, q, act, t, rest) == Flatten(s');
    assert Flatten(s) == s[0] + Flatten(s[1..]);
  }

  lemma CollectedCons(act: Page -> PageStep, pages: seq<Page>)
    requires AllHandled(act, pages)
    requires |pages| > 0
    ensures AllHandled(act, pages[1..])
    ensures Collected(act, pages)
         == act(pages[0]).outcome.value + Collected(act, pages[1..])
  {
    var rest := pages[1..];
    assert AllHandled(act, rest) by {
      forall k | 0 <= k < |rest| ensures act(rest[k]).outcome.Success? {
        assert rest[k] == pages[k + 1];
      }
    }
    var s := seq(|pages|, i requires 0 <= i < |pages| => act(pages[i]).outcome.value);
    var s' := seq(|rest|, i requires 0 <= i < |rest| => act(rest[i]).outcome.value);
    assert s[1..] == s';
    assert Collected(act, pages) == Flatten(s);
    assert Collected(act, rest) == Flatten(s');
    assert Flatten(s) == s[0] + Flatten(s[1..]);
  }

  /** How a run ends once the walk stops at reply `m`, given the requests
      issued up to and including the list call at `m` and what was
      collected before it. */
  function Settle(act: Page -> PageStep, replies: seq<ListReply>, m: nat, head: seq<Request>, acc: seq<Stub>): Run<seq<Stub>>
    requires m <= |replies|
  {
    if m == |replies| then Run(head, Failure(RepliesExhausted))
    else
      match replies[m]
      case ListFailed(status) => Run(head, Failure(ListError(status)))
      case Listed(page) =>
        var step := act(page);
        Run(head + step.requests,
            if step.outcome.Failure? then Failure(step.outcome.error)
            else Success(acc + step.outcome.value))
  }

  /** The run in closed form: the pages the walk moves past, then the list
      call at the stop index and how that call settles. */
  function Expected(coll: Collection, q: string, act: Page -> PageStep, replies: seq<ListReply>, start: string): Run<seq<Stub>>
  {
    var m := StopIndex(act, replies);
    var pages := PagesOf(replies, m);
    Settle(act, replies, m,
           PagesTrace(coll, q, act, start, pages) + [ListRequest(coll, q, TokenBefore(start, pages, m))],
           Collected(act, pages))
  }

  lemma SettleShift(act: Page -> PageStep, replies: seq<ListReply>, m': nat,
                    pre: seq<Request>, head': seq<Request>, got: seq<Stub>, acc': seq<Stub>)
    requires 0 < |replies| && m' < |replies|
    ensures var e := Settle(act, replies, m' + 1, pre + head', got + acc');
      var e' := Settle(act, replies[1..], m', head', acc');
      && e.trace == pre + e'.trace
      && e.outcome == if e'.outcome.Failure? then e'.outcome else Success(got + e'.outcome.value)
  {
    if m' + 1 < |replies| {
      assert replies[m' + 1] == replies[1..][m'];
      match replies[m' + 1]
      case ListFailed(_) =>
      case Listed(page) =>
        var step := act(page);
        assert pre + head' + step.requests == pre + (head' + step.requests);
        if step.outcome.Success? {
          assert got + acc' + step.outcome.value == got + (acc' + step.outcome.value);
        }
    }
  }

  /** Moving past the first reply prefixes its list call and its requests to
      the closed form of the rest, and its stubs to what the rest collects. */
  lemma ExpectedCons(coll: Collection, q: string, act: Page -> PageStep, replies: seq<ListReply>, start: string)
    requires |replies| > 0 && Advances(act, replies[0])
    ensures var step := act(replies[0].page);
      var e := Expected(coll, q, act, replies, start);
      var e' := Expected(coll, q, act, replies[1..], replies[0].page.nextPageToken.value);
      && e.trace == [ListRequest(coll, q, start)] + step.requests + e'.trace
      && e.outcome == if e'.outcome.Failure? then e'.outcome else Success(step.outcome.value + e'.outcome.value)
  {
    var page := replies[0].page;
    var t := page.nextPageToken.value;
    var step := act(page);
    var m := StopIndex(act, replies);
    var m' := StopIndex(act, replies[1..]);
    assert m == 1 + m';
    var pages := PagesOf(replies, m);
    var pages' := PagesOf(replies[1..], m');
    assert pages[1..] == pages';
    PagesTraceCons(coll, q, act, start, pages);
    CollectedCons(act, pages);
    assert TokenBefore(start, pages, m) == TokenBefore(t, pages', m');
    var call := ListRequest(coll, q, start);
    var last := ListRequest(coll, q, TokenBefore(t, pages', m'));
    var head' := PagesTrace(coll, q, act, t, pages') + [last];
    var acc' := Collected(act, pages');
    assert PagesTrace(coll, q, act, start, pages) + [last] == [call] + step.requests + head';
    assert Collected(act, pages) == step.outcome.value + acc';
    assert Expected(coll, q, act, replies, start) == Settle(act, replies, m, [call] + step.requests + head', step.outcome.value + acc');
    assert Expected(coll, q, act, replies[1..], t) == Settle(act, replies[1..], m', head', acc');
    SettleShift(act, replies, m', [call] + step.requests, head', step.outcome.value, acc');
  }

  /** When the first reply does not advance, the walk and its closed form
      both stop at that reply. */
  lemma StopMatchesExpected(coll: Collection, q: string, act: Page -> PageStep, replies: seq<ListReply>, start: string)
    requires |replies| == 0 || !Advances(act, replies[0])
    ensures Walk(coll, q, act, replies, start) == Expected(coll, q, act, replies, start)
  {
    var pages := PagesOf(replies, 0);
    assert pages == [];
    assert PagesTrace(coll, q, act, start, pages) == [];
    assert Collected(act, pages) == [];
    var call := ListRequest(coll, q, start);
    assert Expected(coll, q, act, replies, start) == Settle(act, replies, 0, [call], []);
    if |replies| > 0 && replies[0].Listed? {
      var step := act(replies[0].page);
      if step.outcome.Success? {
        assert [] + step.outcome.value == step.outcome.value;
      }
    }
  }

  /** The recursive walk and its closed form agree on every input: the walk
      lists exactly the pages up to the stop index, handles each in turn,
      and settles as the reply at the stop index dictates. */
  lemma {:induction false} WalkMatchesExpected(coll: Collection, q: string, act: Page -> PageStep, replies: seq<ListReply>, start: string)
    ensures Walk(coll, q, act, replies, start) == Expected(coll, q, act, replies, start)
    decreases |replies|
  {
    if |replies| == 0 || !Advances(act, replies[0]) {
      StopMatchesExpected(coll, q, act, replies, start);
    } else {
      var t := replies[0].page.nextPageToken.value;
      WalkMatchesExpected(coll, q, act, replies[1..], t);
      ExpectedCons(coll, q, act, replies, start);
      var step := act(replies[0].page);
      var rest := Walk(coll, q, act, replies[1..], t);
      assert Walk(coll, q, act, replies, start)
          == Run([ListRequest(coll, q, start)] + step.requests + rest.trace,
                 if rest.outcome.Failure? then rest.outcome else Success(step.outcome.value + rest.outcome.value));
    }
  }

  /** The list calls of a run: the first uses the starting cursor, each later
      one uses exactly the cursor of the page before it, every one asks for
      `MaxResults` items of the same collection with the same query, and
      there is one per reply up to and including the stop index. */
  lemma {:induction false} CursorChain(coll: Collection, q: string, act: Page -> PageStep, replies: seq<ListReply>, start: string)
    requires NeverLists(act)
    ensures var ls := ListCalls(Walk(coll, q, act, replies, start).trace);
      && |ls| == StopIndex(act, replies) + 1
      && ls[0] == ListRequest(coll, q, start)
      && (forall k :: 0 <= k < |ls| ==> ls[k].List? && ls[k] == ListRequest(coll, q, ls[k].pageToken))
      && (forall k :: 0 < k < |ls| ==>
            k <= |replies| && replies[k - 1].Listed? && replies[k - 1].page.nextPageToken == Some(ls[k].pageToken))
    decreases |replies|
  {
    var call := ListRequest(coll, q, start);
    var w := Walk(coll, q, act, replies, start);
    assert [call][1..] == [];
    assert ListCalls([call]) == ListCall(call) + FlatMap(ListCall, []);
    if |replies| == 0 || replies[0].ListFailed? {
      assert w.trace == [call];
    } else {
      var page := replies[0].page;
      var step := act(page);
      NoListCalls(step.requests);
      FlatMapAppend(ListCall, [call], step.requests);
      if !Advances(act, replies[0]) {
        assert w.trace == [call] + step.requests;
      } else {
        var t := page.nextPageToken.value;
        var rest := Walk(coll, q, act, replies[1..], t);
        CursorChain(coll, q, act, replies[1..], t);
        FlatMapAppend(ListCall, [call] + step.requests, rest.trace);
        assert w.trace == [call] + step.requests + rest.trace;
        var ls := ListCalls(w.trace);
        var ls' := ListCalls(rest.trace);
        assert ls == [call] + ls';
        forall k | 1 < k < |ls|
          ensures replies[k - 1].Listed? && replies[k - 1].page.nextPageToken == Some(ls[k].pageToken)
        {
          assert ls[k] == ls'[k - 1];
          assert replies[k - 1] == replies[1..][k - 2];
        }
      }
    }
  }

  /** How a run settles, by the reply at its stop index: it resolves exactly
      when that reply is a page without a cursor whose handling succeeds; it
      runs out of replies exactly when it moves past all of them; and a
      failed list call rejects it with that call's status. */
  lemma {:induction false} StopRule(coll: Collection, q: string, act: Page -> PageStep, rejected: set<Id>, replies: seq<ListReply>, start: string)
    requires StepsFailFast(act, rejected)
    ensures var r := Walk(coll, q, act, replies, start);
      var m := StopIndex(act, replies);
      && (r.outcome.Success? <==>
            m < |replies| && replies[m].Listed? && replies[m].page.nextPageToken.None?
            && act(replies[m].page).outcome.Success?)
      && (r.outcome == Failure(RepliesExhausted) <==> m == |replies|)
      && (r.outcome.Failure? && r.outcome.error.ListError? <==> m < |replies| && replies[m].ListFailed?)
      && (m < |replies| && replies[m].ListFailed? ==> r.outcome == Failure(ListError(replies[m].status)))
  {
    WalkMatchesExpected(coll, q, act, replies, start);
    var m := StopIndex(act, replies);
    if m < |replies| && replies[m].Listed? {
      assert act(replies[m].page).outcome.Failure? ==>
        act(replies[m].page).outcome.error == ThreadsMissing || act(replies[m].page).outcome.error.DeleteRejected?;
    }
  }

  /** Nothing is issued after the first failing call: when a run resolves
      every delete it issued was carried out; when it rejects, every request
      but the last was carried out and the last is the one that failed, a
      refused delete or the list call whose reply ended the run. That every
      list call but the last got a page is `ListCallsGotPages`. */
  lemma {:induction false} FailFast(coll: Collection, q: string, act: Page -> PageStep, rejected: set<Id>, replies: seq<ListReply>, start: string)
    requires StepsFailFast(act, rejected)
    ensures var r := Walk(coll, q, act, replies, start);
      var last := r.trace[|r.trace| - 1];
      && (r.outcome.Success? ==> AllAccepted(r.trace, rejected))
      && (r.outcome.Failure? ==> AllAccepted(r.trace[..|r.trace| - 1], rejected))
      && (r.outcome.Failure? && r.outcome.error.DeleteRejected? ==>
            !last.List? && last.ids == r.outcome.error.ids && !Accepted(last, rejected))
      && (r.outcome.Failure? && !r.outcome.error.DeleteRejected? ==> last.List?)
  {
    WalkMatchesExpected(coll, q, act, replies, start);
    var r := Walk(coll, q, act, replies, start);
    var m := StopIndex(act, replies);
    var pages := PagesOf(replies, m);
    var before := PagesTrace(coll, q, act, start, pages);
    var call := ListRequest(coll, q, TokenBefore(start, pages, m));
    var head := before + [call];
    PagesTraceAccepted(coll, q, act, rejected, start, pages);
    AllAcceptedAppend(before, [call], rejected);
    assert AllAccepted(head, rejected);
    if m == |replies| || replies[m].ListFailed? {
      assert r.trace == head;
      assert r.trace[..|r.trace| - 1] == before;
    } else {
      var step := act(replies[m].page);
      assert r.trace == head + step.requests;
      if step.outcome.Success? {
        AllAcceptedAppend(head, step.requests, rejected);
      } else if step.requests == [] {
        assert r.trace == head;
        assert r.trace[..|r.trace| - 1] == before;
      } else {
        assert RejectedAtLast(step, rejected);
        var n := |step.requests|;
        assert r.trace[..|r.trace| - 1] == head + step.requests[..n - 1];
        AllAcceptedAppend(head, step.requests[..n - 1], rejected);
      }
    }
  }

  /** Every list call of a run but the last was answered with a page: a
      rejected or unanswered list call is always the run's last. */
  lemma ListCallsGotPages(coll: Collection, q: string, act: Page -> PageStep, replies: seq<ListReply>, start: string)
    requires NeverLists(act)
    ensures var ls := ListCalls(Walk(coll, q, act, replies, start).trace);
      forall k :: 0 <= k < |ls| - 1 ==> k < |replies| && replies[k].Listed?
  {
    var ls := ListCalls(Walk(coll, q, act, replies, start).trace);
    CursorChain(coll, q, act, replies, start);
    forall k | 0 <= k < |ls| - 1 ensures k < |replies| && replies[k].Listed? {
      assert 0 < k + 1 < |ls|;
    }
  }

  lemma AllAcceptedAppend(a: seq<Request>, b: seq<Request>, rejected: set<Id>)
    ensures AllAccepted(a + b, rejected) <==> AllAccepted(a, rejected) && AllAccepted(b, rejected)
  {
    if AllAccepted(a, rejected) && AllAccepted(b, rejected) {
      forall i | 0 <= i < |a + b| ensures Accepted((a + b)[i], rejected) {
        if i >= |a| {
          assert (a + b)[i] == b[i - |a|];
        }
      }
    }
    if AllAccepted(a + b, rejected) {
      forall i | 0 <= i < |a| ensures Accepted(a[i], rejected) {
        assert (a + b)[i] == a[i];
      }
      forall i | 0 <= i < |b| ensures Accepted(b[i], rejected) {
        assert (a + b)[|a| + i] == b[i];
      }
    }
  }

  lemma {:induction false} PagesTraceAccepted(coll: Collection, q: string, act: Page -> PageStep, rejected: set<Id>, start: string, pages: seq<Page>)
    requires StepsFailFast(act, rejected)
    requires AllContinue(act, pages)
    ensures AllAccepted(PagesTrace(coll, q, act, start, pages), rejected)
    decreases |pages|
  {
    if |pages| == 0 {
      assert PagesTrace(coll, q, act, start, pages) == [];
    } else {
      var call := ListRequest(coll, q, start);
      var step := act(pages[0]);
      PagesTraceCons(coll, q, act, start, pages);
      PagesTraceAccepted(coll, q, act, rejected, pages[0].nextPageToken.value, pages[1..]);
      AllAcceptedAppend([call], step.requests, rejected);
      AllAcceptedAppend([call] + step.requests, PagesTrace(coll, q, act, pages[0].nextPageToken.value, pages[1..]), rejected);
    }
  }

  /** The service answers the first `|pages|` list calls with `pages`, every
      page but the last carries a cursor, the last carries none, and each
      page is handled without a rejection: a listing that runs to its end. */
  predicate Completes(act: Page -> PageStep, replies: seq<ListReply>, pages: seq<Page>)
  {
    && 0 < |pages| <= |replies|
    && (forall k :: 0 <= k < |pages| ==> replies[k] == Listed(pages[k]))
    && (forall k :: 0 <= k < |pages| - 1 ==> pages[k].nextPageToken.Some?)
    && pages[|pages| - 1].nextPageToken.None?
    && AllHandled(act, pages)
  }

  /** A run that resolves has listed a complete sequence of pages: the pages
      of the replies up to and including its stop index. */
  lemma SuccessCompletes(coll: Collection, q: string, act: Page -> PageStep, replies: seq<ListReply>, start: string)
    ensures var m := StopIndex(act, replies);
      Walk(coll, q, act, replies, start).outcome.Success? ==>
        && m < |replies|
        && (forall k :: 0 <= k <= m ==> replies[k].Listed?)
        && Completes(act, replies, PagesOf(replies, m + 1))
  {
    WalkMatchesExpected(coll, q, act, replies, start);
  }

  /** On a complete listing the walk stops at its last page, issues for each
      page its list call followed by the requests handling that page issued,
      and resolves with what the pages collected, in page order. */
  lemma CompletedWalk(coll: Collection, q: string, act: Page -> PageStep, replies: seq<ListReply>, start: string, pages: seq<Page>)
    requires Completes(act, replies, pages)
    ensures StopIndex(act, replies) == |pages| - 1
    ensures var n := |pages| - 1;
      var w := Walk(coll, q, act, replies, start);
      && w.trace == PagesTrace(coll, q, act, start, pages[..n])
                    + [ListRequest(coll, q, TokenBefore(start, pages, n))]
                    + act(pages[n]).requests
      && w.outcome == Success(Collected(act, pages))
  {
    var n := |pages| - 1;
    var m := StopIndex(act, replies);
    assert m == n;
    assert PagesOf(replies, n) == pages[..n];
    WalkMatchesExpected(coll, q, act, replies, start);
    CollectedSnoc(act, pages);
  }

  lemma CollectedSnoc(act: Page -> PageStep, pages: seq<Page>)
    requires AllHandled(act, pages)
    requires |pages| > 0
    ensures AllHandled(act, pages[..|pages| - 1])
    ensures Collected(act, pages)
         == Collected(act, pages[..|pages| - 1]) + act(pages[|pages| - 1]).outcome.value
  {
    var n := |pages| - 1;
    var front := pages[..n];
    assert AllHandled(act, front) by {
      forall k | 0 <= k < |front| ensures act(front[k]).outcome.Success? {
        assert front[k] == pages[k];
      }
    }
    var s := seq(|pages|, i requires 0 <= i < |pages| => act(pages[i]).outcome.value);
    var s' := seq(|front|, i requires 0 <= i < |front| => act(front[i]).outcome.value);
    assert s == s' + [s[n]];
    FlattenAppend(s', [s[n]]);
    assert Flatten([s[n]]) == s[n];
  }

  /** Projecting the requests of known pages through `f`, which ignores list
      calls, gives the concatenation of the projections of each page's own
      requests, in page order. */
  lemma {:induction false} ProjectPagesTrace<U>(f: Request -> seq<U>, coll: Collection, q: string, act: Page -> PageStep, start: string, pages: seq<Page>)
    requires forall c, q', n, t :: f(List(c, q', n, t)) == []
    requires AllContinue(act, pages)
    ensures FlatMap(f, PagesTrace(coll, q, act, start, pages))
         == Flatten(seq(|pages|, i requires 0 <= i < |pages| => FlatMap(f, act(pages[i]).requests)))
    decreases |pages|
  {
    var s := seq(|pages|, i requires 0 <= i < |pages| => FlatMap(f, act(pages[i]).requests));
    if |pages| == 0 {
      assert PagesTrace(coll, q, act, start, pages) == [];
    } else {
      var call := ListRequest(coll, q, start);
      var step := act(pages[0]);
      var t := pages[0].nextPageToken.value;
      PagesTraceCons(coll, q, act, start, pages);
      ProjectPagesTrace(f, coll, q, act, t, pages[1..]);
      var restTrace := PagesTrace(coll, q, act, t, pages[1..]);
      FlatMapAppend(f, [call], step.requests);
      FlatMapAppend(f, [call] + step.requests, restTrace);
      assert [call][1..] == [];
      assert FlatMap(f, [call]) == f(call) + FlatMap(f, []);
      var s' := seq(|pages| - 1, i requires 0 <= i < |pages| - 1 => FlatMap(f, act(pages[1..][i]).requests));
      assert s[1..] == s';
    }
  }

  lemma FlatMapSkip<T, U>(f: T -> seq<U>, a: seq<T>, x: T, b: seq<T>)
    requires f(x) == []
    ensures FlatMap(f, a + [x] + b) == FlatMap(f, a) + FlatMap(f, b)
  {
    FlatMapAppend(f, a, [x]);
    FlatMapAppend(f, a + [x], b);
    assert [x][1..] == [];
    assert FlatMap(f, [x]) == f(x) + FlatMap(f, []);
  }

  /** On a complete listing, projecting the run's requests through `f`,
      which ignores list calls, gives the concatenation of the projections
      of each page's handling, in page order. */
  lemma ProjectCompletedWalk<U>(f: Request -> seq<U>, coll: Collection, q: string, act: Page -> PageStep, replies: seq<ListReply>, start: string, pages: seq<Page>)
    requires forall c, q', n, t :: f(List(c, q', n, t)) == []
    requires Completes(act, replies, pages)
    ensures FlatMap(f, Walk(coll, q, act, replies, start).trace)
         == Flatten(seq(|pages|, i requires 0 <= i < |pages| => FlatMap(f, act(pages[i]).requests)))
  {
    var n := |pages| - 1;
    var front := pages[..n];
    CompletedWalk(coll, q, act, replies, start, pages);
    assert AllContinue(act, front) by {
      forall k | 0 <= k < |front| ensures Continues(act, front[k]) {
        assert front[k] == pages[k];
      }
    }
    var call := ListRequest(coll, q, TokenBefore(start, pages, n));
    var lastReqs := act(pages[n]).requests;
    var head := PagesTrace(coll, q, act, start, front);
    ProjectPagesTrace(f, coll, q, act, start, front);
    assert Walk(coll, q, act, replies, start).trace == head + [call] + lastReqs;
    FlatMapSkip(f, head, call, lastReqs);
    var s := seq(|pages|, i requires 0 <= i < |pages| => FlatMap(f, act(pages[i]).requests));
    var s' := seq(|front|, i requires 0 <= i < |front| => FlatMap(f, act(front[i]).requests));
    assert s == s' + [FlatMap(f, lastReqs)];
    FlattenAppend(s', [FlatMap(f, lastReqs)]);
    assert Flatten([FlatMap(f, lastReqs)]) == FlatMap(f, lastReqs);
  }

  /** The walk depends on its page action only through the pages it lists:
      two actions that agree on every listed reply give the same run. */
  lemma {:induction false} WalkCongruent(coll: Collection, q: string, act: Page -> PageStep, act': Page -> PageStep,
                                         replies: seq<ListReply>, token: string)
    requires forall k :: 0 <= k < |replies| && replies[k].Listed? ==> act(replies[k].page) == act'(replies[k].page)
    ensures Walk(coll, q, act, replies, token) == Walk(coll, q, act', replies, token)
    decreases |replies|
  {
    if |replies| > 0 && replies[0].Listed? {
      var page := replies[0].page;
      assert act(page) == act'(page);
      if act(page).outcome.Success? && page.nextPageToken.Some? {
        forall k | 0 <= k < |replies[1..]| && replies[1..][k].Listed?
          ensures act(replies[1..][k].page) == act'(replies[1..][k].page)
        {
          assert replies[1..][k] == replies[k + 1];
        }
        WalkCongruent(coll, q, act, act', replies[1..], page.nextPageToken.value);
      }
    }
  }

  /** A rejection that no page step produces, and that is neither a failed
      list call nor running out of replies, never ends a walk. */
  lemma {:induction false} WalkAvoids(coll: Collection, q: string, act: Page -> PageStep, replies: seq<ListReply>,
                                      token: string, e: Error)
    requires e != RepliesExhausted && !e.ListError?
    requires forall page :: act(page).outcome != Failure(e)
    ensures Walk(coll, q, act, replies, token).outcome != Failure(e)
    decreases |replies|
  {
    if |replies| > 0 && replies[0].Listed? {
      var page := replies[0].page;
      assert act(page).outcome != Failure(e);
      if act(page).outcome.Success? && page.nextPageToken.Some? {
        WalkAvoids(coll, q, act, replies[1..], page.nextPageToken.value, e);
      }
    }
  }
}
