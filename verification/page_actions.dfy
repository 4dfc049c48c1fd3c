/** What each helper does with one list response: one bulk delete of the
    page's message ids, sequential groups of up to ten thread deletes, or
    appending the page's threads to the collected list. */
module PageActions {
  import opened Wrappers
  import opened Seqs
  import opened Mailbox
  import opened Pagination

  /** The three helpers, by what they do with a page. */
  datatype Job = DeleteMessages | DeleteThreads | CollectThreads

  /** The collection a job lists. */
  function Source(job: Job): Collection
  {
    if job == DeleteMessages then Messages else Threads
  }

  /** One page of `batchDeleteMessages`: a single batch delete of the page's
      message ids when the `messages` field is present and non-empty. */
  function DeleteMessagesPage(page: Page, rejected: set<Id>): (step: PageStep)
    ensures PageIds(page) == [] ==> step == PageStep([], Success([]))
    ensures PageIds(page) != [] ==> step.requests == [BatchDelete(PageIds(page))]
    ensures step.outcome.Success? <==> !Refused(PageIds(page), rejected)
    ensures step.outcome == Success([]) || step.outcome == Failure(DeleteRejected(PageIds(page)))
  {
    if page.items.Some? && |page.items.value| > 0 then
      var ids := Ids(page.items.value);
      PageStep([BatchDelete(ids)], if Refused(ids, rejected) then Failure(DeleteRejected(ids)) else Success([]))
    else
      PageStep([], Success([]))
  }

  /** One `DeleteThreadGroup` request per group, in order. */
  function GroupRequests(groups: seq<seq<Id>>): (reqs: seq<Request>)
    ensures |reqs| == |groups|
    ensures forall i :: 0 <= i < |groups| ==> reqs[i] == DeleteThreadGroup(groups[i])
  {
    seq(|groups|, i requires 0 <= i < |groups| => DeleteThreadGroup(groups[i]))
  }

  lemma {:induction false} GroupRequestsDelete(groups: seq<seq<Id>>)
    ensures DeletedIds(GroupRequests(groups)) == Flatten(groups)
    decreases |groups|
  {
    if |groups| > 0 {
      assert GroupRequests(groups)[1..] == GroupRequests(groups[1..]);
      GroupRequestsDelete(groups[1..]);
    }
  }

  /** Issues the groups one after another, each awaited before the next; the
      first refused group rejects and nothing after it is issued. */
  function DeleteGroups(groups: seq<seq<Id>>, rejected: set<Id>): (step: PageStep)
    ensures step.outcome.Success? <==> forall i :: 0 <= i < |groups| ==> !Refused(groups[i], rejected)
    ensures step.outcome.Success? ==> step == PageStep(GroupRequests(groups), Success([]))
    ensures step.outcome.Failure? ==>
      && 0 < |step.requests| <= |groups|
      && (forall i :: 0 <= i < |step.requests| ==> step.requests[i] == DeleteThreadGroup(groups[i]))
      && (forall i :: 0 <= i < |step.requests| - 1 ==> !Refused(groups[i], rejected))
      && Refused(groups[|step.requests| - 1], rejected)
      && step.outcome.error == DeleteRejected(groups[|step.requests| - 1])
    decreases |groups|
  {
    if |groups| == 0 then PageStep([], Success([]))
    else if Refused(groups[0], rejected) then
      PageStep([DeleteThreadGroup(groups[0])], Failure(DeleteRejected(groups[0])))
    else
      var rest := DeleteGroups(groups[1..], rejected);
      assert forall i :: 1 <= i < |groups| ==> groups[i] == groups[1..][i - 1];
      PageStep([DeleteThreadGroup(groups[0])] + rest.requests, rest.outcome)
  }

  /** One page of `bulkDeleteThreads`: the page's threads consumed front-first
      in groups of at most ten. An absent `threads` field rejects the run. */
  function DeleteThreadsPage(page: Page, rejected: set<Id>): PageStep
  {
    match page.items
    case None => PageStep([], Failure(ThreadsMissing))
    case Some(threads) => DeleteGroups(Chunks(Ids(threads), ThreadGroupSize), rejected)
  }

  /** A thread page without a `threads` field rejects before any delete. With
      the field, the page is handled without a rejection exactly when none of
      its threads is refused; it then issued the groups of its ids in order,
      every group of one to ten ids and all but the last of exactly ten, so
      each thread of the page was asked to be deleted once. Otherwise the
      last group it issued is the refused one. */
  lemma DeleteThreadsPageSpec(page: Page, rejected: set<Id>)
    ensures var step := DeleteThreadsPage(page, rejected);
      && (page.items.None? ==> step == PageStep([], Failure(ThreadsMissing)))
      && (page.items.Some? ==> (step.outcome.Success? <==> !Refused(PageIds(page), rejected)))
      && (step.outcome.Success? ==>
            && step.outcome.value == []
            && step.requests == GroupRequests(Chunks(PageIds(page), ThreadGroupSize))
            && DeletedIds(step.requests) == PageIds(page)
            && (forall i :: 0 <= i < |step.requests| ==>
                  step.requests[i].DeleteThreadGroup? && 0 < |step.requests[i].ids| <= ThreadGroupSize)
            && (forall i :: 0 <= i < |step.requests| - 1 ==> |step.requests[i].ids| == ThreadGroupSize))
      && (page.items.Some? && step.outcome.Failure? ==> RejectedAtLast(step, rejected))
  {
    if page.items.Some? {
      var groups := Chunks(PageIds(page), ThreadGroupSize);
      RefusedFlatten(groups, rejected);
      GroupRequestsDelete(groups);
    }
  }

  /** One page of `bulkCollectThreads`: the page's threads, or a rejection when
      the `threads` field is absent. */
  function CollectThreadsPage(page: Page): (step: PageStep)
    ensures step.requests == []
    ensures step.outcome.Success? <==> page.items.Some?
    ensures page.items.Some? ==> step.outcome.value == page.items.value
    ensures step.outcome.Failure? ==> step.outcome.error == ThreadsMissing
  {
    match page.items
    case None => PageStep([], Failure(ThreadsMissing))
    case Some(threads) => PageStep([], Success(threads))
  }

  /** The handling of one page by `job`. */
  function Handle(job: Job, rejected: set<Id>, page: Page): PageStep
  {
    match job
    case DeleteMessages => DeleteMessagesPage(page, rejected)
    case DeleteThreads => DeleteThreadsPage(page, rejected)
    case CollectThreads => CollectThreadsPage(page)
  }

  /** Handling a page never lists; when it succeeds every delete it issued
      was carried out, and when it fails the last request it issued (if
      any) is the one that was refused. */
  lemma HandleFailsFast(job: Job, rejected: set<Id>, page: Page)
    ensures var step := Handle(job, rejected, page);
      && (forall i :: 0 <= i < |step.requests| ==> !step.requests[i].List?)
      && (step.outcome.Success? ==> AllAccepted(step.requests, rejected))
      && (step.outcome.Failure? ==>
            || (step.outcome.error == ThreadsMissing && step.requests == [] && job != DeleteMessages)
            || RejectedAtLast(step, rejected))
  {
    match job
    case DeleteMessages =>
    case DeleteThreads => DeleteThreadsPageSpec(page, rejected);
    case CollectThreads =>
  }

  /** `job`'s page action, as the walk takes it. */
  function Action(job: Job, rejected: set<Id>): Page -> PageStep
  {
    page => Handle(job, rejected, page)
  }

  lemma ActionFailsFast(job: Job, rejected: set<Id>)
    ensures StepsFailFast(Action(job, rejected), rejected)
  {
    forall page {
      HandleFailsFast(job, rejected, page);
    }
  }

  /** `job`'s page action with a missing item field read as an empty list,
      the guard the message helper applies at its `messages` check. */
  function GuardedAction(job: Job, rejected: set<Id>): Page -> PageStep
  {
    (page: Page) => Handle(job, rejected, page.(items := Some(PageStubs(page))))
  }

  /** The guarded action handles a page that has its item field exactly as
      the helper does, handles a page without it as an empty page, and never
      rejects for a missing field. */
  lemma GuardedHandle(job: Job, rejected: set<Id>, page: Page)
    ensures page.items.Some? ==> GuardedAction(job, rejected)(page) == Action(job, rejected)(page)
    ensures page.items.None? ==>
      GuardedAction(job, rejected)(page) == Action(job, rejected)(page.(items := Some([])))
    ensures GuardedAction(job, rejected)(page).outcome != Failure(ThreadsMissing)
  {
    var page' := page.(items := Some(PageStubs(page)));
    if job == DeleteThreads {
      DeleteThreadsPageSpec(page', rejected);
    }
  }
}
