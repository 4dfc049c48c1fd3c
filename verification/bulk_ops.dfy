/** The three bulk helpers the console binds to the mail client, each a
    cursor walk over the list endpoint with its own page action, and the
    properties that tie their requests and results to the pages listed. */
module BulkOps {
  import opened Wrappers
  import opened Seqs
  import opened Mailbox
  import opened Pagination
  import opened PageActions

  /** The walk `job` runs for query `q` from cursor `start`. */
  function JobWalk(job: Job, q: string, rejected: set<Id>, replies: seq<ListReply>, start: string): Run<seq<Stub>>
  {
    Walk(Source(job), q, Action(job, rejected), replies, start)
  }

  /** `batchDeleteMessages(gmail)(q)`: walk the messages matching `q` from the
      empty cursor, batch-deleting each non-empty page; resolves to nothing. */
  function BatchDeleteMessages(svc: Service, q: string): (r: Run<()>)
    ensures |r.trace| > 0 && r.trace[0] == List(Messages, q, MaxResults, "")
    ensures r.outcome != Failure(ThreadsMissing)
  {
    var w := JobWalk(DeleteMessages, q, svc.rejected, svc.replies, "");
    AbsentItemsRule(DeleteMessages, q, svc.rejected, svc.replies, "");
    Run(w.trace, if w.outcome.Success? then Success(()) else Failure(w.outcome.error))
  }

  /** `bulkDeleteThreads(gmail)(q)`: walk the threads matching `q` from the
      empty cursor, deleting each page's threads in groups of at most ten. */
  function BulkDeleteThreads(svc: Service, q: string): (r: Run<()>)
    ensures |r.trace| > 0 && r.trace[0] == List(Threads, q, MaxResults, "")
  {
    var w := JobWalk(DeleteThreads, q, svc.rejected, svc.replies, "");
    Run(w.trace, if w.outcome.Success? then Success(()) else Failure(w.outcome.error))
  }

  /** `bulkCollectThreads(gmail)(q)`: walk the threads matching `q` from the
      empty cursor and resolve to every page's threads. */
  function BulkCollectThreads(svc: Service, q: string): (r: Run<seq<Stub>>)
    ensures |r.trace| > 0 && r.trace[0] == List(Threads, q, MaxResults, "")
  {
    JobWalk(CollectThreads, q, svc.rejected, svc.replies, "")
  }

  /** The `messages` field may be absent, the `threads` field may not: a
      thread walk rejects with `ThreadsMissing` exactly when the reply at its
      stop index is a page without the field, it moves past no such page,
      and the message walk never rejects that way. */
  lemma AbsentItemsRule(job: Job, q: string, rejected: set<Id>, replies: seq<ListReply>, start: string)
    ensures var r := JobWalk(job, q, rejected, replies, start);
      var m := StopIndex(Action(job, rejected), replies);
      && (r.outcome == Failure(ThreadsMissing) <==>
            job != DeleteMessages && m < |replies| && replies[m].Listed? && replies[m].page.items.None?)
      && (job != DeleteMessages ==> forall k :: 0 <= k < m ==> replies[k].page.items.Some?)
  {
    var act := Action(job, rejected);
    WalkMatchesExpected(Source(job), q, act, replies, start);
    var m := StopIndex(act, replies);
    if m < |replies| && replies[m].Listed? {
      HandleFailsFast(job, rejected, replies[m].page);
    }
    forall k | 0 <= k < m && job != DeleteMessages
      ensures replies[k].page.items.Some?
    {
      assert Advances(act, replies[k]);
      assert Handle(job, rejected, replies[k].page).outcome.Success?;
    }
  }

  /** A page that lists nothing but carries a cursor does not end a walk, nor
      does a message page without a `messages` field: after `k + 1` such
      replies the walk lists at least once more. */
  lemma EmptyPagesContinue(job: Job, q: string, rejected: set<Id>, replies: seq<ListReply>, start: string, k: nat)
    requires k < |replies|
    requires forall j :: 0 <= j <= k ==>
      && replies[j].Listed?
      && replies[j].page.nextPageToken.Some?
      && (replies[j].page.items == Some([]) || (job == DeleteMessages && replies[j].page.items.None?))
    ensures |ListCalls(JobWalk(job, q, rejected, replies, start).trace)| >= k + 2
  {
    var act := Action(job, rejected);
    forall j | 0 <= j <= k ensures Advances(act, replies[j]) {
      var page := replies[j].page;
      assert PageIds(page) == [];
      if job == DeleteThreads {
        assert Chunks(PageIds(page), ThreadGroupSize) == [];
      }
    }
    ActionFailsFast(job, rejected);
    CursorChain(Source(job), q, act, replies, start);
  }

  lemma MessagesPageProjections(page: Page, rejected: set<Id>)
    ensures var reqs := DeleteMessagesPage(page, rejected).requests;
      && FlatMap(MutationCall, reqs) == (if PageIds(page) == [] then [] else [BatchDelete(PageIds(page))])
      && FlatMap(IdsOf, reqs) == PageIds(page)
  {
  }

  /** On a complete listing, `batchDeleteMessages` resolves after issuing one
      batch delete per page whose `messages` field is present and non-empty,
      naming that page's ids in order, and none for the other pages; so every
      listed message is asked to be deleted once. */
  lemma MessagesBatchPerPage(svc: Service, q: string, pages: seq<Page>)
    requires Completes(Action(DeleteMessages, svc.rejected), svc.replies, pages)
    ensures var r := BatchDeleteMessages(svc, q);
      && r.outcome == Success(())
      && Mutations(r.trace) == Flatten(seq(|pages|, i requires 0 <= i < |pages| =>
           if PageIds(pages[i]) == [] then [] else [BatchDelete(PageIds(pages[i]))]))
      && DeletedIds(r.trace) == Flatten(seq(|pages|, i requires 0 <= i < |pages| => PageIds(pages[i])))
  {
    var rejected := svc.rejected;
    var act := Action(DeleteMessages, rejected);
    var w := JobWalk(DeleteMessages, q, rejected, svc.replies, "");
    var batches := seq(|pages|, i requires 0 <= i < |pages| =>
      if PageIds(pages[i]) == [] then [] else [BatchDelete(PageIds(pages[i]))]);
    var pageIds := seq(|pages|, i requires 0 <= i < |pages| => PageIds(pages[i]));
    assert w.outcome.Success? by {
      CompletedWalk(Messages, q, act, svc.replies, "", pages);
    }
    assert Mutations(w.trace) == Flatten(batches) by {
      ProjectCompletedWalk(MutationCall, Messages, q, act, svc.replies, "", pages);
      var muts := seq(|pages|, i requires 0 <= i < |pages| => FlatMap(MutationCall, act(pages[i]).requests));
      forall i | 0 <= i < |pages| ensures muts[i] == batches[i] {
        MessagesPageProjections(pages[i], rejected);
      }
      assert muts == batches;
    }
    assert DeletedIds(w.trace) == Flatten(pageIds) by {
      ProjectCompletedWalk(IdsOf, Messages, q, act, svc.replies, "", pages);
      var ids := seq(|pages|, i requires 0 <= i < |pages| => FlatMap(IdsOf, act(pages[i]).requests));
      forall i | 0 <= i < |pages| ensures ids[i] == pageIds[i] {
        MessagesPageProjections(pages[i], rejected);
      }
      assert ids == pageIds;
    }
  }

  lemma ThreadsPageProjections(page: Page, rejected: set<Id>)
    requires DeleteThreadsPage(page, rejected).outcome.Success?
    ensures var reqs := DeleteThreadsPage(page, rejected).requests;
      && FlatMap(MutationCall, reqs) == GroupRequests(Chunks(PageIds(page), ThreadGroupSize))
      && FlatMap(IdsOf, reqs) == PageIds(page)
  {
    DeleteThreadsPageSpec(page, rejected);
    OnlyMutations(DeleteThreadsPage(page, rejected).requests);
  }

  /** On a complete listing, `bulkDeleteThreads` resolves after issuing, page
      by page, the front-first groups of at most ten of that page's thread
      ids, and no other delete. */
  lemma ThreadsDeletedInGroups(svc: Service, q: string, pages: seq<Page>)
    requires Completes(Action(DeleteThreads, svc.rejected), svc.replies, pages)
    ensures var r := BulkDeleteThreads(svc, q);
      && r.outcome == Success(())
      && Mutations(r.trace) == Flatten(seq(|pages|, i requires 0 <= i < |pages| =>
           GroupRequests(Chunks(PageIds(pages[i]), ThreadGroupSize))))
  {
    var rejected := svc.rejected;
    var act := Action(DeleteThreads, rejected);
    var w := JobWalk(DeleteThreads, q, rejected, svc.replies, "");
    var groups := seq(|pages|, i requires 0 <= i < |pages| => GroupRequests(Chunks(PageIds(pages[i]), ThreadGroupSize)));
    assert w.outcome.Success? by {
      CompletedWalk(Threads, q, act, svc.replies, "", pages);
    }
    assert Mutations(w.trace) == Flatten(groups) by {
      ProjectCompletedWalk(MutationCall, Threads, q, act, svc.replies, "", pages);
      var muts := seq(|pages|, i requires 0 <= i < |pages| => FlatMap(MutationCall, act(pages[i]).requests));
      forall i | 0 <= i < |pages| ensures muts[i] == groups[i] {
        assert act(pages[i]).outcome.Success?;
        ThreadsPageProjections(pages[i], rejected);
      }
      assert muts == groups;
    }
  }

  /** On a complete listing, `bulkDeleteThreads` asks to delete every listed
      thread exactly once, in listing order. */
  lemma EveryThreadDeletedOnce(svc: Service, q: string, pages: seq<Page>)
    requires Completes(Action(DeleteThreads, svc.rejected), svc.replies, pages)
    ensures DeletedIds(BulkDeleteThreads(svc, q).trace)
         == Flatten(seq(|pages|, i requires 0 <= i < |pages| => PageIds(pages[i])))
  {
    var rejected := svc.rejected;
    var act := Action(DeleteThreads, rejected);
    var w := JobWalk(DeleteThreads, q, rejected, svc.replies, "");
    var pageIds := seq(|pages|, i requires 0 <= i < |pages| => PageIds(pages[i]));
    ProjectCompletedWalk(IdsOf, Threads, q, act, svc.replies, "", pages);
    var ids := seq(|pages|, i requires 0 <= i < |pages| => FlatMap(IdsOf, act(pages[i]).requests));
    forall i | 0 <= i < |pages| ensures ids[i] == pageIds[i] {
      assert act(pages[i]).outcome.Success?;
      ThreadsPageProjections(pages[i], rejected);
    }
    assert ids == pageIds;
  }

  /** On a complete listing, `bulkCollectThreads` issues only list calls, one
      per page, and resolves to the concatenation of every page's threads in
      page order, duplicates kept. */
  lemma CollectReturnsAllThreads(svc: Service, q: string, pages: seq<Page>)
    requires Completes(Action(CollectThreads, svc.rejected), svc.replies, pages)
    ensures var r := BulkCollectThreads(svc, q);
      && Mutations(r.trace) == []
      && |ListCalls(r.trace)| == |pages|
      && r.outcome == Success(Flatten(seq(|pages|, i requires 0 <= i < |pages| => PageStubs(pages[i]))))
  {
    var rejected := svc.rejected;
    var act := Action(CollectThreads, rejected);
    var w := JobWalk(CollectThreads, q, rejected, svc.replies, "");
    assert |ListCalls(w.trace)| == |pages| by {
      CompletedWalk(Threads, q, act, svc.replies, "", pages);
      ActionFailsFast(CollectThreads, rejected);
      CursorChain(Threads, q, act, svc.replies, "");
    }
    assert w.outcome == Success(Flatten(seq(|pages|, i requires 0 <= i < |pages| => PageStubs(pages[i])))) by {
      CompletedWalk(Threads, q, act, svc.replies, "", pages);
      var s := seq(|pages|, i requires 0 <= i < |pages| => act(pages[i]).outcome.value);
      var s' := seq(|pages|, i requires 0 <= i < |pages| => PageStubs(pages[i]));
      assert s == s';
    }
    assert Mutations(w.trace) == [] by {
      ProjectCompletedWalk(MutationCall, Threads, q, act, svc.replies, "", pages);
      var e := seq(|pages|, i requires 0 <= i < |pages| => FlatMap(MutationCall, act(pages[i]).requests));
      FlattenEmpty(e);
    }
  }

  /** `bulkDeleteThreads` with the message helper's guard: a page without a
      `threads` field deletes nothing and the walk goes on. */
  function GuardedDeleteThreads(svc: Service, q: string): (r: Run<()>)
    ensures |r.trace| > 0 && r.trace[0] == List(Threads, q, MaxResults, "")
    ensures r.outcome != Failure(ThreadsMissing)
  {
    var w := Walk(Threads, q, GuardedAction(DeleteThreads, svc.rejected), svc.replies, "");
    GuardedNeverMissing(DeleteThreads, q, svc.rejected, svc.replies);
    Run(w.trace, if w.outcome.Success? then Success(()) else Failure(w.outcome.error))
  }

  /** `bulkCollectThreads` with the message helper's guard: a page without a
      `threads` field contributes no threads and the walk goes on. */
  function GuardedCollectThreads(svc: Service, q: string): (r: Run<seq<Stub>>)
    ensures |r.trace| > 0 && r.trace[0] == List(Threads, q, MaxResults, "")
    ensures r.outcome != Failure(ThreadsMissing)
  {
    GuardedNeverMissing(CollectThreads, q, svc.rejected, svc.replies);
    Walk(Threads, q, GuardedAction(CollectThreads, svc.rejected), svc.replies, "")
  }

  lemma GuardedNeverMissing(job: Job, q: string, rejected: set<Id>, replies: seq<ListReply>)
    ensures Walk(Threads, q, GuardedAction(job, rejected), replies, "").outcome != Failure(ThreadsMissing)
  {
    forall page ensures GuardedAction(job, rejected)(page).outcome != Failure(ThreadsMissing) {
      GuardedHandle(job, rejected, page);
    }
    WalkAvoids(Threads, q, GuardedAction(job, rejected), replies, "", ThreadsMissing);
  }

  /** The guarded thread helpers differ from the helpers as written only on
      services that omit `threads`: when every listed page carries the field,
      both issue the same requests and settle the same way. */
  lemma GuardedAgrees(svc: Service, q: string)
    requires forall k :: 0 <= k < |svc.replies| && svc.replies[k].Listed? ==> svc.replies[k].page.items.Some?
    ensures GuardedDeleteThreads(svc, q) == BulkDeleteThreads(svc, q)
    ensures GuardedCollectThreads(svc, q) == BulkCollectThreads(svc, q)
  {
    GuardedWalkAgrees(DeleteThreads, q, svc.rejected, svc.replies);
    GuardedWalkAgrees(CollectThreads, q, svc.rejected, svc.replies);
  }

  lemma GuardedWalkAgrees(job: Job, q: string, rejected: set<Id>, replies: seq<ListReply>)
    requires forall k :: 0 <= k < |replies| && replies[k].Listed? ==> replies[k].page.items.Some?
    ensures Walk(Threads, q, GuardedAction(job, rejected), replies, "") == Walk(Threads, q, Action(job, rejected), replies, "")
  {
    forall k | 0 <= k < |replies| && replies[k].Listed?
      ensures GuardedAction(job, rejected)(replies[k].page) == Action(job, rejected)(replies[k].page)
    {
      GuardedHandle(job, rejected, replies[k].page);
    }
    WalkCongruent(Threads, q, GuardedAction(job, rejected), Action(job, rejected), replies, "");
  }

  /** A query that matches nothing: the service answers the first list call
      with a body that has neither `threads` (nor `messages`) nor a cursor.
      The message helper resolves, both thread helpers as written reject, and
      their guarded versions resolve having deleted and collected nothing. */
  lemma EmptyResultRejects(q: string)
    ensures var svc := Service([Listed(Page(None, None))], {});
      && BatchDeleteMessages(svc, q) == Run([List(Messages, q, MaxResults, "")], Success(()))
      && BulkDeleteThreads(svc, q) == Run([List(Threads, q, MaxResults, "")], Failure(ThreadsMissing))
      && BulkCollectThreads(svc, q) == Run([List(Threads, q, MaxResults, "")], Failure(ThreadsMissing))
      && GuardedDeleteThreads(svc, q) == Run([List(Threads, q, MaxResults, "")], Success(()))
      && GuardedCollectThreads(svc, q) == Run([List(Threads, q, MaxResults, "")], Success([]))
  {
    var svc := Service([Listed(Page(None, None))], {});
    assert svc.replies[1..] == [];
  }
}
