/** The data the three bulk helpers exchange with the mail service: list
    responses, the requests they issue, and the errors that reject them.
    The service itself is abstracted as the replies it gives to successive
    list calls and the set of ids whose deletion it refuses. */
module Mailbox {
  import opened Wrappers
  import opened Seqs

  type Id = string

  /** A message or thread as a list call returns it: its id, which the
      deleting helpers use, and its other fields (such as `snippet` or
      `historyId`), which the collecting helper hands back unchanged. */
  datatype Stub = Stub(id: Id, fields: map<string, string>)

  /** One list response body. `items` is the `messages` or `threads` field and
      `nextPageToken` the cursor; either may be absent. */
  datatype Page = Page(items: Option<seq<Stub>>, nextPageToken: Option<string>)

  /** What one list call settles to: a page, or a rejected request. */
  datatype ListReply = Listed(page: Page) | ListFailed(status: int)

  /** The remote mailbox as seen by one bulk run: the reply to the k-th list
      call is `replies[k]`, and a delete request is refused exactly when it
      names an id in `rejected`, whatever was issued before it. */
  datatype Service = Service(replies: seq<ListReply>, rejected: set<Id>)

  datatype Collection = Messages | Threads

  /** A request issued to the service. `DeleteThreadGroup` stands for the
      up-to-ten single-thread deletes dispatched together and awaited as one. */
  datatype Request =
    | List(collection: Collection, q: string, maxResults: int, pageToken: string)
    | BatchDelete(ids: seq<Id>)
    | DeleteThreadGroup(ids: seq<Id>)

  /** Why a bulk run rejects: a list call failed, a delete was refused, a
      thread page had no `threads` field (a TypeError in the helper), or the
      modelled service has no reply left for a list call. */
  datatype Error =
    | ListError(status: int)
    | DeleteRejected(ids: seq<Id>)
    | ThreadsMissing
    | RepliesExhausted

  /** The requests a run issued, in order, and what it settled to. */
  datatype Run<T> = Run(trace: seq<Request>, outcome: Result<T, Error>)

  /** Page size asked of every list call. */
  const MaxResults: int := 500

  /** Number of thread deletes awaited together. */
  const ThreadGroupSize: nat := 10

  /** The list request every helper issues for one page. */
  function ListRequest(collection: Collection, q: string, token: string): Request
  {
    List(collection, q, MaxResults, token)
  }

  function Ids(stubs: seq<Stub>): (ids: seq<Id>)
    ensures |ids| == |stubs|
    ensures forall i :: 0 <= i < |stubs| ==> ids[i] == stubs[i].id
  {
    seq(|stubs|, i requires 0 <= i < |stubs| => stubs[i].id)
  }

  /** The ids a page lists, an absent field read as no ids. */
  function PageIds(page: Page): seq<Id>
  {
    if page.items.Some? then Ids(page.items.value) else []
  }

  /** The stubs a page lists, an absent field read as none. */
  function PageStubs(page: Page): seq<Stub>
  {
    if page.items.Some? then page.items.value else []
  }

  /** Some id in `ids` is one the service refuses to delete. */
  predicate Refused(ids: seq<Id>, rejected: set<Id>)
  {
    exists i :: 0 <= i < |ids| && ids[i] in rejected
  }

  /** A request the service carries out. List requests are judged by their
      replies instead, so they count as accepted here. */
  predicate Accepted(req: Request, rejected: set<Id>)
  {
    req.List? || !Refused(req.ids, rejected)
  }

  function ListCall(req: Request): seq<Request>
  {
    if req.List? then [req] else []
  }

  function MutationCall(req: Request): seq<Request>
  {
    if req.List? then [] else [req]
  }

  function IdsOf(req: Request): seq<Id>
  {
    if req.List? then [] else req.ids
  }

  /** The list requests of a trace, in order. */
  function ListCalls(trace: seq<Request>): seq<Request>
  {
    FlatMap(ListCall, trace)
  }

  /** The delete requests of a trace, in order. */
  function Mutations(trace: seq<Request>): seq<Request>
  {
    FlatMap(MutationCall, trace)
  }

  /** Every id a trace asks to delete, in request order. */
  function DeletedIds(trace: seq<Request>): seq<Id>
  {
    FlatMap(IdsOf, trace)
  }

  lemma {:induction false} RefusedAppend(a: seq<Id>, b: seq<Id>, rejected: set<Id>)
    ensures Refused(a + b, rejected) <==> Refused(a, rejected) || Refused(b, rejected)
  {
    if Refused(a + b, rejected) {
      var i :| 0 <= i < |a + b| && (a + b)[i] in rejected;
      if i < |a| {
        assert a[i] in rejected;
      } else {
        assert b[i - |a|] in rejected;
      }
    }
    if Refused(a, rejected) {
      var i :| 0 <= i < |a| && a[i] in rejected;
      assert (a + b)[i] in rejected;
    }
    if Refused(b, rejected) {
      var i :| 0 <= i < |b| && b[i] in rejected;
      assert (a + b)[|a| + i] in rejected;
    }
  }

  /** A concatenation of groups holds a refused id exactly when one of the groups does. */
  lemma {:induction false} RefusedFlatten(groups: seq<seq<Id>>, rejected: set<Id>)
    ensures Refused(Flatten(groups), rejected) <==> exists i :: 0 <= i < |groups| && Refused(groups[i], rejected)
    decreases |groups|
  {
    if |groups| > 0 {
      RefusedAppend(groups[0], Flatten(groups[1..]), rejected);
      RefusedFlatten(groups[1..], rejected);
      if exists i :: 0 <= i < |groups| && Refused(groups[i], rejected) {
        var i :| 0 <= i < |groups| && Refused(groups[i], rejected);
        if i > 0 {
          assert groups[1..][i - 1] == groups[i];
        }
      }
      if exists i :: 0 <= i < |groups[1..]| && Refused(groups[1..][i], rejected) {
        var i :| 0 <= i < |groups[1..]| && Refused(groups[1..][i], rejected);
        assert groups[i + 1] == groups[1..][i];
      }
    }
  }

  lemma {:induction false} NoListCalls(reqs: seq<Request>)
    requires forall i :: 0 <= i < |reqs| ==> !reqs[i].List?
    ensures ListCalls(reqs) == []
    decreases |reqs|
  {
    if |reqs| > 0 {
      NoListCalls(reqs[1..]);
    }
  }

  lemma {:induction false} OnlyMutations(reqs: seq<Request>)
    requires forall i :: 0 <= i < |reqs| ==> !reqs[i].List?
    ensures Mutations(reqs) == reqs
    decreases |reqs|
  {
    if |reqs| > 0 {
      OnlyMutations(reqs[1..]);
      assert reqs == [reqs[0]] + reqs[1..];
    }
  }
}
