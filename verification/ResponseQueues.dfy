/** detail::response_queue of include/corosh/sftp.hpp, exactly as written.

    The list is intrusive. Enqueueing never sets `prev`, and completing never unlinks a record
    nor advances `first`: it only clears `last` when the completed record is the last one. The
    value-level Queue records what that amounts to: the records reachable from `first`, and
    whether `last` is set. The class refines it; RequestHistory says when this is as good as
    the queue of pending requests it is meant to be, and when it is not. */
module ResponseQueues {
  import opened Wire
  import opened Cursors
  import opened Framing

  datatype Queue<T> = Queue(chain: seq<T>, open: bool)

  function Enqueue<T>(q: Queue<T>, r: T): (q': Queue<T>) {
    Queue(if q.open then q.chain + [r] else [r], true)
  }

  /** The search loop of `complete`: the first position that carries the id. */
  function FindId(ids: seq<u32>, id: u32): (k: Option<nat>)
    ensures k.Some? ==> k.value < |ids| && ids[k.value] == id && id !in ids[..k.value]
    ensures k.None? ==> id !in ids
  {
    if ids == [] then None
    else if ids[0] == id then Some(0)
    else
      match FindId(ids[1..], id)
      case Some(k) => Some(k + 1)
      case None => None
  }

  lemma FindIdIs(ids: seq<u32>, id: u32, k: nat)
    requires k < |ids| && ids[k] == id && id !in ids[..k]
    ensures FindId(ids, id) == Some(k)
  {
  }

  /** What completing the record at position k does to the list. */
  function CompleteAt<T>(q: Queue<T>, k: nat): (q': Queue<T>)
    requires k < |q.chain|
  {
    q.(open := q.open && k != |q.chain| - 1)
  }

  // ----- the linked structure

  datatype Completion = Completion(ec: Error, tp: byte, payload: bytes)

  class Response {
    const requestId: u32
    var prev: Response?
    var next: Response?
    /** every call of the virtual `complete`, in order */
    var log: seq<Completion>

    constructor (id: u32)
      ensures requestId == id && prev == null && next == null && log == []
    {
      requestId := id;
      prev, next, log := null, null, [];
    }

    method Complete(c: Completion)
      modifies this`log
      ensures log == old(log) + [c]
    {
      log := log + [c];
    }
  }

  function Ids(nodes: seq<Response>): (ids: seq<u32>)
    ensures |ids| == |nodes|
    ensures forall i | 0 <= i < |nodes| :: ids[i] == nodes[i].requestId
  {
    if nodes == [] then [] else [nodes[0].requestId] + Ids(nodes[1..])
  }

  function At(nodes: seq<Response>, i: nat): (r: Response?) {
    if i < |nodes| then nodes[i] else null
  }

  ghost predicate Distinct(nodes: seq<Response>) {
    forall i, j | 0 <= i < |nodes| && 0 <= j < |nodes| && i != j :: nodes[i] != nodes[j]
  }

  lemma Shifted(nodes: seq<Response>)
    requires nodes != [] && Distinct(nodes)
    ensures Distinct(nodes[1..])
    ensures nodes[0] !in nodes[1..] && forall r <- nodes :: r == nodes[0] || r in nodes[1..]
    ensures forall i {:trigger nodes[1..][i]} | 0 <= i < |nodes[1..]| :: nodes[1..][i] == nodes[i + 1]
    ensures forall i: nat {:trigger At(nodes[1..], i)} :: At(nodes[1..], i) == At(nodes, i + 1)
  {
  }

  class ResponseQueue {
    var first: Response?
    var last: Response?
    var requestIdGen: u32
    /** the records reachable from `first`, in order */
    ghost var nodes: seq<Response>

    ghost predicate Linked()
      reads this, nodes
    {
      && first == At(nodes, 0)
      && (forall i {:trigger nodes[i]} | 0 <= i < |nodes| ::
            nodes[i].prev == null && nodes[i].next == At(nodes, i + 1))
      && Distinct(nodes)
    }

    ghost predicate Valid()
      reads this, nodes
    {
      && Linked()
      && (last != null ==> nodes != [] && last == nodes[|nodes| - 1])
    }

    ghost function View(): (q: Queue<Response>)
      reads this
    {
      Queue(nodes, last != null)
    }

    constructor ()
      ensures Valid() && View() == Queue([], false) && requestIdGen == 0
    {
      first, last, requestIdGen, nodes := null, null, 0, [];
    }

    method GetRequestId() returns (id: u32)
      modifies this`requestIdGen
      ensures id == old(requestIdGen) && requestIdGen == Narrow(id + 1)
    {
      id := requestIdGen;
      requestIdGen := Narrow(requestIdGen + 1);
    }

    method EnqueueResponse(res: Response)
      requires Valid() && res !in nodes && res.prev == null && res.next == null
      modifies this`first, this`last, this`nodes, last
      ensures Valid() && View() == Enqueue(old(View()), res)
      ensures forall r <- nodes :: r.log == old(r.log)
    {
      if last == null {
        first, last := res, res;
        nodes := [res];
      } else {
        last.next := res;
        last := res;
        nodes := nodes + [res];
      }
    }

    /** The record found gets one more completion; no link changes. */
    method Complete(requestId: u32, c: Completion) returns (found: bool)
      requires Valid()
      modifies this`last, nodes`log
      ensures Valid() && found == FindId(Ids(nodes), requestId).Some?
      ensures match FindId(Ids(old(nodes)), requestId)
        case None => View() == old(View()) && forall r <- nodes :: r.log == old(r.log)
        case Some(k) =>
          && View() == CompleteAt(old(View()), k)
          && forall r <- nodes :: r.log == old(r.log) + if r == nodes[k] then [c] else []
    {
      hide FindId, Ids, Distinct;
      var it, k := Find(requestId);
      if it == null {
        return false;
      }
      if it.prev != null {
        assert false;  // `prev` is never set, so the branch that unlinks is dead
      } else if it == last {
        last := null;
      }
      it.Complete(c);
      return true;
    }

    /** The search loop of `complete`. */
    method Find(requestId: u32) returns (it: Response?, ghost k: nat)
      requires Valid()
      ensures match FindId(Ids(nodes), requestId)
        case None => it == null
        case Some(i) => k == i && it == nodes[i]
    {
      it, k := first, 0;
      while it != null && it.requestId != requestId
        invariant k <= |nodes|
        invariant it == At(nodes, k)
        invariant requestId !in Ids(nodes)[..k]
        decreases |nodes| - k
      {
        it, k := it.next, k + 1;
      }
      if it != null {
        FindIdIs(Ids(nodes), requestId, k);
      }
    }

    /** std::exchange(first, first->next) */
    method PopFirst() returns (current: Response)
      requires Linked() && first != null
      modifies this`first, this`nodes
      ensures Linked() && old(nodes) == [current] + nodes && current !in nodes
    {
      Shifted(nodes);
      current := first;
      first := first.next;
      nodes := nodes[1..];
    }

    /** Every reachable record is completed once more, pending or not, and the list is empty. */
    method CancelAll(ec: Error)
      requires Valid()
      modifies this`first, this`last, this`nodes, nodes`log
      ensures Valid() && View() == Queue([], false)
      ensures forall r <- old(nodes) :: r.log == old(r.log) + [Completion(ec, 0, [])]
    {
      ghost var all := nodes;
      hide Distinct;
      while first != null
        invariant Linked() && forall r <- nodes :: r in all
        invariant forall r <- all :: r.log == old(r.log) + if r in nodes then [] else [Completion(ec, 0, [])]
        decreases |nodes|
      {
        var current := PopFirst();
        assert current in all;
        current.Complete(Completion(ec, 0, []));
      }
      last := null;
    }
  }
}
