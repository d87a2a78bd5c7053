/** The leave requests held by the leave-list page, and the two list rewrites
    its action handlers apply after a successful server call: the status patch
    of an approve/reject (a `map` over the list) and the removal of a deleted
    request (a `filter` by id). */
module Leaves {
  import opened Wrappers

  /** The requesting employee, as the server embeds it in a leave request. */
  datatype Employee = Employee(firstName: string, lastName: string)

  /** One leave request as the page receives it from the server. The status is
      an unconstrained string: the page compares it against 'pending' and
      'approved' but never checks that it is one of the three known values. */
  datatype Leave = Leave(
    id: int,
    employee: Option<Employee>,
    leaveType: string,
    startDate: string,
    endDate: string,
    status: string)

  const Pending := "pending"
  const Approved := "approved"
  const Rejected := "rejected"

  /** True when some entry of `leaves` carries the id `id`. */
  predicate HasId(leaves: seq<Leave>, id: int)
  {
    exists k :: 0 <= k < |leaves| && leaves[k].id == id
  }

  /** One entry after an approve/reject of `id`: an entry with that id gets the
      new status, spread over all its other fields; any other entry is kept. */
  function Patched(l: Leave, id: int, status: string): Leave
  {
    if l.id == id then l.(status := status) else l
  }

  /** The list after a successful status update of `id`: every entry patched. */
  function SetStatus(leaves: seq<Leave>, id: int, status: string): (r: seq<Leave>)
    ensures |r| == |leaves|
  {
    if leaves == [] then []
    else [Patched(leaves[0], id, status)] + SetStatus(leaves[1..], id, status)
  }

  /** The list after a successful delete of `id`: the entries whose id differs. */
  function RemoveId(leaves: seq<Leave>, id: int): (r: seq<Leave>)
    ensures |r| <= |leaves|
    ensures forall x :: x in r <==> x in leaves && x.id != id
  {
    if leaves == [] then []
    else (if leaves[0].id == id then [] else [leaves[0]]) + RemoveId(leaves[1..], id)
  }

  /** Entry `k` of the patched list is entry `k` of the original, with the new
      status when its id matches and otherwise untouched. */
  lemma {:induction false} SetStatusAt(leaves: seq<Leave>, id: int, status: string, k: int)
    requires 0 <= k < |leaves|
    ensures SetStatus(leaves, id, status)[k] ==
              if leaves[k].id == id then leaves[k].(status := status) else leaves[k]
  {
    if k > 0 {
      SetStatusAt(leaves[1..], id, status, k - 1);
    }
  }

  /** After a successful approve/reject the list keeps its length and its id
      order; every entry with the target id has exactly the new status and
      every other field unchanged; every other entry is unchanged. */
  lemma {:induction false} SetStatusSpec(leaves: seq<Leave>, id: int, status: string)
    ensures |SetStatus(leaves, id, status)| == |leaves|
    ensures forall k :: 0 <= k < |leaves| ==>
              SetStatus(leaves, id, status)[k].id == leaves[k].id
    ensures forall k :: 0 <= k < |leaves| && leaves[k].id == id ==>
              SetStatus(leaves, id, status)[k] == leaves[k].(status := status)
    ensures forall k :: 0 <= k < |leaves| && leaves[k].id != id ==>
              SetStatus(leaves, id, status)[k] == leaves[k]
  {
    forall k | 0 <= k < |leaves|
      ensures SetStatus(leaves, id, status)[k] ==
                if leaves[k].id == id then leaves[k].(status := status) else leaves[k]
    {
      SetStatusAt(leaves, id, status, k);
    }
  }

  /** Updating an id that no entry carries leaves the list as it was. */
  lemma {:induction false} SetStatusAbsent(leaves: seq<Leave>, id: int, status: string)
    requires !HasId(leaves, id)
    ensures SetStatus(leaves, id, status) == leaves
  {
    if leaves != [] {
      assert leaves[0].id != id;
      assert !HasId(leaves[1..], id) by {
        forall k | 0 <= k < |leaves[1..]| ensures leaves[1..][k].id != id {
          assert leaves[1..][k] == leaves[k + 1];
        }
      }
      SetStatusAbsent(leaves[1..], id, status);
    }
  }

  /** Applying the same status update twice is the same as applying it once. */
  lemma {:induction false} SetStatusIdempotent(leaves: seq<Leave>, id: int, status: string)
    ensures SetStatus(SetStatus(leaves, id, status), id, status) == SetStatus(leaves, id, status)
  {
    if leaves != [] {
      var once := SetStatus(leaves, id, status);
      assert once[1..] == SetStatus(leaves[1..], id, status);
      SetStatusIdempotent(leaves[1..], id, status);
    }
  }

  /** No entry with the deleted id survives a successful delete. */
  lemma RemoveIdRemoves(leaves: seq<Leave>, id: int)
    ensures !HasId(RemoveId(leaves, id), id)
  {
    // a corollary of the membership clause of RemoveId's contract
  }

  /** Deletion distributes over concatenation: the survivors of a list are the
      survivors of its front followed by those of its back, so the surviving
      entries keep their original relative order. */
  lemma {:induction false} RemoveIdConcat(a: seq<Leave>, b: seq<Leave>, id: int)
    ensures RemoveId(a + b, id) == RemoveId(a, id) + RemoveId(b, id)
  {
    if a == [] {
      assert a + b == b;
    } else {
      assert (a + b)[0] == a[0];
      assert (a + b)[1..] == a[1..] + b;
      RemoveIdConcat(a[1..], b, id);
    }
  }

  /** Deletion keeps each other entry as many times as it occurred, with its
      contents unchanged, and drops every occurrence of an entry with the id. */
  lemma {:induction false} RemoveIdCount(leaves: seq<Leave>, id: int, x: Leave)
    ensures multiset(RemoveId(leaves, id))[x] ==
              if x.id == id then 0 else multiset(leaves)[x]
  {
    if leaves != [] {
      RemoveIdCount(leaves[1..], id, x);
      assert leaves == [leaves[0]] + leaves[1..];
      assert multiset(leaves) == multiset([leaves[0]]) + multiset(leaves[1..]);
    }
  }

  /** Deleting an id that no entry carries leaves the list as it was. */
  lemma {:induction false} RemoveIdAbsent(leaves: seq<Leave>, id: int)
    requires !HasId(leaves, id)
    ensures RemoveId(leaves, id) == leaves
  {
    if leaves != [] {
      assert leaves[0].id != id;
      assert !HasId(leaves[1..], id) by {
        forall k | 0 <= k < |leaves[1..]| ensures leaves[1..][k].id != id {
          assert leaves[1..][k] == leaves[k + 1];
        }
      }
      RemoveIdAbsent(leaves[1..], id);
      assert leaves == [leaves[0]] + leaves[1..];
    }
  }

  /** A second delete of the same id changes nothing. */
  lemma RemoveIdIdempotent(leaves: seq<Leave>, id: int)
    ensures RemoveId(RemoveId(leaves, id), id) == RemoveId(leaves, id)
  {
    RemoveIdRemoves(leaves, id);
    RemoveIdAbsent(RemoveId(leaves, id), id);
  }

  /** Deleting an id erases any status update made to it before. */
  lemma {:induction false} RemoveIdAfterSetStatus(leaves: seq<Leave>, id: int, status: string)
    ensures RemoveId(SetStatus(leaves, id, status), id) == RemoveId(leaves, id)
  {
    if leaves != [] {
      var patched := SetStatus(leaves, id, status);
      assert patched[0] == Patched(leaves[0], id, status);
      assert patched[1..] == SetStatus(leaves[1..], id, status);
      RemoveIdAfterSetStatus(leaves[1..], id, status);
    }
  }
}
