/** What the leave-list page renders for a given state: the loading skeleton,
    or the header with its optional "Apply for Leave" link, the error banner and
    the table body. Each row shows its status in one of three colours and the
    controls that the caller's role and the row's status allow. The role is the
    unverified claim decoded from the token, so these rules only decide what is
    shown, not what the server accepts. */
module Rendering {
  import opened Wrappers
  import opened Leaves

  const EmployeeRole := "employee"
  const AdminRole := "admin"
  const HrRole := "hr"

  /** The three colour classes of the status cell. */
  datatype Colour = Yellow | Green | Red

  /** The status cell's colour: yellow for pending, green for approved, red for
      anything else, including 'rejected' and any value the server invents. */
  function StatusColour(status: string): (c: Colour)
    ensures c == Yellow <==> status == Pending
    ensures c == Green <==> status == Approved
    ensures c == Red <==> status != Pending && status != Approved
  {
    if status == Pending then Yellow
    else if status == Approved then Green
    else Red
  }

  /** Approve and Reject buttons on a row. */
  predicate ShowsApproveReject(role: string, status: string)
  {
    role != EmployeeRole && status == Pending
  }

  /** Delete button on a row. */
  predicate ShowsDelete(role: string, status: string)
  {
    role == AdminRole || role == HrRole || status != Approved
  }

  /** The "Apply for Leave" link in the header. */
  predicate ShowsApplyLink(role: string)
  {
    role == EmployeeRole
  }

  /** One rendered table row: the leave it stands for (its key and the target
      of its Details link), its status text and colour, and its controls. */
  datatype RowView = RowView(
    id: int,
    status: string,
    colour: Colour,
    approveReject: bool,
    delete: bool)

  /** The table body: the placeholder row "No leave requests found." or one
      row per leave. */
  datatype Body = NoLeavesPlaceholder | Rows(rows: seq<RowView>)

  /** The whole page: the skeleton while loading, otherwise the full view. */
  datatype PageView =
    | Skeleton
    | Page(applyLink: bool, banner: Option<string>, body: Body)

  function RenderRow(role: string, l: Leave): RowView
  {
    RowView(l.id, l.status, StatusColour(l.status),
            ShowsApproveReject(role, l.status), ShowsDelete(role, l.status))
  }

  /** One row per leave, in list order. */
  function RenderRows(role: string, leaves: seq<Leave>): (rows: seq<RowView>)
    ensures |rows| == |leaves|
  {
    if leaves == [] then []
    else [RenderRow(role, leaves[0])] + RenderRows(role, leaves[1..])
  }

  function RenderBody(role: string, leaves: seq<Leave>): (b: Body)
    ensures b.NoLeavesPlaceholder? <==> leaves == []
    ensures b.Rows? ==> |b.rows| == |leaves|
  {
    if |leaves| == 0 then NoLeavesPlaceholder else Rows(RenderRows(role, leaves))
  }

  /** The page for a given state: nothing but the skeleton while loading; once
      loaded, the apply link for employees only, the banner exactly when the
      error message is non-empty, and the body. */
  function RenderPage(leaves: seq<Leave>, error: string, loading: bool, role: string): (v: PageView)
    ensures v.Skeleton? <==> loading
    ensures v.Page? ==> (v.applyLink <==> role == EmployeeRole)
    ensures v.Page? ==> (v.banner.Some? <==> error != "")
    ensures v.Page? && v.banner.Some? ==> v.banner.value == error
    ensures v.Page? ==> (v.body.NoLeavesPlaceholder? <==> leaves == [])
  {
    if loading then Skeleton
    else Page(ShowsApplyLink(role), if error == "" then None else Some(error),
              RenderBody(role, leaves))
  }

  /** Row `k` stands for leave `k`: same id and status, the status colour, and
      controls exactly as the role/status rules say. */
  lemma {:induction false} RenderRowsAt(role: string, leaves: seq<Leave>, k: int)
    requires 0 <= k < |leaves|
    ensures RenderRows(role, leaves)[k].id == leaves[k].id
    ensures RenderRows(role, leaves)[k].status == leaves[k].status
    ensures RenderRows(role, leaves)[k].colour == StatusColour(leaves[k].status)
    ensures RenderRows(role, leaves)[k].approveReject <==>
              role != EmployeeRole && leaves[k].status == Pending
    ensures RenderRows(role, leaves)[k].delete <==>
              role == AdminRole || role == HrRole || leaves[k].status != Approved
  {
    if k > 0 {
      RenderRowsAt(role, leaves[1..], k - 1);
    }
  }

  /** A loaded page with leaves shows exactly one row per leave, in list order,
      each row keyed by its leave's id. */
  lemma RenderPageRows(leaves: seq<Leave>, error: string, role: string)
    requires leaves != []
    ensures RenderPage(leaves, error, false, role).body.Rows?
    ensures |RenderPage(leaves, error, false, role).body.rows| == |leaves|
    ensures forall k :: 0 <= k < |leaves| ==>
              RenderPage(leaves, error, false, role).body.rows[k].id == leaves[k].id
  {
    forall k | 0 <= k < |leaves|
      ensures RenderRows(role, leaves)[k].id == leaves[k].id
    {
      RenderRowsAt(role, leaves, k);
    }
  }

  /** An employee never sees Approve/Reject, on any row of any list. */
  lemma {:induction false} EmployeeNeverSeesApproveReject(leaves: seq<Leave>)
    ensures forall k :: 0 <= k < |leaves| ==> !RenderRows(EmployeeRole, leaves)[k].approveReject
  {
    forall k | 0 <= k < |leaves|
      ensures !RenderRows(EmployeeRole, leaves)[k].approveReject
    {
      RenderRowsAt(EmployeeRole, leaves, k);
    }
  }

  /** A row whose status is not 'pending' never has Approve/Reject, whatever
      the role. */
  lemma {:induction false} NonPendingRowHasNoApproveReject(role: string, leaves: seq<Leave>)
    ensures forall k :: 0 <= k < |leaves| && leaves[k].status != Pending ==>
              !RenderRows(role, leaves)[k].approveReject
  {
    forall k | 0 <= k < |leaves| && leaves[k].status != Pending
      ensures !RenderRows(role, leaves)[k].approveReject
    {
      RenderRowsAt(role, leaves, k);
    }
  }

  /** Admin and HR see Delete on every row. */
  lemma {:induction false} AdminAndHrDeleteEveryRow(role: string, leaves: seq<Leave>)
    requires role == AdminRole || role == HrRole
    ensures forall k :: 0 <= k < |leaves| ==> RenderRows(role, leaves)[k].delete
  {
    forall k | 0 <= k < |leaves| ensures RenderRows(role, leaves)[k].delete {
      RenderRowsAt(role, leaves, k);
    }
  }

  /** Any other role, including the empty role left when the token could not be
      decoded, sees Delete exactly on the rows that are not approved. */
  lemma {:induction false} OtherRolesDeleteUnapprovedOnly(role: string, leaves: seq<Leave>)
    requires role != AdminRole && role != HrRole
    ensures forall k :: 0 <= k < |leaves| ==>
              (RenderRows(role, leaves)[k].delete <==> leaves[k].status != Approved)
  {
    forall k | 0 <= k < |leaves|
      ensures RenderRows(role, leaves)[k].delete <==> leaves[k].status != Approved
    {
      RenderRowsAt(role, leaves, k);
    }
  }

  /** After a successful approve or reject of `id`, the rows of that id lose
      their Approve/Reject buttons and show the new status in its colour; an
      approved row keeps Delete only for admin and HR, a rejected one for all. */
  lemma {:induction false} DecidedRowsLoseApproveReject(role: string, leaves: seq<Leave>, id: int, status: string)
    requires status == Approved || status == Rejected
    ensures forall k :: 0 <= k < |leaves| && leaves[k].id == id ==>
              var row := RenderRows(role, SetStatus(leaves, id, status))[k];
              !row.approveReject && row.status == status &&
              row.colour == (if status == Approved then Green else Red) &&
              (row.delete <==> status == Rejected || role == AdminRole || role == HrRole)
  {
    forall k | 0 <= k < |leaves| && leaves[k].id == id
      ensures var row := RenderRows(role, SetStatus(leaves, id, status))[k];
              !row.approveReject && row.status == status &&
              row.colour == (if status == Approved then Green else Red) &&
              (row.delete <==> status == Rejected || role == AdminRole || role == HrRole)
    {
      SetStatusAt(leaves, id, status, k);
      RenderRowsAt(role, SetStatus(leaves, id, status), k);
    }
  }
}
