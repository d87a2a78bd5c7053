/** The state of the leave-list page and the three things that change it: the
    mount effect that loads the list, and the approve/reject and delete
    handlers. The browser's storage, dialog, navigation and network are not
    modelled: what they return reaches each method as a parameter, and what
    the method asks of them (a redirect, a request) is returned. Each handler
    runs as one atomic step on the current list. */
module LeaveListPage {
  import opened Wrappers
  import opened Leaves
  import opened Rendering

  const LoginPath := "/login"
  const FetchFailedMessage := "Failed to fetch leave requests"
  const UpdateFailedMessage := "Failed to update leave status"
  const DeleteFailedMessage := "Failed to delete leave request"

  /** How a PUT or DELETE request ended: an ok response, or anything else
      (a non-ok status or a rejected request). */
  datatype Response = Ok | Failed

  /** How the initial GET of the leave list ended: the list the server sent,
      or a failure (non-ok status, rejected request or unreadable body). */
  datatype FetchOutcome = Loaded(list: seq<Leave>) | FetchFailed

  /** A stored token is usable when it is present and not the empty string. */
  predicate HasToken(token: Option<string>)
  {
    token.Some? && token.value != ""
  }

  class LeaveList {
    var leaves: seq<Leave>
    var error: string
    var loading: bool
    var role: string

    /** The initial state: no leaves, no error, loading, no role. */
    constructor ()
      ensures leaves == [] && error == "" && loading && role == ""
    {
      leaves := [];
      error := "";
      loading := true;
      role := "";
    }

    /** What the page currently shows. */
    function View(): PageView
      reads this
    {
      RenderPage(leaves, error, loading, role)
    }

    /** The mount effect. `token` is the stored token; `claim` is the role claim
        decoded from it, or None when decoding failed; `response` is how the
        list request ended. Without a token it asks for a redirect to the login
        page and fetches nothing, and the page stays loading. With a token it
        takes the decoded role (keeping the old one when decoding failed),
        fetches the list, stores it or sets the fetch error, and stops loading. */
    method Mount(token: Option<string>, claim: Option<string>, response: FetchOutcome)
      returns (redirect: Option<string>, fetched: bool)
      modifies this
      ensures !HasToken(token) ==>
                redirect == Some(LoginPath) && !fetched &&
                leaves == old(leaves) && error == old(error) &&
                loading == old(loading) && role == old(role)
      ensures HasToken(token) ==> redirect == None && fetched && !loading
      ensures HasToken(token) ==>
                role == (if claim.Some? then claim.value else old(role))
      ensures HasToken(token) && response.Loaded? ==>
                leaves == response.list && error == old(error)
      ensures HasToken(token) && response.FetchFailed? ==>
                leaves == old(leaves) && error == FetchFailedMessage
    {
      if !HasToken(token) {
        return Some(LoginPath), false;
      }
      if claim.Some? {
        role := claim.value;
      }
      fetched := true;
      match response {
        case Loaded(list) => leaves := list;
        case FetchFailed => error := FetchFailedMessage;
      }
      loading := false;
      redirect := None;
    }

    /** Approve or Reject of the leave `id` (the buttons pass 'approved' or
        'rejected'). On an ok response every entry with that id takes the new
        status; otherwise the list is kept and the update error is set. */
    method HandleApprove(id: int, status: string, response: Response)
      modifies this`leaves, this`error
      ensures response.Ok? ==>
                leaves == SetStatus(old(leaves), id, status) && error == old(error)
      ensures response.Failed? ==>
                leaves == old(leaves) && error == UpdateFailedMessage
    {
      if response.Failed? {
        error := UpdateFailedMessage;
        return;
      }
      leaves := SetStatus(leaves, id, status);
    }

    /** Delete of the leave `id`. `confirmed` is the user's answer to the
        confirmation dialog: when it is no, no request is sent and nothing
        changes. Otherwise, on an ok response every entry with that id is
        dropped; on failure the list is kept and the delete error is set. */
    method HandleDelete(id: int, confirmed: bool, response: Response)
      returns (requested: bool)
      modifies this`leaves, this`error
      ensures requested == confirmed
      ensures !confirmed ==> leaves == old(leaves) && error == old(error)
      ensures confirmed && response.Ok? ==>
                leaves == RemoveId(old(leaves), id) && error == old(error)
      ensures confirmed && response.Failed? ==>
                leaves == old(leaves) && error == DeleteFailedMessage
    {
      if !confirmed {
        return false;
      }
      requested := true;
      if response.Failed? {
        error := DeleteFailedMessage;
        return;
      }
      leaves := RemoveId(leaves, id);
    }
  }

  /** The page lifecycle in the order the user meets it: a fresh page with a
      token and a list containing a pending request `id`, viewed by HR, shows
      Approve/Reject on that row; after a successful approve the row shows
      'approved' in green with no Approve/Reject, and after a successful
      delete no row of that id is left. */
  method ApproveThenDeleteScenario(list: seq<Leave>, id: int, k: int)
    requires 0 <= k < |list| && list[k].id == id && list[k].status == Pending
  {
    var page := new LeaveList();
    var redirect, fetched := page.Mount(Some("header.payload.signature"), Some(HrRole), Loaded(list));
    assert redirect == None && fetched && !page.loading;
    RenderRowsAt(HrRole, list, k);
    assert page.View().body.rows[k].approveReject;

    page.HandleApprove(id, Approved, Ok);
    assert page.role == HrRole && !page.loading;
    DecidedRowsLoseApproveReject(HrRole, list, id, Approved);
    var row := page.View().body.rows[k];
    assert row.status == Approved && row.colour == Green && !row.approveReject && row.delete;

    var requested := page.HandleDelete(id, true, Ok);
    assert requested;
    RemoveIdRemoves(SetStatus(list, id, Approved), id);
    assert !HasId(page.leaves, id);
  }
}
