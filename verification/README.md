# Leave-list page of the Employee Management System

This project models `LeaveList`, the client-side page of the Employee Management System (EMS) that lists leave requests. The page has four pieces of state: the list of leaves, an error message, a loading flag and the caller's role. Three things change that state:

- a mount effect, which reads the stored token, decodes the role claim and fetches the list;
- an approve/reject handler, which sends a status update and then patches the matching entries;
- a delete handler, which asks for confirmation, sends a delete request and then drops the matching entries.

The page renders a loading skeleton while it loads. After that it shows an "Apply for Leave" link for employees, an error banner, and either a "No leave requests found." placeholder or one row per leave. Each row has a status colour and Approve/Reject/Delete controls gated by role and status.

Files:

- `wrappers.dfy`: `Option`.
- `leaves.dfy` (module `Leaves`): the leave record and the two list rewrites. `SetStatus` is the `map` that patches one field. `RemoveId` is the `filter` by id. The file also holds their lemmas.
- `rendering.dfy` (module `Rendering`): the status colour, the three gating predicates and the rendering of rows, body and page, with the UI lemmas.
- `leave_page.dfy` (module `LeaveListPage`): the class `LeaveList`, with the page's four state variables as fields, the mount effect and the two handlers as methods, and a scenario method that walks through the lifecycle mount → approve → delete; its asserts are proved from those contracts.

I/O does not happen inside the model. It enters as method parameters:

- the stored token: `Option<string>`;
- the decoded role claim: `Option<string>`, `None` when decoding throws;
- the outcome of each network request: `Response`, `FetchOutcome`;
- the answer to the confirmation dialog: `bool`.

The redirect to `/login`, and whether a request was sent, are returned as results.

Three behaviours of the code worth knowing:

- Without a token, the mount effect returns before `setLoading(false)` (page.js:15-18). The page therefore stays in its loading state while the redirect happens. `loading` becomes false only once a fetch has settled.
- Neither handler clears an earlier error message on success, so a stale banner stays visible. `HandleApprove` and `HandleDelete` state exactly that: `error == old(error)`.
- The status update and the delete act on every entry whose id matches. Ids are not assumed to be unique.

## Model

| member | source | states |
|---|---|---|
| Leaves.SetStatusSpec | ems-frontend/app/leave/page.js:42 | after a successful approve/reject the list keeps its length and id order; every entry with the target id has exactly the new status with all other fields unchanged; every other entry is unchanged |
| Leaves.SetStatusAt | ems-frontend/app/leave/page.js:42 | entry k of the patched list is entry k of the original, with its status replaced exactly when its id matches |
| Leaves.SetStatusAbsent | ems-frontend/app/leave/page.js:42 | updating an id that no entry carries leaves the list unchanged |
| Leaves.SetStatusIdempotent | ems-frontend/app/leave/page.js:42 | applying the same status update twice equals applying it once |
| Leaves.SetStatus | ems-frontend/app/leave/page.js:42 | the status patch never changes the list's length |
| Leaves.RemoveId | ems-frontend/app/leave/page.js:57 | an entry survives a delete iff it was in the list and its id differs from the deleted id; the list never grows |
| Leaves.RemoveIdRemoves | ems-frontend/app/leave/page.js:57 | no entry with the deleted id remains |
| Leaves.RemoveIdConcat | ems-frontend/app/leave/page.js:57 | the delete distributes over concatenation, so survivors keep their original relative order |
| Leaves.RemoveIdCount | ems-frontend/app/leave/page.js:57 | every entry with another id survives as many times as it occurred, with unchanged contents; every entry with the id is gone |
| Leaves.RemoveIdAbsent | ems-frontend/app/leave/page.js:57 | deleting an id that no entry carries leaves the list unchanged |
| Leaves.RemoveIdIdempotent | ems-frontend/app/leave/page.js:57 | a second delete of the same id changes nothing |
| Leaves.RemoveIdAfterSetStatus | ems-frontend/app/leave/page.js:42-57 | deleting an id erases any earlier status update to it |
| Rendering.StatusColour | ems-frontend/app/leave/page.js:119-123 | pending is yellow, approved is green, every other status (rejected or unknown) is red, each iff |
| Rendering.RenderRows | ems-frontend/app/leave/page.js:110-143 | one rendered row per leave |
| Rendering.RenderBody | ems-frontend/app/leave/page.js:103-110 | the placeholder row is shown iff the list is empty; otherwise there is one row per leave |
| Rendering.RenderPage | ems-frontend/app/leave/page.js:63-110 | only the skeleton while loading; once loaded, the apply link iff role is 'employee', the banner iff the error is non-empty and showing exactly that error, the placeholder iff no leaves |
| Rendering.RenderRowsAt | ems-frontend/app/leave/page.js:110-140 | row k carries leave k's id and status, its status colour, Approve/Reject iff role ≠ 'employee' and status = 'pending', Delete iff role is 'admin' or 'hr' or status ≠ 'approved' |
| Rendering.RenderPageRows | ems-frontend/app/leave/page.js:103-111 | a loaded non-empty list renders exactly one row per leave, in list order, keyed by the leave's id |
| Rendering.EmployeeNeverSeesApproveReject | ems-frontend/app/leave/page.js:129 | role 'employee' gets no Approve/Reject on any row |
| Rendering.NonPendingRowHasNoApproveReject | ems-frontend/app/leave/page.js:129 | a row whose status is not 'pending' has no Approve/Reject for any role |
| Rendering.AdminAndHrDeleteEveryRow | ems-frontend/app/leave/page.js:137 | for 'admin' and 'hr', every row has Delete |
| Rendering.OtherRolesDeleteUnapprovedOnly | ems-frontend/app/leave/page.js:137 | for any other role, the empty role included, a row has Delete iff its status is not 'approved' |
| Rendering.DecidedRowsLoseApproveReject | ems-frontend/app/leave/page.js:129-137 | after a successful approve/reject, the target rows show the new status in green or red, lose Approve/Reject, and keep Delete iff rejected or the role is 'admin'/'hr' |
| LeaveListPage.LeaveList.constructor | ems-frontend/app/leave/page.js:7-10 | the page starts with no leaves, no error, loading, and the empty role |
| LeaveListPage.LeaveList.Mount | ems-frontend/app/leave/page.js:13-31 | without a (non-empty) token: redirect to '/login', no fetch, state unchanged; otherwise: the decoded role is taken (the old one kept when decoding fails), the list is fetched, stored on success or the error set to 'Failed to fetch leave requests' on failure, and loading is false |
| LeaveListPage.LeaveList.HandleApprove | ems-frontend/app/leave/page.js:33-46 | ok: leaves become SetStatus of the old list and the error is kept; failure: leaves unchanged and the error is 'Failed to update leave status' |
| LeaveListPage.LeaveList.HandleDelete | ems-frontend/app/leave/page.js:48-61 | a request is sent iff confirmed; if declined, nothing changes; ok: leaves become RemoveId of the old list; failure: leaves unchanged and the error is 'Failed to delete leave request' |

## Left out

- `localStorage`, `fetch`, `confirm` and `router.push` are browser I/O. Their results are method parameters and their requests are method results.
- Token decoding (`atob`, `JSON.parse`, page.js:19-22) is a foreign call whose errors are swallowed. The decoded role claim is an input. A token whose payload has no `role` claim would set the role to `undefined`. That value compares like the empty string in every check the page makes, so it is covered by the string case.
- The shape of the fetched JSON is not modelled. The fetched list is taken to be a list of leave records.
- React's scheduling of state updates, the asynchronous gap between sending a request and handling its response, and the handlers' closure over a possibly stale `leaves` are not modelled. Each handler runs atomically on the current list. A re-run of the mount effect while an earlier fetch is still pending is not modelled either.
- Markup, CSS classes beyond the three status colours, the text of the employee-name, type and date cells, and the rows of the loading skeleton (page.js:63-74, 112-117) are presentation only.
- The user model in `Ems-backend/models/user.js` is a schema declaration enforced by the ORM, so it is not part of this model. Only its role names 'admin', 'hr' and 'employee' appear here, as constants. The page compares the role against an unconstrained string.
