/**
 * The pagination of frontend/src/comps/AdminPanel.jsx: the offset it
 * requests, the range and the buttons it shows, where the total comes
 * from, and how page and tab changes replace the panel's state.
 */
module AdminPanel {
  import opened Common
  import opened Schema

  datatype Tab = Dashboard | UsersTab | SpacesTab | PostsTab | MessagesTab | LogsTab | ConfigTab | UserSettingsTab

  /** `{ page, limit, total }` */
  datatype Pagination = Pagination(page: int, limit: int, total: int)

  /** The part of the panel's state the tabs and pages touch. */
  datatype Panel = Panel(tab: Tab, pagination: Pagination, search: string, selectedUser: Option<UserId>)

  /** The state on first render: the dashboard, page 1 of 10 rows, nothing selected. */
  const Initial: Panel := Panel(Dashboard, Pagination(1, 10, 0), "", None)

  /** The request's `offset` (line 34). */
  function Offset(p: Pagination): int {
    (p.page - 1) * p.limit
  }

  /** "Showing a to b of total" (lines 756-757). */
  function RangeStart(p: Pagination): int {
    (p.page - 1) * p.limit + 1
  }

  function RangeEnd(p: Pagination): int {
    if p.page * p.limit <= p.total then p.page * p.limit else p.total
  }

  /** `disabled={pagination.page === 1}` (line 763) */
  predicate PrevDisabled(p: Pagination) {
    p.page == 1
  }

  /** `disabled={pagination.page * pagination.limit >= pagination.total}` (line 774) */
  predicate NextDisabled(p: Pagination) {
    p.page * p.limit >= p.total
  }

  /** `pagination.total > pagination.limit && renderPagination()` (line 844) */
  predicate ShowsPagination(p: Pagination) {
    p.total > p.limit
  }

  /** `res.data.total || res.data.<list>.length`: a missing or zero total falls back to the list's length. */
  function TotalFromAnswer(total: Option<nat>, listLength: nat): (t: nat)
    ensures t == 0 ==> listLength == 0
    ensures total.None? ==> t == listLength
    ensures total.Some? && total.value > 0 ==> t == total.value
  {
    if total.Some? && total.value != 0 then total.value else listLength
  }

  /** The answer of a listing tab stores its total and keeps everything else. */
  function Answered(s: Panel, total: Option<nat>, listLength: nat): (r: Panel)
    ensures r.pagination.total == TotalFromAnswer(total, listLength)
    ensures r.tab == s.tab && r.search == s.search && r.selectedUser == s.selectedUser
    ensures r.pagination.page == s.pagination.page && r.pagination.limit == s.pagination.limit
  {
    Panel(s.tab, Pagination(s.pagination.page, s.pagination.limit, TotalFromAnswer(total, listLength)), s.search, s.selectedUser)
  }

  /** handlePageChange (lines 97-99): only the page changes. */
  function PageChanged(s: Panel, newPage: int): (r: Panel)
    ensures r.pagination.page == newPage
    ensures r.tab == s.tab && r.search == s.search && r.selectedUser == s.selectedUser
    ensures r.pagination.limit == s.pagination.limit && r.pagination.total == s.pagination.total
  {
    Panel(s.tab, Pagination(newPage, s.pagination.limit, s.pagination.total), s.search, s.selectedUser)
  }

  /** A tab click (lines 810-815): back to page 1 of 10 with no total, no search and no selected user. */
  function TabChanged(s: Panel, tab: Tab): (r: Panel)
    ensures r.tab == tab && r.pagination == Initial.pagination && r.search == "" && r.selectedUser.None?
  {
    Panel(tab, Pagination(1, 10, 0), "", None)
  }

  /** The Previous button: a click when it is enabled goes one page back. */
  function PressPrevious(s: Panel): Panel {
    if PrevDisabled(s.pagination) then s else PageChanged(s, s.pagination.page - 1)
  }

  /** The Next button: a click when it is enabled goes one page on. */
  function PressNext(s: Panel): Panel {
    if NextDisabled(s.pagination) then s else PageChanged(s, s.pagination.page + 1)
  }

  // ---------------------------------------------------------------------
  // Properties
  // ---------------------------------------------------------------------

  /** The page never drops below 1: the buttons and the tabs keep it positive, starting from page 1. */
  lemma PageStaysPositive(s: Panel, tab: Tab, total: Option<nat>, listLength: nat)
    requires s.pagination.page >= 1
    ensures Initial.pagination.page >= 1
    ensures PressPrevious(s).pagination.page >= 1
    ensures PressNext(s).pagination.page >= 1
    ensures TabChanged(s, tab).pagination.page == 1
    ensures Answered(s, total, listLength).pagination.page == s.pagination.page
  {
  }

  /** Next and then Previous come back to the same page. */
  lemma NextThenPreviousRestores(s: Panel)
    requires s.pagination.page >= 1 && !NextDisabled(s.pagination)
    ensures PressPrevious(PressNext(s)) == s
  {
  }

  /** Changing tab twice to the same tab is changing it once; a changed tab shows page 1 from offset 0 and no pagination. */
  lemma TabChangeResets(s: Panel, tab: Tab)
    ensures TabChanged(TabChanged(s, tab), tab) == TabChanged(s, tab)
    ensures Offset(TabChanged(s, tab).pagination) == 0
    ensures !ShowsPagination(TabChanged(s, tab).pagination)
  {
  }

  lemma PageTimesLimit(p: Pagination)
    ensures p.page * p.limit == Offset(p) + p.limit
  {
    assert (p.page - 1) * p.limit == p.page * p.limit - p.limit;
  }

  /**
   * A page that holds rows shows the range the request's LIMIT and OFFSET
   * return: it starts just after the offset and spans as many rows as
   * `LIMIT limit OFFSET offset` keeps of `total`.
   */
  lemma RangeIsTheRequestedRows(p: Pagination)
    requires p.page >= 1 && p.limit > 0 && p.total >= 0
    requires Offset(p) < p.total
    ensures Offset(p) >= 0
    ensures RangeStart(p) == Offset(p) + 1
    ensures RangeStart(p) <= RangeEnd(p) <= p.total
    ensures RangeEnd(p) - RangeStart(p) + 1 == PageLength(p.total, Offset(p), p.limit)
  {
    PageTimesLimit(p);
    assert Offset(p) >= 0 by {
      assert (p.page - 1) * p.limit >= 0 * p.limit;
    }
  }

  /** Next is disabled exactly when the range reaches the total, that is, when the next page would hold no rows. */
  lemma NextDisabledIffLastPage(p: Pagination)
    requires p.total >= 0
    ensures NextDisabled(p) <==> RangeEnd(p) == p.total
    ensures NextDisabled(p) <==> Offset(Pagination(p.page + 1, p.limit, p.total)) >= p.total
  {
    assert Offset(Pagination(p.page + 1, p.limit, p.total)) == p.page * p.limit;
  }

  /** Consecutive pages show adjacent ranges: the next one starts right after this one ends. */
  lemma RangesAdjacent(s: Panel)
    requires !NextDisabled(s.pagination)
    ensures RangeStart(PressNext(s).pagination) == RangeEnd(s.pagination) + 1
  {
  }

  /**
   * GET /admin/users answers with `total` equal to the length of the page
   * and at most `limit` rows (backend/routes/admin.js), so the users tab
   * never renders its pagination, whatever page it asked for.
   */
  lemma UsersPaginationNeverShows(s: Panel, total: nat, page: seq<UserId>)
    requires total == |page| && |page| <= s.pagination.limit
    ensures !ShowsPagination(Answered(s, Some(total), |page|).pagination)
  {
  }

  /** The same holds for any listing answered without a total, or with the length of a page of at most `limit` rows. */
  lemma ShortListNeverShowsPagination(s: Panel, total: Option<nat>, listLength: nat)
    requires listLength <= s.pagination.limit
    requires total.None? || total.value <= listLength
    ensures !ShowsPagination(Answered(s, total, listLength).pagination)
  {
  }
}
