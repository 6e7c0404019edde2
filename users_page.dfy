/**
 * The users page: a fixed list of users narrowed by a case-insensitive search over name and
 * e-mail and by exact role and status filters, shown five at a time, with the current page
 * stepped by the previous and next buttons.
 */
module UsersPage {
  import opened Js
  import opened Pagination

  datatype UserRow = UserRow(id: int, name: string, email: string, role: string, status: string)

  /** The users the page starts with. */
  const SeedUsers: seq<UserRow> := [
    UserRow(1, "Alice Smith", "alice@example.com", "Admin", "Active"),
    UserRow(2, "Bob Johnson", "bob@example.com", "User", "Inactive"),
    UserRow(3, "Charlie Lee", "charlie@example.com", "User", "Active"),
    UserRow(4, "Dana White", "dana@example.com", "Moderator", "Active")]

  /** The choices of the two filter selects. */
  const Roles: seq<string> := ["All", "Admin", "User"]
  const Statuses: seq<string> := ["All", "Active", "Inactive"]

  /** The lower-cased search text occurs in the lower-cased name or e-mail. */
  predicate MatchesSearch(u: UserRow, search: string) {
    Includes(Lower(u.name), Lower(search)) || Includes(Lower(u.email), Lower(search))
  }

  /** Whether a user stays in the list: role and status pass their filters, and the search matches. */
  predicate Keep(u: UserRow, search: string, roleFilter: string, statusFilter: string) {
    && (roleFilter == "All" || u.role == roleFilter)
    && (statusFilter == "All" || u.status == statusFilter)
    && MatchesSearch(u, search)
  }

  /**
   * `filteredUsers`: the users that pass, in their original order, with nothing added. A user is
   * in the result exactly when it is in the list and passes.
   */
  function FilteredUsers(users: seq<UserRow>, search: string, roleFilter: string, statusFilter: string): (r: seq<UserRow>)
    ensures IsSubsequence(r, users)
    ensures forall u :: u in r <==> u in users && Keep(u, search, roleFilter, statusFilter)
    ensures forall u :: multiset(r)[u] == if Keep(u, search, roleFilter, statusFilter) then multiset(users)[u] else 0
  {
    var keep := u => Keep(u, search, roleFilter, statusFilter);
    FilterIsSubsequence(users, keep);
    FilterCounts(users, keep);
    Filter(users, keep)
  }

  /** With both filters on `'All'` and an empty search every user is shown. */
  lemma NoFilterKeepsAll(users: seq<UserRow>)
    ensures FilteredUsers(users, "", "All", "All") == users
  {
    forall i | 0 <= i < |users| ensures Keep(users[i], "", "All", "All") {
      IncludesEmpty(Lower(users[i].name));
    }
    FilterAll(users, u => Keep(u, "", "All", "All"));
  }

  /** The search ignores case: searching for the lower-cased text gives the same list. */
  lemma SearchIgnoresCase(users: seq<UserRow>, search: string, roleFilter: string, statusFilter: string)
    ensures FilteredUsers(users, Lower(search), roleFilter, statusFilter) == FilteredUsers(users, search, roleFilter, statusFilter)
  {
    LowerIdempotent(search);
    var f, g := u => Keep(u, Lower(search), roleFilter, statusFilter), u => Keep(u, search, roleFilter, statusFilter);
    forall i | 0 <= i < |users| ensures f(users[i]) == g(users[i]) {
      assert Lower(Lower(search)) == Lower(search);
    }
    FilterAgree(users, f, g);
  }

  /** Choosing the filters again does not change the list: filtering is idempotent. */
  lemma FilterTwice(users: seq<UserRow>, search: string, roleFilter: string, statusFilter: string)
    ensures var once := FilteredUsers(users, search, roleFilter, statusFilter);
            FilteredUsers(once, search, roleFilter, statusFilter) == once
  {
    FilterIdempotent(users, u => Keep(u, search, roleFilter, statusFilter));
  }

  /** The page's state: the search text, the two filters and the current page. */
  class UsersView {
    const users: seq<UserRow>
    var search: string
    var roleFilter: string
    var statusFilter: string
    var page: int

    /** The previous button never fires on page 1, so the page never drops below 1. */
    predicate Valid()
      reads this
    {
      page >= 1
    }

    constructor()
      ensures Valid()
      ensures users == SeedUsers && search == "" && roleFilter == "All" && statusFilter == "All" && page == 1
    {
      users := SeedUsers;
      search := "";
      roleFilter := "All";
      statusFilter := "All";
      page := 1;
    }

    function Filtered(): seq<UserRow>
      reads this
    {
      FilteredUsers(users, search, roleFilter, statusFilter)
    }

    function Total(): nat
      reads this
    {
      TotalPages(|Filtered()|)
    }

    /** `paginatedUsers`. */
    function Visible(): seq<UserRow>
      reads this
    {
      PageOf(Filtered(), page)
    }

    /** The table body: the page's users, or "No users found." exactly when the page lies beyond the last. */
    function Body(): (b: Pagination.Body<UserRow>)
      requires Valid()
      reads this
      ensures b.Message? <==> page > Total()
      ensures b.Message? ==> b.text == "No users found."
      ensures b.Rows? ==> 1 <= |b.rows| <= PageSize && b.rows == Visible()
    {
      TableBody(Visible(), "No users found.")
    }

    /** The label `Page {page} of {totalPages || 1}`. */
    function Label(): (l: (int, nat))
      reads this
      ensures l.0 == page && l.1 >= 1
      ensures Total() > 0 ==> l.1 == Total()
      ensures Total() == 0 ==> l.1 == 1
    {
      (page, PageLabel(Total()))
    }

    /** Typing in the search box; the page is kept as it is. */
    method SetSearch(s: string)
      requires Valid()
      modifies this
      ensures Valid()
      ensures search == s && roleFilter == old(roleFilter) && statusFilter == old(statusFilter) && page == old(page)
    {
      search := s;
    }

    /** Choosing a role; the page is kept as it is. */
    method SetRoleFilter(r: string)
      requires Valid()
      modifies this
      ensures Valid()
      ensures roleFilter == r && search == old(search) && statusFilter == old(statusFilter) && page == old(page)
    {
      roleFilter := r;
    }

    /** Choosing a status; the page is kept as it is. */
    method SetStatusFilter(s: string)
      requires Valid()
      modifies this
      ensures Valid()
      ensures statusFilter == s && search == old(search) && roleFilter == old(roleFilter) && page == old(page)
    {
      statusFilter := s;
    }

    /** The previous button: one page back, unless it is disabled on page 1. */
    method ClickPrev()
      requires Valid()
      modifies this
      ensures Valid()
      ensures page == if PrevDisabled(old(page)) then old(page) else old(page) - 1
      ensures search == old(search) && roleFilter == old(roleFilter) && statusFilter == old(statusFilter)
    {
      if !PrevDisabled(page) {
        page := page - 1;
      }
    }

    /** The next button: one page on, unless it is disabled on the last page or with no pages. */
    method ClickNext()
      requires Valid()
      modifies this
      ensures Valid()
      ensures page == if NextDisabled(old(page), old(Total())) then old(page) else old(page) + 1
      ensures search == old(search) && roleFilter == old(roleFilter) && statusFilter == old(statusFilter)
    {
      if !NextDisabled(page, Total()) {
        page := page + 1;
      }
    }
  }

  /** On the first view all four seed users fit on page 1, and there is one page. */
  lemma FirstView()
    ensures FilteredUsers(SeedUsers, "", "All", "All") == SeedUsers
    ensures TotalPages(|SeedUsers|) == 1
    ensures PageOf(SeedUsers, 1) == SeedUsers
  {
    NoFilterKeepsAll(SeedUsers);
  }
}
