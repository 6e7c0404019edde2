/**
 * The blacklist page: a fixed list of blacklisted plates narrowed by an exact status filter and
 * a case-insensitive search over plate, reason and the name of whoever added the entry, shown
 * five at a time, with `'-'` in place of an empty reason or status.
 */
module BlacklistPage {
  import opened Js
  import opened Pagination

  datatype Adder = Adder(id: int, username: string)

  /** An entry as the page holds it; an absent reason or name is the empty text. */
  datatype BlacklistRow = BlacklistRow(id: int, plateNumber: string, addedBy: Adder, createAt: string, reason: string, status: string)

  /** The entries the page starts with. */
  const SeedEntries: seq<BlacklistRow> := [
    BlacklistRow(1, "242-565-14", Adder(1, "admin"), "Tue, 13 May 2025 05:56:15 GMT", "Stolen vehicle", "Active"),
    BlacklistRow(2, "123-456-78", Adder(2, "officer1"), "Wed, 14 May 2025 10:20:00 GMT", "Unpaid fines", "Inactive")]

  /** The choices of the status select. */
  const Statuses: seq<string> := ["All", "Active", "Inactive"]

  /**
   * The lower-cased search text occurs in the lower-cased plate, or in the reason when there is
   * one, or in the adder's name when there is one.
   */
  predicate MatchesSearch(e: BlacklistRow, search: string) {
    var q := Lower(search);
    || Includes(Lower(e.plateNumber), q)
    || (e.reason != "" && Includes(Lower(e.reason), q))
    || (e.addedBy.username != "" && Includes(Lower(e.addedBy.username), q))
  }

  /** Whether an entry stays in the list: its status passes the filter and the search matches. */
  predicate Keep(e: BlacklistRow, search: string, statusFilter: string) {
    (statusFilter == "All" || e.status == statusFilter) && MatchesSearch(e, search)
  }

  /**
   * The presence tests on reason and name change nothing for text: an empty text contains only the
   * empty search, and the plate contains that too.
   */
  lemma PresenceTestsRedundant(e: BlacklistRow, search: string)
    ensures MatchesSearch(e, search) <==>
      var q := Lower(search);
      Includes(Lower(e.plateNumber), q) || Includes(Lower(e.reason), q) || Includes(Lower(e.addedBy.username), q)
  {
    var q := Lower(search);
    if (e.reason == "" && Includes(Lower(e.reason), q)) || (e.addedBy.username == "" && Includes(Lower(e.addedBy.username), q)) {
      var i :| OccursAt(Lower(""), q, i);
      assert q == [];
      IncludesEmpty(Lower(e.plateNumber));
    }
  }

  /**
   * `filteredBlacklist`: the entries that pass, in their original order, with nothing added. An
   * entry is in the result exactly when it is in the list and passes.
   */
  function FilteredEntries(entries: seq<BlacklistRow>, search: string, statusFilter: string): (r: seq<BlacklistRow>)
    ensures IsSubsequence(r, entries)
    ensures forall e :: e in r <==> e in entries && Keep(e, search, statusFilter)
    ensures forall e :: multiset(r)[e] == if Keep(e, search, statusFilter) then multiset(entries)[e] else 0
  {
    var keep := e => Keep(e, search, statusFilter);
    FilterIsSubsequence(entries, keep);
    FilterCounts(entries, keep);
    Filter(entries, keep)
  }

  /** With the filter on `'All'` and an empty search every entry is shown. */
  lemma NoFilterKeepsAll(entries: seq<BlacklistRow>)
    ensures FilteredEntries(entries, "", "All") == entries
  {
    forall i | 0 <= i < |entries| ensures Keep(entries[i], "", "All") {
      IncludesEmpty(Lower(entries[i].plateNumber));
    }
    FilterAll(entries, e => Keep(e, "", "All"));
  }

  /** A cell that shows `'-'` for empty text: `x || '-'`. */
  function Cell(x: string): (shown: string)
    ensures shown != ""
    ensures x != "" ==> shown == x
    ensures x == "" ==> shown == "-"
  {
    if x != "" then x else "-"
  }

  /** The five text cells of a row: plate, adder's name, creation date, reason and status. */
  function RowCells(e: BlacklistRow): (cells: seq<string>)
    ensures |cells| == 5
    ensures cells[0] == e.plateNumber && cells[1] == e.addedBy.username && cells[2] == e.createAt
    ensures cells[3] != "" && cells[4] != ""
    ensures e.reason != "" ==> cells[3] == e.reason
    ensures e.status != "" ==> cells[4] == e.status
  {
    [e.plateNumber, e.addedBy.username, e.createAt, Cell(e.reason), Cell(e.status)]
  }

  /** The status badge is green for `'Active'` and red for anything else. */
  function BadgeIsGreen(e: BlacklistRow): (green: bool)
    ensures green <==> e.status == "Active"
  {
    e.status == "Active"
  }

  /** The page's state: the search text, the status filter and the current page. */
  class BlacklistView {
    const entries: seq<BlacklistRow>
    var search: string
    var statusFilter: string
    var page: int

    /** The previous button never fires on page 1, so the page never drops below 1. */
    predicate Valid()
      reads this
    {
      page >= 1
    }

    constructor()
      ensures Valid()
      ensures entries == SeedEntries && search == "" && statusFilter == "All" && page == 1
    {
      entries := SeedEntries;
      search := "";
      statusFilter := "All";
      page := 1;
    }

    function Filtered(): seq<BlacklistRow>
      reads this
    {
      FilteredEntries(entries, search, statusFilter)
    }

    function Total(): nat
      reads this
    {
      TotalPages(|Filtered()|)
    }

    /** `paginatedBlacklist`. */
    function Visible(): seq<BlacklistRow>
      reads this
    {
      PageOf(Filtered(), page)
    }

    /**
     * The table body: the cells of the page's entries, or "No blacklist entries found." exactly
     * when the page lies beyond the last.
     */
    function Body(): (b: Pagination.Body<seq<string>>)
      requires Valid()
      reads this
      ensures b.Message? <==> page > Total()
      ensures b.Message? ==> b.text == "No blacklist entries found."
      ensures b.Rows? ==> 1 <= |b.rows| <= PageSize && |b.rows| == |Visible()|
      ensures b.Rows? ==> forall i :: 0 <= i < |b.rows| ==> b.rows[i] == RowCells(Visible()[i])
    {
      var v := Visible();
      TableBody(seq(|v|, i requires 0 <= i < |v| => RowCells(v[i])), "No blacklist entries found.")
    }

    /** The label `Page {page} of {totalPages || 1}`. */
    function Label(): (l: (int, nat))
      reads this
      ensures l.0 == page && l.1 >= 1
      ensures Total() > 0 ==> l.1 == Total()
      ensures Total() == 0 ==> l.1 == 1
    {
      (page, PageLabel(Total()))
    }

    /** Typing in the search box; the page is kept as it is. */
    method SetSearch(s: string)
      requires Valid()
      modifies this
      ensures Valid()
      ensures search == s && statusFilter == old(statusFilter) && page == old(page)
    {
      search := s;
    }

    /** Choosing a status; the page is kept as it is. */
    method SetStatusFilter(s: string)
      requires Valid()
      modifies this
      ensures Valid()
      ensures statusFilter == s && search == old(search) && page == old(page)
    {
      statusFilter := s;
    }

    /** The previous button: one page back, unless it is disabled on page 1. */
    method ClickPrev()
      requires Valid()
      modifies this
      ensures Valid()
      ensures page == if PrevDisabled(old(page)) then old(page) else old(page) - 1
      ensures search == old(search) && statusFilter == old(statusFilter)
    {
      if !PrevDisabled(page) {
        page := page - 1;
      }
    }

    /** The next button: one page on, unless it is disabled on the last page or with no pages. */
    method ClickNext()
      requires Valid()
      modifies this
      ensures Valid()
      ensures page == if NextDisabled(old(page), old(Total())) then old(page) else old(page) + 1
      ensures search == old(search) && statusFilter == old(statusFilter)
    {
      if !NextDisabled(page, Total()) {
        page := page + 1;
      }
    }
  }

  /** Searching `"OFFICER"` finds the second seed entry through its adder's name, whatever the case. */
  lemma SearchByAdder()
    ensures FilteredEntries(SeedEntries, "OFFICER", "All") == [SeedEntries[1]]
  {
    FirstSeedMisses();
    SecondSeedMatches();
    var keep := e => Keep(e, "OFFICER", "All");
    assert SeedEntries[1..] == [SeedEntries[1]];
    assert Filter(SeedEntries[1..], keep) == [SeedEntries[1]] + Filter(SeedEntries[2..], keep);
  }

  // The lemmas below only serve `SearchByAdder`: they work the search out on the two seed entries.

  lemma SecondSeedMatches()
    ensures Keep(SeedEntries[1], "OFFICER", "All")
  {
    assert Lower("OFFICER") == "officer";
    assert OccursAt(Lower("officer1"), "officer", 0);
  }

  lemma FirstSeedMisses()
    ensures !Keep(SeedEntries[0], "OFFICER", "All")
  {
    var e := SeedEntries[0];
    assert e.plateNumber == "242-565-14" && e.reason == "Stolen vehicle" && e.addedBy.username == "admin";
    FirstSeedTextsMiss();
  }

  lemma FirstSeedTextsMiss()
    ensures !Includes(Lower("242-565-14"), Lower("OFFICER"))
    ensures !Includes(Lower("Stolen vehicle"), Lower("OFFICER"))
    ensures !Includes(Lower("admin"), Lower("OFFICER"))
  {
    LowerOfficer();
    PlateMisses();
    ReasonMisses();
    NameMisses();
  }

  lemma PlateMisses()
    ensures !Includes(Lower("242-565-14"), "officer")
  {
    NotInLower("242-565-14", 'o');
    Absent(Lower("242-565-14"), "officer", 0);
  }

  lemma ReasonMisses()
    ensures !Includes(Lower("Stolen vehicle"), "officer")
  {
    NotInLower("Stolen vehicle", 'f');
    Absent(Lower("Stolen vehicle"), "officer", 1);
  }

  lemma NameMisses()
    ensures !Includes(Lower("admin"), "officer")
  {
    NotInLower("admin", 'f');
    Absent(Lower("admin"), "officer", 1);
  }

  lemma LowerOfficer()
    ensures Lower("OFFICER") == "officer"
  {
  }

  /** A lower-case letter that a text has in neither case is missing from the lower-cased text. */
  lemma NotInLower(hay: string, c: char)
    requires 'a' <= c <= 'z' && c !in hay && UpperChar(c) !in hay
    ensures c !in Lower(hay)
  {
    forall i | 0 <= i < |hay| ensures Lower(hay)[i] != c {
      assert hay[i] != c && hay[i] != UpperChar(c);
    }
  }

  /** A search text never occurs in a text that lacks one of its letters. */
  lemma Absent(hay: string, q: string, k: nat)
    requires k < |q| && q[k] !in hay
    ensures !Includes(hay, q)
  {
    forall i ensures !OccursAt(hay, q, i) {
      if 0 <= i && i + |q| <= |hay| {
        assert hay[i..i + |q|][k] == hay[i + k];
      }
    }
  }
}
