/** Paging of a merchant's members, twenty to a page, as the member listing computes it,
    next to the rule it evidently meant. */
module Pagination {
  import opened Model

  const ItemsPerPage: nat := 20

  /** The page count: the integer ceiling of `n / 20`, so 0 for no members. */
  function TotalPages(n: nat): (tp: nat)
    ensures tp * ItemsPerPage >= n
    ensures tp > 0 ==> (tp - 1) * ItemsPerPage < n
    ensures tp == 0 <==> n == 0
  {
    (n + ItemsPerPage - 1) / ItemsPerPage
  }

  /** The body of a successful listing. */
  datatype PageResult = PageResult(page: int, totalPages: nat, count: nat, data: seq<Member>)

  /** A page out of bounds is refused; a slice whose end lies beyond the member list is
      reported as such rather than given a result. */
  datatype Outcome =
    | OutOfBounds
    | BadSlice(low: nat, high: nat, length: nat)
    | Page(result: PageResult)

  /** The listing as written: pages before the last end at `low + 20`; the last one ends
      at `low + totalPages % 20`. */
  function Paginate(members: seq<Member>, page: int): (r: Outcome)
    ensures r.OutOfBounds? <==> page < 1 || page > TotalPages(|members|)
    ensures r.Page? ==> r.result.page == page && r.result.totalPages == TotalPages(|members|)
    ensures r.Page? ==> r.result.count == |r.result.data|
    ensures r.Page? ==> var low := ItemsPerPage * (page - 1);
      low + |r.result.data| <= |members| && r.result.data == members[low..low + |r.result.data|]
    ensures 1 <= page < TotalPages(|members|) ==>
      r.Page? && |r.result.data| == ItemsPerPage && r.result.data == members[ItemsPerPage * (page - 1)..ItemsPerPage * page]
  {
    var n := |members|;
    var tp := TotalPages(n);
    if page > tp || page < 1 then OutOfBounds
    else
      var low: nat := ItemsPerPage * (page - 1);
      var high: nat := if page == tp then low + tp % ItemsPerPage else low + ItemsPerPage;
      if n > 0 && high > n then BadSlice(low, high, n)
      else
        var data := if n > 0 then members[low..high] else [];
        Page(PageResult(page, tp, |data|, data))
  }

  /** On the last page the slice ends at `20 * (page - 1) + totalPages % 20`: the page is
      served when that end lies within the list and is a bad slice otherwise. */
  lemma LastPageAsWritten(members: seq<Member>)
    requires |members| > 0
    ensures var tp := TotalPages(|members|);
      var low := ItemsPerPage * (tp - 1);
      var high := low + tp % ItemsPerPage;
      && (high <= |members| ==> Paginate(members, tp) == Page(PageResult(tp, tp, tp % ItemsPerPage, members[low..high])))
      && (high > |members| ==> Paginate(members, tp) == BadSlice(low, high, |members|))
  {
  }

  /** The last page as written holds exactly the members left after the earlier pages
      only when the page count modulo 20 equals the number of those members. */
  lemma LastPageCompleteIff(members: seq<Member>)
    requires |members| > 0
    ensures var tp := TotalPages(|members|);
      var r := Paginate(members, tp);
      (r.Page? && r.result.data == members[ItemsPerPage * (tp - 1)..]) <==> tp % ItemsPerPage == |members| - ItemsPerPage * (tp - 1)
  {
    var tp := TotalPages(|members|);
    var r := Paginate(members, tp);
    if r.Page? && r.result.data == members[ItemsPerPage * (tp - 1)..] {
      assert |r.result.data| == |members| - ItemsPerPage * (tp - 1);
    }
  }

  /** 45 members: three pages, and the third holds 3 members although 5 remain. */
  lemma FortyFiveMembers(members: seq<Member>)
    requires |members| == 45
    ensures TotalPages(|members|) == 3
    ensures Paginate(members, 1).Page? && Paginate(members, 1).result.count == ItemsPerPage
    ensures Paginate(members, 2).Page? && Paginate(members, 2).result.count == ItemsPerPage
    ensures Paginate(members, 3) == Page(PageResult(3, 3, 3, members[40..43]))
  {
    LastPageAsWritten(members);
  }

  /** 5 members: one page, holding 1 member. */
  lemma FiveMembers(members: seq<Member>)
    requires |members| == 5
    ensures Paginate(members, 1) == Page(PageResult(1, 1, 1, members[..1]))
  {
    LastPageAsWritten(members);
  }

  /** 41 members: the third page would end at 43, past the 41st member. */
  lemma FortyOneMembers(members: seq<Member>)
    requires |members| == 41
    ensures Paginate(members, 3) == BadSlice(40, 43, 41)
  {
    LastPageAsWritten(members);
  }

  /** 40 members: the second page ends at 22 and holds 2 members, not 20. */
  lemma FortyMembers(members: seq<Member>)
    requires |members| == 40
    ensures Paginate(members, 2) == Page(PageResult(2, 2, 2, members[20..22]))
  {
    LastPageAsWritten(members);
  }

  /** With 45 members the as-written listing never shows the members at positions 43 and
      44, whatever page is asked for. */
  lemma AsWrittenHidesTail(members: seq<Member>, page: int)
    requires |members| == 45
    ensures Paginate(members, page).Page? ==>
      ItemsPerPage * (page - 1) + Paginate(members, page).result.count <= 43
  {
    FortyFiveMembers(members);
    if 1 <= page <= 3 {
      assert page == 1 || page == 2 || page == 3;
    }
  }

  /** No page number is valid for a merchant without members. */
  lemma EmptyListHasNoPages(members: seq<Member>, page: int)
    requires |members| == 0
    ensures Paginate(members, page) == OutOfBounds
  {
  }

  /** The evidently intended listing: the last page ends at the end of the list. */
  function PaginateCorrected(members: seq<Member>, page: int): (r: Outcome)
    ensures !r.BadSlice?
    ensures r.OutOfBounds? <==> page < 1 || page > TotalPages(|members|)
    ensures r.Page? ==> r.result.page == page && r.result.totalPages == TotalPages(|members|)
    ensures r.Page? ==> r.result.count == |r.result.data|
    ensures r.Page? ==> 1 <= |r.result.data| <= ItemsPerPage
    ensures r.Page? ==> var low := ItemsPerPage * (page - 1);
      && low + |r.result.data| <= |members|
      && r.result.data == members[low..low + |r.result.data|]
      && (page < TotalPages(|members|) ==> |r.result.data| == ItemsPerPage)
      && (page == TotalPages(|members|) ==> low + |r.result.data| == |members|)
  {
    var n := |members|;
    var tp := TotalPages(n);
    if page > tp || page < 1 then OutOfBounds
    else
      var low: nat := ItemsPerPage * (page - 1);
      var high: nat := if page == tp then n else low + ItemsPerPage;
      var data := members[low..high];
      Page(PageResult(page, tp, |data|, data))
  }

  /** The corrected pages from `from` to the last one, joined in order. */
  function PagesFrom(members: seq<Member>, from: int): seq<Member>
    requires from >= 1
    decreases TotalPages(|members|) + 1 - from
  {
    if from > TotalPages(|members|) then []
    else PaginateCorrected(members, from).result.data + PagesFrom(members, from + 1)
  }

  /** The corrected pages from `from` on hold exactly the members from position
      `20 * (from - 1)` on. */
  lemma {:induction false} PagesFromSuffix(members: seq<Member>, from: int)
    requires 1 <= from <= TotalPages(|members|) + 1
    ensures ItemsPerPage * (from - 1) >= |members| ==> PagesFrom(members, from) == []
    ensures ItemsPerPage * (from - 1) < |members| ==> PagesFrom(members, from) == members[ItemsPerPage * (from - 1)..]
    decreases TotalPages(|members|) + 1 - from
  {
    var n := |members|;
    var tp := TotalPages(n);
    var low := ItemsPerPage * (from - 1);
    if from <= tp {
      assert low < n;
      var data := PaginateCorrected(members, from).result.data;
      assert PagesFrom(members, from) == data + PagesFrom(members, from + 1);
      PagesFromSuffix(members, from + 1);
      if from == tp {
        assert low + ItemsPerPage >= n;
        assert data == members[low..];
      } else {
        assert low + ItemsPerPage < n;
        assert data == members[low..low + ItemsPerPage];
        assert members[low..] == members[low..low + ItemsPerPage] + members[low + ItemsPerPage..];
      }
    } else {
      assert low >= n;
    }
  }

  /** Every member is shown exactly once by the corrected listing: its pages joined in
      order are the member list itself. */
  lemma CorrectedPagesPartition(members: seq<Member>)
    ensures PagesFrom(members, 1) == members
  {
    PagesFromSuffix(members, 1);
  }
}
