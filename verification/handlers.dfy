/** The decision logic of the HTTP handlers: which checks run in which order, which status
    each failure maps to, and which repository operation runs on success. Writing the
    response is not modelled; a handler yields its status and the store it leaves. */
module Handlers {
  import opened Results
  import opened Model
  import opened Database
  import PageQuery
  import Pagination

  datatype Status = OK | Created | BadRequest | NotFound | Conflict | InternalServerError

  /** A request body: unreadable, not valid JSON for the expected record, or decoded. */
  datatype Body<T> = Unreadable | Malformed | Parsed(value: T)

  datatype Response = Response(status: Status, store: Store)

  /** What the member listing answers: a refusal with a status, a page, or a slice whose
      end lies past the member list, for which no well-defined response exists. It differs
      from `Pagination.Outcome` in carrying the handler's own refusals (missing merchant,
      unparsable page) as statuses, with an out-of-bounds page folded into `NotFound`. */
  datatype PageReply =
    | Refused(status: Status)
    | Served(result: Pagination.PageResult)
    | SliceOutOfRange(low: nat, high: nat, length: nat)

  /** The codes of `merchants`, position by position. */
  method CollectCodes(merchants: seq<Merchant>) returns (codes: seq<string>)
    ensures |codes| == |merchants|
    ensures forall j :: 0 <= j < |codes| ==> codes[j] == merchants[j].code
  {
    codes := [];
    var i := 0;
    while i < |merchants|
      invariant 0 <= i <= |merchants|
      invariant |codes| == i
      invariant forall j :: 0 <= j < i ==> codes[j] == merchants[j].code
    {
      codes := codes + [merchants[i].code];
      i := i + 1;
    }
  }

  /** Lists the codes of the stored merchants, one per merchant, in listing order; `order`
      is the sequence of keys the store visited. */
  method HandleGetMerchants(s: Store) returns (codes: seq<string>, ghost order: seq<string>)
    ensures |codes| == |s|
    ensures |order| == |codes| && Distinct(order)
    ensures forall k :: k in s ==> k in order
    ensures forall i :: 0 <= i < |codes| ==> order[i] in s && codes[i] == s[order[i]].code
    ensures forall k :: k in s ==> s[k].code in codes
    ensures forall i :: 0 <= i < |codes| ==> exists k :: k in s && s[k].code == codes[i]
    ensures WellFormed(s) ==> Distinct(codes)
  {
    var merchants;
    merchants, order := ListMerchants(s);
    codes := CollectCodes(merchants);
    forall k | k in s
      ensures s[k].code in codes
    {
      var j :| 0 <= j < |order| && order[j] == k;
      assert s[k].code == codes[j];
    }
    forall i | 0 <= i < |codes|
      ensures exists k :: k in s && s[k].code == codes[i]
    {
      assert s[order[i]].code == codes[i];
    }
    if WellFormed(s) {
      forall i, j | 0 <= i < j < |codes|
        ensures codes[i] != codes[j]
      {
        assert codes[i] == order[i] && codes[j] == order[j];
      }
    }
  }

  /** Adds a merchant under the code in the body, refusing a code already stored; the
      members in the body are ignored. */
  function HandleAddMerchant(s: Store, body: Body<Merchant>): (r: Response)
    ensures r.status == BadRequest <==> !body.Parsed?
    ensures r.status == Conflict <==> body.Parsed? && body.value.code in s
    ensures r.status == Created <==> body.Parsed? && body.value.code !in s
    ensures r.status == Created ==>
      var c := body.value.code;
      && r.store.Keys == s.Keys + {c}
      && r.store[c] == Merchant(c, [])
      && (forall k :: k in s ==> r.store[k] == s[k])
    ensures r.status != Created ==> r.store == s
  {
    match body
    case Unreadable => Response(BadRequest, s)
    case Malformed => Response(BadRequest, s)
    case Parsed(m) =>
      if GetMerchant(s, m.code).Ok? then Response(Conflict, s)
      else
        var step := CreateMerchant(s, Some(m.code), m.code);
        if step.result.Err? then Response(InternalServerError, s)
        else Response(Created, step.store)
  }

  /** Deletes a stored merchant; the key removed is the code read from the stored
      merchant. */
  function HandleDeleteMerchant(s: Store, code: string): (r: Response)
    ensures r.status == NotFound <==> code !in s
    ensures r.status == OK <==> code in s
    ensures code !in s ==> r.store == s
    ensures code in s ==> r.store == s - {s[code].code}
  {
    match GetMerchant(s, code)
    case Err(_) => Response(NotFound, s)
    case Ok(m) =>
      var step := DeleteMerchant(s, m.code);
      if step.result.Err? then Response(InternalServerError, s)
      else Response(OK, step.store)
  }

  /** In a well-formed store, deleting an existing merchant removes its key and nothing
      else, after which reading it fails. */
  lemma DeleteMerchantRemovesOnlyCode(s: Store, code: string)
    requires WellFormed(s) && code in s
    ensures var r := HandleDeleteMerchant(s, code);
      && r.status == OK
      && r.store == s - {code}
      && GetMerchant(r.store, code).Err?
  {
  }

  /** Adds a member to a merchant after checking, in this order, that the body was read,
      that the merchant exists, that the body decodes and that no member has the email. */
  function HandleAddMember(s: Store, code: string, body: Body<Member>): (r: Response)
    ensures r.status == BadRequest <==> body.Unreadable? || (code in s && body.Malformed?)
    ensures r.status == NotFound <==> !body.Unreadable? && code !in s
    ensures r.status == Conflict <==> body.Parsed? && code in s && HasEmail(s[code].members, body.value.email)
    ensures r.status == Created <==> body.Parsed? && code in s && !HasEmail(s[code].members, body.value.email)
    ensures r.status == Created ==>
      && r.store.Keys == s.Keys
      && (forall k :: k in s && k != code ==> r.store[k] == s[k])
      && r.store[code].code == s[code].code
      && r.store[code].members == s[code].members + [body.value]
    ensures r.status != Created ==> r.store == s
  {
    if body.Unreadable? then Response(BadRequest, s)
    else
      match GetMerchant(s, code)
      case Err(_) => Response(NotFound, s)
      case Ok(m) =>
        if body.Malformed? then Response(BadRequest, s)
        else if HasEmail(m.members, body.value.email) then Response(Conflict, s)
        else
          var step := CreateMember(s, code, body.value.email);
          if step.result.Err? then Response(InternalServerError, s)
          else Response(Created, step.store)
  }

  /** Deletes a member after checking that the merchant exists and has a member with the
      email. */
  function HandleDeleteMember(s: Store, code: string, email: string): (r: Response)
    ensures r.status == NotFound <==> code !in s || !HasEmail(s[code].members, email)
    ensures r.status == OK <==> code in s && HasEmail(s[code].members, email)
    ensures r.status == OK ==>
      && r.store.Keys == s.Keys
      && (forall k :: k in s && k != code ==> r.store[k] == s[k])
      && r.store[code].code == s[code].code
      && |r.store[code].members| == |s[code].members| - 1
      && multiset(r.store[code].members) == multiset(s[code].members) - multiset{Member(email)}
    ensures r.status != OK ==> r.store == s
  {
    match GetMerchant(s, code)
    case Err(_) => Response(NotFound, s)
    case Ok(m) =>
      if !HasEmail(m.members, email) then Response(NotFound, s)
      else
        var step := DeleteMember(s, code, email);
        if step.result.Err? then Response(InternalServerError, s)
        else Response(OK, step.store)
  }

  /** A successful delete removes the first member with the email by moving the last member
      into its slot; every other slot keeps its member, so the listing's order is otherwise
      unchanged. */
  lemma DeleteMemberSwapsWithLast(s: Store, code: string, email: string)
    requires code in s && HasEmail(s[code].members, email)
    ensures var r := HandleDeleteMember(s, code, email);
      var old_ms := s[code].members;
      var new_ms := r.store[code].members;
      && r.status == OK
      && exists i :: 0 <= i < |old_ms| && old_ms[i].email == email
           && (forall j :: 0 <= j < i ==> old_ms[j].email != email)
           && (i < |new_ms| ==> new_ms[i] == old_ms[|old_ms| - 1])
           && (forall j :: 0 <= j < |new_ms| && j != i ==> new_ms[j] == old_ms[j])
  {
    var i := FirstIndexOf(s[code].members, email).value;
    DeleteMemberReplacesFirstMatch(s, code, email, i);
  }

  /** Lists one page of a merchant's members: the merchant must exist, the page parameter
      must parse, and the page must lie between 1 and the page count. */
  function HandleGetMember(s: Store, code: string, pageQuery: string): (r: PageReply)
    ensures code !in s ==> r == Refused(NotFound)
    ensures r == Refused(BadRequest) <==> code in s && PageQuery.ParsePage(pageQuery).None?
    ensures code in s && PageQuery.ParsePage(pageQuery).Some? ==>
      var page := PageQuery.ParsePage(pageQuery).value;
      (r == Refused(NotFound) <==> page < 1 || page > Pagination.TotalPages(|s[code].members|))
    ensures code in s && s[code].members == [] ==> r.Refused?
    ensures code in s && PageQuery.ParsePage(pageQuery).Some? ==>
      var page := PageQuery.ParsePage(pageQuery).value;
      var tp := Pagination.TotalPages(|s[code].members|);
      && (1 <= page <= tp ==> r.Served? || (r.SliceOutOfRange? && page == tp))
      && (1 <= page < tp ==> r.Served? && |r.result.data| == Pagination.ItemsPerPage)
    ensures r.Served? ==>
      && code in s
      && PageQuery.ParsePage(pageQuery) == Some(r.result.page)
      && r.result.totalPages == Pagination.TotalPages(|s[code].members|)
    ensures r.Served? ==>
      var ms := s[code].members;
      var low := Pagination.ItemsPerPage * (r.result.page - 1);
      && 1 <= r.result.page <= Pagination.TotalPages(|ms|)
      && r.result.count == |r.result.data|
      && low + |r.result.data| <= |ms|
      && r.result.data == ms[low..low + |r.result.data|]
    ensures r.SliceOutOfRange? ==>
      && code in s
      && PageQuery.ParsePage(pageQuery) == Some(Pagination.TotalPages(|s[code].members|))
      && r.length == |s[code].members| < r.high
  {
    match GetMerchant(s, code)
    case Err(_) => Refused(NotFound)
    case Ok(m) =>
      match PageQuery.ParsePage(pageQuery)
      case None => Refused(BadRequest)
      case Some(page) =>
        match Pagination.Paginate(m.members, page)
        case OutOfBounds => Refused(NotFound)
        case BadSlice(low, high, length) => SliceOutOfRange(low, high, length)
        case Page(result) => Served(result)
  }

  /** The handler's last page follows the as-written rule: it ends at
      `20 * (page - 1) + totalPages % 20`, and is served only when that end lies within the
      member list. */
  lemma GetMemberLastPage(s: Store, code: string, pageQuery: string)
    requires code in s && |s[code].members| > 0
    requires PageQuery.ParsePage(pageQuery) == Some(Pagination.TotalPages(|s[code].members|))
    ensures var ms := s[code].members;
      var tp := Pagination.TotalPages(|ms|);
      var low := Pagination.ItemsPerPage * (tp - 1);
      var high := low + tp % Pagination.ItemsPerPage;
      && (high <= |ms| ==> HandleGetMember(s, code, pageQuery) == Served(Pagination.PageResult(tp, tp, tp % Pagination.ItemsPerPage, ms[low..high])))
      && (high > |ms| ==> HandleGetMember(s, code, pageQuery) == SliceOutOfRange(low, high, |ms|))
  {
    Pagination.LastPageAsWritten(s[code].members);
  }

  /** With no page parameter the first page is listed, for any merchant with members. */
  lemma GetMemberDefaultsToFirstPage(s: Store, code: string)
    requires code in s && |s[code].members| > 0
    ensures HandleGetMember(s, code, "").Served?
    ensures HandleGetMember(s, code, "").result.page == 1
  {
  }
}
