# Merchant service: a Dafny model

This project models the core of a small Go HTTP service that keeps merchants in an
embedded key-value store. Each merchant has a code and an ordered list of members, and
each member is identified by an email. The whole merchant is stored as one JSON value
under its code. The model covers:

- the two record types (`api/model.go`);
- the repository operations over the store (`api/database.go`): create, read, list and
  delete merchants, and append and swap-with-last removal of members;
- the decision logic of the HTTP handlers (`api/handlers.go`): the existence and
  duplicate checks that run before each repository call, the status each failure maps to,
  the code projection of the merchant listing, and the page parsing, bounds and slicing
  of the member listing.

The store is a `map<string, Merchant>`. The operations that change the store are pure
functions returning a `Database.Step`: the value or error returned, plus the store left
behind. `GetMerchant` returns a `Result` and leaves the store alone. `ListMerchants` is a
method, because the store chooses the order in which it visits its keys.
The JSON value is modelled at the token level (`Codec`). Decoding is proved to be exactly
the inverse of encoding, which is why the store can hold merchant values directly.

Modules:

- `Results`: `Option` and `Result`.
- `Model`: `Member` and `Merchant`.
- `Codec`: the JSON token form of a merchant.
- `Database`: the repository.
- `PageQuery`: the `page` query parameter and `strconv.Atoi`.
- `Pagination`: the member paging, as written and corrected.
- `Handlers`: the request handlers.
- `Service`: the invariant the handlers keep.

With exactly 40 members the last-page rule gives `20 + 2 % 20 = 22`, so page 2 holds the
members at positions 20 and 21, and those at positions 22 to 39 are never listed
(`Pagination.FortyMembers`).

## Model

| member | source | states |
|---|---|---|
| Model.MemberIdentity | api/model.go:8-10 | a member is nothing but its email: two members are equal exactly when their emails are |
| Codec.DecodeEncodedMembers | api/model.go:5 | the member array decoder reads back any encoded member list, in order, and stops right after the closing bracket |
| Codec.RoundTrip | api/database.go:93-100 | decoding the stored encoding of any merchant yields that merchant: same code, same members in the same order, for zero members too |
| Codec.DecodedMembersAreEncoded | api/model.go:5 | whatever the member array decoder accepts is the encoding of the members it returns |
| Codec.DecodedIsEncoding | api/model.go:3-10 | the decoder accepts only encodings: a token sequence that decodes to a merchant is that merchant's encoding |
| Database.CreateMerchant | api/database.go:62-83 | always succeeds; the key is the given code, or the generated one when none is given; the new merchant has that code and no members; it replaces anything stored under that key and leaves every other key as it was |
| Database.GetMerchant | api/database.go:85-107 | succeeds exactly when the key is stored, returning the stored merchant; otherwise fails with the missing-key error |
| Database.DeleteMerchant | api/database.go:134-141 | succeeds whether or not the key exists; removes exactly that key and leaves the other entries unchanged |
| Database.CreateMember | api/database.go:143-159 | fails and changes nothing when the merchant is absent; otherwise keeps the old member list as a prefix, with the new email one past its end, and does not check for duplicates; other keys and the stored code are unchanged |
| Database.FirstIndexOf | api/database.go:166-172 | finds a position exactly when some member has the email; that member has the email and no earlier member does |
| Database.SwapRemoveMultiset | api/database.go:176-178 | overwriting a slot with the last member and dropping the last slot removes exactly one copy of the overwritten member from the multiset |
| Database.SwapRemove | api/database.go:176-178 | the list shrinks by one; the removed slot holds the old last member; every other remaining slot is unchanged; the multiset loses exactly the removed member |
| Database.DeleteMember | api/database.go:161-189 | fails on a missing merchant, and with member-not-found when no member has the email, leaving the store unchanged in both cases; on success the list is one shorter, its multiset is the old one minus one `Member(email)`, and other keys are untouched |
| Database.DeleteMemberReplacesFirstMatch | api/database.go:166-178 | on success the first member with the email is the one removed: its slot now holds the old last member and no other slot changes |
| Database.CreateThenGet | api/database_test.go:15-27 | reading back a merchant just created gives the code used and no members |
| Database.DeleteThenGet | api/database_test.go:46-61 | reading a merchant after deleting it fails |
| Database.AddThenDeleteFreshRestores | api/database.go:143-189 | adding an email the merchant lacks and then deleting it gives back the original store exactly, so the original length too |
| Database.CreateAddDeleteLeavesEmpty | api/database_test.go:82-106 | a new merchant given one member holds just that member, and after deleting it holds none |
| Database.CreateAll | api/database_test.go:33-37 | repeated creation without a code adds each generated key with an empty merchant and keeps the other keys |
| Database.CreateAllCount | api/database_test.go:33-41 | N creations with distinct fresh generated codes grow the store by exactly N merchants |
| Database.ListMerchants | api/database.go:109-132 | lists every stored merchant exactly once: one entry per key, in the order the store visits its keys |
| PageQuery.Atoi | api/handlers.go:174-178 | a parsed page is an integer that fits in 64 bits, read from a non-empty string |
| PageQuery.AtoiNumeral | api/handlers.go:174-178 | an optional sign followed by digits, leading zeros and `+` included, is read as the integer it denotes when that fits 64 bits and is invalid input when it does not |
| PageQuery.AtoiOnlyNumerals | api/handlers.go:174-178 | every accepted parameter is a sign followed by at least one digit, and the page is the integer they denote |
| PageQuery.OutOfRangeRejected | api/handlers.go:174-177 | the decimal rendering of an integer outside 64 bits, such as 9223372036854775808, is invalid input |
| PageQuery.NonCanonicalNumerals | api/handlers.go:174 | `+5`, `007` and `-0` are read as 5, 7 and 0 |
| PageQuery.ParsePage | api/handlers.go:171-179 | an empty or absent page parameter means page 1; any other value is read by Atoi; any page parsed fits a 64-bit int |
| PageQuery.Digits | api/handlers.go:174 | the decimal digits produced for a natural number are non-empty, all digits, and denote that number |
| PageQuery.AtoiItoa | api/handlers.go:174 | every 64-bit integer is read back from its decimal rendering |
| PageQuery.NonNumericPageRejected | api/handlers.go:173-178 | a page parameter containing a non-digit, other than a leading sign, is invalid input |
| PageQuery.LoneSignRejected | api/handlers.go:174-177 | a sign with no digits is invalid input |
| Pagination.TotalPages | api/handlers.go:180-181 | the page count is the integer ceiling of the member count over 20, and is 0 exactly for no members |
| Pagination.Paginate | api/handlers.go:180-195 | refuses exactly the pages below 1 or above the page count; every earlier page holds exactly the 20 members from position `20 * (page - 1)`; a served page is a contiguous slice starting there, with `count` equal to its length |
| Pagination.LastPageAsWritten | api/handlers.go:188-193 | the last page ends at `20 * (page - 1) + totalPages % 20`; it is served when that end lies within the list and is a slice out of range otherwise |
| Pagination.LastPageCompleteIff | api/handlers.go:188-193 | the last page holds exactly the members left after the earlier pages if and only if the page count modulo 20 equals how many are left |
| Pagination.FortyFiveMembers | api/handlers.go:186-195 | 45 members give 3 pages of 20, 20 and 3 members |
| Pagination.FiveMembers | api/handlers.go:186-195 | 5 members give one page holding 1 member |
| Pagination.FortyOneMembers | api/handlers.go:188-193 | with 41 members, page 3 would end at 43, beyond the 41 members |
| Pagination.FortyMembers | api/handlers.go:188-193 | with 40 members, page 2 ends at 22 and holds 2 members |
| Pagination.AsWrittenHidesTail | api/handlers.go:191 | with 45 members, no page shows the members at positions 43 and 44 |
| Pagination.EmptyListHasNoPages | api/handlers.go:180-185 | every page is refused for a merchant without members |
| Pagination.PaginateCorrected | api/handlers.go:186-195 | with the last page ending at the list's end, no slice is out of range; earlier pages hold 20 members and the last holds between 1 and 20, ending at the last member |
| Pagination.PagesFromSuffix | api/handlers.go:186-195 | the corrected pages from a given page on, joined in order, are exactly the members from that page's first position on |
| Pagination.CorrectedPagesPartition | api/handlers.go:186-195 | the corrected pages joined in order are the member list itself, so every member is shown on exactly one page |
| Handlers.CollectCodes | api/handlers.go:44-47 | the codes are taken position by position from the listed merchants |
| Handlers.HandleGetMerchants | api/handlers.go:38-49 | one code per stored merchant, in the order the store visits its keys: the code at each position is the code of the merchant under the key visited there, every key is visited exactly once, and codes are distinct when every merchant is stored under its own code |
| Handlers.HandleAddMerchant | api/handlers.go:51-76 | a body that cannot be read or decoded is a bad request; a stored code is a conflict and changes nothing; otherwise the merchant is created empty, ignoring any members in the body, and no other key changes |
| Handlers.HandleDeleteMerchant | api/handlers.go:78-91 | an absent merchant is not found and changes nothing; otherwise the key named by the stored merchant's code is removed |
| Handlers.DeleteMerchantRemovesOnlyCode | api/handlers.go:80-85 | when every merchant is stored under its own code, deleting an existing merchant removes exactly its key, and reading it afterwards fails |
| Handlers.HandleAddMember | api/handlers.go:93-126 | checks, in order: a readable body, an existing merchant, a decodable body, an email not already present; each failure maps to its status and changes nothing; on success the email is appended and nothing else changes |
| Handlers.HandleDeleteMember | api/handlers.go:128-154 | an absent merchant or email is not found and changes nothing; otherwise the list is one shorter and loses exactly one `Member(email)`; other keys are unchanged |
| Handlers.DeleteMemberSwapsWithLast | api/handlers.go:136-153 | a successful delete through the handler removes the first member with the email by moving the old last member into its slot; every other remaining member keeps its position, which fixes the order the member listing pages over |
| Handlers.HandleGetMember | api/handlers.go:156-203 | an absent merchant is not found; an unparsable page is a bad request; a page outside 1 to the page count is not found, so every page is refused for a merchant without members; a page in range is served, except that the last page can be a slice out of range; a page before the last is served with 20 members; a served page carries the parsed page number and the page count, and is the contiguous slice of the members starting at `20 * (page - 1)`, with `count` equal to its length |
| Handlers.GetMemberLastPage | api/handlers.go:188-193 | the handler's last page ends at `20 * (page - 1) + totalPages % 20`: served when that end lies within the members, a slice out of range otherwise |
| Handlers.GetMemberDefaultsToFirstPage | api/handlers.go:171-172 | without a page parameter, a merchant with members is served its first page |
| Service.AddMerchantPreservesInvariant | api/handlers.go:59-75 | adding a merchant keeps every merchant under its own code with unique emails |
| Service.DeleteMerchantPreservesInvariant | api/handlers.go:78-90 | deleting a merchant keeps the invariant |
| Service.AppendFreshKeepsUnique | api/handlers.go:114-120 | appending an email not yet present keeps emails unique |
| Service.AddMemberPreservesInvariant | api/handlers.go:114-120 | because duplicate emails are refused before the repository is called, adding a member keeps emails unique |
| Service.CreateMemberAllowsDuplicate | api/database.go:148 | the repository alone appends an email that is already present, after which emails are not unique |
| Service.SwapRemoveKeepsUnique | api/database.go:176-178 | swap-with-last removal keeps emails unique, and the removed email no longer occurs |
| Service.DeleteMemberPreservesInvariant | api/handlers.go:136-148 | deleting a member keeps the invariant, and a successful delete leaves no member with that email |

## Left out

- Store lifecycle (`InitDb`, `CloseDb`, `createInitData`, api/database.go:15-60): disk I/O, file-system checks and random seed emails. The empty store is where the model starts.
- UUID generation (api/database.go:63-66): the generated code is a parameter of `CreateMerchant`. Its distinctness is a hypothesis of `CreateAllCount`, not a proved fact.
- Storage and transaction failures: set, delete and commit are modelled as always succeeding. So the handlers' internal-server-error branches exist in the model but are never taken, except the listing's, whose failure is the decode failure listed below.
- Empty keys: the underlying store rejects an empty key, so adding a merchant whose body has no code fails there. That store is not part of this model, and the model accepts `""` as a key.
- Decode failures in `getMerchant` and `listMerchants` (api/database.go:97-100,120-123): every stored value is written by an encoder that `Codec.RoundTrip` proves decodable, so the model stores merchants directly and these branches cannot arise.
- JSON below the token level: separators, whitespace, string escaping, and the Go decoder's leniency (field order, unknown or missing fields, `null` arrays).
- Key order of the listing: the store visits keys in ascending byte order. `ListMerchants` lets the store pick any order, and its ghost `order` records it.
- Concurrency: the separate read and write transactions of member add and delete can lose updates when requests interleave. The model is sequential.
- Response writing (`jsonResponse`, `messageResponse`, api/handlers.go:14-36): only the status, and the page for the member listing, are kept. The message texts are dropped.
- api/router.go and main/main.go: route table and server start-up.
- Pagination.TotalPages: uses integer ceiling `(n + 19) / 20` instead of the floating-point `math.Ceil` at api/handlers.go:181. The two agree for any list that fits in memory.
- PageQuery.Atoi: does not distinguish a syntax error from a range error, because the handler maps both to a bad request.
- Handlers.HandleGetMember: `SliceOutOfRange` stands for whatever the Go runtime does with a slice end past the length. It panics beyond the slice's capacity, and between length and capacity it exposes unused slots. Capacity is not modelled.

## Findings

| source | as written | input that shows it | evidently intended | confidence | as-written member | corrected member |
|---|---|---|---|---|---|---|
| api/handlers.go:191 | the last page ends at `low + (totalPages % itemPerPage)`, using the page count where the count of remaining members belongs | 45 members, page 3: 3 members served although 5 remain, so the members at positions 43 and 44 are never shown; 41 members, page 3: slice end 43 past length 41 | the last page ends at the end of the member list | high (not executed) | Pagination.AsWrittenHidesTail | Pagination.CorrectedPagesPartition |

`Handlers.HandleGetMember` keeps the as-written rule, because it describes the service as
it behaves. `Pagination.PaginateCorrected` is the corrected rule. The paging properties
the service evidently intends are proved for it: no slice out of range, full pages before
the last, and every member shown exactly once.
