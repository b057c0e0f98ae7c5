/** The merchant repository over the key-value store. The store is a map from key to the
    merchant kept there. The operations that change the store are pure functions returning
    a `Step`: the value or error the repository returns, plus the store left behind.
    `GetMerchant` returns a `Result` and leaves the store alone; `ListMerchants` is a
    method, because the store chooses the order in which it visits its keys. */
module Database {
  import opened Results
  import opened Model

  type Store = map<string, Merchant>

  /** `KeyNotFound` is the store's missing-key error; `MemberNotFound` is raised by
      member deletion. */
  datatype DbError = KeyNotFound | MemberNotFound

  /** What an operation returns, and the store it leaves behind. */
  datatype Step<T> = Step(result: Result<T, DbError>, store: Store)

  /** Every merchant is stored under its own code. */
  predicate WellFormed(s: Store)
  {
    forall k :: k in s ==> s[k].code == k
  }

  /** Creates a merchant with no members under `code`, or under `generated` (a fresh
      identifier supplied by the caller) when no code is given. Any merchant already
      stored under that key is replaced. */
  function CreateMerchant(s: Store, code: Option<string>, generated: string): (r: Step<Merchant>)
    ensures r.result.Ok?
    ensures code.Some? ==> r.result.value.code == code.value
    ensures code.None? ==> r.result.value.code == generated
    ensures r.result.value.members == []
    ensures r.store.Keys == s.Keys + {r.result.value.code}
    ensures r.store[r.result.value.code] == r.result.value
    ensures forall k :: k in s && k != r.result.value.code ==> r.store[k] == s[k]
    ensures WellFormed(s) ==> WellFormed(r.store)
  {
    var c := if code.Some? then code.value else generated;
    var m := Merchant(c, []);
    Step(Ok(m), s[c := m])
  }

  /** Looks up the merchant stored under `code`. */
  function GetMerchant(s: Store, code: string): (r: Result<Merchant, DbError>)
    ensures r.Ok? <==> code in s
    ensures r.Ok? ==> r.value == s[code]
    ensures r.Err? ==> r.error == KeyNotFound
  {
    if code in s then Ok(s[code]) else Err(KeyNotFound)
  }

  /** Removes the key `code`, whether or not it is present. */
  function DeleteMerchant(s: Store, code: string): (r: Step<()>)
    ensures r.result.Ok?
    ensures r.store.Keys == s.Keys - {code}
    ensures forall k :: k in r.store ==> r.store[k] == s[k]
    ensures WellFormed(s) ==> WellFormed(r.store)
  {
    Step(Ok(()), s - {code})
  }

  /** Reads the merchant under `code`, appends a member with `email` (without looking for
      an existing one) and writes the merchant back under the same key. */
  function CreateMember(s: Store, code: string, email: string): (r: Step<()>)
    ensures r.result.Err? <==> code !in s
    ensures r.result.Err? ==> r.result.error == KeyNotFound && r.store == s
    ensures r.result.Ok? ==>
      && r.store.Keys == s.Keys
      && (forall k :: k in s && k != code ==> r.store[k] == s[k])
      && r.store[code].code == s[code].code
      && |r.store[code].members| == |s[code].members| + 1
      && r.store[code].members[..|s[code].members|] == s[code].members
      && r.store[code].members[|s[code].members|] == Member(email)
    ensures WellFormed(s) ==> WellFormed(r.store)
  {
    match GetMerchant(s, code)
    case Err(e) => Step(Err(e), s)
    case Ok(m) =>
      var m' := Merchant(m.code, m.members + [Member(email)]);
      Step(Ok(()), s[code := m'])
  }

  /** The position of the first member with `email`, scanning from the front. */
  function FirstIndexOf(ms: seq<Member>, email: string): (r: Option<nat>)
    ensures r.None? <==> !HasEmail(ms, email)
    ensures r.Some? ==> r.value < |ms| && ms[r.value].email == email
    ensures r.Some? ==> forall j :: 0 <= j < r.value ==> ms[j].email != email
    decreases |ms|
  {
    if |ms| == 0 then None
    else if ms[0].email == email then Some(0)
    else
      match FirstIndexOf(ms[1..], email)
      case None => None
      case Some(i) => Some(i + 1)
  }

  lemma SwapRemoveMultiset(ms: seq<Member>, i: nat)
    requires i < |ms|
    ensures multiset(ms[i := ms[|ms| - 1]][..|ms| - 1]) == multiset(ms) - multiset{ms[i]}
  {
    var n := |ms|;
    var r := ms[i := ms[n - 1]][..n - 1];
    if i == n - 1 {
      assert r == ms[..n - 1];
      assert ms == ms[..n - 1] + [ms[n - 1]];
      assert multiset(ms) == multiset(ms[..n - 1]) + multiset{ms[n - 1]};
    } else {
      var a, b := ms[..i], ms[i + 1..n - 1];
      assert r == a + [ms[n - 1]] + b;
      assert multiset(r) == multiset(a) + multiset{ms[n - 1]} + multiset(b);
      assert ms == a + [ms[i]] + b + [ms[n - 1]];
      assert multiset(ms) == multiset(a) + multiset{ms[i]} + multiset(b) + multiset{ms[n - 1]};
    }
  }

  /** Removes position `i` by moving the last member into it and dropping the last slot;
      the order of the remaining members is not kept. */
  function SwapRemove(ms: seq<Member>, i: nat): (r: seq<Member>)
    requires i < |ms|
    ensures |r| == |ms| - 1
    ensures i < |r| ==> r[i] == ms[|ms| - 1]
    ensures forall j :: 0 <= j < |r| && j != i ==> r[j] == ms[j]
    ensures multiset(r) == multiset(ms) - multiset{ms[i]}
  {
    SwapRemoveMultiset(ms, i);
    ms[i := ms[|ms| - 1]][..|ms| - 1]
  }

  /** Reads the merchant under `code`, removes its first member with `email` by
      swap-with-last, and writes the merchant back under the same key. */
  function DeleteMember(s: Store, code: string, email: string): (r: Step<()>)
    ensures code !in s ==> r.result == Err(KeyNotFound) && r.store == s
    ensures code in s && !HasEmail(s[code].members, email) ==> r.result == Err(MemberNotFound) && r.store == s
    ensures r.result.Ok? <==> code in s && HasEmail(s[code].members, email)
    ensures r.result.Ok? ==>
      && r.store.Keys == s.Keys
      && (forall k :: k in s && k != code ==> r.store[k] == s[k])
      && r.store[code].code == s[code].code
      && |r.store[code].members| == |s[code].members| - 1
      && multiset(r.store[code].members) == multiset(s[code].members) - multiset{Member(email)}
    ensures WellFormed(s) ==> WellFormed(r.store)
  {
    match GetMerchant(s, code)
    case Err(e) => Step(Err(e), s)
    case Ok(m) =>
      match FirstIndexOf(m.members, email)
      case None => Step(Err(MemberNotFound), s)
      case Some(i) =>
        var m' := Merchant(m.code, SwapRemove(m.members, i));
        Step(Ok(()), s[code := m'])
  }

  /** On success the first member with `email` is the one removed: its slot now holds the
      old last member and every other slot below the old last one is untouched. */
  lemma DeleteMemberReplacesFirstMatch(s: Store, code: string, email: string, i: nat)
    requires code in s && i < |s[code].members|
    requires s[code].members[i].email == email
    requires forall j :: 0 <= j < i ==> s[code].members[j].email != email
    ensures var r := DeleteMember(s, code, email);
      && r.result.Ok?
      && var old_ms := s[code].members;
      && var new_ms := r.store[code].members;
      && (i < |new_ms| ==> new_ms[i] == old_ms[|old_ms| - 1])
      && (forall j :: 0 <= j < |new_ms| && j != i ==> new_ms[j] == old_ms[j])
  {
    var f := FirstIndexOf(s[code].members, email);
    assert f == Some(i);
  }

  /** Creating a merchant and reading it back gives the code just used and no members. */
  lemma CreateThenGet(s: Store, code: string, generated: string)
    ensures GetMerchant(CreateMerchant(s, Some(code), generated).store, code) == Ok(Merchant(code, []))
  {
  }

  /** After a merchant is deleted, reading it fails. */
  lemma DeleteThenGet(s: Store, code: string)
    ensures GetMerchant(DeleteMerchant(s, code).store, code) == Err(KeyNotFound)
  {
  }

  /** Adding a member with an email the merchant does not have, then deleting that email,
      gives back the store exactly as it was. */
  lemma AddThenDeleteFreshRestores(s: Store, code: string, email: string)
    requires code in s && !HasEmail(s[code].members, email)
    ensures DeleteMember(CreateMember(s, code, email).store, code, email) == Step(Ok(()), s)
  {
    var ms := s[code].members;
    var added := CreateMember(s, code, email).store;
    var ms' := ms + [Member(email)];
    assert added[code].members == ms';
    assert ms'[|ms|].email == email;
    var f := FirstIndexOf(ms', email);
    assert f == Some(|ms|);
    assert SwapRemove(ms', |ms|) == ms;
    assert added[code := Merchant(s[code].code, ms)] == s;
  }

  /** A fresh merchant given one member and then asked to delete it ends with no members. */
  lemma CreateAddDeleteLeavesEmpty(s: Store, code: string, generated: string, email: string)
    ensures var s1 := CreateMerchant(s, Some(code), generated).store;
      var s2 := CreateMember(s1, code, email).store;
      && GetMerchant(s2, code) == Ok(Merchant(code, [Member(email)]))
      && GetMerchant(DeleteMember(s2, code, email).store, code) == Ok(Merchant(code, []))
  {
    var s1 := CreateMerchant(s, Some(code), generated).store;
    AddThenDeleteFreshRestores(s1, code, email);
  }

  /** The store after `createMerchant` without a code is called once per generated
      identifier in `codes`, in order. */
  function CreateAll(s: Store, codes: seq<string>): (r: Store)
    ensures r.Keys == s.Keys + set c | c in codes
    ensures forall k :: k in s && k !in codes ==> r[k] == s[k]
    ensures forall c :: c in codes ==> r[c] == Merchant(c, [])
    ensures WellFormed(s) ==> WellFormed(r)
    decreases |codes|
  {
    if |codes| == 0 then s
    else CreateAll(CreateMerchant(s, None, codes[0]).store, codes[1..])
  }

  /** No identifier appears twice in `codes`. */
  predicate Distinct(codes: seq<string>)
  {
    forall i, j :: 0 <= i < j < |codes| ==> codes[i] != codes[j]
  }

  /** N creations with distinct fresh identifiers add exactly N merchants. */
  lemma {:induction false} CreateAllCount(s: Store, codes: seq<string>)
    requires Distinct(codes)
    requires forall c :: c in codes ==> c !in s
    ensures |CreateAll(s, codes)| == |s| + |codes|
    decreases |codes|
  {
    if |codes| > 0 {
      var s1 := CreateMerchant(s, None, codes[0]).store;
      assert s1.Keys == s.Keys + {codes[0]};
      assert |s1| == |s| + 1;
      forall c | c in codes[1..]
        ensures c !in s1
      {
        var j :| 0 <= j < |codes[1..]| && codes[1..][j] == c;
        assert codes[j + 1] == c;
        assert codes[0] != codes[j + 1];
      }
      assert Distinct(codes[1..]) by {
        forall i, j | 0 <= i < j < |codes[1..]|
          ensures codes[1..][i] != codes[1..][j]
        {
          assert codes[i + 1] != codes[j + 1];
        }
      }
      CreateAllCount(s1, codes[1..]);
    }
  }

  /** Lists every stored merchant once, in the order the store iterates its keys; the
      ghost `order` records that key order. */
  method ListMerchants(s: Store) returns (ms: seq<Merchant>, ghost order: seq<string>)
    ensures |ms| == |s|
    ensures |order| == |ms|
    ensures forall i :: 0 <= i < |ms| ==> order[i] in s && ms[i] == s[order[i]]
    ensures Distinct(order)
    ensures forall k :: k in s ==> k in order
  {
    var rest := s.Keys;
    ms := [];
    order := [];
    while rest != {}
      invariant rest <= s.Keys
      invariant |order| == |ms|
      invariant |ms| + |rest| == |s|
      invariant forall i :: 0 <= i < |ms| ==> order[i] in s && ms[i] == s[order[i]]
      invariant forall i :: 0 <= i < |order| ==> order[i] !in rest
      invariant Distinct(order)
      invariant forall k :: k in s ==> k in rest || k in order
      decreases rest
    {
      var k :| k in rest;
      ms := ms + [s[k]];
      order := order + [k];
      rest := rest - {k};
    }
  }
}
