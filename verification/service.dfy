/** The invariant the handlers keep between requests: every merchant is stored under its
    own code and no merchant has two members with the same email. The repository alone
    does not keep the second half; the handlers' checks do. */
module Service {
  import opened Model
  import opened Database
  import opened Handlers

  predicate Invariant(s: Store)
  {
    && WellFormed(s)
    && forall k :: k in s ==> UniqueEmails(s[k].members)
  }

  lemma AddMerchantPreservesInvariant(s: Store, body: Body<Merchant>)
    requires Invariant(s)
    ensures Invariant(HandleAddMerchant(s, body).store)
  {
  }

  lemma DeleteMerchantPreservesInvariant(s: Store, code: string)
    requires Invariant(s)
    ensures Invariant(HandleDeleteMerchant(s, code).store)
  {
  }

  /** Appending an email not yet present keeps emails unique. */
  lemma {:induction false} AppendFreshKeepsUnique(ms: seq<Member>, m: Member)
    requires UniqueEmails(ms) && !HasEmail(ms, m.email)
    ensures UniqueEmails(ms + [m])
  {
    var ms' := ms + [m];
    forall i, j | 0 <= i < j < |ms'|
      ensures ms'[i].email != ms'[j].email
    {
      if j == |ms| {
        assert ms'[i] == ms[i];
      } else {
        assert ms'[i] == ms[i] && ms'[j] == ms[j];
      }
    }
  }

  /** Adding a member through the handler keeps emails unique: a repeated email is
      refused before the repository is reached. */
  lemma AddMemberPreservesInvariant(s: Store, code: string, body: Body<Member>)
    requires Invariant(s)
    ensures Invariant(HandleAddMember(s, code, body).store)
  {
    var r := HandleAddMember(s, code, body);
    if r.status == Created {
      AppendFreshKeepsUnique(s[code].members, body.value);
    }
  }

  /** Without the handler's check the repository appends a repeated email, and emails are
      no longer unique. */
  lemma CreateMemberAllowsDuplicate(s: Store, code: string, email: string)
    requires code in s && HasEmail(s[code].members, email)
    ensures !UniqueEmails(CreateMember(s, code, email).store[code].members)
  {
    var ms := s[code].members;
    var ms' := CreateMember(s, code, email).store[code].members;
    var i :| 0 <= i < |ms| && ms[i].email == email;
    assert ms'[i] == ms[i];
    assert ms'[|ms|].email == email;
  }

  /** Swap-with-last removal keeps emails unique and, when they were unique, leaves no
      member with the removed email. */
  lemma {:induction false} SwapRemoveKeepsUnique(ms: seq<Member>, i: nat)
    requires i < |ms| && UniqueEmails(ms)
    ensures UniqueEmails(SwapRemove(ms, i))
    ensures !HasEmail(SwapRemove(ms, i), ms[i].email)
  {
    var r := SwapRemove(ms, i);
    var n := |ms|;
    forall a, b | 0 <= a < b < |r|
      ensures r[a].email != r[b].email
    {
      var a' := if a == i then n - 1 else a;
      var b' := if b == i then n - 1 else b;
      assert r[a] == ms[a'] && r[b] == ms[b'];
      assert a' != b';
      if a' < b' {
        assert ms[a'].email != ms[b'].email;
      } else {
        assert ms[b'].email != ms[a'].email;
      }
    }
    forall a | 0 <= a < |r|
      ensures r[a].email != ms[i].email
    {
      var a' := if a == i then n - 1 else a;
      assert r[a] == ms[a'];
      if a' < i {
        assert ms[a'].email != ms[i].email;
      } else {
        assert ms[i].email != ms[a'].email;
      }
    }
  }

  /** Deleting a member through the handler keeps the invariant, and when emails were
      unique the email deleted is gone from the merchant. */
  lemma DeleteMemberPreservesInvariant(s: Store, code: string, email: string)
    requires Invariant(s)
    ensures Invariant(HandleDeleteMember(s, code, email).store)
    ensures HandleDeleteMember(s, code, email).status == OK ==>
      !HasEmail(HandleDeleteMember(s, code, email).store[code].members, email)
  {
    var r := HandleDeleteMember(s, code, email);
    if r.status == OK {
      var ms := s[code].members;
      var i := FirstIndexOf(ms, email).value;
      SwapRemoveKeepsUnique(ms, i);
      assert r.store[code].members == SwapRemove(ms, i);
    }
  }
}
