/** The two entities of the merchant service: a merchant identified by its code and
    owning an ordered list of members, each member identified by an email. */
module Model {

  /** A member carries nothing but its email. */
  datatype Member = Member(email: string)

  /** A merchant is its code plus its members in stored order; it has no other state. */
  datatype Merchant = Merchant(code: string, members: seq<Member>)

  /** Some member of `ms` has email `email`. */
  predicate HasEmail(ms: seq<Member>, email: string)
  {
    exists i :: 0 <= i < |ms| && ms[i].email == email
  }

  /** No two positions of `ms` carry the same email. */
  predicate UniqueEmails(ms: seq<Member>)
  {
    forall i, j :: 0 <= i < j < |ms| ==> ms[i].email != ms[j].email
  }

  /** Email is a member's whole identity: comparing members is comparing emails. */
  lemma MemberIdentity(a: Member, b: Member)
    ensures a == b <==> a.email == b.email
  {
  }
}
