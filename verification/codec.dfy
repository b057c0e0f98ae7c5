/** The serialized form of a merchant. The store keeps each merchant as the JSON text of
    `{"code": ..., "members": [{"email": ...}, ...]}`, with the field names taken from the
    struct tags. The text is modelled at the level of JSON tokens: separators, whitespace
    and string escaping are below this level. */
module Codec {
  import opened Results
  import opened Model

  datatype Token =
    | BeginObject
    | EndObject
    | BeginArray
    | EndArray
    | Name(name: string)
    | Text(text: string)

  const CodeField: string := "code"
  const MembersField: string := "members"
  const EmailField: string := "email"

  function EncodeMember(m: Member): seq<Token>
  {
    [BeginObject, Name(EmailField), Text(m.email), EndObject]
  }

  function EncodeMembers(ms: seq<Member>): seq<Token>
    decreases |ms|
  {
    if |ms| == 0 then [] else EncodeMember(ms[0]) + EncodeMembers(ms[1..])
  }

  function EncodeMerchant(m: Merchant): seq<Token>
  {
    [BeginObject, Name(CodeField), Text(m.code), Name(MembersField), BeginArray]
    + EncodeMembers(m.members) + [EndArray, EndObject]
  }

  /** Reads member objects up to and including the closing bracket of the array; returns
      the members read and the tokens after the bracket. */
  function DecodeMembers(ts: seq<Token>): Option<(seq<Member>, seq<Token>)>
    decreases |ts|
  {
    if |ts| == 0 then None
    else if ts[0] == EndArray then Some(([], ts[1..]))
    else if |ts| >= 4 && ts[0] == BeginObject && ts[1] == Name(EmailField) && ts[2].Text? && ts[3] == EndObject then
      match DecodeMembers(ts[4..])
      case None => None
      case Some((ms, rest)) => Some(([Member(ts[2].text)] + ms, rest))
    else None
  }

  function DecodeMerchant(ts: seq<Token>): Option<Merchant>
  {
    if |ts| >= 5 && ts[0] == BeginObject && ts[1] == Name(CodeField) && ts[2].Text?
       && ts[3] == Name(MembersField) && ts[4] == BeginArray
    then
      match DecodeMembers(ts[5..])
      case Some((ms, rest)) => if rest == [EndObject] then Some(Merchant(ts[2].text, ms)) else None
      case None => None
    else None
  }

  lemma {:induction false} DecodeEncodedMembers(ms: seq<Member>, rest: seq<Token>)
    ensures DecodeMembers(EncodeMembers(ms) + [EndArray] + rest) == Some((ms, rest))
    decreases |ms|
  {
    var ts := EncodeMembers(ms) + [EndArray] + rest;
    if |ms| == 0 {
      assert ts == [EndArray] + rest;
    } else {
      var tail := EncodeMembers(ms[1..]) + [EndArray] + rest;
      assert ts == EncodeMember(ms[0]) + tail;
      assert ts[4..] == tail;
      DecodeEncodedMembers(ms[1..], rest);
      assert [ms[0]] + ms[1..] == ms;
    }
  }

  /** Decoding the encoding of a merchant gives back the same merchant, code and member
      order included, for any number of members. */
  lemma RoundTrip(m: Merchant)
    ensures DecodeMerchant(EncodeMerchant(m)) == Some(m)
  {
    var ts := EncodeMerchant(m);
    var body := EncodeMembers(m.members) + [EndArray] + [EndObject];
    assert ts[5..] == body;
    DecodeEncodedMembers(m.members, [EndObject]);
  }

  lemma {:induction false} DecodedMembersAreEncoded(ts: seq<Token>, ms: seq<Member>, rest: seq<Token>)
    requires DecodeMembers(ts) == Some((ms, rest))
    ensures ts == EncodeMembers(ms) + [EndArray] + rest
    decreases |ts|
  {
    if ts[0] == EndArray {
      assert ts == [EndArray] + ts[1..];
    } else {
      var inner := DecodeMembers(ts[4..]);
      var ms' := inner.value.0;
      DecodedMembersAreEncoded(ts[4..], ms', rest);
      assert ms[1..] == ms';
      assert ts == ts[..4] + ts[4..];
      assert ts[..4] == EncodeMember(ms[0]);
    }
  }

  /** The decoder accepts nothing but encodings: a token sequence that decodes to `m` is
      the encoding of `m`. With RoundTrip, decoding is exactly the inverse of encoding. */
  lemma DecodedIsEncoding(ts: seq<Token>, m: Merchant)
    requires DecodeMerchant(ts) == Some(m)
    ensures ts == EncodeMerchant(m)
  {
    var ms := DecodeMembers(ts[5..]).value.0;
    DecodedMembersAreEncoded(ts[5..], ms, [EndObject]);
    assert ts == ts[..5] + ts[5..];
  }
}
