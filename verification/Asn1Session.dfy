/** A real user of the macros: the SSL_SESSION encoder and decoder. */
module Asn1Session {
  import opened Asn1Header
  import opened Asn1Template
  import opened Asn1RoundTrip

  const INTEGER := Prim(V_ASN1_INTEGER)
  const OCTET_STRING := Prim(V_ASN1_OCTET_STRING)

  /** The put macros of i2d_SSL_SESSION with every compile-time option on, in order;
      `x509` is the peer certificate's template. */
  function SslSession(x509: Template): Template
  {
    Sequence(
      FCons(Plain, INTEGER,              // version
      FCons(Plain, INTEGER,              // ssl_version
      FCons(Plain, OCTET_STRING,         // cipher
      FCons(Plain, OCTET_STRING,         // session_id
      FCons(Plain, OCTET_STRING,         // master_key
      FCons(Opt, OCTET_STRING,           // krb5_princ
      FCons(ImpOpt(0), OCTET_STRING,     // key_arg
      ExplicitFields(x509)))))))))
  }

  function ExplicitFields(x509: Template): FieldList
  {
    RisingFields(1, [
      INTEGER,        // time, [1]
      INTEGER,        // timeout
      x509,           // peer
      OCTET_STRING,   // session_id_context
      INTEGER,        // verify_result
      OCTET_STRING,   // tlsext_hostname
      OCTET_STRING,   // psk_identity_hint
      OCTET_STRING,   // psk_identity
      INTEGER,        // tlsext_tick_lifetime
      OCTET_STRING,   // tlsext_tick
      OCTET_STRING,   // comp_id
      OCTET_STRING])  // srp_username, [12]
  }

  /** One EXPLICIT OPTIONAL field per template, with tags from `tag` up. */
  function RisingFields(tag: nat, ts: seq<Template>): FieldList
    requires tag + |ts| <= 31
    decreases |ts|
  {
    if ts == [] then FEnd else FCons(ExpOpt(tag), ts[0], RisingFields(tag + 1, ts[1..]))
  }

  /** A field that is optional, or tagged below `from`, cannot be mistaken for them. */
  lemma {:induction false} RisingNotFirst(kind: Kind, t: Template, from: nat, ts: seq<Template>)
    requires from + |ts| <= 31
    requires if kind.Opt? then true else (kind.ExpOpt? || kind.ImpOpt?) && kind.tag < from
    ensures NotFirst(kind, t, RisingFields(from, ts))
    decreases |ts|
  {
    if ts != [] { RisingNotFirst(kind, t, from + 1, ts[1..]); }
  }

  lemma {:induction false} RisingWellFormed(from: nat, ts: seq<Template>)
    requires from + |ts| <= 31 && forall t <- ts :: WellFormed(t)
    ensures WellFormedFields(RisingFields(from, ts))
    decreases |ts|
  {
    if ts != [] {
      RisingNotFirst(ExpOpt(from), ts[0], from + 1, ts[1..]);
      RisingWellFormed(from + 1, ts[1..]);
    }
  }

  lemma SessionWellFormed(x509: Template)
    requires WellFormed(x509)
    ensures WellFormed(SslSession(x509))
  {
    var I, O := INTEGER, OCTET_STRING;
    var ts := [I, I, x509, O, I, O, O, O, I, O, O, O];
    RisingWellFormed(1, ts);
    RisingNotFirst(ImpOpt(0), O, 1, ts);
    RisingNotFirst(Opt, O, 1, ts);
    var tail := RisingFields(1, ts);
    assert ExplicitFields(x509) == tail;
    hide RisingFields;
    var keyArg := FCons(ImpOpt(0), OCTET_STRING, tail);
    assert WellFormedFields(keyArg);
    var krb5 := FCons(Opt, OCTET_STRING, keyArg);
    assert NotFirst(Opt, OCTET_STRING, keyArg);
    assert WellFormedFields(krb5);
    var a := FCons(Plain, OCTET_STRING, krb5);
    var b := FCons(Plain, OCTET_STRING, a);
    var c := FCons(Plain, OCTET_STRING, b);
    assert WellFormedFields(a) && WellFormedFields(b) && WellFormedFields(c);
    var d := FCons(Plain, INTEGER, c);
    var e := FCons(Plain, INTEGER, d);
    assert WellFormedFields(d) && WellFormedFields(e) && SslSession(x509) == Sequence(e);
  }

  /** Every session, with any choice of its optional fields and any certificate
      whose own template can be told apart, survives i2d_SSL_SESSION followed by the
      same macros of d2i_SSL_SESSION, whatever octets follow it. */
  lemma SessionRoundTrip(x509: Template, session: Value, rest: seq<byte>, slack: nat)
    requires WellFormed(x509) && Fits(SslSession(x509), session) && DefiniteSequences(session)
    requires |Encode(SslSession(x509), session)| <= INT_MAX
    ensures var e := Encode(SslSession(x509), session);
            Decode(SslSession(x509), e + rest, |e| + slack) == Decoded(|e|, Canon(SslSession(x509), session))
  {
    hide *;
    SessionWellFormed(x509);
    DefiniteIsReadable(SslSession(x509), session, slack);
    ReadBack(SslSession(x509), session, rest, slack);
  }
}
