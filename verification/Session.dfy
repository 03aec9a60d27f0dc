// Serialising and parsing TLS sessions (SSL_SESSION_to_bytes_full and
// SSL_SESSION_parse), over DER as a list of tagged elements.
module Session {
  import opened Wire
  import opened AeadContext

  const UINT16_MAX := 0xFFFF
  const UINT32_MAX := 0xFFFF_FFFF
  const LONG_MAX := 0x7FFF_FFFF_FFFF_FFFF
  const SESSION_VERSION := 1
  const MAX_SESSION_ID := 32
  const MAX_MASTER_KEY := 48
  const MAX_SID_CTX := 32
  const MAX_HASH := 64  // EVP_MAX_MD_SIZE

  // Explicit is a context-specific constructed element; Other is any element
  // the session format does not look into, such as a certificate.
  datatype Der = Integer(n: nat) | OctetString(bytes: seq<byte>) | Boolean(b: byte) | Sequence(es: seq<Der>)
               | Explicit(tag: nat, content: seq<Der>) | Other(raw: seq<byte>)

  // SSL_SESSION, as far as it is serialised.  A certificate is the elements
  // its buffer holds.
  datatype SslSession = SslSession(
    version: nat, cipher: Option<nat>, sessionId: seq<byte>, masterKey: seq<byte>, time: nat, timeout: nat,
    certs: seq<seq<Der>>, sidCtx: seq<byte>, verifyResult: int, pskIdentity: Option<seq<byte>>,
    lifetimeHint: nat, ticket: Option<seq<byte>>, peerSha256: Option<seq<byte>>, handshakeHash: seq<byte>,
    sctList: Option<seq<byte>>, ocspResponse: Option<seq<byte>>, extendedMasterSecret: bool, groupId: nat,
    ticketAgeAdd: Option<nat>, isServer: bool, peerSignatureAlgorithm: nat, maxEarlyData: nat, authTimeout: nat,
    earlyAlpn: Option<seq<byte>>)

  // What the C types and the handshake guarantee
  ghost predicate Shaped(s: SslSession) {
    && s.version <= UINT16_MAX && (s.cipher.Some? ==> s.cipher.value <= UINT16_MAX)
    && |s.sessionId| <= MAX_SESSION_ID && |s.masterKey| <= MAX_MASTER_KEY && |s.sidCtx| <= MAX_SID_CTX
    && s.time < TWO_64 && s.timeout <= UINT32_MAX && s.authTimeout <= UINT32_MAX
    && (forall i | 0 <= i < |s.certs| :: |s.certs[i]| == 1)
    && -LONG_MAX - 1 <= s.verifyResult <= LONG_MAX
    && (s.pskIdentity.Some? ==> 0 !in s.pskIdentity.value)
    && s.lifetimeHint <= UINT32_MAX && s.groupId <= UINT16_MAX
    && (s.peerSha256.Some? ==> |s.peerSha256.value| == 32) && |s.handshakeHash| <= MAX_HASH
    && (s.ticketAgeAdd.Some? ==> s.ticketAgeAdd.value <= UINT32_MAX)
    && s.peerSignatureAlgorithm <= UINT16_MAX && s.maxEarlyData <= UINT32_MAX
  }

  // ---- The optional fields, in the order of their tags ----

  const FIELDS := 20

  function TagOf(k: nat): nat {
    if k <= 3 then k + 3          // peer, sessionIDContext, verifyResult, hostName
    else if k <= 6 then k + 4     // pskIdentity, ticketLifetimeHint, ticket
    else if k <= 13 then k + 6    // peerSHA256 to certChain
    else k + 7                    // ticketAgeAdd to earlyALPN
  }

  lemma TagsIncrease(j: nat, k: nat)
    requires j < k
    ensures TagOf(j) < TagOf(k)
  {
  }

  function Octets(b: seq<byte>): Option<seq<Der>> {
    Some([OctetString(b)])
  }

  function OctetsOf(o: Option<seq<byte>>): Option<seq<Der>> {
    if o.None? then None else Octets(o.value)
  }

  function NonZero(n: nat): Option<seq<Der>> {
    if n == 0 then None else Some([Integer(n)])
  }

  function U32Bytes(n: nat): (s: seq<byte>)
    requires n <= UINT32_MAX
    ensures |s| == 4
  {
    U16(n / 0x1_0000) + U16(n % 0x1_0000)
  }

  function Get32(s: seq<byte>): nat
    requires |s| == 4
  {
    Get16(s[..2]) * 0x1_0000 + Get16(s[2..])
  }

  lemma Get32OfBytes(n: nat)
    requires n <= UINT32_MAX
    ensures Get32(U32Bytes(n)) == n
  {
    Get16OfU16(n / 0x1_0000);
    Get16OfU16(n % 0x1_0000);
    assert U32Bytes(n)[..2] == U16(n / 0x1_0000) && U32Bytes(n)[2..] == U16(n % 0x1_0000);
  }

  function Concat(certs: seq<seq<Der>>): seq<Der> {
    if certs == [] then [] else certs[0] + Concat(certs[1..])
  }

  // What is written under the k-th tag, if anything
  function FieldOf(s: SslSession, forTicket: bool, k: nat): Option<seq<Der>> {
    if k == 0 then (if s.certs != [] && s.peerSha256.None? then Some(s.certs[0]) else None)
    else if k == 1 then Octets(s.sidCtx)
    else if k == 2 then NonZero(s.verifyResult % TWO_64)
    else if k == 3 then None
    else if k == 4 then OctetsOf(s.pskIdentity)
    else if k == 5 then NonZero(s.lifetimeHint)
    else if k == 6 then (if forTicket then None else OctetsOf(s.ticket))
    else if k == 7 then OctetsOf(s.peerSha256)
    else if k == 8 then (if s.handshakeHash == [] then None else Octets(s.handshakeHash))
    else if k == 9 then OctetsOf(s.sctList)
    else if k == 10 then OctetsOf(s.ocspResponse)
    else if k == 11 then (if s.extendedMasterSecret then Some([Boolean(0xff)]) else None)
    else if k == 12 then NonZero(s.groupId)
    else if k == 13 then (if |s.certs| >= 2 && s.peerSha256.None? then Some(Concat(s.certs[1..])) else None)
    else if k == 14 then
      (if s.ticketAgeAdd.Some? && s.ticketAgeAdd.value <= UINT32_MAX then Octets(U32Bytes(s.ticketAgeAdd.value)) else None)
    else if k == 15 then (if s.isServer then None else Some([Boolean(0)]))
    else if k == 16 then NonZero(s.peerSignatureAlgorithm)
    else if k == 17 then NonZero(s.maxEarlyData)
    else if k == 18 then (if s.timeout == s.authTimeout then None else Some([Integer(s.authTimeout)]))
    else OctetsOf(s.earlyAlpn)
  }

  function FieldsFrom(s: SslSession, forTicket: bool, k: nat): seq<Der>
    decreases FIELDS - k
  {
    if k >= FIELDS then []
    else
      var f := FieldOf(s, forTicket, k);
      (if f.Some? then [Explicit(TagOf(k), f.value)] else []) + FieldsFrom(s, forTicket, k + 1)
  }

  function Header(s: SslSession, cipher: nat, forTicket: bool): seq<Der>
    requires cipher <= UINT16_MAX
  {
    [Integer(SESSION_VERSION), Integer(s.version), OctetString(U16(cipher)), OctetString(if forTicket then [] else s.sessionId),
     OctetString(s.masterKey), Explicit(1, [Integer(s.time)]), Explicit(2, [Integer(s.timeout)])]
  }

  // SSL_SESSION_to_bytes_full
  function ToDer(s: SslSession, forTicket: bool): Option<Der> {
    if s.cipher.None? || s.cipher.value > UINT16_MAX then None
    else Some(Sequence(Header(s, s.cipher.value, forTicket) + FieldsFrom(s, forTicket, 0)))
  }

  // ---- Taking optional elements off the front ----

  // CBS_get_optional_asn1
  function TakeOptional(es: seq<Der>, tag: nat): (Option<seq<Der>>, seq<Der>) {
    if es != [] && es[0].Explicit? && es[0].tag == tag then (Some(es[0].content), es[1..]) else (None, es)
  }

  // The elements after the first k optional fields, and the k-th of them
  function After(es: seq<Der>, k: nat): seq<Der> {
    if k == 0 then es else TakeOptional(After(es, k - 1), TagOf(k - 1)).1
  }

  function Taken(es: seq<Der>, k: nat): Option<seq<Der>> {
    TakeOptional(After(es, k), TagOf(k)).0
  }

  lemma {:induction false} NextTag(s: SslSession, forTicket: bool, k: nat)
    requires k <= FIELDS
    ensures var es := FieldsFrom(s, forTicket, k);
      es != [] ==> es[0].Explicit? && exists j :: k <= j < FIELDS && es[0].tag == TagOf(j)
    decreases FIELDS - k
  {
    hide FieldOf;
    if k < FIELDS {
      NextTag(s, forTicket, k + 1);
    }
  }

  lemma TakeField(s: SslSession, forTicket: bool, k: nat)
    requires k < FIELDS
    ensures TakeOptional(FieldsFrom(s, forTicket, k), TagOf(k)) == (FieldOf(s, forTicket, k), FieldsFrom(s, forTicket, k + 1))
  {
    hide FieldOf, TagOf;
    NextTag(s, forTicket, k + 1);
    forall j | k < j
      ensures TagOf(k) < TagOf(j)
    {
      TagsIncrease(k, j);
    }
    var f, rest := FieldOf(s, forTicket, k), FieldsFrom(s, forTicket, k + 1);
    if f.Some? {
      assert FieldsFrom(s, forTicket, k) == [Explicit(TagOf(k), f.value)] + rest;
    } else {
      assert FieldsFrom(s, forTicket, k) == [] + rest == rest;
    }
  }

  lemma {:induction false} AfterFields(s: SslSession, forTicket: bool, k: nat)
    requires k <= FIELDS
    ensures After(FieldsFrom(s, forTicket, 0), k) == FieldsFrom(s, forTicket, k)
    decreases k
  {
    hide FieldsFrom, TakeOptional, TagOf, FieldOf;
    if k > 0 {
      AfterFields(s, forTicket, k - 1);
      TakeField(s, forTicket, k - 1);
    }
  }

  // The parser takes back each field that was written.
  lemma TakenIsField(s: SslSession, forTicket: bool, k: nat)
    requires k < FIELDS
    ensures Taken(FieldsFrom(s, forTicket, 0), k) == FieldOf(s, forTicket, k)
  {
    hide FieldsFrom, TakeOptional, TagOf, FieldOf, After;
    AfterFields(s, forTicket, k);
    TakeField(s, forTicket, k);
  }

  // ---- Reading the fields ----

  // CBS_get_optional_asn1_uint64, and the checks of SSL_SESSION_parse_long,
  // _u32 and _u16
  function ReadNumber(c: Option<seq<Der>>, max: nat, default: nat): Option<nat> {
    if c.None? then Some(default)
    else if |c.value| != 1 || !c.value[0].Integer? || c.value[0].n >= TWO_64 || c.value[0].n > max then None
    else Some(c.value[0].n)
  }

  // CBS_get_optional_asn1_octet_string
  function ReadOctets(c: Option<seq<Der>>): Option<Option<seq<byte>>> {
    if c.None? then Some(None)
    else if |c.value| != 1 || !c.value[0].OctetString? then None
    else Some(Some(c.value[0].bytes))
  }

  // CBS_get_optional_asn1_bool
  function ReadBool(c: Option<seq<Der>>, default: bool): Option<bool> {
    if c.None? then Some(default)
    else if |c.value| != 1 || !c.value[0].Boolean? || c.value[0].b !in {0, 0xff} then None
    else Some(c.value[0].b == 0xff)
  }

  function BytesOr(o: Option<Option<seq<byte>>>): seq<byte> {
    if o.Some? && o.value.Some? then o.value.value else []
  }

  // CBS_stow: nothing is stored for no bytes.
  function Stowed(o: Option<Option<seq<byte>>>): Option<seq<byte>> {
    if BytesOr(o) == [] then None else Some(BytesOr(o))
  }

  // SSL_SESSION_parse_bounded_octet_string
  predicate Bounded(c: Option<seq<Der>>, max: nat) {
    ReadOctets(c).Some? && |BytesOr(ReadOctets(c))| <= max
  }

  // The leaf certificate, then one for each element of the chain
  function Certificates(peer: Option<seq<Der>>, chain: Option<seq<Der>>): seq<seq<Der>> {
    (if peer.Some? then [peer.value] else []) + if chain.Some? then Singletons(chain.value) else []
  }

  function Singletons(es: seq<Der>): (r: seq<seq<Der>>)
    ensures |r| == |es|
  {
    if es == [] then [] else [[es[0]]] + Singletons(es[1..])
  }

  predicate HeaderReadable(h: seq<Der>, knownCipher: nat -> bool) {
    && |h| >= 7
    && h[0] == Integer(SESSION_VERSION)
    && h[1].Integer? && h[1].n <= UINT16_MAX && ProtocolVersion(h[1].n).Some?
    && h[2].OctetString? && |h[2].bytes| == 2 && knownCipher(Get16(h[2].bytes))
    && h[3].OctetString? && |h[3].bytes| <= MAX_SESSION_ID
    && h[4].OctetString? && |h[4].bytes| <= MAX_MASTER_KEY
    && h[5].Explicit? && h[5].tag == 1 && h[5].content != [] && h[5].content[0].Integer? && h[5].content[0].n < TWO_64
    && h[6].Explicit? && h[6].tag == 2 && h[6].content != [] && h[6].content[0].Integer? && h[6].content[0].n <= UINT32_MAX
  }

  // The optional fields, read from what was taken under each tag
  predicate CertsReadable(c: seq<Option<seq<Der>>>, certsOk: seq<seq<Der>> -> bool)
    requires |c| == FIELDS
  {
    c[0] != Some([]) && c[13] != Some([]) && (c[13].Some? ==> c[0].Some?) && certsOk(Certificates(c[0], c[13]))
  }

  predicate FirstReadable(c: seq<Option<seq<Der>>>)
    requires |c| == FIELDS
  {
    && Bounded(c[1], MAX_SID_CTX)
    && ReadNumber(c[2], LONG_MAX, 0).Some?
    && ReadOctets(c[4]).Some? && 0 !in BytesOr(ReadOctets(c[4]))
    && ReadNumber(c[5], UINT32_MAX, 0).Some?
    && ReadOctets(c[6]).Some?
    && ReadOctets(c[7]).Some? && (c[7].Some? ==> |BytesOr(ReadOctets(c[7]))| == 32)
    && Bounded(c[8], MAX_HASH)
    && ReadOctets(c[9]).Some? && ReadOctets(c[10]).Some?
  }

  predicate LastReadable(c: seq<Option<seq<Der>>>)
    requires |c| == FIELDS
  {
    && ReadBool(c[11], false).Some?
    && ReadNumber(c[12], UINT16_MAX, 0).Some?
    && ReadOctets(c[14]).Some? && (c[14].Some? ==> |BytesOr(ReadOctets(c[14]))| == 4)
    && ReadBool(c[15], true).Some?
    && ReadNumber(c[16], UINT16_MAX, 0).Some?
    && ReadNumber(c[17], UINT32_MAX, 0).Some?
    && ReadNumber(c[18], UINT32_MAX, 0).Some?
    && ReadOctets(c[19]).Some?
  }

  predicate FieldsReadable(c: seq<Option<seq<Der>>>, certsOk: seq<seq<Der>> -> bool)
    requires |c| == FIELDS
  {
    CertsReadable(c, certsOk) && FirstReadable(c) && LastReadable(c)
  }

  // The session that readable elements describe
  function Described(h: seq<Der>, c: seq<Option<seq<Der>>>, knownCipher: nat -> bool): SslSession
    requires HeaderReadable(h, knownCipher) && |c| == FIELDS && FirstReadable(c) && LastReadable(c)
  {
    var timeout := h[6].content[0].n;
    SslSession(
      h[1].n, Some(Get16(h[2].bytes)), h[3].bytes, h[4].bytes, h[5].content[0].n, timeout,
      Certificates(c[0], c[13]),
      BytesOr(ReadOctets(c[1])), ReadNumber(c[2], LONG_MAX, 0).value, ReadOctets(c[4]).value,
      ReadNumber(c[5], UINT32_MAX, 0).value, Stowed(ReadOctets(c[6])), ReadOctets(c[7]).value,
      BytesOr(ReadOctets(c[8])), ReadOctets(c[9]).value, ReadOctets(c[10]).value,
      ReadBool(c[11], false).value, ReadNumber(c[12], UINT16_MAX, 0).value, AgeAdd(c[14]),
      ReadBool(c[15], true).value, ReadNumber(c[16], UINT16_MAX, 0).value,
      ReadNumber(c[17], UINT32_MAX, 0).value, ReadNumber(c[18], UINT32_MAX, timeout).value, Stowed(ReadOctets(c[19])))
  }

  function AgeAdd(c: Option<seq<Der>>): Option<nat>
    requires ReadOctets(c).Some? && (c.Some? ==> |BytesOr(ReadOctets(c))| == 4)
  {
    if c.Some? then Some(Get32(BytesOr(ReadOctets(c)))) else None
  }

  function TakenAll(es: seq<Der>): (c: seq<Option<seq<Der>>>)
    ensures |c| == FIELDS && forall k | 0 <= k < FIELDS :: c[k] == Taken(es, k)
  {
    seq(FIELDS, k requires 0 <= k < FIELDS => Taken(es, k))
  }

  function WrittenAll(s: SslSession, forTicket: bool): (c: seq<Option<seq<Der>>>)
    ensures |c| == FIELDS && forall k | 0 <= k < FIELDS :: c[k] == FieldOf(s, forTicket, k)
  {
    seq(FIELDS, k requires 0 <= k < FIELDS => FieldOf(s, forTicket, k))
  }

  // SSL_SESSION_parse.  knownCipher is SSL_get_cipher_by_value, certsOk the
  // certificate cache of the X.509 method.
  function FromDer(d: Der, knownCipher: nat -> bool, certsOk: seq<seq<Der>> -> bool): Option<SslSession> {
    if !d.Sequence? || !HeaderReadable(d.es, knownCipher) then None
    else
      var c := TakenAll(d.es[7..]);
      if !FieldsReadable(c, certsOk) || After(d.es[7..], FIELDS) != [] then None else Some(Described(d.es, c, knownCipher))
  }

  // ---- Round trip ----

  // The normal form: certificates give way to their hash, no bytes to nothing,
  // and a ticket does not hold itself or the session ID.
  function Normal(s: SslSession, forTicket: bool): SslSession {
    s.(certs := if s.peerSha256.Some? then [] else s.certs,
       sessionId := if forTicket then [] else s.sessionId,
       ticket := if forTicket || s.ticket == Some([]) then None else s.ticket,
       earlyAlpn := if s.earlyAlpn == Some([]) then None else s.earlyAlpn)
  }

  // What the parser insists on beyond the shape
  predicate Parseable(s: SslSession, knownCipher: nat -> bool, certsOk: seq<seq<Der>> -> bool) {
    && ProtocolVersion(s.version).Some?
    && s.cipher.Some? && knownCipher(s.cipher.value)
    && s.verifyResult >= 0
    && certsOk(if s.peerSha256.Some? then [] else s.certs)
  }

  lemma NumberField(n: nat, max: nat)
    requires n < TWO_64
    ensures ReadNumber(NonZero(n), max, 0) == if n <= max || n == 0 then Some(n) else None
  {
  }

  lemma {:induction false} SingletonsOfConcat(certs: seq<seq<Der>>)
    requires forall i | 0 <= i < |certs| :: |certs[i]| == 1
    ensures Singletons(Concat(certs)) == certs
  {
    if certs != [] {
      SingletonsOfConcat(certs[1..]);
      assert Concat(certs)[0] == certs[0][0] && Concat(certs)[1..] == Concat(certs[1..]);
      assert certs[0] == [certs[0][0]];
    }
  }

  lemma CertFields(s: SslSession, forTicket: bool)
    requires Shaped(s)
    ensures var peer, chain := FieldOf(s, forTicket, 0), FieldOf(s, forTicket, 13);
      && peer != Some([]) && chain != Some([]) && (chain.Some? ==> peer.Some?)
      && Certificates(peer, chain) == if s.peerSha256.Some? then [] else s.certs
  {
    if s.peerSha256.None? && s.certs != [] {
      assert |s.certs[0]| == 1;
      SingletonsOfConcat(s.certs[1..]);
      assert s.certs == [s.certs[0]] + s.certs[1..];
      if |s.certs| >= 2 {
        assert |Singletons(Concat(s.certs[1..]))| == |s.certs| - 1;
      }
    }
  }

  // All that was written is what is taken.
  lemma AllTaken(s: SslSession, forTicket: bool)
    ensures TakenAll(FieldsFrom(s, forTicket, 0)) == WrittenAll(s, forTicket)
    ensures After(FieldsFrom(s, forTicket, 0), FIELDS) == []
  {
    hide Taken, FieldOf, After;
    forall k: nat | k < FIELDS
      ensures Taken(FieldsFrom(s, forTicket, 0), k) == FieldOf(s, forTicket, k)
    {
      TakenIsField(s, forTicket, k);
    }
    AfterFields(s, forTicket, FIELDS);
  }

  lemma FirstFields(s: SslSession, forTicket: bool)
    requires Shaped(s)
    ensures var c := WrittenAll(s, forTicket);
      && (FirstReadable(c) <==> s.verifyResult >= 0)
      && ReadOctets(c[1]) == Some(Some(s.sidCtx)) && ReadOctets(c[4]) == Some(s.pskIdentity)
      && (s.verifyResult >= 0 ==> ReadNumber(c[2], LONG_MAX, 0) == Some(s.verifyResult))
      && ReadNumber(c[5], UINT32_MAX, 0) == Some(s.lifetimeHint)
      && ReadOctets(c[6]) == Some(if forTicket then None else s.ticket)
      && ReadOctets(c[7]) == Some(s.peerSha256)
      && BytesOr(ReadOctets(c[8])) == s.handshakeHash
      && ReadOctets(c[9]) == Some(s.sctList) && ReadOctets(c[10]) == Some(s.ocspResponse)
  {
    hide WrittenAll;
    NumberField(s.verifyResult % TWO_64, LONG_MAX);
    NumberField(s.lifetimeHint, UINT32_MAX);
    if s.verifyResult >= 0 {
      assert s.verifyResult % TWO_64 == s.verifyResult;
    } else {
      assert s.verifyResult % TWO_64 == s.verifyResult + TWO_64;
    }
  }

  lemma LastFields(s: SslSession, forTicket: bool)
    requires Shaped(s)
    ensures var c := WrittenAll(s, forTicket);
      && LastReadable(c)
      && ReadBool(c[11], false) == Some(s.extendedMasterSecret) && ReadNumber(c[12], UINT16_MAX, 0) == Some(s.groupId)
      && AgeAdd(c[14]) == s.ticketAgeAdd
      && ReadBool(c[15], true) == Some(s.isServer)
      && ReadNumber(c[16], UINT16_MAX, 0) == Some(s.peerSignatureAlgorithm)
      && ReadNumber(c[17], UINT32_MAX, 0) == Some(s.maxEarlyData)
      && ReadNumber(c[18], UINT32_MAX, s.timeout) == Some(s.authTimeout)
      && ReadOctets(c[19]) == Some(s.earlyAlpn)
  {
    hide WrittenAll, U32Bytes, Get32;
    if s.ticketAgeAdd.Some? {
      Get32OfBytes(s.ticketAgeAdd.value);
    }
  }

  // Parsing what was serialised gives the session back, in its normal form,
  // exactly when the parser has nothing against it.
  lemma SessionRoundTrip(s: SslSession, forTicket: bool, knownCipher: nat -> bool, certsOk: seq<seq<Der>> -> bool)
    requires Shaped(s) && s.cipher.Some?
    ensures ToDer(s, forTicket).Some?
    ensures FromDer(ToDer(s, forTicket).value, knownCipher, certsOk)
         == if Parseable(s, knownCipher, certsOk) then Some(Normal(s, forTicket)) else None
  {
    var es := ToDer(s, forTicket).value.es;
    hide FieldsFrom, Header;
    HeaderOf(s, forTicket, es, knownCipher);
    AllTaken(s, forTicket);
    ReadableWhenParseable(s, forTicket, certsOk);
    hide *;
    Unfolded(Sequence(es), knownCipher, certsOk);
    ParseableParts(s, knownCipher, certsOk);
    if Parseable(s, knownCipher, certsOk) {
      DescribedIsNormal(s, forTicket, knownCipher, certsOk, es);
    }
  }

  lemma ParseableParts(s: SslSession, knownCipher: nat -> bool, certsOk: seq<seq<Der>> -> bool)
    requires s.cipher.Some?
    ensures Parseable(s, knownCipher, certsOk)
      <==> ProtocolVersion(s.version).Some? && knownCipher(s.cipher.value) && s.verifyResult >= 0
           && certsOk(if s.peerSha256.Some? then [] else s.certs)
  {
    hide ProtocolVersion;
  }

  lemma Unfolded(d: Der, knownCipher: nat -> bool, certsOk: seq<seq<Der>> -> bool)
    requires d.Sequence?
    ensures HeaderReadable(d.es, knownCipher) ==> |d.es| >= 7
    ensures HeaderReadable(d.es, knownCipher) && FieldsReadable(TakenAll(d.es[7..]), certsOk)
      ==> FirstReadable(TakenAll(d.es[7..])) && LastReadable(TakenAll(d.es[7..]))
    ensures FromDer(d, knownCipher, certsOk)
         == if !HeaderReadable(d.es, knownCipher) || !FieldsReadable(TakenAll(d.es[7..]), certsOk) || After(d.es[7..], FIELDS) != [] then None
            else Some(Described(d.es, TakenAll(d.es[7..]), knownCipher))
  {
    hide FirstReadable, LastReadable, CertsReadable, TakenAll, After, Described;
  }

  lemma ReadableWhenParseable(s: SslSession, forTicket: bool, certsOk: seq<seq<Der>> -> bool)
    requires Shaped(s)
    ensures FieldsReadable(WrittenAll(s, forTicket), certsOk)
        <==> s.verifyResult >= 0 && certsOk(if s.peerSha256.Some? then [] else s.certs)
    ensures s.verifyResult >= 0 ==> FirstReadable(WrittenAll(s, forTicket)) && LastReadable(WrittenAll(s, forTicket))
  {
    CertFields(s, forTicket);
    FirstFields(s, forTicket);
    LastFields(s, forTicket);
    hide FirstReadable, LastReadable, FieldOf, Certificates, ReadNumber, ReadBool, ReadOctets, AgeAdd;
  }

  lemma DescribedIsNormal(s: SslSession, forTicket: bool, knownCipher: nat -> bool, certsOk: seq<seq<Der>> -> bool, es: seq<Der>)
    requires Shaped(s) && s.cipher.Some? && s.verifyResult >= 0
    requires es == Header(s, s.cipher.value, forTicket) + FieldsFrom(s, forTicket, 0) && HeaderReadable(es, knownCipher)
    requires FirstReadable(WrittenAll(s, forTicket)) && LastReadable(WrittenAll(s, forTicket))
    ensures Described(es, WrittenAll(s, forTicket), knownCipher) == Normal(s, forTicket)
  {
    HeaderOf(s, forTicket, es, knownCipher);
    CertFields(s, forTicket);
    FirstFields(s, forTicket);
    LastFields(s, forTicket);
    hide WrittenAll, FieldsFrom, FirstReadable, LastReadable, ReadNumber, ReadBool, ReadOctets, AgeAdd, Header, Certificates,
         HeaderReadable, FieldOf, Get16, Shaped;
  }

  lemma HeaderOf(s: SslSession, forTicket: bool, es: seq<Der>, knownCipher: nat -> bool)
    requires Shaped(s) && s.cipher.Some? && es == Header(s, s.cipher.value, forTicket) + FieldsFrom(s, forTicket, 0)
    ensures HeaderReadable(es, knownCipher) <==> ProtocolVersion(s.version).Some? && knownCipher(s.cipher.value)
    ensures |es| >= 7 && es[7..] == FieldsFrom(s, forTicket, 0)
    ensures es[1] == Integer(s.version) && es[2].OctetString? && |es[2].bytes| == 2 && Get16(es[2].bytes) == s.cipher.value
    ensures es[3] == OctetString(if forTicket then [] else s.sessionId) && es[4] == OctetString(s.masterKey)
    ensures es[5] == Explicit(1, [Integer(s.time)]) && es[6] == Explicit(2, [Integer(s.timeout)])
  {
    Get16OfU16(s.cipher.value);
    hide FieldsFrom, U16, Get16, ProtocolVersion;
    var h := Header(s, s.cipher.value, forTicket);
    assert forall i | 0 <= i < 7 :: es[i] == h[i];
  }

  // The ticket form loses only the session ID and the ticket.
  lemma TicketLosesIdAndTicket(s: SslSession, knownCipher: nat -> bool, certsOk: seq<seq<Der>> -> bool)
    requires Shaped(s) && s.cipher.Some?
    ensures ToDer(s, false).Some? && ToDer(s, true).Some?
    ensures var whole, ticket := FromDer(ToDer(s, false).value, knownCipher, certsOk), FromDer(ToDer(s, true).value, knownCipher, certsOk);
      && (whole.Some? <==> ticket.Some?)
      && (whole.Some? ==> ticket.value == whole.value.(sessionId := [], ticket := None))
  {
    SessionRoundTrip(s, false, knownCipher, certsOk);
    SessionRoundTrip(s, true, knownCipher, certsOk);
    hide ToDer, FromDer, Parseable;
  }

  // A normal form is again a session, and its own normal form.
  lemma NormalIsStable(s: SslSession, forTicket: bool, knownCipher: nat -> bool, certsOk: seq<seq<Der>> -> bool)
    requires Shaped(s) && s.cipher.Some? && Parseable(s, knownCipher, certsOk)
    ensures var n := Normal(s, forTicket);
      n.cipher.Some? && Shaped(n) && Parseable(n, knownCipher, certsOk) && Normal(n, false) == n
  {
    hide ProtocolVersion;
    var n := Normal(s, forTicket);
    var certs: seq<seq<Der>> := if s.peerSha256.Some? then [] else s.certs;
    assert n.certs == certs && n.peerSha256 == s.peerSha256;
  }

  // Whatever was parsed, it is a session that could have been serialised, but
  // for a first certificate that may hold any number of elements.
  lemma ParsedIsShaped(d: Der, knownCipher: nat -> bool, certsOk: seq<seq<Der>> -> bool)
    requires FromDer(d, knownCipher, certsOk).Some?
    ensures var s := FromDer(d, knownCipher, certsOk).value;
      && (Shaped(s) <==> s.certs == [] || |s.certs[0]| == 1)
      && ProtocolVersion(s.version).Some? && s.cipher.Some? && knownCipher(s.cipher.value)
      && 0 <= s.verifyResult && certsOk(s.certs)
  {
    hide *;
    IsSequence(d, knownCipher, certsOk);
    Unfolded(d, knownCipher, certsOk);
    DescribedIsShaped(d.es, TakenAll(d.es[7..]), knownCipher, certsOk);
  }

  lemma IsSequence(d: Der, knownCipher: nat -> bool, certsOk: seq<seq<Der>> -> bool)
    requires FromDer(d, knownCipher, certsOk).Some?
    ensures d.Sequence?
  {
  }

  lemma DescribedIsShaped(h: seq<Der>, c: seq<Option<seq<Der>>>, knownCipher: nat -> bool, certsOk: seq<seq<Der>> -> bool)
    requires HeaderReadable(h, knownCipher) && |c| == FIELDS && FieldsReadable(c, certsOk)
    ensures var s := Described(h, c, knownCipher);
      && (Shaped(s) <==> s.certs == [] || |s.certs[0]| == 1)
      && ProtocolVersion(s.version).Some? && s.cipher.Some? && knownCipher(s.cipher.value)
      && 0 <= s.verifyResult && certsOk(s.certs)
  {
    if c[13].Some? {
      SingletonsAreSingle(c[13].value);
    }
    var s := Described(h, c, knownCipher);
    CertsAfterFirst(c[0], c[13]);
    AgeAddFits(c[14]);
    assert Get16(h[2].bytes) <= UINT16_MAX;
    hide ProtocolVersion, Certificates, Get16, Get32, AgeAdd, Singletons;
  }

  lemma CertsAfterFirst(peer: Option<seq<Der>>, chain: Option<seq<Der>>)
    requires chain.Some? ==> peer.Some?
    requires chain.Some? ==> forall i | 0 <= i < |Singletons(chain.value)| :: |Singletons(chain.value)[i]| == 1
    ensures forall i | 1 <= i < |Certificates(peer, chain)| :: |Certificates(peer, chain)[i]| == 1
  {
  }

  lemma AgeAddFits(c: Option<seq<Der>>)
    requires ReadOctets(c).Some? && (c.Some? ==> |BytesOr(ReadOctets(c))| == 4)
    ensures AgeAdd(c).Some? ==> AgeAdd(c).value <= UINT32_MAX
  {
  }

  lemma {:induction false} SingletonsAreSingle(es: seq<Der>)
    ensures forall i | 0 <= i < |es| :: |Singletons(es)[i]| == 1
  {
    if es != [] {
      SingletonsAreSingle(es[1..]);
    }
  }

  // The tags of the format
  const TAGS := {3, 4, 5, 6, 8, 9, 10, 13, 14, 15, 16, 17, 18, 19, 21, 22, 23, 24, 25, 26}

  lemma {:induction false} OnlyTagged(es: seq<Der>, k: nat)
    requires k <= FIELDS
    ensures var n := |es| - |After(es, k)|;
      && n >= 0 && es[n..] == After(es, k)
      && (forall i | 0 <= i < n :: es[i].Explicit? && es[i].tag in TAGS && es[i].tag < TagOf(k))
      && forall i, j | 0 <= i < j < n :: es[i].tag < es[j].tag
    decreases k
  {
    if k > 0 {
      OnlyTagged(es, k - 1);
      TagsIncrease(k - 1, k);
      hide After;
      AfterOne(es, k);
    }
  }

  lemma AfterOne(es: seq<Der>, k: nat)
    requires k > 0
    ensures After(es, k) == TakeOptional(After(es, k - 1), TagOf(k - 1)).1
  {
  }

  // Nothing else parses: behind the seven elements of the header there are only
  // fields of the format, each at most once and in the order of their tags.
  lemma OnlyTheFormatParses(d: Der, knownCipher: nat -> bool, certsOk: seq<seq<Der>> -> bool)
    requires FromDer(d, knownCipher, certsOk).Some?
    ensures d.Sequence? && |d.es| >= 7
    ensures forall i | 7 <= i < |d.es| :: d.es[i].Explicit? && d.es[i].tag in TAGS
    ensures forall i, j | 7 <= i < j < |d.es| :: d.es[i].tag < d.es[j].tag
  {
    IsSequence(d, knownCipher, certsOk);
    hide *;
    Unfolded(d, knownCipher, certsOk);
    var es := d.es[7..];
    OnlyTagged(es, FIELDS);
    assert forall i | 7 <= i < |d.es| :: d.es[i] == es[i - 7];
  }

  // What was parsed survives another round unchanged.
  lemma ParsedIsStable(s: SslSession, forTicket: bool, knownCipher: nat -> bool, certsOk: seq<seq<Der>> -> bool)
    requires Shaped(s) && s.cipher.Some? && Parseable(s, knownCipher, certsOk)
    ensures ToDer(s, forTicket).Some? && FromDer(ToDer(s, forTicket).value, knownCipher, certsOk).Some?
    ensures var parsed := FromDer(ToDer(s, forTicket).value, knownCipher, certsOk).value;
      ToDer(parsed, false).Some? && FromDer(ToDer(parsed, false).value, knownCipher, certsOk) == Some(parsed)
  {
    hide *;
    SessionRoundTrip(s, forTicket, knownCipher, certsOk);
    NormalIsStable(s, forTicket, knownCipher, certsOk);
    SessionRoundTrip(Normal(s, forTicket), false, knownCipher, certsOk);
  }
}
