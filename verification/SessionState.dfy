// The serialiser and the parser of sessions as they run: one appends elements,
// the other advances a cursor over them.
module SessionState {
  import opened Wire
  import opened AeadContext
  import opened Session

  // ---- Writing ----

  lemma FieldsUnfold(s: SslSession, forTicket: bool, k: nat)
    requires k < FIELDS
    ensures var f := FieldOf(s, forTicket, k);
      FieldsFrom(s, forTicket, k) == (if f.Some? then [Explicit(TagOf(k), f.value)] else []) + FieldsFrom(s, forTicket, k + 1)
  {
  }

  // What has been written, with the fields from k on still to come
  ghost predicate WrittenUpTo(s: SslSession, forTicket: bool, k: nat, written: seq<Der>) {
    s.cipher.Some? && s.cipher.value <= UINT16_MAX
    && written + FieldsFrom(s, forTicket, k) == Header(s, s.cipher.value, forTicket) + FieldsFrom(s, forTicket, 0)
  }

  lemma Wrote(s: SslSession, forTicket: bool, k: nat, written: seq<Der>, more: seq<Der>)
    requires k < FIELDS && WrittenUpTo(s, forTicket, k, written)
    requires more == if FieldOf(s, forTicket, k).Some? then [Explicit(TagOf(k), FieldOf(s, forTicket, k).value)] else []
    ensures WrittenUpTo(s, forTicket, k + 1, written + more)
  {
    FieldsUnfold(s, forTicket, k);
    hide FieldsFrom, FieldOf, TagOf, Header;
    assert written + (more + FieldsFrom(s, forTicket, k + 1)) == written + more + FieldsFrom(s, forTicket, k + 1);
  }

  // The serialiser: session collects the elements.
  class Cbb {
    var session: seq<Der>

    constructor ()
      ensures session == []
    {
      session := [];
    }

    // Where the field is left out
    ghost method Skip(s: SslSession, forTicket: bool, k: nat)
      requires k < FIELDS && WrittenUpTo(s, forTicket, k, session) && FieldOf(s, forTicket, k).None?
      ensures WrittenUpTo(s, forTicket, k + 1, session)
    {
      hide FieldOf, WrittenUpTo;
      Wrote(s, forTicket, k, session, []);
      assert session + [] == session;
    }

    // CBB_add_asn1 with an explicit tag and its content
    method Add(tag: nat, content: seq<Der>, ghost s: SslSession, ghost forTicket: bool, ghost k: nat)
      requires k < FIELDS && WrittenUpTo(s, forTicket, k, session) && FieldOf(s, forTicket, k) == Some(content) && tag == TagOf(k)
      modifies this
      ensures WrittenUpTo(s, forTicket, k + 1, session)
    {
      hide FieldOf, WrittenUpTo;
      Wrote(s, forTicket, k, session, [Explicit(tag, content)]);
      session := session + [Explicit(tag, content)];
    }

    method WritePeer(s: SslSession, forTicket: bool)
      requires WrittenUpTo(s, forTicket, 0, session)
      modifies this
      ensures WrittenUpTo(s, forTicket, 7, session)
    {
      hide WrittenUpTo;
      if |s.certs| > 0 && s.peerSha256.None? {
        Add(3, s.certs[0], s, forTicket, 0);
      } else {
        Skip(s, forTicket, 0);
      }
      Add(4, [OctetString(s.sidCtx)], s, forTicket, 1);
      // A negative result is cast to 64 bits.
      if s.verifyResult % TWO_64 != 0 {
        Add(5, [Integer(s.verifyResult % TWO_64)], s, forTicket, 2);
      } else {
        Skip(s, forTicket, 2);
      }
      Skip(s, forTicket, 3);
      if s.pskIdentity.Some? {
        Add(8, [OctetString(s.pskIdentity.value)], s, forTicket, 4);
      } else {
        Skip(s, forTicket, 4);
      }
      if s.lifetimeHint > 0 {
        Add(9, [Integer(s.lifetimeHint)], s, forTicket, 5);
      } else {
        Skip(s, forTicket, 5);
      }
      if s.ticket.Some? && !forTicket {
        Add(10, [OctetString(s.ticket.value)], s, forTicket, 6);
      } else {
        Skip(s, forTicket, 6);
      }
    }

    method WriteHashes(s: SslSession, forTicket: bool)
      requires WrittenUpTo(s, forTicket, 7, session)
      modifies this
      ensures WrittenUpTo(s, forTicket, 13, session)
    {
      hide WrittenUpTo;
      if s.peerSha256.Some? {
        Add(13, [OctetString(s.peerSha256.value)], s, forTicket, 7);
      } else {
        Skip(s, forTicket, 7);
      }
      if |s.handshakeHash| > 0 {
        Add(14, [OctetString(s.handshakeHash)], s, forTicket, 8);
      } else {
        Skip(s, forTicket, 8);
      }
      if s.sctList.Some? {
        Add(15, [OctetString(s.sctList.value)], s, forTicket, 9);
      } else {
        Skip(s, forTicket, 9);
      }
      if s.ocspResponse.Some? {
        Add(16, [OctetString(s.ocspResponse.value)], s, forTicket, 10);
      } else {
        Skip(s, forTicket, 10);
      }
      if s.extendedMasterSecret {
        Add(17, [Boolean(0xff)], s, forTicket, 11);
      } else {
        Skip(s, forTicket, 11);
      }
      if s.groupId > 0 {
        Add(18, [Integer(s.groupId)], s, forTicket, 12);
      } else {
        Skip(s, forTicket, 12);
      }
    }

    method WriteChain(s: SslSession, forTicket: bool)
      requires WrittenUpTo(s, forTicket, 13, session)
      modifies this
      ensures WrittenUpTo(s, forTicket, 14, session)
    {
      hide WrittenUpTo, Concat;
      if s.peerSha256.None? && |s.certs| >= 2 {
        var child := ChainContent(s.certs);
        Add(19, child, s, forTicket, 13);
      } else {
        Skip(s, forTicket, 13);
      }
    }

    // The certificates after the first
    static method ChainContent(certs: seq<seq<Der>>) returns (child: seq<Der>)
      requires |certs| >= 1
      ensures child == Concat(certs[1..])
    {
      child := [];
      var i := 1;
      while i < |certs|
        invariant 1 <= i <= |certs| && child + Concat(certs[i..]) == Concat(certs[1..])
      {
        assert certs[i..][1..] == certs[i + 1..];
        child := child + certs[i];
        i := i + 1;
      }
    }

    method WriteRest(s: SslSession, forTicket: bool)
      requires WrittenUpTo(s, forTicket, 14, session) && (s.ticketAgeAdd.Some? ==> s.ticketAgeAdd.value <= UINT32_MAX)
      modifies this
      ensures WrittenUpTo(s, forTicket, FIELDS, session)
    {
      hide WrittenUpTo;
      if s.ticketAgeAdd.Some? {
        Add(21, [OctetString(U32Bytes(s.ticketAgeAdd.value))], s, forTicket, 14);
      } else {
        Skip(s, forTicket, 14);
      }
      if !s.isServer {
        Add(22, [Boolean(0)], s, forTicket, 15);
      } else {
        Skip(s, forTicket, 15);
      }
      if s.peerSignatureAlgorithm != 0 {
        Add(23, [Integer(s.peerSignatureAlgorithm)], s, forTicket, 16);
      } else {
        Skip(s, forTicket, 16);
      }
      if s.maxEarlyData != 0 {
        Add(24, [Integer(s.maxEarlyData)], s, forTicket, 17);
      } else {
        Skip(s, forTicket, 17);
      }
      if s.timeout != s.authTimeout {
        Add(25, [Integer(s.authTimeout)], s, forTicket, 18);
      } else {
        Skip(s, forTicket, 18);
      }
      if s.earlyAlpn.Some? {
        Add(26, [OctetString(s.earlyAlpn.value)], s, forTicket, 19);
      } else {
        Skip(s, forTicket, 19);
      }
    }

    // SSL_SESSION_to_bytes_full
    static method SessionToBytes(s: SslSession, forTicket: bool) returns (r: Option<Der>)
      requires Shaped(s)
      ensures r == ToDer(s, forTicket)
    {
      if s.cipher.None? {
        return None;
      }
      var cbb := new Cbb();
      cbb.session := [Integer(SESSION_VERSION), Integer(s.version), OctetString(U16(s.cipher.value))];
      cbb.session := cbb.session + [OctetString(if forTicket then [] else s.sessionId), OctetString(s.masterKey)];
      cbb.session := cbb.session + [Explicit(1, [Integer(s.time)]), Explicit(2, [Integer(s.timeout)])];
      assert cbb.session == Header(s, s.cipher.value, forTicket);
      hide Header, FieldOf;
      cbb.WritePeer(s, forTicket);
      cbb.WriteHashes(s, forTicket);
      cbb.WriteChain(s, forTicket);
      cbb.WriteRest(s, forTicket);
      assert FieldsFrom(s, forTicket, FIELDS) == [];
      assert cbb.session + [] == cbb.session;
      r := Some(Sequence(cbb.session));
    }
  }

  // ---- Reading ----

  predicate MiddleReadable(c: seq<Option<seq<Der>>>, certsOk: seq<seq<Der>> -> bool)
    requires |c| == FIELDS
  {
    && ReadBool(c[11], false).Some? && ReadNumber(c[12], UINT16_MAX, 0).Some?
    && c[13] != Some([]) && (c[13].Some? ==> c[0].Some?) && certsOk(Certificates(c[0], c[13]))
  }

  predicate RestReadable(c: seq<Option<seq<Der>>>, timeout: nat)
    requires |c| == FIELDS
  {
    && ReadOctets(c[14]).Some? && (c[14].Some? ==> |BytesOr(ReadOctets(c[14]))| == 4)
    && ReadBool(c[15], true).Some? && ReadNumber(c[16], UINT16_MAX, 0).Some? && ReadNumber(c[17], UINT32_MAX, 0).Some?
    && ReadNumber(c[18], UINT32_MAX, timeout).Some? && ReadOctets(c[19]).Some?
  }

  lemma ReadableInParts(c: seq<Option<seq<Der>>>, certsOk: seq<seq<Der>> -> bool, timeout: nat)
    requires |c| == FIELDS
    ensures FieldsReadable(c, certsOk) <==> c[0] != Some([]) && FirstReadable(c) && MiddleReadable(c, certsOk) && RestReadable(c, timeout)
    ensures MiddleReadable(c, certsOk) && RestReadable(c, timeout) ==> LastReadable(c)
  {
    DefaultDoesNotMatter(c[18], UINT32_MAX, 0, timeout);
    hide ReadBool, ReadNumber, ReadOctets, Certificates, FirstReadable;
  }

  class Cbs {
    var es: seq<Der>

    constructor (e: seq<Der>)
      ensures es == e
    {
      es := e;
    }

    // The k-th optional field of the elements at the start is next.
    ghost predicate At(start: seq<Der>, k: nat)
      reads this
    {
      es == After(start, k)
    }

    // CBS_get_optional_asn1
    method GetOptional(tag: nat, ghost start: seq<Der>, ghost k: nat) returns (content: Option<seq<Der>>)
      requires At(start, k) && tag == TagOf(k)
      modifies this
      ensures content == Taken(start, k) && At(start, k + 1)
    {
      content := None;
      if es != [] && es[0].Explicit? && es[0].tag == tag {
        content := Some(es[0].content);
        es := es[1..];
      }
    }

    // SSL_SESSION_parse_long, _u32 and _u16
    method ParseNumber(tag: nat, max: nat, default: nat, ghost start: seq<Der>, ghost k: nat) returns (r: Option<nat>)
      requires At(start, k) && tag == TagOf(k)
      modifies this
      ensures r == ReadNumber(Taken(start, k), max, default) && At(start, k + 1)
    {
      hide At, Taken;
      var c := GetOptional(tag, start, k);
      if c.None? {
        return Some(default);
      }
      var child := c.value;
      if child == [] || !child[0].Integer? || child[0].n >= TWO_64 || child[1..] != [] || child[0].n > max {
        return None;
      }
      r := Some(child[0].n);
    }

    // CBS_get_optional_asn1_octet_string
    method GetOctets(tag: nat, ghost start: seq<Der>, ghost k: nat) returns (ok: bool, value: Option<seq<byte>>)
      requires At(start, k) && tag == TagOf(k)
      modifies this
      ensures ReadOctets(Taken(start, k)) == (if ok then Some(value) else None) && At(start, k + 1)
    {
      hide At, Taken;
      value := None;
      var c := GetOptional(tag, start, k);
      if c.Some? {
        var child := c.value;
        if child == [] || !child[0].OctetString? || child[1..] != [] {
          return false, None;
        }
        value := Some(child[0].bytes);
      }
      ok := true;
    }

    // CBS_get_optional_asn1_bool
    method GetBool(tag: nat, default: bool, ghost start: seq<Der>, ghost k: nat) returns (r: Option<bool>)
      requires At(start, k) && tag == TagOf(k)
      modifies this
      ensures r == ReadBool(Taken(start, k), default) && At(start, k + 1)
    {
      hide At, Taken;
      var c := GetOptional(tag, start, k);
      if c.None? {
        return Some(default);
      }
      var child := c.value;
      if child == [] || !child[0].Boolean? || child[1..] != [] {
        return None;
      }
      if child[0].b == 0 {
        r := Some(false);
      } else if child[0].b == 0xff {
        r := Some(true);
      } else {
        r := None;
      }
    }

    // From sessionIDContext to ocspResponse, into the session
    method ParseFirst(ret: SslSession, ghost start: seq<Der>) returns (ok: bool, s: SslSession)
      requires At(start, 1)
      modifies this
      ensures ok <==> FirstReadable(TakenAll(start))
      ensures ok ==> At(start, 11)
      ensures ok ==> var c := TakenAll(start);
        s == ret.(sidCtx := BytesOr(ReadOctets(c[1])), verifyResult := ReadNumber(c[2], LONG_MAX, 0).value,
                  pskIdentity := ReadOctets(c[4]).value, lifetimeHint := ReadNumber(c[5], UINT32_MAX, 0).value,
                  ticket := Stowed(ReadOctets(c[6])), peerSha256 := ReadOctets(c[7]).value,
                  handshakeHash := BytesOr(ReadOctets(c[8])), sctList := ReadOctets(c[9]).value, ocspResponse := ReadOctets(c[10]).value)
    {
      hide At, Taken, TakenAll, ReadNumber, ReadOctets, TagOf;
      TagValues();
      s := ret;
      var value;
      ok, value := GetOctets(4, start, 1);
      if !ok || (value.Some? && |value.value| > MAX_SID_CTX) {
        return false, s;
      }
      s := s.(sidCtx := if value.Some? then value.value else []);
      var n := ParseNumber(5, LONG_MAX, 0, start, 2);
      if n.None? {
        return false, s;
      }
      s := s.(verifyResult := n.value);
      // The historical hostName field is skipped.
      var unused := GetOptional(6, start, 3);
      ok, s := ParseStrings(s, start);
      if !ok {
        return;
      }
      ok, s := ParseHashes(s, start);
    }

    // From pskIdentity to ticket
    method ParseStrings(ret: SslSession, ghost start: seq<Der>) returns (ok: bool, s: SslSession)
      requires At(start, 4)
      modifies this
      ensures var c := TakenAll(start);
        ok <==> (ReadOctets(c[4]).Some? && 0 !in BytesOr(ReadOctets(c[4])) && ReadNumber(c[5], UINT32_MAX, 0).Some? && ReadOctets(c[6]).Some?)
      ensures ok ==> At(start, 7)
      ensures ok ==> var c := TakenAll(start);
        s == ret.(pskIdentity := ReadOctets(c[4]).value, lifetimeHint := ReadNumber(c[5], UINT32_MAX, 0).value,
                  ticket := Stowed(ReadOctets(c[6])))
    {
      hide At, Taken, TakenAll, ReadNumber, ReadOctets, TagOf;
      TagValues();
      s := ret;
      var value, n;
      ok, value := GetOctets(8, start, 4);
      if !ok || (value.Some? && 0 in value.value) {
        return false, s;
      }
      s := s.(pskIdentity := value);
      n := ParseNumber(9, UINT32_MAX, 0, start, 5);
      if n.None? {
        return false, s;
      }
      s := s.(lifetimeHint := n.value);
      ok, value := GetOctets(10, start, 6);
      if !ok {
        return;
      }
      s := s.(ticket := if value.Some? && |value.value| > 0 then value else None);
    }

    // From peerSHA256 to ocspResponse
    method ParseHashes(ret: SslSession, ghost start: seq<Der>) returns (ok: bool, s: SslSession)
      requires At(start, 7)
      modifies this
      ensures var c := TakenAll(start);
        ok <==> (ReadOctets(c[7]).Some? && (c[7].Some? ==> |BytesOr(ReadOctets(c[7]))| == 32) && Bounded(c[8], MAX_HASH)
                 && ReadOctets(c[9]).Some? && ReadOctets(c[10]).Some?)
      ensures ok ==> At(start, 11)
      ensures ok ==> var c := TakenAll(start);
        s == ret.(peerSha256 := ReadOctets(c[7]).value, handshakeHash := BytesOr(ReadOctets(c[8])), sctList := ReadOctets(c[9]).value,
                  ocspResponse := ReadOctets(c[10]).value)
    {
      PresentOctets(TakenAll(start)[7]);
      hide At, Taken, TakenAll, ReadOctets, TagOf;
      TagValues();
      s := ret;
      var value;
      ok, value := GetOctets(13, start, 7);
      if !ok || (value.Some? && |value.value| != 32) {
        return false, s;
      }
      s := s.(peerSha256 := value);
      ok, value := GetOctets(14, start, 8);
      if !ok || (value.Some? && |value.value| > MAX_HASH) {
        return false, s;
      }
      s := s.(handshakeHash := if value.Some? then value.value else []);
      ok, value := GetOctets(15, start, 9);
      if !ok {
        return;
      }
      s := s.(sctList := value);
      ok, value := GetOctets(16, start, 10);
      s := s.(ocspResponse := value);
    }

    // The certificates, from the leaf and the chain
    static method BuildCerts(peer: Option<seq<Der>>, chain: Option<seq<Der>>) returns (certs: seq<seq<Der>>)
      ensures certs == Certificates(peer, chain)
    {
      certs := if peer.Some? then [peer.value] else [];
      ghost var leaf := certs;
      var rest := if chain.Some? then chain.value else [];
      ghost var all := Singletons(rest);
      while rest != []
        invariant certs + Singletons(rest) == leaf + all
        decreases |rest|
      {
        assert certs + Singletons(rest) == (certs + [[rest[0]]]) + Singletons(rest[1..]);
        certs := certs + [[rest[0]]];
        rest := rest[1..];
      }
    }

    // From ticketAgeAdd to the end
    method ParseRest(ret: SslSession, ghost start: seq<Der>) returns (ok: bool, s: SslSession)
      requires At(start, 14) && ret.timeout <= UINT32_MAX
      modifies this
      ensures ok <==> RestReadable(TakenAll(start), ret.timeout) && After(start, FIELDS) == []
      ensures ok ==> var c := TakenAll(start);
        s == ret.(ticketAgeAdd := AgeAdd(c[14]), isServer := ReadBool(c[15], true).value,
                  peerSignatureAlgorithm := ReadNumber(c[16], UINT16_MAX, 0).value, maxEarlyData := ReadNumber(c[17], UINT32_MAX, 0).value,
                  authTimeout := ReadNumber(c[18], UINT32_MAX, ret.timeout).value, earlyAlpn := Stowed(ReadOctets(c[19])))
    {
      PresentOctets(TakenAll(start)[14]);
      hide At, Taken, TakenAll, ReadNumber, ReadOctets, ReadBool, TagOf, Get32, After;
      TagValues();
      s := ret;
      var value;
      ok, value := GetOctets(21, start, 14);
      if !ok || (value.Some? && |value.value| != 4) {
        return false, s;
      }
      s := s.(ticketAgeAdd := if value.Some? then Some(Get32(value.value)) else None);
      var b := GetBool(22, true, start, 15);
      if b.None? {
        return false, s;
      }
      s := s.(isServer := b.value);
      var n := ParseNumber(23, UINT16_MAX, 0, start, 16);
      if n.None? {
        return false, s;
      }
      s := s.(peerSignatureAlgorithm := n.value);
      ok, s := ParseLast(s, start);
    }

    // From ticketMaxEarlyData to the end
    method ParseLast(ret: SslSession, ghost start: seq<Der>) returns (ok: bool, s: SslSession)
      requires At(start, 17) && ret.timeout <= UINT32_MAX
      modifies this
      ensures var c := TakenAll(start);
        ok <==> (ReadNumber(c[17], UINT32_MAX, 0).Some? && ReadNumber(c[18], UINT32_MAX, ret.timeout).Some? && ReadOctets(c[19]).Some?
                 && After(start, FIELDS) == [])
      ensures ok ==> var c := TakenAll(start);
        s == ret.(maxEarlyData := ReadNumber(c[17], UINT32_MAX, 0).value,
                  authTimeout := ReadNumber(c[18], UINT32_MAX, ret.timeout).value, earlyAlpn := Stowed(ReadOctets(c[19])))
    {
      hide At, Taken, TakenAll, ReadNumber, ReadOctets, TagOf, After;
      TagValues();
      s := ret;
      var value;
      var n := ParseNumber(24, UINT32_MAX, 0, start, 17);
      if n.None? {
        return false, s;
      }
      s := s.(maxEarlyData := n.value);
      n := ParseNumber(25, UINT32_MAX, s.timeout, start, 18);
      if n.None? {
        return false, s;
      }
      s := s.(authTimeout := n.value);
      ok, value := GetOctets(26, start, 19);
      if !ok {
        return;
      }
      s := s.(earlyAlpn := if value.Some? && |value.value| > 0 then value else None);
      AtIsAfter(this, start, FIELDS);
      ok := es == [];
    }
  }

  lemma AtIsAfter(cbs: Cbs, start: seq<Der>, k: nat)
    requires cbs.At(start, k)
    ensures cbs.es == After(start, k)
  {
  }

  lemma PresentOctets(c: Option<seq<Der>>)
    ensures ReadOctets(c).Some? ==> (c.Some? <==> ReadOctets(c).value.Some?)
  {
  }

  lemma TagValues()
    ensures TagOf(0) == 3 && TagOf(1) == 4 && TagOf(2) == 5 && TagOf(3) == 6 && TagOf(4) == 8 && TagOf(5) == 9 && TagOf(6) == 10
    ensures TagOf(7) == 13 && TagOf(8) == 14 && TagOf(9) == 15 && TagOf(10) == 16 && TagOf(11) == 17 && TagOf(12) == 18 && TagOf(13) == 19
    ensures TagOf(14) == 21 && TagOf(15) == 22 && TagOf(16) == 23 && TagOf(17) == 24 && TagOf(18) == 25 && TagOf(19) == 26
  {
  }

  const NEW_SESSION: SslSession := SslSession(0, None, [], [], 0, 0, [], [], 0, None, 0, None, None, [], None, None, false, 0, None, false, 0, 0, 0, None)

  // SSL_SESSION_parse
  method SessionParse(d: Der, knownCipher: nat -> bool, certsOk: seq<seq<Der>> -> bool) returns (r: Option<SslSession>)
    ensures r == FromDer(d, knownCipher, certsOk)
  {
    hide FirstReadable, LastReadable, TakenAll, After, Taken, Certificates, ReadNumber, ReadBool, ReadOctets;
    if !d.Sequence? {
      return None;
    }
    var es := d.es;
    if |es| < 2 || es[0] != Integer(SESSION_VERSION) || !es[1].Integer? || es[1].n > UINT16_MAX || ProtocolVersion(es[1].n).None? {
      return None;
    }
    if |es| < 3 || !es[2].OctetString? || |es[2].bytes| != 2 || !knownCipher(Get16(es[2].bytes)) {
      return None;
    }
    var s := NEW_SESSION.(version := es[1].n, cipher := Some(Get16(es[2].bytes)));
    if |es| < 5 || !es[3].OctetString? || |es[3].bytes| > MAX_SESSION_ID || !es[4].OctetString? || |es[4].bytes| > MAX_MASTER_KEY {
      return None;
    }
    s := s.(sessionId := es[3].bytes, masterKey := es[4].bytes);
    if |es| < 6 || !es[5].Explicit? || es[5].tag != 1 || es[5].content == [] || !es[5].content[0].Integer? || es[5].content[0].n >= TWO_64 {
      return None;
    }
    s := s.(time := es[5].content[0].n);
    if |es| < 7 || !es[6].Explicit? || es[6].tag != 2 || es[6].content == [] || !es[6].content[0].Integer? || es[6].content[0].n > UINT32_MAX {
      return None;
    }
    s := s.(timeout := es[6].content[0].n);
    r := ParseOptional(es[7..], s, certsOk);
    ghost var c := TakenAll(es[7..]);
    assert HeaderReadable(es, knownCipher);
  }

  // From extendedMasterSecret to the certificates
  method ParseMiddle(cbs: Cbs, ret: SslSession, peer: Option<seq<Der>>, certsOk: seq<seq<Der>> -> bool, ghost start: seq<Der>)
    returns (ok: bool, s: SslSession)
    requires cbs.At(start, 11) && peer == Taken(start, 0)
    modifies cbs
    ensures ok <==> MiddleReadable(TakenAll(start), certsOk)
    ensures ok ==> cbs.At(start, 14)
    ensures ok ==> var c := TakenAll(start);
      s == ret.(extendedMasterSecret := ReadBool(c[11], false).value, groupId := ReadNumber(c[12], UINT16_MAX, 0).value,
                certs := Certificates(c[0], c[13]))
  {
    hide TakenAll, Taken, Certificates, ReadNumber, ReadBool, TagOf;
    TagValues();
    s := ret;
    var b := cbs.GetBool(17, false, start, 11);
    if b.None? {
      return false, s;
    }
    s := s.(extendedMasterSecret := b.value);
    var n := cbs.ParseNumber(18, UINT16_MAX, 0, start, 12);
    if n.None? {
      return false, s;
    }
    s := s.(groupId := n.value);
    var chain := cbs.GetOptional(19, start, 13);
    if (chain.Some? && chain.value == []) || (chain.Some? && peer.None?) {
      return false, s;
    }
    if peer.Some? || chain.Some? {
      var certs := Cbs.BuildCerts(peer, chain);
      s := s.(certs := certs);
    } else {
      NoCertificates();
      s := s.(certs := []);
    }
    ok := certsOk(s.certs);
  }

  // The part of SSL_SESSION_parse after the fixed fields
  method ParseOptional(start: seq<Der>, ret: SslSession, certsOk: seq<seq<Der>> -> bool) returns (r: Option<SslSession>)
    requires ret.timeout <= UINT32_MAX
    ensures r.Some? <==> FieldsReadable(TakenAll(start), certsOk) && After(start, FIELDS) == []
    ensures r.Some? ==> var c := TakenAll(start);
      FirstReadable(c) && LastReadable(c) && r.value == WithFields(ret, c)
  {
    assert After(start, 0) == start;
    ReadableInParts(TakenAll(start), certsOk, ret.timeout);
    hide TakenAll, After, Taken, Certificates, ReadNumber, ReadBool, ReadOctets, TagOf, AgeAdd, Stowed, BytesOr, FirstReadable, LastReadable,
         MiddleReadable, RestReadable, FieldsReadable;
    TagValues();
    var cbs: Cbs := new Cbs(start);
    var peer := cbs.GetOptional(3, start, 0);
    if peer.Some? && peer.value == [] {
      return None;
    }
    var ok, s := cbs.ParseFirst(ret, start);
    if !ok {
      return None;
    }
    ok, s := ParseMiddle(cbs, s, peer, certsOk, start);
    if !ok {
      return None;
    }
    ok, s := cbs.ParseRest(s, start);
    if !ok {
      return None;
    }
    r := Some(s);
  }

  lemma NoCertificates()
    ensures Certificates(None, None) == []
  {
  }

  lemma DefaultDoesNotMatter(c: Option<seq<Der>>, max: nat, a: nat, b: nat)
    ensures ReadNumber(c, max, a).Some? <==> ReadNumber(c, max, b).Some?
  {
  }

  // The session with its optional fields filled in
  function WithFields(s: SslSession, c: seq<Option<seq<Der>>>): SslSession
    requires |c| == FIELDS && FirstReadable(c) && LastReadable(c)
  {
    s.(certs := Certificates(c[0], c[13]),
       sidCtx := BytesOr(ReadOctets(c[1])), verifyResult := ReadNumber(c[2], LONG_MAX, 0).value,
       pskIdentity := ReadOctets(c[4]).value, lifetimeHint := ReadNumber(c[5], UINT32_MAX, 0).value,
       ticket := Stowed(ReadOctets(c[6])), peerSha256 := ReadOctets(c[7]).value,
       handshakeHash := BytesOr(ReadOctets(c[8])), sctList := ReadOctets(c[9]).value, ocspResponse := ReadOctets(c[10]).value,
       extendedMasterSecret := ReadBool(c[11], false).value, groupId := ReadNumber(c[12], UINT16_MAX, 0).value,
       ticketAgeAdd := AgeAdd(c[14]), isServer := ReadBool(c[15], true).value,
       peerSignatureAlgorithm := ReadNumber(c[16], UINT16_MAX, 0).value, maxEarlyData := ReadNumber(c[17], UINT32_MAX, 0).value,
       authTimeout := ReadNumber(c[18], UINT32_MAX, s.timeout).value, earlyAlpn := Stowed(ReadOctets(c[19])))
  }
}
