// DTLS records on the wire: the bytes of a sealed record, what a receiver makes
// of them, and the nonces they are sealed with.
module DtlsRecords {
  import opened Wire
  import opened DtlsCipher
  import opened DtlsSent
  import opened DtlsQueue
  import A = AeadContext
  import R = DtlsReceive

  // The sequence number a record is sealed with: epoch, then number
  function Seqnum(epoch: nat, num: nat): (s: seq<byte>)
    requires epoch < 0x1_0000 && num < 0x1_0000_0000_0000
    ensures |s| == 8
  {
    U16(epoch) + U48(num)
  }

  lemma SeqnumIsInjective(epoch: nat, num: nat, num': nat)
    requires epoch < 0x1_0000 && num < 0x1_0000_0000_0000 && num' < 0x1_0000_0000_0000
    requires Seqnum(epoch, num) == Seqnum(epoch, num')
    ensures num == num'
  {
    hide U48, Get48;
    assert Seqnum(epoch, num)[2..] == U48(num) && Seqnum(epoch, num')[2..] == U48(num');
    Get48OfU48(num);
    Get48OfU48(num');
  }

  // ---- Bytes ----

  ghost predicate CanBeSent(r: Sent, cipher: WriteAead, version: nat, rand: seq<byte>) {
    && r.epoch < 0x1_0000 && r.num < LAST_RECORD_NUMBER && version < 0x1_0000 && cipher.Valid()
    && (cipher.context.random ==> |rand| == cipher.context.variableLen)
    && r.size == cipher.RecordSize(|r.plaintext|) && r.size - RT_HEADER_LENGTH < 0x1_0000
  }

  function InfoOf(r: Sent, version: nat): A.RecordInfo
    requires r.epoch < 0x1_0000 && r.num < LAST_RECORD_NUMBER
  {
    A.RecordInfo(r.ty, version, Seqnum(r.epoch, r.num))
  }

  ghost function BodyOf(r: Sent, cipher: WriteAead, version: nat, rand: seq<byte>): (s: seq<byte>)
    requires CanBeSent(r, cipher, version, rand)
    ensures |s| == r.size - RT_HEADER_LENGTH
  {
    A.SealedLength(cipher.context, cipher.aead, InfoOf(r, version), rand, r.plaintext, []);
    A.Sealed(cipher.context, cipher.aead, InfoOf(r, version), rand, r.plaintext, [])
  }

  // dtls_seal_record: type, version, epoch and number, length, and what the
  // AEAD makes of the plaintext.  It is as long as the size that was counted.
  ghost function RecordBytes(r: Sent, cipher: WriteAead, version: nat, rand: seq<byte>): (s: seq<byte>)
    requires CanBeSent(r, cipher, version, rand)
    ensures |s| == r.size
  {
    [r.ty] + U16(version) + Seqnum(r.epoch, r.num) + U16(r.size - RT_HEADER_LENGTH) + BodyOf(r, cipher, version, rand)
  }

  // The receiver takes the record apart again, whatever follows in the packet.
  lemma RecordParses(r: Sent, cipher: WriteAead, version: nat, rand: seq<byte>, rest: seq<byte>)
    requires CanBeSent(r, cipher, version, rand) && r.size - RT_HEADER_LENGTH <= R.MAX_ENCRYPTED_LENGTH
    ensures R.ParseRecord(RecordBytes(r, cipher, version, rand) + rest)
         == Some(R.Record(r.ty, version, r.epoch, r.num, BodyOf(r, cipher, version, rand), r.size))
  {
    var body := BodyOf(r, cipher, version, rand);
    var s := RecordBytes(r, cipher, version, rand) + rest;
    hide U16, U48, Get16, Get48, BodyOf, WriteAead.RecordSize, WriteAead.Valid;
    assert s[0] == r.ty && s[1..3] == U16(version) && s[3..5] == U16(r.epoch) && s[5..11] == U48(r.num) && s[11..13] == U16(|body|);
    assert s[13..13 + |body|] == body;
    Get16OfU16(version);
    Get16OfU16(r.epoch);
    Get16OfU16(|body|);
    Get48OfU48(r.num);
  }

  // How a receiver that has the same cipher opens a record
  function OpenWith(cipher: WriteAead): R.Aead {
    (rec: R.Record) => if rec.version < 0x1_0000 && rec.epoch < 0x1_0000 && rec.num < LAST_RECORD_NUMBER
              && (cipher.context.xorNonce ==> 8 <= |cipher.context.fixedNonce| && !cipher.context.included)
           then A.Opened(cipher.context, cipher.aead, A.RecordInfo(rec.ty, rec.version, Seqnum(rec.epoch, rec.num)), rec.body)
           else None
  }

  // So a record that arrives unharmed, and is no replay, is accepted with the
  // plaintext that was sealed, and all of it is consumed.
  lemma HonestRecordIsOpened(recv: R.Receiver, r: Sent, cipher: WriteAead, version: nat, rand: seq<byte>, rest: seq<byte>)
    requires CanBeSent(r, cipher, version, rand) && r.size - RT_HEADER_LENGTH <= R.MAX_ENCRYPTED_LENGTH
    requires cipher.context.suite.None? || A.LengthAgrees(cipher.context, cipher.aead, |r.plaintext|, 0)
    requires !recv.readShutdown && R.VersionOk(recv, version) && recv.epoch == r.epoch && |r.plaintext| <= R.MAX_PLAIN_LENGTH
    requires !R.Replayed(recv, r.epoch * 0x1_0000_0000_0000 + r.num) && r.ty != R.RT_ALERT
    ensures var (recv', result, consumed) := R.OpenRecord(recv, RecordBytes(r, cipher, version, rand) + rest, OpenWith(cipher));
      && result == R.Opened(r.ty, r.plaintext) && consumed == r.size
      && recv'.recorded == recv.recorded + {r.epoch * 0x1_0000_0000_0000 + r.num} && recv'.slots == recv.slots
  {
    RecordParses(r, cipher, version, rand, rest);
    Unseals(r, cipher, version, rand);
    hide R.ParseRecord, R.Replayed, R.VersionOk, RecordBytes, BodyOf, CanBeSent, A.Opened, OpenWith;
    var s := RecordBytes(r, cipher, version, rand) + rest;
    assert |s| >= r.size;
  }

  lemma Unseals(r: Sent, cipher: WriteAead, version: nat, rand: seq<byte>)
    requires CanBeSent(r, cipher, version, rand)
    requires cipher.context.suite.None? || A.LengthAgrees(cipher.context, cipher.aead, |r.plaintext|, 0)
    ensures r.size > 0
    ensures OpenWith(cipher)(R.Record(r.ty, version, r.epoch, r.num, BodyOf(r, cipher, version, rand), r.size)) == Some(r.plaintext)
  {
    A.OpenUndoesSeal(cipher.context, cipher.aead, InfoOf(r, version), rand, r.plaintext, []);
    assert r.plaintext + [] == r.plaintext;
    VariableLength(cipher.context);
    hide A.Opened, A.Sealed, A.LengthAgrees;
  }

  // ---- Datagrams ----

  // Any record that was sealed is consumed alone and whole, whatever becomes of
  // it: replayed or not, of any epoch, opened or not.
  lemma SealedRecordIsConsumed(recv: R.Receiver, r: Sent, cipher: WriteAead, version: nat, rand: seq<byte>, rest: seq<byte>, open: R.Aead)
    requires CanBeSent(r, cipher, version, rand) && r.size - RT_HEADER_LENGTH <= R.MAX_ENCRYPTED_LENGTH
    requires !recv.readShutdown && R.VersionOk(recv, version)
    ensures R.OpenRecord(recv, RecordBytes(r, cipher, version, rand) + rest, open).2 == r.size
  {
    RecordParses(r, cipher, version, rand, rest);
    hide R.ParseRecord, R.Replayed, R.VersionOk, RecordBytes, BodyOf, CanBeSent;
    assert |RecordBytes(r, cipher, version, rand) + rest| >= r.size > 0;
  }

  // What a receiver is surrounded by: the AEAD it reads with, and what the
  // handshake makes of each record before the next one is looked at.
  datatype Host = Host(open: R.Receiver -> R.Aead, moves: (R.Receiver, R.OpenResult) -> R.Receiver)

  // A datagram is read record by record until nothing is left of it.
  ghost function OpenDatagram(host: Host, recv: R.Receiver, input: seq<byte>): (r: (R.Receiver, seq<R.OpenResult>))
    decreases |input|
  {
    if input == [] then (recv, [])
    else
      var (recv', result, consumed) := R.OpenRecord(recv, input, host.open(recv));
      if consumed == 0 || result.Failed? then (recv', [result])
      else
        var (last, results) := OpenDatagram(host, host.moves(recv', result), input[consumed..]);
        (last, [result] + results)
  }

  // A record as it is sent: which cipher seals it, and with what randomness
  datatype Posted = Posted(r: Sent, cipher: WriteAead, version: nat, rand: seq<byte>) {
    ghost predicate Ok() {
      && CanBeSent(r, cipher, version, rand) && r.size - RT_HEADER_LENGTH <= R.MAX_ENCRYPTED_LENGTH
      && |r.plaintext| <= R.MAX_PLAIN_LENGTH && r.ty != R.RT_ALERT
      && (cipher.context.suite.None? || A.LengthAgrees(cipher.context, cipher.aead, |r.plaintext|, 0))
    }

    ghost function Bytes(): seq<byte>
      requires Ok()
    {
      RecordBytes(r, cipher, version, rand)
    }

    function Seq(): nat {
      r.epoch * 0x1_0000_0000_0000 + r.num
    }
  }

  ghost predicate AllOk(posts: seq<Posted>) {
    forall i | 0 <= i < |posts| :: posts[i].Ok()
  }

  ghost function Datagram(posts: seq<Posted>): seq<byte>
    requires AllOk(posts)
  {
    if posts == [] then [] else posts[0].Bytes() + Datagram(posts[1..])
  }

  // What should become of a record: one of this epoch that is no replay is
  // opened and noted, any other is dropped.
  function Fate(recv: R.Receiver, x: Posted): (R.Receiver, R.OpenResult) {
    if x.r.epoch != recv.epoch || R.Replayed(recv, x.Seq()) then (recv, R.Discard)
    else (recv.(recorded := recv.recorded + {x.Seq()}, maxSeqNum := R.Max(x.Seq(), recv.maxSeqNum)), R.Opened(x.r.ty, x.r.plaintext))
  }

  // At each record the receiver is still listening, to its version, and reads
  // the epoch it is in with the cipher that epoch is written with.
  ghost predicate Listening(host: Host, recv: R.Receiver, posts: seq<Posted>)
    decreases |posts|
  {
    posts == []
    || (&& !recv.readShutdown && R.VersionOk(recv, posts[0].version)
        && (posts[0].r.epoch == recv.epoch ==> host.open(recv) == OpenWith(posts[0].cipher))
        && Listening(host, host.moves(Fate(recv, posts[0]).0, Fate(recv, posts[0]).1), posts[1..]))
  }

  function Fates(host: Host, recv: R.Receiver, posts: seq<Posted>): (R.Receiver, seq<R.OpenResult>)
    decreases |posts|
  {
    if posts == [] then (recv, [])
    else
      var (recv', result) := Fate(recv, posts[0]);
      var (last, results) := Fates(host, host.moves(recv', result), posts[1..]);
      (last, [result] + results)
  }

  lemma OneFate(recv: R.Receiver, x: Posted, rest: seq<byte>, open: R.Aead)
    requires x.Ok() && !recv.readShutdown && R.VersionOk(recv, x.version)
    requires x.r.epoch == recv.epoch ==> open == OpenWith(x.cipher)
    ensures x.r.size > 0 && |x.Bytes()| == x.r.size
    ensures R.OpenRecord(recv, x.Bytes() + rest, open) == (Fate(recv, x).0, Fate(recv, x).1, x.r.size)
  {
    RecordParses(x.r, x.cipher, x.version, x.rand, rest);
    Unseals(x.r, x.cipher, x.version, x.rand);
    hide R.ParseRecord, R.Replayed, R.VersionOk, RecordBytes, BodyOf, CanBeSent, A.Opened, OpenWith;
    assert |x.Bytes() + rest| >= x.r.size;
  }

  // Each record of a datagram is met, in order, whatever becomes of those before
  // it: no record that is dropped takes another one with it.
  lemma {:induction false} DatagramIsReadWhole(host: Host, recv: R.Receiver, posts: seq<Posted>)
    requires AllOk(posts) && Listening(host, recv, posts)
    ensures OpenDatagram(host, recv, Datagram(posts)) == Fates(host, recv, posts)
    decreases |posts|
  {
    if posts != [] {
      var x, rest := posts[0], Datagram(posts[1..]);
      OneFate(recv, x, rest, host.open(recv));
      DatagramIsReadWhole(host, host.moves(Fate(recv, x).0, Fate(recv, x).1), posts[1..]);
      hide R.OpenRecord, Fate, Posted.Bytes, Posted.Ok, R.VersionOk;
      assert (x.Bytes() + rest)[x.r.size..] == rest;
    }
  }

  // ---- Fresh records ----

  ghost predicate Increasing(posts: seq<Posted>) {
    forall i, j | 0 <= i < j < |posts| && posts[i].r.epoch == posts[j].r.epoch :: posts[i].r.num < posts[j].r.num
  }

  // A handshake that does not touch the window, and stays in its epoch
  ghost predicate LeavesWindow(host: Host) {
    forall recv, result :: host.moves(recv, result).epoch == recv.epoch
      && host.moves(recv, result).recorded == recv.recorded && host.moves(recv, result).maxSeqNum == recv.maxSeqNum
  }

  // Records of the receiver's epoch that were fresh when their datagram arrived,
  // with increasing numbers as they are sealed, are all accepted: the others in
  // the datagram do not push them out of the window.
  lemma {:induction false} FreshRecordsAreAccepted(host: Host, recv: R.Receiver, posts: seq<Posted>, i: nat)
    requires Increasing(posts) && LeavesWindow(host) && i < |posts|
    requires posts[i].r.epoch == recv.epoch && !R.Replayed(recv, posts[i].Seq())
    ensures |Fates(host, recv, posts).1| == |posts|
    ensures Fates(host, recv, posts).1[i] == R.Opened(posts[i].r.ty, posts[i].r.plaintext)
    decreases |posts|
  {
    FatesLength(host, recv, posts);
    if i > 0 {
      var (recv', result) := Fate(recv, posts[0]);
      var next := host.moves(recv', result);
      assert posts[0].r.epoch == recv.epoch ==> posts[0].Seq() < posts[i].Seq();
      assert posts[1..][i - 1] == posts[i];
      FreshRecordsAreAccepted(host, next, posts[1..], i - 1);
    }
  }

  lemma {:induction false} FatesLength(host: Host, recv: R.Receiver, posts: seq<Posted>)
    ensures |Fates(host, recv, posts).1| == |posts|
    decreases |posts|
  {
    if posts != [] {
      var (recv', result) := Fate(recv, posts[0]);
      FatesLength(host, host.moves(recv', result), posts[1..]);
    }
  }

  // So a datagram delivers all of its records that were fresh, behind whichever
  // others it holds: earlier epochs, replays, or records accepted before them.
  lemma DatagramDelivers(host: Host, recv: R.Receiver, posts: seq<Posted>, i: nat)
    requires AllOk(posts) && Listening(host, recv, posts) && Increasing(posts) && LeavesWindow(host) && i < |posts|
    requires posts[i].r.epoch == recv.epoch && !R.Replayed(recv, posts[i].Seq())
    ensures |OpenDatagram(host, recv, Datagram(posts)).1| == |posts|
    ensures OpenDatagram(host, recv, Datagram(posts)).1[i] == R.Opened(posts[i].r.ty, posts[i].r.plaintext)
  {
    DatagramIsReadWhole(host, recv, posts);
    FreshRecordsAreAccepted(host, recv, posts, i);
  }

  // ---- Nonces ----

  lemma VariableLength(c: A.Context)
    requires A.ContextOk(c)
    ensures c.suite.Some? && !c.random ==> c.variableLen == 8
    ensures c.xorNonce ==> |c.fixedNonce| >= 8 && !c.included
  {
  }

  function NonceFor(c: A.Context, r: Sent): seq<byte>
    requires r.epoch < 0x1_0000 && r.num < LAST_RECORD_NUMBER && A.ContextOk(c)
  {
    VariableLength(c);
    A.NonceOf(c, Seqnum(r.epoch, r.num))
  }

  lemma EmittedIsOk(s: Sender, records: seq<Sent>, i: nat)
    requires s.Valid() && Emitted(records, s.log.sent) && i < |records|
    ensures records[i].epoch < |s.ciphers| == s.epoch + 1 <= 0x1_0000 && records[i].num < LAST_RECORD_NUMBER
    ensures records[i].size == s.ciphers[records[i].epoch].RecordSize(|records[i].plaintext|)
  {
    var a := EmittedAt(records, s.log.sent, i);
    assert RecordOk(s.log.sent[a], s.ciphers);
  }

  // Of all records ever given to the transport, no two are sealed under one
  // context with one nonce.
  lemma NoncesAreNeverReused(s: Sender, records: seq<Sent>, i: nat, j: nat)
    requires s.Valid() && Emitted(records, s.log.sent) && i < j < |records| && records[i].epoch == records[j].epoch
    ensures records[i].epoch < |s.ciphers| && records[i].epoch < 0x1_0000
    ensures records[i].num < LAST_RECORD_NUMBER && records[j].num < LAST_RECORD_NUMBER
    ensures var c := s.ciphers[records[i].epoch].context;
      A.ContextOk(c) && c.suite.Some? && !c.random ==> NonceFor(c, records[i]) != NonceFor(c, records[j])
  {
    EmittedIsOk(s, records, i);
    EmittedIsOk(s, records, j);
    EmittedNumbersAreUnique(s.log, records, i, j);
    hide Sender.Valid, Emitted, WriteAead.RecordSize;
    var c := s.ciphers[records[i].epoch].context;
    if A.ContextOk(c) && c.suite.Some? && !c.random {
      VariableLength(c);
      hide Seqnum, A.NonceOf, A.ContextOk;
      if NonceFor(c, records[i]) == NonceFor(c, records[j]) {
        A.NonceIsInjective(c, Seqnum(records[i].epoch, records[i].num), Seqnum(records[j].epoch, records[j].num));
        SeqnumIsInjective(records[i].epoch, records[i].num, records[j].num);
      }
    }
  }

  // Which is what the AEAD asks of the records of an epoch.
  lemma EpochIsNonceRespecting(s: Sender, records: seq<Sent>, epoch: nat, version: nat)
    requires s.Valid() && Emitted(records, s.log.sent) && epoch < |s.ciphers| && version < 0x1_0000
    requires forall i | 0 <= i < |records| :: records[i].epoch == epoch
    requires var c := s.ciphers[epoch].context; A.ContextOk(c) && c.suite.Some? && !c.random
    ensures epoch < 0x1_0000 && forall i | 0 <= i < |records| :: records[i].num < LAST_RECORD_NUMBER
    ensures A.NonceRespecting(SealingsOf(s.ciphers[epoch].context, records, version))
  {
    forall i | 0 <= i < |records|
      ensures records[i].num < LAST_RECORD_NUMBER && epoch < 0x1_0000
    {
      EmittedIsOk(s, records, i);
    }
    assert epoch < 0x1_0000 by { assert |s.ciphers| == s.epoch + 1 <= 0x1_0000; }
    hide *;
    var c := s.ciphers[epoch].context;
    var log := SealingsOf(c, records, version);
    forall i: nat, j: nat | i < j < |records|
      ensures NonceFor(c, records[i]) != NonceFor(c, records[j])
    {
      NoncesAreNeverReused(s, records, i, j);
    }
    DistinctNonces(log);
  }

  lemma DistinctNonces(log: seq<A.Sealing>)
    requires forall i: nat, j: nat | i < j < |log| :: log[i].nonce != log[j].nonce
    ensures A.NonceRespecting(log)
  {
  }

  ghost function SealingsOf(c: A.Context, records: seq<Sent>, version: nat): (log: seq<A.Sealing>)
    requires A.ContextOk(c) && c.suite.Some? && !c.random && version < 0x1_0000
    requires forall i | 0 <= i < |records| :: records[i].epoch < 0x1_0000 && records[i].num < LAST_RECORD_NUMBER
    ensures |log| == |records| && forall i | 0 <= i < |log| :: log[i].nonce == NonceFor(c, records[i])
  {
    VariableLength(c);
    seq(|records|, i requires 0 <= i < |records| => A.SealingOf(c, InfoOf(records[i], version), [], records[i].plaintext, []))
  }
}
