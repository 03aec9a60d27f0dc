// How a server picks the cipher: preference lists with equal-preference groups
// (ssl3_choose_cipher).
module CipherChoice {
  import opened Wire

  // SSL_CIPHER; mkey and auth are the bit sets of key exchange and authentication.
  datatype Cipher = Cipher(id: nat, minVersion: nat, maxVersion: nat, mkey: bv32, auth: bv32)

  // What the connection allows
  datatype Params = Params(version: nat, maskK: bv32, maskA: bv32)

  predicate Compatible(c: Cipher, p: Params) {
    c.minVersion <= p.version <= c.maxVersion && c.mkey & p.maskK != 0 && c.auth & p.maskA != 0
  }

  // sk_SSL_CIPHER_find: the first position
  function IndexOf(allow: seq<Cipher>, c: Cipher): (i: nat)
    requires c in allow
    ensures i < |allow| && allow[i] == c && c !in allow[..i]
  {
    if allow[0] == c then 0 else IndexOf(allow[1..], c) + 1
  }

  // ---- Groups ----

  // 1 marks an element that is not the last of its group.  Without flags every
  // element is a group of its own.
  predicate GoesOn(flags: Option<seq<byte>>, i: nat) {
    flags.Some? && i < |flags.value| && flags.value[i] == 1
  }

  predicate FlagsOk(prio: seq<Cipher>, flags: Option<seq<byte>>) {
    flags.Some? ==> |flags.value| == |prio| && forall i | 0 <= i < |prio| :: flags.value[i] <= 1
  }

  // Position i belongs to the group that ends at position e.
  predicate InGroup(flags: Option<seq<byte>>, i: nat, e: nat) {
    i <= e && forall j | i <= j < e :: GoesOn(flags, j)
  }

  predicate GroupEnd(prio: seq<Cipher>, flags: Option<seq<byte>>, e: nat) {
    e < |prio| && !GoesOn(flags, e)
  }

  // Every group is closed.
  predicate GroupsClosed(prio: seq<Cipher>, flags: Option<seq<byte>>) {
    prio != [] ==> !GoesOn(flags, |prio| - 1)
  }

  // ---- The specification ----

  predicate Shared(prio: seq<Cipher>, allow: seq<Cipher>, p: Params, i: nat) {
    i < |prio| && Compatible(prio[i], p) && prio[i] in allow
  }

  ghost predicate Offers(prio: seq<Cipher>, allow: seq<Cipher>, flags: Option<seq<byte>>, p: Params, e: nat) {
    GroupEnd(prio, flags, e) && exists i: nat :: InGroup(flags, i, e) && Shared(prio, allow, p, i)
  }

  // The first group with a compatible shared cipher
  ghost predicate FirstOffer(prio: seq<Cipher>, allow: seq<Cipher>, flags: Option<seq<byte>>, p: Params, e: nat) {
    Offers(prio, allow, flags, p, e) && forall d: nat | d < e :: !Offers(prio, allow, flags, p, d)
  }

  // c is that group's compatible cipher that comes earliest in the allow list.
  ghost predicate BestOf(prio: seq<Cipher>, allow: seq<Cipher>, flags: Option<seq<byte>>, p: Params, e: nat, c: Cipher) {
    c in allow
    && (exists i: nat :: InGroup(flags, i, e) && Shared(prio, allow, p, i) && prio[i] == c)
    && forall j: nat | InGroup(flags, j, e) && Shared(prio, allow, p, j) :: IndexOf(allow, c) <= IndexOf(allow, prio[j])
  }

  ghost predicate Choice(prio: seq<Cipher>, allow: seq<Cipher>, flags: Option<seq<byte>>, p: Params, c: Cipher) {
    exists e: nat :: FirstOffer(prio, allow, flags, p, e) && BestOf(prio, allow, flags, p, e, c)
  }

  // The specification leaves no choice.
  lemma ChoiceIsUnique(prio: seq<Cipher>, allow: seq<Cipher>, flags: Option<seq<byte>>, p: Params, c: Cipher, d: Cipher)
    requires Choice(prio, allow, flags, p, c) && Choice(prio, allow, flags, p, d)
    ensures c == d
  {
    var e: nat :| FirstOffer(prio, allow, flags, p, e) && BestOf(prio, allow, flags, p, e, c);
    var f: nat :| FirstOffer(prio, allow, flags, p, f) && BestOf(prio, allow, flags, p, f, d);
    assert e == f;
    assert IndexOf(allow, c) == IndexOf(allow, d);
  }

  // With every group closed, some group offers a cipher exactly when there is
  // a compatible shared one at all.
  lemma {:induction false} ClosedGroupsMissNothing(prio: seq<Cipher>, allow: seq<Cipher>, flags: Option<seq<byte>>, p: Params)
    requires FlagsOk(prio, flags) && GroupsClosed(prio, flags)
    ensures (exists e: nat :: Offers(prio, allow, flags, p, e)) <==> exists i: nat :: Shared(prio, allow, p, i)
  {
    if i: nat :| Shared(prio, allow, p, i) {
      var e := EndOf(prio, flags, i);
      assert Offers(prio, allow, flags, p, e);
    }
  }

  lemma {:induction false} EndOf(prio: seq<Cipher>, flags: Option<seq<byte>>, i: nat) returns (e: nat)
    requires FlagsOk(prio, flags) && GroupsClosed(prio, flags) && i < |prio|
    ensures GroupEnd(prio, flags, e) && InGroup(flags, i, e)
    decreases |prio| - i
  {
    if GoesOn(flags, i) {
      e := EndOf(prio, flags, i + 1);
    } else {
      e := i;
    }
  }

  // ---- ssl3_choose_cipher ----

  // What the scan knows before position i: no closed group offered anything,
  // and groupMin is the least index of the open group.
  ghost predicate Scanned(prio: seq<Cipher>, allow: seq<Cipher>, flags: Option<seq<byte>>, p: Params, i: nat, groupMin: int) {
    && i <= |prio|
    && (forall d: nat | d < i :: !Offers(prio, allow, flags, p, d))
    && -1 <= groupMin < |allow|
    && (groupMin == -1 ==> forall j: nat | j < i && InGroup(flags, j, i) :: !Shared(prio, allow, p, j))
    && (groupMin != -1 ==>
          && (exists j: nat :: j < i && InGroup(flags, j, i) && Shared(prio, allow, p, j) && IndexOf(allow, prio[j]) == groupMin)
          && forall j: nat | j < i && InGroup(flags, j, i) && Shared(prio, allow, p, j) :: groupMin <= IndexOf(allow, prio[j]))
  }

  // The index after position i was looked at
  function Improved(prio: seq<Cipher>, allow: seq<Cipher>, p: Params, i: nat, groupMin: int): int {
    if Shared(prio, allow, p, i) && (groupMin == -1 || IndexOf(allow, prio[i]) < groupMin) then IndexOf(allow, prio[i]) else groupMin
  }

  lemma GroupGoesOn(prio: seq<Cipher>, allow: seq<Cipher>, flags: Option<seq<byte>>, p: Params, i: nat, groupMin: int)
    requires Scanned(prio, allow, flags, p, i, groupMin) && i < |prio| && GoesOn(flags, i)
    ensures Scanned(prio, allow, flags, p, i + 1, Improved(prio, allow, p, i, groupMin))
  {
    hide Compatible;
    assert forall j: nat | j <= i :: InGroup(flags, j, i + 1) <==> InGroup(flags, j, i);
    assert InGroup(flags, i, i);
  }

  lemma GroupEnds(prio: seq<Cipher>, allow: seq<Cipher>, flags: Option<seq<byte>>, p: Params, i: nat, groupMin: int)
    requires Scanned(prio, allow, flags, p, i, groupMin) && i < |prio| && !GoesOn(flags, i)
    ensures var best := Improved(prio, allow, p, i, groupMin);
      if best == -1 then Scanned(prio, allow, flags, p, i + 1, -1)
      else 0 <= best < |allow| && Choice(prio, allow, flags, p, allow[best])
  {
    hide Compatible;
    assert InGroup(flags, i, i);
    var best := Improved(prio, allow, p, i, groupMin);
    if best == -1 {
      assert !Offers(prio, allow, flags, p, i);
    } else {
      assert FirstOffer(prio, allow, flags, p, i);
      assert BestOf(prio, allow, flags, p, i, allow[best]);
    }
  }

  method ChooseFrom(prio: seq<Cipher>, allow: seq<Cipher>, flags: Option<seq<byte>>, p: Params) returns (r: Option<Cipher>)
    requires FlagsOk(prio, flags)
    ensures r.Some? ==> Choice(prio, allow, flags, p, r.value)
    ensures r.None? <==> forall e: nat :: !Offers(prio, allow, flags, p, e)
  {
    hide Compatible, Scanned, Choice, Offers, IndexOf;
    var groupMin := -1;
    ScanStarts(prio, allow, flags, p);
    var i := 0;
    while i < |prio|
      invariant 0 <= i <= |prio| && Scanned(prio, allow, flags, p, i, groupMin)
      invariant flags.None? ==> groupMin == -1
    {
      var c := prio[i];
      if flags.Some? && flags.value[i] == 1 {
        GroupGoesOn(prio, allow, flags, p, i, groupMin);
      } else {
        GroupEnds(prio, allow, flags, p, i, groupMin);
      }
      if Compatible(c, p) && c in allow {
        var cipherIndex := IndexOf(allow, c);
        if flags.Some? && flags.value[i] == 1 {
          if groupMin == -1 || groupMin > cipherIndex {
            groupMin := cipherIndex;
          }
        } else {
          if groupMin != -1 && groupMin < cipherIndex {
            cipherIndex := groupMin;
          }
          r := Some(allow[cipherIndex]);
          ChoiceIsOffered(prio, allow, flags, p, r.value);
          return;
        }
      }
      if flags.Some? && flags.value[i] == 0 && groupMin != -1 {
        // Leaving a group with a match in it
        r := Some(allow[groupMin]);
        ChoiceIsOffered(prio, allow, flags, p, r.value);
        return;
      }
      i := i + 1;
    }
    r := None;
    ScanEnds(prio, allow, flags, p, groupMin);
  }

  lemma ScanStarts(prio: seq<Cipher>, allow: seq<Cipher>, flags: Option<seq<byte>>, p: Params)
    ensures Scanned(prio, allow, flags, p, 0, -1)
  {
  }

  lemma ScanEnds(prio: seq<Cipher>, allow: seq<Cipher>, flags: Option<seq<byte>>, p: Params, groupMin: int)
    requires Scanned(prio, allow, flags, p, |prio|, groupMin)
    ensures forall e: nat :: !Offers(prio, allow, flags, p, e)
  {
  }

  lemma ChoiceIsOffered(prio: seq<Cipher>, allow: seq<Cipher>, flags: Option<seq<byte>>, p: Params, c: Cipher)
    requires Choice(prio, allow, flags, p, c)
    ensures exists e: nat :: Offers(prio, allow, flags, p, e)
  {
  }

  // The choice is in both lists, fits the version, and shares key exchange and
  // authentication with the connection.
  lemma ChosenIsShared(prio: seq<Cipher>, allow: seq<Cipher>, flags: Option<seq<byte>>, p: Params, c: Cipher)
    requires Choice(prio, allow, flags, p, c)
    ensures c in prio && c in allow && c.minVersion <= p.version && p.version <= c.maxVersion
    ensures c.mkey & p.maskK != 0 && c.auth & p.maskA != 0
  {
    assert Compatible(c, p) by {
      hide Compatible;
    }
    hide Choice;
  }

  // And a cipher of both lists that fits so is found, if its group is closed.
  lemma SharedIsOffered(prio: seq<Cipher>, allow: seq<Cipher>, flags: Option<seq<byte>>, p: Params, c: Cipher) returns (e: nat)
    requires FlagsOk(prio, flags) && GroupsClosed(prio, flags)
    requires c in prio && c in allow && c.minVersion <= p.version && p.version <= c.maxVersion
    requires c.mkey & p.maskK != 0 && c.auth & p.maskA != 0
    ensures Offers(prio, allow, flags, p, e)
  {
    assert Compatible(c, p);
    hide Compatible, Offers, Shared;
    var i: nat :| i < |prio| && prio[i] == c;
    SharedAt(prio, allow, p, i);
    ClosedGroupsMissNothing(prio, allow, flags, p);
    e :| Offers(prio, allow, flags, p, e);
  }

  lemma SharedAt(prio: seq<Cipher>, allow: seq<Cipher>, p: Params, i: nat)
    requires i < |prio| && Compatible(prio[i], p) && prio[i] in allow
    ensures Shared(prio, allow, p, i)
  {
    hide Compatible;
  }

  // The server's own list leads, with its groups, or the client's without any.
  method ChooseCipher(serverPreference: bool, serverPref: seq<Cipher>, serverFlags: seq<byte>, clientPref: seq<Cipher>, p: Params)
    returns (r: Option<Cipher>)
    requires FlagsOk(serverPref, Some(serverFlags)) && GroupsClosed(serverPref, Some(serverFlags))
    ensures r.Some? ==>
      if serverPreference then Choice(serverPref, clientPref, Some(serverFlags), p, r.value)
      else Choice(clientPref, serverPref, None, p, r.value)
    ensures r.None? <==> forall c | c in serverPref && c in clientPref :: !Compatible(c, p)
  {
    hide Compatible, Choice, Offers;
    var prio, allow, flags := serverPref, clientPref, Some(serverFlags);
    if !serverPreference {
      prio, allow, flags := clientPref, serverPref, None;
    }
    ClosedGroupsMissNothing(prio, allow, flags, p);
    r := ChooseFrom(prio, allow, flags, p);
    SharedIsCommon(prio, allow, p);
  }

  lemma SharedIsCommon(prio: seq<Cipher>, allow: seq<Cipher>, p: Params)
    ensures (exists i: nat :: Shared(prio, allow, p, i)) <==> exists c :: c in prio && c in allow && Compatible(c, p)
  {
    hide Compatible;
    if i: nat :| Shared(prio, allow, p, i) {
      assert prio[i] in prio && prio[i] in allow && Compatible(prio[i], p);
    }
    if c :| c in prio && c in allow && Compatible(c, p) {
      var i: nat :| i < |prio| && prio[i] == c;
      assert Shared(prio, allow, p, i);
    }
  }

  // An open group at the end of the list is scanned in vain.
  lemma OpenGroupIsIgnored(c: Cipher, p: Params)
    requires Compatible(c, p)
    ensures Shared([c], [c], p, 0) && forall e: nat :: !Offers([c], [c], Some([1]), p, e)
  {
  }
}
