/** Merging the authorization entries a simulation recorded with those a caller
    signed itself. */
module Authorization {
  import opened Wrappers
  import opened Bytes
  import opened ScVals
  import opened Xdr

  /** An address credential: whose it is, and the rest of it (nonce, expiration,
      signature), which merging does not look at. */
  datatype AddressPart = AddressPart(address: ScAddress, rest: Bytes)

  /** The arms of a credential; None is a nil pointer in the arm. */
  datatype Credentials =
    | SourceAccount
    | AddressCredentials(part: Option<AddressPart>)
    | AddressV2(part: Option<AddressPart>)
    | OtherCredentials

  datatype AuthEntry = AuthEntry(credentials: Credentials, invocation: Bytes)

  /** The address an entry authorizes, if it names one. */
  function AddressOf(e: AuthEntry): Option<ScAddress> {
    match e.credentials
    case AddressCredentials(Some(part)) => Some(part.address)
    case AddressV2(Some(part)) => Some(part.address)
    case _ => None
  }

  /** authCredentialsAddressKey: the address's XDR bytes. */
  function AddressKey(c: Credentials): Option<Bytes> {
    match c
    case AddressCredentials(part) => if part.None? then None else Some(MarshalAddress(part.value.address))
    case AddressV2(part) => if part.None? then None else Some(MarshalAddress(part.value.address))
    case SourceAccount => None
    case OtherCredentials => None
  }

  /** Comparing keys is comparing addresses. */
  lemma KeysAreAddresses(a: AuthEntry, b: AuthEntry)
    ensures AddressKey(a.credentials).Some? <==> AddressOf(a).Some?
    ensures AddressOf(a).Some? && AddressOf(b).Some? ==>
      (AddressKey(a.credentials) == AddressKey(b.credentials) <==> AddressOf(a) == AddressOf(b))
  {
    if AddressOf(a).Some? && AddressOf(b).Some? && AddressKey(a.credentials) == AddressKey(b.credentials) {
      MarshalAddressInjective(AddressOf(a).value, AddressOf(b).value);
    }
  }

  function Addresses(es: seq<AuthEntry>): set<ScAddress> {
    set e | e in es && AddressOf(e).Some? :: AddressOf(e).value
  }

  /** A caller's own entry stands in for every recorded entry of the same address. */
  predicate Superseded(e: AuthEntry, extra: seq<AuthEntry>) {
    AddressOf(e).Some? && AddressOf(e).value in Addresses(extra)
  }

  function Kept(recorded: seq<AuthEntry>, extra: seq<AuthEntry>): seq<AuthEntry> {
    if recorded == [] then []
    else
      var last := recorded[|recorded| - 1];
      Kept(recorded[..|recorded| - 1], extra) + (if Superseded(last, extra) then [] else [last])
  }

  function Merged(recorded: seq<AuthEntry>, extra: seq<AuthEntry>): seq<AuthEntry> {
    Kept(recorded, extra) + extra
  }

  /** The map of superseded keys holds exactly the addresses of the caller's entries. */
  ghost predicate KeysOf(superseded: set<Bytes>, extra: seq<AuthEntry>) {
    forall e: AuthEntry :: (AddressKey(e.credentials).Some? && AddressKey(e.credentials).value in superseded)
      <==> Superseded(e, extra)
  }

  method MergeAuthEntries(recorded: seq<AuthEntry>, extra: seq<AuthEntry>) returns (merged: seq<AuthEntry>)
    ensures merged == Merged(recorded, extra)
  {
    var superseded: set<Bytes> := {};
    for i := 0 to |extra|
      invariant KeysOf(superseded, extra[..i])
    {
      var key := AddressKey(extra[i].credentials);
      OneMoreKey(superseded, extra[..i], extra[i]);
      assert extra[..i + 1] == extra[..i] + [extra[i]];
      if key.Some? {
        superseded := superseded + {key.value};
      }
    }
    assert extra[..|extra|] == extra;
    merged := [];
    for i := 0 to |recorded|
      invariant merged == Kept(recorded[..i], extra)
    {
      var e := recorded[i];
      assert recorded[..i + 1][..i] == recorded[..i];
      var key := AddressKey(e.credentials);
      if key.Some? && key.value in superseded {
        continue;
      }
      merged := merged + [e];
    }
    assert recorded[..|recorded|] == recorded;
    merged := merged + extra;
  }

  lemma OneMoreKey(superseded: set<Bytes>, extra: seq<AuthEntry>, x: AuthEntry)
    requires KeysOf(superseded, extra)
    ensures AddressKey(x.credentials).None? ==> KeysOf(superseded, extra + [x])
    ensures AddressKey(x.credentials).Some? ==> KeysOf(superseded + {AddressKey(x.credentials).value}, extra + [x])
  {
    forall e: AuthEntry
      ensures Superseded(e, extra + [x]) <==>
        Superseded(e, extra)
        || (AddressKey(x.credentials).Some? && AddressKey(e.credentials) == AddressKey(x.credentials))
    {
      KeysAreAddresses(e, x);
      KeysAreAddresses(x, e);
      OneMoreAddress(extra, x);
    }
  }

  lemma OneMoreAddress(extra: seq<AuthEntry>, x: AuthEntry)
    ensures Addresses(extra + [x]) == Addresses(extra) + (if AddressOf(x).Some? then {AddressOf(x).value} else {})
  {
    forall a | a in Addresses(extra) ensures a in Addresses(extra + [x]) {
      var e :| e in extra && AddressOf(e) == Some(a);
      assert e in extra + [x];
    }
    if AddressOf(x).Some? {
      assert x in extra + [x];
    }
  }

  // ----- what a merge is -----

  lemma {:induction false} KeptMembers(recorded: seq<AuthEntry>, extra: seq<AuthEntry>)
    ensures forall e :: e in Kept(recorded, extra) <==> e in recorded && !Superseded(e, extra)
  {
    if recorded != [] {
      var n := |recorded| - 1;
      KeptMembers(recorded[..n], extra);
      assert recorded == recorded[..n] + [recorded[n]];
    }
  }

  /** The kept entries are those at the ascending positions `at`, which are exactly
      the positions of entries that are not superseded. */
  ghost predicate KeptAt(recorded: seq<AuthEntry>, extra: seq<AuthEntry>, kept: seq<AuthEntry>, at: seq<nat>) {
    && |kept| == |at|
    && (forall i, j | 0 <= i < j < |at| :: at[i] < at[j])
    && (forall i | 0 <= i < |at| :: at[i] < |recorded| && kept[i] == recorded[at[i]])
    && (forall k | 0 <= k < |recorded| :: k in at <==> !Superseded(recorded[k], extra))
  }

  lemma {:induction false} KeptInOrder(recorded: seq<AuthEntry>, extra: seq<AuthEntry>) returns (at: seq<nat>)
    ensures KeptAt(recorded, extra, Kept(recorded, extra), at)
  {
    if recorded == [] {
      at := [];
    } else {
      var n := |recorded| - 1;
      var front := KeptInOrder(recorded[..n], extra);
      at := AddLast(recorded[..n], extra, Kept(recorded[..n], extra), front, recorded[n]);
      assert recorded[..n] + [recorded[n]] == recorded;
    }
  }

  lemma AddLast(recorded: seq<AuthEntry>, extra: seq<AuthEntry>, kept: seq<AuthEntry>, front: seq<nat>, e: AuthEntry)
    returns (at: seq<nat>)
    requires KeptAt(recorded, extra, kept, front)
    ensures KeptAt(recorded + [e], extra, kept + (if Superseded(e, extra) then [] else [e]), at)
  {
    if Superseded(e, extra) {
      DropOne(recorded, extra, kept, front, e);
      assert kept + [] == kept;
      at := front;
    } else {
      KeepOne(recorded, extra, kept, front, e);
      at := front + [|recorded|];
    }
  }

  lemma DropOne(recorded: seq<AuthEntry>, extra: seq<AuthEntry>, kept: seq<AuthEntry>, at: seq<nat>, e: AuthEntry)
    requires KeptAt(recorded, extra, kept, at) && Superseded(e, extra)
    ensures KeptAt(recorded + [e], extra, kept, at)
  {
    assert |recorded| !in at;
  }

  lemma KeepOne(recorded: seq<AuthEntry>, extra: seq<AuthEntry>, kept: seq<AuthEntry>, at: seq<nat>, e: AuthEntry)
    requires KeptAt(recorded, extra, kept, at) && !Superseded(e, extra)
    ensures KeptAt(recorded + [e], extra, kept + [e], at + [|recorded|])
  {
    var all, at' := recorded + [e], at + [|recorded|];
    assert at'[|at|] == |recorded|;
    forall k | 0 <= k < |all| ensures k in at' <==> !Superseded(all[k], extra) {
      if k < |recorded| {
        assert all[k] == recorded[k];
      }
    }
  }

  /** The merge is some of the recorded entries in their order, then every entry of
      the caller. The recorded entries left out are exactly those whose address the
      caller authorized itself, so one without an address always stays. */
  lemma MergeKeepsOrder(recorded: seq<AuthEntry>, extra: seq<AuthEntry>) returns (at: seq<nat>)
    ensures |at| <= |Merged(recorded, extra)| && Merged(recorded, extra)[|at|..] == extra
    ensures KeptAt(recorded, extra, Merged(recorded, extra)[..|at|], at)
    ensures forall k | 0 <= k < |recorded| && AddressOf(recorded[k]).None? :: k in at
  {
    at := KeptInOrder(recorded, extra);
    assert Merged(recorded, extra)[..|at|] == Kept(recorded, extra);
  }

  /** The entry is signed for this address, in the classic form or in the newer one. */
  ghost predicate NamesAddress(e: AuthEntry, a: ScAddress) {
    exists rest :: e.credentials == AddressCredentials(Some(AddressPart(a, rest)))
                   || e.credentials == AddressV2(Some(AddressPart(a, rest)))
  }

  /** Which recorded entries give way, told by their credentials: the merge is the recorded
      entries at the ascending positions `at`, then the caller's. A position whose entry
      names an address is left out exactly when some entry of the caller, in either form,
      names that address; one whose entry names none always stays. */
  lemma MergeByCredentials(recorded: seq<AuthEntry>, extra: seq<AuthEntry>) returns (at: seq<nat>)
    ensures |at| <= |Merged(recorded, extra)| && Merged(recorded, extra)[|at|..] == extra
    ensures forall i, j | 0 <= i < j < |at| :: at[i] < at[j]
    ensures forall i | 0 <= i < |at| :: at[i] < |recorded| && Merged(recorded, extra)[i] == recorded[at[i]]
    ensures forall k, a | 0 <= k < |recorded| && NamesAddress(recorded[k], a) ::
      k !in at <==> exists x | x in extra :: NamesAddress(x, a)
    ensures forall k | 0 <= k < |recorded| && (forall a :: !NamesAddress(recorded[k], a)) :: k in at
  {
    at := MergeKeepsOrder(recorded, extra);
    forall k, a | 0 <= k < |recorded| && NamesAddress(recorded[k], a)
      ensures k !in at <==> exists x | x in extra :: NamesAddress(x, a)
    {
      SupersededByCredentials(recorded[k], extra, a);
    }
    forall k | 0 <= k < |recorded| && (forall a :: !NamesAddress(recorded[k], a)) ensures k in at {
      if AddressOf(recorded[k]).Some? {
        NamesIsAddressOf(recorded[k], AddressOf(recorded[k]).value);
      }
    }
  }

  lemma SupersededByCredentials(e: AuthEntry, extra: seq<AuthEntry>, a: ScAddress)
    requires NamesAddress(e, a)
    ensures Superseded(e, extra) <==> exists x | x in extra :: NamesAddress(x, a)
  {
    NamesIsAddressOf(e, a);
    if Superseded(e, extra) {
      var x :| x in extra && AddressOf(x) == Some(a);
      NamesIsAddressOf(x, a);
    }
    if x :| x in extra && NamesAddress(x, a) {
      NamesIsAddressOf(x, a);
    }
  }

  lemma NamesIsAddressOf(e: AuthEntry, a: ScAddress)
    ensures NamesAddress(e, a) <==> AddressOf(e) == Some(a)
  {
    match e.credentials
    case AddressCredentials(Some(part)) => assert part == AddressPart(part.address, part.rest);
    case AddressV2(Some(part)) => assert part == AddressPart(part.address, part.rest);
    case _ =>
  }

  /** The merge authorizes exactly the addresses either list authorizes. */
  lemma MergeAuthorizesUnion(recorded: seq<AuthEntry>, extra: seq<AuthEntry>)
    ensures Addresses(Merged(recorded, extra)) == Addresses(recorded) + Addresses(extra)
  {
    KeptMembers(recorded, extra);
    var m := Merged(recorded, extra);
    forall a | a in Addresses(recorded) + Addresses(extra) ensures a in Addresses(m) {
      if a in Addresses(extra) {
        var e :| e in extra && AddressOf(e) == Some(a);
        assert e in m;
      } else {
        var e :| e in recorded && AddressOf(e) == Some(a);
        assert e in m;
      }
    }
    forall a | a in Addresses(m) ensures a in Addresses(recorded) + Addresses(extra) {
      var e :| e in m && AddressOf(e) == Some(a);
      assert e in recorded || e in extra;
    }
  }

  ghost predicate DistinctAddresses(es: seq<AuthEntry>) {
    forall i, j | 0 <= i < j < |es| && AddressOf(es[i]).Some? :: AddressOf(es[i]) != AddressOf(es[j])
  }

  /** If neither list repeats an address, the merge does not either, and wherever the
      lists clash the entry that is left is the caller's. */
  lemma MergeNeverClashes(recorded: seq<AuthEntry>, extra: seq<AuthEntry>)
    requires DistinctAddresses(recorded) && DistinctAddresses(extra)
    ensures DistinctAddresses(Merged(recorded, extra))
    ensures forall e | e in Merged(recorded, extra) && AddressOf(e).Some? && AddressOf(e).value in Addresses(extra) ::
      e in extra
  {
    KeptMembers(recorded, extra);
    var at := MergeKeepsOrder(recorded, extra);
    var m := Merged(recorded, extra);
    forall i, j | 0 <= i < j < |m| && AddressOf(m[i]).Some? ensures AddressOf(m[i]) != AddressOf(m[j]) {
      if i < |at| <= j {
        assert at[i] in at && m[j] == extra[j - |at|];
        assert m[j] in extra;
      } else if |at| <= i {
        assert m[i] == extra[i - |at|] && m[j] == extra[j - |at|];
      }
    }
  }
}
