/** tools/avbtool `_generate_vbmeta_blob` for algorithm NONE, and reading the blob back. */
module Blob {
  import opened Bytes
  import opened Results
  import opened Struct
  import opened Descriptors
  import opened VBMeta
  import opened Layouts

  // ---------------------------------------------------------------- included descriptors

  /** What is taken from one image given to --include_descriptors_from_image. */
  datatype Included = Included(versionMinor: nat, descriptors: seq<Descriptor>)

  /** Descriptors that have a `partition_name` attribute. */
  predicate Named(d: Descriptor) { d.Hashtree? || d.Hash? || d.ChainPartition? }

  /** "AvbHashtreeDescriptor_", "AvbHashDescriptor_" or "AvbChainPartitionDescriptor_" */
  function ClassPrefix(d: Descriptor): bytes
    requires Named(d)
  {
    if d.Hashtree? then
      [0x41, 0x76, 0x62, 0x48, 0x61, 0x73, 0x68, 0x74, 0x72, 0x65, 0x65,
       0x44, 0x65, 0x73, 0x63, 0x72, 0x69, 0x70, 0x74, 0x6f, 0x72, 0x5f]
    else if d.Hash? then
      [0x41, 0x76, 0x62, 0x48, 0x61, 0x73, 0x68,
       0x44, 0x65, 0x73, 0x63, 0x72, 0x69, 0x70, 0x74, 0x6f, 0x72, 0x5f]
    else
      [0x41, 0x76, 0x62, 0x43, 0x68, 0x61, 0x69, 0x6e, 0x50, 0x61, 0x72, 0x74, 0x69, 0x74, 0x69, 0x6f, 0x6e,
       0x44, 0x65, 0x73, 0x63, 0x72, 0x69, 0x70, 0x74, 0x6f, 0x72, 0x5f]
  }

  function Key(d: Descriptor): bytes
    requires Named(d)
  {
    ClassPrefix(d) + d.partitionName
  }

  /** A key stands for one kind of descriptor and one partition name. */
  lemma KeyInjective(a: Descriptor, b: Descriptor)
    requires Named(a) && Named(b) && Key(a) == Key(b)
    ensures Tag(a) == Tag(b) && a.partitionName == b.partitionName
  {
    assert Key(a)[3] == Key(b)[3] && Key(a)[7] == Key(b)[7];
    var n := |ClassPrefix(a)|;
    assert Key(a)[n..] == a.partitionName && Key(b)[n..] == b.partitionName;
  }

  /** All descriptors of the images, in order. */
  function Flat(images: seq<Included>): seq<Descriptor> {
    if images == [] then [] else Flat(images[..|images| - 1]) + images[|images| - 1].descriptors
  }

  /** `descriptors_dict` after seeing `ds` in order. */
  function Dict(ds: seq<Descriptor>): map<bytes, Descriptor> {
    if ds == [] then map[]
    else
      var m, d := Dict(ds[..|ds| - 1]), ds[|ds| - 1];
      if Named(d) then m[Key(d) := d] else m
  }

  function Unnamed(ds: seq<Descriptor>): seq<Descriptor> {
    if ds == [] then []
    else Unnamed(ds[..|ds| - 1]) + if Named(ds[|ds| - 1]) then [] else [ds[|ds| - 1]]
  }

  /** Descriptor `i` is the last one with this key. */
  predicate LastWithKey(ds: seq<Descriptor>, key: bytes, i: nat) {
    && i < |ds| && Named(ds[i]) && Key(ds[i]) == key
    && forall j :: i < j < |ds| && Named(ds[j]) ==> Key(ds[j]) != key
  }

  /** The dictionary keeps, for each kind and partition name, exactly the last descriptor seen. */
  lemma {:induction false} LastSeenWins(ds: seq<Descriptor>, key: bytes) returns (i: int)
    ensures key in Dict(ds) <==> i >= 0
    ensures i >= 0 ==> LastWithKey(ds, key, i) && Dict(ds)[key] == ds[i]
    ensures i < 0 ==> forall j :: 0 <= j < |ds| && Named(ds[j]) ==> Key(ds[j]) != key
  {
    hide Key;
    i := -1;
    if ds != [] {
      var n := |ds| - 1;
      var init := ds[..n];
      i := LastSeenWins(init, key);
      assert forall j :: 0 <= j < n ==> init[j] == ds[j];
      if Named(ds[n]) && Key(ds[n]) == key {
        i := n;
      }
    }
  }

  /** The dictionary only depends on which descriptors there are, if no two disagree about a key. */
  lemma DictFromSet(a: seq<Descriptor>, b: seq<Descriptor>)
    requires forall d :: d in a <==> d in b
    requires forall d, e :: d in a && e in a && Named(d) && Named(e) && Key(d) == Key(e) ==> d == e
    ensures Dict(a) == Dict(b)
  {
    hide Dict, Key;
    forall key
      ensures key in Dict(a) <==> key in Dict(b)
      ensures key in Dict(a) && key in Dict(b) ==> Dict(a)[key] == Dict(b)[key]
    {
      var i := LastSeenWins(a, key);
      var j := LastSeenWins(b, key);
      assert i >= 0 ==> a[i] in b;
      assert j >= 0 ==> b[j] in a;
    }
  }

  lemma {:induction false} InFlat(images: seq<Included>, d: Descriptor)
    ensures d in Flat(images) <==> exists i :: 0 <= i < |images| && d in images[i].descriptors
  {
    if images != [] {
      var init := images[..|images| - 1];
      InFlat(init, d);
      assert forall i :: 0 <= i < |init| ==> init[i] == images[i];
    }
  }

  lemma {:induction false} NothingUnnamed(ds: seq<Descriptor>)
    requires forall d :: d in ds ==> Named(d)
    ensures Unnamed(ds) == []
  {
    if ds != [] {
      assert ds[|ds| - 1] in ds;
      NothingUnnamed(ds[..|ds| - 1]);
    }
  }

  /** The minor version after all `bump_required_libavb_version_minor` calls. */
  function BumpAll(minor: nat, images: seq<Included>): nat {
    if images == [] then minor
    else Max(BumpAll(minor, images[..|images| - 1]), images[|images| - 1].versionMinor)
  }

  /** It is the maximum of what is required and what the images require. */
  lemma {:induction false} BumpAllIsMax(minor: nat, images: seq<Included>)
    ensures minor <= BumpAll(minor, images)
    ensures forall i :: 0 <= i < |images| ==> images[i].versionMinor <= BumpAll(minor, images)
    ensures BumpAll(minor, images) == minor || exists i :: 0 <= i < |images| && images[i].versionMinor == BumpAll(minor, images)
  {
    if images != [] {
      var init := images[..|images| - 1];
      BumpAllIsMax(minor, init);
      assert forall i :: 0 <= i < |init| ==> init[i] == images[i];
    }
  }

  // ---------------------------------------------------------------- sorting keys

  /** Python's order on text, by code points; on UTF-8 that is the order of the bytes. */
  predicate Less(a: bytes, b: bytes) {
    if b == [] then false
    else if a == [] then true
    else a[0] < b[0] || (a[0] == b[0] && Less(a[1..], b[1..]))
  }

  lemma {:induction false} LessTotal(a: bytes, b: bytes)
    ensures Less(a, b) || Less(b, a) || a == b
    ensures !(Less(a, b) && Less(b, a)) && !Less(a, a)
  {
    if a != [] && b != [] {
      LessTotal(a[1..], b[1..]);
      LessTotal(a[1..], a[1..]);
      assert a == [a[0]] + a[1..] && b == [b[0]] + b[1..];
    } else if a != [] {
      LessTotal(a[1..], a[1..]);
    }
  }

  lemma {:induction false} LessTransitive(a: bytes, b: bytes, c: bytes)
    requires Less(a, b) && Less(b, c)
    ensures Less(a, c)
  {
    if a != [] && a[0] == b[0] == c[0] {
      LessTransitive(a[1..], b[1..], c[1..]);
    }
  }

  predicate Ascending(ks: seq<bytes>) { forall i, j :: 0 <= i < j < |ks| ==> Less(ks[i], ks[j]) }

  /** The keys in ascending order. */
  ghost predicate SortedKeys(ks: seq<bytes>, keys: set<bytes>) {
    Ascending(ks) && forall k :: k in keys <==> k in ks
  }

  /** There is only one way to sort a set of keys. */
  lemma {:induction false} SortedUnique(a: seq<bytes>, b: seq<bytes>)
    requires Ascending(a) && Ascending(b) && forall k :: k in a <==> k in b
    ensures a == b
  {
    assert a != [] ==> a[0] in b;
    assert b != [] ==> b[0] in a;
    if a != [] && b != [] {
      var i :| 0 <= i < |b| && b[i] == a[0];
      var j :| 0 <= j < |a| && a[j] == b[0];
      LessTotal(a[0], b[0]);
      assert a[0] == b[0];
      forall k
        ensures k in a[1..] <==> k in b[1..]
      {
        LessTotal(k, k);
        assert k in a[1..] ==> k in a && k != a[0];
        assert k in b[1..] ==> k in b && k != b[0];
      }
      SortedUnique(a[1..], b[1..]);
      assert a == [a[0]] + a[1..] && b == [b[0]] + b[1..];
    }
  }

  function InsertKey(ks: seq<bytes>, k: bytes): (r: seq<bytes>)
    ensures forall x :: x in r <==> x in ks || x == k
  {
    if ks == [] || Less(k, ks[0]) then [k] + ks else [ks[0]] + InsertKey(ks[1..], k)
  }

  lemma {:induction false} InsertKeepsOrder(ks: seq<bytes>, k: bytes)
    requires Ascending(ks) && k !in ks
    ensures Ascending(InsertKey(ks, k))
  {
    hide Less;
    if ks != [] {
      LessTotal(k, ks[0]);
      if Less(k, ks[0]) {
        forall i | 0 < i < |ks|
          ensures Less(k, ks[i])
        {
          LessTransitive(k, ks[0], ks[i]);
        }
      } else {
        InsertKeepsOrder(ks[1..], k);
        var r := InsertKey(ks[1..], k);
        forall i | 0 <= i < |r|
          ensures Less(ks[0], r[i])
        {
          assert r[i] in r;
        }
      }
    }
  }

  /** `sorted(...)` over the keys of a dictionary. */
  method SortKeys(keys: set<bytes>) returns (ks: seq<bytes>)
    ensures SortedKeys(ks, keys)
  {
    hide Less, InsertKey;
    ks := [];
    var rest := keys;
    while rest != {}
      invariant rest <= keys && SortedKeys(ks, keys - rest)
      decreases rest
    {
      var k :| k in rest;
      InsertKeepsOrder(ks, k);
      ks := InsertKey(ks, k);
      rest := rest - {k};
    }
    assert keys - rest == keys;
  }

  // ---------------------------------------------------------------- options

  /** One chained partition, its public key file already read. */
  datatype Chain = Chain(name: bytes, location: int, publicKey: bytes, doNotUseAb: bool)

  datatype Options = Options(
    chains: seq<Chain>, rollbackIndex: nat, flags: nat, rollbackIndexLocation: nat,
    props: seq<bytes>, kernelCmdlines: seq<bytes>, included: seq<Included>, metadata: bytes,
    releaseString: Option<bytes>, appendToRelease: Option<bytes>)

  const COLON := 0x3a

  /** `prop.find(':')` */
  function FindColon(s: bytes): (i: int)
    ensures -1 <= i < |s|
    ensures i >= 0 ==> s[i] == COLON
  {
    if s == [] then -1 else if s[0] == COLON then 0 else var i := FindColon(s[1..]); if i < 0 then -1 else i + 1
  }

  function PropOf(prop: bytes): Descriptor
    requires FindColon(prop) >= 0
  {
    Property(prop[..FindColon(prop)], prop[FindColon(prop) + 1..])
  }

  function ChainOf(c: Chain): Descriptor
    requires c.location >= 1
  {
    ChainPartition(c.location, c.name, c.publicKey, if c.doNotUseAb then 1 else 0)
  }

  /** No rollback index location is used twice, the main one included, and chained ones are positive. */
  predicate ChainsOk(o: Options) {
    && (forall i :: 0 <= i < |o.chains| ==> o.chains[i].location >= 1 && o.chains[i].location != o.rollbackIndexLocation)
    && (forall i, j :: 0 <= i < j < |o.chains| ==> o.chains[i].location != o.chains[j].location)
  }

  predicate PropsOk(o: Options) { forall i :: 0 <= i < |o.props| ==> FindColon(o.props[i]) >= 0 }

  function Chained(o: Options): seq<Descriptor>
    requires ChainsOk(o)
  {
    seq(|o.chains|, i requires 0 <= i < |o.chains| => ChainOf(o.chains[i]))
  }

  function Props(o: Options): seq<Descriptor>
    requires PropsOk(o)
  {
    seq(|o.props|, i requires 0 <= i < |o.props| => PropOf(o.props[i]))
  }

  function Cmdlines(o: Options): seq<Descriptor> {
    seq(|o.kernelCmdlines|, i requires 0 <= i < |o.kernelCmdlines| => KernelCmdline(0, o.kernelCmdlines[i]))
  }

  function Pick(m: map<bytes, Descriptor>, ks: seq<bytes>): seq<Descriptor>
    requires forall k :: k in ks ==> k in m
  {
    seq(|ks|, i requires 0 <= i < |ks| => m[ks[i]])
  }

  /** The keys of the included descriptors, sorted. */
  ghost function SortedListing(keys: set<bytes>): (ks: seq<bytes>)
    ensures SortedKeys(ks, keys)
  {
    SortedExists(keys);
    var ks :| SortedKeys(ks, keys);
    ks
  }

  lemma {:induction false} SortedExists(keys: set<bytes>)
    ensures exists ks :: SortedKeys(ks, keys)
  {
    if keys == {} {
      assert SortedKeys([], keys);
    } else {
      var k :| k in keys;
      SortedExists(keys - {k});
      var ks :| SortedKeys(ks, keys - {k});
      InsertKeepsOrder(ks, k);
      assert SortedKeys(InsertKey(ks, k), keys);
    }
  }

  /** The descriptors of the blob, in their order. */
  ghost function AllDescriptors(ds: seq<Descriptor>, o: Options): seq<Descriptor>
    requires ChainsOk(o) && PropsOk(o)
  {
    var dict := Dict(Flat(o.included));
    ds + Chained(o) + Props(o) + Cmdlines(o) + Unnamed(Flat(o.included)) + Pick(dict, SortedListing(dict.Keys))
  }

  function Release(o: Options): bytes {
    (if o.releaseString.Some? then o.releaseString.value else RELEASE_STRING)
      + if o.appendToRelease.Some? then [0x20] + o.appendToRelease.value else []
  }

  /** The header of a blob with `encoded` descriptors and no signature. */
  function HeaderOf(encoded: bytes, o: Options, minor: nat): Header {
    Header(1, minor, 0, RoundUp(|encoded| + |o.metadata|, 64), 0, NOTHING, NOTHING,
           Extent(|encoded|, 0), Extent(|encoded|, |o.metadata|), Extent(0, |encoded|),
           o.rollbackIndex, o.flags, o.rollbackIndexLocation, Release(o))
  }

  function Assemble(encoded: bytes, o: Options, minor: nat): bytes {
    Join(HeaderFields(HeaderOf(encoded, o, minor))) + encoded + o.metadata
      + Zeros(RoundUp(|encoded| + |o.metadata|, 64) - |encoded| - |o.metadata|)
  }

  /** Everything that must hold for the blob to be generated. */
  ghost predicate BlobOk(ds: seq<Descriptor>, o: Options, minor: nat) {
    && ChainsOk(o) && PropsOk(o)
    && Encodable(AllDescriptors(ds, o)) && Encodable(Flat(o.included))
    && HeaderInRange(HeaderOf(EncodeAll(AllDescriptors(ds, o)), o, BumpAll(minor, o.included)))
  }

  /** The generated blob. */
  ghost function BlobOf(ds: seq<Descriptor>, o: Options, minor: nat): bytes
    requires ChainsOk(o) && PropsOk(o)
  {
    Assemble(EncodeAll(AllDescriptors(ds, o)), o, BumpAll(minor, o.included))
  }

  // ---------------------------------------------------------------- generation

  lemma {:induction false} EncodeAllConcat(a: seq<Descriptor>, b: seq<Descriptor>)
    ensures EncodeAll(a + b) == EncodeAll(a) + EncodeAll(b)
    ensures Encodable(a + b) <==> Encodable(a) && Encodable(b)
  {
    hide Encoded, Encode;
    if a == [] {
      assert a + b == b;
    } else {
      assert (a + b)[1..] == a[1..] + b;
      EncodeAllConcat(a[1..], b);
    }
    EncodableConcat(a, b);
  }

  lemma EncodableConcat(a: seq<Descriptor>, b: seq<Descriptor>)
    ensures Encodable(a + b) <==> Encodable(a) && Encodable(b)
  {
    hide Encode;
    assert forall i :: 0 <= i < |a| ==> (a + b)[i] == a[i];
    assert forall i :: 0 <= i < |b| ==> (a + b)[|a| + i] == b[i];
  }

  /** Encoding descriptors one after the other. */
  method EncodeList(ds: seq<Descriptor>) returns (r: Result<bytes>)
    ensures r.Ok? <==> Encodable(ds)
    ensures r.Ok? ==> r.value == EncodeAll(ds)
  {
    hide Encoded, Encode, EncodeAll;
    var out: bytes := [];
    EncodeNothing();
    for i := 0 to |ds|
      invariant Encodable(ds[..i]) && out == EncodeAll(ds[..i])
    {
      EncodedIs(ds[i]);
      EncodeAllConcat(ds[..i], [ds[i]]);
      assert ds[..i] + [ds[i]] == ds[..i + 1];
      var e := Encode(ds[i]);
      if e.Err? {
        return Err(e.error);
      }
      out := out + e.value;
    }
    assert ds[..|ds|] == ds;
    return Ok(out);
  }

  lemma EncodeNothing()
    ensures EncodeAll([]) == []
  {
  }

  lemma EncodedIs(d: Descriptor)
    ensures Encode(d).Ok? ==> Encode(d).value == Encoded(d)
    ensures EncodeAll([d]) == Encoded(d)
    ensures Encodable([d]) <==> Encode(d).Ok?
  {
    hide Encoded;
    assert [d][1..] == [];
  }

  /** The chained partition loop: each rollback index location may be used once. */
  method AddChains(o: Options) returns (r: Result<seq<Descriptor>>)
    ensures r.Ok? <==> ChainsOk(o)
    ensures r.Ok? ==> r.value == Chained(o)
  {
    var used := {o.rollbackIndexLocation};
    var ds: seq<Descriptor> := [];
    for i := 0 to |o.chains|
      invariant forall j :: 0 <= j < i ==> o.chains[j].location >= 1 && o.chains[j].location != o.rollbackIndexLocation
      invariant forall j, k :: 0 <= j < k < i ==> o.chains[j].location != o.chains[k].location
      invariant forall x :: x in used <==> x == o.rollbackIndexLocation || exists j :: 0 <= j < i && o.chains[j].location == x
      invariant |ds| == i && forall j :: 0 <= j < i ==> ds[j] == ChainOf(o.chains[j])
    {
      var c := o.chains[i];
      if c.location in used {
        return Err(AvbError);
      }
      used := used + {c.location};
      if c.location < 1 {
        return Err(AvbError);
      }
      ds := ds + [ChainPartition(c.location, c.name, c.publicKey, if c.doNotUseAb then 1 else 0)];
    }
    return Ok(ds);
  }

  method AddProps(o: Options) returns (r: Result<seq<Descriptor>>)
    ensures r.Ok? <==> PropsOk(o)
    ensures r.Ok? ==> r.value == Props(o)
  {
    var ds: seq<Descriptor> := [];
    for i := 0 to |o.props|
      invariant forall j :: 0 <= j < i ==> FindColon(o.props[j]) >= 0
      invariant |ds| == i && forall j :: 0 <= j < i ==> ds[j] == PropOf(o.props[j])
    {
      var idx := FindColon(o.props[i]);
      if idx == -1 {
        return Err(AvbError);
      }
      ds := ds + [Property(o.props[i][..idx], o.props[i][idx + 1..])];
    }
    return Ok(ds);
  }

  /** The encoded dictionary of the source, for a dictionary of descriptors. */
  function EncodedDict(m: map<bytes, Descriptor>): map<bytes, bytes> { map k | k in m :: Encoded(m[k]) }

  /** One included descriptor: either replaces its entry in the dictionary or goes straight to the output. */
  lemma IncludeStep(seen: seq<Descriptor>, d: Descriptor)
    ensures Dict(seen + [d]) == if Named(d) then Dict(seen)[Key(d) := d] else Dict(seen)
    ensures Unnamed(seen + [d]) == Unnamed(seen) + if Named(d) then [] else [d]
    ensures EncodedDict(Dict(seen + [d])) == if Named(d) then EncodedDict(Dict(seen))[Key(d) := Encoded(d)] else EncodedDict(Dict(seen))
    ensures EncodeAll(Unnamed(seen + [d])) == EncodeAll(Unnamed(seen)) + if Named(d) then [] else Encoded(d)
    ensures Encodable(seen + [d]) <==> Encodable(seen) && Encode(d).Ok?
  {
    hide Encoded, Key, Encode;
    assert (seen + [d])[..|seen|] == seen;
    EncodeAllConcat(Unnamed(seen), [d]);
    EncodedIs(d);
    EncodableConcat(seen, [d]);
    assert Unnamed(seen) + [] == Unnamed(seen);
  }

  /** The loop over one included image. */
  method IncludeImage(ghost seen: seq<Descriptor>, image: Included, dict: map<bytes, bytes>, encoded: bytes)
    returns (r: Result<(map<bytes, bytes>, bytes)>)
    requires dict == EncodedDict(Dict(seen)) && Encodable(seen)
    ensures r.Ok? <==> Encodable(seen + image.descriptors)
    ensures r.Ok? ==>
      && r.value.0 == EncodedDict(Dict(seen + image.descriptors))
      && EncodeAll(Unnamed(seen)) <= EncodeAll(Unnamed(seen + image.descriptors))
      && r.value.1 == encoded + EncodeAll(Unnamed(seen + image.descriptors))[|EncodeAll(Unnamed(seen))|..]
  {
    hide Encoded, Encode, EncodeAll, Dict, Unnamed, EncodedDict, Key, Encodable;
    var m, out := dict, encoded;
    assert seen + image.descriptors[..0] == seen;
    for i := 0 to |image.descriptors|
      invariant Encodable(seen + image.descriptors[..i])
      invariant m == EncodedDict(Dict(seen + image.descriptors[..i]))
      invariant EncodeAll(Unnamed(seen)) <= EncodeAll(Unnamed(seen + image.descriptors[..i]))
      invariant out == encoded + EncodeAll(Unnamed(seen + image.descriptors[..i]))[|EncodeAll(Unnamed(seen))|..]
    {
      var d := image.descriptors[i];
      IncludeStep(seen + image.descriptors[..i], d);
      assert seen + image.descriptors[..i] + [d] == seen + image.descriptors[..i + 1];
      EncodedIs(d);
      var e := Encode(d);
      if e.Err? {
        ghost var tail := image.descriptors[i + 1..];
        assert seen + image.descriptors == seen + image.descriptors[..i + 1] + tail;
        EncodableConcat(seen + image.descriptors[..i + 1], tail);
        return Err(e.error);
      }
      if Named(d) {
        m := m[Key(d) := e.value];
      } else {
        out := out + e.value;
      }
    }
    assert image.descriptors[..|image.descriptors|] == image.descriptors;
    return Ok((m, out));
  }

  /** All included images, in order: the dictionary, the output so far, and the minor version. */
  method IncludeAll(o: Options, minor: nat) returns (r: Result<(map<bytes, bytes>, bytes)>, bumped: nat)
    ensures bumped == BumpAll(minor, o.included) || r.Err?
    ensures r.Ok? <==> Encodable(Flat(o.included))
    ensures r.Ok? ==> r.value == (EncodedDict(Dict(Flat(o.included))), EncodeAll(Unnamed(Flat(o.included))))
  {
    hide Encoded, Encode, EncodeAll, Dict, Unnamed, EncodedDict, Key, Encodable;
    bumped := minor;
    var dict, out: bytes := map[], [];
    NothingIncluded();
    for i := 0 to |o.included|
      invariant bumped == BumpAll(minor, o.included[..i])
      invariant Encodable(Flat(o.included[..i]))
      invariant dict == EncodedDict(Dict(Flat(o.included[..i])))
      invariant out == EncodeAll(Unnamed(Flat(o.included[..i])))
    {
      assert o.included[..i + 1][..i] == o.included[..i];
      assert Flat(o.included[..i + 1]) == Flat(o.included[..i]) + o.included[i].descriptors;
      bumped := Max(bumped, o.included[i].versionMinor);
      var step := IncludeImage(Flat(o.included[..i]), o.included[i], dict, []);
      if step.Err? {
        FlatPrefix(o.included, i + 1);
        return Err(step.error), bumped;
      }
      dict := step.value.0;
      out := out + step.value.1;
    }
    assert o.included[..|o.included|] == o.included;
    return Ok((dict, out)), bumped;
  }

  lemma NothingIncluded()
    ensures EncodedDict(Dict([])) == map[] && EncodeAll(Unnamed([])) == [] && Encodable([])
  {
  }

  lemma {:induction false} FlatPrefix(images: seq<Included>, k: nat)
    requires k <= |images|
    ensures Encodable(Flat(images)) ==> Encodable(Flat(images[..k]))
    decreases |images|
  {
    hide Encodable;
    if k == |images| {
      assert images[..k] == images;
    } else {
      var init := images[..|images| - 1];
      assert init[..k] == images[..k];
      FlatPrefix(init, k);
      EncodableConcat(Flat(init), images[|images| - 1].descriptors);
    }
  }

  /** Writing out the dictionary in key order. */
  method AppendSorted(dict: map<bytes, bytes>, ghost ds: map<bytes, Descriptor>) returns (out: bytes)
    requires dict == EncodedDict(ds)
    ensures out == EncodeAll(Pick(ds, SortedListing(ds.Keys)))
  {
    hide Encoded, EncodeAll, Less, Pick;
    var ks := SortKeys(dict.Keys);
    assert dict.Keys == ds.Keys;
    SortedUnique(ks, SortedListing(ds.Keys));
    out := [];
    EncodeNothing();
    ghost var picked := PickedInOrder(ds, ks);
    assert picked[..0] == [];
    for i := 0 to |ks|
      invariant out == EncodeAll(picked[..i])
    {
      assert ks[i] in ks;
      EncodedIs(ds[ks[i]]);
      EncodeAllConcat(picked[..i], [ds[ks[i]]]);
      assert picked[..i] + [ds[ks[i]]] == picked[..i + 1];
      out := out + dict[ks[i]];
    }
    assert picked[..|ks|] == picked;
  }

  lemma PickedInOrder(m: map<bytes, Descriptor>, ks: seq<bytes>) returns (picked: seq<Descriptor>)
    requires forall k :: k in ks ==> k in m
    ensures picked == Pick(m, ks) && |picked| == |ks| && forall i :: 0 <= i < |ks| ==> picked[i] == m[ks[i]]
  {
    picked := Pick(m, ks);
  }

  /** `_generate_vbmeta_blob` for algorithm NONE. */
  method GenerateBlob(ds: seq<Descriptor>, o: Options, minor: nat) returns (r: Result<bytes>)
    ensures r.Ok? <==> BlobOk(ds, o, minor)
    ensures r.Ok? ==> r.value == BlobOf(ds, o, minor)
  {
    hide Encoded, EncodeAll, Dict, Unnamed, EncodedDict, Encodable, Chained, Props, Cmdlines, Flat, Pick,
      HeaderInRange, ChainsOk, PropsOk;
    var chained :- AddChains(o);
    var given := EncodeList(ds + chained);
    var props :- AddProps(o);
    var encodedProps := EncodeList(props);
    var encodedCmdlines := EncodeList(Cmdlines(o));
    var included, bumped := IncludeAll(o, minor);
    ghost var dict := Dict(Flat(o.included));
    AllParts(ds, o);
    if given.Err? || encodedProps.Err? || encodedCmdlines.Err? || included.Err? {
      return Err(if given.Err? then given.error else if encodedProps.Err? then encodedProps.error
                 else if encodedCmdlines.Err? then encodedCmdlines.error else included.error);
    }
    var sorted := AppendSorted(included.value.0, dict);
    var encoded := given.value + encodedProps.value + encodedCmdlines.value + included.value.1 + sorted;
    assert encoded == EncodeAll(AllDescriptors(ds, o));
    var header := HeaderOf(encoded, o, bumped);
    var headerBlob :- EncodeHeader(header);
    var paddingBytes := header.auxSize - |encoded| - |o.metadata|;
    return Ok(headerBlob + encoded + o.metadata + Zeros(paddingBytes));
  }

  /** The descriptors of the blob, part by part. */
  lemma AllParts(ds: seq<Descriptor>, o: Options)
    requires ChainsOk(o) && PropsOk(o)
    ensures var dict := Dict(Flat(o.included));
      EncodeAll(AllDescriptors(ds, o))
        == EncodeAll(ds + Chained(o)) + EncodeAll(Props(o)) + EncodeAll(Cmdlines(o))
           + EncodeAll(Unnamed(Flat(o.included))) + EncodeAll(Pick(dict, SortedListing(dict.Keys)))
    ensures Encodable(AllDescriptors(ds, o)) && Encodable(Flat(o.included)) <==>
      Encodable(ds + Chained(o)) && Encodable(Props(o)) && Encodable(Cmdlines(o)) && Encodable(Flat(o.included))
  {
    hide Encoded, EncodeAll, Dict, Unnamed, Encodable, Chained, Props, Cmdlines, Flat, Pick, ChainsOk, PropsOk;
    var dict := Dict(Flat(o.included));
    var a, b, c, d, e := ds + Chained(o), Props(o), Cmdlines(o), Unnamed(Flat(o.included)), Pick(dict, SortedListing(dict.Keys));
    EncodeAllConcat(a, b);
    EncodeAllConcat(a + b, c);
    EncodeAllConcat(a + b + c, d);
    EncodeAllConcat(a + b + c + d, e);
    if Encodable(Flat(o.included)) {
      UnnamedEncodable(Flat(o.included));
      PickEncodable(Flat(o.included), SortedListing(dict.Keys));
    }
  }

  lemma {:induction false} UnnamedEncodable(ds: seq<Descriptor>)
    requires Encodable(ds)
    ensures Encodable(Unnamed(ds))
  {
    hide Encode;
    if ds != [] {
      var init := ds[..|ds| - 1];
      assert forall i :: 0 <= i < |init| ==> init[i] == ds[i];
      UnnamedEncodable(init);
    }
  }

  lemma PickEncodable(ds: seq<Descriptor>, ks: seq<bytes>)
    requires Encodable(ds) && forall k :: k in ks ==> k in Dict(ds)
    ensures Encodable(Pick(Dict(ds), ks))
  {
    hide Encode, Dict, Key;
    forall i | 0 <= i < |ks|
      ensures Encode(Dict(ds)[ks[i]]).Ok?
    {
      var j := LastSeenWins(ds, ks[i]);
    }
  }

  // ---------------------------------------------------------------- independence of image order

  /** When all included descriptors are named and no two disagree about a key, the order of the images
      changes neither the blob nor whether it can be generated. */
  lemma OrderIndependent(ds: seq<Descriptor>, a: Options, b: Options, minor: nat)
    requires multiset(a.included) == multiset(b.included) && b == a.(included := b.included)
    requires forall i, d :: 0 <= i < |a.included| && d in a.included[i].descriptors ==> Named(d)
    requires forall d, e :: d in Flat(a.included) && e in Flat(a.included) && Named(d) && Named(e) && Key(d) == Key(e) ==> d == e
    ensures BlobOk(ds, a, minor) <==> BlobOk(ds, b, minor)
    ensures ChainsOk(a) && PropsOk(a) ==> BlobOf(ds, a, minor) == BlobOf(ds, b, minor)
  {
    hide Dict, Key, Unnamed, Encode, Flat, EncodeAll, BumpAll, ChainOf, PropOf, Assemble, HeaderInRange, Pick;
    var x, y := a.included, b.included;
    forall d
      ensures d in Flat(x) <==> d in Flat(y)
      ensures d in Flat(x) ==> Named(d)
    {
      InFlat(x, d);
      InFlat(y, d);
      SameImages(x, y, d);
      SameImages(y, x, d);
    }
    DictFromSet(Flat(x), Flat(y));
    NothingUnnamed(Flat(x));
    NothingUnnamed(Flat(y));
    BumpAllSame(minor, x, y);
    assert Encodable(Flat(x)) <==> Encodable(Flat(y)) by {
      EncodableByMembers(Flat(x));
      EncodableByMembers(Flat(y));
    }
    if ChainsOk(a) && PropsOk(a) {
      assert Chained(a) == Chained(b) && Props(a) == Props(b);
      assert AllDescriptors(ds, a) == AllDescriptors(ds, b);
      AssembleSame(EncodeAll(AllDescriptors(ds, a)), a, b, BumpAll(minor, x));
    }
  }

  lemma AssembleSame(encoded: bytes, a: Options, b: Options, minor: nat)
    requires b == a.(included := b.included)
    ensures HeaderOf(encoded, a, minor) == HeaderOf(encoded, b, minor)
    ensures Assemble(encoded, a, minor) == Assemble(encoded, b, minor)
  {
    hide Join, HeaderFields;
  }

  lemma EncodableByMembers(ds: seq<Descriptor>)
    ensures Encodable(ds) <==> forall d :: d in ds ==> Encode(d).Ok?
  {
    hide Encode;
  }

  lemma SameImages(x: seq<Included>, y: seq<Included>, d: Descriptor)
    requires multiset(x) == multiset(y)
    ensures (exists i :: 0 <= i < |x| && d in x[i].descriptors) ==> exists i :: 0 <= i < |y| && d in y[i].descriptors
  {
    if i :| 0 <= i < |x| && d in x[i].descriptors {
      assert x[i] in multiset(y);
      var j :| 0 <= j < |y| && y[j] == x[i];
    }
  }

  lemma BumpAllSame(minor: nat, x: seq<Included>, y: seq<Included>)
    requires multiset(x) == multiset(y)
    ensures BumpAll(minor, x) == BumpAll(minor, y)
  {
    BumpAllIsMax(minor, x);
    BumpAllIsMax(minor, y);
    BumpAtMost(minor, x, y);
    BumpAtMost(minor, y, x);
  }

  lemma BumpAtMost(minor: nat, x: seq<Included>, y: seq<Included>)
    requires multiset(x) == multiset(y)
    ensures BumpAll(minor, x) <= BumpAll(minor, y)
  {
    BumpAllIsMax(minor, x);
    BumpAllIsMax(minor, y);
    if i :| 0 <= i < |x| && x[i].versionMinor == BumpAll(minor, x) {
      assert x[i] in multiset(y);
      var j :| 0 <= j < |y| && y[j] == x[i];
    }
  }

  // ---------------------------------------------------------------- reading a blob back

  /** The header and descriptors `_parse_image` reads at an offset. */
  function ParseAt(lib: Hashlib, img: bytes, offset: nat): Result<(Header, seq<Descriptor>)> {
    var h :- ParseHeader(Clip(img, offset, offset + VBMETA_HEADER_SIZE));
    var start := offset + VBMETA_HEADER_SIZE + h.authSize + h.descriptors.offset;
    var ds :- ParseList(lib, Clip(img, start, start + h.descriptors.size));
    Ok((h, ds))
  }

  datatype Parsed = Parsed(footer: Option<Footer>, header: Header, descriptors: seq<Descriptor>)

  function FooterOf(img: bytes): Option<Footer> {
    if |img| < FOOTER_SIZE then None
    else
      var f := ParseFooter(img[|img| - FOOTER_SIZE..]);
      if f.Ok? then Some(f.value) else None
  }

  /** `_parse_image` on the image's contents. Fewer than 64 bytes make it seek to a negative offset. */
  function ParseImage(lib: Hashlib, img: bytes): Result<Parsed> {
    if |img| < FOOTER_SIZE then Err(RuntimeError)
    else
      var footer := FooterOf(img);
      var p :- ParseAt(lib, img, if footer.Some? then footer.value.vbmetaOffset else 0);
      Ok(Parsed(footer, p.0, p.1))
  }

  /** What is needed for a blob to be read back as written. */
  ghost predicate Readable(lib: Hashlib, ds: seq<Descriptor>, o: Options)
    requires ChainsOk(o) && PropsOk(o)
  {
    && ReleaseFits(Release(o))
    && forall i :: 0 <= i < |AllDescriptors(ds, o)| ==> Canonical(lib, AllDescriptors(ds, o)[i])
  }

  /** A blob is a multiple of 64 bytes, starting with its 256-byte header. */
  lemma BlobSize(ds: seq<Descriptor>, o: Options, minor: nat)
    requires BlobOk(ds, o, minor)
    ensures |BlobOf(ds, o, minor)| % 64 == 0 && |BlobOf(ds, o, minor)| >= VBMETA_HEADER_SIZE
    ensures BlobOf(ds, o, minor)[..4] == VBMETA_MAGIC
    ensures var h := HeaderOf(EncodeAll(AllDescriptors(ds, o)), o, BumpAll(minor, o.included));
      |BlobOf(ds, o, minor)| == VBMETA_HEADER_SIZE + h.authSize + h.auxSize && h.algorithmType == 0
  {
    hide EncodeAll, Encodable, AllDescriptors, HeaderInRange, ChainsOk, PropsOk, HeaderFields, ParseHeader,
      ReleaseFits;
    var encoded := EncodeAll(AllDescriptors(ds, o));
    var h := HeaderOf(encoded, o, BumpAll(minor, o.included));
    HeaderRoundTrip(h);
    HeaderStart(h);
    assert BlobOf(ds, o, minor)[..4] == Join(HeaderFields(h))[..4];
    SixtyFour(RoundUp(|encoded| + |o.metadata|, 64));
  }

  lemma SixtyFour(n: nat)
    requires n % 64 == 0
    ensures (VBMETA_HEADER_SIZE + n) % 64 == 0
  {
  }

  lemma HeaderStart(h: Header)
    ensures |Join(HeaderFields(h))| >= 4 && Join(HeaderFields(h))[..4] == VBMETA_MAGIC
  {
    hide BE, Fixed, ExtentField;
    var f := HeaderFields(h);
    assert Join(f) == f[0] + Join(f[1..]);
  }

  /** The first two parts of three, cut out of an image. */
  lemma CutOut(img: bytes, at: nat, a: bytes, b: bytes, c: bytes)
    requires at + |a + b + c| <= |img| && img[at..at + |a + b + c|] == a + b + c
    ensures Clip(img, at, at + |a|) == a && Clip(img, at + |a|, at + |a| + |b|) == b
  {
    var all := a + b + c;
    SliceOfSlice(img, at, at + |all|, 0, |a|);
    SliceOfSlice(img, at, at + |all|, |a|, |a| + |b|);
    assert all[0..|a|] == a && all[|a|..|a| + |b|] == b;
  }

  /** Wherever a generated blob stands in an image, parsing there gives back its header and exactly its
      descriptors, provided the release string and all descriptors survive encoding; and only then. */
  lemma BlobParses(lib: Hashlib, ds: seq<Descriptor>, o: Options, minor: nat, img: bytes, at: nat)
    requires BlobOk(ds, o, minor)
    requires at + |BlobOf(ds, o, minor)| <= |img| && img[at..at + |BlobOf(ds, o, minor)|] == BlobOf(ds, o, minor)
    ensures var all := AllDescriptors(ds, o);
      ParseAt(lib, img, at) == Ok((HeaderOf(EncodeAll(all), o, BumpAll(minor, o.included)), all)) <==> Readable(lib, ds, o)
  {
    hide Encodable, AllDescriptors, HeaderInRange, ChainsOk, PropsOk, Canonical, EncodeAll, ParseList, ParseHeader,
      HeaderFields, ReleaseFits, Clip;
    var all := AllDescriptors(ds, o);
    var encoded := EncodeAll(all);
    var h := HeaderOf(encoded, o, BumpAll(minor, o.included));
    HeaderRoundTrip(h);
    ParseListRoundTrip(lib, all);
    var rest := o.metadata + Zeros(RoundUp(|encoded| + |o.metadata|, 64) - |encoded| - |o.metadata|);
    assert BlobOf(ds, o, minor) == Join(HeaderFields(h)) + encoded + rest;
    CutOut(img, at, Join(HeaderFields(h)), encoded, rest);
  }

  /** A bare blob whose last 64 bytes are not a footer parses to its own header and descriptors. */
  lemma BareBlobParses(lib: Hashlib, ds: seq<Descriptor>, o: Options, minor: nat)
    requires BlobOk(ds, o, minor) && Readable(lib, ds, o)
    requires FooterOf(BlobOf(ds, o, minor)).None?
    ensures var all := AllDescriptors(ds, o);
      ParseImage(lib, BlobOf(ds, o, minor)) == Ok(Parsed(None, HeaderOf(EncodeAll(all), o, BumpAll(minor, o.included)), all))
  {
    hide Readable, ParseAt, HeaderOf, BlobOf, FooterOf, Encodable, AllDescriptors, HeaderInRange, ChainsOk, PropsOk;
    var blob := BlobOf(ds, o, minor);
    BlobSize(ds, o, minor);
    assert blob[0..0 + |blob|] == blob;
    BlobParses(lib, ds, o, minor, blob, 0);
  }

  /** An image that ends in a footer parses to the blob its footer points to. */
  lemma FooteredBlobParses(lib: Hashlib, ds: seq<Descriptor>, o: Options, minor: nat, img: bytes, footer: Footer)
    requires BlobOk(ds, o, minor) && Readable(lib, ds, o) && FooterInRange(footer)
    requires |img| >= FOOTER_SIZE && img[|img| - FOOTER_SIZE..] == Join(FooterFields(footer))
    requires var at := footer.vbmetaOffset;
      at + |BlobOf(ds, o, minor)| <= |img| && img[at..at + |BlobOf(ds, o, minor)|] == BlobOf(ds, o, minor)
    ensures var all := AllDescriptors(ds, o);
      ParseImage(lib, img) == Ok(Parsed(Some(footer), HeaderOf(EncodeAll(all), o, BumpAll(minor, o.included)), all))
  {
    hide Readable, ParseAt, HeaderOf, BlobOf, FooterFields, ParseFooter, Encodable, AllDescriptors, HeaderInRange,
      ChainsOk, PropsOk;
    FooterRoundTrip(footer);
    BlobParses(lib, ds, o, minor, img, footer.vbmetaOffset);
  }

  // ---------------------------------------------------------------- what a blob says

  /** `b` starts with a common prefix and goes on where `a` ends, or differs first in a greater byte. */
  lemma {:induction false} LessIs(a: bytes, b: bytes)
    ensures Less(a, b) <==> exists k: nat :: FirstDifference(a, b, k)
  {
    if Less(a, b) {
      var k := LessAt(a, b);
      assert FirstDifference(a, b, k);
    } else {
      forall k: nat
        ensures !FirstDifference(a, b, k)
      {
        NotLessAt(a, b, k);
      }
    }
  }

  predicate FirstDifference(a: bytes, b: bytes, k: nat) {
    k <= |a| && k < |b| && a[..k] == b[..k] && (k == |a| || a[k] < b[k])
  }

  lemma {:induction false} LessAt(a: bytes, b: bytes) returns (k: nat)
    requires Less(a, b)
    ensures FirstDifference(a, b, k)
  {
    if a == [] || a[0] < b[0] {
      k := 0;
    } else {
      var n := LessAt(a[1..], b[1..]);
      k := n + 1;
      assert a[..k] == [a[0]] + a[1..][..n] && b[..k] == [b[0]] + b[1..][..n];
    }
  }

  lemma {:induction false} NotLessAt(a: bytes, b: bytes, k: nat)
    requires !Less(a, b)
    ensures !FirstDifference(a, b, k)
  {
    if b != [] && a != [] && a[0] == b[0] && 0 < k <= |a| && k < |b| {
      NotLessAt(a[1..], b[1..], k - 1);
      if a[..k] == b[..k] {
        assert a[1..][..k - 1] == a[..k][1..] && b[1..][..k - 1] == b[..k][1..];
      }
    } else if 0 < k <= |a| && k < |b| {
      assert a[..k][0] == a[0] && b[..k][0] == b[0];
    }
  }

  /** The bytes of a text of ASCII characters. */
  function AsciiBytes(s: string): bytes
    requires forall i :: 0 <= i < |s| ==> s[i] < '\U{80}'
  {
    seq(|s|, i requires 0 <= i < |s| => s[i] as int)
  }

  /** The keys are the class name, an underscore and the partition name. */
  lemma KeyIs(d: Descriptor)
    ensures Named(d) <==> d.Hashtree? || d.Hash? || d.ChainPartition?
    ensures d.Hashtree? ==> Key(d) == AsciiBytes("AvbHashtreeDescriptor_") + d.partitionName
    ensures d.Hash? ==> Key(d) == AsciiBytes("AvbHashDescriptor_") + d.partitionName
    ensures d.ChainPartition? ==> Key(d) == AsciiBytes("AvbChainPartitionDescriptor_") + d.partitionName
  {
    hide AsciiBytes, ClassPrefix;
    match d
    case Hashtree(_, _, _, _, _, _, _, _, _, _, _, _, _, _) => HashtreePrefix(d);
    case Hash(_, _, _, _, _, _) => HashPrefix(d);
    case ChainPartition(_, _, _, _) => ChainPrefix(d);
    case _ =>
  }

  lemma HashtreePrefix(d: Descriptor)
    requires d.Hashtree?
    ensures ClassPrefix(d) == AsciiBytes("AvbHashtreeDescriptor_")
  {
  }

  lemma HashPrefix(d: Descriptor)
    requires d.Hash?
    ensures ClassPrefix(d) == AsciiBytes("AvbHashDescriptor_")
  {
  }

  lemma ChainPrefix(d: Descriptor)
    requires d.ChainPartition?
    ensures ClassPrefix(d) == AsciiBytes("AvbChainPartitionDescriptor_")
  {
  }

  /** The colon a property is cut at is its first. */
  lemma {:induction false} FirstColon(s: bytes)
    ensures FindColon(s) == -1 <==> 0x3a !in s
    ensures FindColon(s) >= 0 ==> s[FindColon(s)] == 0x3a && 0x3a !in s[..FindColon(s)]
  {
    if s != [] {
      FirstColon(s[1..]);
      assert s == [s[0]] + s[1..];
      var i := FindColon(s);
      if i > 0 {
        assert s[..i] == [s[0]] + s[1..][..i - 1];
      }
    }
  }

  /** The descriptors of included images, in their order, and what of them goes straight into the blob. */
  lemma IncludedOneByOne(images: seq<Included>, image: Included, ds: seq<Descriptor>, d: Descriptor)
    ensures Flat([]) == [] && Flat(images + [image]) == Flat(images) + image.descriptors
    ensures Unnamed([]) == []
    ensures Unnamed(ds + [d]) == if d.Hashtree? || d.Hash? || d.ChainPartition? then Unnamed(ds) else Unnamed(ds) + [d]
  {
    assert (images + [image])[..|images|] == images && (ds + [d])[..|ds|] == ds;
  }

  /** A property `p` of the form "key:value", cut at its first colon. */
  predicate IsProperty(d: Descriptor, p: bytes) {
    d.Property? && d.key + [0x3a] + d.value == p && 0x3a !in d.key
  }

  /** What a blob's descriptors are, in order: those given, then one for each chained partition, property and kernel
      command line, then the included ones without a partition name, and last the others, sorted by class and name, each
      the last one seen of its class and name. */
  lemma DescriptorsListed(ds: seq<Descriptor>, o: Options)
    requires ChainsOk(o) && PropsOk(o)
    ensures var all, c, p, k := AllDescriptors(ds, o), |ds| + |o.chains|, |o.props|, |o.kernelCmdlines|;
      && |all| >= c + p + k && all[..|ds|] == ds
      && (forall i :: 0 <= i < |o.chains| ==>
            all[|ds| + i] == ChainPartition(o.chains[i].location, o.chains[i].name, o.chains[i].publicKey,
                                            if o.chains[i].doNotUseAb then 1 else 0))
      && (forall i :: 0 <= i < p ==> IsProperty(all[c + i], o.props[i]))
      && (forall i :: 0 <= i < k ==> all[c + p + i] == KernelCmdline(0, o.kernelCmdlines[i]))
      && LastOnes(all[c + p + k..], Flat(o.included))
  {
    hide LastOnes, Flat, Dict, Unnamed, PropOf, FindColon;
    var all, c, p, k := AllDescriptors(ds, o), |ds| + |o.chains|, |o.props|, |o.kernelCmdlines|;
    var dict := Dict(Flat(o.included));
    var rest := Unnamed(Flat(o.included)) + Pick(dict, SortedListing(dict.Keys));
    assert all == ds + Chained(o) + Props(o) + Cmdlines(o) + rest;
    forall i | 0 <= i < p
      ensures IsProperty(all[c + i], o.props[i])
    {
      CutProperty(o.props[i]);
      assert all[c + i] == Props(o)[i];
    }
    assert all[c + p + k..] == rest;
    PickedLast(Flat(o.included));
  }

  lemma CutProperty(p: bytes)
    requires FindColon(p) >= 0
    ensures IsProperty(PropOf(p), p)
  {
    FirstColon(p);
    var i := FindColon(p);
    assert p == p[..i] + [p[i]] + p[i + 1..];
  }

  /** `tail` is what of `seen` has no partition name, followed by the last one of each class and name, sorted. */
  ghost predicate LastOnes(tail: seq<Descriptor>, seen: seq<Descriptor>) {
    |Unnamed(seen)| <= |tail| && tail[..|Unnamed(seen)|] == Unnamed(seen) && IsSortedLast(tail[|Unnamed(seen)|..], seen)
  }

  ghost predicate IsSortedLast(named: seq<Descriptor>, seen: seq<Descriptor>) {
    && (forall i :: 0 <= i < |named| ==> IsLast(named[i], seen))
    && (forall d :: d in seen && Named(d) ==> exists i :: 0 <= i < |named| && Key(named[i]) == Key(d))
    && (forall i, j :: 0 <= i < j < |named| ==> Less(Key(named[i]), Key(named[j])))
  }

  /** The last one seen with its key. */
  ghost predicate IsLast(d: Descriptor, seen: seq<Descriptor>) {
    Named(d) && exists j: nat :: LastWithKey(seen, Key(d), j) && d == seen[j]
  }

  lemma PickedLast(seen: seq<Descriptor>)
    ensures var dict := Dict(seen); LastOnes(Unnamed(seen) + Pick(dict, SortedListing(dict.Keys)), seen)
  {
    hide Dict, Unnamed, Key, Less, IsLast;
    var dict := Dict(seen);
    var ks := SortedListing(dict.Keys);
    var named := Pick(dict, ks);
    assert (Unnamed(seen) + named)[|Unnamed(seen)|..] == named;
    forall i | 0 <= i < |ks|
      ensures Named(named[i]) && IsLast(named[i], seen) && Key(named[i]) == ks[i]
    {
      PickedOne(seen, ks[i]);
    }
    forall d | d in seen && Named(d)
      ensures exists i :: 0 <= i < |named| && Key(named[i]) == Key(d)
    {
      var j := LastSeenWins(seen, Key(d));
      var i :| 0 <= i < |ks| && ks[i] == Key(d);
    }
  }

  lemma PickedOne(seen: seq<Descriptor>, key: bytes)
    requires key in Dict(seen)
    ensures Named(Dict(seen)[key]) && IsLast(Dict(seen)[key], seen) && Key(Dict(seen)[key]) == key
  {
    hide Dict, Key;
    var j := LastSeenWins(seen, key);
  }

  /** When a blob can be generated: chained partitions have locations of their own from 1 on, properties have a colon,
      all descriptors can be encoded, those of included images too even if they are not the last ones seen, and the
      numbers fit the header. */
  lemma GeneratedIf(ds: seq<Descriptor>, o: Options, minor: nat)
    ensures BlobOk(ds, o, minor) <==>
      && (forall i :: 0 <= i < |o.chains| ==> o.chains[i].location >= 1 && o.chains[i].location != o.rollbackIndexLocation)
      && (forall i, j :: 0 <= i < j < |o.chains| ==> o.chains[i].location != o.chains[j].location)
      && (forall i :: 0 <= i < |o.props| ==> 0x3a in o.props[i])
      && ChainsOk(o) && PropsOk(o)
      && (forall d :: d in AllDescriptors(ds, o) ==> Encode(d).Ok?)
      && (forall d :: d in Flat(o.included) ==> Encode(d).Ok?)
      && minor < 0x1_0000_0000 && (forall i :: 0 <= i < |o.included| ==> o.included[i].versionMinor < 0x1_0000_0000)
      && o.rollbackIndex < 0x1_0000_0000_0000_0000 && o.flags < 0x1_0000_0000 && o.rollbackIndexLocation < 0x1_0000_0000
      && RoundUp(|EncodeAll(AllDescriptors(ds, o))| + |o.metadata|, 64) < 0x1_0000_0000_0000_0000
  {
    hide AllDescriptors, EncodeAll, Flat, Encode, FindColon, RoundUp;
    forall i | 0 <= i < |o.props|
      ensures FindColon(o.props[i]) >= 0 <==> 0x3a in o.props[i]
    {
      FirstColon(o.props[i]);
    }
    RequiredMinorIs(minor, o.included);
  }

  /** A number is the least required version: that of the options, or the largest of an included image. */
  predicate IsRequiredMinor(n: nat, minor: nat, images: seq<Included>) {
    && minor <= n && (forall i :: 0 <= i < |images| ==> images[i].versionMinor <= n)
    && (n == minor || exists i :: 0 <= i < |images| && images[i].versionMinor == n)
  }

  lemma RequiredMinorIs(minor: nat, images: seq<Included>)
    ensures IsRequiredMinor(BumpAll(minor, images), minor, images)
  {
    BumpAllIsMax(minor, images);
  }

  /** The release string: what is given or "avbtool 1.3.0", and behind a blank what is to be appended. */
  predicate IsRelease(s: bytes, o: Options) {
    var given := if o.releaseString.Some? then o.releaseString.value else AsciiBytes("avbtool 1.3.0");
    s == if o.appendToRelease.Some? then given + [0x20] + o.appendToRelease.value else given
  }

  lemma ReleaseIs(o: Options)
    ensures IsRelease(Release(o), o)
  {
    var given := if o.releaseString.Some? then o.releaseString.value else RELEASE_STRING;
    assert RELEASE_STRING == AsciiBytes("avbtool 1.3.0");
    assert o.appendToRelease.Some? ==> given + ([0x20] + o.appendToRelease.value) == given + [0x20] + o.appendToRelease.value;
    assert given + [] == given;
  }

  /** A blob without signature, byte by byte: its header, the encoded descriptors, the metadata, and zeros up to a
      multiple of 64. */
  ghost predicate IsBlob(b: bytes, encoded: bytes, o: Options, minor: nat) {
    var n, m := |encoded|, |o.metadata|;
    && |b| == 256 + RoundUp(n + m, 64) && IsBlobHeader(b[..256], n, m, o, minor)
    && b[256..256 + n] == encoded && b[256 + n..256 + n + m] == o.metadata
    && b[256 + n + m..] == Zeros(|b| - 256 - n - m)
  }

  /** The header of a blob without signature, with `n` bytes of descriptors and `m` bytes of metadata. */
  ghost predicate IsBlobHeader(b: bytes, n: nat, m: nat, o: Options, minor: nat)
    requires |b| == 256
  {
    && b[..4] == AsciiBytes("AVB0") && Be32(b, 4) == 1 && IsRequiredMinor(Be32(b, 8), minor, o.included)
    && Be64(b, 12) == 0 && Be64(b, 20) == RoundUp(n + m, 64) && Be32(b, 28) == 0 && b[32..64] == Zeros(32)
    && Be64(b, 64) == n && Be64(b, 72) == 0 && Be64(b, 80) == n && Be64(b, 88) == m
    && Be64(b, 96) == 0 && Be64(b, 104) == n
    && Be64(b, 112) == o.rollbackIndex && Be32(b, 120) == o.flags && Be32(b, 124) == o.rollbackIndexLocation
    && (exists release :: IsRelease(release, o) && b[128..175] == Resize(release, 47)) && b[175..256] == Zeros(81)
  }

  lemma BlobLayout(ds: seq<Descriptor>, o: Options, minor: nat)
    requires BlobOk(ds, o, minor)
    ensures IsBlob(BlobOf(ds, o, minor), EncodeAll(AllDescriptors(ds, o)), o, minor)
  {
    hide EncodeAll, Encodable, AllDescriptors, ChainsOk, PropsOk, HeaderFields, HeaderInRange, RoundUp, BumpAll, Join,
      IsBlobHeader, HeaderOf;
    var encoded := EncodeAll(AllDescriptors(ds, o));
    var h := HeaderOf(encoded, o, BumpAll(minor, o.included));
    BlobHeaderLayout(encoded, o, minor);
    Pieces(Join(HeaderFields(h)), encoded, o.metadata, Zeros(RoundUp(|encoded| + |o.metadata|, 64) - |encoded| - |o.metadata|));
  }

  lemma BlobHeaderLayout(encoded: bytes, o: Options, minor: nat)
    requires HeaderInRange(HeaderOf(encoded, o, BumpAll(minor, o.included)))
    ensures var head := Join(HeaderFields(HeaderOf(encoded, o, BumpAll(minor, o.included))));
      |head| == 256 && IsBlobHeader(head, |encoded|, |o.metadata|, o, minor)
  {
    hide HeaderFields, HeaderInRange, Be32, Be64, Release, IsRelease, Resize, RoundUp, IsRequiredMinor, BumpAll, Join;
    var h := HeaderOf(encoded, o, BumpAll(minor, o.included));
    HeaderLayout(h);
    RequiredMinorIs(minor, o.included);
    ReleaseIs(o);
    NoExtents(h);
  }

  lemma Pieces(head: bytes, encoded: bytes, metadata: bytes, filling: bytes)
    ensures var b, n, m := head + encoded + metadata + filling, |encoded|, |metadata|;
      && b[..|head|] == head && b[|head|..|head| + n] == encoded && b[|head| + n..|head| + n + m] == metadata
      && b[|head| + n + m..] == filling
  {
  }

  lemma NoExtents(h: Header)
    requires HeaderInRange(h) && h.hash == NOTHING && h.signature == NOTHING
    ensures |Join(HeaderFields(h))| == 256 && Join(HeaderFields(h))[32..64] == Zeros(32)
  {
    hide Be32, HeaderFields, HeaderInRange;
    HeaderLayout(h);
    var b := Join(HeaderFields(h));
    ZeroNumber(b, 32);
    ZeroNumber(b, 40);
    ZeroNumber(b, 48);
    ZeroNumber(b, 56);
  }

  lemma ZeroNumber(b: bytes, at: nat)
    requires at + 8 <= |b| && Be64(b, at) == 0
    ensures forall i :: at <= i < at + 8 ==> b[i] == 0
  {
  }

  /** What the header says that is parsed from the first 256 bytes of a blob whose release string fits. */
  lemma HeaderSays(ds: seq<Descriptor>, o: Options, minor: nat) returns (p: Header)
    requires BlobOk(ds, o, minor) && forall release :: IsRelease(release, o) ==> ReleaseFits(release)
    ensures |BlobOf(ds, o, minor)| >= 256 && ParseHeader(BlobOf(ds, o, minor)[..256]) == Ok(p)
    ensures p.versionMajor == 1 && minor <= p.versionMinor
    ensures forall i :: 0 <= i < |o.included| ==> o.included[i].versionMinor <= p.versionMinor
    ensures p.versionMinor == minor || exists i :: 0 <= i < |o.included| && o.included[i].versionMinor == p.versionMinor
    ensures var n, m := |EncodeAll(AllDescriptors(ds, o))|, |o.metadata|;
      && p.authSize == 0 && p.auxSize == RoundUp(n + m, 64) && p.algorithmType == 0
      && p.descriptors == Extent(0, n) && p.publicKey == Extent(n, 0) && p.metadata == Extent(n, m)
    ensures p.hash == p.signature == Extent(0, 0)
    ensures p.rollbackIndex == o.rollbackIndex && p.flags == o.flags && p.rollbackIndexLocation == o.rollbackIndexLocation
    ensures IsRelease(p.releaseString, o)
  {
    hide EncodeAll, Encodable, AllDescriptors, ChainsOk, PropsOk, HeaderFields, HeaderInRange, Release, ReleaseFits, IsRelease,
      ParseHeader, RoundUp, AsciiBytes, Assemble;
    p := HeaderOf(EncodeAll(AllDescriptors(ds, o)), o, BumpAll(minor, o.included));
    ReleaseIs(o);
    HeaderRoundTrip(p);
    RequiredMinorIs(minor, o.included);
    AssembledHeader(EncodeAll(AllDescriptors(ds, o)), o, BumpAll(minor, o.included));
  }

  lemma AssembledHeader(encoded: bytes, o: Options, minor: nat)
    requires HeaderInRange(HeaderOf(encoded, o, minor))
    ensures |Assemble(encoded, o, minor)| >= 256
    ensures Assemble(encoded, o, minor)[..256] == Join(HeaderFields(HeaderOf(encoded, o, minor)))
  {
    hide HeaderFields, HeaderInRange, ParseHeader, RoundUp;
    HeaderRoundTrip(HeaderOf(encoded, o, minor));
  }

  /** The release string is what is given or "avbtool 1.3.0", and behind a blank what is to be appended. */
  lemma ReleaseGiven(s: bytes, o: Options)
    requires IsRelease(s, o)
    ensures
      var given := if o.releaseString.Some? then o.releaseString.value else AsciiBytes("avbtool 1.3.0");
      s == if o.appendToRelease.Some? then given + [0x20] + o.appendToRelease.value else given
  {
    hide AsciiBytes;
  }
}
