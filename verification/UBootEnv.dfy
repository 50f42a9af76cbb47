/** tools/uboot_env_edit.py: the codec of the u-boot environment block and the commands that edit it. */
module UBootEnv {
  import opened Bytes
  import opened Results

  const ENV_BLOCK_SIZE := 4096
  const ENV_DATA_SIZE := 4092
  const EQUALS := 0x3d

  /** Text, as code points. Bytes decode to the code points of the same value (ASCII, else Latin-1). */
  type text = seq<int>

  predicate IsAscii(t: text) { forall i :: 0 <= i < |t| ==> 0 <= t[i] < 128 }

  function Encode(t: text): Result<bytes> {
    if IsAscii(t) then Ok(t) else Err(ValueError)
  }

  // ---------------------------------------------------------------- Python's dict, in insertion order

  datatype Entry = Entry(key: text, value: text)

  /** Where a key is; the length if it is nowhere. */
  function Position(env: seq<Entry>, key: text): (i: nat)
    ensures i <= |env| && (i < |env| ==> env[i].key == key)
    ensures forall j :: 0 <= j < i ==> env[j].key != key
  {
    if env == [] then 0 else if env[0].key == key then 0 else 1 + Position(env[1..], key)
  }

  /** `env[key] = value`: in place for a key that is there, at the end for a new one. */
  function Put(env: seq<Entry>, key: text, value: text): seq<Entry> {
    var i := Position(env, key);
    if i < |env| then env[i := Entry(key, value)] else env + [Entry(key, value)]
  }

  /** `env.pop(key, None)`. */
  function Remove(env: seq<Entry>, key: text): seq<Entry> {
    var i := Position(env, key);
    if i < |env| then env[..i] + env[i + 1..] else env
  }

  ghost predicate Distinct(env: seq<Entry>) {
    forall i, j :: 0 <= i < j < |env| ==> env[i].key != env[j].key
  }

  function AsMap(env: seq<Entry>): map<text, text> {
    if env == [] then map[] else AsMap(env[..|env| - 1])[env[|env| - 1].key := env[|env| - 1].value]
  }

  lemma {:induction false} AsMapAt(env: seq<Entry>)
    requires Distinct(env)
    ensures forall i :: 0 <= i < |env| ==> env[i].key in AsMap(env) && AsMap(env)[env[i].key] == env[i].value
    ensures forall k :: k in AsMap(env) ==> exists i :: 0 <= i < |env| && env[i].key == k
  {
    if env != [] {
      var init := env[..|env| - 1];
      AsMapAt(init);
      assert forall i :: 0 <= i < |init| ==> init[i] == env[i];
    }
  }

  /** The order of the entries is all that the map does not say. */
  lemma SameMap(a: seq<Entry>, m: map<text, text>)
    requires Distinct(a)
    requires forall i :: 0 <= i < |a| ==> a[i].key in m && m[a[i].key] == a[i].value
    requires forall k :: k in m ==> exists i :: 0 <= i < |a| && a[i].key == k
    ensures AsMap(a) == m
  {
    AsMapAt(a);
  }

  /** Putting changes one entry, or adds it at the end. */
  lemma PutShape(env: seq<Entry>, key: text, value: text)
    requires Distinct(env)
    ensures var after, p := Put(env, key, value), Position(env, key);
      && p < |after| && after[p] == Entry(key, value) && |after| == |env| + (if p < |env| then 0 else 1)
      && (forall i :: 0 <= i < |env| ==> after[i].key == env[i].key && (i != p ==> after[i] == env[i]))
      && Distinct(after)
  {
  }

  /** Putting is map update; it keeps the order of the keys, a new one comes last. */
  lemma PutUpdates(env: seq<Entry>, key: text, value: text)
    requires Distinct(env)
    ensures Distinct(Put(env, key, value)) && AsMap(Put(env, key, value)) == AsMap(env)[key := value]
    ensures |Put(env, key, value)| == |env| + if key in AsMap(env) then 0 else 1
    ensures forall i :: 0 <= i < |env| ==> Put(env, key, value)[i].key == env[i].key
  {
    hide Put, AsMap;
    AsMapAt(env);
    PutShape(env, key, value);
    var after, m, p := Put(env, key, value), AsMap(env)[key := value], Position(env, key);
    hide Position, Distinct;
    forall i | 0 <= i < |after|
      ensures after[i].key in m && m[after[i].key] == after[i].value
    {
      PutAt(env, key, value, i);
    }
    forall k | k in m
      ensures exists i :: 0 <= i < |after| && after[i].key == k
    {
      if k == key {
        assert after[p].key == k;
      } else {
        var i :| 0 <= i < |env| && env[i].key == k;
        assert after[i].key == k;
      }
    }
    SameMap(after, m);
  }

  lemma PutAt(env: seq<Entry>, key: text, value: text, i: nat)
    requires i < |Put(env, key, value)|
    ensures Put(env, key, value)[i] == Entry(key, value)
      || (i < |env| && Put(env, key, value)[i] == env[i] && (Distinct(env) ==> env[i].key != key))
  {
  }

  /** Removing is removal from the map; the other entries keep their order. */
  lemma RemoveRemoves(env: seq<Entry>, key: text)
    requires Distinct(env)
    ensures Distinct(Remove(env, key)) && AsMap(Remove(env, key)) == AsMap(env) - {key}
  {
    hide AsMap, Remove, Distinct, Position;
    AsMapAt(env);
    RemoveDistinct(env, key);
    var after, m := Remove(env, key), AsMap(env) - {key};
    forall i | 0 <= i < |after|
      ensures after[i].key in m && m[after[i].key] == after[i].value
    {
      var j := RemovedFrom(env, key, i);
    }
    forall k | k in m
      ensures exists i :: 0 <= i < |after| && after[i].key == k
    {
      var j: nat :| j < |env| && env[j].key == k;
      var i := RemovedTo(env, key, j);
    }
    SameMap(after, m);
  }

  lemma RemoveDistinct(env: seq<Entry>, key: text)
    requires Distinct(env)
    ensures Distinct(Remove(env, key))
  {
  }

  /** Where an entry that stays came from, and where it goes. */
  lemma RemovedFrom(env: seq<Entry>, key: text, i: nat) returns (j: nat)
    requires Distinct(env) && i < |Remove(env, key)|
    ensures j < |env| && Remove(env, key)[i] == env[j] && env[j].key != key
  {
    hide Position;
    j := if i < Position(env, key) then i else i + 1;
  }

  lemma RemovedTo(env: seq<Entry>, key: text, j: nat) returns (i: nat)
    requires j < |env| && env[j].key != key
    ensures i < |Remove(env, key)| && Remove(env, key)[i] == env[j]
  {
    i := if j < Position(env, key) then j else j - 1;
  }

  // ---------------------------------------------------------------- parsing

  function Find(s: text, c: int): (i: nat)
    ensures i <= |s| && (i < |s| ==> s[i] == c)
    ensures forall j :: 0 <= j < i ==> s[j] != c
  {
    if s == [] then 0 else if s[0] == c then 0 else 1 + Find(s[1..], c)
  }

  /** `payload.split(b"\\0")`. */
  function SplitNul(s: bytes): (pieces: seq<bytes>)
    decreases |s|
  {
    var i := Find(s, 0);
    if i == |s| then [s] else [s[..i]] + SplitNul(s[i + 1..])
  }

  /** What one piece of the payload adds. */
  function AddPiece(env: seq<Entry>, piece: bytes): seq<Entry> {
    var i := Find(piece, EQUALS);
    if i == |piece| then env else Put(env, piece[..i], piece[i + 1..])
  }

  /** The entries up to the first empty piece. */
  function ParsePieces(pieces: seq<bytes>, env: seq<Entry>): seq<Entry> {
    if pieces == [] || pieces[0] == [] then env else ParsePieces(pieces[1..], AddPiece(env, pieces[0]))
  }

  function Parsed(block: bytes): seq<Entry>
    requires |block| == ENV_BLOCK_SIZE
  {
    ParsePieces(SplitNul(block[4..]), [])
  }

  /** `parse_env`; a wrong checksum is only warned about. */
  method ParseEnv(crc: bytes -> nat, block: bytes) returns (r: Result<seq<Entry>>, warned: bool)
    ensures r.Ok? <==> |block| == ENV_BLOCK_SIZE
    ensures r.Ok? ==> r.value == Parsed(block) && (warned <==> U32(block, 0) != crc(block[4..]) % TWO_32)
  {
    if |block| != ENV_BLOCK_SIZE {
      return Err(ValueError), false;
    }
    var storedCrc := U32(block, 0);
    var payload := block[4..];
    warned := storedCrc != crc(payload) % TWO_32;
    var out: seq<Entry> := [];
    var pieces := SplitNul(payload);
    var n := 0;
    while n < |pieces|
      invariant n <= |pieces|
      invariant ParsePieces(pieces[n..], out) == ParsePieces(pieces, [])
    {
      var piece := pieces[n];
      assert pieces[n..][1..] == pieces[n + 1..];
      if piece == [] {
        break;
      }
      n := n + 1;
      var at := Find(piece, EQUALS);
      if at == |piece| {
        continue;
      }
      out := Put(out, piece[..at], piece[at + 1..]);
    }
    return Ok(out), warned;
  }

  /** ASCII pieces with an equals sign, up to the first empty one. */
  predicate PiecesOk(pieces: seq<bytes>) {
    pieces == [] || pieces[0] == []
    || (IsAscii(pieces[0]) && EQUALS in pieces[0] && PiecesOk(pieces[1..]))
  }

  /** What `verify_block` accepts: size, checksum and well-formed entries. */
  predicate Verified(crc: bytes -> nat, block: bytes) {
    |block| == ENV_BLOCK_SIZE && U32(block, 0) == crc(block[4..]) % TWO_32 && PiecesOk(SplitNul(block[4..]))
  }

  /** `verify_block`. */
  method VerifyBlock(crc: bytes -> nat, block: bytes) returns (ok: bool)
    ensures ok <==> Verified(crc, block)
  {
    if |block| != ENV_BLOCK_SIZE {
      return false;
    }
    if U32(block, 0) != crc(block[4..]) % TWO_32 {
      return false;
    }
    var pieces := SplitNul(block[4..]);
    for n := 0 to |pieces|
      invariant PiecesOk(pieces[n..]) == PiecesOk(pieces)
    {
      assert pieces[n..][1..] == pieces[n + 1..];
      if pieces[n] == [] {
        break;
      }
      if !IsAscii(pieces[n]) || EQUALS !in pieces[n] {
        return false;
      }
    }
    return true;
  }

  // ---------------------------------------------------------------- serializing

  function Line(e: Entry): text { e.key + [EQUALS] + e.value }

  function Joined(lines: seq<text>): text {
    if lines == [] then [] else if |lines| == 1 then lines[0] else lines[0] + [0] + Joined(lines[1..])
  }

  function Lines(env: seq<Entry>): seq<text> { seq(|env|, i requires 0 <= i < |env| => Line(env[i])) }

  predicate Encodable(env: seq<Entry>) { forall i :: 0 <= i < |env| ==> IsAscii(Line(env[i])) }

  /** The entries with their terminators, before padding. */
  function Payload(env: seq<Entry>): text { Joined(Lines(env)) + [0, 0] }

  lemma {:induction false} JoinedIsAscii(lines: seq<text>)
    requires forall i :: 0 <= i < |lines| ==> IsAscii(lines[i])
    ensures IsAscii(Joined(lines))
  {
    if |lines| > 1 {
      JoinedIsAscii(lines[1..]);
    }
  }

  function PayloadBytes(env: seq<Entry>): (p: bytes)
    requires Encodable(env)
    ensures p == Payload(env)
  {
    JoinedIsAscii(Lines(env));
    Payload(env)
  }

  /** `serialize_env`. */
  function Serialize(crc: bytes -> nat, env: seq<Entry>): (r: Result<bytes>)
    ensures r.Ok? ==> |r.value| == ENV_BLOCK_SIZE
  {
    if !Encodable(env) || |Payload(env)| > ENV_DATA_SIZE then Err(ValueError)
    else
      var payload := Resize(PayloadBytes(env), ENV_DATA_SIZE);
      Ok(LE32(crc(payload) % TWO_32) + payload)
  }

  /** The byte count `_save` reports. */
  function Used(env: seq<Entry>): nat {
    if env == [] then 0 else |env[0].key| + |env[0].value| + 2 + Used(env[1..])
  }

  lemma {:induction false} JoinedSize(env: seq<Entry>)
    requires env != []
    ensures |Joined(Lines(env))| == Used(env) - 1
  {
    if |env| > 1 {
      JoinedSize(env[1..]);
      assert Lines(env)[1..] == Lines(env[1..]);
    }
  }

  /** An environment that is not empty is accepted exactly if the reported count plus one fits; the empty one is. */
  lemma SerializesIfFits(crc: bytes -> nat, env: seq<Entry>)
    requires Encodable(env)
    ensures Serialize(crc, env).Ok? <==> env == [] || Used(env) + 1 <= ENV_DATA_SIZE
  {
    if env != [] {
      JoinedSize(env);
    }
  }

  // ---------------------------------------------------------------- round trip

  /** No NUL anywhere, and no equals sign in keys. */
  predicate Clean(env: seq<Entry>) {
    forall i :: 0 <= i < |env| ==> CleanEntry(env[i])
  }

  predicate CleanEntry(e: Entry) { 0 !in e.key && 0 !in e.value && EQUALS !in e.key }

  /** All lines, each with its terminator. */
  function Terminated(env: seq<Entry>): text {
    if env == [] then [] else Line(env[0]) + [0] + Terminated(env[1..])
  }

  lemma {:induction false} JoinedTerminated(env: seq<Entry>)
    requires env != []
    ensures Joined(Lines(env)) + [0] == Terminated(env)
  {
    if |env| > 1 {
      JoinedTerminated(env[1..]);
      assert Lines(env)[1..] == Lines(env[1..]);
    } else {
      assert Terminated(env[1..]) == [];
    }
  }

  lemma FindSkips(s: text, c: int, rest: text)
    requires c !in s
    ensures Find(s + [c] + rest, c) == |s|
  {
    var t := s + [c] + rest;
    assert t[|s|] == c;
    assert forall j :: 0 <= j < |s| ==> t[j] == s[j];
  }

  lemma SplitFirst(line: bytes, rest: bytes)
    requires 0 !in line
    ensures SplitNul(line + [0] + rest) == [line] + SplitNul(rest)
  {
    var all := line + [0] + rest;
    FindSkips(line, 0, rest);
    assert all[..|line|] == line && all[|line| + 1..] == rest;
  }

  lemma AddLine(e: Entry, line: bytes, env: seq<Entry>)
    requires EQUALS !in e.key && line == Line(e) && Position(env, e.key) == |env|
    ensures AddPiece(env, line) == env + [e] && EQUALS in line
  {
    hide Position, Find;
    FindSkips(e.key, EQUALS, e.value);
    assert line[..|e.key|] == e.key && line[|e.key| + 1..] == e.value;
    assert line[|e.key|] == EQUALS;
  }

  /** One line is cut off and parsed back to its entry. */
  lemma ParseLine(e: Entry, line: bytes, rest: bytes, env: seq<Entry>)
    requires CleanEntry(e) && line == Line(e) && Position(env, e.key) == |env|
    ensures ParsePieces(SplitNul(line + [0] + rest), env) == ParsePieces(SplitNul(rest), env + [e])
    ensures IsAscii(line) && PiecesOk(SplitNul(rest)) ==> PiecesOk(SplitNul(line + [0] + rest))
  {
    hide Position, SplitNul, AddPiece, IsAscii;
    SplitFirst(line, rest);
    AddLine(e, line, env);
    assert ([line] + SplitNul(rest))[1..] == SplitNul(rest);
  }

  lemma NewKey(env: seq<Entry>, k: nat)
    requires Distinct(env) && k < |env|
    ensures Position(env[..k], env[k].key) == k
  {
  }

  /** The parser stops at the first empty piece. */
  lemma ParseStops(tail: bytes, env: seq<Entry>)
    requires |tail| > 0 && tail[0] == 0
    ensures ParsePieces(SplitNul(tail), env) == env && PiecesOk(SplitNul(tail))
  {
    assert Find(tail, 0) == 0;
  }

  lemma {:induction false} ParseTerminated(env: seq<Entry>, k: nat, tail: bytes, all: bytes)
    requires Distinct(env) && Clean(env) && k <= |env| && |tail| > 0 && tail[0] == 0
    requires all == Terminated(env[k..]) + tail
    ensures ParsePieces(SplitNul(all), env[..k]) == env
    ensures Encodable(env) ==> PiecesOk(SplitNul(all))
    decreases |env| - k
  {
    hide SplitNul, ParsePieces, Position, Distinct, CleanEntry, PiecesOk, Line;
    if k == |env| {
      assert all == tail && env[..k] == env;
      ParseStops(tail, env);
    } else {
      var e := env[k];
      assert env[k..][0] == e && env[k..][1..] == env[k + 1..];
      var line, rest := CutLine(e, Terminated(env[k + 1..]), tail, all);
      NewKey(env, k);
      ParseLine(e, line, rest, env[..k]);
      assert env[..k] + [e] == env[..k + 1];
      ParseTerminated(env, k + 1, tail, rest);
    }
  }

  /** The first line of the text and what follows it, as bytes. */
  lemma CutLine(e: Entry, others: text, tail: bytes, all: bytes) returns (line: bytes, rest: bytes)
    requires all == Line(e) + [0] + others + tail
    ensures line == Line(e) && rest == others + tail && all == line + [0] + rest
  {
    hide Line;
    line := all[..|Line(e)|];
    rest := all[|Line(e)| + 1..];
  }

  /** The padded payload: terminated lines and at least one more NUL. */
  lemma PaddedPayload(env: seq<Entry>, payload: bytes)
    requires payload == Payload(env) && |payload| <= ENV_DATA_SIZE
    ensures |Terminated(env)| < ENV_DATA_SIZE
    ensures Resize(payload, ENV_DATA_SIZE) == Terminated(env) + Zeros(ENV_DATA_SIZE - |Terminated(env)|)
  {
    if env == [] {
      assert Resize(payload, ENV_DATA_SIZE) == Zeros(ENV_DATA_SIZE);
    } else {
      JoinedTerminated(env);
      var t := Terminated(env);
      assert payload == t + [0];
      assert [0] + Zeros(ENV_DATA_SIZE - |t| - 1) == Zeros(ENV_DATA_SIZE - |t|);
    }
  }

  lemma AddedIsClean(env: seq<Entry>, piece: bytes)
    requires Clean(env) && Distinct(env) && 0 !in piece
    ensures Clean(AddPiece(env, piece)) && Distinct(AddPiece(env, piece))
  {
    var at := Find(piece, EQUALS);
    if at < |piece| {
      var key: text, value: text := piece[..at], piece[at + 1..];
      assert CleanEntry(Entry(key, value));
      hide Find, CleanEntry;
      PutShape(env, key, value);
      forall i | 0 <= i < |Put(env, key, value)|
        ensures CleanEntry(Put(env, key, value)[i])
      {
        PutAt(env, key, value, i);
      }
    }
  }

  /** Everything the parser returns is clean. */
  lemma {:induction false} ParsedIsClean(s: bytes, env: seq<Entry>)
    requires Clean(env) && Distinct(env)
    ensures Clean(ParsePieces(SplitNul(s), env)) && Distinct(ParsePieces(SplitNul(s), env))
    decreases |s|
  {
    hide AddPiece, Clean, Distinct;
    var i := Find(s, 0);
    var piece, pieces := s[..i], SplitNul(s);
    assert pieces[0] == piece;
    if piece != [] {
      AddedIsClean(env, piece);
      if i < |s| {
        assert pieces[1..] == SplitNul(s[i + 1..]);
        ParsedIsClean(s[i + 1..], AddPiece(env, piece));
      } else {
        assert ParsePieces(pieces[1..], AddPiece(env, piece)) == AddPiece(env, piece);
      }
    }
  }

  /** Parsing undoes serializing, insertion order included, exactly for environments without NUL and without equals
      signs in keys. */
  lemma RoundTrip(crc: bytes -> nat, env: seq<Entry>)
    requires Distinct(env) && Serialize(crc, env).Ok?
    ensures Parsed(Serialize(crc, env).value) == env <==> Clean(env)
  {
    hide Payload, SplitNul, ParsePieces, Terminated, LE32;
    var block := Serialize(crc, env).value;
    var payload := Resize(PayloadBytes(env), ENV_DATA_SIZE);
    assert block[4..] == payload;
    PaddedPayload(env, PayloadBytes(env));
    if Clean(env) {
      assert env[0..] == env && env[..0] == [];
      ParseTerminated(env, 0, Zeros(ENV_DATA_SIZE - |Terminated(env)|), payload);
    } else {
      ParsedIsClean(payload, []);
    }
  }

  /** Saving what was loaded and loading it again changes nothing. */
  lemma LoadSaveLoad(crc: bytes -> nat, block: bytes)
    requires |block| == ENV_BLOCK_SIZE && Serialize(crc, Parsed(block)).Ok?
    ensures Parsed(Serialize(crc, Parsed(block)).value) == Parsed(block)
  {
    ParsedIsClean(block[4..], []);
    RoundTrip(crc, Parsed(block));
  }

  /** A clean environment is saved as a block that verifies. */
  lemma SavedVerifies(crc: bytes -> nat, env: seq<Entry>)
    requires Distinct(env) && Serialize(crc, env).Ok? && Clean(env)
    ensures Verified(crc, Serialize(crc, env).value)
  {
    hide Payload, SplitNul, ParsePieces, Terminated, LE32, PiecesOk, Clean, Distinct;
    var block := Serialize(crc, env).value;
    var payload := Resize(PayloadBytes(env), ENV_DATA_SIZE);
    assert block[4..] == payload && block[0..4] == LE32(crc(payload) % TWO_32);
    U32RoundTrip(block, 0, crc(payload) % TWO_32);
    PaddedPayload(env, PayloadBytes(env));
    assert env[0..] == env && env[..0] == [];
    ParseTerminated(env, 0, Zeros(ENV_DATA_SIZE - |Terminated(env)|), payload);
  }

  // ---------------------------------------------------------------- what stands where

  /** The text of an environment: key, equals sign, value and a NUL, entry after entry. */
  lemma {:induction false} TextIs(a: seq<Entry>, b: seq<Entry>, e: Entry)
    ensures Terminated([]) == [] && Terminated([e]) == e.key + [61] + e.value + [0]
    ensures Terminated(a + b) == Terminated(a) + Terminated(b)
  {
    assert [e][1..] == [] && Line(e) + [0] + Terminated([e][1..]) == Line(e) + [0];
    if a == [] {
      assert a + b == b;
    } else {
      TextIs(a[1..], b, e);
      assert (a + b)[0] == a[0] && (a + b)[1..] == a[1..] + b;
    }
  }

  /** A saved block: the checksum of everything behind it, its lowest byte first; the text; zeros, at least one. */
  lemma BlockIs(crc: bytes -> nat, env: seq<Entry>)
    requires Serialize(crc, env).Ok?
    ensures var s, n := Serialize(crc, env).value, |Terminated(env)|;
      && |s| == 4096 && 4 + n < 4096 && s[4..4 + n] == Terminated(env) && (forall k :: 4 + n <= k < 4096 ==> s[k] == 0)
      && s[0] as int + 256 * s[1] as int + 65536 * s[2] as int + 16777216 * s[3] as int == crc(s[4..]) % 0x1_0000_0000
  {
    hide Payload, Terminated, LE32;
    var payload := Resize(PayloadBytes(env), ENV_DATA_SIZE);
    var s := Serialize(crc, env).value;
    PaddedPayload(env, PayloadBytes(env));
    assert s[4..] == payload && s[0..4] == LE32(crc(payload) % TWO_32);
    U32RoundTrip(s, 0, crc(payload) % TWO_32);
    assert forall k :: 4 <= k < 4096 ==> s[k] == payload[k - 4];
  }

  /** An environment can be saved exactly if it is ASCII and a byte is left behind its text; the empty one can. */
  lemma SavedIf(crc: bytes -> nat, env: seq<Entry>)
    ensures Serialize(crc, env).Ok? <==>
      && (forall i :: 0 <= i < |env| ==> IsAscii(env[i].key) && IsAscii(env[i].value))
      && |Terminated(env)| + 1 <= 4092
    ensures |Terminated(env)| == Used(env)
  {
    hide Joined, Lines, Terminated, IsAscii;
    TextSize(env);
    forall i | 0 <= i < |env|
      ensures IsAscii(Line(env[i])) <==> IsAscii(env[i].key) && IsAscii(env[i].value)
    {
      LineIsAscii(env[i]);
    }
    if env == [] {
      NoText();
    } else {
      JoinedTerminated(env);
    }
  }

  lemma NoText()
    ensures Joined(Lines([])) == [] && Terminated([]) == []
  {
  }

  lemma LineIsAscii(e: Entry)
    ensures IsAscii(Line(e)) <==> IsAscii(e.key) && IsAscii(e.value)
  {
    var line := Line(e);
    assert forall i :: 0 <= i < |e.key| ==> line[i] == e.key[i];
    assert forall i :: 0 <= i < |e.value| ==> line[|e.key| + 1 + i] == e.value[i];
  }

  lemma {:induction false} TextSize(env: seq<Entry>)
    ensures |Terminated(env)| == Used(env)
  {
    if env != [] {
      TextSize(env[1..]);
    }
  }

  /** Parsing goes from NUL to NUL: an empty line ends it, one without an equals sign is skipped, and any other sets the
      key in front of its first equals sign. */
  lemma LineParsed(line: bytes, rest: bytes, env: seq<Entry>, i: nat)
    requires 0 !in line
    ensures line == [] ==> ParsePieces(SplitNul(line + [0] + rest), env) == env
    ensures line != [] && 61 !in line ==>
      ParsePieces(SplitNul(line + [0] + rest), env) == ParsePieces(SplitNul(rest), env)
    ensures i < |line| && line[i] == 61 && 61 !in line[..i] ==>
      ParsePieces(SplitNul(line + [0] + rest), env) == ParsePieces(SplitNul(rest), Put(env, line[..i], line[i + 1..]))
    ensures ParsePieces(SplitNul(line), env) == if line == [] then env else AddPiece(env, line)
  {
    hide SplitNul, Put;
    SplitFirst(line, rest);
    assert ([line] + SplitNul(rest))[1..] == SplitNul(rest);
    OnlyPiece(line);
    assert [line][1..] == [];
    if i < |line| && line[i] == 61 && 61 !in line[..i] {
      FirstAt(line, 61, i);
    }
  }

  lemma OnlyPiece(line: bytes)
    requires 0 !in line
    ensures SplitNul(line) == [line]
  {
  }

  lemma FirstAt(s: text, c: int, i: nat)
    requires i < |s| && s[i] == c && c !in s[..i]
    ensures Find(s, c) == i
  {
    assert forall j :: 0 <= j < i ==> s[j] in s[..i];
    hide Find;
  }

  /** Setting replaces the value of a key where it stands, or adds the key at the end; deleting takes it out. */
  lemma PutIs(env: seq<Entry>, key: text, value: text, i: nat)
    requires i < |env| ==> env[i].key == key && forall j :: 0 <= j < i ==> env[j].key != key
    requires i >= |env| ==> forall j :: 0 <= j < |env| ==> env[j].key != key
    ensures Put(env, key, value) == if i < |env| then env[i := Entry(key, value)] else env + [Entry(key, value)]
    ensures Remove(env, key) == if i < |env| then env[..i] + env[i + 1..] else env
  {
    assert Position(env, key) == if i < |env| then i else |env|;
    hide Position;
  }

  /** A block verifies if it has its size and its checksum, and every line up to an empty one is ASCII with an equals
      sign in it. */
  lemma VerifiedIs(crc: bytes -> nat, block: bytes, line: bytes, rest: bytes)
    requires 0 !in line
    ensures Verified(crc, block) <==>
      && |block| == 4096 && PiecesOk(SplitNul(block[4..]))
      && block[0] as int + 256 * block[1] as int + 65536 * block[2] as int + 16777216 * block[3] as int
         == crc(block[4..]) % 0x1_0000_0000
    ensures PiecesOk(SplitNul(line + [0] + rest)) <==>
      line == [] || (61 in line && (forall i :: 0 <= i < |line| ==> line[i] < 128) && PiecesOk(SplitNul(rest)))
    ensures PiecesOk(SplitNul(line)) <==> line == [] || (61 in line && forall i :: 0 <= i < |line| ==> line[i] < 128)
  {
    hide SplitNul;
    SplitFirst(line, rest);
    OnlyPiece(line);
    var pieces := [line] + SplitNul(rest);
    assert pieces[0] == line && pieces[1..] == SplitNul(rest);
    assert [line][0] == line && [line][1..] == [];
  }

  // ---------------------------------------------------------------- commands

  /** `_save`: the block that is written, whether it verifies, and the reported byte count. It fails exactly if a
      character is not ASCII or the entries, with the count reported for them plus one, do not fit; what is written of
      a clean environment verifies. */
  method Save(crc: bytes -> nat, env: seq<Entry>) returns (r: Result<bytes>, ok: bool, used: nat)
    ensures r == Serialize(crc, env)
    ensures r.Ok? ==> ok == Verified(crc, r.value) && used == Used(env)
    ensures r.Ok? <==> Encodable(env) && (env == [] || Used(env) + 1 <= ENV_DATA_SIZE)
    ensures r.Ok? && Distinct(env) && Clean(env) ==> ok
  {
    hide Serialize, Verified, Used, Distinct, Clean, Encodable;
    if Encodable(env) {
      SerializesIfFits(crc, env);
    } else {
      NotEncodable(crc, env);
    }
    if Serialize(crc, env).Ok? && Distinct(env) && Clean(env) {
      SavedVerifies(crc, env);
    }
    ok, used := false, 0;
    r := Serialize(crc, env);
    if r.Ok? {
      ok := VerifyBlock(crc, r.value);
      used := Used(env);
    }
  }

  lemma NotEncodable(crc: bytes -> nat, env: seq<Entry>)
    requires !Encodable(env)
    ensures Serialize(crc, env).Err?
  {
  }

  /** `key=value`, cut at the first equals sign. */
  function Setting(kv: text): Entry
    requires EQUALS in kv
  {
    Entry(kv[..Find(kv, EQUALS)], kv[Find(kv, EQUALS) + 1..])
  }

  predicate AllSettings(kvs: seq<text>) { forall i :: 0 <= i < |kvs| ==> EQUALS in kvs[i] }

  function PutAll(env: seq<Entry>, kvs: seq<text>): seq<Entry>
    requires AllSettings(kvs)
  {
    if kvs == [] then env
    else
      var e := Setting(kvs[|kvs| - 1]);
      Put(PutAll(env, kvs[..|kvs| - 1]), e.key, e.value)
  }

  function UpdateAll(m: map<text, text>, kvs: seq<text>): map<text, text>
    requires AllSettings(kvs)
  {
    if kvs == [] then m
    else
      var e := Setting(kvs[|kvs| - 1]);
      UpdateAll(m, kvs[..|kvs| - 1])[e.key := e.value]
  }

  function RemoveAll(env: seq<Entry>, keys: seq<text>): seq<Entry> {
    if keys == [] then env else Remove(RemoveAll(env, keys[..|keys| - 1]), keys[|keys| - 1])
  }

  /** An argument is cut at its first equals sign, and the arguments take effect from left to right. */
  lemma SettingsAre(env: seq<Entry>, m: map<text, text>, kvs: seq<text>, kv: text, i: nat)
    requires AllSettings(kvs) && i < |kv| && kv[i] == 61 && 61 !in kv[..i]
    ensures Setting(kv) == Entry(kv[..i], kv[i + 1..])
    ensures AllSettings(kvs + [kv])
    ensures PutAll(env, []) == env && PutAll(env, kvs + [kv]) == Put(PutAll(env, kvs), kv[..i], kv[i + 1..])
    ensures UpdateAll(m, []) == m && UpdateAll(m, kvs + [kv]) == UpdateAll(m, kvs)[kv[..i] := kv[i + 1..]]
  {
    hide Put, Find;
    FirstAt(kv, 61, i);
    assert kv[i] in kv;
    assert (kvs + [kv])[..|kvs|] == kvs;
  }

  lemma RemovalsAre(env: seq<Entry>, keys: seq<text>, key: text)
    ensures RemoveAll(env, []) == env && RemoveAll(env, keys + [key]) == Remove(RemoveAll(env, keys), key)
  {
    hide Remove;
    assert (keys + [key])[..|keys|] == keys;
  }

  predicate NoNul(ts: seq<text>) { forall i :: 0 <= i < |ts| ==> 0 !in ts[i] }

  lemma PutKeepsClean(env: seq<Entry>, e: Entry)
    requires Distinct(env) && Clean(env) && CleanEntry(e)
    ensures Clean(Put(env, e.key, e.value)) && Distinct(Put(env, e.key, e.value))
  {
    hide CleanEntry;
    PutShape(env, e.key, e.value);
    forall i | 0 <= i < |Put(env, e.key, e.value)|
      ensures CleanEntry(Put(env, e.key, e.value)[i])
    {
      PutAt(env, e.key, e.value, i);
    }
  }

  lemma {:induction false} PutAllUpdates(env: seq<Entry>, kvs: seq<text>)
    requires Distinct(env) && Clean(env) && AllSettings(kvs) && NoNul(kvs)
    ensures Distinct(PutAll(env, kvs)) && Clean(PutAll(env, kvs))
    ensures AsMap(PutAll(env, kvs)) == UpdateAll(AsMap(env), kvs)
  {
    hide AsMap, Put, Distinct, Clean;
    if kvs != [] {
      PutAllUpdates(env, kvs[..|kvs| - 1]);
      var before, e := PutAll(env, kvs[..|kvs| - 1]), Setting(kvs[|kvs| - 1]);
      PutUpdates(before, e.key, e.value);
      PutKeepsClean(before, e);
    }
  }

  lemma {:induction false} RemoveAllRemoves(env: seq<Entry>, keys: seq<text>)
    requires Distinct(env) && Clean(env)
    ensures Distinct(RemoveAll(env, keys)) && Clean(RemoveAll(env, keys))
    ensures AsMap(RemoveAll(env, keys)) == AsMap(env) - (set k | k in keys)
  {
    hide AsMap, Remove, Distinct, CleanEntry;
    if keys == [] {
      assert AsMap(env) - {} == AsMap(env);
    } else {
      var init, last := keys[..|keys| - 1], keys[|keys| - 1];
      RemoveAllRemoves(env, init);
      var before := RemoveAll(env, init);
      RemoveRemoves(before, last);
      forall i | 0 <= i < |Remove(before, last)|
        ensures CleanEntry(Remove(before, last)[i])
      {
        var j := RemovedFrom(before, last, i);
      }
      assert (set k | k in keys) == (set k | k in init) + {last} by {
        assert keys == init + [last];
      }
    }
  }

  /** `modify`: the block that is written parses to the updated environment, and verifies. Arguments of a process
      contain no NUL. */
  method Modify(crc: bytes -> nat, block: bytes, kvs: seq<text>) returns (r: Result<bytes>)
    requires NoNul(kvs)
    ensures r.Ok? <==> |block| == ENV_BLOCK_SIZE && kvs != [] && AllSettings(kvs) && Serialize(crc, PutAll(Parsed(block), kvs)).Ok?
    ensures r.Ok? ==> Verified(crc, r.value) && Parsed(r.value) == PutAll(Parsed(block), kvs)
    ensures r.Ok? ==> AsMap(Parsed(r.value)) == UpdateAll(AsMap(Parsed(block)), kvs)
  {
    hide Parsed, Serialize, Verified, AsMap, Put, Distinct, Clean, UpdateAll;
    if kvs == [] {
      return Err(RuntimeError);
    }
    var loaded, _ := ParseEnv(crc, block);
    var entries :- loaded;
    ParsedBlockIsClean(block);
    for i := 0 to |kvs|
      invariant AllSettings(kvs[..i]) && entries == PutAll(Parsed(block), kvs[..i])
    {
      var kv := kvs[i];
      assert kvs[..i + 1][..i] == kvs[..i];
      if EQUALS !in kv {
        return Err(RuntimeError);
      }
      var at := Find(kv, EQUALS);
      entries := Put(entries, kv[..at], kv[at + 1..]);
    }
    assert kvs[..|kvs|] == kvs;
    PutAllUpdates(Parsed(block), kvs);
    var ok, used;
    r, ok, used := Save(crc, entries);
    if r.Ok? {
      RoundTrip(crc, entries);
      SavedVerifies(crc, entries);
    }
  }

  lemma ParsedBlockIsClean(block: bytes)
    requires |block| == ENV_BLOCK_SIZE
    ensures Clean(Parsed(block)) && Distinct(Parsed(block))
  {
    ParsedIsClean(block[4..], []);
  }

  /** `delete`. */
  method Delete(crc: bytes -> nat, block: bytes, keys: seq<text>) returns (r: Result<bytes>)
    ensures r.Ok? <==> |block| == ENV_BLOCK_SIZE && keys != [] && Serialize(crc, RemoveAll(Parsed(block), keys)).Ok?
    ensures r.Ok? ==> Verified(crc, r.value) && Parsed(r.value) == RemoveAll(Parsed(block), keys)
    ensures r.Ok? ==> AsMap(Parsed(r.value)) == AsMap(Parsed(block)) - (set k | k in keys)
  {
    hide Parsed, Serialize, Verified, AsMap, Remove, Distinct, Clean;
    if keys == [] {
      return Err(RuntimeError);
    }
    var loaded, _ := ParseEnv(crc, block);
    var entries :- loaded;
    ParsedBlockIsClean(block);
    for i := 0 to |keys|
      invariant entries == RemoveAll(Parsed(block), keys[..i])
    {
      assert keys[..i + 1][..i] == keys[..i];
      entries := Remove(entries, keys[i]);
    }
    assert keys[..|keys|] == keys;
    RemoveAllRemoves(Parsed(block), keys);
    var ok, used;
    r, ok, used := Save(crc, entries);
    if r.Ok? {
      RoundTrip(crc, entries);
      SavedVerifies(crc, entries);
    }
  }
}
