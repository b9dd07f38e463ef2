/** The rotation-aware cache of RSA signing keys. */
module Jwks {
  import opened Base
  import opened Texts

  const MAX_KEY_ID_BYTES := 256
  const RSA := Str("RSA")
  const RS256 := Str("RS256")
  const SIG := Str("sig")

  /** One published key; modulus and exponent are `None` when they are not valid base64url. */
  datatype Jwk = Jwk(keyId: Text, keyType: Text, algorithm: Text, use: Text, modulus: Option<seq<byte>>, exponent: Option<seq<byte>>)

  datatype PublicKey = PublicKey(n: nat, e: nat)

  /** The unsigned big-endian value of section 6.3.1 of RFC 7518. */
  function BigEndian(bytes: seq<byte>): nat {
    if bytes == [] then 0 else 256 * BigEndian(bytes[..|bytes| - 1]) + bytes[|bytes| - 1] as nat
  }

  function BitLen(n: nat): nat {
    if n == 0 then 0 else 1 + BitLen(n / 2)
  }

  function Pow256(k: nat): nat {
    if k == 0 then 1 else 256 * Pow256(k - 1)
  }

  lemma {:induction false} BigEndianBound(bytes: seq<byte>)
    ensures BigEndian(bytes) < Pow256(|bytes|)
  {
    if bytes != [] {
      BigEndianBound(bytes[..|bytes| - 1]);
    }
  }

  lemma {:induction false} PowMonotone(a: nat, b: nat)
    requires a <= b
    ensures Pow256(a) <= Pow256(b)
  {
    if a < b { PowMonotone(a, b - 1); }
  }

  /** Big-endian reading is determined by single bytes and by concatenation. */
  lemma {:induction false} BigEndianMeaning(a: seq<byte>, b: seq<byte>)
    ensures BigEndian([]) == 0 && forall x: byte :: BigEndian([x]) == x as nat
    ensures BigEndian(a + b) == BigEndian(a) * Pow256(|b|) + BigEndian(b)
  {
    forall x: byte ensures BigEndian([x]) == x as nat { assert [x][..0] == []; }
    if b == [] {
      assert a + b == a;
    } else {
      var n := |b| - 1;
      BigEndianMeaning(a, b[..n]);
      assert (a + b)[..|a + b| - 1] == a + b[..n];
      Regroup(BigEndian(a), Pow256(n), BigEndian(b[..n]), b[n] as nat);
    }
  }

  lemma Regroup(a: int, p: int, b: int, last: int)
    ensures 256 * (a * p + b) + last == a * (256 * p) + (256 * b + last)
  {
  }

  function Pow2(k: nat): nat {
    if k == 0 then 1 else 2 * Pow2(k - 1)
  }

  /** The bit length is the number of binary digits. */
  lemma {:induction false} BitLenMeaning(n: nat)
    ensures n == 0 ==> BitLen(n) == 0
    ensures n > 0 ==> BitLen(n) > 0 && Pow2(BitLen(n) - 1) <= n < Pow2(BitLen(n))
  {
    if n > 1 {
      BitLenMeaning(n / 2);
    } else if n == 1 {
      assert BitLen(1) == 1 + BitLen(0);
    }
  }

  predicate Supported(k: Jwk) {
    && k.keyId != [] && k.keyType == RSA && k.algorithm == RS256 && k.use == SIG
    && k.modulus.Some? && k.exponent.Some? && 1 <= |k.exponent.value| <= 4
  }

  predicate Strong(n: nat, e: nat) {
    BitLen(n) >= 2048 && e >= 3 && e % 2 == 1
  }

  function KeyOf(k: Jwk): Option<PublicKey> {
    if Supported(k) && Strong(BigEndian(k.modulus.value), BigEndian(k.exponent.value))
    then Some(PublicKey(BigEndian(k.modulus.value), BigEndian(k.exponent.value)))
    else None
  }

  /** The exponent loop computes the big-endian value, which always fits 32 bits. */
  method DecodeExponent(bytes: seq<byte>) returns (exponent: nat)
    requires 1 <= |bytes| <= 4
    ensures exponent == BigEndian(bytes) < 0x1_0000_0000
  {
    exponent := 0;
    for i := 0 to |bytes|
      invariant exponent == BigEndian(bytes[..i])
    {
      assert bytes[..i + 1][..i] == bytes[..i];
      exponent := exponent * 256 + bytes[i] as nat;
    }
    assert bytes[..|bytes|] == bytes;
    BigEndianBound(bytes);
    PowMonotone(|bytes|, 4);
    assert Pow256(4) == 256 * Pow256(3) && Pow256(2) == 256 * Pow256(1);
  }

  method RSAKey(encoded: Jwk) returns (key: Option<PublicKey>)
    ensures key == KeyOf(encoded)
    ensures key.Some? <==>
      && encoded.keyId != [] && encoded.keyType == Str("RSA") && encoded.algorithm == Str("RS256") && encoded.use == Str("sig")
      && encoded.modulus.Some? && BitLen(BigEndian(encoded.modulus.value)) >= 2048
      && encoded.exponent.Some? && 1 <= |encoded.exponent.value| <= 4
      && BigEndian(encoded.exponent.value) >= 3 && BigEndian(encoded.exponent.value) % 2 == 1
    ensures key.Some? ==>
      && key.value.n == BigEndian(encoded.modulus.value)
      && key.value.e == BigEndian(encoded.exponent.value) < 0x1_0000_0000
  {
    if encoded.keyId == [] || encoded.keyType != RSA || encoded.algorithm != RS256 || encoded.use != SIG {
      return None;
    }
    if encoded.modulus.None? {
      return None;
    }
    if encoded.exponent.None? || |encoded.exponent.value| == 0 || |encoded.exponent.value| > 4 {
      return None;
    }
    var exponent := DecodeExponent(encoded.exponent.value);
    var modulus := BigEndian(encoded.modulus.value);
    if BitLen(modulus) < 2048 || exponent < 3 || exponent % 2 == 0 {
      return None;
    }
    return Some(PublicKey(modulus, exponent));
  }

  /** The endpoint's answer: a decoded document, or any transport, status, size or JSON failure. */
  datatype Response = Failure | Document(keys: seq<Jwk>)

  type Decoder = Jwk -> Option<PublicKey>

  /** A whole key set: every key usable, no key ID twice (section 5 of RFC 7517). */
  predicate Whole(keys: seq<Jwk>, decode: Decoder) {
    && (forall i :: 0 <= i < |keys| ==> decode(keys[i]).Some?)
    && forall i, j :: 0 <= i < j < |keys| ==> keys[i].keyId != keys[j].keyId
  }

  ghost predicate Holds(keys: seq<Jwk>, decode: Decoder, m: map<Text, PublicKey>) {
    && (forall i :: 0 <= i < |keys| ==> keys[i].keyId in m && decode(keys[i]) == Some(m[keys[i].keyId]))
    && (forall id :: id in m ==> exists i :: 0 <= i < |keys| && keys[i].keyId == id)
  }

  function Collect(keys: seq<Jwk>, decode: Decoder): map<Text, PublicKey> {
    if keys == [] then map[]
    else
      var last := keys[|keys| - 1];
      var rest := Collect(keys[..|keys| - 1], decode);
      if decode(last).Some? then rest[last.keyId := decode(last).value] else rest
  }

  /** The key set of a whole document holds exactly its keys under their own IDs. */
  lemma {:induction false} CollectMeaning(keys: seq<Jwk>, decode: Decoder)
    requires Whole(keys, decode)
    ensures Holds(keys, decode, Collect(keys, decode))
    ensures keys != [] ==> |Collect(keys, decode)| > 0
  {
    if keys != [] {
      var n := |keys| - 1;
      CollectMeaning(keys[..n], decode);
      HoldsOneMore(keys, decode, Collect(keys[..n], decode));
    }
  }

  lemma HoldsOneMore(keys: seq<Jwk>, decode: Decoder, m: map<Text, PublicKey>)
    requires keys != [] && Whole(keys, decode) && Holds(keys[..|keys| - 1], decode, m)
    ensures Holds(keys, decode, m[keys[|keys| - 1].keyId := decode(keys[|keys| - 1]).value])
    ensures |m[keys[|keys| - 1].keyId := decode(keys[|keys| - 1]).value]| > 0
  {
    var n := |keys| - 1;
    var m' := m[keys[n].keyId := decode(keys[n]).value];
    assert keys[n].keyId in m';
    forall i | 0 <= i < n ensures keys[i].keyId in m && decode(keys[i]) == Some(m[keys[i].keyId]) {
      assert keys[..n][i] == keys[i];
    }
    forall id | id in m ensures exists i :: 0 <= i < |keys| && keys[i].keyId == id {
      var i :| 0 <= i < n && keys[..n][i].keyId == id;
      assert keys[i].keyId == id;
    }
  }

  /** The duplicate test of the loop, on the map built so far, is the document's own. */
  lemma CollectExtends(keys: seq<Jwk>, decode: Decoder, i: nat)
    requires i < |keys| && Whole(keys[..i], decode) && decode(keys[i]).Some?
    ensures keys[i].keyId in Collect(keys[..i], decode) <==> exists k :: 0 <= k < i && keys[k].keyId == keys[i].keyId
    ensures keys[i].keyId !in Collect(keys[..i], decode) ==>
      Whole(keys[..i + 1], decode)
      && Collect(keys[..i + 1], decode) == Collect(keys[..i], decode)[keys[i].keyId := decode(keys[i]).value]
  {
    DuplicateTest(keys, decode, i);
    if keys[i].keyId !in Collect(keys[..i], decode) {
      WholeExtends(keys, decode, i);
      assert keys[..i + 1][..i] == keys[..i] && keys[..i + 1][i] == keys[i];
    }
  }

  lemma DuplicateTest(keys: seq<Jwk>, decode: Decoder, i: nat)
    requires i < |keys| && Whole(keys[..i], decode)
    ensures keys[i].keyId in Collect(keys[..i], decode) <==> exists k :: 0 <= k < i && keys[k].keyId == keys[i].keyId
  {
    var m, id := Collect(keys[..i], decode), keys[i].keyId;
    CollectMeaning(keys[..i], decode);
    if id in m {
      var k :| 0 <= k < |keys[..i]| && keys[..i][k].keyId == id;
      assert keys[k].keyId == id;
    } else {
      forall k | 0 <= k < i ensures keys[k].keyId != id {
        assert keys[..i][k].keyId in m;
      }
    }
  }

  lemma WholeExtends(keys: seq<Jwk>, decode: Decoder, i: nat)
    requires i < |keys| && Whole(keys[..i], decode) && decode(keys[i]).Some?
    requires forall k :: 0 <= k < i ==> keys[k].keyId != keys[i].keyId
    ensures Whole(keys[..i + 1], decode)
  {
  }

  predicate Usable(keys: seq<Jwk>) {
    keys != [] && Whole(keys, KeyOf)
  }

  function KeySet(keys: seq<Jwk>): map<Text, PublicKey> {
    Collect(keys, KeyOf)
  }

  datatype KeyError = UnknownSigningKey | SigningKeyUnavailable

  datatype CacheState = CacheState(keys: map<Text, PublicKey>, fetchedAt: int)

  predicate PlausibleId(keyId: Text) {
    keyId != [] && ByteLen(keyId) <= MAX_KEY_ID_BYTES
  }

  function Find(keys: map<Text, PublicKey>, keyId: Text): Result<PublicKey, KeyError> {
    if keyId in keys then Ok(keys[keyId]) else Err(UnknownSigningKey)
  }

  /** One call: `checkedAt` and `storedAt` are the two clock readings, `response` what the
      endpoint answers if it is asked. */
  datatype KeyCall = KeyCall(keyId: Text, checkedAt: int, response: Response, storedAt: int)

  predicate Hits(s: CacheState, ttl: int, call: KeyCall) {
    call.keyId in s.keys && call.checkedAt - s.fetchedAt < ttl
  }

  predicate Refreshes(s: CacheState, ttl: int, call: KeyCall) {
    PlausibleId(call.keyId) && !Hits(s, ttl, call) && call.response.Document? && Usable(call.response.keys)
  }

  function Lookup(s: CacheState, ttl: int, call: KeyCall): (CacheState, Result<PublicKey, KeyError>) {
    if !PlausibleId(call.keyId) then (s, Err(UnknownSigningKey))
    else if Hits(s, ttl, call) then (s, Ok(s.keys[call.keyId]))
    else if !Refreshes(s, ttl, call) then (s, Err(SigningKeyUnavailable))
    else (CacheState(KeySet(call.response.keys), call.storedAt), Find(KeySet(call.response.keys), call.keyId))
  }

  class JWKSCache {
    const ttl: int
    var keys: map<Text, PublicKey>
    var fetchedAt: int

    ghost function State(): CacheState reads this {
      CacheState(keys, fetchedAt)
    }

    constructor (ttl: int)
      ensures this.ttl == ttl && keys == map[]
    {
      this.ttl := ttl;
      keys, fetchedAt := map[], 0;
    }

    method Key(call: KeyCall) returns (result: Result<PublicKey, KeyError>)
      modifies this
      ensures (State(), result) == Lookup(old(State()), ttl, call)
      ensures call.keyId == [] || ByteLen(call.keyId) > 256 ==> result == Err(UnknownSigningKey) && State() == old(State())
      ensures call.keyId != [] && ByteLen(call.keyId) <= 256
              && call.keyId in old(keys) && call.checkedAt - old(fetchedAt) < ttl ==>
        result == Ok(old(keys)[call.keyId]) && State() == old(State())
    {
      if call.keyId == [] || ByteLen(call.keyId) > MAX_KEY_ID_BYTES {
        return Err(UnknownSigningKey);
      }
      if call.keyId in keys && call.checkedAt - fetchedAt < ttl {
        return Ok(keys[call.keyId]);
      }
      var ok := Refresh(call.response, call.storedAt);
      if !ok {
        return Err(SigningKeyUnavailable);
      }
      if call.keyId !in keys {
        return Err(UnknownSigningKey);
      }
      return Ok(keys[call.keyId]);
    }

    /** Builds the whole new key map before it replaces the old one. */
    method Refresh(response: Response, now: int) returns (ok: bool)
      modifies this
      ensures ok <==> response.Document? && Usable(response.keys)
      ensures State() == if ok then CacheState(KeySet(response.keys), now) else old(State())
    {
      if response.Failure? {
        return false;
      }
      var built := BuildKeySet(response.keys);
      if built.None? || |built.value| == 0 {
        return false;
      }
      keys := built.value;
      fetchedAt := now;
      return true;
    }
  }

  /** The decoding loop: fails at the first unusable key or repeated key ID. */
  method BuildKeySet(document: seq<Jwk>) returns (built: Option<map<Text, PublicKey>>)
    ensures built.Some? && |built.value| > 0 <==> Usable(document)
    ensures Usable(document) ==> built.value == KeySet(document)
  {
    var keys: map<Text, PublicKey> := map[];
    for i := 0 to |document|
      invariant keys == KeySet(document[..i]) && Whole(document[..i], KeyOf)
    {
      var key := RSAKey(document[i]);
      if key.None? {
        return None;
      }
      CollectExtends(document, KeyOf, i);
      if document[i].keyId in keys {
        return None;
      }
      keys := keys[document[i].keyId := key.value];
    }
    assert document[..|document|] == document;
    CollectMeaning(document, KeyOf);
    return Some(keys);
  }

  function StateAfter(ttl: int, calls: seq<KeyCall>): CacheState {
    if calls == [] then CacheState(map[], 0)
    else Lookup(StateAfter(ttl, calls[..|calls| - 1]), ttl, calls[|calls| - 1]).0
  }

  /** The answer to call `n` of a run that starts with an empty cache. */
  function Answer(ttl: int, calls: seq<KeyCall>, n: nat): Result<PublicKey, KeyError>
    requires n < |calls|
  {
    Lookup(StateAfter(ttl, calls[..n]), ttl, calls[n]).1
  }

  /** Call `m` replaced the cache. */
  predicate RefreshedAt(ttl: int, calls: seq<KeyCall>, m: nat)
    requires m < |calls|
  {
    Refreshes(StateAfter(ttl, calls[..m]), ttl, calls[m])
  }

  ghost predicate ClockAscends(calls: seq<KeyCall>) {
    && (forall n :: 0 <= n < |calls| ==> calls[n].checkedAt <= calls[n].storedAt)
    && forall n, m :: 0 <= n < m < |calls| ==> calls[n].storedAt <= calls[m].checkedAt
  }

  /** The cache is empty, or it is one document's whole key set: that of the last refresh. */
  lemma {:induction false} CacheIsLastRefresh(ttl: int, calls: seq<KeyCall>)
    ensures var s := StateAfter(ttl, calls);
      || (s == CacheState(map[], 0) && forall m :: 0 <= m < |calls| ==> !RefreshedAt(ttl, calls, m))
      || exists m :: LastRefresh(ttl, calls, m)
  {
    if calls != [] {
      var n := |calls| - 1;
      CacheIsLastRefresh(ttl, calls[..n]);
      forall k | 0 <= k < n ensures RefreshedAt(ttl, calls, k) <==> RefreshedAt(ttl, calls[..n], k) {
        assert calls[..n][..k] == calls[..k];
      }
      if RefreshedAt(ttl, calls, n) {
        assert LastRefresh(ttl, calls, n);
      } else if m :| LastRefresh(ttl, calls[..n], m) {
        assert LastRefresh(ttl, calls, m);
      }
    }
  }

  ghost predicate LastRefresh(ttl: int, calls: seq<KeyCall>, m: int) {
    && 0 <= m < |calls| && RefreshedAt(ttl, calls, m)
    && (forall k :: m < k < |calls| ==> !RefreshedAt(ttl, calls, k))
    && StateAfter(ttl, calls) == CacheState(KeySet(calls[m].response.keys), calls[m].storedAt)
  }

  /** Provenance: a returned key comes from one whole, duplicate-free key set that was fetched
      in this very call or, as the clock ascends, at some earlier moment less than `ttl` ago,
      and that no later call has replaced. */
  lemma KeysHaveOneFreshSource(ttl: int, calls: seq<KeyCall>, n: nat)
    requires ClockAscends(calls) && n < |calls| && Answer(ttl, calls, n).Ok?
    ensures exists m :: 0 <= m <= n && SourceOf(ttl, calls, n, m)
  {
    CacheIsLastRefresh(ttl, calls[..n]);
    var s := StateAfter(ttl, calls[..n]);
    if Hits(s, ttl, calls[n]) {
      var m :| LastRefresh(ttl, calls[..n], m);
      assert calls[..n][..m] == calls[..m] && calls[..n][m] == calls[m];
      forall k | m < k < n ensures !RefreshedAt(ttl, calls, k) {
        assert calls[..n][..k] == calls[..k];
        assert !RefreshedAt(ttl, calls[..n], k);
      }
      CollectMeaning(calls[m].response.keys, KeyOf);
      assert SourceOf(ttl, calls, n, m);
    } else {
      CollectMeaning(calls[n].response.keys, KeyOf);
      assert SourceOf(ttl, calls, n, n);
    }
  }

  ghost predicate SourceOf(ttl: int, calls: seq<KeyCall>, n: nat, m: nat)
    requires m <= n < |calls| && Answer(ttl, calls, n).Ok?
  {
    && RefreshedAt(ttl, calls, m)
    && Usable(calls[m].response.keys)
    && (forall k :: m < k < n ==> !RefreshedAt(ttl, calls, k))
    && (exists i :: 0 <= i < |calls[m].response.keys| && calls[m].response.keys[i].keyId == calls[n].keyId
                    && KeyOf(calls[m].response.keys[i]) == Some(Answer(ttl, calls, n).value))
    && (m == n || 0 <= calls[n].checkedAt - calls[m].storedAt < ttl)
  }

  /** Fail closed and keep: a call that reports the endpoint unavailable changes nothing. */
  lemma FailedRefreshKeepsCache(s: CacheState, ttl: int, call: KeyCall)
    requires Lookup(s, ttl, call).1 == Err(SigningKeyUnavailable)
    ensures Lookup(s, ttl, call).0 == s && !Refreshes(s, ttl, call)
    ensures !Hits(s, ttl, call) && (call.response.Document? ==> !Usable(call.response.keys))
  {
  }

  /** Keys and fetch time move together and only by refreshes: between two refreshes, whatever
      hits, misses and failures there are, the whole cache stays what it was. */
  lemma {:induction false} OnlyRefreshesMoveTheCache(ttl: int, calls: seq<KeyCall>, q: nat, n: nat)
    requires q <= n <= |calls|
    requires forall k :: q <= k < n ==> !RefreshedAt(ttl, calls, k)
    ensures StateAfter(ttl, calls[..n]) == StateAfter(ttl, calls[..q])
    decreases n
  {
    if q < n {
      OnlyRefreshesMoveTheCache(ttl, calls, q, n - 1);
      assert calls[..n][..n - 1] == calls[..n - 1] && !RefreshedAt(ttl, calls, n - 1);
    }
  }

  /** What a cache-free verifier would answer by fetching the document every time. */
  function FetchEveryTime(document: seq<Jwk>, keyId: Text): Result<PublicKey, KeyError> {
    if !PlausibleId(keyId) then Err(UnknownSigningKey)
    else if !Usable(document) then Err(SigningKeyUnavailable)
    else Find(KeySet(document), keyId)
  }

  /** The cache holds nothing, or exactly the document's own keys. */
  predicate InStep(s: CacheState, document: seq<Jwk>) {
    s.keys == map[] || (Usable(document) && s.keys == KeySet(document))
  }

  /** From call `q` on the endpoint serves one document. */
  ghost predicate ServesFrom(calls: seq<KeyCall>, q: nat, document: seq<Jwk>) {
    forall n :: q <= n < |calls| ==> calls[n].response == Document(document)
  }

  lemma {:induction false} StaysInStep(ttl: int, calls: seq<KeyCall>, document: seq<Jwk>, q: nat, n: nat)
    requires q <= n <= |calls| && ServesFrom(calls, q, document) && InStep(StateAfter(ttl, calls[..q]), document)
    ensures InStep(StateAfter(ttl, calls[..n]), document)
    decreases n
  {
    if q < n {
      StaysInStep(ttl, calls, document, q, n - 1);
      assert calls[..n][..n - 1] == calls[..n - 1];
    }
  }

  /** Agreement: once the cache is empty or holds the document's own keys, caching is
      unobservable for as long as the endpoint serves that document. */
  lemma {:induction false} CacheAgreesWithFetching(ttl: int, calls: seq<KeyCall>, document: seq<Jwk>, q: nat, n: nat)
    requires q <= n < |calls| && ServesFrom(calls, q, document) && InStep(StateAfter(ttl, calls[..q]), document)
    ensures Answer(ttl, calls, n) == FetchEveryTime(document, calls[n].keyId)
  {
    StaysInStep(ttl, calls, document, q, n);
  }

  /** That holds from the first refresh under the document, whatever was cached before. */
  lemma AgreesAfterRefresh(ttl: int, calls: seq<KeyCall>, document: seq<Jwk>, q: nat, n: nat)
    requires q < n < |calls| && ServesFrom(calls, q, document) && RefreshedAt(ttl, calls, q)
    ensures Answer(ttl, calls, q) == FetchEveryTime(document, calls[q].keyId)
    ensures Answer(ttl, calls, n) == FetchEveryTime(document, calls[n].keyId)
  {
    assert calls[..q + 1][..q] == calls[..q];
    CacheAgreesWithFetching(ttl, calls, document, q + 1, n);
  }

  /** Exactly when one answer agrees: unless it is served from the cache, or the cached key is
      the document's own. */
  lemma AgreementCondition(s: CacheState, ttl: int, call: KeyCall, document: seq<Jwk>)
    requires call.response == Document(document)
    ensures Lookup(s, ttl, call).1 == FetchEveryTime(document, call.keyId) <==>
      (PlausibleId(call.keyId) && Hits(s, ttl, call) ==>
         Usable(document) && call.keyId in KeySet(document) && KeySet(document)[call.keyId] == s.keys[call.keyId])
  {
  }

  function Zeros(k: nat): seq<byte> {
    if k == 0 then [] else Zeros(k - 1) + [0]
  }

  lemma {:induction false} ZerosShift(k: nat)
    ensures BigEndian([128] + Zeros(k)) > 0 && BitLen(BigEndian([128] + Zeros(k))) == 8 * (k + 1)
  {
    if k == 0 {
      assert [128 as byte] + Zeros(0) == [128] && BigEndian([]) == 0;
      assert BigEndian([128]) == 128 by { assert [128 as byte][..0] == []; }
      ByteShift(1);
      DoubleBits(128);
    } else {
      ZerosShift(k - 1);
      var t: seq<byte> := [128] + Zeros(k);
      assert t[..|t| - 1] == [128] + Zeros(k - 1) && t[|t| - 1] == 0;
      ByteShift(BigEndian([128] + Zeros(k - 1)));
    }
  }

  lemma {:induction false} DoubleBits(n: nat)
    requires n > 0
    ensures BitLen(2 * n) == 1 + BitLen(n)
  {
  }

  lemma {:induction false} FourBits(n: nat)
    requires n > 0
    ensures BitLen(16 * n) == 4 + BitLen(n)
  {
    var twice := 2 * n;
    var fourfold := 2 * twice;
    var eightfold := 2 * fourfold;
    DoubleBits(n);
    DoubleBits(twice);
    DoubleBits(fourfold);
    DoubleBits(eightfold);
    assert 16 * n == 2 * eightfold;
  }

  lemma {:induction false} ByteShift(n: nat)
    requires n > 0
    ensures BitLen(256 * n) == 8 + BitLen(n)
  {
    FourBits(n);
    FourBits(16 * n);
    assert 256 * n == 16 * (16 * n);
  }

  /** A published key: modulus 2^2047, exponent 3. */
  function SampleKey(keyId: Text): Jwk {
    Jwk(keyId, RSA, RS256, SIG, Some([128] + Zeros(255)), Some([3]))
  }

  /** A withdrawn key is still answered from the cache within `ttl`, although a verifier that
      fetches every time would report the new document unusable. */
  lemma WithdrawnKeyIsStillAnswered(ttl: int)
    requires ttl > 0
    ensures var k := Str("k");
      var calls := [KeyCall(k, 0, Document([SampleKey(k)]), 0), KeyCall(k, 0, Document([]), 0)];
      Answer(ttl, calls, 1).Ok? && FetchEveryTime([], k) == Err(SigningKeyUnavailable)
  {
    var k := Str("k");
    var document := [SampleKey(k)];
    var calls := [KeyCall(k, 0, Document(document), 0), KeyCall(k, 0, Document([]), 0)];
    ZerosShift(255);
    assert BigEndian([3]) == 3 by { assert [3 as byte][..0] == []; }
    ByteLenBounds(k);
    assert KeyOf(document[0]).Some?;
    CollectMeaning(document, KeyOf);
    assert k == document[0].keyId && k in KeySet(document);
    assert calls[..1] == [calls[0]] && calls[..1][..0] == [] == calls[..0];
    assert StateAfter(ttl, calls[..1]) == CacheState(KeySet(document), 0);
  }
}
