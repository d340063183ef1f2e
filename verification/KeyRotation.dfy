/** Key rotation and hybrid envelopes.  The primitives (RSA, AES-GCM, Base64, UTF-8) are parameters;
  what is used of them is stated in `Lawful`.  Generated keys and randomness are arguments. */
module KeyRotation {
  import opened Numerals
  import opened Wrappers

  type Byte = n: int | 0 <= n < 256
  type Bytes = seq<Byte>

  const MASTER := "master_key_001"
  const AES_KEY_SIZE := 32
  const RSA_BLOCK := 512

  datatype Crypto = Crypto(
    publicOf: string -> string,                        // the public key of a private key
    rsaEncrypt: (Bytes, string, Bytes) -> Bytes,       // plaintext, public key, padding randomness
    rsaDecrypt: (Bytes, string) -> Option<Bytes>,      // ciphertext, private key
    aesEncrypt: (Bytes, Bytes, Bytes) -> Bytes,        // plaintext, key, iv
    aesTag: (Bytes, Bytes, Bytes) -> Bytes,
    aesDecrypt: (Bytes, Bytes, Bytes, Option<Bytes>) -> Option<Bytes>,  // ciphertext, key, iv, tag
    toBase64: Bytes -> string,
    fromBase64: string -> Bytes,
    toUtf8: string -> Bytes,
    fromUtf8: Bytes -> string)

  /** Decryption inverts encryption under the matching key; an RSA block of a 4096-bit key has 512
      bytes; a tag is not empty; the encodings can be undone. */
  ghost predicate Lawful(c: Crypto)
  {
    && (forall m, private, pad :: |m| == AES_KEY_SIZE ==>
          && |c.rsaEncrypt(m, c.publicOf(private), pad)| == RSA_BLOCK
          && c.rsaDecrypt(c.rsaEncrypt(m, c.publicOf(private), pad), private) == Some(m))
    && (forall m, key, iv ::
          c.aesDecrypt(c.aesEncrypt(m, key, iv), key, iv, Some(c.aesTag(m, key, iv))) == Some(m))
    && (forall m, key, iv :: c.toBase64(c.aesTag(m, key, iv)) != "")
    && (forall private :: c.publicOf(private) != "")
    && (forall b :: c.fromBase64(c.toBase64(b)) == b)
    && (forall s :: c.fromUtf8(c.toUtf8(s)) == s)
  }

  datatype KeyStatus = Active | Rotated | Revoked

  datatype EncryptionKey = EncryptionKey(
    keyId: string,
    keyType: string,
    algorithm: string,
    publicKey: Option<string>,
    version: nat,
    status: KeyStatus)

  datatype Envelope = Envelope(data: string, keyId: string, algorithm: string, iv: string, tag: Option<string>)

  datatype State = State(keys: map<string, EncryptionKey>, privateKeys: map<string, string>)

  datatype Event = Rotate(keyId: string, private: string) | Revoke(keyId: string)

  function NewKeyId(keyId: string, version: nat): string
  {
    keyId + "_v" + Decimal(version + 1)
  }

  function Init(c: Crypto, private: string): State
  {
    State(map[MASTER := EncryptionKey(MASTER, "master", "RSA-4096", Some(c.publicOf(private)), 1, Active)],
          map[MASTER := private])
  }

  /** Rotating or revoking a key that does not exist is refused and changes nothing. */
  function Step(c: Crypto, s: State, e: Event): State
  {
    if e.keyId !in s.keys then s
    else
      var current := s.keys[e.keyId];
      match e
      case Rotate(keyId, private) =>
        var id := NewKeyId(keyId, current.version);
        State(s.keys[keyId := current.(status := Rotated)]
                    [id := EncryptionKey(id, current.keyType, current.algorithm, Some(c.publicOf(private)),
                                         current.version + 1, Active)],
              s.privateKeys[id := private])
      case Revoke(keyId) => s.(keys := s.keys[keyId := current.(status := Revoked)])
  }

  function Run(c: Crypto, first: string, events: seq<Event>): State
  {
    if events == [] then Init(c, first)
    else Step(c, Run(c, first, events[..|events| - 1]), events[|events| - 1])
  }

  /** Nothing when there is no such key or it has no public part. */
  function Encrypt(c: Crypto, s: State, text: string, keyId: string, aesKey: Bytes, iv: Bytes, pad: Bytes)
    : Option<Envelope>
  {
    if keyId !in s.keys || s.keys[keyId].publicKey.None? || s.keys[keyId].publicKey.value == "" then None
    else
      var plain := c.toUtf8(text);
      var wrapped := c.rsaEncrypt(aesKey, s.keys[keyId].publicKey.value, pad);
      Some(Envelope(c.toBase64(wrapped + c.aesEncrypt(plain, aesKey, iv)), keyId, "AES-256-GCM",
                    c.toBase64(iv), Some(c.toBase64(c.aesTag(plain, aesKey, iv)))))
  }

  /** Splits the block after 512 bytes; nothing when the private key is missing or a step fails. */
  function Decrypt(c: Crypto, s: State, e: Envelope, keyId: string): Option<string>
  {
    if keyId !in s.privateKeys then None
    else
      var combined := c.fromBase64(e.data);
      var split := if |combined| < RSA_BLOCK then |combined| else RSA_BLOCK;
      var tag := if e.tag.Some? && e.tag.value != "" then Some(c.fromBase64(e.tag.value)) else None;
      match c.rsaDecrypt(combined[..split], s.privateKeys[keyId])
      case None => None
      case Some(aesKey) =>
        match c.aesDecrypt(combined[split..], aesKey, c.fromBase64(e.iv), tag)
        case None => None
        case Some(plain) => Some(c.fromUtf8(plain))
  }

  class EncryptionService {
    const crypto: Crypto
    var keys: map<string, EncryptionKey>
    var privateKeys: map<string, string>

    ghost function View(): State
      reads this
    {
      State(keys, privateKeys)
    }

    constructor (crypto: Crypto, private: string)
      ensures this.crypto == crypto && View() == Init(crypto, private)
    {
      this.crypto := crypto;
      var masterKey := EncryptionKey(MASTER, "master", "RSA-4096", Some(crypto.publicOf(private)), 1, Active);
      keys := map[masterKey.keyId := masterKey];
      privateKeys := map[masterKey.keyId := private];
    }

    method RotateKey(keyId: string, private: string) returns (created: Option<EncryptionKey>)
      modifies this
      ensures View() == Step(crypto, old(View()), Rotate(keyId, private))
      ensures created.Some? <==> keyId in old(keys)
      ensures created.Some? ==> created.value.keyId in keys && keys[created.value.keyId] == created.value
    {
      if keyId !in keys { return None; }
      var oldKey := keys[keyId];
      var newKeyId := keyId + "_v" + Decimal(oldKey.version + 1);
      var newKey := EncryptionKey(newKeyId, oldKey.keyType, oldKey.algorithm,
                                  Some(crypto.publicOf(private)), oldKey.version + 1, Active);
      keys := keys[keyId := oldKey.(status := Rotated)];
      keys := keys[newKeyId := newKey];
      privateKeys := privateKeys[newKeyId := private];
      return Some(newKey);
    }

    method RevokeKey(keyId: string) returns (found: bool)
      modifies this`keys
      ensures View() == Step(crypto, old(View()), Revoke(keyId)) && found == (keyId in old(keys))
    {
      if keyId !in keys { return false; }
      keys := keys[keyId := keys[keyId].(status := Revoked)];
      return true;
    }
  }

  // ---------------------------------------------------------------------------------------------
  // The chain of keys
  // ---------------------------------------------------------------------------------------------

  /** The id of version `i`. */
  function KeyName(i: nat): string
    requires i >= 1
  {
    if i == 1 then MASTER else NewKeyId(KeyName(i - 1), i - 1)
  }

  lemma NextName(i: nat)
    requires i >= 1
    ensures KeyName(i + 1) == NewKeyId(KeyName(i), i)
  {
  }

  lemma {:induction false} NamesGrow(i: nat, j: nat)
    requires 1 <= i < j
    ensures |KeyName(i)| < |KeyName(j)|
    decreases j
  {
    if i == j - 1 {
    } else {
      NamesGrow(i, j - 1);
    }
  }

  function Names(n: nat): set<string>
  {
    if n == 0 then {} else Names(n - 1) + {KeyName(n)}
  }

  lemma {:induction false} NamesUpTo(n: nat, i: nat)
    requires i >= 1
    ensures KeyName(i) in Names(n) <==> i <= n
  {
    if n == 0 {
    } else {
      NamesUpTo(n - 1, i);
      if i < n { NamesGrow(i, n); }
      if n < i { NamesGrow(n, i); }
    }
  }

  lemma {:induction false} NameAt(n: nat, id: string) returns (i: nat)
    requires id in Names(n)
    ensures 1 <= i <= n && id == KeyName(i)
  {
    if id == KeyName(n) { i := n; } else { i := NameAt(n - 1, id); }
  }

  /** The keys are the versions one to `n`, each with its own number and a matching key pair. */
  ghost predicate Chain(c: Crypto, s: State, n: nat)
  {
    && n >= 1 && s.keys.Keys == s.privateKeys.Keys == Names(n)
    && (forall i: nat :: 1 <= i <= n ==> IsVersion(c, s, i))
  }

  ghost predicate IsVersion(c: Crypto, s: State, i: nat)
    requires i >= 1
  {
    && KeyName(i) in s.keys && KeyName(i) in s.privateKeys
    && s.keys[KeyName(i)].keyId == KeyName(i) && s.keys[KeyName(i)].version == i
    && s.keys[KeyName(i)].publicKey == Some(c.publicOf(s.privateKeys[KeyName(i)]))
  }

  /** Successful rotations of a key in a run. */
  function Rotations(c: Crypto, first: string, events: seq<Event>, id: string): nat
  {
    if events == [] then 0
    else
      var init, e := events[..|events| - 1], events[|events| - 1];
      Rotations(c, first, init, id) + if e.Rotate? && e.keyId == id && id in Run(c, first, init).keys then 1 else 0
  }

  /** A step on version `i` leaves the other versions alone; a rotation makes version `i + 1`. */
  lemma StepKeepsVersion(c: Crypto, s: State, e: Event, i: nat, k: nat)
    requires i >= 1 && k >= 1 && e.keyId == KeyName(i) && IsVersion(c, s, i)
    requires (e.Rotate? && k == i + 1) || IsVersion(c, s, k)
    ensures IsVersion(c, Step(c, s, e), k)
  {
    DistinctNames(k, i + 1);
    DistinctNames(k, i);
    DistinctNames(i, i + 1);
  }

  lemma StepKeys(c: Crypto, s: State, e: Event, i: nat)
    requires i >= 1 && e.keyId == KeyName(i) && IsVersion(c, s, i)
    ensures var made := if e.Rotate? then {KeyName(i + 1)} else {};
            && Step(c, s, e).keys.Keys == s.keys.Keys + made
            && Step(c, s, e).privateKeys.Keys == s.privateKeys.Keys + made
  {
  }

  lemma NamesWith(n: nat, i: nat)
    requires 1 <= i <= n
    ensures Names(n) + {KeyName(i + 1)} == Names(if i == n then n + 1 else n)
  {
    if i < n { NamesUpTo(n, i + 1); }
  }

  lemma StepKeepsChain(c: Crypto, s: State, e: Event, n: nat) returns (m: nat)
    requires Chain(c, s, n)
    ensures Chain(c, Step(c, s, e), m)
    ensures m == if e.Rotate? && e.keyId == KeyName(n) then n + 1 else n
  {
    m := if e.Rotate? && e.keyId == KeyName(n) then n + 1 else n;
    NamesUpTo(n, n);
    if e.keyId in s.keys {
      var i := NameAt(n, e.keyId);
      DistinctNames(i, n);
      StepKeys(c, s, e, i);
      NamesWith(n, i);
      forall k: nat | 1 <= k <= m ensures IsVersion(c, Step(c, s, e), k) {
        StepKeepsVersion(c, s, e, i, k);
      }
    }
  }

  lemma DistinctNames(i: nat, j: nat)
    requires i >= 1 && j >= 1
    ensures KeyName(i) == KeyName(j) <==> i == j
  {
    if i < j { NamesGrow(i, j); }
    if j < i { NamesGrow(j, i); }
  }

  /** In every run, however often keys are rotated, the keys form one chain of consecutive versions,
      as long as the first key that was never rotated. */
  lemma {:induction false} KeysFormChain(c: Crypto, first: string, events: seq<Event>) returns (n: nat)
    ensures Chain(c, Run(c, first, events), n)
    ensures forall i: nat :: 1 <= i <= n ==> (Rotations(c, first, events, KeyName(i)) > 0 <==> i < n)
    ensures forall i: nat :: i > n ==> Rotations(c, first, events, KeyName(i)) == 0
  {
    if events == [] {
      n := 1;
      assert Names(1) == Names(0) + {MASTER} == {MASTER};
    } else {
      var init, e := events[..|events| - 1], events[|events| - 1];
      var before := KeysFormChain(c, first, init);
      n := StepKeepsChain(c, Run(c, first, init), e, before);
      forall i: nat | i >= 1
        ensures Rotations(c, first, events, KeyName(i)) > 0 <==>
                Rotations(c, first, init, KeyName(i)) > 0 || (e.Rotate? && e.keyId == KeyName(i) && i <= before)
      {
        NamesUpTo(before, i);
      }
      forall i: nat | i >= 1 ensures KeyName(i) == KeyName(before) <==> i == before { DistinctNames(i, before); }
    }
  }

  /** Only the last key of the chain was never rotated. */
  lemma LastUnrotatedExactly(c: Crypto, first: string, events: seq<Event>, keyId: string) returns (n: nat)
    requires keyId in Run(c, first, events).keys
    ensures Chain(c, Run(c, first, events), n)
    ensures Rotations(c, first, events, keyId) == 0 <==> keyId == KeyName(n)
  {
    n := KeysFormChain(c, first, events);
    var i := NameAt(n, keyId);
    DistinctNames(i, n);
    assert Rotations(c, first, events, KeyName(i)) > 0 <==> i < n;
  }

  /** Rotating a key makes a new id, with the next version number, exactly when that key was never
      rotated before; otherwise it replaces the key pair of the id it made then. */
  lemma RotationIsFreshExactly(c: Crypto, first: string, events: seq<Event>, keyId: string)
    requires keyId in Run(c, first, events).keys
    ensures var s := Run(c, first, events);
            NewKeyId(keyId, s.keys[keyId].version) !in s.keys <==> Rotations(c, first, events, keyId) == 0
  {
    var n := LastUnrotatedExactly(c, first, events, keyId);
    FreshNextExactly(c, Run(c, first, events), n, keyId);
  }

  lemma FreshNextExactly(c: Crypto, s: State, n: nat, keyId: string)
    requires Chain(c, s, n) && keyId in s.keys
    ensures NewKeyId(keyId, s.keys[keyId].version) !in s.keys <==> keyId == KeyName(n)
  {
    var i := NameAt(n, keyId);
    assert IsVersion(c, s, i);
    NextName(i);
    NamesUpTo(n, i + 1);
    DistinctNames(i, n);
  }

  // ---------------------------------------------------------------------------------------------
  // Envelopes
  // ---------------------------------------------------------------------------------------------

  /** An envelope opens with the private key that belongs to the public key it was made under. */
  lemma EnvelopeOpens(c: Crypto, s: State, t: State, text: string, keyId: string, aesKey: Bytes, iv: Bytes, pad: Bytes)
    requires Lawful(c) && |aesKey| == AES_KEY_SIZE
    requires keyId in s.keys && keyId in s.privateKeys
    requires s.keys[keyId].publicKey == Some(c.publicOf(s.privateKeys[keyId]))
    requires keyId in t.privateKeys && t.privateKeys[keyId] == s.privateKeys[keyId]
    ensures var e := Encrypt(c, s, text, keyId, aesKey, iv, pad);
            e.Some? && Decrypt(c, t, e.value, keyId) == Some(text)
  {
  }

  ghost predicate RotatedAtMostOnce(c: Crypto, first: string, events: seq<Event>)
  {
    forall id :: Rotations(c, first, events, id) <= 1
  }

  /** The key that version `k` was made from has been rotated again after the first `i` events. */
  predicate Replaced(c: Crypto, first: string, events: seq<Event>, i: nat, k: nat)
    requires i <= |events|
  {
    k > 1 && Rotations(c, first, events, KeyName(k - 1)) > Rotations(c, first, events[..i], KeyName(k - 1))
  }

  lemma RotationBrings(c: Crypto, s: State, v: nat, private: string)
    requires v >= 1 && IsVersion(c, s, v)
    ensures Step(c, s, Rotate(KeyName(v), private)).privateKeys == s.privateKeys[KeyName(v + 1) := private]
  {
    NextName(v);
  }

  /** Only rotating the key before it replaces the private key of a version. */
  lemma StepKeepsPrivateKey(c: Crypto, s: State, e: Event, n: nat, k: nat)
    requires Chain(c, s, n) && 1 <= k <= n && KeyName(k) in s.privateKeys
    ensures KeyName(k) in Step(c, s, e).privateKeys
    ensures Step(c, s, e).privateKeys[KeyName(k)] ==
            if k > 1 && e.Rotate? && e.keyId == KeyName(k - 1) then e.private else s.privateKeys[KeyName(k)]
  {
    if e.Rotate? && e.keyId in s.keys {
      var v := NameAt(n, e.keyId);
      assert IsVersion(c, s, v);
      RotationBrings(c, s, v, e.private);
      DistinctNames(v + 1, k);
      if k > 1 { DistinctNames(v, k - 1); }
    } else if k > 1 {
      NamesUpTo(n, k - 1);
    }
  }

  /** One more event: either it rotates the key before version `k` and brings the private key of
      version `k`, or both stay. */
  lemma OneMoreEvent(c: Crypto, first: string, init: seq<Event>, e: Event, k: nat) returns (rotated: bool)
    requires k >= 1 && KeyName(k) in Run(c, first, init).privateKeys
    ensures rotated ==> k > 1 && e.Rotate?
    ensures KeyName(k) in Run(c, first, init + [e]).privateKeys
    ensures Run(c, first, init + [e]).privateKeys[KeyName(k)] ==
            if rotated then e.private else Run(c, first, init).privateKeys[KeyName(k)]
    ensures k > 1 ==> Rotations(c, first, init + [e], KeyName(k - 1)) ==
                      Rotations(c, first, init, KeyName(k - 1)) + if rotated then 1 else 0
  {
    assert (init + [e])[..|init|] == init;
    var n := KeysFormChain(c, first, init);
    NamesUpTo(n, k);
    StepKeepsPrivateKey(c, Run(c, first, init), e, n, k);
    rotated := k > 1 && e.Rotate? && e.keyId == KeyName(k - 1);
    if k > 1 { NamesUpTo(n, k - 1); }
  }

  /** `key` is the first private key (`j` is zero) or the one brought by the `j`-th event. */
  predicate Generated(first: string, events: seq<Event>, j: nat, key: string)
  {
    if j == 0 then key == first else j <= |events| && events[j - 1].Rotate? && events[j - 1].private == key
  }

  /** The private key of version `k` is at the end what it was after `i` events, or, if replaced, what
      the `j`-th event, a later one, brought. */
  ghost predicate Stayed(c: Crypto, first: string, events: seq<Event>, i: nat, k: nat, j: nat)
    requires k >= 1 && i <= |events| && KeyName(k) in Run(c, first, events[..i]).privateKeys
  {
    && KeyName(k) in Run(c, first, events).privateKeys
    && (if Replaced(c, first, events, i, k)
        then j > i && Generated(first, events, j, Run(c, first, events).privateKeys[KeyName(k)])
        else Run(c, first, events).privateKeys[KeyName(k)] == Run(c, first, events[..i]).privateKeys[KeyName(k)])
    && (k > 1 ==> Rotations(c, first, events[..i], KeyName(k - 1)) <= Rotations(c, first, events, KeyName(k - 1)))
  }

  lemma StayedOneMore(c: Crypto, first: string, init: seq<Event>, e: Event, i: nat, k: nat, j: nat) returns (h: nat)
    requires k >= 1 && i <= |init| && KeyName(k) in Run(c, first, init[..i]).privateKeys
    requires Stayed(c, first, init, i, k, j)
    ensures (init + [e])[..i] == init[..i] && Stayed(c, first, init + [e], i, k, h)
  {
    assert (init + [e])[..i] == init[..i];
    var rotated := OneMoreEvent(c, first, init, e, k);
    h := if rotated then |init| + 1 else j;
    assert forall key :: Generated(first, init, j, key) ==> Generated(first, init + [e], j, key);
  }

  /** The private key of version `k` stays as it is, or its pair was replaced by a later rotation. */
  lemma {:induction false} PrivateKeyStays(c: Crypto, first: string, events: seq<Event>, i: nat, k: nat)
    returns (j: nat)
    requires k >= 1 && i <= |events| && KeyName(k) in Run(c, first, events[..i]).privateKeys
    ensures Stayed(c, first, events, i, k, j)
    decreases |events|
  {
    if i == |events| {
      assert events[..i] == events;
      j := 0;
    } else {
      var init, e := events[..|events| - 1], events[|events| - 1];
      assert init[..i] == events[..i] && events == init + [e];
      j := PrivateKeyStays(c, first, init, i, k);
      j := StayedOneMore(c, first, init, e, i, k, j);
    }
  }

  /** Along any run in which no key is rotated twice, whatever is rotated or revoked later, every
      envelope still opens under its own key id and gives back the text. */
  lemma EnvelopesStayReadable(c: Crypto, first: string, events: seq<Event>, i: nat,
                              text: string, keyId: string, aesKey: Bytes, iv: Bytes, pad: Bytes)
    requires Lawful(c) && |aesKey| == AES_KEY_SIZE && RotatedAtMostOnce(c, first, events)
    requires i <= |events| && keyId in Run(c, first, events[..i]).keys
    ensures var e := Encrypt(c, Run(c, first, events[..i]), text, keyId, aesKey, iv, pad);
            e.Some? && Decrypt(c, Run(c, first, events), e.value, keyId) == Some(text)
  {
    var n := KeysFormChain(c, first, events[..i]);
    var k := NameAt(n, keyId);
    assert IsVersion(c, Run(c, first, events[..i]), k);
    var _ := PrivateKeyStays(c, first, events, i, k);
    if k > 1 { assert Rotations(c, first, events[..i], KeyName(k - 1)) > 0; }
    EnvelopeOpens(c, Run(c, first, events[..i]), Run(c, first, events), text, keyId, aesKey, iv, pad);
  }

  /** A block made for one generated key pair does not open with the private key of another. */
  ghost predicate Separating(c: Crypto, first: string, events: seq<Event>)
  {
    forall a, b, p, q, m, pad ::
      a != b && Generated(first, events, a, p) && Generated(first, events, b, q) && |m| == AES_KEY_SIZE ==>
      c.rsaDecrypt(c.rsaEncrypt(m, c.publicOf(p), pad), q) == None
  }

  /** Every stored private key is the first one or was brought by a rotation. */
  lemma {:induction false} PrivateKeyOrigin(c: Crypto, first: string, events: seq<Event>, id: string) returns (j: nat)
    requires id in Run(c, first, events).privateKeys
    ensures Generated(first, events, j, Run(c, first, events).privateKeys[id])
  {
    j := 0;
    if events != [] {
      var init := events[..|events| - 1];
      if id in Run(c, first, init).privateKeys { j := PrivateKeyOrigin(c, first, init, id); }
      var key := Run(c, first, events).privateKeys[id];
      if id !in Run(c, first, init).privateKeys || key != Run(c, first, init).privateKeys[id] { j := |events|; }
    }
  }

  /** An envelope made after `i` events can be opened at the end of the run exactly when the key its
      own key was made from has not been rotated again since; if it has, opening it fails. */
  lemma EnvelopeReadableExactly(c: Crypto, first: string, events: seq<Event>, i: nat, k: nat,
                                text: string, aesKey: Bytes, iv: Bytes, pad: Bytes)
    requires Lawful(c) && Separating(c, first, events) && |aesKey| == AES_KEY_SIZE
    requires k >= 1 && i <= |events| && KeyName(k) in Run(c, first, events[..i]).keys
    ensures var e := Encrypt(c, Run(c, first, events[..i]), text, KeyName(k), aesKey, iv, pad);
            && e.Some?
            && Decrypt(c, Run(c, first, events), e.value, KeyName(k)) ==
               if Replaced(c, first, events, i, k) then None else Some(text)
  {
    var s, t := Run(c, first, events[..i]), Run(c, first, events);
    var n := KeysFormChain(c, first, events[..i]);
    NamesUpTo(n, k);
    assert IsVersion(c, s, k);
    var j := PrivateKeyStays(c, first, events, i, k);
    EnvelopeOpens(c, s, s, text, KeyName(k), aesKey, iv, pad);
    if Replaced(c, first, events, i, k) {
      var h := PrivateKeyOrigin(c, first, events[..i], KeyName(k));
      var p, q := s.privateKeys[KeyName(k)], t.privateKeys[KeyName(k)];
      assert Generated(first, events, h, p) && Generated(first, events, j, q) && h != j;
      var wrapped := c.rsaEncrypt(aesKey, c.publicOf(p), pad);
      assert (wrapped + c.aesEncrypt(c.toUtf8(text), aesKey, iv))[..RSA_BLOCK] == wrapped;
      assert c.rsaDecrypt(wrapped, q) == None;
    } else {
      EnvelopeOpens(c, s, t, text, KeyName(k), aesKey, iv, pad);
    }
  }

  // ---------------------------------------------------------------------------------------------
  // Spelled out
  // ---------------------------------------------------------------------------------------------

  /** Version one is "master_key_001"; each other id is the one before with its own number attached. */
  lemma NamesInFull(i: nat)
    requires i >= 1
    ensures KeyName(1) == "master_key_001"
    ensures KeyName(i + 1) == KeyName(i) + "_v" + Decimal(i + 1)
  {
  }

  /** What the events of a run make of version `i`: rotating it marks it rotated, revoking it revoked, and
      rotating the key before it brings it, again as an active one. */
  function StatusFrom(events: seq<Event>, i: nat): KeyStatus
    requires i >= 1
  {
    if events == [] then Active
    else
      var init, e := events[..|events| - 1], events[|events| - 1];
      if e.keyId == KeyName(i) then if e.Rotate? then Rotated else Revoked
      else if i > 1 && e.Rotate? && e.keyId == KeyName(i - 1) then Active
      else StatusFrom(init, i)
  }

  ghost predicate RecordAt(c: Crypto, s: State, i: nat, status: KeyStatus)
    requires i >= 1
  {
    && KeyName(i) in s.keys && KeyName(i) in s.privateKeys
    && s.keys[KeyName(i)] ==
       EncryptionKey(KeyName(i), "master", "RSA-4096", Some(c.publicOf(s.privateKeys[KeyName(i)])), i, status)
  }

  lemma StepKeepsRecord(c: Crypto, s: State, e: Event, v: nat, i: nat, status: KeyStatus)
    requires v >= 1 && i >= 1 && e.keyId == KeyName(v) && RecordAt(c, s, i, status)
    requires KeyName(v) in s.keys && s.keys[KeyName(v)].version == v
    requires v + 1 != i || !e.Rotate?
    ensures RecordAt(c, Step(c, s, e), i, if v == i then (if e.Rotate? then Rotated else Revoked) else status)
  {
    NextName(v);
    DistinctNames(v, i);
    DistinctNames(v + 1, i);
  }

  lemma RotationRecords(c: Crypto, s: State, e: Event, v: nat, status: KeyStatus)
    requires v >= 1 && e.Rotate? && e.keyId == KeyName(v) && RecordAt(c, s, v, status)
    ensures RecordAt(c, Step(c, s, e), v + 1, Active)
    ensures Step(c, s, e).privateKeys[KeyName(v + 1)] == e.private
  {
    NextName(v);
    DistinctNames(v, v + 1);
  }

  lemma StepKeepsRecords(c: Crypto, s: State, e: Event, n: nat, m: nat, events: seq<Event>, i: nat)
    requires Chain(c, s, n) && 1 <= i <= m && m == if e.Rotate? && e.keyId == KeyName(n) then n + 1 else n
    requires forall k: nat :: 1 <= k <= n ==> RecordAt(c, s, k, StatusFrom(events, k))
    ensures RecordAt(c, Step(c, s, e), i, StatusFrom(events + [e], i))
  {
    assert (events + [e])[..|events|] == events;
    if e.keyId in s.keys {
      var v := NameAt(n, e.keyId);
      DistinctNames(v, i);
      DistinctNames(v, n);
      if i > 1 { DistinctNames(v, i - 1); }
      assert RecordAt(c, s, v, StatusFrom(events, v));
      if e.Rotate? && i == v + 1 {
        RotationRecords(c, s, e, v, StatusFrom(events, v));
      } else {
        StepKeepsRecord(c, s, e, v, i, StatusFrom(events, i));
      }
    } else {
      NamesUpTo(n, i);
      NamesUpTo(n, n);
      if i > 1 { NamesUpTo(n, i - 1); }
    }
  }

  /** Over any run the record of every version is known in full: its id, type, algorithm, number, the
      public key of its private key, and the status the events have left it in. */
  lemma {:induction false} RecordsExactly(c: Crypto, first: string, events: seq<Event>) returns (n: nat)
    ensures Chain(c, Run(c, first, events), n)
    ensures forall i: nat :: 1 <= i <= n ==> RecordAt(c, Run(c, first, events), i, StatusFrom(events, i))
  {
    if events == [] {
      n := KeysFormChain(c, first, events);
      assert MASTER == KeyName(1);
      forall i: nat | 1 <= i <= n ensures RecordAt(c, Run(c, first, events), i, StatusFrom(events, i)) {
        assert KeyName(i) in Names(n) by { NamesUpTo(n, i); }
        DistinctNames(i, 1);
      }
    } else {
      var init, e := events[..|events| - 1], events[|events| - 1];
      var before := RecordsExactly(c, first, init);
      n := StepKeepsChain(c, Run(c, first, init), e, before);
      assert events == init + [e];
      forall i: nat | 1 <= i <= n ensures RecordAt(c, Run(c, first, events), i, StatusFrom(events, i)) {
        StepKeepsRecords(c, Run(c, first, init), e, before, n, init, i);
      }
    }
  }

  /** An envelope names its key and algorithm; its first 512 bytes give the 32 bytes of the data key to the
      private key, and the rest is the text sealed with it. */
  lemma EnvelopeLayout(c: Crypto, s: State, text: string, keyId: string, private: string,
                       aesKey: Bytes, iv: Bytes, pad: Bytes)
    requires Lawful(c) && |aesKey| == 32
    requires keyId in s.keys && s.keys[keyId].publicKey == Some(c.publicOf(private))
    ensures var e := Encrypt(c, s, text, keyId, aesKey, iv, pad);
            && e.Some? && e.value.keyId == keyId && e.value.algorithm == "AES-256-GCM"
            && |c.fromBase64(e.value.data)| >= 512
            && c.rsaDecrypt(c.fromBase64(e.value.data)[..512], private) == Some(aesKey)
            && c.fromBase64(e.value.data)[512..] == c.aesEncrypt(c.toUtf8(text), aesKey, iv)
            && c.fromBase64(e.value.iv) == iv
            && e.value.tag.Some? && c.fromBase64(e.value.tag.value) == c.aesTag(c.toUtf8(text), aesKey, iv)
  {
    var wrapped := c.rsaEncrypt(aesKey, c.publicOf(private), pad);
    var sealed := c.aesEncrypt(c.toUtf8(text), aesKey, iv);
    assert (wrapped + sealed)[..512] == wrapped && (wrapped + sealed)[512..] == sealed;
  }

  /** Nothing is encrypted for an unknown key or one without a public part. */
  lemma EncryptionRefusedExactly(c: Crypto, s: State, text: string, keyId: string, aesKey: Bytes, iv: Bytes, pad: Bytes)
    ensures Encrypt(c, s, text, keyId, aesKey, iv, pad) == None <==>
            keyId !in s.keys || s.keys[keyId].publicKey == None || s.keys[keyId].publicKey == Some("")
  {
  }

  /** The private key unwraps the first 512 bytes of the envelope to a data key, and that opens the rest to
      `plain`, under the envelope's iv and its tag, if it has one. */
  ghost predicate Unseals(c: Crypto, private: string, e: Envelope, aesKey: Bytes, plain: Bytes)
  {
    var block := c.fromBase64(e.data);
    var n := if |block| < 512 then |block| else 512;
    var tag := if e.tag == None || e.tag == Some("") then None else Some(c.fromBase64(e.tag.value));
    c.rsaDecrypt(block[..n], private) == Some(aesKey) &&
    c.aesDecrypt(block[n..], aesKey, c.fromBase64(e.iv), tag) == Some(plain)
  }

  /** An envelope opens to a text exactly when the stored private key unseals it to the text's bytes. */
  lemma DecryptionExactly(c: Crypto, s: State, e: Envelope, keyId: string, text: string)
    ensures Decrypt(c, s, e, keyId) == Some(text) <==>
            keyId in s.privateKeys &&
            exists aesKey, plain :: Unseals(c, s.privateKeys[keyId], e, aesKey, plain) && c.fromUtf8(plain) == text
  {
    if Decrypt(c, s, e, keyId) == Some(text) {
      var block := c.fromBase64(e.data);
      var n := if |block| < 512 then |block| else 512;
      var tag := if e.tag == None || e.tag == Some("") then None else Some(c.fromBase64(e.tag.value));
      var aesKey := c.rsaDecrypt(block[..n], s.privateKeys[keyId]).value;
      var plain := c.aesDecrypt(block[n..], aesKey, c.fromBase64(e.iv), tag).value;
      assert Unseals(c, s.privateKeys[keyId], e, aesKey, plain) && c.fromUtf8(plain) == text;
    }
  }

  // ---------------------------------------------------------------------------------------------
  // An instance of the laws, on which an envelope is lost
  // ---------------------------------------------------------------------------------------------

  const KEY_A := "a"
  const KEY_B := "b"
  const KEY_C := "c"

  function ByteOf(c: char): Byte
  {
    c as int % 256
  }

  function ByteAt(c: char, i: int): Byte
    requires 0 <= i < 3
  {
    var n := c as int;
    if i == 0 then n % 256 else if i == 1 then n / 256 % 256 else n / 256 / 256 % 256
  }

  function CharOf(low: Byte, mid: Byte, high: Byte): char
  {
    var n := low + 256 * mid + 65536 * high;
    if n < 0xD800 || 0xE000 <= n < 0x11_0000 then n as char else ' '
  }

  lemma CharRoundTrip(c: char)
    ensures CharOf(ByteAt(c, 0), ByteAt(c, 1), ByteAt(c, 2)) == c
  {
    var n := c as int;
    var q := n / 256;
    var h := q / 256;
    assert n == 256 * q + n % 256 && q == 256 * h + q % 256;
    assert h < 256;
  }

  /** The last character of a key marks the blocks made for it. */
  function Mark(key: string): Byte
  {
    if key == "" then 0 else ByteOf(key[|key| - 1])
  }

  function Widen(s: string): Bytes
  {
    seq(3 * |s|, i requires 0 <= i < 3 * |s| => ByteAt(s[i / 3], i % 3))
  }

  function Narrow(b: Bytes): string
  {
    seq(|b| / 3, i requires 0 <= i < |b| / 3 => CharOf(b[3 * i], b[3 * i + 1], b[3 * i + 2]))
  }

  lemma Widened(s: string, i: nat)
    requires i < |s|
    ensures Widen(s)[3 * i] == ByteAt(s[i], 0)
    ensures Widen(s)[3 * i + 1] == ByteAt(s[i], 1)
    ensures Widen(s)[3 * i + 2] == ByteAt(s[i], 2)
  {
    assert 3 * i / 3 == i && (3 * i + 1) / 3 == i && (3 * i + 2) / 3 == i;
  }

  lemma WidenRoundTrip(s: string)
    ensures Narrow(Widen(s)) == s
  {
    assert |Widen(s)| == 3 * |s| && |Narrow(Widen(s))| == |s|;
    forall i | 0 <= i < |s| ensures Narrow(Widen(s))[i] == s[i] {
      Widened(s, i);
      CharRoundTrip(s[i]);
    }
  }

  function BytesToText(b: Bytes): string
  {
    seq(|b|, i requires 0 <= i < |b| => b[i] as char)
  }

  function TextToBytes(s: string): Bytes
  {
    seq(|s|, i requires 0 <= i < |s| => ByteOf(s[i]))
  }

  /** A block is the wrapped key, then the mark of its pair as a filling. */
  function Wrap(m: Bytes, public: string): Bytes
  {
    m + seq(RSA_BLOCK - AES_KEY_SIZE, i => Mark(public))
  }

  function Unwrap(b: Bytes, private: string): Option<Bytes>
  {
    if |b| == RSA_BLOCK && b[AES_KEY_SIZE] == Mark("p" + private) then Some(b[..AES_KEY_SIZE]) else None
  }

  lemma UnwrapExactly(m: Bytes, p: string, q: string)
    requires |m| == AES_KEY_SIZE
    ensures |Wrap(m, "p" + p)| == RSA_BLOCK
    ensures Unwrap(Wrap(m, "p" + p), q) == if Mark("p" + p) == Mark("p" + q) then Some(m) else None
  {
    assert Wrap(m, "p" + p)[..AES_KEY_SIZE] == m;
  }

  /** Three bytes for a character, one character for a byte, marked blocks, and a cipher that leaves the
      text as it is. */
  function Toy(): Crypto
  {
    Crypto(
      private => "p" + private,
      (m: Bytes, public, pad) => Wrap(m, public),
      (b: Bytes, private) => Unwrap(b, private),
      (m, key, iv) => m,
      (m, key, iv) => [0],
      (m, key, iv, tag) => Some(m),
      (b: Bytes) => BytesToText(b),
      (s: string) => TextToBytes(s),
      (s: string) => Widen(s),
      (b: Bytes) => Narrow(b))
  }

  lemma ToyIsLawful()
    ensures Lawful(Toy())
  {
    var c := Toy();
    forall m: Bytes, private, pad | |m| == AES_KEY_SIZE
      ensures |c.rsaEncrypt(m, c.publicOf(private), pad)| == RSA_BLOCK
      ensures c.rsaDecrypt(c.rsaEncrypt(m, c.publicOf(private), pad), private) == Some(m)
    {
      UnwrapExactly(m, private, private);
    }
    forall b ensures c.fromBase64(c.toBase64(b)) == b {
      assert TextToBytes(BytesToText(b)) == b;
    }
    forall s ensures c.fromUtf8(c.toUtf8(s)) == s { WidenRoundTrip(s); }
    forall m, key, iv ensures c.toBase64(c.aesTag(m, key, iv)) != "" {
      assert |BytesToText([0])| == 1;
    }
  }

  /** The laws can be met, also together with `Separating`, and then an envelope can be lost: the first
      key is rotated, a text is encrypted under the second version, and the first key is rotated again. */
  lemma EnvelopeCanBeLost(text: string, aesKey: Bytes, iv: Bytes, pad: Bytes)
    requires |aesKey| == AES_KEY_SIZE
    ensures var events := [Rotate(MASTER, KEY_B), Rotate(MASTER, KEY_C)];
            && Lawful(Toy()) && Separating(Toy(), KEY_A, events)
            && KeyName(2) in Run(Toy(), KEY_A, events[..1]).keys
            && Replaced(Toy(), KEY_A, events, 1, 2)
            && var e := Encrypt(Toy(), Run(Toy(), KEY_A, events[..1]), text, KeyName(2), aesKey, iv, pad);
               && e.Some?
               && Decrypt(Toy(), Run(Toy(), KEY_A, events[..1]), e.value, KeyName(2)) == Some(text)
               && Decrypt(Toy(), Run(Toy(), KEY_A, events), e.value, KeyName(2)) == None
  {
    var events := [Rotate(MASTER, KEY_B), Rotate(MASTER, KEY_C)];
    assert events[..1] == [Rotate(MASTER, KEY_B)] && events[..1][..1] == events[..1];
    ToyIsLawful();
    MarksDiffer(events);
    ToySeparates(events);
    MarksDiffer(events[..1]);
    ToySeparates(events[..1]);
    RotatedTwice(Toy(), KEY_A, events);
    EnvelopeReadableExactly(Toy(), KEY_A, events, 1, 2, text, aesKey, iv, pad);
    EnvelopeReadableExactly(Toy(), KEY_A, events[..1], 1, 2, text, aesKey, iv, pad);
  }

  lemma ToySeparates(events: seq<Event>)
    requires forall a, b, p, q :: a != b && Generated(KEY_A, events, a, p) && Generated(KEY_A, events, b, q) ==>
               Mark("p" + p) != Mark("p" + q)
    ensures Separating(Toy(), KEY_A, events)
  {
    var c := Toy();
    forall a, b, p, q, m: Bytes, pad |
        a != b && Generated(KEY_A, events, a, p) && Generated(KEY_A, events, b, q) && |m| == AES_KEY_SIZE
      ensures c.rsaDecrypt(c.rsaEncrypt(m, c.publicOf(p), pad), q) == None
    {
      UnwrapExactly(m, p, q);
    }
  }

  lemma MarksDiffer(events: seq<Event>)
    requires events == [Rotate(MASTER, KEY_B)] || events == [Rotate(MASTER, KEY_B), Rotate(MASTER, KEY_C)]
    ensures forall a, b, p, q :: a != b && Generated(KEY_A, events, a, p) && Generated(KEY_A, events, b, q) ==>
              Mark("p" + p) != Mark("p" + q)
  {
    assert Mark("p" + "a") == 97 && Mark("p" + "b") == 98 && Mark("p" + "c") == 99;
  }

  lemma RotatedTwice(c: Crypto, first: string, events: seq<Event>)
    requires |events| == 2 && events[0].Rotate? && events[1].Rotate?
    requires events[0].keyId == MASTER && events[1].keyId == MASTER
    ensures KeyName(2) in Run(c, first, events[..1]).keys
    ensures Replaced(c, first, events, 1, 2) && !Replaced(c, first, events[..1], 1, 2)
  {
    assert events[..1][..0] == [] && events[..1][..1] == events[..1];
    assert KeyName(1) == MASTER;
    NextName(1);
    assert Rotations(c, first, [], MASTER) == 0 && MASTER in Run(c, first, []).keys;
    assert Rotations(c, first, events[..1], MASTER) == 1 && MASTER in Run(c, first, events[..1]).keys;
  }
}
