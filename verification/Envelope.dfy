/** Sensitive values sealed for the row that owns them: `v1:<key id>:<nonce>:<sealed bytes>`. */
module Envelope {
  import opened Wrappers
  import Base64Url

  // ---- The authenticated cipher ----------------------------------------------------------------------------

  /** AES-GCM (NIST SP 800-38D) behind its interface: seal and open take a key, a nonce, the bytes and the
      associated data. `nonceAccepted` is the length check that raises an error of its own. */
  datatype Aead = Aead(
    seal: (Bytes, Bytes, Bytes, string) -> Bytes,
    open: (Bytes, Bytes, Bytes, string) -> Option<Bytes>,
    nonceAccepted: Bytes -> bool)

  const NONCE_BYTES := 12
  const KEY_BYTES := 32

  /** What is taken on trust: opening undoes sealing under the same associated data, and fails under any other. */
  ghost predicate Ideal(aead: Aead) {
    && (forall n: Bytes :: |n| == NONCE_BYTES ==> aead.nonceAccepted(n))
    && (forall k: Bytes, n: Bytes, p: Bytes, a: string, b: string ::
          aead.open(k, n, aead.seal(k, n, p, a), b) == if a == b then Some(p) else None)
  }

  // ---- Keys ------------------------------------------------------------------------------------------------

  datatype Failure = Unbound | Unavailable | Malformed | NotBase64 | UnknownKey | NonceRejected | NotAuthentic

  datatype Keyring = Keyring(keys: map<string, Bytes>, activeKeyId: string)

  predicate KeyIdChar(c: char) {
    'A' <= c <= 'Z' || 'a' <= c <= 'z' || '0' <= c <= '9' || c == '.' || c == '_' || c == '-'
  }

  /** One to 64 characters of the alphabet; the pattern's end anchor also lets one line feed follow them. */
  predicate IsKeyId(s: string) {
    var n := if s != "" && s[|s| - 1] == '\n' then |s| - 1 else |s|;
    1 <= n <= 64 && forall i :: 0 <= i < n ==> KeyIdChar(s[i])
  }

  /** Letters, digits, dots, underscores and hyphens. */
  predicate WordChars(s: string) {
    forall i :: 0 <= i < |s| ==>
      || 'a' <= s[i] <= 'z' || 'A' <= s[i] <= 'Z' || '0' <= s[i] <= '9'
      || s[i] == '.' || s[i] == '_' || s[i] == '-'
  }

  lemma KeyIdExactly(s: string)
    ensures IsKeyId(s) <==> (1 <= |s| <= 64 && WordChars(s)) || (2 <= |s| <= 65 && s[|s| - 1] == '\n' && WordChars(s[..|s| - 1]))
  {
    if s != "" && s[|s| - 1] == '\n' {
      assert !WordChars(s);
    }
  }

  predicate IsUsable(ring: Keyring) {
    && ring.activeKeyId in ring.keys
    && forall id <- ring.keys :: IsKeyId(id) && |ring.keys[id]| == KEY_BYTES
  }

  /** Usable keyrings: the active key is there, and every key has 32 bytes under a well-formed id. */
  lemma UsableExactly(ring: Keyring)
    ensures IsUsable(ring)
            <==> ring.activeKeyId in ring.keys && forall id :: id in ring.keys ==> IsKeyId(id) && |ring.keys[id]| == 32
  {
  }

  function MakeKeyring(keys: map<string, Bytes>, activeKeyId: string): (r: Result<Keyring, Failure>)
    ensures r.Ok? ==> IsUsable(r.value) && r.value == Keyring(keys, activeKeyId)
    ensures r.Err? ==> !IsUsable(Keyring(keys, activeKeyId))
  {
    if keys == map[] then Err(Unavailable)
    else if activeKeyId !in keys then Err(Unavailable)
    else if exists id <- keys :: !IsKeyId(id) || |keys[id]| != KEY_BYTES then Err(Unavailable)
    else Ok(Keyring(keys, activeKeyId))
  }

  // ---- Sealing and opening ---------------------------------------------------------------------------------

  /** The associated data: the owner of the value. */
  function Owner(entityType: string, entityId: string): string {
    entityType + ":" + entityId
  }

  function Joined(keyId: string, nonce: string, payload: string): string {
    "v1:" + keyId + ":" + nonce + ":" + payload
  }

  function Encrypt(aead: Aead, ring: Keyring, nonce: Bytes, plain: Bytes, entityType: string, entityId: string)
    : Result<string, Failure>
  {
    if entityType == "" || entityId == "" then Err(Unbound)
    else if ring.activeKeyId !in ring.keys then Err(UnknownKey)
    else
      var sealed := aead.seal(ring.keys[ring.activeKeyId], nonce, plain, Owner(entityType, entityId));
      Ok(Joined(ring.activeKeyId, Base64Url.Encode(nonce), Base64Url.Encode(sealed)))
  }

  /** Encryption is refused exactly without an owner or without the active key. */
  lemma EncryptRefuses(aead: Aead, ring: Keyring, nonce: Bytes, plain: Bytes, entityType: string, entityId: string)
    ensures Encrypt(aead, ring, nonce, plain, entityType, entityId) == Err(Unbound) <==> entityType == "" || entityId == ""
    ensures Encrypt(aead, ring, nonce, plain, entityType, entityId).Err?
            <==> entityType == "" || entityId == "" || ring.activeKeyId !in ring.keys
  {
  }

  /** `str.split(":")`: one piece more than there are colons. */
  function Split(s: string): (parts: seq<string>)
    ensures |parts| >= 1
  {
    if s == "" then [""]
    else
      var rest := Split(s[1..]);
      if s[0] == ':' then [""] + rest else [[s[0]] + rest[0]] + rest[1..]
  }

  function Decrypt(aead: Aead, ring: Keyring, text: string, entityType: string, entityId: string)
    : Result<Bytes, Failure>
  {
    var parts := Split(text);
    if |parts| != 4 || parts[0] != "v1" then Err(Malformed)
    else Unseal(aead, ring, parts[1], parts[2], parts[3], Owner(entityType, entityId))
  }

  function Unseal(aead: Aead, ring: Keyring, keyId: string, nonceText: string, payloadText: string, owner: string)
    : Result<Bytes, Failure>
  {
    var nonce, payload := Base64Url.Decode(nonceText), Base64Url.Decode(payloadText);
    if nonce.None? || payload.None? then Err(NotBase64)
    else if keyId !in ring.keys then Err(UnknownKey)
    else if !aead.nonceAccepted(nonce.value) then Err(NonceRejected)
    else
      match aead.open(ring.keys[keyId], nonce.value, payload.value, owner)
      case None => Err(NotAuthentic)
      case Some(plain) => Ok(plain)
  }

  // ---- The printed form parses back ------------------------------------------------------------------------

  predicate Plain(s: string) {
    ':' !in s
  }

  lemma {:induction false} SplitPiece(piece: string, rest: string)
    requires Plain(piece)
    ensures Split(piece) == [piece]
    ensures Split(piece + ":" + rest) == [piece] + Split(rest)
  {
    var s := piece + ":" + rest;
    if piece == "" {
      assert s[1..] == rest;
    } else {
      SplitPiece(piece[1..], rest);
      assert s[1..] == piece[1..] + ":" + rest;
      assert [piece[0]] + piece[1..] == piece;
    }
  }

  /** The first piece holds no colon; the rest of the text, after the colon, splits into the other pieces. */
  lemma {:induction false} SplitFirst(s: string) returns (rest: string)
    ensures Plain(Split(s)[0])
    ensures |Split(s)| == 1 ==> s == Split(s)[0]
    ensures |Split(s)| > 1 ==> s == Split(s)[0] + ":" + rest && Split(rest) == Split(s)[1..]
  {
    rest := "";
    if s != "" {
      rest := SplitFirst(s[1..]);
      assert s == [s[0]] + s[1..];
      if s[0] == ':' {
        rest := s[1..];
      }
    }
  }

  lemma SplitJoined(keyId: string, nonce: string, payload: string)
    requires Plain(keyId) && Plain(nonce) && Plain(payload)
    ensures Split(Joined(keyId, nonce, payload)) == ["v1", keyId, nonce, payload]
  {
    JoinedRegroups(keyId, nonce, payload);
    SplitFour("v1", keyId, nonce, payload);
  }

  lemma SplitFour(a: string, b: string, c: string, d: string)
    requires Plain(a) && Plain(b) && Plain(c) && Plain(d)
    ensures Split(a + ":" + (b + ":" + (c + ":" + d))) == [a, b, c, d]
  {
    SplitPiece(a, b + ":" + (c + ":" + d));
    SplitPiece(b, c + ":" + d);
    SplitPiece(c, d);
    SplitPiece(d, "");
    assert [a] + ([b] + ([c] + [d])) == [a, b, c, d];
  }

  /** Three pieces after the first are all there is to the text when it splits into four. */
  lemma JoinedFromParts(text: string)
    requires |Split(text)| == 4 && Split(text)[0] == "v1"
    ensures var parts := Split(text);
            Plain(parts[1]) && Plain(parts[2]) && Plain(parts[3]) && text == Joined(parts[1], parts[2], parts[3])
  {
    var parts := Split(text);
    var s2 := SplitFirst(text);
    var s3 := SplitFirst(s2);
    var s4 := SplitFirst(s3);
    var s5 := SplitFirst(s4);
    JoinedRegroups(parts[1], parts[2], parts[3]);
  }

  lemma JoinedRegroups(keyId: string, nonce: string, payload: string)
    ensures "v1" + ":" + (keyId + ":" + (nonce + ":" + payload)) == Joined(keyId, nonce, payload)
  {
  }

  ghost predicate IsEnvelope(text: string) {
    exists keyId, nonce, payload ::
      Plain(keyId) && Plain(nonce) && Plain(payload) && text == Joined(keyId, nonce, payload)
  }

  lemma FourPartsExactly(text: string)
    ensures |Split(text)| == 4 && Split(text)[0] == "v1" <==> IsEnvelope(text)
  {
    if |Split(text)| == 4 && Split(text)[0] == "v1" {
      JoinedFromParts(text);
    } else if IsEnvelope(text) {
      var keyId, nonce, payload :|
        Plain(keyId) && Plain(nonce) && Plain(payload) && text == Joined(keyId, nonce, payload);
      SplitJoined(keyId, nonce, payload);
      assert false;
    }
  }

  /** A text is refused as malformed exactly when it is not four colon-free parts beginning with the version. */
  lemma MalformedExactly(aead: Aead, ring: Keyring, text: string, entityType: string, entityId: string)
    ensures Decrypt(aead, ring, text, entityType, entityId) == Err(Malformed) <==> !IsEnvelope(text)
  {
    FourPartsExactly(text);
  }

  /** An envelope's text is opened from its parts, whoever wrote it. */
  lemma DecryptsParts(aead: Aead, ring: Keyring, keyId: string, nonce: string, payload: string, entityType: string, entityId: string)
    requires Plain(keyId) && Plain(nonce) && Plain(payload)
    ensures Decrypt(aead, ring, Joined(keyId, nonce, payload), entityType, entityId)
         == Unseal(aead, ring, keyId, nonce, payload, Owner(entityType, entityId))
  {
    SplitJoined(keyId, nonce, payload);
  }

  /** These parts decode and name a key that is there, but the cipher does not take nonces like theirs. */
  ghost predicate OddNonce(aead: Aead, ring: Keyring, keyId: string, nonce: string, payload: string) {
    && Base64Url.Decode(nonce).Some? && Base64Url.Decode(payload).Some? && keyId in ring.keys
    && !aead.nonceAccepted(Base64Url.Decode(nonce).value)
  }

  lemma UnsealRejects(aead: Aead, ring: Keyring, keyId: string, nonce: string, payload: string, owner: string)
    ensures Unseal(aead, ring, keyId, nonce, payload, owner) == Err(NonceRejected) <==> OddNonce(aead, ring, keyId, nonce, payload)
  {
  }

  ghost predicate HasOddNonce(aead: Aead, ring: Keyring, text: string) {
    exists keyId, nonce, payload ::
      && Plain(keyId) && Plain(nonce) && Plain(payload) && text == Joined(keyId, nonce, payload)
      && OddNonce(aead, ring, keyId, nonce, payload)
  }

  /** Which texts end in the cipher's own error instead of a decryption error: exactly the well-formed
      envelopes under a known key whose nonce is of a length it does not take. */
  lemma NonceRejectedExactly(aead: Aead, ring: Keyring, text: string, entityType: string, entityId: string)
    ensures Decrypt(aead, ring, text, entityType, entityId) == Err(NonceRejected) <==> HasOddNonce(aead, ring, text)
  {
    if HasOddNonce(aead, ring, text) {
      var keyId, nonce, payload :|
        && Plain(keyId) && Plain(nonce) && Plain(payload) && text == Joined(keyId, nonce, payload)
        && OddNonce(aead, ring, keyId, nonce, payload);
      DecryptsParts(aead, ring, keyId, nonce, payload, entityType, entityId);
    } else if |Split(text)| == 4 && Split(text)[0] == "v1" {
      var parts := Split(text);
      JoinedFromParts(text);
      UnsealRejects(aead, ring, parts[1], parts[2], parts[3], Owner(entityType, entityId));
    }
  }

  /** A nonce of one byte, under the active key. */
  lemma ShortNonceIsRejected(aead: Aead, ring: Keyring, entityType: string, entityId: string)
    requires IsUsable(ring) && !aead.nonceAccepted([0])
    ensures Decrypt(aead, ring, Joined(ring.activeKeyId, "AA", "AA"), entityType, entityId) == Err(NonceRejected)
  {
    KeyIdIsPlain(ring.activeKeyId);
    Base64Url.DecodeEncode([0]);
    assert Base64Url.Encode([0]) == "AA";
    DecryptsParts(aead, ring, ring.activeKeyId, "AA", "AA", entityType, entityId);
  }

  lemma KeyIdIsPlain(s: string)
    requires IsKeyId(s)
    ensures Plain(s)
  {
    var n := if s != "" && s[|s| - 1] == '\n' then |s| - 1 else |s|;
    assert forall i :: 0 <= i < n ==> KeyIdChar(s[i]);
    assert !KeyIdChar(':');
  }

  function Sealed(aead: Aead, ring: Keyring, nonce: Bytes, plain: Bytes, entityType: string, entityId: string): Bytes
    requires ring.activeKeyId in ring.keys
  {
    aead.seal(ring.keys[ring.activeKeyId], nonce, plain, Owner(entityType, entityId))
  }

  /** Whatever the key id, the nonce and the sealed bytes, the envelope splits into exactly its four parts. */
  lemma EnvelopeSplits(aead: Aead, ring: Keyring, nonce: Bytes, plain: Bytes, entityType: string, entityId: string)
    requires IsUsable(ring) && entityType != "" && entityId != ""
    ensures var r := Encrypt(aead, ring, nonce, plain, entityType, entityId);
            && r.Ok?
            && Split(r.value) == ["v1", ring.activeKeyId, Base64Url.Encode(nonce),
                                  Base64Url.Encode(Sealed(aead, ring, nonce, plain, entityType, entityId))]
  {
    var sealed := Sealed(aead, ring, nonce, plain, entityType, entityId);
    KeyIdIsPlain(ring.activeKeyId);
    Base64Url.EncodedIsPlain(nonce);
    Base64Url.EncodedIsPlain(sealed);
    SplitJoined(ring.activeKeyId, Base64Url.Encode(nonce), Base64Url.Encode(sealed));
  }

  // ---- The round trip, rotation and ownership --------------------------------------------------------------

  /** Under any later keyring, opening an envelope gives back the plain bytes exactly when the key is still
      there and the claimed owner has the same associated data; otherwise it says which of the two failed. */
  lemma DecryptEncrypt(aead: Aead, ring: Keyring, later: Keyring, nonce: Bytes, plain: Bytes,
                       entityType: string, entityId: string, claimedType: string, claimedId: string)
    requires Ideal(aead) && IsUsable(ring) && |nonce| == 12 && entityType != "" && entityId != ""
    requires ring.activeKeyId in later.keys ==> later.keys[ring.activeKeyId] == ring.keys[ring.activeKeyId]
    ensures var sealed := Encrypt(aead, ring, nonce, plain, entityType, entityId);
            && sealed.Ok?
            && Decrypt(aead, later, sealed.value, claimedType, claimedId)
               == if ring.activeKeyId !in later.keys then Err(UnknownKey)
                  else if Owner(claimedType, claimedId) != Owner(entityType, entityId) then Err(NotAuthentic)
                  else Ok(plain)
  {
    EnvelopeSplits(aead, ring, nonce, plain, entityType, entityId);
    Base64Url.DecodeEncode(nonce);
    Base64Url.DecodeEncode(Sealed(aead, ring, nonce, plain, entityType, entityId));
  }

  lemma OwnerStart(entityType: string, entityId: string)
    ensures Owner(entityType, entityId)[..|entityType|] == entityType
    ensures Owner(entityType, entityId)[|entityType|] == ':'
    ensures Owner(entityType, entityId)[|entityType| + 1..] == entityId
  {
  }

  /** Two rows of different types can share their associated data exactly when one type, with a colon after it,
      begins the other. */
  lemma OwnersClashExactly(t: string, u: string)
    requires t != u
    ensures (exists i, j :: i != "" && j != "" && Owner(t, i) == Owner(u, j)) <==> t + ":" <= u || u + ":" <= t
  {
    forall i, j | Owner(t, i) == Owner(u, j)
      ensures t + ":" <= u || u + ":" <= t
    {
      ClashIsPrefix(t, i, u, j);
    }
    if t + ":" <= u {
      PrefixClashes(t, u);
    } else if u + ":" <= t {
      PrefixClashes(u, t);
    }
  }

  lemma ClashIsPrefix(t: string, i: string, u: string, j: string)
    requires t != u && Owner(t, i) == Owner(u, j)
    ensures t + ":" <= u || u + ":" <= t
  {
    OwnerStart(t, i);
    OwnerStart(u, j);
    var s := Owner(t, i);
    if |t| < |u| {
      assert s[..|u|][..|t| + 1] == s[..|t| + 1] == t + ":";
    } else if |u| < |t| {
      assert s[..|t|][..|u| + 1] == s[..|u| + 1] == u + ":";
    }
  }

  lemma PrefixClashes(t: string, u: string)
    requires t + ":" <= u
    ensures exists i, j :: i != "" && j != "" && Owner(t, i) == Owner(u, j)
  {
    var i := u[|t| + 1..] + ":x";
    assert Owner(t, i) == Owner(u, "x");
  }

  /** With colon-free entity types the associated data names the row. */
  lemma OwnerNamesTheRow(t: string, i: string, u: string, j: string)
    requires Plain(t) && Plain(u)
    ensures Owner(t, i) == Owner(u, j) <==> t == u && i == j
  {
    assert (t + ":")[|t|] == ':' && (u + ":")[|u|] == ':';
    OwnerStart(t, i);
    OwnerStart(u, j);
    if t != u && Owner(t, i) == Owner(u, j) {
      ClashIsPrefix(t, i, u, j);
    }
  }

  /** So an envelope opens for its own row, and for no other. */
  lemma OnlyTheOwnerOpens(aead: Aead, ring: Keyring, later: Keyring, nonce: Bytes, plain: Bytes,
                          entityType: string, entityId: string, claimedType: string, claimedId: string)
    requires Ideal(aead) && IsUsable(ring) && |nonce| == 12 && entityType != "" && entityId != ""
    requires ring.activeKeyId in later.keys && later.keys[ring.activeKeyId] == ring.keys[ring.activeKeyId]
    requires Plain(entityType) && Plain(claimedType)
    ensures var sealed := Encrypt(aead, ring, nonce, plain, entityType, entityId);
            && sealed.Ok?
            && (Decrypt(aead, later, sealed.value, claimedType, claimedId).Ok?
                <==> claimedType == entityType && claimedId == entityId)
  {
    DecryptEncrypt(aead, ring, later, nonce, plain, entityType, entityId, claimedType, claimedId);
    OwnerNamesTheRow(claimedType, claimedId, entityType, entityId);
  }

  /** Nothing keeps colons out of entity types, and then a value does open for another row. */
  lemma ColonsConfuseOwners(aead: Aead, ring: Keyring, nonce: Bytes, plain: Bytes)
    requires Ideal(aead) && IsUsable(ring) && |nonce| == 12
    ensures var sealed := Encrypt(aead, ring, nonce, plain, "a:b", "c");
            sealed.Ok? && Decrypt(aead, ring, sealed.value, "a", "b:c") == Ok(plain)
  {
    DecryptEncrypt(aead, ring, ring, nonce, plain, "a:b", "c", "a", "b:c");
    assert Owner("a:b", "c") == "a:b:c" == Owner("a", "b:c");
  }

  // ---- The trusted interface can be met --------------------------------------------------------------------

  /** A self-delimiting code: no code of one text begins the code of another. */
  function Code(s: string): Bytes {
    if s == "" then [0] else CharCode(s[0]) + Code(s[1..])
  }

  function CharCode(c: char): Bytes {
    [1, c as int / 65536, c as int / 256 % 256, c as int % 256]
  }

  lemma CharCodeInverts(c: char, d: char)
    requires CharCode(c) == CharCode(d)
    ensures c == d
  {
    assert CharCode(c)[1] == CharCode(d)[1] && CharCode(c)[2] == CharCode(d)[2] && CharCode(c)[3] == CharCode(d)[3];
    assert c as int == d as int;
  }

  lemma {:induction false} CodeIsPrefixFree(s: string, t: string, p: Bytes)
    requires Code(s) <= Code(t) + p
    ensures s == t
  {
    assert Code(s)[0] == (Code(t) + p)[0];
    if s != "" {
      var c, d := CharCode(s[0]), CharCode(t[0]);
      assert Code(t) + p == d + (Code(t[1..]) + p);
      assert c == Code(s)[..4] == (Code(t) + p)[..4] == d;
      CharCodeInverts(s[0], t[0]);
      assert Code(s)[4..] == Code(s[1..]) && (Code(t) + p)[4..] == Code(t[1..]) + p;
      CodeIsPrefixFree(s[1..], t[1..], p);
      assert s == [s[0]] + s[1..] && t == [t[0]] + t[1..];
    }
  }

  /** What is assumed of the cipher contradicts nothing: a transparent cipher that writes the owner in front of
      the bytes already meets it. */
  lemma IdealIsSatisfiable()
    ensures exists aead :: Ideal(aead)
  {
    var aead := Aead(
      (k: Bytes, n: Bytes, p: Bytes, a: string) => Code(a) + p,
      (k: Bytes, n: Bytes, c: Bytes, a: string) => if Code(a) <= c then Some(c[|Code(a)|..]) else None,
      (n: Bytes) => true);
    forall k: Bytes, n: Bytes, p: Bytes, a: string, b: string
      ensures aead.open(k, n, aead.seal(k, n, p, a), b) == if a == b then Some(p) else None
    {
      if Code(b) <= Code(a) + p {
        CodeIsPrefixFree(b, a, p);
      }
    }
    assert Ideal(aead);
  }
}
