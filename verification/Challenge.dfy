/**
 Challenge-response checks over uninterpreted hash functions: SCRAM-SHA-256
 (section 3 of RFC 5802, with the hash of RFC 7677) and the MySQL native password.
 */
module Challenge {
  import opened Integers
  import opened Option
  import opened Text
  import opened Credentials

  /**
   The hash functions, of which only the sizes of the results are known, with the
   preparation of passwords (SASLprep where it applies) and their encoding.
   */
  datatype Hashes = Hashes(
    sha1: Bytes -> Bytes,
    sha256: Bytes -> Bytes,
    hmac: (Bytes, Bytes) -> Bytes,
    pbkdf2: (Bytes, Bytes, int) -> Bytes,
    prepare: Bytes -> Bytes,
    utf8: string -> Bytes)

  ghost predicate Sized(h: Hashes) {
    && (forall x :: |h.sha1(x)| == 20)
    && (forall x :: |h.sha256(x)| == 32)
    && (forall k, x :: |h.hmac(k, x)| == 32)
    && (forall p, s, i :: |h.pbkdf2(p, s, i)| == 32)
  }

  // ---------- Exclusive or ----------

  function XorBits(a: nat, b: nat, bits: nat): nat {
    if bits == 0 then 0
    else (if a % 2 == b % 2 then 0 else 1) + 2 * XorBits(a / 2, b / 2, bits - 1)
  }

  lemma {:induction false} XorBitsBound(a: nat, b: nat, bits: nat, bound: nat)
    requires bound == Power2(bits)
    ensures XorBits(a, b, bits) < bound
  {
    if bits == 0 {
    } else {
      XorBitsBound(a / 2, b / 2, bits - 1, Power2(bits - 1));
    }
  }

  function Power2(n: nat): nat {
    if n == 0 then 1 else 2 * Power2(n - 1)
  }

  lemma {:induction false} XorBitsUndone(a: nat, b: nat, bits: nat)
    requires a < Power2(bits)
    ensures XorBits(XorBits(a, b, bits), b, bits) == a
  {
    if bits == 0 {
    } else {
      XorBitsUndone(a / 2, b / 2, bits - 1);
      var x := XorBits(a, b, bits);
      assert x / 2 == XorBits(a / 2, b / 2, bits - 1);
    }
  }

  function Bit(a: nat, i: nat): nat {
    if i == 0 then a % 2 else Bit(a / 2, i - 1)
  }

  /** Bit by bit: set exactly where the two differ. */
  lemma {:induction false} XorBitsAt(a: nat, b: nat, bits: nat, i: nat)
    requires i < bits
    ensures Bit(XorBits(a, b, bits), i) == if Bit(a, i) == Bit(b, i) then 0 else 1
  {
    var x := XorBits(a, b, bits);
    assert x / 2 == XorBits(a / 2, b / 2, bits - 1);
    if i == 0 {
    } else {
      XorBitsAt(a / 2, b / 2, bits - 1, i - 1);
    }
  }

  lemma EightBits()
    ensures Power2(8) == 256
  {
    assert Power2(4) == 16;
  }

  function XorByte(a: U8, b: U8): U8 {
    EightBits();
    XorBitsBound(a, b, 8, 256);
    XorBits(a, b, 8)
  }

  lemma XorByteUndone(a: U8, b: U8)
    ensures XorByte(XorByte(a, b), b) == a
  {
    EightBits();
    XorBitsUndone(a, b, 8);
  }

  lemma XorByteIs(a: U8, b: U8, i: nat)
    requires i < 8
    ensures Bit(XorByte(a, b), i) == if Bit(a, i) == Bit(b, i) then 0 else 1
  {
    XorBitsAt(a, b, 8, i);
  }

  /** Bytewise exclusive or of the common length. */
  function Xor(x: Bytes, y: Bytes): (r: Bytes)
    ensures |r| == if |x| <= |y| then |x| else |y|
    ensures forall i :: 0 <= i < |r| ==> r[i] == XorByte(x[i], y[i])
  {
    var n := if |x| <= |y| then |x| else |y|;
    seq(n, i requires 0 <= i < n => XorByte(x[i], y[i]))
  }

  lemma XorUndone(x: Bytes, y: Bytes)
    requires |x| == |y|
    ensures Xor(Xor(x, y), y) == x
  {
    forall i | 0 <= i < |x| ensures Xor(Xor(x, y), y)[i] == x[i] {
      XorByteUndone(x[i], y[i]);
    }
  }

  // ---------- SCRAM ----------

  function Ascii(s: string): Bytes {
    seq(|s|, i requires 0 <= i < |s| => AsU8(s[i] as int))
  }

  /** The two key labels of section 3 of RFC 5802, as octets. */
  lemma KeyLabels()
    ensures Ascii("Client Key") == [0x43, 0x6c, 0x69, 0x65, 0x6e, 0x74, 0x20, 0x4b, 0x65, 0x79]
    ensures Ascii("Server Key") == [0x53, 0x65, 0x72, 0x76, 0x65, 0x72, 0x20, 0x4b, 0x65, 0x79]
  {
  }

  // What section 3 of RFC 5802 prescribes to client and server.

  function SaltedPassword(h: Hashes, password: Bytes, salt: Bytes, iterations: int): Bytes {
    h.pbkdf2(h.prepare(password), salt, iterations)
  }

  function ClientKey(h: Hashes, salted: Bytes): Bytes {
    h.hmac(salted, Ascii("Client Key"))
  }

  function ClientProof(h: Hashes, password: Bytes, salt: Bytes, iterations: int, message: Bytes): Bytes {
    var key := ClientKey(h, SaltedPassword(h, password, salt, iterations));
    Xor(key, h.hmac(h.sha256(key), message))
  }

  function ServerSignature(h: Hashes, password: Bytes, salt: Bytes, iterations: int, message: Bytes): Bytes {
    h.hmac(h.hmac(SaltedPassword(h, password, salt, iterations), Ascii("Server Key")), message)
  }

  // What the server does.

  /** `PgScramSha256Verifier::from_password`. */
  function FromPassword(h: Hashes, password: Bytes, salt: Bytes, iterations: U32): Option<Scram> {
    if !ValidParams(iterations, salt) then None
    else
      var salted := SaltedPassword(h, password, salt, iterations);
      if |salted| != 32 then None
      else
        var v := Scram(iterations, salt,
                       h.sha256(h.hmac(salted, Ascii("Client Key"))), h.hmac(salted, Ascii("Server Key")));
        if ValidScram(v) then Some(v) else None
  }

  /** `verify_client_proof`: the server signature, or `None` for a refused proof. */
  function VerifyProof(h: Hashes, v: Scram, message: Bytes, proof: Bytes): Option<Bytes> {
    if |proof| != 32 then None
    else
      var key := Xor(proof, h.hmac(v.storedKey, message));
      if h.sha256(key) == v.storedKey then Some(h.hmac(v.serverKey, message)) else None
  }

  /** `verify_plain_password` of a SCRAM verifier. */
  function VerifyScramPassword(h: Hashes, v: Scram, password: Bytes): bool {
    ValidParams(v.iterations, v.salt)
    && v.storedKey == h.sha256(ClientKey(h, SaltedPassword(h, password, v.salt, v.iterations)))
  }

  /** A verifier can be made exactly of valid parameters; it then accepts its own password. */
  lemma VerifierFromPassword(h: Hashes, password: Bytes, salt: Bytes, iterations: U32)
    requires Sized(h)
    ensures FromPassword(h, password, salt, iterations).Some? <==> ValidParams(iterations, salt)
    ensures FromPassword(h, password, salt, iterations).Some? ==>
      ValidScram(FromPassword(h, password, salt, iterations).value)
      && VerifyScramPassword(h, FromPassword(h, password, salt, iterations).value, password)
  {
  }

  /** Passwords count as they are prepared: one that prepares to the same bytes is accepted in place of the other. */
  lemma PreparedAlike(h: Hashes, password: Bytes, other: Bytes, salt: Bytes, iterations: U32)
    requires Sized(h) && ValidParams(iterations, salt) && h.prepare(password) == h.prepare(other)
    ensures FromPassword(h, password, salt, iterations).Some?
    ensures VerifyScramPassword(h, FromPassword(h, password, salt, iterations).value, other)
  {
  }

  /** The honest proof is accepted and answered with the prescribed server signature. */
  lemma HonestProofAccepted(h: Hashes, password: Bytes, salt: Bytes, iterations: U32, message: Bytes)
    requires Sized(h) && ValidParams(iterations, salt)
    ensures FromPassword(h, password, salt, iterations).Some?
    ensures VerifyProof(h, FromPassword(h, password, salt, iterations).value, message,
                        ClientProof(h, password, salt, iterations, message)) ==
            Some(ServerSignature(h, password, salt, iterations, message))
  {
    var key := ClientKey(h, SaltedPassword(h, password, salt, iterations));
    XorUndone(key, h.hmac(h.sha256(key), message));
  }

  /** No other 32-byte key hashes to the stored key. */
  ghost predicate NoOtherKey(h: Hashes, key: Bytes) {
    forall x :: |x| == 32 && h.sha256(x) == h.sha256(key) ==> x == key
  }

  /** Unless the hash has a second preimage, the honest proof is the only one accepted. */
  lemma OnlyHonestProofAccepted(h: Hashes, password: Bytes, salt: Bytes, iterations: U32, message: Bytes, proof: Bytes)
    requires Sized(h) && ValidParams(iterations, salt)
    requires NoOtherKey(h, ClientKey(h, SaltedPassword(h, password, salt, iterations)))
    ensures FromPassword(h, password, salt, iterations).Some?
    ensures VerifyProof(h, FromPassword(h, password, salt, iterations).value, message, proof).Some? <==>
            proof == ClientProof(h, password, salt, iterations, message)
  {
    HonestProofAccepted(h, password, salt, iterations, message);
    var v := FromPassword(h, password, salt, iterations).value;
    if VerifyProof(h, v, message, proof).Some? {
      var signature := h.hmac(v.storedKey, message);
      XorUndone(proof, signature);
      assert Xor(proof, signature) == ClientKey(h, SaltedPassword(h, password, salt, iterations));
    }
  }

  // ---------- MySQL native password ----------

  datatype MysqlError = IllegalLength | IllegalVerifier | Mismatch | Unsupported

  datatype Outcome = Accepted | Rejected(error: MysqlError)

  function DoubleSha1(h: Hashes, password: Bytes): Bytes {
    h.sha1(h.sha1(password))
  }

  /** What an honest client sends for the salt of the server. */
  function Scramble(h: Hashes, password: Bytes, salt: Bytes): Bytes {
    Xor(h.sha1(password), h.sha1(salt + DoubleSha1(h, password)))
  }

  function MysqlVerdict(h: Hashes, authData: Bytes, salt: Bytes, stage2: Bytes): Outcome {
    if |authData| != 20 then Rejected(IllegalLength)
    else if |stage2| != 20 then Rejected(IllegalVerifier)
    else if h.sha1(Xor(authData, h.sha1(salt + stage2))) == stage2 then Accepted
    else Rejected(Mismatch)
  }

  /** `auth_mysql_with_hash_stage_2`. */
  method AuthMysql(h: Hashes, authData: Bytes, salt: Bytes, stage2: Bytes) returns (r: Outcome)
    requires Sized(h)
    ensures r == MysqlVerdict(h, authData, salt, stage2)
  {
    if |authData| != 20 {
      return Rejected(IllegalLength);
    }
    if |stage2| != 20 {
      return Rejected(IllegalVerifier);
    }
    var tmp := h.sha1(salt + stage2);
    var xorResult := new U8[20](_ => 0);
    for i := 0 to 20
      invariant forall k :: 0 <= k < i ==> xorResult[k] == XorByte(authData[k], tmp[k])
    {
      xorResult[i] := XorByte(authData[i], tmp[i]);
    }
    assert xorResult[..] == Xor(authData, tmp);
    if h.sha1(xorResult[..]) == stage2 {
      r := Accepted;
    } else {
      r := Rejected(Mismatch);
    }
  }

  /** `verify_mysql_native_password`. */
  function VerifyMysql(h: Hashes, v: Verifier, authData: Bytes, salt: Bytes): Outcome {
    match v
    case PlainText(password) => MysqlVerdict(h, authData, salt, DoubleSha1(h, h.utf8(password)))
    case MysqlNative(hash) => MysqlVerdict(h, authData, salt, hash)
    case _ => Rejected(Unsupported)
  }

  /** The honest scramble is accepted against the plain password and against its stored double hash. */
  lemma HonestScrambleAccepted(h: Hashes, password: string, salt: Bytes)
    requires Sized(h)
    ensures VerifyMysql(h, PlainText(password), Scramble(h, h.utf8(password), salt), salt) == Accepted
    ensures VerifyMysql(h, MysqlNative(DoubleSha1(h, h.utf8(password))), Scramble(h, h.utf8(password), salt), salt) ==
            Accepted
  {
    XorUndone(h.sha1(h.utf8(password)), h.sha1(salt + DoubleSha1(h, h.utf8(password))));
  }

  /** Unless SHA-1 has a second preimage there, the honest scramble is the only one accepted. */
  lemma OnlyHonestScrambleAccepted(h: Hashes, password: Bytes, salt: Bytes, authData: Bytes)
    requires Sized(h)
    requires NoOtherHash(h, password)
    ensures MysqlVerdict(h, authData, salt, DoubleSha1(h, password)) == Accepted <==>
            authData == Scramble(h, password, salt)
  {
    var tmp := h.sha1(salt + DoubleSha1(h, password));
    XorUndone(h.sha1(password), tmp);
    if |authData| == 20 {
      XorUndone(authData, tmp);
    }
  }

  /** No 20-byte text but the hash of the password hashes to the stored double hash. */
  ghost predicate NoOtherHash(h: Hashes, password: Bytes) {
    forall x :: |x| == 20 && h.sha1(x) == DoubleSha1(h, password) ==> x == h.sha1(password)
  }

  /**
   The whole MySQL exchange, for a plain and for a stored password: the honest
   scramble is accepted, and anything else refused for its length or its content.
   */
  lemma MysqlLoginExactly(h: Hashes, password: string, salt: Bytes, authData: Bytes)
    requires Sized(h) && NoOtherHash(h, h.utf8(password))
    ensures VerifyMysql(h, PlainText(password), authData, salt) ==
            if authData == Scramble(h, h.utf8(password), salt) then Accepted
            else if |authData| == 20 then Rejected(Mismatch)
            else Rejected(IllegalLength)
    ensures VerifyMysql(h, MysqlNative(DoubleSha1(h, h.utf8(password))), authData, salt) ==
            VerifyMysql(h, PlainText(password), authData, salt)
  {
    OnlyHonestScrambleAccepted(h, h.utf8(password), salt, authData);
  }

  /** A stored hash of the wrong size is reported as such. */
  lemma WrongVerifierRefused(h: Hashes, hash: Bytes, salt: Bytes, authData: Bytes)
    requires |hash| != 20 && |authData| == 20
    ensures VerifyMysql(h, MysqlNative(hash), authData, salt) == Rejected(IllegalVerifier)
  {
  }

  // ---------- From the printer to the handshake ----------

  /** `verify_plain_text`. */
  function VerifyPlain(h: Hashes, v: Verifier, password: string): bool {
    match v
    case PlainText(expected) => h.utf8(expected) == h.utf8(password)
    case Pbkdf2Sha256(iterations, salt, hash) => |hash| == 32 && hash == h.pbkdf2(h.utf8(password), salt, iterations)
    case MysqlNative(_) => false
    case PgScramSha256(s) => VerifyScramPassword(h, s, h.utf8(password))
  }

  // The printers of `common.rs`, from a password to the text of a verifier.

  function FormatMysql(h: Hashes, password: string): string {
    Print(MysqlNative(DoubleSha1(h, h.utf8(password))))
  }

  function FormatPbkdf2(h: Hashes, password: string, salt: Bytes, iterations: U32): Option<string> {
    if !ValidParams(iterations, salt) then None
    else Some(Print(Pbkdf2Sha256(iterations, salt, h.pbkdf2(h.utf8(password), salt, iterations))))
  }

  function FormatScram(h: Hashes, password: string, salt: Bytes, iterations: U32): Option<string> {
    var v := FromPassword(h, h.utf8(password), salt, iterations);
    if v.None? then None else Some(Print(PgScramSha256(v.value)))
  }

  // When the password of a verifier is the only one it can have been made from.

  ghost predicate NoOtherText(h: Hashes, password: string) {
    forall x :: h.utf8(x) == h.utf8(password) ==> x == password
  }

  ghost predicate NoOtherDerivation(h: Hashes, password: string, salt: Bytes, iterations: int) {
    forall x {:trigger h.utf8(x)} ::
      h.pbkdf2(h.utf8(x), salt, iterations) == h.pbkdf2(h.utf8(password), salt, iterations) ==> x == password
  }

  function StoredKey(h: Hashes, password: string, salt: Bytes, iterations: int): Bytes {
    h.sha256(ClientKey(h, SaltedPassword(h, h.utf8(password), salt, iterations)))
  }

  ghost predicate NoOtherStoredKey(h: Hashes, password: string, salt: Bytes, iterations: int) {
    forall x :: StoredKey(h, x, salt, iterations) == StoredKey(h, password, salt, iterations) ==> x == password
  }

  /** A plain password read back from its line is the one password accepted. */
  lemma PlainLoginExactly(h: Hashes, user: string, mode: PermissionMode, password: string, q: string)
    requires '=' !in user && ':' !in user && '=' !in password && NoOtherText(h, password)
    ensures var r := ParseLine(PrintLine(user, mode, PlainText(password)));
      && r == Some((user, PlainText(password), mode))
      && (VerifyPlain(h, r.value.1, q) <==> q == password)
  {
    PrintedLineParses(user, mode, PlainText(password));
  }

  /** A PBKDF2 line made from a password accepts that password and no other. */
  lemma Pbkdf2LoginExactly(
    h: Hashes, user: string, mode: PermissionMode, password: string, salt: Bytes, iterations: U32, q: string)
    requires Sized(h) && '=' !in user && ':' !in user && ValidParams(iterations, salt)
    requires NoOtherDerivation(h, password, salt, iterations)
    ensures FormatPbkdf2(h, password, salt, iterations).Some?
    ensures var r := ParseLine(LineOf(user, mode, FormatPbkdf2(h, password, salt, iterations).value));
      r.Some? && r.value.0 == user && r.value.2 == mode && (VerifyPlain(h, r.value.1, q) <==> q == password)
  {
    PrintedLineParses(user, mode, Pbkdf2Sha256(iterations, salt, h.pbkdf2(h.utf8(password), salt, iterations)));
  }

  /** A SCRAM line made from a password accepts that password and no other. */
  lemma ScramLoginExactly(
    h: Hashes, user: string, mode: PermissionMode, password: string, salt: Bytes, iterations: U32, q: string)
    requires Sized(h) && '=' !in user && ':' !in user && ValidParams(iterations, salt)
    requires NoOtherStoredKey(h, password, salt, iterations)
    ensures FormatScram(h, password, salt, iterations).Some?
    ensures var r := ParseLine(LineOf(user, mode, FormatScram(h, password, salt, iterations).value));
      r.Some? && r.value.0 == user && r.value.2 == mode && (VerifyPlain(h, r.value.1, q) <==> q == password)
  {
    VerifierFromPassword(h, h.utf8(password), salt, iterations);
    var v := FromPassword(h, h.utf8(password), salt, iterations).value;
    PrintedLineParses(user, mode, PgScramSha256(v));
    ScramStores(h, password, salt, iterations);
    if VerifyPlain(h, PgScramSha256(v), q) {
      assert StoredKey(h, q, salt, iterations) == StoredKey(h, password, salt, iterations);
    }
  }

  lemma ScramStores(h: Hashes, password: string, salt: Bytes, iterations: U32)
    requires Sized(h) && ValidParams(iterations, salt)
    ensures FromPassword(h, h.utf8(password), salt, iterations).Some?
    ensures var v := FromPassword(h, h.utf8(password), salt, iterations).value;
      v.iterations == iterations && v.salt == salt && v.storedKey == StoredKey(h, password, salt, iterations)
  {
  }

  /**
   A SCRAM verifier printed from a password and read back from its credential line
   accepts the password, answers the honest proof with the server signature, and
   has no MySQL exchange.
   */
  lemma PrintedScramAuthenticates(
    h: Hashes, user: string, mode: PermissionMode, password: string, salt: Bytes, iterations: U32, message: Bytes)
    requires Sized(h) && '=' !in user && ':' !in user && ValidParams(iterations, salt)
    ensures FormatScram(h, password, salt, iterations).Some?
    ensures var r := ParseLine(LineOf(user, mode, FormatScram(h, password, salt, iterations).value));
      && r.Some? && r.value.0 == user && r.value.2 == mode && r.value.1.PgScramSha256?
      && VerifyPlain(h, r.value.1, password)
      && VerifyProof(h, r.value.1.scram, message, ClientProof(h, h.utf8(password), salt, iterations, message)) ==
         Some(ServerSignature(h, h.utf8(password), salt, iterations, message))
      && VerifyMysql(h, r.value.1, message, salt) == Rejected(Unsupported)
  {
    VerifierFromPassword(h, h.utf8(password), salt, iterations);
    HonestProofAccepted(h, h.utf8(password), salt, iterations, message);
    PrintedLineParses(user, mode, PgScramSha256(FromPassword(h, h.utf8(password), salt, iterations).value));
  }

  /** Likewise for the MySQL verifier, which accepts the honest scramble and no plain password. */
  lemma PrintedMysqlAuthenticates(
    h: Hashes, user: string, mode: PermissionMode, password: string, salt: Bytes, q: string)
    requires Sized(h) && '=' !in user && ':' !in user
    ensures var r := ParseLine(LineOf(user, mode, FormatMysql(h, password)));
      && r.Some? && r.value.0 == user && r.value.2 == mode
      && VerifyMysql(h, r.value.1, Scramble(h, h.utf8(password), salt), salt) == Accepted
      && !VerifyPlain(h, r.value.1, q)
  {
    PrintedLineParses(user, mode, MysqlNative(DoubleSha1(h, h.utf8(password))));
    HonestScrambleAccepted(h, password, salt);
  }

  /** Likewise for the PBKDF2 verifier, which accepts its password and no scramble. */
  lemma PrintedPbkdf2Authenticates(
    h: Hashes, user: string, mode: PermissionMode, password: string, salt: Bytes, iterations: U32, authData: Bytes)
    requires Sized(h) && '=' !in user && ':' !in user && ValidParams(iterations, salt)
    ensures FormatPbkdf2(h, password, salt, iterations).Some?
    ensures var r := ParseLine(LineOf(user, mode, FormatPbkdf2(h, password, salt, iterations).value));
      && r.Some? && r.value.0 == user && r.value.2 == mode
      && VerifyPlain(h, r.value.1, password)
      && VerifyMysql(h, r.value.1, authData, salt) == Rejected(Unsupported)
  {
    PrintedLineParses(user, mode, Pbkdf2Sha256(iterations, salt, h.pbkdf2(h.utf8(password), salt, iterations)));
  }
}
