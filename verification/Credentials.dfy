/**
 The credential text format: the printers of password verifiers and the parser of
 credential lines `user[:permission]=verifier`.
 */
module Credentials {
  import opened Integers
  import opened Option
  import opened Text

  const MAX_ITERATIONS := 1_000_000
  const MAX_SALT_LEN := 1024

  datatype Scram = Scram(iterations: U32, salt: Bytes, storedKey: Bytes, serverKey: Bytes)

  /** `PasswordVerifier`. The SCRAM verifier next to a plain password is a cache and no part of its identity. */
  datatype Verifier =
    | PlainText(password: string)
    | Pbkdf2Sha256(iterations: U32, salt: Bytes, hash: Bytes)
    | MysqlNative(hash: Bytes)
    | PgScramSha256(scram: Scram)

  datatype PermissionMode = ReadWrite | ReadOnly | WriteOnly

  predicate ValidParams(iterations: int, salt: Bytes) {
    0 < iterations <= MAX_ITERATIONS && 0 < |salt| <= MAX_SALT_LEN
  }

  /** `PgScramSha256Verifier::new` succeeds. */
  predicate ValidScram(v: Scram) {
    ValidParams(v.iterations, v.salt) && |v.storedKey| == 32 && |v.serverKey| == 32
  }

  /** The verifiers the printers can produce and the parser accepts. */
  predicate Valid(v: Verifier) {
    match v
    case PlainText(_) => true
    case Pbkdf2Sha256(iterations, salt, hash) => ValidParams(iterations, salt) && |hash| == 32
    case MysqlNative(hash) => |hash| == 20
    case PgScramSha256(scram) => ValidScram(scram)
  }

  /** The sizes of salts, keys and hashes, and the number of iterations, written out. */
  lemma ValidSizes(v: Verifier)
    ensures Valid(v) <==>
            match v
            case PlainText(_) => true
            case Pbkdf2Sha256(iterations, salt, hash) =>
              1 <= iterations <= 1_000_000 && 1 <= |salt| <= 1024 && |hash| == 32
            case MysqlNative(hash) => |hash| == 20
            case PgScramSha256(s) =>
              1 <= s.iterations <= 1_000_000 && 1 <= |s.salt| <= 1024 && |s.storedKey| == 32 && |s.serverKey| == 32
  {
  }

  // ---------- Printing ----------

  const PLAIN := "plain:"
  const PBKDF2 := "pbkdf2_sha256:"
  const MYSQL := "mysql_native_password:"
  const SCRAM := "pg_scram_sha256:"

  function Pbkdf2Text(iterations: U32, salt: Bytes, hash: Bytes): string {
    Decimal(iterations) + ":" + (HexEncode(salt) + ":" + HexEncode(hash))
  }

  function ScramText(s: Scram): string {
    Decimal(s.iterations) + ":" + (HexEncode(s.salt) + ":" + (HexEncode(s.storedKey) + ":" + HexEncode(s.serverKey)))
  }

  function Print(v: Verifier): string {
    match v
    case PlainText(password) => PLAIN + password
    case Pbkdf2Sha256(iterations, salt, hash) => PBKDF2 + Pbkdf2Text(iterations, salt, hash)
    case MysqlNative(hash) => MYSQL + HexEncode(hash)
    case PgScramSha256(s) => SCRAM + ScramText(s)
  }

  function PrintMode(mode: PermissionMode): string {
    match mode
    case ReadWrite => "rw"
    case ReadOnly => "ro"
    case WriteOnly => "wo"
  }

  /** A credential line with the verifier given as text. */
  function LineOf(user: string, mode: PermissionMode, text: string): string {
    (user + ":" + PrintMode(mode)) + "=" + text
  }

  function PrintLine(user: string, mode: PermissionMode, v: Verifier): string {
    LineOf(user, mode, Print(v))
  }

  // ---------- Parsing ----------

  function LowerChar(c: char): char {
    if 'A' <= c <= 'Z' then (c as int + 32) as char else c
  }

  function Lower(s: string): string {
    seq(|s|, i requires 0 <= i < |s| => LowerChar(s[i]))
  }

  /** `PermissionMode::from_str`. */
  function ParseMode(s: string): Option<PermissionMode> {
    var t := Lower(s);
    if t == "readwrite" || t == "read_write" || t == "rw" then Some(ReadWrite)
    else if t == "readonly" || t == "read_only" || t == "ro" then Some(ReadOnly)
    else if t == "writeonly" || t == "write_only" || t == "wo" then Some(WriteOnly)
    else None
  }

  function ParsePbkdf2(text: string): Option<Verifier> {
    var parts := Split(text, ':');
    if |parts| != 3 then None
    else
      var iterations, salt, hash := ParseU32(parts[0]), HexDecode(parts[1]), HexDecode(parts[2]);
      if iterations.None? || salt.None? || hash.None? then None
      else
        var v := Pbkdf2Sha256(iterations.value, salt.value, hash.value);
        if Valid(v) then Some(v) else None
  }

  function ParseMysql(text: string): Option<Verifier> {
    var hash := HexDecode(text);
    if hash.None? || |hash.value| != 20 then None else Some(MysqlNative(hash.value))
  }

  function ParseScram(text: string): Option<Verifier> {
    var parts := Split(text, ':');
    if |parts| != 4 then None
    else
      var iterations, salt, storedKey, serverKey :=
        ParseU32(parts[0]), HexDecode(parts[1]), HexDecode(parts[2]), HexDecode(parts[3]);
      if iterations.None? || salt.None? || storedKey.None? || serverKey.None? then None
      else
        var v := PgScramSha256(Scram(iterations.value, salt.value, storedKey.value, serverKey.value));
        if Valid(v) then Some(v) else None
  }

  /** `PasswordVerifier::parse`: four prefixes are tried in turn; any other text is a legacy plain password. */
  function Parse(input: string): Option<Verifier> {
    if StripPrefix(input, PLAIN).Some? then Some(PlainText(StripPrefix(input, PLAIN).value))
    else if StripPrefix(input, PBKDF2).Some? then ParsePbkdf2(StripPrefix(input, PBKDF2).value)
    else if StripPrefix(input, MYSQL).Some? then ParseMysql(StripPrefix(input, MYSQL).value)
    else if StripPrefix(input, SCRAM).Some? then ParseScram(StripPrefix(input, SCRAM).value)
    else Some(PlainText(input))
  }

  /** `parse_credential_line`: exactly one equals sign; a permission mode after the first colon. */
  function ParseLine(line: string): Option<(string, Verifier, PermissionMode)> {
    var parts := Split(line, '=');
    if |parts| != 2 then None
    else
      var split, v := SplitOnce(parts[0], ':'), Parse(parts[1]);
      if split.None? then
        if v.None? then None else Some((parts[0], v.value, ReadWrite))
      else
        var mode := ParseMode(split.value.1);
        if mode.None? || v.None? then None else Some((split.value.0, v.value, mode.value))
  }

  // ---------- Round trip ----------

  lemma ModeRoundTrip(mode: PermissionMode)
    ensures ParseMode(PrintMode(mode)) == Some(mode)
    ensures '=' !in PrintMode(mode) && |PrintMode(mode)| == 2
  {
    assert Lower("rw") == "rw" && Lower("ro") == "ro" && Lower("wo") == "wo";
  }

  lemma SplitThree(a: string, b: string, c: string)
    requires ':' !in a && ':' !in b && ':' !in c
    ensures Split(a + ":" + (b + ":" + c), ':') == [a, b, c]
  {
    SplitAt(a, ':', b + ":" + c);
    SplitAt(b, ':', c);
    SplitNone(c, ':');
  }

  lemma SplitFour(a: string, b: string, c: string, d: string)
    requires ':' !in a && ':' !in b && ':' !in c && ':' !in d
    ensures Split(a + ":" + (b + ":" + (c + ":" + d)), ':') == [a, b, c, d]
  {
    SplitAt(a, ':', b + ":" + (c + ":" + d));
    SplitThree(b, c, d);
  }

  lemma Pbkdf2TextParses(iterations: U32, salt: Bytes, hash: Bytes)
    requires Valid(Pbkdf2Sha256(iterations, salt, hash))
    ensures ParsePbkdf2(Pbkdf2Text(iterations, salt, hash)) == Some(Pbkdf2Sha256(iterations, salt, hash))
    ensures '=' !in Pbkdf2Text(iterations, salt, hash)
  {
    ParseDecimal(iterations);
    HexRoundTrip(salt);
    HexRoundTrip(hash);
    HexIsPlain(salt);
    HexIsPlain(hash);
    SplitThree(Decimal(iterations), HexEncode(salt), HexEncode(hash));
  }

  lemma ScramTextParses(s: Scram)
    requires ValidScram(s)
    ensures ParseScram(ScramText(s)) == Some(PgScramSha256(s))
    ensures '=' !in ScramText(s)
  {
    ScramTextIsPlain(s);
    ParseDecimal(s.iterations);
    HexRoundTrip(s.salt);
    HexRoundTrip(s.storedKey);
    HexRoundTrip(s.serverKey);
    HexIsPlain(s.salt);
    HexIsPlain(s.storedKey);
    HexIsPlain(s.serverKey);
    SplitFour(Decimal(s.iterations), HexEncode(s.salt), HexEncode(s.storedKey), HexEncode(s.serverKey));
  }

  lemma ScramTextIsPlain(s: Scram)
    ensures '=' !in ScramText(s)
  {
    ParseDecimal(s.iterations);
    HexIsPlain(s.salt);
    HexIsPlain(s.storedKey);
    HexIsPlain(s.serverKey);
  }

  lemma ParsePbkdf2Prefix(text: string)
    ensures Parse(PBKDF2 + text) == ParsePbkdf2(text)
  {
    StripPrefixOf(PBKDF2, text);
    StripOther(PBKDF2, text, PLAIN, 1);
  }

  lemma ParseMysqlPrefix(text: string)
    ensures Parse(MYSQL + text) == ParseMysql(text)
  {
    StripPrefixOf(MYSQL, text);
    StripOther(MYSQL, text, PLAIN, 0);
    StripOther(MYSQL, text, PBKDF2, 0);
  }

  lemma ParseScramPrefix(text: string)
    ensures Parse(SCRAM + text) == ParseScram(text)
  {
    StripPrefixOf(SCRAM, text);
    StripOther(SCRAM, text, PLAIN, 1);
    StripOther(SCRAM, text, PBKDF2, 1);
    StripOther(SCRAM, text, MYSQL, 0);
  }

  lemma PrefixesArePlain()
    ensures '=' !in PLAIN && '=' !in PBKDF2 && '=' !in MYSQL && '=' !in SCRAM
  {
  }

  lemma VerifierRoundTrip(v: Verifier)
    requires Valid(v)
    ensures Parse(Print(v)) == Some(v)
    ensures '=' in Print(v) ==> v.PlainText? && '=' in v.password
  {
    PrefixesArePlain();
    match v
    case PlainText(password) => StripPrefixOf(PLAIN, password);
    case Pbkdf2Sha256(iterations, salt, hash) =>
      Pbkdf2TextParses(iterations, salt, hash);
      ParsePbkdf2Prefix(Pbkdf2Text(iterations, salt, hash));
    case MysqlNative(hash) =>
      HexRoundTrip(hash);
      HexIsPlain(hash);
      ParseMysqlPrefix(HexEncode(hash));
    case PgScramSha256(s) =>
      ScramTextParses(s);
      ParseScramPrefix(ScramText(s));
  }

  /** The verifier is a plain password that a credential line cannot hold. */
  predicate Unwritable(v: Verifier) {
    v.PlainText? && '=' in v.password
  }

  /**
   For every user name without separators, every mode and every valid verifier:
   the printed line parses back to exactly these three, unless the verifier is a
   plain password with an equals sign in it, in which case the line is rejected.
   */
  lemma PrintedLineParses(user: string, mode: PermissionMode, v: Verifier)
    requires '=' !in user && ':' !in user && Valid(v)
    ensures ParseLine(PrintLine(user, mode, v)) == if Unwritable(v) then None else Some((user, v, mode))
  {
    VerifierRoundTrip(v);
    LineSplits(user, mode, Print(v));
    if Unwritable(v) {
      var i :| 0 <= i < |v.password| && v.password[i] == '=';
      assert Print(v)[|PLAIN| + i] == '=';
      SplitSingle(Print(v), '=');
    } else {
      SplitNone(Print(v), '=');
      ModeRoundTrip(mode);
      SplitOnceAt(user, ':', PrintMode(mode));
    }
  }

  lemma LineSplits(user: string, mode: PermissionMode, text: string)
    requires '=' !in user
    ensures Split(LineOf(user, mode, text), '=') == [user + ":" + PrintMode(mode)] + Split(text, '=')
  {
    ModeRoundTrip(mode);
    SplitAt(user + ":" + PrintMode(mode), '=', text);
  }

  /** The fields of a hashed verifier, in the order of the documented format. */
  lemma PrintedFields(iterations: U32, salt: Bytes, hash: Bytes, s: Scram)
    ensures Split(Print(Pbkdf2Sha256(iterations, salt, hash)), ':') ==
            ["pbkdf2_sha256", Decimal(iterations), HexEncode(salt), HexEncode(hash)]
    ensures Split(Print(MysqlNative(hash)), ':') == ["mysql_native_password", HexEncode(hash)]
    ensures Split(Print(PgScramSha256(s)), ':') ==
            ["pg_scram_sha256", Decimal(s.iterations),
             HexEncode(s.salt), HexEncode(s.storedKey), HexEncode(s.serverKey)]
  {
    Pbkdf2Fields(iterations, salt, hash);
    MysqlFields(hash);
    ScramFields(s);
  }

  lemma FieldsAfter(name: string, prefix: string, text: string)
    requires prefix == name + [':'] && ':' !in name
    ensures Split(prefix + text, ':') == [name] + Split(text, ':')
  {
    SplitAt(name, ':', text);
  }

  lemma Pbkdf2Fields(iterations: U32, salt: Bytes, hash: Bytes)
    ensures Split(Print(Pbkdf2Sha256(iterations, salt, hash)), ':') ==
            ["pbkdf2_sha256", Decimal(iterations), HexEncode(salt), HexEncode(hash)]
  {
    Pbkdf2TextFields(iterations, salt, hash);
    FieldsAfter("pbkdf2_sha256", PBKDF2, Pbkdf2Text(iterations, salt, hash));
  }

  lemma MysqlFields(hash: Bytes)
    ensures Split(Print(MysqlNative(hash)), ':') == ["mysql_native_password", HexEncode(hash)]
  {
    HexIsPlain(hash);
    FieldsAfter("mysql_native_password", MYSQL, HexEncode(hash));
    SplitNone(HexEncode(hash), ':');
  }

  lemma ScramTextFields(s: Scram)
    ensures Split(ScramText(s), ':') ==
            [Decimal(s.iterations), HexEncode(s.salt), HexEncode(s.storedKey), HexEncode(s.serverKey)]
  {
    ParseDecimal(s.iterations);
    HexIsPlain(s.salt);
    HexIsPlain(s.storedKey);
    HexIsPlain(s.serverKey);
    SplitFour(Decimal(s.iterations), HexEncode(s.salt), HexEncode(s.storedKey), HexEncode(s.serverKey));
  }

  lemma Pbkdf2TextFields(iterations: U32, salt: Bytes, hash: Bytes)
    ensures Split(Pbkdf2Text(iterations, salt, hash), ':') == [Decimal(iterations), HexEncode(salt), HexEncode(hash)]
  {
    ParseDecimal(iterations);
    HexIsPlain(salt);
    HexIsPlain(hash);
    SplitThree(Decimal(iterations), HexEncode(salt), HexEncode(hash));
  }

  lemma ScramFields(s: Scram)
    ensures Split(Print(PgScramSha256(s)), ':') ==
            ["pg_scram_sha256", Decimal(s.iterations),
             HexEncode(s.salt), HexEncode(s.storedKey), HexEncode(s.serverKey)]
  {
    ScramTextFields(s);
    FieldsAfter("pg_scram_sha256", SCRAM, ScramText(s));
  }

  // ---------- Lines no printer makes ----------

  /** A text with one of the four prefixes is no legacy password. */
  predicate Prefixed(text: string) {
    PLAIN <= text || PBKDF2 <= text || MYSQL <= text || SCRAM <= text
  }

  /** A line without a mode grants reading and writing. */
  lemma LineWithoutMode(user: string, text: string)
    requires '=' !in user && ':' !in user && '=' !in text
    ensures ParseLine(user + "=" + text) ==
            if Parse(text).None? then None else Some((user, Parse(text).value, ReadWrite))
  {
    SplitAt(user, '=', text);
    SplitNone(text, '=');
    SplitOnceSound(user, ':');
  }

  /** The prefix of a plain password is taken off, and nothing else. */
  lemma PlainPrefix(password: string)
    ensures Parse("plain:" + password) == Some(PlainText(password))
  {
    StripPrefixOf("plain:", password);
  }

  /** `user=password`: a text without a prefix is a plain password, with nothing taken from it. */
  lemma LegacyLine(user: string, password: string)
    requires '=' !in user && ':' !in user && '=' !in password && !Prefixed(password)
    ensures ParseLine(user + "=" + password) == Some((user, PlainText(password), ReadWrite))
  {
    LineWithoutMode(user, password);
  }

  /** Every spelling of a mode, in any case of its letters. */
  predicate Spells(name: string, mode: PermissionMode) {
    Lower(name) in
    (match mode
     case ReadWrite => {"rw", "readwrite", "read_write"}
     case ReadOnly => {"ro", "readonly", "read_only"}
     case WriteOnly => {"wo", "writeonly", "write_only"})
  }

  /** `user:mode=verifier`: accepted exactly with a known mode and a verifier that parses. */
  lemma LineWithMode(user: string, name: string, text: string, mode: PermissionMode)
    requires '=' !in user && ':' !in user && '=' !in name && '=' !in text
    ensures var r := ParseLine(user + ":" + name + "=" + text);
      && (r.Some? && r.value.2 == mode <==> Spells(name, mode) && Parse(text).Some?)
      && (r.Some? ==> r.value.0 == user && Some(r.value.1) == Parse(text))
  {
    SplitAt(user + ":" + name, '=', text);
    SplitNone(text, '=');
    SplitOnceAt(user, ':', name);
    SpellingDecides(name, mode);
  }

  function Capitals(s: string): string {
    seq(|s|, i requires 0 <= i < |s| => if 'a' <= s[i] <= 'z' then (s[i] as int - 32) as char else s[i])
  }

  /** Capital letters do not matter. */
  lemma ModeInCapitals(name: string)
    ensures ParseMode(Capitals(name)) == ParseMode(name)
    ensures ParseMode("RW") == Some(ReadWrite)
  {
    assert Lower(Capitals(name)) == Lower(name);
    assert Lower("RW") == "rw";
  }

  lemma SpellingDecides(name: string, mode: PermissionMode)
    ensures ParseMode(name) == Some(mode) <==> Spells(name, mode)
  {
  }

  // ---------- Soundness of the parser ----------

  lemma {:induction false} SplitParts(s: string, c: char)
    ensures forall i :: 0 <= i < |Split(s, c)| ==> c !in Split(s, c)[i]
  {
    if s == [] {
    } else {
      SplitParts(s[1..], c);
      var rest := Split(s[1..], c);
      assert c !in rest[0];
      if s[0] != c { assert c !in [s[0]] + rest[0]; }
    }
  }

  /**
   What the parser accepts is valid, the user name it returns has no separator in
   it, and a plain password it returns has no equals sign in it.
   */
  lemma AcceptedIsValid(line: string)
    requires ParseLine(line).Some?
    ensures var (user, v, mode) := ParseLine(line).value;
      Valid(v) && !Unwritable(v) && '=' !in user && ':' !in user
  {
    var parts := Split(line, '=');
    SplitParts(line, '=');
    assert '=' !in parts[0] && '=' !in parts[1];
    SplitOnceSound(parts[0], ':');
  }

  /** Every accepted line is one of the printers' up to spelling: reprinting changes nothing. */
  lemma ReprintIsFaithful(line: string)
    requires ParseLine(line).Some?
    ensures var (user, v, mode) := ParseLine(line).value;
      ParseLine(PrintLine(user, mode, v)) == ParseLine(line)
  {
    AcceptedIsValid(line);
    var (user, v, mode) := ParseLine(line).value;
    PrintedLineParses(user, mode, v);
  }

  /**
   For any user, mode and verifier, valid or not: the printed line parses back to
   these exactly when the user name holds no separator, and the verifier is valid
   and no plain password with an equals sign in it.
   */
  lemma LineRoundTrip(user: string, mode: PermissionMode, v: Verifier)
    ensures ParseLine(PrintLine(user, mode, v)) == Some((user, v, mode)) <==>
            '=' !in user && ':' !in user && Valid(v) && !Unwritable(v)
  {
    if '=' !in user && ':' !in user && Valid(v) {
      PrintedLineParses(user, mode, v);
    } else if ParseLine(PrintLine(user, mode, v)) == Some((user, v, mode)) {
      AcceptedIsValid(PrintLine(user, mode, v));
      assert false;
    }
  }

  // ---------- The authentication method offered to PostgreSQL clients ----------

  datatype PgAuth = Cleartext | ScramAuth(scram: Scram, known: bool)

  predicate SupportsScram(v: Verifier) {
    v.PlainText? || v.PgScramSha256?
  }

  function ScramOf(v: Verifier, cached: string -> Scram): Option<Scram> {
    match v
    case PlainText(password) => Some(cached(password))
    case PgScramSha256(s) => Some(s)
    case _ => None
  }

  /** `postgres_auth_info_with_credential`; a blank user name is refused. */
  function PostgresAuth(users: map<string, Verifier>, user: string, cached: string -> Scram, mock: string -> Scram)
    : Option<PgAuth>
  {
    if user == [] then None
    else if exists u :: u in users && !SupportsScram(users[u]) then Some(Cleartext)
    else if user in users then
      var s := ScramOf(users[user], cached);
      if s.Some? then Some(ScramAuth(s.value, true)) else Some(Cleartext)
    else Some(ScramAuth(mock(user), false))
  }

  /**
   The method offered does not depend on the user name: it is SCRAM for all names,
   known or not, exactly when every stored verifier supports it, and clear text for all otherwise.
   Under SCRAM a known user gets their own verifier and an unknown one a mock.
   */
  lemma MethodHidesUsers(users: map<string, Verifier>, user: string, cached: string -> Scram, mock: string -> Scram)
    requires user != []
    ensures PostgresAuth(users, user, cached, mock).Some?
    ensures PostgresAuth(users, user, cached, mock).value.ScramAuth? <==>
            forall u :: u in users ==> users[u].PlainText? || users[u].PgScramSha256?
    ensures PostgresAuth(users, user, cached, mock).value.ScramAuth? ==>
      var auth := PostgresAuth(users, user, cached, mock).value;
      && (auth.known <==> user in users)
      && (user in users && users[user].PgScramSha256? ==> auth.scram == users[user].scram)
      && (user in users && users[user].PlainText? ==> auth.scram == cached(users[user].password))
      && (user !in users ==> auth.scram == mock(user))
    ensures PostgresAuth(users, [], cached, mock).None?
  {
  }
}
