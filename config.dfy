/**
 * Process settings: the constant defaults, the validator that turns a
 * comma-separated CORS string into a list of origins, and the validators
 * that either pass a configured database URI through or build one from its
 * parts. The URL builder itself is not modelled; a built URI is kept as the
 * tuple of parts handed to it.
 */
module Config {
  import opened Wrappers

  /** The settings with their declared defaults. */
  datatype Settings = Settings(
    apiV1Str: string := "/api/v1",
    secretKey: string := "YOUR_SECRET_KEY_HERE",
    accessTokenExpireMinutes: int := 60 * 24 * 8,
    serverName: Option<string> := None,
    backendCorsOrigins: seq<string> := [],
    projectName: string := "User Management Service",
    postgresServer: Option<string> := None,
    postgresUser: Option<string> := None,
    postgresPassword: Option<string> := None,
    postgresDb: Option<string> := None,
    testPostgresServer: Option<string> := None,
    testPostgresUser: Option<string> := None,
    testPostgresPassword: Option<string> := None,
    testPostgresDb: Option<string> := None,
    firstSuperuser: Option<string> := None,
    firstSuperuserPassword: Option<string> := None)

  /** Tokens live eight days; the versioned API is mounted under `/api/v1`. */
  lemma DefaultSettings()
    ensures Settings().accessTokenExpireMinutes == 11520
    ensures Settings().apiV1Str == "/api/v1"
    ensures Settings().projectName == "User Management Service"
    ensures Settings().backendCorsOrigins == [] && Settings().postgresDb.None?
  {
  }

  // ---------------------------------------------------------------- strings

  /** The characters Python's `str.strip()` removes by default (its Unicode whitespace), by code point. */
  predicate IsSpace(c: char): (b: bool)
    ensures c == ' ' || c == '\t' || c == '\n' || c == '\r' ==> b
    ensures 0x21 <= c as int <= 0x7E ==> !b
  {
    var n := c as int;
    || 0x09 <= n <= 0x0D
    || 0x1C <= n <= 0x20
    || n == 0x85 || n == 0xA0 || n == 0x1680
    || 0x2000 <= n <= 0x200A
    || n == 0x2028 || n == 0x2029 || n == 0x202F || n == 0x205F || n == 0x3000
  }

  /** The number of occurrences of `sep` in `s`. */
  function Count(s: string, sep: char): nat {
    if s == [] then 0 else (if s[0] == sep then 1 else 0) + Count(s[1..], sep)
  }

  /** `sep.join(parts)`. */
  function Join(parts: seq<string>, sep: char): string {
    if parts == [] then ""
    else if |parts| == 1 then parts[0]
    else parts[0] + [sep] + Join(parts[1..], sep)
  }

  /** `s.split(sep)` for a one-character separator: one more piece than separators, none containing it. */
  function Split(s: string, sep: char): (parts: seq<string>)
    ensures |parts| == Count(s, sep) + 1
    ensures forall i :: 0 <= i < |parts| ==> sep !in parts[i]
    ensures Join(parts, sep) == s
  {
    if s == [] then [""]
    else
      var rest := Split(s[1..], sep);
      if s[0] == sep then [""] + rest
      else [[s[0]] + rest[0]] + rest[1..]
  }

  /** Splitting a join gives back the pieces, provided no piece holds the separator. */
  lemma {:induction false} SplitJoin(parts: seq<string>, sep: char)
    requires |parts| >= 1
    requires forall i :: 0 <= i < |parts| ==> sep !in parts[i]
    ensures Split(Join(parts, sep), sep) == parts
  {
    if |parts| == 1 {
      SplitPiece(parts[0], sep);
    } else {
      SplitJoin(parts[1..], sep);
      SplitPrefix(parts[0], Join(parts[1..], sep), sep);
      assert Join(parts, sep) == parts[0] + [sep] + Join(parts[1..], sep);
      assert [parts[0]] + parts[1..] == parts;
    }
  }

  lemma {:induction false} SplitPiece(p: string, sep: char)
    requires sep !in p
    ensures Split(p, sep) == [p]
  {
    if p != [] {
      SplitPiece(p[1..], sep);
      assert [p[0]] + p[1..] == p;
    }
  }

  lemma {:induction false} SplitPrefix(p: string, t: string, sep: char)
    requires sep !in p
    ensures Split(p + [sep] + t, sep) == [p] + Split(t, sep)
  {
    if p == [] {
      assert p + [sep] + t == [sep] + t;
      assert ([sep] + t)[1..] == t;
    } else {
      assert (p + [sep] + t)[1..] == p[1..] + [sep] + t;
      SplitPrefix(p[1..], t, sep);
      assert [p[0]] + p[1..] == p;
    }
  }

  /** Where `s.lstrip()` starts: the length of the leading whitespace. */
  function StripStart(s: string): (k: nat)
    ensures k <= |s|
    ensures forall i :: 0 <= i < k ==> IsSpace(s[i])
    ensures k < |s| ==> !IsSpace(s[k])
  {
    if s != [] && IsSpace(s[0]) then 1 + StripStart(s[1..]) else 0
  }

  /** `s.rstrip()`: the prefix of `s` left after dropping trailing whitespace. */
  function RStrip(s: string): (r: string)
    ensures |r| <= |s| && r == s[..|r|]
    ensures r != [] ==> !IsSpace(r[|r| - 1])
    ensures forall i :: |r| <= i < |s| ==> IsSpace(s[i])
  {
    if s != [] && IsSpace(s[|s| - 1]) then RStrip(s[..|s| - 1]) else s
  }

  /** `s.strip()`: the middle of `s` between its leading and its trailing whitespace. */
  function Strip(s: string): (r: string)
    ensures r != [] ==> !IsSpace(r[0]) && !IsSpace(r[|r| - 1])
    ensures StripStart(s) + |r| <= |s| && r == s[StripStart(s)..StripStart(s) + |r|]
    ensures forall i :: 0 <= i < StripStart(s) ==> IsSpace(s[i])
    ensures forall i :: StripStart(s) + |r| <= i < |s| ==> IsSpace(s[i])
  {
    var k := StripStart(s);
    var r := RStrip(s[k..]);
    assert forall i :: k + |r| <= i < |s| ==> s[i] == s[k..][i - k];
    r
  }

  /** Stripping a stripped string changes nothing. */
  lemma StripIdempotent(s: string)
    ensures Strip(Strip(s)) == Strip(s)
  {
    var r := Strip(s);
    assert StripStart(r) == 0;
    assert r[0..] == r;
  }

  // ------------------------------------------------------------ validators

  /** The raw value a settings source supplies for a field. */
  datatype RawValue = RawStr(s: string) | RawList(items: seq<string>) | RawOther

  datatype ConfigError = ValueError(offending: RawValue)

  predicate StartsWithBracket(s: string) {
    |s| > 0 && s[0] == '['
  }

  /** The origins of a comma-separated string: the pieces between commas, each stripped. */
  function SplitOrigins(s: string): (origins: seq<string>)
    ensures |origins| == Count(s, ',') + 1
    ensures forall i :: 0 <= i < |origins| ==> origins[i] == Strip(Split(s, ',')[i]) && ',' !in origins[i]
  {
    var pieces := Split(s, ',');
    var origins := seq(|pieces|, i requires 0 <= i < |pieces| => Strip(pieces[i]));
    assert forall i :: 0 <= i < |pieces| ==> ',' !in origins[i] by {
      forall i | 0 <= i < |pieces| ensures ',' !in origins[i] {
        var k := StripStart(pieces[i]);
        assert origins[i] == pieces[i][k..k + |origins[i]|];
        assert forall c :: c in origins[i] ==> c in pieces[i];
      }
    }
    origins
  }

  /**
   * `assemble_cors_origins`: a string not starting with `[` becomes its list of
   * origins; a list, or a string starting with `[` (a JSON list left for later
   * parsing), is passed through; anything else is a `ValueError`.
   */
  function AssembleCorsOrigins(v: RawValue): (r: Result<RawValue, ConfigError>)
    ensures r.Failure? <==> v.RawOther?
    ensures r.Failure? ==> r.error == ValueError(v)
    ensures v.RawStr? && !StartsWithBracket(v.s) ==> r == Success(RawList(SplitOrigins(v.s)))
    ensures v.RawList? || (v.RawStr? && StartsWithBracket(v.s)) ==> r == Success(v)
  {
    if v.RawStr? && !StartsWithBracket(v.s) then Success(RawList(SplitOrigins(v.s)))
    else if v.RawList? || v.RawStr? then Success(v)
    else Failure(ValueError(v))
  }

  /** A comma-free origin string is one origin, itself stripped. */
  lemma SingleOrigin(s: string)
    requires ',' !in s && !StartsWithBracket(s)
    ensures AssembleCorsOrigins(RawStr(s)) == Success(RawList([Strip(s)]))
  {
    SplitPiece(s, ',');
    var origins := SplitOrigins(s);
    assert |origins| == 1 && origins[0] == Strip(s);
    assert origins == [Strip(s)];
  }

  /** The parts a database URI is built from when none is configured. */
  datatype Dsn = Dsn(scheme: string, username: Option<string>, password: Option<string>, host: Option<string>, path: string)

  datatype DbUri = Given(uri: string) | Built(dsn: Dsn)

  /** `f"/{db or ''}"`: a missing or empty database name gives the bare root path. */
  function DbPath(db: Option<string>): (path: string)
    ensures |path| >= 1 && path[0] == '/'
    ensures path == "/" <==> db.None? || db.value == ""
    ensures db.Some? ==> path[1..] == db.value
  {
    "/" + (if db.Some? then db.value else "")
  }

  /** A configured URI string wins; otherwise a `postgresql` URI is built from the parts. */
  function PassOrBuild(v: Option<string>, user: Option<string>, password: Option<string>, host: Option<string>, db: Option<string>): (r: DbUri)
    ensures r.Given? <==> v.Some?
    ensures v.Some? ==> r == Given(v.value)
    ensures v.None? ==> r == Built(Dsn("postgresql", user, password, host, DbPath(db)))
  {
    if v.Some? then Given(v.value) else Built(Dsn("postgresql", user, password, host, DbPath(db)))
  }

  /** `assemble_db_connection`, drawing the parts from the POSTGRES_* settings. */
  function AssembleDbConnection(v: Option<string>, s: Settings): (r: DbUri)
    ensures v.Some? ==> r == Given(v.value)
    ensures v.None? ==>
      && r.Built? && r.dsn.host == s.postgresServer && r.dsn.username == s.postgresUser
      && r.dsn.password == s.postgresPassword && r.dsn.path == DbPath(s.postgresDb)
  {
    PassOrBuild(v, s.postgresUser, s.postgresPassword, s.postgresServer, s.postgresDb)
  }

  /** `assemble_test_db_connection`, drawing the parts from the TEST_POSTGRES_* settings. */
  function AssembleTestDbConnection(v: Option<string>, s: Settings): (r: DbUri)
    ensures v.Some? ==> r == Given(v.value)
    ensures v.None? ==>
      && r.Built? && r.dsn.host == s.testPostgresServer && r.dsn.username == s.testPostgresUser
      && r.dsn.password == s.testPostgresPassword && r.dsn.path == DbPath(s.testPostgresDb)
  {
    PassOrBuild(v, s.testPostgresUser, s.testPostgresPassword, s.testPostgresServer, s.testPostgresDb)
  }
}
