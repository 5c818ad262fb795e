/** The environment-driven part of the Django settings module: the secret
    key presence check, the DEBUG flag, the comma-separated host and origin
    lists, and the transport-security flags derived from DEBUG. The process
    environment is a map from variable names to values. */
module Settings {
  import opened Wrappers
  import opened PyStr

  type Env = map<string, string>

  const SecretKeyVar := "DJANGO_SECRET_KEY"
  const DebugVar := "DJANGO_DEBUG"
  const AllowedHostsVar := "DJANGO_ALLOWED_HOSTS"
  const CorsOriginsVar := "CORS_ALLOWED_ORIGINS"

  const MissingSecretKey := "DJANGO_SECRET_KEY environment variable is not set"

  /** One year, the HSTS max-age used outside DEBUG. */
  const HstsOneYear: nat := 31536000

  /** `os.environ.get(name, default)`. */
  function GetEnv(env: Env, name: string, default: string): string {
    if name in env then env[name] else default
  }

  /** The list comprehension `[p.strip() for p in pieces if p.strip()]`. */
  function StripNonBlank(pieces: seq<string>): (r: seq<string>)
    ensures |r| <= |pieces|
    ensures forall i :: 0 <= i < |r| ==> r[i] != [] && Trimmed(r[i])
    decreases |pieces|
  {
    if pieces == [] then []
    else
      var h := Strip(pieces[0]);
      var rest := StripNonBlank(pieces[1..]);
      if h == [] then rest
      else
        ConsClean(h, rest);
        [h] + rest
  }

  /** Putting a clean entry in front of clean entries keeps them clean. */
  lemma ConsClean(h: string, rest: seq<string>)
    requires h != [] && Trimmed(h)
    requires forall i :: 0 <= i < |rest| ==> rest[i] != [] && Trimmed(rest[i])
    ensures forall i :: 0 <= i < |[h] + rest| ==> ([h] + rest)[i] != [] && Trimmed(([h] + rest)[i])
  {
    forall i | 0 <= i < |[h] + rest|
      ensures ([h] + rest)[i] != [] && Trimmed(([h] + rest)[i])
    {
      if i > 0 {
        assert ([h] + rest)[i] == rest[i - 1];
      }
    }
  }

  /** The comprehension works piece by piece: on a concatenation it is the
      concatenation of its results. */
  lemma {:induction false} StripNonBlankConcat(p: seq<string>, q: seq<string>)
    ensures StripNonBlank(p + q) == StripNonBlank(p) + StripNonBlank(q)
    decreases |p|
  {
    if p == [] {
      assert p + q == q;
    } else {
      var x, tail := p[0], p[1..];
      assert p == [x] + tail;
      assert p + q == [x] + (tail + q);
      StripNonBlankCons(x, tail);
      StripNonBlankCons(x, tail + q);
      StripNonBlankConcat(tail, q);
      var h: seq<string> := if Strip(x) == [] then [] else [Strip(x)];
      var A, B := StripNonBlank(tail), StripNonBlank(q);
      assert StripNonBlank(p + q) == h + (A + B);
      assert StripNonBlank(p) == h + A;
      ConcatAssoc(h, A, B);
    }
  }

  lemma ConcatAssoc(a: seq<string>, b: seq<string>, c: seq<string>)
    ensures a + (b + c) == (a + b) + c
  {
  }

  /** One step of the comprehension: the first piece, stripped, is kept in
      front exactly when it is not blank. */
  lemma StripNonBlankCons(x: string, rest: seq<string>)
    ensures StripNonBlank([x] + rest) == (if Strip(x) == [] then [] else [Strip(x)]) + StripNonBlank(rest)
  {
    assert ([x] + rest)[1..] == rest;
  }


  /** The parse shared by ALLOWED_HOSTS and CORS_ALLOWED_ORIGINS: split on
      commas, strip each piece, drop the blank ones. */
  function ParseList(raw: string): (r: seq<string>)
    ensures forall i :: 0 <= i < |r| ==> r[i] != [] && Trimmed(r[i]) && ',' !in r[i]
    ensures raw == [] ==> r == []
  {
    var pieces := Split(raw, ',');
    StripNonBlankKeepsOut(pieces, ',');
    assert raw == [] ==> pieces == [[]] && Strip([]) == [] && StripNonBlank(pieces) == [];
    StripNonBlank(pieces)
  }

  /** A character absent from every piece is absent from every kept entry. */
  lemma {:induction false} StripNonBlankKeepsOut(pieces: seq<string>, c: char)
    requires forall i :: 0 <= i < |pieces| ==> c !in pieces[i]
    ensures forall i :: 0 <= i < |StripNonBlank(pieces)| ==> c !in StripNonBlank(pieces)[i]
    decreases |pieces|
  {
    if pieces != [] {
      var x, tail := pieces[0], pieces[1..];
      assert pieces == [x] + tail;
      StripNonBlankCons(x, tail);
      StripNonBlankKeepsOut(tail, c);
      var h: seq<string> := if Strip(x) == [] then [] else [Strip(x)];
      ConcatKeepsOut(h, StripNonBlank(tail), c);
    }
  }

  /** A character absent from every entry of two lists is absent from every
      entry of their concatenation. */
  lemma ConcatKeepsOut(a: seq<string>, b: seq<string>, c: char)
    requires forall i :: 0 <= i < |a| ==> c !in a[i]
    requires forall i :: 0 <= i < |b| ==> c !in b[i]
    ensures forall i :: 0 <= i < |a + b| ==> c !in (a + b)[i]
  {
  }

  /** An entry is kept exactly when it is the non-empty stripped form of
      some comma-separated piece. */
  lemma {:induction false} StripNonBlankMembers(pieces: seq<string>, x: string)
    ensures x in StripNonBlank(pieces) <==> x != [] && exists i :: 0 <= i < |pieces| && Strip(pieces[i]) == x
    decreases |pieces|
  {
    if pieces != [] {
      StripNonBlankMembers(pieces[1..], x);
      var h := Strip(pieces[0]);
      assert StripNonBlank(pieces) == if h == [] then StripNonBlank(pieces[1..]) else [h] + StripNonBlank(pieces[1..]);
      if x != [] && exists i :: 0 <= i < |pieces| && Strip(pieces[i]) == x {
        var i :| 0 <= i < |pieces| && Strip(pieces[i]) == x;
        if i > 0 {
          assert Strip(pieces[1..][i - 1]) == x;
        }
      }
      if exists i :: 0 <= i < |pieces[1..]| && Strip(pieces[1..][i]) == x {
        var i :| 0 <= i < |pieces[1..]| && Strip(pieces[1..][i]) == x;
        assert Strip(pieces[i + 1]) == x;
      }
    }
  }

  /** An entry of the parsed list is exactly the non-empty stripped form of
      one of the comma-separated pieces of the variable. */
  lemma {:induction false} ParseListMembers(raw: string, x: string)
    ensures x in ParseList(raw) ==> x != [] && exists i :: 0 <= i < |Split(raw, ',')| && Strip(Split(raw, ',')[i]) == x
    ensures x != [] && (exists i :: 0 <= i < |Split(raw, ',')| && Strip(Split(raw, ',')[i]) == x) ==> x in ParseList(raw)
  {
    var pieces := Split(raw, ',');
    StripNonBlankMembers(pieces, x);
    assert ParseList(raw) == StripNonBlank(pieces);
  }

  /** The parse works entry by entry, in order: a comma splits the raw text
      into two parts whose parsed lists are concatenated. */
  lemma ParseListConcat(a: string, b: string)
    ensures ParseList(a + "," + b) == ParseList(a) + ParseList(b)
  {
    SplitConcat(a, b, ',');
    assert a + "," + b == a + [','] + b;
    StripNonBlankConcat(Split(a, ','), Split(b, ','));
  }

  /** A single comma-free piece parses to its stripped form, or to nothing
      when it is blank. With ParseListConcat this fixes the parsed list,
      order and repetitions included. */
  lemma ParseListPiece(piece: string)
    requires ',' !in piece
    ensures ParseList(piece) == if Strip(piece) == [] then [] else [Strip(piece)]
  {
    SplitNoSep(piece, ',');
    assert [piece][1..] == [];
  }



  /** Entries that are already clean survive the parse unchanged and in order. */
  lemma {:induction false} StripNonBlankClean(entries: seq<string>)
    requires forall i :: 0 <= i < |entries| ==> entries[i] != [] && Trimmed(entries[i])
    ensures StripNonBlank(entries) == entries
    decreases |entries|
  {
    if entries != [] {
      StripTrimmed(entries[0]);
      StripNonBlankClean(entries[1..]);
      assert entries == [entries[0]] + entries[1..];
    }
  }

  /** Writing a list of clean entries comma-separated and parsing it back
      gives the same list, in the same order. */
  lemma ParseListRoundTrip(entries: seq<string>)
    requires entries != []
    requires forall i :: 0 <= i < |entries| ==> entries[i] != [] && Trimmed(entries[i]) && ',' !in entries[i]
    ensures ParseList(Join(entries, ',')) == entries
  {
    SplitJoin(entries, ',');
    StripNonBlankClean(entries);
  }

  /** `os.environ.get('DJANGO_DEBUG', 'False').lower() == 'true'`, which
      holds exactly for the four-letter spellings of "true" in any case. */
  function ParseDebug(value: string): (debug: bool)
    ensures debug <==> |value| == 4
                       && (value[0] == 't' || value[0] == 'T')
                       && (value[1] == 'r' || value[1] == 'R')
                       && (value[2] == 'u' || value[2] == 'U')
                       && (value[3] == 'e' || value[3] == 'E')
  {
    var lowered := Lower(value);
    assert |value| == 4 ==> lowered == [LowerChar(value[0]), LowerChar(value[1]), LowerChar(value[2]), LowerChar(value[3])];
    lowered == "true"
  }

  /** The transport-security settings that follow from DEBUG. */
  datatype Security = Security(
    hstsSeconds: nat,
    hstsIncludeSubdomains: bool,
    hstsPreload: bool,
    sslRedirect: bool,
    sessionCookieSecure: bool,
    csrfCookieSecure: bool)

  /** Every protection on: one-year HSTS with subdomains and preload, HTTPS
      redirect and secure-only cookies. */
  predicate Hardened(s: Security) {
    s == Security(HstsOneYear, true, true, true, true, true)
  }

  /** Every protection off. */
  predicate Relaxed(s: Security) {
    s == Security(0, false, false, false, false, false)
  }

  function SecurityFor(debug: bool): (s: Security)
    ensures Hardened(s) != Relaxed(s)
  {
    Security(if debug then 0 else HstsOneYear, !debug, !debug, !debug, !debug, !debug)
  }

  /** Production (DEBUG off) gets every protection, DEBUG gets none, and
      there is no mixture. */
  lemma SecurityFollowsDebug(debug: bool)
    ensures Hardened(SecurityFor(debug)) <==> !debug
    ensures Relaxed(SecurityFor(debug)) <==> debug
    ensures (SecurityFor(debug).hstsSeconds == 0) <==> debug
  {
  }

  datatype Config = Config(
    secretKey: string,
    debug: bool,
    allowedHosts: seq<string>,
    corsAllowedOrigins: seq<string>,
    security: Security)

  /** The settings read once the secret key is known to be present. */
  function Configure(env: Env, key: string): (c: Config)
    ensures c.secretKey == key
    ensures c.debug <==> DebugVar in env && ParseDebug(env[DebugVar])
    ensures c.allowedHosts == ParseList(GetEnv(env, AllowedHostsVar, ""))
    ensures c.corsAllowedOrigins == ParseList(GetEnv(env, CorsOriginsVar, ""))
    ensures Hardened(c.security) <==> !c.debug
    ensures Relaxed(c.security) <==> c.debug
  {
    var debug := ParseDebug(GetEnv(env, DebugVar, "False"));
    assert DebugVar !in env ==> !debug;
    SecurityFollowsDebug(debug);
    var hosts := ParseList(GetEnv(env, AllowedHostsVar, ""));
    var origins := ParseList(GetEnv(env, CorsOriginsVar, ""));
    Config(key, debug, hosts, origins, SecurityFor(debug))
  }

  /** An unset list variable gives the empty list. */
  lemma UnsetListsEmpty(env: Env, key: string)
    ensures AllowedHostsVar !in env ==> Configure(env, key).allowedHosts == []
    ensures CorsOriginsVar !in env ==> Configure(env, key).corsAllowedOrigins == []
  {
    assert GetEnv(env, AllowedHostsVar, "") == "" <== AllowedHostsVar !in env;
    assert GetEnv(env, CorsOriginsVar, "") == "" <== CorsOriginsVar !in env;
  }

  /** Evaluating the settings module: a missing or empty secret key raises
      ValueError before anything else is read. */
  function Load(env: Env): (r: Result<Config, string>)
    ensures r.Failure? <==> SecretKeyVar !in env || env[SecretKeyVar] == ""
    ensures r.Failure? ==> r.error == MissingSecretKey
    ensures r.Success? ==> SecretKeyVar in env && env[SecretKeyVar] != "" && r.value == Configure(env, env[SecretKeyVar])
  {
    var key := GetEnv(env, SecretKeyVar, "");
    if key == "" then Failure(MissingSecretKey)
    else
      assert SecretKeyVar in env && key == env[SecretKeyVar];
      Success(Configure(env, key))
  }
}
